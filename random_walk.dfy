/**
 * randomWalk and trueRandomWalk (algorithms.js). Each random pick among
 * `len` candidates is the oracle's answer rand(t, len) for the t-th pick.
 * Every property below holds for every oracle that answers in range, so it
 * holds whatever the random numbers turn out to be.
 *
 * randomWalk is a depth-first walk: it steps to a random neighbour it has
 * not visited, records where it came from, and backs up along `cameFrom`
 * when every neighbour is visited. Its ghost state adds the depth of each
 * linked cell and the chain of cells from the start to the current one;
 * every visited cell off that chain has all its neighbours visited, so
 * backing out of the start means the goal is out of reach.
 */
module RandomWalks {
  import opened Chance
  import opened Cells
  import opened Trees
  import opened Moves
  import opened Paths
  import opened Discovery

  /** The state of randomWalk's loop, with the depths and the chain from the start as ghost parts. */
  datatype Walker = Walker(current: nat, visited: set<nat>, cameFrom: map<nat, nat>, depth: map<nat, nat>, chain: seq<nat>)

  /** The cells not linked yet: each forward step links one of them. */
  ghost function Unlinked(g: seq<Cell>, cameFrom: map<nat, nat>): set<nat>
  {
    set k: nat | k < |g| && k !in cameFrom
  }

  /** The links form a tree rooted at the start, ranked by depth, each entered through an open wall from a visited cell. */
  ghost predicate Tree(g: seq<Cell>, s: Walker)
  {
    Ranked(s) && Hooked(g, s)
  }

  /** The depths rank the links as a parent chain rooted at the start. */
  ghost predicate Ranked(s: Walker)
  {
    && ParentChain(s.cameFrom, s.depth, 0)
    && s.depth.Keys == s.cameFrom.Keys + {0}
    && 0 !in s.cameFrom
  }

  /** Each linked cell is visited or current, and hangs through an open wall from a visited cell. */
  ghost predicate Hooked(g: seq<Cell>, s: Walker)
  {
    && (forall v :: v in s.cameFrom ==> s.cameFrom[v] in s.visited && Open(g, s.cameFrom[v], v))
    && (forall v :: v in s.cameFrom ==> v in s.visited || v == s.current)
  }

  /** The chain runs from the start to the current cell, one link and one depth at a time. */
  ghost predicate Chain(s: Walker)
  {
    && s.chain != [] && s.chain[|s.chain| - 1] == s.current
    && (forall x :: 0 <= x < |s.chain| ==> s.chain[x] in s.depth && s.depth[s.chain[x]] == x)
    && (forall x :: 0 < x < |s.chain| ==> s.chain[x] in s.cameFrom && s.cameFrom[s.chain[x]] == s.chain[x - 1])
  }

  /** Every visited cell off the chain has all its open neighbours visited. */
  ghost predicate Explored(g: seq<Cell>, s: Walker)
  {
    forall v, w :: v in s.visited && v !in s.chain && Open(g, v, w) ==> w in s.visited
  }

  ghost predicate Inv(g: seq<Cell>, s: Walker)
  {
    && |g| >= 1 && s.current < |g|
    && (forall v :: v in s.visited ==> v < |g|)
    && |g| - 1 !in s.visited
    && (s.visited == {} ==> s.current == 0 && s.cameFrom == map[])
    && (s.visited != {} ==> 0 in s.visited)
    && Tree(g, s) && Chain(s) && Explored(g, s)
  }

  /** Visit the current cell and step forward to `next`, linking it to the current cell. */
  ghost function Forward(s: Walker, next: nat): Walker
  {
    Walker(next, s.visited + {s.current}, s.cameFrom[next := s.current],
           s.depth[next := |s.chain|], s.chain + [next])
  }

  /** Visit the current cell and back up to the cell it came from. */
  ghost function Back(s: Walker): Walker
    requires s.current in s.cameFrom && s.chain != []
  {
    Walker(s.cameFrom[s.current], s.visited + {s.current}, s.cameFrom, s.depth, s.chain[..|s.chain| - 1])
  }

  /**
   * randomWalk: when it returns a path, the path is a walk from the start
   * to the goal that visits no cell twice; it returns [] exactly when the
   * goal cannot be reached, whatever the random choices.
   */
  method RandomWalk(g: seq<Cell>, n: int, rand: Oracle) returns (path: seq<nat>)
    requires WellFormed(g, n) && InRange(rand)
    ensures path != [] ==> Walk(g, path) && path[0] == 0 && path[|path| - 1] == |g| - 1
    ensures path != [] ==> forall x, y :: 0 <= x < y < |path| ==> path[x] != path[y]
    ensures path == [] <==> !Reachable(g, 0, |g| - 1)
  {
    var start, goal := 0, |g| - 1;
    var current := start;
    var visited: set<nat> := {};
    var cameFrom: map<nat, nat> := map[];
    var step: nat := 0;
    ghost var st := Walker(current, visited, cameFrom, map[start := 0], [start]);
    while current != goal
      invariant Inv(g, st)
      invariant st.current == current && st.visited == visited && st.cameFrom == cameFrom
      decreases Unlinked(g, st.cameFrom), |st.chain|
    {
      ghost var s := st;
      visited := visited + {current};
      var neighbors := ValidNeighbors(g, n, current);
      var unvisitedNeighbors := Unvisited(neighbors, visited);
      UnvisitedMembers(neighbors, visited);
      if |unvisitedNeighbors| == 0 {
        if current !in cameFrom {
          Cornered(g, s, neighbors, unvisitedNeighbors);
          return [];
        }
        current := cameFrom[current];
        st := Walker(current, visited, cameFrom, s.depth, s.chain[..|s.chain| - 1]);
        BackKeeps(g, s, neighbors, unvisitedNeighbors, st);
        continue;
      }
      var next := unvisitedNeighbors[Draw(rand, step, |unvisitedNeighbors|)];
      step := step + 1;
      cameFrom := cameFrom[next := current];
      current := next;
      st := Walker(current, visited, cameFrom, s.depth[next := |s.chain|], s.chain + [next]);
      ForwardKeeps(g, s, next, st);
    }
    AtGoal(g, st);
    path := ReconstructPath(cameFrom, start, goal, st.depth);
    Delivered(g, st, path);
  }

  /** Stepping forward to an open neighbour that is not visited keeps the invariant and links one more cell. */
  lemma {:induction false} ForwardKeeps(g: seq<Cell>, s: Walker, next: nat, r: Walker)
    requires Inv(g, s) && s.current != |g| - 1
    requires Open(g, s.current, next) && next !in s.visited + {s.current}
    requires r == Forward(s, next)
    ensures Inv(g, r)
    ensures Unlinked(g, r.cameFrom) < Unlinked(g, s.cameFrom)
  {
    assert s.chain[|s.chain| - 1] == s.current;
    assert next !in s.depth;
    ForwardChain(s, next);
    ForwardTree(g, s, next);
    assert next in Unlinked(g, s.cameFrom);
  }

  lemma {:induction false} ForwardChain(s: Walker, next: nat)
    requires Chain(s) && next !in s.depth
    ensures Chain(Forward(s, next))
  {
    var r := Forward(s, next);
    forall x | 0 <= x < |r.chain| ensures r.chain[x] in r.depth && r.depth[r.chain[x]] == x {
      if x < |s.chain| {
        assert r.chain[x] == s.chain[x];
      }
    }
    forall x | 0 < x < |r.chain| ensures r.chain[x] in r.cameFrom && r.cameFrom[r.chain[x]] == r.chain[x - 1] {
      if x < |s.chain| {
        assert r.chain[x] == s.chain[x] && r.chain[x - 1] == s.chain[x - 1];
      }
    }
  }

  lemma {:induction false} ForwardTree(g: seq<Cell>, s: Walker, next: nat)
    requires Tree(g, s) && s.current in s.depth && s.depth[s.current] == |s.chain| - 1
    requires next !in s.depth && next != 0
    requires Open(g, s.current, next) && next !in s.visited
    ensures Tree(g, Forward(s, next))
  {
    ForwardRanked(s, next);
    ForwardHooked(g, s, next);
  }

  lemma {:induction false} ForwardRanked(s: Walker, next: nat)
    requires Ranked(s) && s.current in s.depth && s.depth[s.current] == |s.chain| - 1
    requires next !in s.depth && next != 0
    ensures Ranked(Forward(s, next))
  {
    var r := Forward(s, next);
    AddLeaf(s.cameFrom, s.depth, 0, s.current, next);
    assert r.depth.Keys == s.depth.Keys + {next};
  }

  lemma {:induction false} ForwardHooked(g: seq<Cell>, s: Walker, next: nat)
    requires Hooked(g, s) && Open(g, s.current, next)
    ensures Hooked(g, Forward(s, next))
  {
  }



  /** Backing up from a cell whose open neighbours are all visited keeps the invariant and shortens the chain. */
  lemma {:induction false} BackKeeps(g: seq<Cell>, s: Walker, nbrs: seq<nat>, unvisited: seq<nat>, r: Walker)
    requires Inv(g, s) && s.current != |g| - 1 && s.current in s.cameFrom
    requires forall m: nat :: m in nbrs <==> Open(g, s.current, m)
    requires forall w :: w in unvisited <==> w in nbrs && w !in s.visited + {s.current}
    requires |unvisited| == 0
    requires s.chain != [] && r == Back(s)
    ensures Inv(g, r)
    ensures r.cameFrom == s.cameFrom && |r.chain| < |s.chain|
  {
    var k := |s.chain| - 1;
    assert r.chain[k - 1] == s.chain[k - 1];
    assert s.current !in r.chain by {
      forall x | 0 <= x < |r.chain| ensures r.chain[x] != s.current {
        assert r.chain[x] == s.chain[x];
      }
    }
    assert forall w: nat :: Open(g, s.current, w) ==> w in r.visited by {
      forall w: nat | Open(g, s.current, w) ensures w in r.visited {
        assert w in nbrs;
      }
    }
    BackChain(s);
    BackExplored(g, s);
  }

  lemma {:induction false} BackChain(s: Walker)
    requires Chain(s) && |s.chain| >= 2 && s.current in s.cameFrom
    ensures Chain(Back(s))
  {
    var r := Back(s);
    var k := |s.chain| - 1;
    assert r.chain[k - 1] == s.chain[k - 1];
    forall x | 0 <= x < |r.chain| ensures r.chain[x] in r.depth && r.depth[r.chain[x]] == x {
      assert r.chain[x] == s.chain[x];
    }
    forall x | 0 < x < |r.chain| ensures r.chain[x] in r.cameFrom && r.cameFrom[r.chain[x]] == r.chain[x - 1] {
      assert r.chain[x] == s.chain[x] && r.chain[x - 1] == s.chain[x - 1];
    }
  }

  lemma {:induction false} BackExplored(g: seq<Cell>, s: Walker)
    requires Explored(g, s) && Chain(s) && |s.chain| >= 2 && s.current in s.cameFrom
    requires forall w: nat :: Open(g, s.current, w) ==> w in s.visited + {s.current}
    ensures Explored(g, Back(s))
  {
    var r := Back(s);
    forall v, w | v in r.visited && v !in r.chain && Open(g, v, w) ensures w in r.visited {
      if v != s.current {
        assert s.chain == r.chain + [s.current];
        assert v !in s.chain;
      }
    }
  }

  /** Backing out of the start leaves the visited cells closed under moves: the goal is out of reach. */
  lemma {:induction false} Cornered(g: seq<Cell>, s: Walker, nbrs: seq<nat>, unvisited: seq<nat>)
    requires Inv(g, s) && s.current != |g| - 1 && s.current !in s.cameFrom
    requires forall m: nat :: m in nbrs <==> Open(g, s.current, m)
    requires forall w :: w in unvisited <==> w in nbrs && w !in s.visited + {s.current}
    requires |unvisited| == 0
    ensures !Reachable(g, 0, |g| - 1)
  {
    var e := s.visited + {s.current};
    assert s.chain == [s.current];
    RankZeroIsRoot(s.cameFrom, s.depth, 0, s.current);
    forall v: nat, w: nat | v in e && Open(g, v, w) ensures w in e {
      if v == s.current {
        assert w in nbrs;
      } else {
        assert v !in s.chain;
      }
    }
    Unreachable(g, e, 0, |g| - 1);
  }

  /** At the goal, the links rank a chain from the start through open walls. */
  lemma {:induction false} AtGoal(g: seq<Cell>, s: Walker)
    requires Inv(g, s) && s.current == |g| - 1
    ensures ParentChain(s.cameFrom, s.depth, 0) && |g| - 1 in s.depth
    ensures OpenLinks(g, s.cameFrom, s.depth, 0)
  {
    assert s.chain[|s.chain| - 1] == s.current;
  }

  /** A walk followed by a step through an open wall is a walk. */
  lemma {:induction false} Extend(g: seq<Cell>, p: seq<nat>, m: nat)
    requires Walk(g, p) && m < |g| && Open(g, p[|p| - 1], m)
    ensures Walk(g, p + [m])
  {
    var q := p + [m];
    forall x | 0 <= x < |q| - 1 ensures Open(g, q[x], q[x + 1]) {
      assert q[x] == p[x];
    }
  }

  /** The path rebuilt at the goal is a walk from the start that repeats no cell. */
  lemma {:induction false} Delivered(g: seq<Cell>, s: Walker, path: seq<nat>)
    requires |g| >= 1 && ParentChain(s.cameFrom, s.depth, 0) && |g| - 1 in s.depth
    requires OpenLinks(g, s.cameFrom, s.depth, 0)
    requires path == ChainPath(s.cameFrom, s.depth, 0, |g| - 1)
    ensures Walk(g, path) && path[0] == 0 && path[|path| - 1] == |g| - 1
    ensures forall x, y :: 0 <= x < y < |path| ==> path[x] != path[y]
    ensures Reachable(g, 0, |g| - 1)
  {
    ChainWalk(g, s.cameFrom, s.depth, 0, |g| - 1);
  }

  /** How trueRandomWalk ends: at the goal, at a cell with no open wall, or after the step budget. */
  datatype Roam = Arrived(path: seq<nat>) | Stuck(path: seq<nat>) | OutOfSteps(path: seq<nat>)

  /**
   * trueRandomWalk: step to a random open neighbour, visited or not, until
   * the goal is reached. The path is always a walk from the start that
   * meets the goal only at its end, if at all.
   */
  method TrueRandomWalk(g: seq<Cell>, n: int, rand: Oracle, fuel: nat) returns (r: Roam)
    requires WellFormed(g, n) && InRange(rand)
    ensures Walk(g, r.path) && r.path[0] == 0 && |r.path| <= fuel + 1
    ensures forall x :: 0 <= x < |r.path| - 1 ==> r.path[x] != |g| - 1
    ensures r.Arrived? <==> r.path[|r.path| - 1] == |g| - 1
    ensures r.Arrived? ==> Reachable(g, 0, |g| - 1)
    ensures r.Stuck? ==> ValidNeighbors(g, n, r.path[|r.path| - 1]) == []
    ensures r.OutOfSteps? ==> |r.path| == fuel + 1
  {
    var start, goal := 0, |g| - 1;
    var current := start;
    var path := [start];
    var step: nat := 0;
    while current != goal
      invariant Walk(g, path) && path[0] == start && path[|path| - 1] == current
      invariant |path| == step + 1 && step <= fuel
      invariant forall x :: 0 <= x < |path| - 1 ==> path[x] != goal
      decreases fuel - step
    {
      if step == fuel {
        return OutOfSteps(path);
      }
      var neighbors := ValidNeighbors(g, n, current);
      if |neighbors| == 0 {
        return Stuck(path);
      }
      var next := neighbors[Draw(rand, step, |neighbors|)];
      Extend(g, path, next);
      path := path + [next];
      current := next;
      step := step + 1;
    }
    return Arrived(path);
  }
}
