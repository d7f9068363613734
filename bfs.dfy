/**
 * BFS (algorithms.js): breadth-first search from the top-left cell (index 0)
 * to the bottom-right cell (index |g| - 1). The start is never put into
 * `visited`, so it can be queued again from a neighbour; this is harmless
 * and kept.
 *
 * The proof tracks, as ghost state, the level of every discovered cell (the
 * number of steps of its `cameFrom` chain), the level each queue entry was
 * pushed at, and the set of expanded cells. Levels along the queue never
 * decrease and span at most one, every open wall out of an expanded cell
 * leads to a discovered cell at most one level further, and every
 * discovered cell below the front level has been expanded. From these: the
 * path returned is a walk of least length, and an empty queue leaves a set
 * of cells closed under moves that holds the start but not the goal.
 */
module Bfs {
  import opened Cells
  import opened Trees
  import opened Moves
  import opened Paths
  import opened Discovery

  datatype Frontier = Frontier(
    queue: seq<nat>, visited: set<nat>, cameFrom: map<nat, nat>,
    level: map<nat, nat>, levels: seq<nat>, expanded: set<nat>)

  /** Discovered cells are the visited ones and the start; their `cameFrom` chains are walks. */
  ghost predicate Tracked(g: seq<Cell>, s: Frontier)
  {
    && |g| >= 1
    && (forall v :: v in s.level ==> v < |g|)
    && s.level.Keys == s.visited + {0}
    && ParentChain(s.cameFrom, s.level, 0)
    && OpenLinks(g, s.cameFrom, s.level, 0)
    && |s.levels| == |s.queue|
    && (forall x :: 0 <= x < |s.queue| ==> s.queue[x] in s.level)
    && s.expanded <= s.level.Keys
    && |g| - 1 !in s.expanded
  }

  /** The queue is ordered by level and spans at most one level; an entry not yet expanded sits at its own level. */
  ghost predicate Ordered(s: Frontier)
  {
    && (forall x :: 0 <= x < |s.levels| - 1 ==> s.levels[x] <= s.levels[x + 1])
    && (s.levels != [] ==> s.levels[|s.levels| - 1] <= s.levels[0] + 1)
    && (forall x :: 0 <= x < |s.queue| && x < |s.levels| && s.queue[x] in s.level && s.queue[x] !in s.expanded ==>
          s.level[s.queue[x]] == s.levels[x])
  }

  /** Expanded cells lie at or below the front level, all discovered ones at most one deeper; the queue holds every discovered cell not yet expanded. */
  ghost predicate Covered(s: Frontier)
  {
    && (s.levels != [] ==> forall v :: v in s.expanded && v in s.level ==> s.level[v] <= s.levels[0])
    && (s.levels != [] ==> forall v :: v in s.level ==> s.level[v] <= s.levels[0] + 1)
    && (forall v :: v in s.level ==> v in s.expanded || v in s.queue)
  }

  /** Every open wall out of an expanded cell leads to a discovered cell at most one level further. */
  ghost predicate Explored(g: seq<Cell>, s: Frontier)
  {
    forall u, w :: u in s.expanded && u in s.level && Open(g, u, w) ==> w in s.level && s.level[w] <= s.level[u] + 1
  }

  /** Only the start is ever queued twice or queued after its expansion. */
  ghost predicate Once(s: Frontier)
  {
    && (s.expanded == {} ==> s.queue == [0] && s.levels == [0])
    && (s.expanded != {} ==> 0 in s.expanded)
    && (forall x :: 0 <= x < |s.queue| && s.queue[x] != 0 ==> s.queue[x] !in s.expanded)
    && (forall x, y :: 0 <= x < y < |s.queue| && s.queue[x] == s.queue[y] ==> s.queue[x] == 0)
  }

  ghost predicate Inv(g: seq<Cell>, s: Frontier)
  {
    Tracked(g, s) && Ordered(s) && Covered(s) && Explored(g, s) && Once(s)
  }

  /** One turn of the loop on the ghost state: dequeue, expand, push the fresh neighbours one level deeper. */
  ghost function Expand(s: Frontier, nbrs: seq<nat>): Frontier
    requires s.queue != [] && |s.levels| == |s.queue|
  {
    var u := s.queue[0];
    var added := Fresh(nbrs, s.visited);
    var h := s.levels[0] + 1;
    Frontier(
      s.queue[1..] + added,
      s.visited + (set w | w in nbrs),
      Link(s.cameFrom, added, u),
      s.level + (map w | w in added && w !in s.level :: h),
      s.levels[1..] + seq(|added|, _ => h),
      s.expanded + {u})
  }

  ghost function Unexpanded(g: seq<Cell>, e: set<nat>): set<nat>
  {
    set k: nat | k < |g| && k !in e
  }

  ghost function Unseen(g: seq<Cell>, visited: set<nat>): set<nat>
  {
    set k: nat | k < |g| && k !in visited
  }

  /**
   * BFS: the path it returns is a walk from the start to the goal that no
   * other such walk is shorter than, and it returns [] exactly when the
   * goal cannot be reached.
   */
  method BFS(g: seq<Cell>, n: int) returns (path: seq<nat>)
    requires WellFormed(g, n)
    ensures path != [] ==> Walk(g, path) && path[0] == 0 && path[|path| - 1] == |g| - 1
    ensures path == [] <==> !Reachable(g, 0, |g| - 1)
    ensures path != [] ==> forall p :: Walk(g, p) && p[0] == 0 && p[|p| - 1] == |g| - 1 ==> |path| <= |p|
  {
    var start, goal := 0, |g| - 1;
    var queue: seq<nat> := [start];
    var visited: set<nat> := {};
    var cameFrom: map<nat, nat> := map[];
    ghost var level: map<nat, nat> := map[start := 0];
    ghost var levels: seq<nat> := [0];
    ghost var expanded: set<nat> := {};
    while |queue| > 0
      invariant Inv(g, Frontier(queue, visited, cameFrom, level, levels, expanded))
      decreases Unexpanded(g, expanded), Unseen(g, visited), |queue|
    {
      ghost var s := Frontier(queue, visited, cameFrom, level, levels, expanded);
      var current := queue[0];
      queue := queue[1..];
      if current == goal {
        path := ReconstructPath(cameFrom, start, goal, level);
        Found(g, s, path);
        return;
      }
      var neighbors := ValidNeighbors(g, n, current);
      queue, visited, cameFrom := PushUnvisited(neighbors, current, queue, visited, cameFrom);
      ghost var r := Expand(s, neighbors);
      ExpandKeeps(g, n, s, neighbors);
      level, levels, expanded := r.level, r.levels, r.expanded;
    }
    Exhausted(g, Frontier(queue, visited, cameFrom, level, levels, expanded));
    path := [];
  }

  /** Facts about one expansion that the invariant lemmas share. */
  lemma ExpandBasics(g: seq<Cell>, s: Frontier, nbrs: seq<nat>)
    requires Inv(g, s) && s.queue != []
    requires forall m: nat :: m in nbrs <==> Open(g, s.queue[0], m)
    ensures forall w :: w in Fresh(nbrs, s.visited) <==> w in nbrs && w !in s.visited
    ensures forall w :: w in Fresh(nbrs, s.visited) ==>
              w < |g| && w != s.queue[0] && Open(g, s.queue[0], w) && (w in s.level ==> w == 0 && w in s.expanded)
    ensures forall w :: Open(g, s.queue[0], w) ==> w in s.level || w in Fresh(nbrs, s.visited)
    ensures forall x, y :: 0 <= x < y < |Fresh(nbrs, s.visited)| ==> Fresh(nbrs, s.visited)[x] != Fresh(nbrs, s.visited)[y]
    ensures s.queue[0] in s.expanded ==> Fresh(nbrs, s.visited) == [] && forall w :: w in nbrs ==> w in s.visited
    ensures s.queue[0] !in s.expanded ==> s.level[s.queue[0]] == s.levels[0]
    ensures s.queue[0] != 0 ==> 0 in s.expanded
  {
    var u := s.queue[0];
    FreshMembers(nbrs, s.visited);
    FreshDistinct(nbrs, s.visited);
    if u in s.expanded {
      assert u == 0;
      forall w | w in nbrs ensures w in s.visited {
        assert Open(g, u, w);
      }
      NothingFresh(nbrs, s.visited);
    }
  }

  /** The levels of a sorted queue are at least the front level. */
  lemma {:induction false} FrontLeast(levels: seq<nat>, x: nat)
    requires forall y :: 0 <= y < |levels| - 1 ==> levels[y] <= levels[y + 1]
    requires x < |levels|
    ensures levels[0] <= levels[x]
    decreases x
  {
    if x > 0 {
      FrontLeast(levels, x - 1);
    }
  }

  /** The levels after an expansion: old cells keep theirs, newly discovered ones get one more than the front. */
  lemma LevelAfter(s: Frontier, nbrs: seq<nat>, added: seq<nat>)
    requires |s.levels| == |s.queue| && s.queue != []
    requires added == Fresh(nbrs, s.visited)
    ensures forall v :: v in Expand(s, nbrs).level <==> v in s.level || v in added
    ensures forall v :: v in s.level ==> Expand(s, nbrs).level[v] == s.level[v]
    ensures forall v :: v in added && v !in s.level ==> Expand(s, nbrs).level[v] == s.levels[0] + 1
  {
  }

  /** An expansion keeps the parent links of the discovered cells ranked by level and open. */
  lemma ExpandChain(g: seq<Cell>, s: Frontier, nbrs: seq<nat>, added: seq<nat>)
    requires |s.levels| == |s.queue| && s.queue != [] && s.queue[0] in s.level
    requires ParentChain(s.cameFrom, s.level, 0) && OpenLinks(g, s.cameFrom, s.level, 0)
    requires added == Fresh(nbrs, s.visited)
    requires forall w :: w in added ==> Open(g, s.queue[0], w) && (w in s.level ==> w == 0)
    requires added != [] ==> s.level[s.queue[0]] == s.levels[0]
    ensures ParentChain(Expand(s, nbrs).cameFrom, Expand(s, nbrs).level, 0)
    ensures OpenLinks(g, Expand(s, nbrs).cameFrom, Expand(s, nbrs).level, 0)
  {
    var u, r := s.queue[0], Expand(s, nbrs);
    LinkFacts(s.cameFrom, added, u);
    LevelAfter(s, nbrs, added);
    forall v | v in r.cameFrom && v in r.level && v != 0
      ensures r.cameFrom[v] in r.level && r.level[r.cameFrom[v]] + 1 == r.level[v]
      ensures Open(g, r.cameFrom[v], v)
    {
      if v in added {
        assert r.cameFrom[v] == u && v !in s.level;
      } else {
        assert r.cameFrom[v] == s.cameFrom[v] && v in s.level;
      }
    }
  }

  /** An expansion keeps the level map and the parent links of the discovered cells consistent. */
  lemma ExpandTracked(g: seq<Cell>, s: Frontier, nbrs: seq<nat>, added: seq<nat>)
    requires Tracked(g, s) && s.queue != [] && s.queue[0] != |g| - 1
    requires added == Fresh(nbrs, s.visited)
    requires forall w :: w in added <==> w in nbrs && w !in s.visited
    requires forall w :: w in added ==> w < |g| && w != s.queue[0] && Open(g, s.queue[0], w) && (w in s.level ==> w == 0)
    requires added != [] ==> s.level[s.queue[0]] == s.levels[0]
    ensures Tracked(g, Expand(s, nbrs))
  {
    var r := Expand(s, nbrs);
    LevelAfter(s, nbrs, added);
    assert r.level.Keys == r.visited + {0};
    ExpandChain(g, s, nbrs, added);
  }

  /** An expansion keeps the queue ordered by level and spanning at most one level. */
  lemma ExpandOrdered(s: Frontier, nbrs: seq<nat>, added: seq<nat>)
    requires |s.levels| == |s.queue| && s.queue != []
    requires forall x :: 0 <= x < |s.queue| ==> s.queue[x] in s.level
    requires Ordered(s)
    requires added == Fresh(nbrs, s.visited)
    requires forall w :: w in added && w in s.level ==> w in s.expanded
    ensures Ordered(Expand(s, nbrs))
  {
    var u, r, h := s.queue[0], Expand(s, nbrs), s.levels[0] + 1;
    var k := |s.queue| - 1;
    LevelAfter(s, nbrs, added);
    forall x | 0 <= x < |r.queue|
      ensures x < k ==> r.queue[x] == s.queue[x + 1] && r.levels[x] == s.levels[x + 1]
      ensures k <= x ==> r.queue[x] == added[x - k] && r.levels[x] == h
    {
    }
    assert r.levels != [] ==> s.levels[0] <= r.levels[0];
  }

  /** After an expansion the expanded cell is covered, and newly discovered cells wait in the queue. */
  lemma ExpandCovered(s: Frontier, nbrs: seq<nat>, added: seq<nat>)
    requires |s.levels| == |s.queue| && s.queue != []
    requires s.expanded <= s.level.Keys && s.queue[0] in s.level
    requires forall x :: 0 <= x < |s.levels| - 1 ==> s.levels[x] <= s.levels[x + 1]
    requires Covered(s)
    requires added == Fresh(nbrs, s.visited)
    requires s.queue[0] !in s.expanded ==> s.level[s.queue[0]] == s.levels[0]
    ensures Covered(Expand(s, nbrs))
  {
    var u, r, h := s.queue[0], Expand(s, nbrs), s.levels[0] + 1;
    var k := |s.queue| - 1;
    LevelAfter(s, nbrs, added);
    assert r.levels != [] ==> s.levels[0] <= r.levels[0] by {
      if k > 0 {
        assert r.levels[0] == s.levels[1];
      }
    }
    CoverAfter(s, nbrs, added);
  }

  /** Every discovered cell not expanded after a turn is still, or newly, in the queue. */
  lemma CoverAfter(s: Frontier, nbrs: seq<nat>, added: seq<nat>)
    requires |s.levels| == |s.queue| && s.queue != []
    requires forall v :: v in s.level ==> v in s.expanded || v in s.queue
    requires added == Fresh(nbrs, s.visited)
    ensures forall v :: v in Expand(s, nbrs).level ==> v in Expand(s, nbrs).expanded || v in Expand(s, nbrs).queue
  {
    var r, k := Expand(s, nbrs), |s.queue| - 1;
    LevelAfter(s, nbrs, added);
    forall v | v in r.level && v !in r.expanded ensures v in r.queue {
      if v in s.level {
        var x :| 0 <= x < |s.queue| && s.queue[x] == v;
        assert x > 0 && r.queue[x - 1] == v;
      } else {
        var y :| 0 <= y < |added| && added[y] == v;
        assert r.queue[k + y] == v;
      }
    }
  }

  /** An expansion extends the explored region by the expanded cell's neighbours, one level deeper. */
  lemma ExpandExplored(g: seq<Cell>, s: Frontier, nbrs: seq<nat>, added: seq<nat>)
    requires Explored(g, s) && s.queue != [] && |s.levels| == |s.queue| && s.queue[0] in s.level
    requires s.expanded <= s.level.Keys
    requires 0 in s.level && s.level[0] == 0
    requires forall v :: v in s.level ==> s.level[v] <= s.levels[0] + 1
    requires added == Fresh(nbrs, s.visited)
    requires forall w :: Open(g, s.queue[0], w) ==> w in s.level || w in added
    requires forall w :: w in added && w in s.level ==> w == 0
    requires s.queue[0] !in s.expanded ==> s.level[s.queue[0]] == s.levels[0]
    ensures Explored(g, Expand(s, nbrs))
  {
    var u, r, h := s.queue[0], Expand(s, nbrs), s.levels[0] + 1;
    LevelAfter(s, nbrs, added);
    forall a, w | a in r.expanded && a in r.level && Open(g, a, w)
      ensures w in r.level && r.level[w] <= r.level[a] + 1
    {
      if a in s.expanded {
        assert a in s.level;
      } else {
        assert a == u && s.level[u] == s.levels[0];
      }
    }
  }

  /** An expansion queues no cell twice except the start, and never an expanded one. */
  lemma ExpandOnce(s: Frontier, nbrs: seq<nat>, added: seq<nat>)
    requires |s.levels| == |s.queue| && s.queue != []
    requires (forall x :: 0 <= x < |s.queue| ==> s.queue[x] in s.level) && s.expanded <= s.level.Keys
    requires Once(s)
    requires added == Fresh(nbrs, s.visited)
    requires forall x, y :: 0 <= x < y < |added| ==> added[x] != added[y]
    requires forall w :: w in added ==> w != s.queue[0] && (w in s.level ==> w == 0)
    requires s.queue[0] != 0 ==> 0 in s.expanded
    ensures Once(Expand(s, nbrs))
  {
    var u, r := s.queue[0], Expand(s, nbrs);
    var k := |s.queue| - 1;
    forall x | 0 <= x < |r.queue|
      ensures x < k ==> r.queue[x] == s.queue[x + 1]
      ensures k <= x ==> r.queue[x] == added[x - k]
    {
    }
    forall x | 0 <= x < |r.queue| && r.queue[x] != 0 ensures r.queue[x] !in r.expanded {
      if x < k {
        assert s.queue[x + 1] != u;
      } else {
        assert added[x - k] in added;
      }
    }
    forall x, y | 0 <= x < y < |r.queue| ensures r.queue[x] == r.queue[y] ==> r.queue[x] == 0 {
      if y < k {
        assert r.queue[x] == s.queue[x + 1] && r.queue[y] == s.queue[y + 1];
      } else if k <= x {
        assert added[x - k] != added[y - k];
      } else {
        assert added[y - k] in added && s.queue[x + 1] in s.level;
      }
    }
  }

  /** The loop's invariant survives a turn, and the turn either expands a new cell or shortens the queue. */
  lemma ExpandKeeps(g: seq<Cell>, n: int, s: Frontier, nbrs: seq<nat>)
    requires Inv(g, s) && s.queue != [] && s.queue[0] != |g| - 1
    requires forall m: nat :: m in nbrs <==> Open(g, s.queue[0], m)
    ensures Inv(g, Expand(s, nbrs))
    ensures Unexpanded(g, Expand(s, nbrs).expanded) < Unexpanded(g, s.expanded) ||
            (Unexpanded(g, Expand(s, nbrs).expanded) == Unexpanded(g, s.expanded) &&
             Unseen(g, Expand(s, nbrs).visited) == Unseen(g, s.visited) &&
             |Expand(s, nbrs).queue| < |s.queue|)
  {
    var added := Fresh(nbrs, s.visited);
    ExpandBasics(g, s, nbrs);
    ExpandShrinks(g, s, nbrs);
    ExpandTracked(g, s, nbrs, added);
    ExpandOrdered(s, nbrs, added);
    ExpandCovered(s, nbrs, added);
    ExpandExplored(g, s, nbrs, added);
    ExpandOnce(s, nbrs, added);
  }

  /** A turn either expands a cell not expanded before, or changes nothing but the queue, which gets shorter. */
  lemma ExpandShrinks(g: seq<Cell>, s: Frontier, nbrs: seq<nat>)
    requires |s.levels| == |s.queue| && s.queue != [] && s.queue[0] < |g|
    requires s.queue[0] in s.expanded ==> forall w :: w in nbrs ==> w in s.visited
    ensures Unexpanded(g, Expand(s, nbrs).expanded) < Unexpanded(g, s.expanded) ||
            (Unexpanded(g, Expand(s, nbrs).expanded) == Unexpanded(g, s.expanded) &&
             Unseen(g, Expand(s, nbrs).visited) == Unseen(g, s.visited) &&
             |Expand(s, nbrs).queue| < |s.queue|)
  {
    var u, r := s.queue[0], Expand(s, nbrs);
    if u in s.expanded {
      NothingFresh(nbrs, s.visited);
      assert r.expanded == s.expanded;
      assert r.visited == s.visited;
    } else {
      assert u in Unexpanded(g, s.expanded);
    }
  }

  /** Every walk from the start, as far as level h, meets only discovered cells no deeper than its step count. */
  lemma {:induction false} LevelBound(g: seq<Cell>, s: Frontier, h: nat, p: seq<nat>, i: nat)
    requires Explored(g, s) && 0 in s.level && s.level[0] == 0
    requires forall v :: v in s.level && s.level[v] < h ==> v in s.expanded
    requires Walk(g, p) && p[0] == 0
    requires i < |p| && i <= h
    ensures p[i] in s.level && s.level[p[i]] <= i
    decreases i
  {
    if i > 0 {
      LevelBound(g, s, h, p, i - 1);
      assert Open(g, p[i - 1], p[i]);
    }
  }

  /** Every discovered cell below the front level has been expanded. */
  lemma BelowFront(s: Frontier)
    requires |s.levels| == |s.queue| && s.queue != []
    requires Ordered(s) && Covered(s)
    ensures forall v :: v in s.level && s.level[v] < s.levels[0] ==> v in s.expanded
  {
    forall v | v in s.level && s.level[v] < s.levels[0] ensures v in s.expanded {
      if v !in s.expanded {
        var x :| 0 <= x < |s.queue| && s.queue[x] == v;
        FrontLeast(s.levels, x);
      }
    }
  }

  /** When the goal reaches the front of the queue, its `cameFrom` chain is a shortest walk. */
  lemma Found(g: seq<Cell>, s: Frontier, path: seq<nat>)
    requires Inv(g, s) && s.queue != [] && s.queue[0] == |g| - 1
    requires path == ChainPath(s.cameFrom, s.level, 0, |g| - 1)
    ensures Walk(g, path) && path[0] == 0 && path[|path| - 1] == |g| - 1
    ensures forall p :: Walk(g, p) && p[0] == 0 && p[|p| - 1] == |g| - 1 ==> |path| <= |p|
  {
    var t := |g| - 1;
    ChainWalk(g, s.cameFrom, s.level, 0, t);
    assert s.level[t] == s.levels[0];
    BelowFront(s);
    NoShorter(g, s, s.levels[0], t);
  }

  /** No walk from the start reaches a cell of level h in fewer than h steps, once everything below h is expanded. */
  lemma NoShorter(g: seq<Cell>, s: Frontier, h: nat, t: nat)
    requires Explored(g, s) && 0 in s.level && s.level[0] == 0
    requires forall v :: v in s.level && s.level[v] < h ==> v in s.expanded
    requires t in s.level && s.level[t] == h
    ensures forall p :: Walk(g, p) && p[0] == 0 && p[|p| - 1] == t ==> h + 1 <= |p|
  {
    forall p | Walk(g, p) && p[0] == 0 && p[|p| - 1] == t ensures h + 1 <= |p| {
      if |p| - 1 < h {
        LevelBound(g, s, h, p, |p| - 1);
      }
    }
  }

  /** With the queue empty, the expanded cells are closed under moves: the goal is out of reach. */
  lemma Exhausted(g: seq<Cell>, s: Frontier)
    requires Inv(g, s) && s.queue == []
    ensures !Reachable(g, 0, |g| - 1)
  {
    assert Closed(g, s.expanded);
    Unreachable(g, s.expanded, 0, |g| - 1);
  }
}
