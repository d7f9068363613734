/**
 * DFS (algorithms.js): depth-first search from cell 0 to cell |g| - 1 with
 * an explicit stack. A neighbour is marked visited when it is pushed, not
 * when it is popped; as in BFS, the start is never marked and can be pushed
 * again from a neighbour.
 *
 * The proof tracks, as ghost state, the depth of every discovered cell in
 * the `cameFrom` tree and the set of expanded cells: every discovered cell is
 * expanded or on the stack, and every open wall out of an expanded cell
 * leads to a discovered cell.
 */
module Dfs {
  import opened Cells
  import opened Trees
  import opened Moves
  import opened Paths
  import opened Discovery

  datatype Pile = Pile(
    stack: seq<nat>, visited: set<nat>, cameFrom: map<nat, nat>,
    depth: map<nat, nat>, expanded: set<nat>)

  /** Discovered cells are the visited ones and the start; their `cameFrom` chains are walks. */
  ghost predicate Tracked(g: seq<Cell>, s: Pile)
  {
    && |g| >= 1
    && (forall v :: v in s.depth ==> v < |g|)
    && s.depth.Keys == s.visited + {0}
    && ParentChain(s.cameFrom, s.depth, 0)
    && OpenLinks(g, s.cameFrom, s.depth, 0)
    && (forall x :: 0 <= x < |s.stack| ==> s.stack[x] in s.depth)
    && s.expanded <= s.depth.Keys
    && |g| - 1 !in s.expanded
  }

  /** Every discovered cell is expanded or waits on the stack; open walls out of expanded cells lead to discovered cells. */
  ghost predicate Covered(g: seq<Cell>, s: Pile)
  {
    && (forall v :: v in s.depth ==> v in s.expanded || v in s.stack)
    && (forall u, w :: u in s.expanded && Open(g, u, w) ==> w in s.depth)
  }

  /** Only the start is ever pushed twice or pushed after its expansion. */
  ghost predicate Once(s: Pile)
  {
    && (s.expanded == {} ==> s.stack == [0])
    && (s.expanded != {} ==> 0 in s.expanded)
    && (forall x :: 0 <= x < |s.stack| && s.stack[x] != 0 ==> s.stack[x] !in s.expanded)
    && (forall x, y :: 0 <= x < y < |s.stack| && s.stack[x] == s.stack[y] ==> s.stack[x] == 0)
  }

  ghost predicate Inv(g: seq<Cell>, s: Pile)
  {
    Tracked(g, s) && Covered(g, s) && Once(s)
  }

  /** One turn of the loop on the ghost state: pop, expand, push the fresh neighbours one level deeper. */
  ghost function Expand(s: Pile, nbrs: seq<nat>): Pile
    requires s.stack != [] && s.stack[|s.stack| - 1] in s.depth
  {
    var u := s.stack[|s.stack| - 1];
    var added := Fresh(nbrs, s.visited);
    Pile(
      s.stack[..|s.stack| - 1] + added,
      s.visited + (set w | w in nbrs),
      Link(s.cameFrom, added, u),
      s.depth + (map w | w in added && w !in s.depth :: s.depth[u] + 1),
      s.expanded + {u})
  }

  ghost function Unexpanded(g: seq<Cell>, e: set<nat>): set<nat>
  {
    set k: nat | k < |g| && k !in e
  }

  ghost function Unseen(g: seq<Cell>, visited: set<nat>): set<nat>
  {
    set k: nat | k < |g| && k !in visited
  }

  /**
   * DFS: the path it returns is a walk from the start to the goal, and it
   * returns [] exactly when the goal cannot be reached.
   */
  method DFS(g: seq<Cell>, n: int) returns (path: seq<nat>)
    requires WellFormed(g, n)
    ensures path != [] ==> Walk(g, path) && path[0] == 0 && path[|path| - 1] == |g| - 1
    ensures path == [] <==> !Reachable(g, 0, |g| - 1)
  {
    var start, goal := 0, |g| - 1;
    var stack: seq<nat> := [start];
    var visited: set<nat> := {};
    var cameFrom: map<nat, nat> := map[];
    ghost var depth: map<nat, nat> := map[start := 0];
    ghost var expanded: set<nat> := {};
    while |stack| > 0
      invariant Inv(g, Pile(stack, visited, cameFrom, depth, expanded))
      decreases Unexpanded(g, expanded), Unseen(g, visited), |stack|
    {
      ghost var s := Pile(stack, visited, cameFrom, depth, expanded);
      var current := stack[|stack| - 1];
      stack := stack[..|stack| - 1];
      if current == goal {
        path := ReconstructPath(cameFrom, start, goal, depth);
        ChainWalk(g, cameFrom, depth, start, goal);
        return;
      }
      var neighbors := ValidNeighbors(g, n, current);
      stack, visited, cameFrom := PushUnvisited(neighbors, current, stack, visited, cameFrom);
      ghost var r := Expand(s, neighbors);
      ExpandKeeps(g, s, neighbors);
      depth, expanded := r.depth, r.expanded;
    }
    Exhausted(g, Pile(stack, visited, cameFrom, depth, expanded));
    path := [];
  }

  /** Facts about one expansion that the invariant lemmas share. */
  lemma ExpandBasics(g: seq<Cell>, s: Pile, nbrs: seq<nat>)
    requires Inv(g, s) && s.stack != []
    requires forall m: nat :: m in nbrs <==> Open(g, s.stack[|s.stack| - 1], m)
    ensures forall w :: w in Fresh(nbrs, s.visited) <==> w in nbrs && w !in s.visited
    ensures forall w :: w in Fresh(nbrs, s.visited) ==>
              w < |g| && w != s.stack[|s.stack| - 1] && Open(g, s.stack[|s.stack| - 1], w) &&
              (w in s.depth ==> w == 0 && w in s.expanded)
    ensures forall w :: Open(g, s.stack[|s.stack| - 1], w) ==> w in s.depth || w in Fresh(nbrs, s.visited)
    ensures forall x, y :: 0 <= x < y < |Fresh(nbrs, s.visited)| ==> Fresh(nbrs, s.visited)[x] != Fresh(nbrs, s.visited)[y]
    ensures s.stack[|s.stack| - 1] in s.expanded ==> forall w :: w in nbrs ==> w in s.visited
    ensures s.stack[|s.stack| - 1] != 0 ==> 0 in s.expanded
  {
    var u := s.stack[|s.stack| - 1];
    FreshMembers(nbrs, s.visited);
    FreshDistinct(nbrs, s.visited);
    if u in s.expanded {
      assert u == 0;
      forall w | w in nbrs ensures w in s.visited {
        assert Open(g, u, w);
      }
    }
  }

  /** The depths after an expansion: old cells keep theirs, newly discovered ones lie one below the expanded cell. */
  lemma DepthAfter(s: Pile, nbrs: seq<nat>, added: seq<nat>)
    requires s.stack != [] && s.stack[|s.stack| - 1] in s.depth
    requires added == Fresh(nbrs, s.visited)
    ensures forall v :: v in Expand(s, nbrs).depth <==> v in s.depth || v in added
    ensures forall v :: v in s.depth ==> Expand(s, nbrs).depth[v] == s.depth[v]
    ensures forall v :: v in added && v !in s.depth ==>
              Expand(s, nbrs).depth[v] == s.depth[s.stack[|s.stack| - 1]] + 1
  {
  }

  /** An expansion keeps the parent links of the discovered cells ranked by depth and open. */
  lemma ExpandChain(g: seq<Cell>, s: Pile, nbrs: seq<nat>, added: seq<nat>)
    requires s.stack != [] && s.stack[|s.stack| - 1] in s.depth
    requires ParentChain(s.cameFrom, s.depth, 0) && OpenLinks(g, s.cameFrom, s.depth, 0)
    requires added == Fresh(nbrs, s.visited)
    requires forall w :: w in added ==> Open(g, s.stack[|s.stack| - 1], w) && (w in s.depth ==> w == 0)
    ensures ParentChain(Expand(s, nbrs).cameFrom, Expand(s, nbrs).depth, 0)
    ensures OpenLinks(g, Expand(s, nbrs).cameFrom, Expand(s, nbrs).depth, 0)
  {
    var u, r := s.stack[|s.stack| - 1], Expand(s, nbrs);
    DepthAfter(s, nbrs, added);
    LinkFacts(s.cameFrom, added, u);
    forall v | v in r.cameFrom && v in r.depth && v != 0
      ensures r.cameFrom[v] in r.depth && r.depth[r.cameFrom[v]] + 1 == r.depth[v]
      ensures Open(g, r.cameFrom[v], v)
    {
      if v in added {
        assert r.cameFrom[v] == u && v !in s.depth;
      } else {
        assert r.cameFrom[v] == s.cameFrom[v] && v in s.depth;
      }
    }
  }

  /** An expansion keeps the depth map and the parent links of the discovered cells consistent. */
  lemma ExpandTracked(g: seq<Cell>, s: Pile, nbrs: seq<nat>, added: seq<nat>)
    requires Tracked(g, s) && s.stack != [] && s.stack[|s.stack| - 1] != |g| - 1
    requires added == Fresh(nbrs, s.visited)
    requires forall w :: w in added <==> w in nbrs && w !in s.visited
    requires forall w :: w in added ==>
               w < |g| && Open(g, s.stack[|s.stack| - 1], w) && (w in s.depth ==> w == 0)
    ensures Tracked(g, Expand(s, nbrs))
  {
    var r := Expand(s, nbrs);
    KeysAfter(s, nbrs, added);
    DepthAfter(s, nbrs, added);
    ExpandChain(g, s, nbrs, added);
  }

  /** The cells discovered after an expansion are still the visited ones and the start. */
  lemma KeysAfter(s: Pile, nbrs: seq<nat>, added: seq<nat>)
    requires s.stack != [] && s.stack[|s.stack| - 1] in s.depth
    requires s.depth.Keys == s.visited + {0}
    requires added == Fresh(nbrs, s.visited)
    requires forall w :: w in added <==> w in nbrs && w !in s.visited
    ensures Expand(s, nbrs).depth.Keys == Expand(s, nbrs).visited + {0}
  {
    DepthAfter(s, nbrs, added);
  }

  /** After an expansion, discovered cells are still expanded or stacked, and the expanded cell's open walls lead to discovered cells. */
  lemma ExpandCovered(g: seq<Cell>, s: Pile, nbrs: seq<nat>, added: seq<nat>)
    requires Covered(g, s) && s.stack != [] && s.stack[|s.stack| - 1] in s.depth
    requires added == Fresh(nbrs, s.visited)
    requires forall w :: Open(g, s.stack[|s.stack| - 1], w) ==> w in s.depth || w in added
    ensures Covered(g, Expand(s, nbrs))
  {
    var r, k := Expand(s, nbrs), |s.stack| - 1;
    DepthAfter(s, nbrs, added);
    forall v | v in r.depth && v !in r.expanded ensures v in r.stack {
      if v in s.depth {
        var x :| 0 <= x < |s.stack| && s.stack[x] == v;
        assert x < k && r.stack[x] == v;
      } else {
        var y :| 0 <= y < |added| && added[y] == v;
        assert r.stack[k + y] == v;
      }
    }
  }

  /** An expansion pushes no cell twice except the start, and never an expanded one. */
  lemma ExpandOnce(s: Pile, nbrs: seq<nat>, added: seq<nat>)
    requires s.stack != []
    requires (forall x :: 0 <= x < |s.stack| ==> s.stack[x] in s.depth) && s.expanded <= s.depth.Keys
    requires Once(s)
    requires added == Fresh(nbrs, s.visited)
    requires forall x, y :: 0 <= x < y < |added| ==> added[x] != added[y]
    requires forall w :: w in added ==> w != s.stack[|s.stack| - 1] && (w in s.depth ==> w == 0)
    requires s.stack[|s.stack| - 1] != 0 ==> 0 in s.expanded
    ensures Once(Expand(s, nbrs))
  {
    var u, r := s.stack[|s.stack| - 1], Expand(s, nbrs);
    var k := |s.stack| - 1;
    forall x | 0 <= x < |r.stack|
      ensures x < k ==> r.stack[x] == s.stack[x]
      ensures k <= x ==> r.stack[x] == added[x - k]
    {
    }
    forall x | 0 <= x < |r.stack| && r.stack[x] != 0 ensures r.stack[x] !in r.expanded {
      if x < k {
        assert s.stack[x] != u;
      } else {
        assert added[x - k] in added;
      }
    }
    forall x, y | 0 <= x < y < |r.stack| ensures r.stack[x] == r.stack[y] ==> r.stack[x] == 0 {
      if y < k {
        assert r.stack[x] == s.stack[x] && r.stack[y] == s.stack[y];
      } else if k <= x {
        assert added[x - k] != added[y - k];
      } else {
        assert added[y - k] in added && s.stack[x] in s.depth;
      }
    }
  }

  /** A turn either expands a cell not expanded before, or changes nothing but the stack, which gets shorter. */
  lemma ExpandShrinks(g: seq<Cell>, s: Pile, nbrs: seq<nat>)
    requires s.stack != [] && s.stack[|s.stack| - 1] in s.depth && s.stack[|s.stack| - 1] < |g|
    requires s.stack[|s.stack| - 1] in s.expanded ==> forall w :: w in nbrs ==> w in s.visited
    ensures Unexpanded(g, Expand(s, nbrs).expanded) < Unexpanded(g, s.expanded) ||
            (Unexpanded(g, Expand(s, nbrs).expanded) == Unexpanded(g, s.expanded) &&
             Unseen(g, Expand(s, nbrs).visited) == Unseen(g, s.visited) &&
             |Expand(s, nbrs).stack| < |s.stack|)
  {
    var u, r := s.stack[|s.stack| - 1], Expand(s, nbrs);
    if u in s.expanded {
      NothingFresh(nbrs, s.visited);
      assert r.expanded == s.expanded;
      assert r.visited == s.visited;
    } else {
      assert u in Unexpanded(g, s.expanded);
    }
  }

  /** The loop's invariant survives a turn, and the turn makes progress. */
  lemma ExpandKeeps(g: seq<Cell>, s: Pile, nbrs: seq<nat>)
    requires Inv(g, s) && s.stack != [] && s.stack[|s.stack| - 1] != |g| - 1
    requires forall m: nat :: m in nbrs <==> Open(g, s.stack[|s.stack| - 1], m)
    ensures Inv(g, Expand(s, nbrs))
    ensures Unexpanded(g, Expand(s, nbrs).expanded) < Unexpanded(g, s.expanded) ||
            (Unexpanded(g, Expand(s, nbrs).expanded) == Unexpanded(g, s.expanded) &&
             Unseen(g, Expand(s, nbrs).visited) == Unseen(g, s.visited) &&
             |Expand(s, nbrs).stack| < |s.stack|)
  {
    var added := Fresh(nbrs, s.visited);
    ExpandBasics(g, s, nbrs);
    ExpandShrinks(g, s, nbrs);
    ExpandTracked(g, s, nbrs, added);
    ExpandCovered(g, s, nbrs, added);
    ExpandOnce(s, nbrs, added);
  }

  /** With the stack empty, the expanded cells are closed under moves: the goal is out of reach. */
  lemma Exhausted(g: seq<Cell>, s: Pile)
    requires Inv(g, s) && s.stack == []
    ensures !Reachable(g, 0, |g| - 1)
  {
    assert Closed(g, s.expanded);
    Unreachable(g, s.expanded, 0, |g| - 1);
  }
}
