/**
 * Why generation carves a perfect maze. While the backtracker runs, the
 * open wall pairs are exactly the edges of a tree over the cells reached so
 * far (the visited ones and the current one), rooted at cell 0; every step
 * keeps this, and once every cell is visited the tree spans the grid: N*N-1
 * passages through which every cell is reached from cell 0.
 */
module GeneratorTree {
  import opened Chance
  import opened Cells
  import opened Walls
  import opened Trees
  import opened Spanning
  import opened Generator

  /**
   * The carving invariant: walls agree on both sides; an unvisited cell
   * other than the current one still has all four walls; the cells reached
   * so far (the visited ones and the current one) are ranked in a parent
   * tree rooted at cell 0 whose parents are visited; and the open wall pairs
   * are exactly the tree's edges, one fewer than the cells reached.
   */
  ghost predicate Carving(g: seq<Cell>, n: int, current: nat, parent: map<nat, nat>, rank: map<nat, nat>)
    requires WellFormed(g, n)
  {
    && Symmetric(g, n)
    && ClosedAhead(g, current)
    && Reached(VisitedSet(g), current, parent, rank)
    && Passages(g, n) == TreeEdges(parent)
    && |Passages(g, n)| + 1 == |rank.Keys|
  }

  /** Every unvisited cell other than the current one still has all four walls. */
  ghost predicate ClosedAhead(g: seq<Cell>, current: nat)
  {
    forall k :: 0 <= k < |g| && !g[k].visited && k != current ==> g[k].walls == [true, true, true, true]
  }

  /** The reached cells (visited ones and the current one) form a parent tree rooted at 0 with visited parents. */
  ghost predicate Reached(visited: set<nat>, current: nat, parent: map<nat, nat>, rank: map<nat, nat>)
  {
    && rank.Keys == visited + {current}
    && ParentChain(parent, rank, 0)
    && parent.Keys == rank.Keys - {0}
    && (forall v {:trigger parent[v]} :: v in parent ==> parent[v] in visited)
  }

  /** Hanging a new unvisited cell m under the visited cell cur grows the tree by one cell and one edge. */
  lemma ReachedExtend(visited: set<nat>, cur: nat, m: nat, parent: map<nat, nat>, rank: map<nat, nat>)
    requires Reached(visited, cur, parent, rank) && cur in visited && m !in visited
    ensures Reached(visited, m, parent[m := cur], rank[m := rank[cur] + 1])
    ensures m !in rank && rank[m := rank[cur] + 1].Keys == rank.Keys + {m}
    ensures TreeEdges(parent[m := cur]) == TreeEdges(parent) + {Pair(cur, m)}
  {
    var parent' := parent[m := cur];
    assert m !in parent;
    assert TreeEdges(parent') == TreeEdges(parent) + {Pair(cur, m)} by {
      forall e | e in TreeEdges(parent') ensures e in TreeEdges(parent) + {Pair(cur, m)} {
        var v :| v in parent' && e == Pair(parent'[v], v);
        if v != m {
          assert e in TreeEdges(parent);
        }
      }
      assert Pair(parent'[m], m) in TreeEdges(parent');
      forall e | e in TreeEdges(parent) ensures e in TreeEdges(parent') {
        var v :| v in parent && e == Pair(parent[v], v);
        assert v in parent' && parent'[v] == parent[v];
      }
    }
  }

  /**
   * Carving from the visited current cell into an unvisited neighbour keeps
   * both sides of every wall in agreement, keeps unvisited cells other than
   * the neighbour closed, and opens exactly one pair that was closed before.
   */
  lemma CarveWalls(g: seq<Cell>, n: int, cur: nat, m: nat)
    requires WellFormed(g, n) && Symmetric(g, n) && cur < |g| && ClosedAhead(g, cur)
    requires g[cur].visited && m < |g| && Dir(g, cur, m) != -1 && !g[m].visited
    ensures Symmetric(Carve(g, n, cur, m), n)
    ensures ClosedAhead(Carve(g, n, cur, m), m)
    ensures VisitedSet(Carve(g, n, cur, m)) == VisitedSet(g)
    ensures Passages(Carve(g, n, cur, m), n) == Passages(g, n) + {Pair(cur, m)}
    ensures Pair(cur, m) !in Passages(g, n)
  {
    CarveSymmetric(g, n, cur, m);
    CarvePassages(g, n, cur, m);
    var h := Carve(g, n, cur, m);
    assert VisitedSet(h) == VisitedSet(g);
    assert m != cur && g[m].walls == [true, true, true, true];
    assert !OpenBetween(g, n, cur, m) && !OpenBetween(g, n, m, cur);
  }

  /**
   * What a finished generation leaves: walls that agree on both sides, and
   * N*N-1 passages forming a tree that reaches every cell from cell 0.
   */
  ghost predicate SpanningTree(g: seq<Cell>, n: int, parent: map<nat, nat>, rank: map<nat, nat>)
    requires WellFormed(g, n)
  {
    && Symmetric(g, n)
    && |Passages(g, n)| == |g| - 1
    && Passages(g, n) == TreeEdges(parent)
    && ParentChain(parent, rank, 0)
    && forall v: nat :: v < |g| ==> v in rank && PassageWalk(g, n, ChainPath(parent, rank, 0, v))
  }

  lemma MarkKeepsCarving(g: seq<Cell>, n: int, cur: nat, parent: map<nat, nat>, rank: map<nat, nat>)
    requires WellFormed(g, n) && cur < |g| && Carving(g, n, cur, parent, rank)
    ensures WellFormed(Mark(g, cur), n) && Carving(Mark(g, cur), n, cur, parent, rank)
  {
    MarkFacts(g, n, cur);
  }

  lemma CarveKeepsCarving(g: seq<Cell>, n: int, cur: nat, m: nat, parent: map<nat, nat>, rank: map<nat, nat>)
    requires WellFormed(g, n) && cur < |g| && Carving(g, n, cur, parent, rank)
    requires g[cur].visited && m < |g| && Dir(g, cur, m) != -1 && !g[m].visited
    ensures Carving(Carve(g, n, cur, m), n, m, parent[m := cur], rank[m := rank[cur] + 1])
  {
    CarveWalls(g, n, cur, m);
    ReachedExtend(VisitedSet(g), cur, m, parent, rank);
  }

  lemma PopKeepsCarving(g: seq<Cell>, n: int, cur: nat, top: nat, parent: map<nat, nat>, rank: map<nat, nat>)
    requires WellFormed(g, n) && cur < |g| && Carving(g, n, cur, parent, rank)
    requires g[cur].visited && top < |g| && g[top].visited
    ensures Carving(g, n, top, parent, rank)
  {
    assert VisitedSet(g) + {top} == VisitedSet(g) + {cur};
  }

  /** With every cell visited, the carving invariant is a spanning tree. */
  lemma CarvingComplete(g: seq<Cell>, n: int, cur: nat, parent: map<nat, nat>, rank: map<nat, nat>)
    requires WellFormed(g, n) && cur < |g| && Carving(g, n, cur, parent, rank)
    requires forall k :: 0 <= k < |g| ==> g[k].visited
    ensures SpanningTree(g, n, parent, rank)
  {
    VisitedCount(g);
    assert rank.Keys == VisitedSet(g);
    forall v: nat | v < |g| ensures v in rank && PassageWalk(g, n, ChainPath(parent, rank, 0, v)) {
      TreeWalk(g, n, parent, rank, 0, v);
    }
  }


  /** The fresh grid: no passages, all walls up, only cell 0 reached. */
  lemma FreshCarving(n: nat)
    requires n >= 1
    ensures Carving(FreshGrid(n), n, 0, map[], map[0 := 0])
  {
    var g := FreshGrid(n);
    assert forall k :: 0 <= k < |g| ==> g[k].walls == [true, true, true, true];
    assert Passages(g, n) == {} by {
      assert forall a: nat, b: nat :: a < |g| && b < |g| ==> !OpenBetween(g, n, a, b);
    }
    assert TreeEdges(map[]) == {};
  }

  /** One generateStep keeps the carving invariant, hanging a newly entered cell under the cell it was carved from. */
  lemma StepKeepsCarving(n: int, s: Gen, rand: Oracle, t: nat, parent: map<nat, nat>, rank: map<nat, nat>)
      returns (parent': map<nat, nat>, rank': map<nat, nat>)
    requires GenValid(n, s) && InRange(rand) && Carving(s.grid, n, s.current, parent, rank)
    ensures Carving(Step(n, s, rand, t).grid, n, Step(n, s, rand, t).current, parent', rank')
  {
    var r := Step(n, s, rand, t);
    StepCases(n, s, rand, t);
    if !DeadEnd(Mark(s.grid, s.current), s.current) {
      AdvanceKeepsCarving(n, s, r, parent, rank);
      parent', rank' := parent[r.current := s.current], rank[r.current := rank[s.current] + 1];
    } else {
      RetreatKeepsCarving(n, s, r, parent, rank);
      parent', rank' := parent, rank;
    }
  }

  lemma AdvanceKeepsCarving(n: int, s: Gen, r: Gen, parent: map<nat, nat>, rank: map<nat, nat>)
    requires GenValid(n, s) && Carving(s.grid, n, s.current, parent, rank)
    requires r.current < |s.grid| && Dir(s.grid, s.current, r.current) != -1 && !s.grid[r.current].visited
    requires r.grid == Carve(Mark(s.grid, s.current), n, s.current, r.current)
    ensures WellFormed(r.grid, n)
    ensures Carving(r.grid, n, r.current, parent[r.current := s.current], rank[r.current := rank[s.current] + 1])
  {
    MarkCarveKeepsCarving(s.grid, n, s.current, r.current, parent, rank);
  }

  /** Marking the current cell visited and carving into an unvisited neighbour keeps the carving invariant. */
  lemma MarkCarveKeepsCarving(g: seq<Cell>, n: int, cur: nat, m: nat, parent: map<nat, nat>, rank: map<nat, nat>)
    requires WellFormed(g, n) && cur < |g| && Carving(g, n, cur, parent, rank)
    requires m < |g| && Dir(g, cur, m) != -1 && !g[m].visited
    ensures WellFormed(Mark(g, cur), n)
    ensures WellFormed(Carve(Mark(g, cur), n, cur, m), n)
    ensures Carving(Carve(Mark(g, cur), n, cur, m), n, m, parent[m := cur], rank[m := rank[cur] + 1])
  {
    var marked := Mark(g, cur);
    MarkKeepsCarving(g, n, cur, parent, rank);
    assert Dir(marked, cur, m) == Dir(g, cur, m);
    CarveKeepsCarving(marked, n, cur, m, parent, rank);
  }

  lemma RetreatKeepsCarving(n: int, s: Gen, r: Gen, parent: map<nat, nat>, rank: map<nat, nat>)
    requires GenValid(n, s) && Carving(s.grid, n, s.current, parent, rank)
    requires r.grid == Mark(s.grid, s.current)
    requires r.current == s.current || (r.current in s.stack && r.current < |s.grid|)
    ensures WellFormed(r.grid, n)
    ensures Carving(r.grid, n, r.current, parent, rank)
  {
    MarkKeepsCarving(s.grid, n, s.current, parent, rank);
    if r.current != s.current {
      var x :| 0 <= x < |s.stack| && s.stack[x] == r.current;
      PopKeepsCarving(r.grid, n, s.current, r.current, parent, rank);
    }
  }

  /** Running the generator to completion from a state with the carving invariant leaves a spanning tree. */
  lemma {:induction false} RunSpanning(n: int, s: Gen, rand: Oracle, t: nat, parent: map<nat, nat>, rank: map<nat, nat>)
      returns (parent': map<nat, nat>, rank': map<nat, nat>)
    requires GenValid(n, s) && InRange(rand) && Carving(s.grid, n, s.current, parent, rank)
    ensures SpanningTree(Run(n, s, rand, t).grid, n, parent', rank')
    decreases |Pending(s)|, |s.stack|, if s.grid[s.current].visited then 0 else 1
  {
    if Completed(s) {
      VisitedCount(s.grid);
      CarvingComplete(s.grid, n, s.current, parent, rank);
      parent', rank' := parent, rank;
    } else {
      StepProgress(n, s, rand, t);
      var p1, r1 := StepKeepsCarving(n, s, rand, t, parent, rank);
      parent', rank' := RunSpanning(n, Step(n, s, rand, t), rand, t + 1, p1, r1);
    }
  }

  /**
   * generateCompleteMaze on a freshly constructed model, whatever the random
   * draws, carves a perfect maze: N*N-1 passages forming a tree that joins
   * every cell to cell 0.
   */
  lemma GeneratedMazeIsSpanningTree(n: nat, rand: Oracle) returns (parent: map<nat, nat>, rank: map<nat, nat>)
    requires n >= 1 && InRange(rand)
    ensures SpanningTree(Run(n, Initial(n), rand, 0).grid, n, parent, rank)
  {
    FreshCarving(n);
    parent, rank := RunSpanning(n, Initial(n), rand, 0, map[], map[0 := 0]);
  }
}
