/**
 * Moving through the maze as the searches of algorithms.js do: a step from
 * cell a to its grid neighbour b is allowed when a's own wall towards b is
 * down (getValidNeighbors looks at no other flag, so a wall knocked down on
 * one side only is passable one way). Walks, reachability, the Manhattan
 * heuristic and its lower bound on walk lengths.
 */
module Moves {
  import opened Cells

  /** a's wall towards its grid neighbour b is down. */
  ghost predicate Open(g: seq<Cell>, a: nat, b: nat)
  {
    && a < |g| && b < |g|
    && 0 <= Dir(g, a, b) < |g[a].walls|
    && !g[a].walls[Dir(g, a, b)]
  }

  /**
   * getValidNeighbors: the neighbours of cell k that k's open walls lead
   * to, in the order north, east, south, west.
   */
  function ValidNeighbors(g: seq<Cell>, n: int, k: nat): (r: seq<nat>)
    requires WellFormed(g, n) && k < |g|
    ensures forall m: nat :: m in r <==> Open(g, k, m)
    ensures forall x :: 0 <= x < |r| ==> r[x] < |g|
    ensures forall x :: 0 <= x < |r| - 1 ==> Dir(g, k, r[x]) < Dir(g, k, r[x + 1])
  {
    OpenFrom(g, n, k, 0)
  }

  /** The part of getValidNeighbors' scan that starts at direction d. */
  function OpenFrom(g: seq<Cell>, n: int, k: nat, d: nat): (r: seq<nat>)
    requires WellFormed(g, n) && k < |g| && d <= 4
    ensures forall m: nat :: m in r <==> Open(g, k, m) && d <= Dir(g, k, m)
    ensures forall x :: 0 <= x < |r| ==> r[x] < |g| && d <= Dir(g, k, r[x])
    ensures forall x :: 0 <= x < |r| - 1 ==> Dir(g, k, r[x]) < Dir(g, k, r[x + 1])
    decreases 4 - d
  {
    if d == 4 then []
    else
      var rest := OpenFrom(g, n, k, d + 1);
      OpenSlot(g, n, k, d);
      if !g[k].walls[d] && Neighbor(g, n, k, d) != -1 then
        var m: nat := Neighbor(g, n, k, d);
        OpenCons(g, k, d, m, rest);
        [m] + rest
      else
        rest
  }

  /** Putting the open neighbour m in direction d in front of those in later directions lists those from d on, in order. */
  lemma OpenCons(g: seq<Cell>, k: nat, d: nat, m: nat, rest: seq<nat>)
    requires m < |g| && Open(g, k, m) && Dir(g, k, m) == d
    requires forall w: nat :: w in rest <==> Open(g, k, w) && d + 1 <= Dir(g, k, w)
    requires forall x :: 0 <= x < |rest| ==> rest[x] < |g| && d + 1 <= Dir(g, k, rest[x])
    requires forall x :: 0 <= x < |rest| - 1 ==> Dir(g, k, rest[x]) < Dir(g, k, rest[x + 1])
    ensures forall w: nat :: w in [m] + rest <==> Open(g, k, w) && d <= Dir(g, k, w) && (w == m || d + 1 <= Dir(g, k, w))
    ensures forall x :: 0 <= x < |[m] + rest| ==> ([m] + rest)[x] < |g| && d <= Dir(g, k, ([m] + rest)[x])
    ensures forall x :: 0 <= x < |[m] + rest| - 1 ==> Dir(g, k, ([m] + rest)[x]) < Dir(g, k, ([m] + rest)[x + 1])
  {
    var r := [m] + rest;
    forall x | 0 <= x < |r| - 1 ensures Dir(g, k, r[x]) < Dir(g, k, r[x + 1]) {
      if x > 0 {
        assert r[x] == rest[x - 1] && r[x + 1] == rest[x];
      }
    }
  }

  /** The open wall in direction d of cell k, if any, leads to the cell one step that way. */
  lemma OpenSlot(g: seq<Cell>, n: int, k: nat, d: nat)
    requires WellFormed(g, n) && k < |g| && d < 4
    ensures |g[k].walls| == 4
    ensures !g[k].walls[d] && Neighbor(g, n, k, d) != -1 ==>
              0 <= Neighbor(g, n, k, d) < |g| && Open(g, k, Neighbor(g, n, k, d)) && Dir(g, k, Neighbor(g, n, k, d)) == d
    ensures forall m: nat :: Open(g, k, m) && Dir(g, k, m) == d ==> !g[k].walls[d] && Neighbor(g, n, k, d) == m
  {
    assert CellAt(g[k], k, n);
    NeighborSlot(g, n, k, d);
  }

  /** p is a walk: a non-empty sequence of cells, each step through an open wall. */
  ghost predicate Walk(g: seq<Cell>, p: seq<nat>)
  {
    && |p| >= 1
    && (forall x :: 0 <= x < |p| ==> p[x] < |g|)
    && (forall x :: 0 <= x < |p| - 1 ==> Open(g, p[x], p[x + 1]))
  }

  /** Some walk leads from a to b. */
  ghost predicate Reachable(g: seq<Cell>, a: nat, b: nat)
  {
    exists p :: Walk(g, p) && p[0] == a && p[|p| - 1] == b
  }

  /** No open wall leads out of the set e. */
  ghost predicate Closed(g: seq<Cell>, e: set<nat>)
  {
    forall u: nat, w: nat :: u in e && Open(g, u, w) ==> w in e
  }

  /** A walk that starts in a closed set stays in it. */
  lemma {:induction false} ClosedWalk(g: seq<Cell>, e: set<nat>, p: seq<nat>)
    requires Closed(g, e) && Walk(g, p) && p[0] in e
    ensures p[|p| - 1] in e
    decreases |p|
  {
    if |p| > 1 {
      var q := p[..|p| - 1];
      assert Walk(g, q) by {
        forall x | 0 <= x < |q| - 1 ensures Open(g, q[x], q[x + 1]) {
          assert q[x] == p[x] && q[x + 1] == p[x + 1];
        }
      }
      ClosedWalk(g, e, q);
      assert Open(g, p[|p| - 2], p[|p| - 1]);
    }
  }

  /** A closed set holding a but not b: b is not reachable from a. */
  lemma Unreachable(g: seq<Cell>, e: set<nat>, a: nat, b: nat)
    requires Closed(g, e) && a in e && b !in e
    ensures !Reachable(g, a, b)
  {
    if Reachable(g, a, b) {
      var p :| Walk(g, p) && p[0] == a && p[|p| - 1] == b;
      ClosedWalk(g, e, p);
    }
  }

  function Abs(x: int): nat
  {
    if x < 0 then -x else x
  }

  /** heuristic: the Manhattan distance between two cells' coordinates. */
  function Heuristic(a: Cell, b: Cell): (h: nat)
    ensures h == 0 <==> a.i == b.i && a.j == b.j
  {
    Abs(a.i - b.i) + Abs(a.j - b.j)
  }

  /** The heuristic does not depend on the order of its arguments. */
  lemma HeuristicSymmetric(a: Cell, b: Cell)
    ensures Heuristic(a, b) == Heuristic(b, a)
  {
  }

  /** heuristic(cell w, goal): the Manhattan distance from w to the last cell. */
  function ToGoal(g: seq<Cell>, w: nat): nat
    requires w < |g|
  {
    Heuristic(g[w], g[|g| - 1])
  }

  /** A slice of a walk is a walk. */
  lemma WalkSlice(g: seq<Cell>, p: seq<nat>, a: nat, b: nat)
    requires Walk(g, p) && a < b <= |p|
    ensures Walk(g, p[a..b])
  {
    forall x | 0 <= x < b - a - 1 ensures Open(g, p[a..b][x], p[a..b][x + 1]) {
      assert p[a..b][x] == p[a + x] && p[a..b][x + 1] == p[a + x + 1];
    }
  }

  /** A walk from inside e to outside e has a step that leaves e. */
  lemma FirstExit(p: seq<nat>, e: set<nat>) returns (i: nat)
    requires |p| >= 1 && p[0] in e && p[|p| - 1] !in e
    ensures 1 <= i < |p| && p[i - 1] in e && p[i] !in e
  {
    i := 1;
    while p[i] in e
      invariant 1 <= i < |p| && p[i - 1] in e
      decreases |p| - i
    {
      i := i + 1;
    }
  }

  /** The heuristic obeys the triangle inequality. */
  lemma HeuristicTriangle(a: Cell, b: Cell, c: Cell)
    ensures Heuristic(a, c) <= Heuristic(a, b) + Heuristic(b, c)
  {
  }

  /** One step to a grid neighbour changes the heuristic towards any cell by exactly one. */
  lemma HeuristicStep(g: seq<Cell>, a: nat, b: nat, c: Cell)
    requires a < |g| && b < |g| && Dir(g, a, b) != -1
    ensures Heuristic(g[b], c) == Heuristic(g[a], c) + 1 || Heuristic(g[b], c) + 1 == Heuristic(g[a], c)
  {
  }

  /** The heuristic never overestimates: every walk is at least as long as the distance between its ends. */
  lemma {:induction false} HeuristicAdmissible(g: seq<Cell>, p: seq<nat>)
    requires Walk(g, p)
    ensures Heuristic(g[p[0]], g[p[|p| - 1]]) <= |p| - 1
    decreases |p|
  {
    if |p| > 1 {
      var q := p[1..];
      assert Walk(g, q) by {
        forall x | 0 <= x < |q| - 1 ensures Open(g, q[x], q[x + 1]) {
          assert q[x] == p[x + 1] && q[x + 1] == p[x + 2];
        }
      }
      HeuristicAdmissible(g, q);
      assert Open(g, p[0], p[1]);
      HeuristicStep(g, p[0], p[1], g[p[|p| - 1]]);
    }
  }
}
