/**
 * reconstructPath (algorithms.js): following `cameFrom` links back from the
 * goal until the start, and why the result is a walk through open walls.
 */
module Paths {
  import opened Cells
  import opened Trees
  import opened Moves

  /** Every ranked cell other than the root is entered from its parent through an open wall. */
  ghost predicate OpenLinks(g: seq<Cell>, parent: map<nat, nat>, rank: map<nat, nat>, root: nat)
  {
    forall v {:trigger parent[v]} :: v in parent && v in rank && v != root ==> Open(g, parent[v], v)
  }

  /** With open parent links, the chain from the root to v is a walk. */
  lemma ChainWalk(g: seq<Cell>, parent: map<nat, nat>, rank: map<nat, nat>, root: nat, v: nat)
    requires ParentChain(parent, rank, root) && v in rank && root < |g|
    requires OpenLinks(g, parent, rank, root)
    ensures Walk(g, ChainPath(parent, rank, root, v))
  {
    var p: seq<nat> := ChainPath(parent, rank, root, v);
    forall x | 0 <= x < |p| - 1 ensures Open(g, p[x], p[x + 1]) {
      assert p[x + 1] in parent && parent[p[x + 1]] == p[x];
      assert rank[p[x + 1]] == x + 1;
    }
    forall x | 0 <= x < |p| ensures p[x] < |g| {
      if x > 0 {
        assert p[x] in parent && parent[p[x]] == p[x - 1] && rank[p[x]] == x;
      }
    }
  }

  /**
   * reconstructPath: from the goal, put each cell in front of the path and
   * step to its parent until the start is reached, then put the start in
   * front. The result starts at `start`, ends at `goal`, and every cell after
   * the first has the cell before it as its parent.
   */
  method ReconstructPath(parent: map<nat, nat>, start: nat, goal: nat, ghost rank: map<nat, nat>)
      returns (path: seq<nat>)
    requires ParentChain(parent, rank, start) && goal in rank
    ensures path == ChainPath(parent, rank, start, goal)
    ensures |path| == rank[goal] + 1 && path[0] == start && path[|path| - 1] == goal
    ensures forall x :: 0 < x < |path| ==> path[x] in parent && parent[path[x]] == path[x - 1]
  {
    path := [];
    var current := goal;
    while current != start
      invariant current in rank
      invariant ChainPath(parent, rank, start, goal) == ChainPath(parent, rank, start, current) + path
      decreases rank[current]
    {
      path := [current] + path;
      current := parent[current];
    }
    path := [start] + path;
  }
}
