/**
 * Facts about generation that do not depend on the order of its steps:
 * once no visited cell borders an unvisited one, every cell is visited; and
 * a parent tree whose edges are the carved passages joins every cell to the
 * root through open walls.
 */
module Spanning {
  import opened Cells
  import opened Walls
  import opened Trees

  /** No visited cell has an unvisited grid neighbour. */
  ghost predicate NoFrontier(g: seq<Cell>)
  {
    forall a: nat, b: nat :: a < |g| && b < |g| && g[a].visited && Dir(g, a, b) != -1 ==> g[b].visited
  }

  lemma {:induction false} Spread(g: seq<Cell>, n: int, i: int, j: int, i2: int, j2: int)
    requires WellFormed(g, n) && NoFrontier(g)
    requires 0 <= i < n && 0 <= j < n && 0 <= i2 < n && 0 <= j2 < n
    requires g[GetIndex(i, j, n)].visited
    ensures g[GetIndex(i2, j2, n)].visited
    decreases (if i < i2 then i2 - i else i - i2) + (if j < j2 then j2 - j else j - j2)
  {
    if i != i2 || j != j2 {
      var ni := if i < i2 then i + 1 else if i > i2 then i - 1 else i;
      var nj := if i != i2 then j else if j < j2 then j + 1 else j - 1;
      CellCoords(g, n, i, j);
      CellCoords(g, n, ni, nj);
      assert Dir(g, GetIndex(i, j, n), GetIndex(ni, nj, n)) != -1;
      Spread(g, n, ni, nj, i2, j2);
    }
  }

  /** The grid is connected: a visited cell and no frontier mean every cell is visited. */
  lemma NoFrontierAllVisited(g: seq<Cell>, n: int, k0: nat)
    requires WellFormed(g, n) && NoFrontier(g) && k0 < |g| && g[k0].visited
    ensures forall k :: 0 <= k < |g| ==> g[k].visited
  {
    assert CellAt(g[k0], k0, n);
    forall k | 0 <= k < |g| ensures g[k].visited {
      assert CellAt(g[k], k, n);
      Spread(g, n, g[k0].i, g[k0].j, g[k].i, g[k].j);
    }
  }

  /** The edges of a parent tree, as unordered pairs. */
  ghost function TreeEdges(parent: map<nat, nat>): set<(nat, nat)>
  {
    set v | v in parent :: Pair(parent[v], v)
  }

  /** Consecutive cells of p are joined by a carved passage. */
  ghost predicate PassageWalk(g: seq<Cell>, n: int, p: seq<nat>)
    requires WellFormed(g, n)
  {
    && (forall x :: 0 <= x < |p| ==> p[x] < |g|)
    && (forall x :: 0 <= x < |p| - 1 ==> OpenBetween(g, n, p[x], p[x + 1]))
  }

  /** When the passages are the tree's edges, the chain back to the root walks through open walls. */
  lemma TreeWalk(g: seq<Cell>, n: int, parent: map<nat, nat>, rank: map<nat, nat>, root: nat, v: nat)
    requires WellFormed(g, n) && ParentChain(parent, rank, root) && v in rank
    requires forall u :: u in rank ==> u < |g|
    requires TreeEdges(parent) <= Passages(g, n)
    ensures PassageWalk(g, n, ChainPath(parent, rank, root, v))
  {
    var p := ChainPath(parent, rank, root, v);
    forall x | 0 <= x < |p| - 1 ensures OpenBetween(g, n, p[x], p[x + 1]) {
      var c := p[x + 1];
      assert c in parent && parent[c] == p[x];
      assert Pair(p[x], c) in TreeEdges(parent);
      var e := Pair(p[x], c);
      assert e in Passages(g, n);
      assert OpenBetween(g, n, e.0, e.1);
    }
  }
}
