/**
 * Wall flags of the grid: knocking walls down (carvePath, createRandomHoles),
 * agreement of the two sides of a wall, the passages of a maze and the wall
 * total that countWalls computes (model.js).
 */
module Walls {
  import opened Cells

  /** The grid with wall d of cell k knocked down; nothing else changes. */
  function ClearWall(g: seq<Cell>, k: nat, d: int): (r: seq<Cell>)
    requires k < |g| && 0 <= d < |g[k].walls|
    ensures |r| == |g| && r[k] == g[k].(walls := g[k].walls[d := false])
    ensures forall x :: 0 <= x < |g| && x != k ==> r[x] == g[x]
  {
    g[k := g[k].(walls := g[k].walls[d := false])]
  }

  /** After knocking down wall d of cell k, a flag is up exactly when it was up and is not that one. */
  lemma ClearWallFlags(g: seq<Cell>, k: nat, d: nat)
    requires k < |g| && d < |g[k].walls|
    ensures forall x, e :: 0 <= x < |g| && 0 <= e < |g[x].walls| ==>
              ClearWall(g, k, d)[x].walls[e] == (g[x].walls[e] && (x, e) != (k, d))
  {
  }

  /** Knocking down a wall keeps the grid well formed. */
  lemma ClearWallShape(g: seq<Cell>, n: int, k: nat, d: nat)
    requires WellFormed(g, n) && k < |g| && d < 4
    ensures WellFormed(ClearWall(g, k, d), n)
  {
    assert CellAt(g[k], k, n);
    var r := ClearWall(g, k, d);
    assert forall x :: 0 <= x < |r| ==> CellAt(r[x], x, n);
  }

  /** The part of carvePath that looks at the column difference. */
  function CarveColumns(g: seq<Cell>, n: int, a: nat, b: nat): (r: seq<Cell>)
    requires WellFormed(g, n) && a < |g| && b < |g|
    ensures WellFormed(r, n)
    ensures forall k :: 0 <= k < |g| ==> r[k].i == g[k].i && r[k].j == g[k].j && r[k].visited == g[k].visited
    ensures forall k :: 0 <= k < |g| && k != a && k != b ==> r[k] == g[k]
    ensures forall k, d :: 0 <= k < |g| && 0 <= d < 4 && !g[k].walls[d] ==> !r[k].walls[d]
    ensures g[a].i - g[b].i !in {-1, 1} ==> r == g
  {
    assert CellAt(g[a], a, n) && CellAt(g[b], b, n);
    var dx := g[a].i - g[b].i;
    if dx == 1 then ClearWall(ClearWall(g, a, WEST), b, EAST)
    else if dx == -1 then ClearWall(ClearWall(g, a, EAST), b, WEST)
    else g
  }

  /** The part of carvePath that looks at the row difference. */
  function CarveRows(g: seq<Cell>, n: int, a: nat, b: nat): (r: seq<Cell>)
    requires WellFormed(g, n) && a < |g| && b < |g|
    ensures WellFormed(r, n)
    ensures forall k :: 0 <= k < |g| ==> r[k].i == g[k].i && r[k].j == g[k].j && r[k].visited == g[k].visited
    ensures forall k :: 0 <= k < |g| && k != a && k != b ==> r[k] == g[k]
    ensures forall k, d :: 0 <= k < |g| && 0 <= d < 4 && !g[k].walls[d] ==> !r[k].walls[d]
    ensures g[a].j - g[b].j !in {-1, 1} ==> r == g
  {
    assert CellAt(g[a], a, n) && CellAt(g[b], b, n);
    var dy := g[a].j - g[b].j;
    if dy == 1 then ClearWall(ClearWall(g, a, NORTH), b, SOUTH)
    else if dy == -1 then ClearWall(ClearWall(g, a, SOUTH), b, NORTH)
    else g
  }

  /**
   * carvePath(a, b): when a's column is one more (less) than b's, a loses
   * its west (east) wall and b its east (west) wall; independently, when a's
   * row is one more (less) than b's, a loses its north (south) wall and b
   * its south (north) wall. For grid-adjacent cells that is exactly the pair
   * of flags on the wall between them.
   */
  function Carve(g: seq<Cell>, n: int, a: nat, b: nat): (r: seq<Cell>)
    requires WellFormed(g, n) && a < |g| && b < |g|
    ensures WellFormed(r, n)
    ensures forall k :: 0 <= k < |g| ==> r[k].i == g[k].i && r[k].j == g[k].j && r[k].visited == g[k].visited
    ensures forall k :: 0 <= k < |g| && k != a && k != b ==> r[k] == g[k]
    ensures forall k, d :: 0 <= k < |g| && 0 <= d < 4 && !g[k].walls[d] ==> !r[k].walls[d]
    ensures Dir(g, a, b) != -1 ==> r == ClearWall(ClearWall(g, a, Dir(g, a, b)), b, Dir(g, b, a))
    ensures g[a].i - g[b].i !in {-1, 1} && g[a].j - g[b].j !in {-1, 1} ==> r == g
  {
    CarveRows(CarveColumns(g, n, a, b), n, a, b)
  }

  /** Both sides of every wall between grid-adjacent cells agree. */
  ghost predicate Symmetric(g: seq<Cell>, n: int)
    requires WellFormed(g, n)
  {
    forall a: nat, b: nat :: a < |g| && b < |g| && Dir(g, a, b) != -1 ==>
      g[a].walls[Dir(g, a, b)] == g[b].walls[Dir(g, b, a)]
  }

  /** a and b are grid-adjacent and the wall between them is down on both sides. */
  ghost predicate OpenBetween(g: seq<Cell>, n: int, a: nat, b: nat)
    requires WellFormed(g, n) && a < |g| && b < |g|
  {
    Dir(g, a, b) != -1 && !g[a].walls[Dir(g, a, b)] && !g[b].walls[Dir(g, b, a)]
  }

  /** The carved wall pairs of the grid, each as (smaller index, larger index). */
  ghost function Passages(g: seq<Cell>, n: int): set<(nat, nat)>
    requires WellFormed(g, n)
  {
    set a: nat, b: nat | a < b < |g| && OpenBetween(g, n, a, b) :: (a, b)
  }

  function Pair(a: nat, b: nat): (nat, nat)
  {
    if a < b then (a, b) else (b, a)
  }

  /** After carving between grid-adjacent a and b, a flag is down when it was down or it is one of the two carved. */
  lemma CarvedFlag(g: seq<Cell>, n: int, a: nat, b: nat, x: nat, d: nat)
    requires WellFormed(g, n) && a < |g| && b < |g| && Dir(g, a, b) != -1
    requires x < |g| && d < 4
    ensures Carve(g, n, a, b)[x].walls[d] ==
            (g[x].walls[d] && !(x == a && d == Dir(g, a, b)) && !(x == b && d == Dir(g, b, a)))
  {
    assert CellAt(g[a], a, n) && CellAt(g[b], b, n) && CellAt(g[x], x, n);
  }

  /** Which wall pairs are open after carving between grid-adjacent a and b. */
  lemma OpenAfterCarve(g: seq<Cell>, n: int, a: nat, b: nat, x: nat, y: nat)
    requires WellFormed(g, n) && a < |g| && b < |g| && Dir(g, a, b) != -1
    requires x < |g| && y < |g|
    ensures OpenBetween(Carve(g, n, a, b), n, x, y) <==>
            OpenBetween(g, n, x, y) || (x == a && y == b) || (x == b && y == a)
  {
    var r := Carve(g, n, a, b);
    if Dir(g, x, y) != -1 {
      assert Dir(r, x, y) == Dir(g, x, y) && Dir(r, y, x) == Dir(g, y, x);
      CarvedFlag(g, n, a, b, x, Dir(g, x, y));
      CarvedFlag(g, n, a, b, y, Dir(g, y, x));
      if x == a && y != b && Dir(g, x, y) == Dir(g, a, b) {
        DirUnique(g, n, a, y, b);
      }
      if x == b && y != a && Dir(g, x, y) == Dir(g, b, a) {
        DirUnique(g, n, b, y, a);
      }
      if y == a && x != b && Dir(g, y, x) == Dir(g, a, b) {
        DirUnique(g, n, a, x, b);
      }
      if y == b && x != a && Dir(g, y, x) == Dir(g, b, a) {
        DirUnique(g, n, b, x, a);
      }
    }
  }

  /** Carving between grid-adjacent cells opens exactly one new wall pair. */
  lemma CarvePassages(g: seq<Cell>, n: int, a: nat, b: nat)
    requires WellFormed(g, n) && a < |g| && b < |g| && Dir(g, a, b) != -1
    ensures Passages(Carve(g, n, a, b), n) == Passages(g, n) + {Pair(a, b)}
  {
    var r := Carve(g, n, a, b);
    forall p | p in Passages(r, n) ensures p in Passages(g, n) + {Pair(a, b)} {
      OpenAfterCarve(g, n, a, b, p.0, p.1);
    }
    forall p | p in Passages(g, n) + {Pair(a, b)} ensures p in Passages(r, n) {
      OpenAfterCarve(g, n, a, b, p.0, p.1);
      if p == Pair(a, b) {
        assert p.0 < p.1 < |g| && OpenBetween(r, n, p.0, p.1);
      }
    }
  }

  /** Carving between grid-adjacent cells keeps both sides of every wall in agreement. */
  lemma CarveSymmetric(g: seq<Cell>, n: int, a: nat, b: nat)
    requires WellFormed(g, n) && Symmetric(g, n)
    requires a < |g| && b < |g| && Dir(g, a, b) != -1
    ensures Symmetric(Carve(g, n, a, b), n)
  {
    var r := Carve(g, n, a, b);
    forall x: nat, y: nat | x < |r| && y < |r| && Dir(r, x, y) != -1
      ensures r[x].walls[Dir(r, x, y)] == r[y].walls[Dir(r, y, x)]
    {
      assert Dir(r, x, y) == Dir(g, x, y) && Dir(r, y, x) == Dir(g, y, x);
      CarvedFlag(g, n, a, b, x, Dir(g, x, y));
      CarvedFlag(g, n, a, b, y, Dir(g, y, x));
      if x == a && y != b && Dir(g, x, y) == Dir(g, a, b) {
        DirUnique(g, n, a, y, b);
      }
      if x == b && y != a && Dir(g, x, y) == Dir(g, b, a) {
        DirUnique(g, n, b, y, a);
      }
      if y == a && x != b && Dir(g, y, x) == Dir(g, a, b) {
        DirUnique(g, n, a, x, b);
      }
      if y == b && x != a && Dir(g, y, x) == Dir(g, b, a) {
        DirUnique(g, n, b, x, a);
      }
    }
  }

  /** Number of raised flags in a wall list. */
  function TrueCount(ws: seq<bool>): nat
  {
    if ws == [] then 0 else TrueCount(ws[..|ws| - 1]) + (if ws[|ws| - 1] then 1 else 0)
  }

  /** Number of raised wall flags over the whole grid: what countWalls counts. */
  function WallTotal(g: seq<Cell>): nat
  {
    if g == [] then 0 else WallTotal(g[..|g| - 1]) + TrueCount(g[|g| - 1].walls)
  }

  /** Lowering one flag lowers the count by one exactly when that flag was up. */
  lemma {:induction false} TrueCountClear(ws: seq<bool>, d: nat)
    requires d < |ws|
    ensures TrueCount(ws[d := false]) == TrueCount(ws) - (if ws[d] then 1 else 0)
  {
    var last := |ws| - 1;
    if d < last {
      assert ws[d := false][..last] == ws[..last][d := false];
      TrueCountClear(ws[..last], d);
    } else {
      assert ws[d := false][..last] == ws[..last];
    }
  }

  /** Replacing one cell changes the total by the difference of the two cells' counts. */
  lemma {:induction false} WallTotalUpdate(g: seq<Cell>, k: nat, c: Cell)
    requires k < |g|
    ensures WallTotal(g[k := c]) + TrueCount(g[k].walls) == WallTotal(g) + TrueCount(c.walls)
  {
    var last := |g| - 1;
    if k < last {
      assert g[k := c][..last] == g[..last][k := c];
      WallTotalUpdate(g[..last], k, c);
    } else {
      assert g[k := c][..last] == g[..last];
    }
  }

  /** Knocking down one wall lowers the wall total by one if it was up, else leaves it. */
  lemma ClearWallTotal(g: seq<Cell>, k: nat, d: nat)
    requires k < |g| && d < |g[k].walls|
    ensures WallTotal(ClearWall(g, k, d)) == WallTotal(g) - (if g[k].walls[d] then 1 else 0)
  {
    WallTotalUpdate(g, k, g[k].(walls := g[k].walls[d := false]));
    TrueCountClear(g[k].walls, d);
  }
}
