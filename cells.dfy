/**
 * Cells of the maze and the flat grid that holds them (model.js).
 *
 * A grid of side n is a sequence of n*n cells; the cell in column i and row j
 * sits at index j + i*n. A cell is identified by that index throughout the
 * model. Each cell keeps four wall flags in the order north, east, south,
 * west (true = wall present) and the `visited` mark used by generation.
 */
module Cells {
  import opened Wrappers

  const NORTH := 0
  const EAST := 1
  const SOUTH := 2
  const WEST := 3

  datatype Cell = Cell(i: int, j: int, walls: seq<bool>, visited: bool)

  /** A cell as the Cell constructor makes it: all four walls up, not visited. */
  function FreshCell(i: int, j: int): Cell
  {
    Cell(i, j, [true, true, true, true], false)
  }

  /** Column offset of direction d: east is +1, west is -1. */
  function DI(d: int): int
  {
    if d == EAST then 1 else if d == WEST then -1 else 0
  }

  /** Row offset of direction d: north is -1, south is +1. */
  function DJ(d: int): int
  {
    if d == NORTH then -1 else if d == SOUTH then 1 else 0
  }

  /** The direction whose offset is (di, dj), or -1 when it is not a unit step. */
  function DirOf(di: int, dj: int): (d: int)
    ensures -1 <= d < 4
    ensures d != -1 ==> DI(d) == di && DJ(d) == dj
    ensures d == -1 <==> (if di < 0 then -di else di) + (if dj < 0 then -dj else dj) != 1
  {
    if di == 0 && dj == -1 then NORTH
    else if di == 1 && dj == 0 then EAST
    else if di == 0 && dj == 1 then SOUTH
    else if di == -1 && dj == 0 then WEST
    else -1
  }

  function Opposite(d: int): int
  {
    if d == NORTH then SOUTH else if d == EAST then WEST else if d == SOUTH then NORTH else EAST
  }

  lemma MulMonotone(a: int, b: int, n: int)
    requires 0 <= a <= b && 0 <= n
    ensures a * n <= b * n
  {
    assert b * n - a * n == (b - a) * n;
  }

  /** Two in-range coordinate pairs with the same flat index are equal. */
  lemma IndexInjective(i: int, j: int, i2: int, j2: int, n: int)
    requires 0 <= i && 0 <= i2 && 0 <= j < n && 0 <= j2 < n
    requires j + i * n == j2 + i2 * n
    ensures i == i2 && j == j2
  {
    if i < i2 {
      MulMonotone(i + 1, i2, n);
      assert false;
    } else if i2 < i {
      MulMonotone(i2 + 1, i, n);
      assert false;
    }
  }

  lemma IndexInRange(i: int, j: int, n: int)
    requires 0 <= i < n && 0 <= j < n
    ensures 0 <= j + i * n < n * n
  {
    MulMonotone(i, n - 1, n);
    MulMonotone(0, i, n);
  }

  /**
   * getIndex: -1 when either coordinate is outside [0, rows), otherwise the
   * flat index, from which the column and row are recovered by / and %.
   */
  function GetIndex(i: int, j: int, rows: int): (k: int)
    ensures k == -1 <==> !(0 <= i < rows && 0 <= j < rows)
    ensures k != -1 ==> 0 <= k < rows * rows && k / rows == i && k % rows == j
  {
    if i < 0 || j < 0 || i >= rows || j >= rows then -1
    else
      IndexInRange(i, j, rows);
      var k := j + i * rows;
      IndexInjective(k / rows, k % rows, i, j, rows);
      k
  }

  /** Cell c has in-range coordinates that index it at k, and four wall flags. */
  ghost predicate CellAt(c: Cell, k: int, n: int)
  {
    0 <= c.i < n && 0 <= c.j < n && c.j + c.i * n == k && |c.walls| == 4
  }

  /** The shape makeGrid produces and every operation keeps. */
  ghost predicate WellFormed(g: seq<Cell>, n: int)
  {
    n >= 1 && |g| == n * n && forall k :: 0 <= k < |g| ==> CellAt(g[k], k, n)
  }

  /** grid[getIndex(i, j)] is the cell whose coordinates are (i, j). */
  lemma CellCoords(g: seq<Cell>, n: int, i: int, j: int)
    requires WellFormed(g, n) && 0 <= i < n && 0 <= j < n
    ensures 0 <= GetIndex(i, j, n) < |g|
    ensures g[GetIndex(i, j, n)].i == i && g[GetIndex(i, j, n)].j == j
  {
    var k := GetIndex(i, j, n);
    assert CellAt(g[k], k, n);
    IndexInjective(g[k].i, g[k].j, i, j, n);
  }

  /** Direction from cell a to cell b (by coordinates), or -1 when they are not grid-adjacent. */
  function Dir(g: seq<Cell>, a: nat, b: nat): int
    requires a < |g| && b < |g|
  {
    DirOf(g[b].i - g[a].i, g[b].j - g[a].j)
  }

  /** Index of the cell one step from cell k in direction d, or -1 off the grid. */
  function Neighbor(g: seq<Cell>, n: int, k: nat, d: int): int
    requires k < |g|
  {
    GetIndex(g[k].i + DI(d), g[k].j + DJ(d), n)
  }

  /** The in-bounds neighbour in direction d is the cell that lies in direction d. */
  lemma NeighborDir(g: seq<Cell>, n: int, k: nat, d: int)
    requires WellFormed(g, n) && k < |g| && 0 <= d < 4
    requires Neighbor(g, n, k, d) != -1
    ensures 0 <= Neighbor(g, n, k, d) < |g|
    ensures Dir(g, k, Neighbor(g, n, k, d)) == d
  {
    CellCoords(g, n, g[k].i + DI(d), g[k].j + DJ(d));
  }

  /** Conversely, a cell lying in direction d is the neighbour in direction d. */
  lemma DirNeighbor(g: seq<Cell>, n: int, k: nat, m: nat)
    requires WellFormed(g, n) && k < |g| && m < |g| && Dir(g, k, m) != -1
    ensures Neighbor(g, n, k, Dir(g, k, m)) == m
  {
    assert CellAt(g[m], m, n);
  }

  /** Only one cell lies in a given direction, and adjacency is symmetric with the opposite direction. */
  lemma DirUnique(g: seq<Cell>, n: int, k: nat, m: nat, m2: nat)
    requires WellFormed(g, n) && k < |g| && m < |g| && m2 < |g|
    requires Dir(g, k, m) != -1 && Dir(g, k, m) == Dir(g, k, m2)
    ensures m == m2
  {
    DirNeighbor(g, n, k, m);
    DirNeighbor(g, n, k, m2);
  }

  lemma DirSymmetric(g: seq<Cell>, a: nat, b: nat)
    requires a < |g| && b < |g| && Dir(g, a, b) != -1
    ensures Dir(g, b, a) == Opposite(Dir(g, a, b))
  {
  }

  /** The cell one step from k in direction d is the only cell in that direction. */
  lemma NeighborSlot(g: seq<Cell>, n: int, k: nat, d: nat)
    requires WellFormed(g, n) && k < |g| && d < 4
    ensures Neighbor(g, n, k, d) != -1 ==> 0 <= Neighbor(g, n, k, d) < |g| && Dir(g, k, Neighbor(g, n, k, d)) == d
    ensures forall m: nat :: m < |g| && Dir(g, k, m) == d ==> Neighbor(g, n, k, d) == m
  {
    if Neighbor(g, n, k, d) != -1 {
      NeighborDir(g, n, k, d);
    }
    forall m: nat | m < |g| && Dir(g, k, m) == d ensures Neighbor(g, n, k, d) == m {
      DirNeighbor(g, n, k, m);
    }
  }

  /** The unvisited cell in direction d of cell k, if any, is the cell one step that way. */
  lemma UnvisitedSlot(g: seq<Cell>, n: int, k: nat, d: nat)
    requires WellFormed(g, n) && k < |g| && d < 4
    ensures Neighbor(g, n, k, d) != -1 ==> 0 <= Neighbor(g, n, k, d) < |g| && Dir(g, k, Neighbor(g, n, k, d)) == d
    ensures forall m: nat :: UnvisitedAt(g, k, m) && Dir(g, k, m) == d ==> Neighbor(g, n, k, d) == m
  {
    NeighborSlot(g, n, k, d);
  }

  /** Every grid neighbour of cell k is visited. */
  ghost predicate DeadEnd(g: seq<Cell>, k: nat)
    requires k < |g|
  {
    forall m: nat :: m < |g| && Dir(g, k, m) != -1 ==> g[m].visited
  }

  /**
   * The unvisited in-bounds neighbours of cell k, in the order north, east,
   * south, west: the candidate list of getRandomUnvisitedNeighbor.
   */
  function UnvisitedNeighbors(g: seq<Cell>, n: int, k: nat): (r: seq<nat>)
    requires WellFormed(g, n) && k < |g|
    ensures forall m: nat :: m in r <==> m < |g| && Dir(g, k, m) != -1 && !g[m].visited
    ensures forall x :: 0 <= x < |r| ==> r[x] < |g|
    ensures forall x :: 0 <= x < |r| - 1 ==> Dir(g, k, r[x]) < Dir(g, k, r[x + 1])
  {
    UnvisitedFrom(g, n, k, 0)
  }

  /** Cell m is an unvisited grid neighbour of cell k. */
  ghost predicate UnvisitedAt(g: seq<Cell>, k: nat, m: nat)
  {
    k < |g| && m < |g| && Dir(g, k, m) != -1 && !g[m].visited
  }

  function UnvisitedFrom(g: seq<Cell>, n: int, k: nat, d: nat): (r: seq<nat>)
    requires WellFormed(g, n) && k < |g| && d <= 4
    ensures forall m: nat :: m in r <==> UnvisitedAt(g, k, m) && d <= Dir(g, k, m)
    ensures forall x :: 0 <= x < |r| ==> r[x] < |g| && d <= Dir(g, k, r[x])
    ensures forall x :: 0 <= x < |r| - 1 ==> Dir(g, k, r[x]) < Dir(g, k, r[x + 1])
    decreases 4 - d
  {
    if d == 4 then []
    else
      var rest := UnvisitedFrom(g, n, k, d + 1);
      UnvisitedSlot(g, n, k, d);
      if Neighbor(g, n, k, d) == -1 then rest
      else
        var m: nat := Neighbor(g, n, k, d);
        if g[m].visited then rest
        else
          UnvisitedCons(g, k, d, m, rest);
          [m] + rest
  }

  /** Putting the unvisited neighbour m in direction d in front of those in later directions lists those from d on, in order. */
  lemma UnvisitedCons(g: seq<Cell>, k: nat, d: nat, m: nat, rest: seq<nat>)
    requires UnvisitedAt(g, k, m) && Dir(g, k, m) == d
    requires forall w: nat :: w in rest <==> UnvisitedAt(g, k, w) && d + 1 <= Dir(g, k, w)
    requires forall x :: 0 <= x < |rest| ==> rest[x] < |g| && d + 1 <= Dir(g, k, rest[x])
    requires forall x :: 0 <= x < |rest| - 1 ==> Dir(g, k, rest[x]) < Dir(g, k, rest[x + 1])
    ensures forall w: nat :: w in [m] + rest <==> UnvisitedAt(g, k, w) && d <= Dir(g, k, w) && (w == m || d + 1 <= Dir(g, k, w))
    ensures forall x :: 0 <= x < |[m] + rest| ==> ([m] + rest)[x] < |g| && d <= Dir(g, k, ([m] + rest)[x])
    ensures forall x :: 0 <= x < |[m] + rest| - 1 ==> Dir(g, k, ([m] + rest)[x]) < Dir(g, k, ([m] + rest)[x + 1])
  {
    var r := [m] + rest;
    forall x | 0 <= x < |r| - 1 ensures Dir(g, k, r[x]) < Dir(g, k, r[x + 1]) {
      if x > 0 {
        assert r[x] == rest[x - 1] && r[x + 1] == rest[x];
      }
    }
  }

  /**
   * getRandomUnvisitedNeighbor: `choice` stands for the random index drawn
   * into the candidate list. The result is absent exactly when no in-bounds
   * N/E/S/W neighbour is unvisited, and otherwise is the drawn one of them.
   */
  function RandomUnvisitedNeighbor(g: seq<Cell>, n: int, k: nat, choice: nat): (r: Option<nat>)
    requires WellFormed(g, n) && k < |g|
    requires UnvisitedNeighbors(g, n, k) == [] || choice < |UnvisitedNeighbors(g, n, k)|
    ensures r.None? <==> DeadEnd(g, k)
    ensures r.Some? ==> r.value < |g| && Dir(g, k, r.value) != -1 && !g[r.value].visited
    ensures r.Some? ==> r.value == UnvisitedNeighbors(g, n, k)[choice]
  {
    var candidates := UnvisitedNeighbors(g, n, k);
    if |candidates| > 0 then
      assert candidates[choice] in candidates;
      Some(candidates[choice])
    else
      None
  }
}
