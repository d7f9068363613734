/**
 * The maze model (model.js): makeGrid, and MazeModel with its generator
 * state (grid, current cell, stack, visited counter), the bot, manual wall
 * edits, random holes and the wall count.
 *
 * generateStep and generateCompleteMaze update the fields in place; their
 * contracts tie the new state to Generator.Step and Generator.Run, whose
 * properties (the visited counter, progress, the spanning tree) are proved
 * in Generator and GeneratorTree.
 */
module Maze {
  import opened Wrappers
  import opened Chance
  import opened Cells
  import opened Walls
  import opened Generator
  import opened Bots

  /** makeGrid: column by column, n*n fresh cells. */
  method MakeGrid(n: nat) returns (grid: seq<Cell>)
    ensures grid == FreshGrid(n)
  {
    grid := [];
    var i := 0;
    while i < n
      invariant 0 <= i <= n
      invariant |grid| == i * n
      invariant forall k :: 0 <= k < |grid| ==> grid[k] == FreshCell(k / n, k % n)
    {
      var j := 0;
      while j < n
        invariant 0 <= j <= n
        invariant |grid| == i * n + j
        invariant forall k :: 0 <= k < |grid| ==> grid[k] == FreshCell(k / n, k % n)
      {
        var k := GetIndex(i, j, n);
        assert k == |grid|;
        grid := grid + [FreshCell(i, j)];
        j := j + 1;
      }
      assert (i + 1) * n == i * n + n;
      i := i + 1;
    }
  }

  /**
   * What the first h holes do to grid orig: every cell keeps its position
   * and visited mark, a wall flag is up exactly when it was up and no hole
   * so far hit it, and at most h flags came down.
   */
  ghost predicate Holed(orig: seq<Cell>, g: seq<Cell>, n: int, holes: seq<(nat, nat)>, h: nat)
    requires h <= |holes|
  {
    && WellFormed(orig, n) && WellFormed(g, n) && |g| == |orig|
    && (forall k :: 0 <= k < |g| ==> g[k].i == orig[k].i && g[k].j == orig[k].j && g[k].visited == orig[k].visited)
    && (forall k, d :: 0 <= k < |g| && 0 <= d < 4 ==> g[k].walls[d] == (orig[k].walls[d] && (k, d) !in holes[..h]))
    && WallTotal(g) <= WallTotal(orig) <= WallTotal(g) + h
  }

  /** Knocking down the wall of hole h carries Holed from h to h + 1. */
  lemma HoleStep(orig: seq<Cell>, g: seq<Cell>, n: int, holes: seq<(nat, nat)>, h: nat)
    requires h < |holes| && Holed(orig, g, n, holes, h)
    requires holes[h].0 < |g| && holes[h].1 < 4
    ensures |g[holes[h].0].walls| == 4
    ensures Holed(orig, ClearWall(g, holes[h].0, holes[h].1), n, holes, h + 1)
  {
    var cell, wall := holes[h].0, holes[h].1;
    assert CellAt(g[cell], cell, n);
    ClearWallShape(g, n, cell, wall);
    ClearWallTotal(g, cell, wall);
    ClearWallFlags(g, cell, wall);
    assert holes[..h + 1] == holes[..h] + [holes[h]];
    assert forall p :: p in holes[..h + 1] <==> p in holes[..h] || p == (cell, wall);
  }

  class MazeModel {
    /** Both the number of columns and the number of rows. */
    const n: nat
    var grid: seq<Cell>
    /** Index of the generator's current cell. */
    var current: nat
    /** The backtracking stack of cell indices. */
    var stack: seq<nat>
    var visitedCounter: nat
    const bot: Bot

    /** The generator's part of the fields, as a value. */
    function State(): Gen
      reads this
    {
      Gen(grid, current, stack, visitedCounter)
    }

    ghost predicate Valid()
      reads this
    {
      GenValid(n, State())
    }

    constructor (size: nat)
      requires size >= 1
      ensures n == size && Valid() && State() == Initial(size)
      ensures fresh(bot) && bot.Valid() && bot.i == 0 && bot.j == 0 && bot.path == []
    {
      var g := MakeGrid(size);
      n := size;
      grid := g;
      current := 0;
      stack := [];
      bot := new Bot();
      visitedCounter := 0;
    }

    /** carvePath on cells a and b; see Walls.Carve for what it knocks down. */
    method CarvePath(a: nat, b: nat)
      requires WellFormed(grid, n) && a < |grid| && b < |grid|
      modifies this`grid
      ensures grid == Carve(old(grid), n, a, b)
    {
      grid := Carve(grid, n, a, b);
    }

    /** The first half of generateStep: mark the current cell visited, counting it if it was not. */
    method MarkCurrent()
      requires WellFormed(grid, n) && current < |grid|
      modifies this`grid, this`visitedCounter
      ensures WellFormed(grid, n)
      ensures grid == Mark(old(grid), current)
      ensures visitedCounter == old(visitedCounter) + (if old(grid)[current].visited then 0 else 1)
    {
      MarkShape(grid, n, current);
      if !grid[current].visited {
        visitedCounter := visitedCounter + 1;
        grid := grid[current := grid[current].(visited := true)];
      }
    }

    /** generateStep; `rand(t, len)` answers the random draw into the candidate list. */
    method GenerateStep(rand: Oracle, t: nat)
      requires Valid() && InRange(rand)
      modifies this`grid, this`current, this`stack, this`visitedCounter
      ensures State() == Step(n, old(State()), rand, t)
      ensures Valid()
    {
      ghost var s := State();
      ghost var r := Step(n, s, rand, t);
      MarkCurrent();
      assert visitedCounter == r.visitedCounter;
      var candidates := UnvisitedNeighbors(grid, n, current);
      var next := RandomUnvisitedNeighbor(grid, n, current, Draw(rand, t, |candidates|));
      assert next == Pick(n, s, rand, t);
      if next.Some? {
        StepAdvances(n, s, rand, t);
        PushAndCarve(next.value);
        assert grid == r.grid && current == r.current && stack == r.stack;
      } else {
        StepRetreats(n, s, rand, t);
        if |stack| > 0 {
          PopStack();
        }
        assert grid == r.grid && current == r.current && stack == r.stack;
      }
    }

    /** generateStep's move forward: push the current cell, carve into cell m and make it current. */
    method PushAndCarve(m: nat)
      requires WellFormed(grid, n) && current < |grid| && m < |grid|
      modifies this`grid, this`current, this`stack
      ensures grid == Carve(old(grid), n, old(current), m)
      ensures stack == old(stack) + [old(current)] && current == m
    {
      stack := stack + [current];
      CarvePath(current, m);
      current := m;
    }

    /** generateStep's move back: pop the top of the stack into the current cell. */
    method PopStack()
      requires |stack| > 0
      modifies this`current, this`stack
      ensures current == old(stack)[|old(stack)| - 1] && stack == old(stack)[..|old(stack)| - 1]
    {
      current := stack[|stack| - 1];
      stack := stack[..|stack| - 1];
    }

    /** getStepCount: the depth of the backtracking stack. */
    function GetStepCount(): (depth: nat)
      reads this
      ensures depth == |State().stack|
    {
      |stack|
    }

    /** getCurrentCell: the cell whose coordinates index the generator's position. */
    function GetCurrentCell(): (c: Cell)
      reads this
      requires Valid()
      ensures c in grid && GetIndex(c.i, c.j, n) == current
    {
      grid[current]
    }

    /** getAllCells: the model's own grid of n*n cells, each at the index of its coordinates. */
    function GetAllCells(): (cells: seq<Cell>)
      reads this
      requires Valid()
      ensures cells == grid
      ensures |cells| == n * n
      ensures forall k :: 0 <= k < |cells| ==> GetIndex(cells[k].i, cells[k].j, n) == k
    {
      grid
    }

    /** isMazeCompleted: the counter has reached the number of cells, i.e. every cell is visited. */
    function IsMazeCompleted(): (done: bool)
      reads this
      requires Valid()
      ensures done <==> forall k :: 0 <= k < |grid| ==> grid[k].visited
    {
      VisitedCount(grid);
      visitedCounter == |grid|
    }

    /** generateCompleteMaze: generateStep until isMazeCompleted, the t-th step using draw t. */
    method GenerateCompleteMaze(rand: Oracle)
      requires Valid() && InRange(rand)
      modifies this`grid, this`current, this`stack, this`visitedCounter
      ensures Valid() && IsMazeCompleted()
      ensures State() == Run(n, old(State()), rand, 0)
    {
      var t := 0;
      while !IsMazeCompleted()
        invariant Valid()
        invariant Run(n, State(), rand, t) == Run(n, old(State()), rand, 0)
        decreases |Pending(State())|, |stack|, if grid[current].visited then 0 else 1
      {
        StepProgress(n, State(), rand, t);
        GenerateStep(rand, t);
        t := t + 1;
      }
    }

    /** getCell: the cell at (i, j), or nothing when either coordinate is off the grid. */
    function GetCell(i: int, j: int): (r: Option<Cell>)
      reads this
      requires Valid()
      ensures r.Some? <==> 0 <= i < n && 0 <= j < n
      ensures r.Some? ==> r.value.i == i && r.value.j == j && r.value in grid
    {
      var k := GetIndex(i, j, n);
      if k == -1 then None
      else
        CellCoords(grid, n, i, j);
        Some(grid[k])
    }

    /**
     * modifyCell: for each of the four sides whose entry in `walls` is
     * given, set that wall of cell (i, j) to it; every other flag, and every
     * other cell, stays as it was. The neighbour's side is not mirrored.
     */
    method ModifyCell(i: int, j: int, walls: seq<Option<bool>>)
      requires Valid() && 0 <= i < n && 0 <= j < n
      modifies this`grid
      ensures Valid()
      ensures |grid| == |old(grid)|
      ensures forall k :: 0 <= k < |grid| && k != GetIndex(i, j, n) ==> grid[k] == old(grid)[k]
      ensures var c, c0 := grid[GetIndex(i, j, n)], old(grid)[GetIndex(i, j, n)];
              && c.i == i && c.j == j && c.visited == c0.visited && |c.walls| == 4
              && forall d :: 0 <= d < 4 ==>
                   c.walls[d] == if d < |walls| && walls[d].Some? then walls[d].value else c0.walls[d]
    {
      var k := GetIndex(i, j, n);
      CellCoords(grid, n, i, j);
      assert CellAt(grid[k], k, n);
      var d := 0;
      while d < 4
        invariant 0 <= d <= 4
        invariant |grid| == |old(grid)|
        invariant forall k' :: 0 <= k' < |grid| && k' != k ==> grid[k'] == old(grid)[k']
        invariant grid[k] == old(grid)[k].(walls := grid[k].walls) && |grid[k].walls| == 4
        invariant forall d' :: 0 <= d' < 4 ==>
                    grid[k].walls[d'] == if d' < d && d' < |walls| && walls[d'].Some? then walls[d'].value else old(grid)[k].walls[d']
      {
        if d < |walls| && walls[d].Some? {
          grid := grid[k := grid[k].(walls := grid[k].walls[d := walls[d].value])];
        }
        d := d + 1;
      }
      assert forall k' :: 0 <= k' < |grid| ==> CellAt(grid[k'], k', n);
      WallsOnlyKeepGenValid(n, old(State()), grid);
    }

    /**
     * createRandomHoles: floor(0.1 * cells) times, knock down one wall of
     * one cell, only on that cell's side. `holes` stands for the random
     * draws, one (cell, wall) pair per hole.
     */
    method CreateRandomHoles(holes: seq<(nat, nat)>)
      requires Valid()
      requires |holes| == |grid| / 10
      requires forall x :: 0 <= x < |holes| ==> holes[x].0 < |grid| && holes[x].1 < 4
      modifies this`grid
      ensures Valid()
      ensures |grid| == |old(grid)|
      ensures forall k :: 0 <= k < |grid| ==>
                grid[k].i == old(grid)[k].i && grid[k].j == old(grid)[k].j && grid[k].visited == old(grid)[k].visited
      ensures forall k, d :: 0 <= k < |grid| && 0 <= d < 4 ==>
                grid[k].walls[d] == (old(grid)[k].walls[d] && (k, d) !in holes)
      ensures WallTotal(grid) <= WallTotal(old(grid)) <= WallTotal(grid) + |grid| / 10
    {
      var numHoles := |grid| / 10;
      var h := 0;
      while h < numHoles
        invariant 0 <= h <= numHoles
        invariant Holed(old(grid), grid, n, holes, h)
      {
        var cell, wall := holes[h].0, holes[h].1;
        HoleStep(old(grid), grid, n, holes, h);
        grid := ClearWall(grid, cell, wall);
        h := h + 1;
      }
      assert holes[..h] == holes;
      WallsOnlyKeepGenValid(n, old(State()), grid);
    }

    /** countWalls: the number of raised wall flags over all cells. */
    method CountWalls() returns (wallCount: nat)
      requires Valid()
      ensures wallCount == WallTotal(grid)
    {
      wallCount := 0;
      var k := 0;
      while k < |grid|
        invariant 0 <= k <= |grid|
        invariant wallCount == WallTotal(grid[..k])
      {
        var walls := grid[k].walls;
        var d := 0;
        while d < |walls|
          invariant 0 <= d <= |walls|
          invariant wallCount == WallTotal(grid[..k]) + TrueCount(walls[..d])
        {
          if walls[d] {
            wallCount := wallCount + 1;
          }
          assert walls[..d + 1][..d] == walls[..d];
          d := d + 1;
        }
        assert walls[..d] == walls;
        assert grid[..k + 1][..k] == grid[..k];
        k := k + 1;
      }
      assert grid[..k] == grid;
    }
  }
}
