/**
 * The maze generator of model.js as a state machine on values: the state
 * (grid, current cell, stack, visited counter), one generateStep, and the
 * run until isMazeCompleted. MazeModel's methods are proved to follow these
 * functions; the facts about them are proved here and in GeneratorTree.
 */
module Generator {
  import opened Wrappers
  import opened Chance
  import opened Cells
  import opened Walls
  import opened Spanning

  /** Indices of the visited cells. */
  ghost function VisitedSet(g: seq<Cell>): set<nat>
  {
    set k: nat | k < |g| && g[k].visited
  }

  ghost function VisitedBelow(g: seq<Cell>, m: nat): set<nat>
    requires m <= |g|
  {
    set k: nat | k < m && g[k].visited
  }

  lemma {:induction false} VisitedBelowCount(g: seq<Cell>, m: nat)
    requires m <= |g|
    ensures |VisitedBelow(g, m)| <= m
    ensures |VisitedBelow(g, m)| == m <==> forall k :: 0 <= k < m ==> g[k].visited
  {
    if m == 0 {
      assert VisitedBelow(g, 0) == {};
    } else {
      VisitedBelowCount(g, m - 1);
      if g[m - 1].visited {
        assert VisitedBelow(g, m) == VisitedBelow(g, m - 1) + {m - 1};
      } else {
        assert VisitedBelow(g, m) == VisitedBelow(g, m - 1);
      }
    }
  }

  /** The number of visited cells never exceeds the number of cells, and reaches it exactly when all are visited. */
  lemma VisitedCount(g: seq<Cell>)
    ensures |VisitedSet(g)| <= |g|
    ensures |VisitedSet(g)| == |g| <==> forall k :: 0 <= k < |g| ==> g[k].visited
  {
    assert VisitedSet(g) == VisitedBelow(g, |g|);
    VisitedBelowCount(g, |g|);
  }

  /** Two grids with the same coordinates and walls have the same passages and the same symmetry. */
  lemma SameWalls(g: seq<Cell>, h: seq<Cell>, n: int)
    requires WellFormed(g, n) && WellFormed(h, n)
    requires forall k :: 0 <= k < |g| ==> h[k].i == g[k].i && h[k].j == g[k].j && h[k].walls == g[k].walls
    ensures Passages(h, n) == Passages(g, n)
    ensures Symmetric(h, n) == Symmetric(g, n)
  {
    assert forall a: nat, b: nat :: a < |g| && b < |g| ==> Dir(h, a, b) == Dir(g, a, b);
    assert forall a: nat, b: nat :: a < |g| && b < |g| ==> OpenBetween(h, n, a, b) == OpenBetween(g, n, a, b);
  }

  /** The grid with cell k marked visited. */
  function Mark(g: seq<Cell>, k: nat): (h: seq<Cell>)
    requires k < |g|
    ensures |h| == |g| && h[k].visited
    ensures forall x :: 0 <= x < |g| ==> h[x].i == g[x].i && h[x].j == g[x].j && h[x].walls == g[x].walls
    ensures forall x :: 0 <= x < |g| && x != k ==> h[x] == g[x]
  {
    g[k := g[k].(visited := true)]
  }

  /** Marking keeps the grid well formed. */
  lemma MarkShape(g: seq<Cell>, n: int, k: nat)
    requires WellFormed(g, n) && k < |g|
    ensures WellFormed(Mark(g, k), n)
  {
    var h := Mark(g, k);
    assert forall x :: 0 <= x < |g| ==> CellAt(h[x], x, n);
  }

  /** Marking keeps the shape, the walls and the passages, and adds one index to the visited set. */
  lemma MarkFacts(g: seq<Cell>, n: int, k: nat)
    requires WellFormed(g, n) && k < |g|
    ensures WellFormed(Mark(g, k), n)
    ensures VisitedSet(Mark(g, k)) == VisitedSet(g) + {k}
    ensures Passages(Mark(g, k), n) == Passages(g, n)
    ensures Symmetric(Mark(g, k), n) == Symmetric(g, n)
  {
    var h := Mark(g, k);
    MarkShape(g, n, k);
    SameWalls(g, h, n);
  }

  /** Every visited cell that borders an unvisited cell is the current cell or on the stack. */
  ghost predicate FrontierCovered(g: seq<Cell>, current: nat, stack: seq<nat>)
  {
    forall a: nat, b: nat :: a < |g| && b < |g| && g[a].visited && !g[b].visited && Dir(g, a, b) != -1 ==>
      a == current || a in stack
  }

  /**
   * The backtracker's state: a well-formed grid, a current cell on it, a
   * stack of visited cells, and the frontier of the visited region covered
   * by the current cell and the stack.
   */
  ghost predicate Backtracker(g: seq<Cell>, n: int, current: nat, stack: seq<nat>)
  {
    && WellFormed(g, n)
    && current < |g|
    && (forall x :: 0 <= x < |stack| ==> stack[x] < |g| && g[stack[x]].visited)
    && FrontierCovered(g, current, stack)
  }

  lemma MarkKeepsBacktracker(g: seq<Cell>, n: int, cur: nat, stack: seq<nat>)
    requires Backtracker(g, n, cur, stack)
    ensures Backtracker(Mark(g, cur), n, cur, stack)
  {
    MarkFacts(g, n, cur);
    var h := Mark(g, cur);
    assert forall a: nat, b: nat :: a < |g| && b < |g| ==> Dir(h, a, b) == Dir(g, a, b);
  }

  lemma PushKeepsBacktracker(g: seq<Cell>, n: int, cur: nat, stack: seq<nat>, m: nat)
    requires Backtracker(g, n, cur, stack)
    requires g[cur].visited && m < |g| && Dir(g, cur, m) != -1 && !g[m].visited
    ensures Backtracker(Carve(g, n, cur, m), n, m, stack + [cur])
  {
    var h := Carve(g, n, cur, m);
    assert forall a: nat, b: nat :: a < |g| && b < |g| ==> Dir(h, a, b) == Dir(g, a, b);
  }

  lemma PopKeepsBacktracker(g: seq<Cell>, n: int, cur: nat, stack: seq<nat>)
    requires Backtracker(g, n, cur, stack) && g[cur].visited && stack != []
    requires forall m: nat :: m < |g| && Dir(g, cur, m) != -1 ==> g[m].visited
    ensures Backtracker(g, n, stack[|stack| - 1], stack[..|stack| - 1])
  {
    var top, rest := stack[|stack| - 1], stack[..|stack| - 1];
    forall a: nat, b: nat | a < |g| && b < |g| && g[a].visited && !g[b].visited && Dir(g, a, b) != -1
      ensures a == top || a in rest
    {
      assert a in stack;
      var x :| 0 <= x < |stack| && stack[x] == a;
      if x < |stack| - 1 {
        assert rest[x] == a;
      }
    }
  }

  /** Changing only walls, leaving every cell's position and visited mark alone, keeps the generator's invariant. */
  lemma WallsOnlyKeepGenValid(n: int, s: Gen, g: seq<Cell>)
    requires GenValid(n, s) && WellFormed(g, n) && |g| == |s.grid|
    requires forall k :: 0 <= k < |g| ==> g[k].i == s.grid[k].i && g[k].j == s.grid[k].j && g[k].visited == s.grid[k].visited
    ensures GenValid(n, s.(grid := g))
  {
    assert VisitedSet(g) == VisitedSet(s.grid);
    assert forall a: nat, b: nat :: a < |g| && b < |g| ==> Dir(g, a, b) == Dir(s.grid, a, b);
  }

  /** Carving changes no visited mark. */
  lemma CarveKeepsVisited(g: seq<Cell>, n: int, a: nat, b: nat)
    requires WellFormed(g, n) && a < |g| && b < |g|
    ensures VisitedSet(Carve(g, n, a, b)) == VisitedSet(g)
  {
  }

  lemma DivModCell(k: int, n: int)
    requires n >= 1 && 0 <= k < n * n
    ensures 0 <= k / n < n && 0 <= k % n < n && k % n + (k / n) * n == k
  {
    if k / n >= n {
      MulMonotone(n, k / n, n);
      assert false;
    }
  }

  /** The grid makeGrid builds: cell k is column k / n, row k % n, with all walls up and not visited. */
  function FreshGrid(n: nat): (g: seq<Cell>)
    ensures |g| == n * n
    ensures forall k :: 0 <= k < |g| ==> g[k] == FreshCell(k / n, k % n)
    ensures n >= 1 ==> WellFormed(g, n) && VisitedSet(g) == {}
  {
    var g := seq(n * n, k requires 0 <= k < n * n => FreshCell(k / n, k % n));
    if n >= 1 then
      assert forall k :: 0 <= k < |g| ==> CellAt(g[k], k, n) by {
        forall k | 0 <= k < |g| ensures CellAt(g[k], k, n) {
          DivModCell(k, n);
        }
      }
      g
    else
      g
  }

  /** The generator's state: the grid, the index of the current cell, the stack and the visited counter. */
  datatype Gen = Gen(grid: seq<Cell>, current: nat, stack: seq<nat>, visitedCounter: nat)

  /** The state the MazeModel constructor sets up. */
  function Initial(n: nat): (s: Gen)
    ensures n >= 1 ==> GenValid(n, s)
  {
    Gen(FreshGrid(n), 0, [], 0)
  }

  /** The backtracker's invariant, plus: the counter counts the visited cells. */
  ghost predicate GenValid(n: int, s: Gen)
  {
    Backtracker(s.grid, n, s.current, s.stack) && s.visitedCounter == |VisitedSet(s.grid)|
  }

  /** The unvisited cells other than the current one: each carving step claims one of them. */
  ghost function Pending(s: Gen): set<nat>
  {
    Unvisited(s.grid) - {s.current}
  }

  /** Indices of the unvisited cells. */
  ghost function Unvisited(g: seq<Cell>): set<nat>
  {
    set k: nat | k < |g| && !g[k].visited
  }

  /** Marking cell k visited removes it from the unvisited cells; carving changes none of them. */
  lemma UnvisitedFacts(g: seq<Cell>, n: int, k: nat, a: nat, b: nat)
    requires WellFormed(g, n) && k < |g| && a < |g| && b < |g|
    ensures Unvisited(Mark(g, k)) == Unvisited(g) - {k}
    ensures Unvisited(Carve(g, n, a, b)) == Unvisited(g)
  {
  }

  /** isMazeCompleted on a state. */
  function Completed(s: Gen): bool
  {
    s.visitedCounter == |s.grid|
  }

  /**
   * The neighbour generateStep moves to: after marking the current cell,
   * the drawn entry of its candidate list of unvisited grid neighbours, or
   * nothing at a dead end. `t` numbers the draw.
   */
  function Pick(n: int, s: Gen, rand: Oracle, t: nat): (r: Option<nat>)
    requires WellFormed(s.grid, n) && s.current < |s.grid| && InRange(rand)
    ensures r.None? <==> DeadEnd(Mark(s.grid, s.current), s.current)
    ensures r.Some? ==> r.value < |s.grid| && Dir(s.grid, s.current, r.value) != -1 && !s.grid[r.value].visited
  {
    MarkFacts(s.grid, n, s.current);
    var marked := Mark(s.grid, s.current);
    var candidates := UnvisitedNeighbors(marked, n, s.current);
    RandomUnvisitedNeighbor(marked, n, s.current, Draw(rand, t, |candidates|))
  }

  /** Push the current cell, carve into the unvisited neighbour m and make it current. */
  function Advance(n: int, g: seq<Cell>, cur: nat, stack: seq<nat>, m: nat, counter: nat): (r: Gen)
    requires Backtracker(g, n, cur, stack) && g[cur].visited && counter == |VisitedSet(g)|
    requires m < |g| && Dir(g, cur, m) != -1 && !g[m].visited
    ensures GenValid(n, r) && |r.grid| == |g|
  {
    PushKeepsBacktracker(g, n, cur, stack, m);
    CarveKeepsVisited(g, n, cur, m);
    Gen(Carve(g, n, cur, m), m, stack + [cur], counter)
  }

  /** At a dead end, pop the top of the stack into the current cell. */
  function Retreat(n: int, g: seq<Cell>, cur: nat, stack: seq<nat>, counter: nat): (r: Gen)
    requires Backtracker(g, n, cur, stack) && g[cur].visited && counter == |VisitedSet(g)|
    requires stack != [] && DeadEnd(g, cur)
    ensures GenValid(n, r) && |r.grid| == |g|
  {
    PopKeepsBacktracker(g, n, cur, stack);
    Gen(g, stack[|stack| - 1], stack[..|stack| - 1], counter)
  }

  /** Marking the current cell keeps the backtracker's invariant and counts the cell if it was new. */
  lemma MarkCounted(n: int, s: Gen)
    requires GenValid(n, s)
    ensures Backtracker(Mark(s.grid, s.current), n, s.current, s.stack)
    ensures |VisitedSet(Mark(s.grid, s.current))| == s.visitedCounter + (if s.grid[s.current].visited then 0 else 1)
  {
    MarkFacts(s.grid, n, s.current);
    MarkKeepsBacktracker(s.grid, n, s.current, s.stack);
  }

  /**
   * generateStep: mark the current cell visited (counting it if it was
   * not); then, if it has an unvisited neighbour, push it, carve into a
   * randomly drawn one and make that current; otherwise pop the stack into
   * the current cell if the stack is not empty.
   */
  function Step(n: int, s: Gen, rand: Oracle, t: nat): (r: Gen)
    requires GenValid(n, s) && InRange(rand)
    ensures GenValid(n, r) && |r.grid| == |s.grid|
    ensures r.visitedCounter == s.visitedCounter + (if s.grid[s.current].visited then 0 else 1)
  {
    MarkCounted(n, s);
    var marked := Mark(s.grid, s.current);
    var counter := if s.grid[s.current].visited then s.visitedCounter else s.visitedCounter + 1;
    match Pick(n, s, rand, t)
    case Some(m) => Advance(n, marked, s.current, s.stack, m, counter)
    case None =>
      if s.stack != [] then Retreat(n, marked, s.current, s.stack, counter)
      else Gen(marked, s.current, s.stack, counter)
  }

  /**
   * The three shapes of a step: carve from the current cell into an
   * unvisited neighbour and push; or, at a dead end, pop; or, at a dead end
   * with an empty stack, only mark.
   */
  lemma StepCases(n: int, s: Gen, rand: Oracle, t: nat)
    requires GenValid(n, s) && InRange(rand)
    ensures var r, marked := Step(n, s, rand, t), Mark(s.grid, s.current);
            || (&& !DeadEnd(marked, s.current) && Pick(n, s, rand, t) == Some(r.current)
                && r.current < |s.grid| && Dir(s.grid, s.current, r.current) != -1 && !s.grid[r.current].visited
                && r.stack == s.stack + [s.current]
                && r.grid == Carve(marked, n, s.current, r.current))
            || (&& DeadEnd(marked, s.current) && s.stack != []
                && r.current == s.stack[|s.stack| - 1] && r.stack == s.stack[..|s.stack| - 1]
                && r.grid == marked)
            || (DeadEnd(marked, s.current) && s.stack == [] && r.current == s.current && r.stack == [] && r.grid == marked)
  {
    MarkCounted(n, s);
  }

  /** When a neighbour is drawn, the step carves into it and pushes the current cell. */
  lemma StepAdvances(n: int, s: Gen, rand: Oracle, t: nat)
    requires GenValid(n, s) && InRange(rand) && Pick(n, s, rand, t).Some?
    ensures var r, m := Step(n, s, rand, t), Pick(n, s, rand, t).value;
            && r.current == m && r.stack == s.stack + [s.current]
            && r.grid == Carve(Mark(s.grid, s.current), n, s.current, m)
  {
    MarkCounted(n, s);
  }

  /** At a dead end the step pops the stack, or only marks when the stack is empty. */
  lemma StepRetreats(n: int, s: Gen, rand: Oracle, t: nat)
    requires GenValid(n, s) && InRange(rand) && Pick(n, s, rand, t).None?
    ensures var r := Step(n, s, rand, t);
            && r.grid == Mark(s.grid, s.current)
            && (s.stack != [] ==> r.current == s.stack[|s.stack| - 1] && r.stack == s.stack[..|s.stack| - 1])
            && (s.stack == [] ==> r.current == s.current && r.stack == [])
  {
    MarkCounted(n, s);
  }

  /** A step that only marks can come only when the current cell was unvisited, or everything is visited. */
  lemma StuckStep(n: int, s: Gen)
    requires GenValid(n, s) && s.stack == [] && s.grid[s.current].visited
    requires DeadEnd(s.grid, s.current)
    ensures Completed(s)
  {
    assert NoFrontier(s.grid);
    NoFrontierAllVisited(s.grid, n, s.current);
    VisitedCount(s.grid);
  }

  /**
   * Until the maze is complete every step makes progress: it claims a
   * pending cell, or pops the stack, or marks the current cell; a step
   * that could do none of these would need a visited cell with an
   * unvisited grid neighbour that is neither current nor stacked.
   */
  lemma StepProgress(n: int, s: Gen, rand: Oracle, t: nat)
    requires GenValid(n, s) && InRange(rand) && !Completed(s)
    ensures var r := Step(n, s, rand, t);
            || (r.current in Pending(s) && Pending(r) == Pending(s) - {r.current})
            || (Pending(r) == Pending(s) && |r.stack| < |s.stack|)
            || (Pending(r) == Pending(s) && r.stack == s.stack && r.current == s.current
                && !s.grid[s.current].visited && r.grid[r.current].visited)
  {
    var r := Step(n, s, rand, t);
    StepCases(n, s, rand, t);
    if !DeadEnd(Mark(s.grid, s.current), s.current) {
      PendingAfterAdvance(n, s, r);
    } else {
      if s.stack == [] && s.grid[s.current].visited {
        assert Mark(s.grid, s.current) == s.grid;
        StuckStep(n, s);
      }
      PendingAfterRetreat(n, s, r);
    }
  }

  /** Carving into an unvisited neighbour claims it from the pending cells. */
  lemma PendingAfterAdvance(n: int, s: Gen, r: Gen)
    requires WellFormed(s.grid, n) && s.current < |s.grid|
    requires r.current < |s.grid| && r.current != s.current && !s.grid[r.current].visited
    requires r.grid == Carve(Mark(s.grid, s.current), n, s.current, r.current)
    ensures r.current in Pending(s) && Pending(r) == Pending(s) - {r.current}
  {
    MarkFacts(s.grid, n, s.current);
    UnvisitedFacts(Mark(s.grid, s.current), n, s.current, s.current, r.current);
    UnvisitedFacts(s.grid, n, s.current, s.current, r.current);
  }

  /** Marking the current cell and moving to a visited cell (or staying) leaves the pending cells alone. */
  lemma PendingAfterRetreat(n: int, s: Gen, r: Gen)
    requires WellFormed(s.grid, n) && s.current < |s.grid|
    requires r.grid == Mark(s.grid, s.current)
    requires r.current == s.current || (r.current < |r.grid| && r.grid[r.current].visited)
    ensures Pending(r) == Pending(s)
  {
    UnvisitedFacts(s.grid, n, s.current, s.current, s.current);
  }

  /** generateCompleteMaze: steps until isMazeCompleted, the t-th step using draw t. */
  ghost function Run(n: int, s: Gen, rand: Oracle, t: nat): (r: Gen)
    requires GenValid(n, s) && InRange(rand)
    ensures GenValid(n, r) && Completed(r) && |r.grid| == |s.grid|
    ensures forall k :: 0 <= k < |r.grid| ==> r.grid[k].visited
    decreases |Pending(s)|, |s.stack|, if s.grid[s.current].visited then 0 else 1
  {
    if Completed(s) then
      VisitedCount(s.grid);
      s
    else
      StepProgress(n, s, rand, t);
      Run(n, Step(n, s, rand, t), rand, t + 1)
  }
}
