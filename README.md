# Maze Algorithm Visualizer — a verified model of the maze and its searches

This project models the algorithmic core of the Maze Algorithm Visualizer
in Dafny:

- the maze model of `model.js`:
  - an `n×n` grid of cells held in a flat list, indexed by `getIndex`, each cell with four wall flags (north, east, south, west) and a `visited` bit;
  - the iterative randomized backtracker that carves a maze (`generateStep`, `generateCompleteMaze`);
  - manual wall edits, random holes, the wall count, and the bot that replays a path;
- the path searches of `algorithms.js`:
  - the neighbour scan `getValidNeighbors` and the Manhattan `heuristic`;
  - `reconstructPath` and the stable sorted `PriorityQueue`;
  - the six searches BFS, DFS, greedy best-first (GBFS), A*, `randomWalk` and `trueRandomWalk`.

Cells are identified by their flat index `j + i*n`. The start is cell 0 and
the goal is the last cell. Every `Math.floor(Math.random() * len)` becomes
an answer of a choice oracle (`Chance.Oracle`, `Chance.Draw`). Every property
below holds for every oracle that answers in range, that is, whatever the
random draws are.

The form follows the source:

- `MazeModel`, `Bot` and `PriorityQueue` are classes whose methods update their fields.
- The searches are methods with `while` loops.
- Each loop's invariant is a predicate over a ghost copy of the search's own variables.
- Pure code is written as functions: `getIndex`, `heuristic`, `getValidNeighbors`, and the step of the generator.

The generator's step is a function `Generator.Step` on the generator state.
`MazeModel.GenerateStep` is proved to update the fields exactly as `Step`
says. The tree property of generation is proved about `Step` and `Run`.

Modules, one file each:

| file | module | source |
|---|---|---|
| `wrappers.dfy` | `Wrappers` (Option), `Chance` (the choice oracle) | — |
| `cells.dfy` | `Cells` | getIndex, Cell, getRandomUnvisitedNeighbor |
| `walls.dfy` | `Walls` | carvePath, wall flags and the wall count |
| `trees.dfy` | `Trees` | parent maps ranked by depth (cameFrom chains, the carving tree) |
| `spanning.dfy` | `Spanning` | why a finished backtracker has visited every cell |
| `generator.dfy` | `Generator` | generateStep and generateCompleteMaze as a state machine |
| `generator_tree.dfy` | `GeneratorTree` | carving yields a spanning tree of N*N-1 passages |
| `bot.dfy` | `Bots` | Bot |
| `maze.dfy` | `Maze` | makeGrid, MazeModel |
| `moves.dfy` | `Moves` | getValidNeighbors, walks, reachability, heuristic |
| `paths.dfy` | `Paths` | reconstructPath |
| `priority_queue.dfy` | `Queues` | PriorityQueue |
| `discovery.dfy` | `Discovery` | the neighbour scans shared by the searches |
| `bfs.dfy`, `dfs.dfy`, `gbfs.dfy`, `astar.dfy`, `random_walk.dfy` | `Bfs`, `Dfs`, `Gbfs`, `AStar`, `RandomWalks` | the searches |
| `compare.dfy` | `Comparison` | the searches side by side |

In these places the code does something a reader might not expect, and the model follows the code:

- `trueRandomWalk` moves only through open walls, because it calls `getValidNeighbors` (algorithms.js:187). It does not ignore walls.
- A* does not check the closed set when it dequeues a cell (algorithms.js:209-215). A cell that is dequeued again is expanded again, and this changes nothing (`AStar.Again`).
- `modifyCell` sets only the given flags of the one cell and does not mirror them onto the neighbour (model.js:140-147).

## Model

| member | source | states |
|---|---|---|
| Cells.GetIndex | model.js:151-156 | -1 exactly when a coordinate is outside [0, rows); otherwise an index in [0, rows²) from which the row and column are recovered by division and remainder |
| Cells.IndexInjective | model.js:155 | distinct coordinate pairs in range get distinct indices |
| Cells.CellCoords | model.js:136-138 | on a grid made by makeGrid, the cell at getIndex(i, j) has coordinates (i, j) |
| Generator.FreshGrid | model.js:45-53 | n*n cells; cell k is a fresh cell with coordinates (k / n, k % n), four walls up and unvisited; the grid is well formed and nothing is visited |
| Maze.MakeGrid | model.js:45-53 | the nested counting loops build exactly the fresh grid |
| Cells.UnvisitedNeighbors | model.js:17-28 | exactly the in-grid N/E/S/W neighbours that are unvisited, in N, E, S, W order |
| Cells.RandomUnvisitedNeighbor | model.js:17-30 | nothing exactly when the cell is a dead end (no unvisited neighbour); otherwise the unvisited grid neighbour at the drawn index of the N, E, S, W candidate list |
| Walls.Carve | model.js:55-72 | for grid-adjacent a, b it clears a's wall facing b and b's opposite wall and nothing else; a pair that is not adjacent in either axis leaves the grid unchanged; coordinates and visited bits never change |
| Walls.CarvedFlag | model.js:55-72 | after carving, a flag is down exactly when it was down before or it is one of the two facing flags |
| Walls.CarveSymmetric | model.js:55-72 | carving adjacent cells keeps walls agreeing on both sides |
| Walls.OpenAfterCarve | model.js:55-72 | after carving, two cells are joined exactly when they were joined before or they are the carved pair |
| Walls.CarvePassages | model.js:55-72 | carving adds exactly the one passage {a, b} to the set of open wall pairs |
| Walls.ClearWallTotal | model.js:109 | clearing one flag lowers the wall count by one if it was up and leaves it alone otherwise |
| Generator.VisitedCount | model.js:100-102 | the number of visited cells is at most the number of cells, and equals it exactly when every cell is visited |
| Generator.MarkCounted | model.js:75-78 | marking the current cell raises the count of visited cells by one exactly when it was unvisited |
| Generator.Pick | model.js:80 | the random neighbour is absent exactly when the marked current cell is a dead end; otherwise it is an unvisited grid neighbour |
| Generator.Step | model.js:74-90 | one step keeps the backtracker invariant and the counter equal to the number of visited cells; the counter rises by one exactly when the current cell was unvisited |
| Generator.StepCases | model.js:80-88 | a step either pushes the current cell, carves to an unvisited neighbour and moves there; or pops the stack at a dead end; or, at a dead end with an empty stack, stays put |
| Generator.StepAdvances | model.js:81-84 | when a neighbour is picked, it becomes current, the old cell is pushed and the wall between them is carved |
| Generator.StepRetreats | model.js:86-88 | at a dead end the stack is popped into current, or nothing moves when the stack is empty |
| Generator.StuckStep | model.js:86-88 | a visited dead end with an empty stack means every cell is visited |
| Generator.StepProgress | model.js:129-134 | before completion, each step claims an unvisited cell, or shortens the stack, or marks the current cell, so generateCompleteMaze terminates |
| Generator.Run | model.js:129-134 | stepping until isMazeCompleted ends with every cell visited and the invariant kept |
| GeneratorTree.CarveWalls | model.js:82-83 | carving from a visited cell into an unvisited neighbour keeps walls symmetric and adds one new passage |
| GeneratorTree.StepKeepsCarving | model.js:74-90 | every step keeps the open wall pairs equal to the edges of a tree, rooted at cell 0, over the cells reached so far |
| GeneratorTree.RunSpanning | model.js:129-134 | generation from any carving state ends with walls that agree on both sides and a spanning tree of passages |
| GeneratorTree.GeneratedMazeIsSpanningTree | model.js:129-134 | a freshly built model, generated to completion under any random draws, has walls that agree on both sides and exactly N*N-1 passages forming a tree through which every cell is reached from cell 0 |
| Spanning.NoFrontierAllVisited | model.js:86-88 | if no visited cell borders an unvisited one, every cell is visited |
| Maze.MazeModel.constructor | model.js:34-43 | the model starts at the fresh grid, current cell 0, an empty stack, a counter of 0 and a bot at (0, 0) with an empty trail |
| Maze.MazeModel.CarvePath | model.js:55-72 | the grid becomes the carved grid |
| Maze.MazeModel.GenerateStep | model.js:74-90 | the fields become exactly Generator.Step of the old state, and the invariant holds again |
| Maze.MazeModel.GetStepCount | model.js:125-127 | the depth of the backtracking stack |
| Maze.MazeModel.GetCurrentCell | model.js:92-94 | a grid cell whose coordinates index the generator's position |
| Maze.MazeModel.GetAllCells | model.js:96-98 | the model's grid itself: its n*n cells, each at the index of its own coordinates |
| Maze.MazeModel.IsMazeCompleted | model.js:100-102 | true exactly when every cell is visited |
| Maze.MazeModel.GenerateCompleteMaze | model.js:129-134 | ends with the maze completed and the fields equal to Generator.Run of the old state |
| Maze.MazeModel.GetCell | model.js:136-138 | a cell exactly when both coordinates are in range, and then the grid cell with those coordinates |
| Maze.MazeModel.ModifyCell | model.js:140-147 | each of the four flags of cell (i, j) takes the given value where one is given and keeps its old value otherwise; all other cells and the neighbour's flags are unchanged |
| Maze.MazeModel.CreateRandomHoles | model.js:104-111 | floor(0.1·cells) drawn (cell, wall) flags are cleared one-sidedly and no other flag changes; the wall count never rises and drops by at most that number |
| Maze.MazeModel.CountWalls | model.js:113-123 | the number of wall flags that are up, over all cells |
| Bots.Bot.constructor | model.js:159-164 | the bot starts at (0, 0) with a counter of 0 and an empty trail |
| Bots.Bot.Move | model.js:166-171 | the bot stands on (i, j), the counter rises by exactly one and (i, j) ends the trail; the counter stays equal to the trail's length |
| Bots.Bot.GetCounter | model.js:173-175 | the counter, which equals the number of moves on the trail |
| Bots.Bot.GetPath | model.js:177-179 | the trail |
| Bots.Bot.Reset | model.js:181-186 | back to (0, 0), a counter of 0 and an empty trail |
| Moves.ValidNeighbors | algorithms.js:32-51 | exactly the grid neighbours that the cell's own open walls lead to, in N, E, S, W order |
| Moves.Heuristic | algorithms.js:53-55 | a natural number that is zero exactly when the two cells have the same coordinates |
| Moves.HeuristicSymmetric | algorithms.js:53-55 | the distance does not depend on argument order |
| Moves.HeuristicTriangle | algorithms.js:53-55 | the distance obeys the triangle inequality |
| Moves.HeuristicStep | algorithms.js:53-55 | between grid-adjacent cells the distance to any cell changes by exactly one |
| Moves.HeuristicAdmissible | algorithms.js:53-55 | the distance between a walk's ends is at most the walk's number of steps |
| Moves.Unreachable | algorithms.js:29 | no walk leaves a set of cells that no open wall leads out of |
| Paths.ReconstructPath | algorithms.js:57-68 | given a parent chain from the goal back to the start, the path starts at start, ends at goal, has one cell per rank, and each cell after the first has its predecessor as its parent |
| Paths.ChainWalk | algorithms.js:57-68 | if every parent link goes through an open wall, the reconstructed path is a walk |
| Queues.Insert | algorithms.js:75-78 | enqueueing lengthens the list by one |
| Queues.InsertSplit | algorithms.js:75-78 | on a sorted list the new entry lands after every entry of equal or lower priority and before every higher one, so ties keep insertion order |
| Queues.InsertSorted | algorithms.js:75-78 | enqueueing keeps the list sorted by priority |
| Queues.InsertPermutation | algorithms.js:75-78 | enqueueing adds exactly the new entry: the old list plus it, as a multiset |
| Queues.InsertMembers | algorithms.js:75-78 | an entry is in the new list exactly when it was in the old one or is the new entry |
| Queues.SortedHead | algorithms.js:80-82 | the head of a sorted list has the least priority |
| Queues.NodesInsert | algorithms.js:75-78 | enqueueing adds exactly the new node to the nodes listed |
| Queues.NodesTail | algorithms.js:80-82 | dequeueing removes the head's node from the list, and nothing else |
| Queues.HasNode | algorithms.js:223 | true exactly when some entry carries the node |
| Queues.PriorityQueue.constructor | algorithms.js:71-73 | an empty, sorted queue |
| Queues.PriorityQueue.Enqueue | algorithms.js:75-78 | the entries become the stable insertion of (node, priority), and stay sorted |
| Queues.PriorityQueue.Dequeue | algorithms.js:80-82 | returns the head's node, which has the least priority, and drops exactly the head |
| Queues.PriorityQueue.IsEmpty | algorithms.js:84-86 | true exactly when no entry is left |
| Discovery.FreshMembers | algorithms.js:20-26 | a neighbour is pushed exactly when it is not yet visited |
| Discovery.FreshDistinct | algorithms.js:20-26 | one scan pushes no cell twice |
| Discovery.NothingFresh | algorithms.js:20-26 | when every neighbour is visited, nothing is pushed |
| Discovery.PushUnvisited | algorithms.js:20-26 | the pending list gains the unvisited neighbours in scan order; every neighbour becomes visited; the pushed ones get the current cell as parent |
| Discovery.LinkFacts | algorithms.js:24 | after the scan, exactly the pushed cells point at the current cell and every other parent entry is unchanged |
| Discovery.UnvisitedMembers | algorithms.js:162 | the filter keeps exactly the neighbours not yet visited |
| Bfs.BFS | algorithms.js:3-30 | the path returned is a walk from start to goal through open walls, no longer than any such walk; [] exactly when the goal is unreachable |
| Bfs.ExpandKeeps | algorithms.js:13-26 | one pass keeps the invariant: parent chains ranked by level through open walls, the queue in non-decreasing level spanning at most two levels, every open wall from an expanded cell leading to a discovered cell at most one level further, and only the start (never marked visited) queued twice; the loop measure falls |
| Bfs.NoShorter | algorithms.js:15-16 | with all cells below level h expanded, no walk reaches a level-h cell in fewer than h steps |
| Bfs.Found | algorithms.js:15-16 | when the goal is dequeued, its parent chain is a walk no longer than any walk to it |
| Bfs.Exhausted | algorithms.js:29 | an empty queue means the goal is unreachable |
| Dfs.DFS | algorithms.js:122-149 | the path returned is a walk from start to goal through open walls; [] exactly when the goal is unreachable |
| Dfs.ExpandKeeps | algorithms.js:132-145 | one pass keeps parent chains ranked by depth through open walls, every expanded cell's open neighbours discovered (marked at push time), and only the start pushed twice; the loop measure falls |
| Dfs.Exhausted | algorithms.js:148 | an empty stack means the goal is unreachable |
| Gbfs.EnqueueUnvisited | algorithms.js:111-116 | every unvisited neighbour is linked to the current cell (overwriting an older link) and queued at its heuristic |
| Gbfs.EnqueueAllNodes | algorithms.js:111-116 | the queue gains exactly the unvisited neighbours |
| Gbfs.GBFS | algorithms.js:89-120 | the path returned is a walk from start to goal through open walls; [] exactly when the goal is unreachable |
| Gbfs.Skip | algorithms.js:105-107 | dropping a dequeued cell that is already visited keeps the invariant |
| Gbfs.CloseKeeps | algorithms.js:108-116 | visiting a cell and queueing its unvisited neighbours keeps the invariant and claims one more cell |
| Gbfs.Found | algorithms.js:101-102 | when the goal is dequeued, the links rank a chain from it back to the start through open walls |
| Gbfs.Exhausted | algorithms.js:119 | an empty queue means the goal is unreachable |
| AStar.Relax | algorithms.js:218-230 | the inner loop changes the open list, parents and g-scores exactly as the fold of one-neighbour relaxations says |
| AStar.RelaxedKeeps | algorithms.js:218-230 | relaxing keeps every entry queued at least at its score plus the heuristic, every open cell listed at its current score, and parents one step closer through open walls; scores only fall and closed scores stay put; each open neighbour ends scored at most one more than the current cell |
| AStar.RelaxedIdle | algorithms.js:218-230 | when every open neighbour is already queued with a score no worse than the tentative one, relaxing changes nothing |
| AStar.FrontOptimal | algorithms.js:209 | the cell A* dequeues, if not closed, is scored with the length of a shortest walk to it (the heuristic is consistent and the list sorted) |
| AStar.TurnKeeps | algorithms.js:208-231 | one pass of the outer loop keeps the invariant (scores, links, closed cells optimal) and the loop measure falls |
| AStar.Expand | algorithms.js:208-231 | after the front cell is closed, relaxing its open neighbours leaves a state that keeps the search invariant, and either fewer cells are unclosed or the open list is shorter |
| AStar.Again | algorithms.js:209-230 | expanding a cell that is already closed changes nothing but the open list, which loses its head |
| AStar.Found | algorithms.js:211-212 | when the goal is dequeued, the parent chain is ranked by g-score, runs through open walls, and is no longer than any walk to the goal |
| AStar.Exhausted | algorithms.js:233 | an empty open list means the goal is unreachable |
| AStar.AStar | algorithms.js:197-234 | the path returned is a walk from start to goal through open walls, no longer than any such walk; [] exactly when the goal is unreachable |
| RandomWalks.RandomWalk | algorithms.js:151-178 | whatever the draws, the path returned is a walk from start to goal that repeats no cell; [] exactly when the goal is unreachable |
| RandomWalks.ForwardKeeps | algorithms.js:172-174 | stepping to an unvisited open neighbour links it once and keeps the invariant: a parent tree rooted at the start, and the chain from the start to the current cell, off which every visited cell has all its open neighbours visited |
| RandomWalks.BackKeeps | algorithms.js:164-169 | backing up to the parent from a cell with no unvisited open neighbour keeps the invariant and shortens the chain |
| RandomWalks.Cornered | algorithms.js:164-168 | when a cell with no parent has no unvisited open neighbour, the goal is unreachable |
| RandomWalks.Delivered | algorithms.js:177 | the path rebuilt at the goal is a walk from the start that repeats no cell |
| RandomWalks.TrueRandomWalk | algorithms.js:180-195 | whatever the draws, the path is a walk from the start through open walls that meets the goal only at its end; it reaches the goal exactly when it ends there; it stops early only at a cell without open walls or when the step budget is spent |
| Comparison.BfsNoLonger | algorithms.js:3-30 | DFS, GBFS and randomWalk find a path exactly when BFS does, and none of their paths is shorter than BFS's |
| Comparison.AStarSameAsBfs | algorithms.js:197-234 | A* finds a path exactly when BFS does, with the same number of cells |

## Left out

- Drawing: view.js, view-functions.js, the p5 canvas and DOM glue of maze.js and controller.js, the floating-point cell width `w` (model.js:10, 37) and the log message in generateCompleteMaze (model.js:131).
- The mirrored wall edit that maze.js performs by hand after modifyCell is call-site glue and is not modelled.
- Math.random: every draw is an answer of an oracle that is only required to be in range. Nothing about the distribution is modelled.
- Grids with n = 0: the model requires n ≥ 1. With n = 0 the source has no cell 0, and the constructor's `grid[0]` is undefined.
- Object identity: cells are their flat indices. Sets and maps of cells are `set<nat>` and `map<nat, nat>`.
- In randomWalk, `!current` in the source is true only for `undefined`, that is, for a cell without a parent. The model tests for a missing parent entry.
- Maze.MazeModel.CreateRandomHoles: `Math.floor(grid.length * 0.1)` is written as `|grid| / 10`. For the grid sizes in use, the double product never rounds below the true integer part, so the two agree.
- Maze.MazeModel.CreateRandomHoles: the drawn (cell, wall) pairs are a parameter of the method, listed in draw order.
- Queues.PriorityQueue.Enqueue: `Array.prototype.sort` is modelled as the stable insertion it produces on an already sorted list. Entries are only ever added through enqueue, so the list is always sorted.
- RandomWalks.TrueRandomWalk: the source has no bound on its loop. It pushes `undefined` and then fails when a cell has no open wall. The model takes a step budget `fuel` and reports `Stuck` at a wall-locked cell instead. The budget means no promise that the walk reaches the goal; the source makes none either.
- Dfs.DFS: the source promises no length bound for DFS, and the model states none beyond BFS's lower bound (Comparison.BfsNoLonger).
- Queues.PriorityQueue.Dequeue: requires a non-empty queue. On an empty queue `shift()` gives undefined and reading `.node` throws a TypeError (algorithms.js:81); both callers test `isEmpty()` before every dequeue (algorithms.js:98, 208), so that path is not modelled.
- Maze.MazeModel.ModifyCell: requires in-range coordinates. Out of range, getIndex gives -1, `grid[-1]` is undefined and the source throws a TypeError when it writes the walls (model.js:141-144); maze.js checks the coordinates before every call, so that path is not modelled.
- The exposure of getIndex and the classes as JavaScript module exports is not modelled.
