/**
 * The searches of algorithms.js side by side on one grid: they agree on
 * whether the goal can be reached, BFS's path is never longer than another
 * search's, and A* with unit steps and the Manhattan heuristic finds paths
 * exactly as short as BFS's.
 */
module Comparison {
  import opened Chance
  import opened Cells
  import Bfs
  import Dfs
  import Gbfs
  import AStar
  import RandomWalks

  /** Every search that can fail finds a path exactly when BFS does, and none is shorter than BFS's. */
  method BfsNoLonger(g: seq<Cell>, n: int, rand: Oracle)
      returns (viaBfs: seq<nat>, viaDfs: seq<nat>, viaGbfs: seq<nat>, viaWalk: seq<nat>)
    requires WellFormed(g, n) && InRange(rand)
    ensures viaDfs == [] <==> viaBfs == []
    ensures viaGbfs == [] <==> viaBfs == []
    ensures viaWalk == [] <==> viaBfs == []
    ensures viaBfs != [] ==> |viaBfs| <= |viaDfs| && |viaBfs| <= |viaGbfs| && |viaBfs| <= |viaWalk|
  {
    viaBfs := Bfs.BFS(g, n);
    viaDfs := Dfs.DFS(g, n);
    viaGbfs := Gbfs.GBFS(g, n);
    viaWalk := RandomWalks.RandomWalk(g, n, rand);
  }

  /** A* agrees with BFS: both find the goal or neither does, and their paths have the same number of cells. */
  method AStarSameAsBfs(g: seq<Cell>, n: int) returns (viaAStar: seq<nat>, viaBfs: seq<nat>)
    requires WellFormed(g, n)
    ensures viaAStar == [] <==> viaBfs == []
    ensures |viaAStar| == |viaBfs|
  {
    viaAStar := AStar.AStar(g, n);
    viaBfs := Bfs.BFS(g, n);
  }
}
