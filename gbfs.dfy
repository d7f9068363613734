/**
 * GBFS (algorithms.js): greedy best-first search from cell 0 to cell
 * |g| - 1 over the priority queue, each cell rated by its heuristic distance
 * to the goal. A cell is marked visited when it is dequeued and expanded; a
 * dequeued cell that is already visited is skipped. While a cell is not yet
 * visited, every expansion that meets it overwrites its `cameFrom` entry and
 * queues it again.
 *
 * The proof rests on two facts: a `cameFrom` entry always points at a
 * visited cell, and a visited cell's entry never changes again. So the
 * depth a cell has in the `cameFrom` tree when it is visited stays right,
 * and the ghost map `depth` records it.
 */
module Gbfs {
  import opened Cells
  import opened Trees
  import opened Moves
  import opened Paths
  import opened Queues
  import opened Discovery

  datatype Frontier = Frontier(queue: seq<Entry>, visited: set<nat>, cameFrom: map<nat, nat>, depth: map<nat, nat>)

  /** The queue entry GBFS makes for cell w: rated by the heuristic distance to the goal. */
  function Rate(g: seq<Cell>, w: nat): Entry
    requires w < |g|
  {
    Entry(w, ToGoal(g, w))
  }

  /** The queue after each cell of ws, in order, has been enqueued at its rate. */
  ghost function EnqueueAll(g: seq<Cell>, q: seq<Entry>, ws: seq<nat>): seq<Entry>
    requires forall x :: 0 <= x < |ws| ==> ws[x] < |g|
    decreases |ws|
  {
    if ws == [] then q
    else Insert(EnqueueAll(g, q, ws[..|ws| - 1]), Rate(g, ws[|ws| - 1]))
  }

  lemma EnqueueAllSnoc(g: seq<Cell>, q: seq<Entry>, ws: seq<nat>, w: nat)
    requires forall x :: 0 <= x < |ws| ==> ws[x] < |g|
    requires w < |g|
    ensures EnqueueAll(g, q, ws + [w]) == Insert(EnqueueAll(g, q, ws), Rate(g, w))
  {
    assert (ws + [w])[..|ws|] == ws;
  }

  /** Enqueueing the cells of ws adds exactly those cells to the queued ones. */
  lemma {:induction false} EnqueueAllNodes(g: seq<Cell>, q: seq<Entry>, ws: seq<nat>)
    requires forall x :: 0 <= x < |ws| ==> ws[x] < |g|
    ensures Nodes(EnqueueAll(g, q, ws)) == Nodes(q) + set w | w in ws
    decreases |ws|
  {
    if ws != [] {
      var init := ws[..|ws| - 1];
      EnqueueAllNodes(g, q, init);
      NodesInsert(EnqueueAll(g, q, init), Rate(g, ws[|ws| - 1]));
      assert ws == init + [ws[|ws| - 1]];
    }
  }

  /**
   * The inner loop of GBFS: every neighbour not yet visited gets `current`
   * as the cell it came from and is enqueued at its rate.
   */
  method EnqueueUnvisited(g: seq<Cell>, nbrs: seq<nat>, current: nat, queue: PriorityQueue,
                          visited: set<nat>, cameFrom: map<nat, nat>)
      returns (cameFrom': map<nat, nat>)
    requires queue.Valid()
    requires forall x :: 0 <= x < |nbrs| ==> nbrs[x] < |g|
    modifies queue
    ensures queue.Valid()
    ensures queue.elements == EnqueueAll(g, old(queue.elements), Unvisited(nbrs, visited))
    ensures cameFrom' == Link(cameFrom, Unvisited(nbrs, visited), current)
  {
    cameFrom' := cameFrom;
    ghost var q := queue.elements;
    ghost var ws: seq<nat> := [];
    for i := 0 to |nbrs|
      invariant ws == Unvisited(nbrs[..i], visited)
      invariant forall x :: 0 <= x < |ws| ==> ws[x] < |g|
      invariant queue.Valid()
      invariant queue.elements == EnqueueAll(g, q, ws)
      invariant cameFrom' == Link(cameFrom, ws, current)
    {
      var neighbor := nbrs[i];
      UnvisitedSnoc(nbrs, visited, i);
      if neighbor !in visited {
        LinkSnoc(cameFrom, ws, neighbor, current);
        EnqueueAllSnoc(g, q, ws, neighbor);
        cameFrom' := cameFrom'[neighbor := current];
        queue.Enqueue(neighbor, Heuristic(g[neighbor], g[|g| - 1]));
        ws := ws + [neighbor];
      }
    }
    assert nbrs[..|nbrs|] == nbrs;
  }

  /** The visited cells are the ones with a depth, and their `cameFrom` chains are ranked by it. */
  ghost predicate Ranked(cameFrom: map<nat, nat>, depth: map<nat, nat>, visited: set<nat>)
  {
    depth.Keys == visited && (visited != {} ==> ParentChain(cameFrom, depth, 0))
  }

  /** Every `cameFrom` entry points at a visited cell through an open wall. */
  ghost predicate Linked(g: seq<Cell>, cameFrom: map<nat, nat>, visited: set<nat>)
  {
    forall v :: v in cameFrom ==> cameFrom[v] in visited && Open(g, cameFrom[v], v)
  }

  /** The visited cells are in range, the goal is not among them, and their chains are ranked and open. */
  ghost predicate Tracked(g: seq<Cell>, s: Frontier)
  {
    && |g| >= 1
    && (forall v :: v in s.visited ==> v < |g|)
    && |g| - 1 !in s.visited
    && Ranked(s.cameFrom, s.depth, s.visited)
    && Linked(g, s.cameFrom, s.visited)
  }

  /** Before the first expansion the queue holds only the start; afterwards every queued cell has a `cameFrom` entry. */
  ghost predicate Queued(g: seq<Cell>, s: Frontier)
  {
    && (forall x :: 0 <= x < |s.queue| ==> s.queue[x].node < |g|)
    && (s.visited == {} ==> |g| >= 1 && s.queue == [Rate(g, 0)] && s.cameFrom == map[])
    && (s.visited != {} ==> forall x :: 0 <= x < |s.queue| ==> s.queue[x].node in s.cameFrom)
  }

  /** Every open wall out of a visited cell leads to a visited or a queued cell. */
  ghost predicate Covered(g: seq<Cell>, s: Frontier)
  {
    forall u, w :: u in s.visited && Open(g, u, w) ==> w in s.visited || w in Nodes(s.queue)
  }

  ghost predicate Inv(g: seq<Cell>, s: Frontier)
  {
    Tracked(g, s) && Queued(g, s) && Covered(g, s)
  }

  ghost function Unclosed(g: seq<Cell>, visited: set<nat>): set<nat>
  {
    set k: nat | k < |g| && k !in visited
  }

  /** One expanding turn on the ghost state: dequeue u, visit it, enqueue its unvisited neighbours. */
  ghost function Close(g: seq<Cell>, s: Frontier, nbrs: seq<nat>): Frontier
    requires s.queue != [] && forall x :: 0 <= x < |nbrs| ==> nbrs[x] < |g|
    requires s.visited != {} ==> s.queue[0].node in s.cameFrom && s.cameFrom[s.queue[0].node] in s.depth
  {
    var u := s.queue[0].node;
    var visited := s.visited + {u};
    var ws := Unvisited(nbrs, visited);
    Frontier(
      EnqueueAll(g, s.queue[1..], ws), visited, Link(s.cameFrom, ws, u),
      s.depth[u := if s.visited == {} then 0 else s.depth[s.cameFrom[u]] + 1])
  }

  /** The depths that make the goal's `cameFrom` chain a ranked chain when it is dequeued. */
  ghost function GoalRank(g: seq<Cell>, s: Frontier): map<nat, nat>
    requires |g| >= 1
    requires s.visited != {} ==> |g| - 1 in s.cameFrom && s.cameFrom[|g| - 1] in s.depth
  {
    if s.visited == {} then map[0 := 0]
    else s.depth[|g| - 1 := s.depth[s.cameFrom[|g| - 1]] + 1]
  }

  /**
   * GBFS: the path it returns is a walk from the start to the goal, and it
   * returns [] exactly when the goal cannot be reached.
   */
  method GBFS(g: seq<Cell>, n: int) returns (path: seq<nat>)
    requires WellFormed(g, n)
    ensures path != [] ==> Walk(g, path) && path[0] == 0 && path[|path| - 1] == |g| - 1
    ensures path == [] <==> !Reachable(g, 0, |g| - 1)
  {
    var start, goal := 0, |g| - 1;
    var queue := new PriorityQueue();
    var visited: set<nat> := {};
    var cameFrom: map<nat, nat> := map[];
    queue.Enqueue(start, Heuristic(g[start], g[goal]));
    ghost var st := Frontier(queue.elements, visited, cameFrom, map[]);
    while !queue.IsEmpty()
      invariant queue.Valid() && Inv(g, st)
      invariant st.queue == queue.elements && st.visited == visited && st.cameFrom == cameFrom
      decreases Unclosed(g, visited), |queue.elements|
    {
      ghost var s := st;
      var current := queue.Dequeue();
      if current == goal {
        Found(g, s);
        ghost var rank := GoalRank(g, s);
        path := ReconstructPath(cameFrom, start, goal, rank);
        ChainWalk(g, cameFrom, rank, start, goal);
        return;
      }
      if current in visited {
        Skip(g, s);
        st := s.(queue := s.queue[1..]);
      } else {
        Dequeued(g, s);
        visited := visited + {current};
        var neighbors := ValidNeighbors(g, n, current);
        CloseKeeps(g, s, neighbors);
        st := Close(g, s, neighbors);
        cameFrom := EnqueueUnvisited(g, neighbors, current, queue, visited, cameFrom);
      }
    }
    Exhausted(g, st);
    path := [];
  }

  /** Dequeuing a cell already visited keeps the invariant. */
  lemma Skip(g: seq<Cell>, s: Frontier)
    requires Inv(g, s) && s.queue != [] && s.queue[0].node in s.visited
    ensures Inv(g, s.(queue := s.queue[1..]))
  {
    NodesTail(s.queue);
  }

  /** An expansion keeps the depths and the `cameFrom` links of the visited cells. */
  lemma CloseTracked(g: seq<Cell>, s: Frontier, nbrs: seq<nat>)
    requires Tracked(g, s) && s.queue != []
    requires s.queue[0].node < |g| && s.queue[0].node != |g| - 1 && s.queue[0].node !in s.visited
    requires s.visited == {} ==> s.queue[0].node == 0 && s.cameFrom == map[]
    requires s.visited != {} ==> s.queue[0].node in s.cameFrom
    requires forall x :: 0 <= x < |nbrs| ==> nbrs[x] < |g|
    requires forall m: nat :: m in nbrs <==> Open(g, s.queue[0].node, m)
    ensures Tracked(g, Close(g, s, nbrs))
  {
    var u, r := s.queue[0].node, Close(g, s, nbrs);
    var ws := Unvisited(nbrs, r.visited);
    UnvisitedMembers(nbrs, r.visited);
    VisitTracked(g, s, u, ws, r.depth[u], r.queue);
  }

  /** Visiting u and linking the unvisited cells ws to it keeps the visited cells' chains ranked and open, whatever the queue. */
  lemma VisitTracked(g: seq<Cell>, s: Frontier, u: nat, ws: seq<nat>, d: nat, q: seq<Entry>)
    requires Tracked(g, s) && u < |g| && u != |g| - 1 && u !in s.visited
    requires s.visited == {} ==> u == 0 && d == 0 && s.cameFrom == map[]
    requires s.visited != {} ==> u in s.cameFrom && d == s.depth[s.cameFrom[u]] + 1
    requires forall w :: w in ws ==> w !in s.visited && w != u && Open(g, u, w)
    ensures Tracked(g, Frontier(q, s.visited + {u}, Link(s.cameFrom, ws, u), s.depth[u := d]))
  {
    LinksAfter(g, s.cameFrom, s.visited, u, ws);
    CloseChain(g, s.cameFrom, s.depth, s.visited, u, ws, d);
  }

  /** Linking the cells of ws to u keeps every `cameFrom` entry pointing at a visited cell through an open wall. */
  lemma LinksAfter(g: seq<Cell>, cameFrom: map<nat, nat>, visited: set<nat>, u: nat, ws: seq<nat>)
    requires Linked(g, cameFrom, visited)
    requires forall w :: w in ws ==> Open(g, u, w)
    ensures Linked(g, Link(cameFrom, ws, u), visited + {u})
  {
    LinkFacts(cameFrom, ws, u);
  }

  /** Visiting u at one more than its parent's depth, and linking unvisited cells to it, keeps the chains ranked. */
  lemma CloseChain(g: seq<Cell>, cameFrom: map<nat, nat>, depth: map<nat, nat>, visited: set<nat>, u: nat, ws: seq<nat>, d: nat)
    requires Ranked(cameFrom, depth, visited) && Linked(g, cameFrom, visited) && u !in visited
    requires visited == {} ==> u == 0 && d == 0 && cameFrom == map[]
    requires visited != {} ==> u in cameFrom && d == depth[cameFrom[u]] + 1
    requires forall w :: w in ws ==> w !in visited && w != u
    ensures Ranked(Link(cameFrom, ws, u), depth[u := d], visited + {u})
  {
    var parent, rank := Link(cameFrom, ws, u), depth[u := d];
    LinkFacts(cameFrom, ws, u);
    forall v | v in parent && v in rank && v != 0
      ensures parent[v] in rank && rank[parent[v]] + 1 == rank[v]
    {
      assert v !in ws && parent[v] == cameFrom[v];
      assert cameFrom[v] in visited;
    }
  }

  /** After an expansion every queued cell is in range and has a `cameFrom` entry. */
  lemma CloseQueued(g: seq<Cell>, s: Frontier, nbrs: seq<nat>)
    requires Queued(g, s) && s.queue != [] && s.queue[0].node < |g|
    requires s.visited != {} ==> s.queue[0].node in s.cameFrom && s.cameFrom[s.queue[0].node] in s.depth
    requires forall x :: 0 <= x < |nbrs| ==> nbrs[x] < |g|
    ensures Queued(g, Close(g, s, nbrs))
  {
    var u, r := s.queue[0].node, Close(g, s, nbrs);
    var ws := Unvisited(nbrs, r.visited);
    EnqueueAllNodes(g, s.queue[1..], ws);
    LinkFacts(s.cameFrom, ws, u);
    forall x | 0 <= x < |r.queue| ensures r.queue[x].node < |g| && r.queue[x].node in r.cameFrom {
      var w := r.queue[x].node;
      assert w in Nodes(r.queue);
      if w !in ws {
        var y :| 0 <= y < |s.queue[1..]| && s.queue[1..][y].node == w;
        assert s.queue[y + 1].node == w;
      }
    }
  }

  /** After an expansion every open wall out of a visited cell still leads to a visited or queued cell. */
  lemma CloseCovered(g: seq<Cell>, s: Frontier, nbrs: seq<nat>)
    requires Covered(g, s) && s.queue != []
    requires s.visited != {} ==> s.queue[0].node in s.cameFrom && s.cameFrom[s.queue[0].node] in s.depth
    requires forall x :: 0 <= x < |nbrs| ==> nbrs[x] < |g|
    requires forall m: nat :: m in nbrs <==> Open(g, s.queue[0].node, m)
    ensures Covered(g, Close(g, s, nbrs))
  {
    var u, r := s.queue[0].node, Close(g, s, nbrs);
    var ws := Unvisited(nbrs, r.visited);
    UnvisitedMembers(nbrs, r.visited);
    EnqueueAllNodes(g, s.queue[1..], ws);
    NodesTail(s.queue);
  }

  /** A dequeued cell is in range and, after the first turn, has a `cameFrom` entry pointing at a cell with a depth. */
  lemma Dequeued(g: seq<Cell>, s: Frontier)
    requires Inv(g, s) && s.queue != []
    ensures s.queue[0].node < |g|
    ensures s.visited != {} ==> s.queue[0].node in s.cameFrom && s.cameFrom[s.queue[0].node] in s.depth
  {
  }

  /** An expanding turn keeps the invariant and visits one more cell. */
  lemma CloseKeeps(g: seq<Cell>, s: Frontier, nbrs: seq<nat>)
    requires Inv(g, s) && s.queue != []
    requires s.queue[0].node != |g| - 1 && s.queue[0].node !in s.visited
    requires forall m: nat :: m in nbrs <==> Open(g, s.queue[0].node, m)
    requires forall x :: 0 <= x < |nbrs| ==> nbrs[x] < |g|
    ensures s.visited != {} ==> s.queue[0].node in s.cameFrom && s.cameFrom[s.queue[0].node] in s.depth
    ensures Inv(g, Close(g, s, nbrs))
    ensures Unclosed(g, Close(g, s, nbrs).visited) < Unclosed(g, s.visited)
  {
    var u := s.queue[0].node;
    assert u < |g|;
    CloseTracked(g, s, nbrs);
    CloseQueued(g, s, nbrs);
    CloseCovered(g, s, nbrs);
    assert u in Unclosed(g, s.visited);
  }

  /** When the goal is dequeued, its `cameFrom` chain is a ranked chain of open links back to the start. */
  lemma Found(g: seq<Cell>, s: Frontier)
    requires Ranked(s.cameFrom, s.depth, s.visited) && Linked(g, s.cameFrom, s.visited) && |g| - 1 !in s.visited
    requires s.queue != [] && s.queue[0].node == |g| - 1
    requires s.visited == {} ==> s.queue[0].node == 0 && s.cameFrom == map[]
    requires s.visited != {} ==> s.queue[0].node in s.cameFrom
    ensures s.visited != {} ==> |g| - 1 in s.cameFrom && s.cameFrom[|g| - 1] in s.depth
    ensures ParentChain(s.cameFrom, GoalRank(g, s), 0) && |g| - 1 in GoalRank(g, s)
    ensures OpenLinks(g, s.cameFrom, GoalRank(g, s), 0)
  {
    if s.visited == {} {
      StartChain(g, s.cameFrom);
    } else {
      GoalLinked(g, s.cameFrom, s.depth, s.visited, |g| - 1);
    }
  }

  /** Before the first expansion the start alone is a ranked chain, with no links. */
  lemma StartChain(g: seq<Cell>, cameFrom: map<nat, nat>)
    requires cameFrom == map[]
    ensures ParentChain(cameFrom, map[0 := 0], 0) && OpenLinks(g, cameFrom, map[0 := 0], 0)
  {
  }

  /** The goal, not yet visited but linked to a visited cell, ranks one below it on a chain of open links. */
  lemma GoalLinked(g: seq<Cell>, cameFrom: map<nat, nat>, depth: map<nat, nat>, visited: set<nat>, t: nat)
    requires Ranked(cameFrom, depth, visited) && Linked(g, cameFrom, visited)
    requires visited != {} && t !in visited && t in cameFrom
    ensures cameFrom[t] in depth
    ensures ParentChain(cameFrom, depth[t := depth[cameFrom[t]] + 1], 0)
    ensures OpenLinks(g, cameFrom, depth[t := depth[cameFrom[t]] + 1], 0)
  {
    GoalChain(cameFrom, depth, t);
  }

  /** A ranked chain stays ranked when an unranked cell is ranked one below its ranked parent. */
  lemma GoalChain(cameFrom: map<nat, nat>, depth: map<nat, nat>, t: nat)
    requires ParentChain(cameFrom, depth, 0) && t !in depth
    requires forall v :: v in cameFrom ==> cameFrom[v] in depth
    requires t in cameFrom
    ensures ParentChain(cameFrom, depth[t := depth[cameFrom[t]] + 1], 0)
  {
    var rank := depth[t := depth[cameFrom[t]] + 1];
    forall v | v in cameFrom && v in rank && v != 0
      ensures cameFrom[v] in rank && rank[cameFrom[v]] + 1 == rank[v]
    {
      assert cameFrom[v] in depth;
    }
  }

  /** With the queue empty, the visited cells are closed under moves: the goal is out of reach. */
  lemma Exhausted(g: seq<Cell>, s: Frontier)
    requires Inv(g, s) && s.queue == []
    ensures !Reachable(g, 0, |g| - 1)
  {
    assert Closed(g, s.visited);
    assert 0 in s.depth;
    Unreachable(g, s.visited, 0, |g| - 1);
  }
}
