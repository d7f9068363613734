/**
 * astar (algorithms.js): A* search from cell 0 to cell |g| - 1 with unit
 * steps, g-scores in `gScore` and the Manhattan heuristic to the goal. A
 * dequeued cell is added to the closed set without checking whether it was
 * closed before; a neighbour that is not closed is (re)queued when it has no
 * entry on the open list or when the new tentative score beats its g-score.
 *
 * The proof keeps, as ghost state, only a copy of the search's own
 * variables. A `cameFrom` entry always points at a closed cell whose score
 * is one less, and a closed cell's score and entry never change again, so
 * the g-scores rank the `cameFrom` chains. The heuristic is consistent, and
 * the open list stays sorted. Together these make a cell's score, once it is
 * closed, the length of a shortest walk to it, so the path returned is as
 * short as any walk to the goal.
 */
module AStar {
  import opened Cells
  import opened Trees
  import opened Moves
  import opened Paths
  import opened Queues

  /** What the inner loop reads and changes: the open list, the parent map and the g-scores. */
  datatype Fringe = Fringe(queue: seq<Entry>, cameFrom: map<nat, nat>, gScore: map<nat, nat>)

  /** The whole state of the outer loop. */
  datatype Search = Search(queue: seq<Entry>, closed: set<nat>, cameFrom: map<nat, nat>, gScore: map<nat, nat>)

  /**
   * One pass of the inner loop over neighbour w of u, whose tentative score
   * is t: a closed neighbour is skipped; otherwise, when w has no entry on
   * the open list or t beats its score, w is linked to u, scored t and queued.
   */
  ghost function RelaxOne(g: seq<Cell>, f: Fringe, closed: set<nat>, u: nat, t: nat, w: nat): Fringe
    requires w < |g|
  {
    if w in closed then f
    else if !HasNode(f.queue, w) || (w in f.gScore && t < f.gScore[w]) then
      Fringe(Insert(f.queue, Entry(w, t + ToGoal(g, w))), f.cameFrom[w := u], f.gScore[w := t])
    else f
  }

  /** The inner loop over all of nbrs, in order. */
  ghost function Relaxed(g: seq<Cell>, f: Fringe, closed: set<nat>, u: nat, t: nat, nbrs: seq<nat>): Fringe
    requires forall x :: 0 <= x < |nbrs| ==> nbrs[x] < |g|
    decreases |nbrs|
  {
    if nbrs == [] then f
    else RelaxOne(g, Relaxed(g, f, closed, u, t, nbrs[..|nbrs| - 1]), closed, u, t, nbrs[|nbrs| - 1])
  }

  /**
   * The inner loop of astar over the neighbours of the closed cell
   * `current`: skip closed neighbours; requeue the others whose tentative
   * score gScore[current] + 1 is new or better.
   */
  method Relax(g: seq<Cell>, nbrs: seq<nat>, current: nat, openSet: PriorityQueue, closedSet: set<nat>,
               cameFrom: map<nat, nat>, gScore: map<nat, nat>)
      returns (cameFrom': map<nat, nat>, gScore': map<nat, nat>)
    requires openSet.Valid()
    requires forall x :: 0 <= x < |nbrs| ==> nbrs[x] < |g|
    requires current in closedSet && current in gScore
    modifies openSet
    ensures openSet.Valid()
    ensures Fringe(openSet.elements, cameFrom', gScore') ==
            Relaxed(g, Fringe(old(openSet.elements), cameFrom, gScore), closedSet, current, gScore[current] + 1, nbrs)
  {
    cameFrom', gScore' := cameFrom, gScore;
    ghost var f := Fringe(openSet.elements, cameFrom, gScore);
    for i := 0 to |nbrs|
      invariant openSet.Valid()
      invariant current in gScore' && gScore'[current] == gScore[current]
      invariant Fringe(openSet.elements, cameFrom', gScore') ==
                Relaxed(g, f, closedSet, current, gScore[current] + 1, nbrs[..i])
    {
      var neighbor := nbrs[i];
      assert nbrs[..i + 1][..i] == nbrs[..i];
      if neighbor in closedSet {
        continue;
      }
      var tentative := gScore'[current] + 1;
      if !HasNode(openSet.elements, neighbor) || (neighbor in gScore' && tentative < gScore'[neighbor]) {
        cameFrom' := cameFrom'[neighbor := current];
        gScore' := gScore'[neighbor := tentative];
        openSet.Enqueue(neighbor, tentative + Heuristic(g[neighbor], g[|g| - 1]));
      }
    }
    assert nbrs[..|nbrs|] == nbrs;
  }

  /**
   * The inner loop of astar run from a state of the outer loop whose
   * front cell `current` has just been closed: the relaxed state keeps the
   * search invariant, and the outer loop's measure falls.
   */
  method Expand(g: seq<Cell>, nbrs: seq<nat>, current: nat, openSet: PriorityQueue, closedSet: set<nat>,
                cameFrom: map<nat, nat>, gScore: map<nat, nat>, ghost s: Search)
      returns (cameFrom': map<nat, nat>, gScore': map<nat, nat>)
    requires openSet.Valid()
    requires forall x :: 0 <= x < |nbrs| ==> nbrs[x] < |g|
    requires forall m: nat :: m in nbrs <==> Open(g, current, m)
    requires Inv(g, s) && Sorted(s.queue) && s.queue != [] && current == s.queue[0].node && current != |g| - 1
    requires openSet.elements == s.queue[1..] && cameFrom == s.cameFrom && gScore == s.gScore
    requires current in gScore && closedSet == s.closed + {current}
    modifies openSet
    ensures openSet.Valid()
    ensures Inv(g, Search(openSet.elements, closedSet, cameFrom', gScore'))
    ensures Unclosed(g, closedSet) < Unclosed(g, s.closed) ||
            (Unclosed(g, closedSet) == Unclosed(g, s.closed) && |openSet.elements| < |s.queue|)
  {
    cameFrom', gScore' := Relax(g, nbrs, current, openSet, closedSet, cameFrom, gScore);
    TurnKeeps(g, s, nbrs, Search(openSet.elements, closedSet, cameFrom', gScore'));
  }

  /** Every scored cell is a cell of the grid. */
  ghost predicate InRange(g: seq<Cell>, gScore: map<nat, nat>)
  {
    forall v :: v in gScore ==> v < |g|
  }

  /** Every entry of the open list is a scored cell, queued at no less than its score plus the heuristic. */
  ghost predicate Sound(g: seq<Cell>, q: seq<Entry>, gScore: map<nat, nat>)
  {
    forall x :: 0 <= x < |q| ==>
      q[x].node in gScore && q[x].node < |g| && q[x].priority >= gScore[q[x].node] + ToGoal(g, q[x].node)
  }

  /** Every scored cell not closed has an entry carrying its current score. */
  ghost predicate Listed(g: seq<Cell>, q: seq<Entry>, gScore: map<nat, nat>, closed: set<nat>)
  {
    forall w :: w in gScore && w !in closed ==> w < |g| && Entry(w, gScore[w] + ToGoal(g, w)) in q
  }

  ghost predicate Scored(g: seq<Cell>, q: seq<Entry>, gScore: map<nat, nat>, closed: set<nat>)
  {
    InRange(g, gScore) && Sound(g, q, gScore) && Listed(g, q, gScore, closed)
  }

  /** Every `cameFrom` entry points at a closed cell through an open wall, scored one less; every scored cell but the start has one. */
  ghost predicate Linked(g: seq<Cell>, cameFrom: map<nat, nat>, gScore: map<nat, nat>, closed: set<nat>)
  {
    && (forall v :: v in cameFrom ==>
          cameFrom[v] in closed && cameFrom[v] in gScore && v in gScore &&
          Open(g, cameFrom[v], v) && gScore[v] == gScore[cameFrom[v]] + 1)
    && (forall v :: v in gScore && v != 0 ==> v in cameFrom)
  }

  /** gScore2 extends gScore1: scores only appear or fall, and the closed cells keep theirs. */
  ghost predicate Grows(gScore1: map<nat, nat>, gScore2: map<nat, nat>, closed: set<nat>)
  {
    && (forall v :: v in gScore1 ==> v in gScore2 && gScore2[v] <= gScore1[v])
    && (forall v :: v in closed && v in gScore1 && v in gScore2 ==> gScore2[v] == gScore1[v])
  }

  /** The start is scored 0 and is the first cell closed; the goal is never closed; closed cells are scored. */
  ghost predicate Start(g: seq<Cell>, s: Search)
  {
    && |g| >= 1
    && |g| - 1 !in s.closed
    && s.closed <= s.gScore.Keys
    && 0 in s.gScore && s.gScore[0] == 0
    && (s.closed == {} ==> s.queue == [Entry(0, ToGoal(g, 0))])
    && (s.closed != {} ==> 0 in s.closed)
  }

  /** Every open wall out of a closed cell leads to a closed cell or to one scored at most one more. */
  ghost predicate Settled(g: seq<Cell>, s: Search)
  {
    forall u, w :: u in s.closed && u in s.gScore && Open(g, u, w) && w !in s.closed ==>
      w in s.gScore && s.gScore[w] <= s.gScore[u] + 1
  }

  /** A closed cell's score is no more than the length of any walk to it from the start. */
  ghost predicate Optimal(g: seq<Cell>, s: Search)
  {
    forall p :: Walk(g, p) && p[0] == 0 && p[|p| - 1] in s.closed && p[|p| - 1] in s.gScore ==>
      s.gScore[p[|p| - 1]] <= |p| - 1
  }

  ghost predicate Inv(g: seq<Cell>, s: Search)
  {
    && Scored(g, s.queue, s.gScore, s.closed)
    && Linked(g, s.cameFrom, s.gScore, s.closed)
    && Start(g, s) && Settled(g, s) && Optimal(g, s)
  }

  ghost function Unclosed(g: seq<Cell>, closed: set<nat>): set<nat>
  {
    set k: nat | k < |g| && k !in closed
  }

  /** The scores of the closed cells and the goal: they rank the goal's `cameFrom` chain. */
  ghost function GoalRank(g: seq<Cell>, s: Search): map<nat, nat>
  {
    map v | v in s.gScore && (v in s.closed || v == |g| - 1) :: s.gScore[v]
  }

  /**
   * astar: the path it returns is a walk from the start to the goal that no
   * other such walk is shorter than, and it returns [] exactly when the
   * goal cannot be reached.
   */
  method AStar(g: seq<Cell>, n: int) returns (path: seq<nat>)
    requires WellFormed(g, n)
    ensures path != [] ==> Walk(g, path) && path[0] == 0 && path[|path| - 1] == |g| - 1
    ensures path == [] <==> !Reachable(g, 0, |g| - 1)
    ensures path != [] ==> forall p :: Walk(g, p) && p[0] == 0 && p[|p| - 1] == |g| - 1 ==> |path| <= |p|
  {
    var start, goal := 0, |g| - 1;
    var openSet := new PriorityQueue();
    var closedSet: set<nat> := {};
    var cameFrom: map<nat, nat> := map[];
    var gScore: map<nat, nat> := map[start := 0];
    openSet.Enqueue(start, Heuristic(g[start], g[goal]));
    ghost var st := Search(openSet.elements, closedSet, cameFrom, gScore);
    while !openSet.IsEmpty()
      invariant openSet.Valid() && Inv(g, st)
      invariant st.queue == openSet.elements && st.closed == closedSet
      invariant st.cameFrom == cameFrom && st.gScore == gScore
      decreases Unclosed(g, st.closed), |st.queue|
    {
      ghost var s := st;
      var current := openSet.Dequeue();
      if current == goal {
        Found(g, s);
        ghost var rank := GoalRank(g, s);
        path := ReconstructPath(cameFrom, start, goal, rank);
        ChainWalk(g, cameFrom, rank, start, goal);
        return;
      }
      Front(g, s);
      closedSet := closedSet + {current};
      var neighbors := ValidNeighbors(g, n, current);
      cameFrom, gScore := Expand(g, neighbors, current, openSet, closedSet, cameFrom, gScore, s);
      st := Search(openSet.elements, closedSet, cameFrom, gScore);
    }
    Exhausted(g, st);
    path := [];
  }

  /** Relaxing a neighbour keeps the scores sound, lets scores only fall, and leaves w scored at most t. */
  lemma {:induction false} RelaxOneScored(g: seq<Cell>, f: Fringe, closed: set<nat>, u: nat, t: nat, w: nat)
    requires Scored(g, f.queue, f.gScore, closed) && w < |g|
    ensures Scored(g, RelaxOne(g, f, closed, u, t, w).queue, RelaxOne(g, f, closed, u, t, w).gScore, closed)
    ensures Grows(f.gScore, RelaxOne(g, f, closed, u, t, w).gScore, closed)
    ensures w !in closed ==> w in RelaxOne(g, f, closed, u, t, w).gScore && RelaxOne(g, f, closed, u, t, w).gScore[w] <= t
  {
    if w !in closed && (!HasNode(f.queue, w) || (w in f.gScore && t < f.gScore[w])) {
      if w in f.gScore {
        Unqueued(g, f, closed, w);
      }
      RelaxScored(g, f, closed, t, w);
    } else if w !in closed {
      RelaxStays(g, f, closed, t, w);
    }
  }

  /** Relaxing a neighbour of the closed cell u keeps the links sound. */
  lemma {:induction false} RelaxOneLinked(g: seq<Cell>, f: Fringe, closed: set<nat>, u: nat, t: nat, w: nat)
    requires Linked(g, f.cameFrom, f.gScore, closed)
    requires u in closed && u in f.gScore && t == f.gScore[u] + 1
    requires w < |g| && (w !in closed ==> Open(g, u, w))
    ensures Linked(g, RelaxOne(g, f, closed, u, t, w).cameFrom, RelaxOne(g, f, closed, u, t, w).gScore, closed)
  {
    if w !in closed && (!HasNode(f.queue, w) || (w in f.gScore && t < f.gScore[w])) {
      RelaxLinked(g, f, closed, u, t, w);
    }
  }

  /** A scored cell that is not closed has an entry on the open list. */
  lemma {:induction false} Unqueued(g: seq<Cell>, f: Fringe, closed: set<nat>, w: nat)
    requires Listed(g, f.queue, f.gScore, closed) && w !in closed && w in f.gScore
    ensures HasNode(f.queue, w)
  {
    var y :| 0 <= y < |f.queue| && f.queue[y] == Entry(w, f.gScore[w] + ToGoal(g, w));
  }

  /** A neighbour already queued at a score no worse than t is scored at most t. */
  lemma {:induction false} RelaxStays(g: seq<Cell>, f: Fringe, closed: set<nat>, t: nat, w: nat)
    requires Sound(g, f.queue, f.gScore)
    requires HasNode(f.queue, w) && !(w in f.gScore && t < f.gScore[w])
    ensures w in f.gScore && f.gScore[w] <= t
  {
    var x :| 0 <= x < |f.queue| && f.queue[x].node == w;
  }

  /** Queuing w at score t, below any score it had, keeps the open list's scores sound. */
  lemma {:induction false} RelaxScored(g: seq<Cell>, f: Fringe, closed: set<nat>, t: nat, w: nat)
    requires Scored(g, f.queue, f.gScore, closed)
    requires w < |g| && w !in closed && (w in f.gScore ==> t < f.gScore[w])
    ensures Scored(g, Insert(f.queue, Entry(w, t + ToGoal(g, w))), f.gScore[w := t], closed)
  {
    InsertSound(g, f.queue, f.gScore, t, w);
    InsertListed(g, f.queue, f.gScore, closed, t, w);
  }

  lemma {:induction false} InsertSound(g: seq<Cell>, q: seq<Entry>, gScore: map<nat, nat>, t: nat, w: nat)
    requires Sound(g, q, gScore)
    requires w < |g| && (w in gScore ==> t < gScore[w])
    ensures Sound(g, Insert(q, Entry(w, t + ToGoal(g, w))), gScore[w := t])
  {
    var e := Entry(w, t + ToGoal(g, w));
    var r, sc := Insert(q, e), gScore[w := t];
    InsertMembers(q, e);
    forall x | 0 <= x < |r|
      ensures r[x].node in sc && r[x].node < |g| && r[x].priority >= sc[r[x].node] + ToGoal(g, r[x].node)
    {
      assert r[x] in r;
      if r[x] != e {
        assert r[x] in q;
        var y :| 0 <= y < |q| && q[y] == r[x];
      }
    }
  }

  lemma {:induction false} InsertListed(g: seq<Cell>, q: seq<Entry>, gScore: map<nat, nat>, closed: set<nat>, t: nat, w: nat)
    requires Listed(g, q, gScore, closed) && w < |g|
    ensures Listed(g, Insert(q, Entry(w, t + ToGoal(g, w))), gScore[w := t], closed)
  {
    var r, sc := Insert(q, Entry(w, t + ToGoal(g, w))), gScore[w := t];
    InsertMembers(q, Entry(w, t + ToGoal(g, w)));
    forall v | v in sc && v !in closed ensures v < |g| && Entry(v, sc[v] + ToGoal(g, v)) in r {
      if v == w {
        assert Entry(w, t + ToGoal(g, w)) in r;
      } else {
        assert Entry(v, gScore[v] + ToGoal(g, v)) in q;
      }
    }
  }

  /** Linking w to the closed cell u at score t, one more than u's, keeps the links sound. */
  lemma {:induction false} RelaxLinked(g: seq<Cell>, f: Fringe, closed: set<nat>, u: nat, t: nat, w: nat)
    requires Linked(g, f.cameFrom, f.gScore, closed)
    requires u in closed && u in f.gScore && t == f.gScore[u] + 1
    requires w !in closed && Open(g, u, w)
    ensures Linked(g, f.cameFrom[w := u], f.gScore[w := t], closed)
  {
  }

  /** The whole inner loop keeps the scores and links sound, lets scores only fall, and scores every open neighbour at most t. */
  lemma {:induction false} RelaxedKeeps(g: seq<Cell>, f: Fringe, closed: set<nat>, u: nat, t: nat, nbrs: seq<nat>)
    requires Scored(g, f.queue, f.gScore, closed) && Linked(g, f.cameFrom, f.gScore, closed)
    requires u in closed && u in f.gScore && t == f.gScore[u] + 1
    requires forall x :: 0 <= x < |nbrs| ==> nbrs[x] < |g|
    requires forall w :: w in nbrs ==> Open(g, u, w)
    ensures Scored(g, Relaxed(g, f, closed, u, t, nbrs).queue, Relaxed(g, f, closed, u, t, nbrs).gScore, closed)
    ensures Linked(g, Relaxed(g, f, closed, u, t, nbrs).cameFrom, Relaxed(g, f, closed, u, t, nbrs).gScore, closed)
    ensures Grows(f.gScore, Relaxed(g, f, closed, u, t, nbrs).gScore, closed)
    ensures forall w :: w in nbrs && w !in closed ==>
              w in Relaxed(g, f, closed, u, t, nbrs).gScore && Relaxed(g, f, closed, u, t, nbrs).gScore[w] <= t
    decreases |nbrs|
  {
    if nbrs != [] {
      var init, w := nbrs[..|nbrs| - 1], nbrs[|nbrs| - 1];
      assert forall v :: v in nbrs <==> v in init || v == w by {
        assert nbrs == init + [w];
      }
      RelaxedKeeps(g, f, closed, u, t, init);
      var m := Relaxed(g, f, closed, u, t, init);
      RelaxOneScored(g, m, closed, u, t, w);
      RelaxOneLinked(g, m, closed, u, t, w);
      GrowsTrans(f.gScore, m.gScore, Relaxed(g, f, closed, u, t, nbrs).gScore, closed);
    }
  }

  lemma {:induction false} GrowsTrans(a: map<nat, nat>, b: map<nat, nat>, c: map<nat, nat>, closed: set<nat>)
    requires Grows(a, b, closed) && Grows(b, c, closed)
    ensures Grows(a, c, closed)
  {
  }

  /** When every open neighbour is queued with a score no worse than t, the inner loop changes nothing. */
  lemma {:induction false} RelaxedIdle(g: seq<Cell>, f: Fringe, closed: set<nat>, u: nat, t: nat, nbrs: seq<nat>)
    requires forall x :: 0 <= x < |nbrs| ==> nbrs[x] < |g|
    requires forall w :: w in nbrs && w !in closed ==> HasNode(f.queue, w) && w in f.gScore && f.gScore[w] <= t
    ensures Relaxed(g, f, closed, u, t, nbrs) == f
    decreases |nbrs|
  {
    if nbrs != [] {
      var init := nbrs[..|nbrs| - 1];
      assert forall v :: v in init ==> v in nbrs;
      RelaxedIdle(g, f, closed, u, t, init);
      assert nbrs[|nbrs| - 1] in nbrs;
    }
  }

  /**
   * The cell at the front of the open list, when not closed, is scored no
   * more than the length of any walk to it: the first cell off the closed
   * set along a shortest walk is queued at a priority no smaller than the
   * front's, and the heuristic never overestimates.
   */
  lemma {:induction false} FrontOptimal(g: seq<Cell>, s: Search)
    requires Inv(g, s) && Sorted(s.queue) && s.queue != [] && s.queue[0].node !in s.closed
    ensures s.queue[0].node in s.gScore
    ensures forall p :: Walk(g, p) && p[0] == 0 && p[|p| - 1] == s.queue[0].node ==> s.gScore[s.queue[0].node] <= |p| - 1
  {
    var v := s.queue[0].node;
    forall p | Walk(g, p) && p[0] == 0 && p[|p| - 1] == v ensures s.gScore[v] <= |p| - 1 {
      if s.closed != {} {
        var i := FirstExit(p, s.closed);
        ExitBound(g, s, p, i);
      }
    }
  }

  /** The bound of FrontOptimal along one walk p that leaves the closed set at step i. */
  lemma {:induction false} ExitBound(g: seq<Cell>, s: Search, p: seq<nat>, i: nat)
    requires Inv(g, s) && Sorted(s.queue) && s.queue != []
    requires Walk(g, p) && p[0] == 0 && p[|p| - 1] == s.queue[0].node
    requires 1 <= i < |p| && p[i - 1] in s.closed && p[i] !in s.closed
    ensures s.queue[0].node in s.gScore && s.gScore[s.queue[0].node] <= |p| - 1
  {
    var v, u, w := s.queue[0].node, p[i - 1], p[i];
    PrefixBound(g, s, p, i);
    assert Open(g, u, w);
    assert s.gScore[w] <= i;
    var e := Entry(w, s.gScore[w] + ToGoal(g, w));
    var y :| 0 <= y < |s.queue| && s.queue[y] == e;
    SortedHead(s.queue);
    assert s.queue[0].priority <= s.gScore[w] + ToGoal(g, w);
    assert s.queue[0].priority >= s.gScore[v] + ToGoal(g, v);
    SuffixBound(g, p, i);
    HeuristicTriangle(g[w], g[v], g[|g| - 1]);
  }

  /** A closed cell on a walk from the start is scored no more than its position. */
  lemma {:induction false} PrefixBound(g: seq<Cell>, s: Search, p: seq<nat>, i: nat)
    requires Optimal(g, s) && s.closed <= s.gScore.Keys
    requires Walk(g, p) && p[0] == 0 && 1 <= i <= |p| && p[i - 1] in s.closed
    ensures s.gScore[p[i - 1]] <= i - 1
  {
    WalkSlice(g, p, 0, i);
    assert p[..i][i - 1] == p[i - 1];
  }

  /** The heuristic from the i-th cell of a walk to its last is at most the steps left. */
  lemma {:induction false} SuffixBound(g: seq<Cell>, p: seq<nat>, i: nat)
    requires Walk(g, p) && i < |p|
    ensures Heuristic(g[p[i]], g[p[|p| - 1]]) <= |p| - 1 - i
  {
    WalkSlice(g, p, i, |p|);
    HeuristicAdmissible(g, p[i..]);
    assert p[i..][0] == p[i] && p[i..][|p| - i - 1] == p[|p| - 1];
  }

  /**
   * What the inner loop leaves after the front cell u is dequeued and
   * closed: sound scores and links, scores that only fell, and every open
   * neighbour of u scored at most one more than u.
   */
  lemma {:induction false} TurnFacts(g: seq<Cell>, s: Search, nbrs: seq<nat>, r: Search)
    requires Scored(g, s.queue, s.gScore, s.closed) && Linked(g, s.cameFrom, s.gScore, s.closed)
    requires s.queue != [] && s.queue[0].node in s.gScore
    requires forall x :: 0 <= x < |nbrs| ==> nbrs[x] < |g|
    requires forall m: nat :: m in nbrs <==> Open(g, s.queue[0].node, m)
    requires r.closed == s.closed + {s.queue[0].node}
    requires Fringe(r.queue, r.cameFrom, r.gScore) ==
             Relaxed(g, Fringe(s.queue[1..], s.cameFrom, s.gScore), r.closed, s.queue[0].node, s.gScore[s.queue[0].node] + 1, nbrs)
    ensures Scored(g, r.queue, r.gScore, r.closed) && Linked(g, r.cameFrom, r.gScore, r.closed)
    ensures Grows(s.gScore, r.gScore, r.closed)
    ensures forall w :: w in nbrs && w !in r.closed ==> w in r.gScore && r.gScore[w] <= s.gScore[s.queue[0].node] + 1
  {
    var u := s.queue[0].node;
    DequeueSound(g, s, r.closed);
    RelaxedKeepsAt(g, Fringe(s.queue[1..], s.cameFrom, s.gScore), r.closed, u, s.gScore[u] + 1, nbrs, r.queue, r.cameFrom, r.gScore);
  }

  /** RelaxedKeeps, stated for the parts of the relaxed fringe. */
  lemma {:induction false} RelaxedKeepsAt(g: seq<Cell>, f: Fringe, closed: set<nat>, u: nat, t: nat, nbrs: seq<nat>,
                                          queue: seq<Entry>, cameFrom: map<nat, nat>, gScore: map<nat, nat>)
    requires Scored(g, f.queue, f.gScore, closed) && Linked(g, f.cameFrom, f.gScore, closed)
    requires u in closed && u in f.gScore && t == f.gScore[u] + 1
    requires forall x :: 0 <= x < |nbrs| ==> nbrs[x] < |g|
    requires forall w :: w in nbrs ==> Open(g, u, w)
    requires Fringe(queue, cameFrom, gScore) == Relaxed(g, f, closed, u, t, nbrs)
    ensures Scored(g, queue, gScore, closed) && Linked(g, cameFrom, gScore, closed)
    ensures Grows(f.gScore, gScore, closed)
    ensures forall w :: w in nbrs && w !in closed ==> w in gScore && gScore[w] <= t
  {
    RelaxedKeeps(g, f, closed, u, t, nbrs);
  }

  /** A turn that closes a new cell keeps the invariant and closes one more cell. */
  lemma {:induction false} TurnFirst(g: seq<Cell>, s: Search, nbrs: seq<nat>, r: Search)
    requires Inv(g, s) && Sorted(s.queue) && s.queue != []
    requires s.queue[0].node !in s.closed && s.queue[0].node != |g| - 1
    requires forall m: nat :: m in nbrs <==> Open(g, s.queue[0].node, m)
    requires s.queue[0].node in s.gScore && r.closed == s.closed + {s.queue[0].node}
    requires Scored(g, r.queue, r.gScore, r.closed) && Linked(g, r.cameFrom, r.gScore, r.closed)
    requires Grows(s.gScore, r.gScore, r.closed)
    requires forall w :: w in nbrs && w !in r.closed ==> w in r.gScore && r.gScore[w] <= s.gScore[s.queue[0].node] + 1
    ensures Inv(g, r)
    ensures Unclosed(g, r.closed) < Unclosed(g, s.closed)
  {
    var u := s.queue[0].node;
    FrontOptimal(g, s);
    TurnStart(g, s, r);
    TurnSettled(g, s, r, nbrs);
    TurnOptimal(g, s, r);
    assert u in Unclosed(g, s.closed);
  }

  /** Closing the front cell, which is not the goal, keeps the start scored 0 and first closed. */
  lemma {:induction false} TurnStart(g: seq<Cell>, s: Search, r: Search)
    requires Start(g, s) && s.queue != [] && s.queue[0].node in s.gScore && s.queue[0].node != |g| - 1
    requires r.closed == s.closed + {s.queue[0].node}
    requires Grows(s.gScore, r.gScore, r.closed)
    ensures Start(g, r)
  {
    if s.closed == {} {
      assert s.queue[0].node == 0;
    }
  }

  /** Removing the front entry, once its cell is closed, keeps the scores and links sound. */
  lemma {:induction false} DequeueSound(g: seq<Cell>, s: Search, closed: set<nat>)
    requires Scored(g, s.queue, s.gScore, s.closed) && Linked(g, s.cameFrom, s.gScore, s.closed)
    requires s.queue != [] && closed == s.closed + {s.queue[0].node}
    ensures Scored(g, s.queue[1..], s.gScore, closed) && Linked(g, s.cameFrom, s.gScore, closed)
  {
    forall w | w in s.gScore && w !in closed ensures Entry(w, s.gScore[w] + ToGoal(g, w)) in s.queue[1..] {
      var y :| 0 <= y < |s.queue| && s.queue[y] == Entry(w, s.gScore[w] + ToGoal(g, w));
      assert y != 0;
      assert s.queue[1..][y - 1] == s.queue[y];
    }
  }

  /** After closing u, every open wall out of a closed cell still leads to a closed cell or one scored at most one more. */
  lemma {:induction false} TurnSettled(g: seq<Cell>, s: Search, r: Search, nbrs: seq<nat>)
    requires Settled(g, s) && s.closed <= s.gScore.Keys && s.queue != [] && s.queue[0].node in s.gScore
    requires r.closed == s.closed + {s.queue[0].node}
    requires Grows(s.gScore, r.gScore, r.closed)
    requires forall m: nat :: m in nbrs <==> Open(g, s.queue[0].node, m)
    requires forall w :: w in nbrs && w !in r.closed ==>
               w in r.gScore && r.gScore[w] <= s.gScore[s.queue[0].node] + 1
    ensures Settled(g, r)
  {
    var u := s.queue[0].node;
    forall c, w | c in r.closed && c in r.gScore && Open(g, c, w) && w !in r.closed
      ensures w in r.gScore && r.gScore[w] <= r.gScore[c] + 1
    {
      if c == u {
        assert w in nbrs;
      } else {
        assert w in s.gScore && s.gScore[w] <= s.gScore[c] + 1;
      }
    }
  }

  /** After closing the front cell, every closed cell's score is still no more than any walk to it. */
  lemma {:induction false} TurnOptimal(g: seq<Cell>, s: Search, r: Search)
    requires Optimal(g, s) && s.closed <= s.gScore.Keys && s.queue != [] && s.queue[0].node in s.gScore
    requires forall p :: Walk(g, p) && p[0] == 0 && p[|p| - 1] == s.queue[0].node ==> s.gScore[s.queue[0].node] <= |p| - 1
    requires r.closed == s.closed + {s.queue[0].node}
    requires Grows(s.gScore, r.gScore, r.closed)
    ensures Optimal(g, r)
  {
  }

  /** A turn that dequeues a cell closed before changes nothing but the open list, which loses its front. */
  lemma {:induction false} TurnAgain(g: seq<Cell>, s: Search, nbrs: seq<nat>, r: Search)
    requires s.queue != [] && s.queue[0].node in s.closed && s.queue[0].node in s.gScore
    requires forall x :: 0 <= x < |nbrs| ==> nbrs[x] < |g|
    requires forall w :: w in nbrs && w !in s.closed ==>
               HasNode(s.queue[1..], w) && w in s.gScore && s.gScore[w] <= s.gScore[s.queue[0].node] + 1
    requires r.closed == s.closed
    requires Fringe(r.queue, r.cameFrom, r.gScore) ==
             Relaxed(g, Fringe(s.queue[1..], s.cameFrom, s.gScore), r.closed, s.queue[0].node, s.gScore[s.queue[0].node] + 1, nbrs)
    ensures Fringe(r.queue, r.cameFrom, r.gScore) == Fringe(s.queue[1..], s.cameFrom, s.gScore)
  {
    RelaxedIdle(g, Fringe(s.queue[1..], s.cameFrom, s.gScore), r.closed, s.queue[0].node, s.gScore[s.queue[0].node] + 1, nbrs);
  }

  /** Every open neighbour of a closed cell that is not closed itself is still queued behind the front, scored at most one more. */
  lemma {:induction false} AgainQueued(g: seq<Cell>, s: Search, nbrs: seq<nat>)
    requires Listed(g, s.queue, s.gScore, s.closed) && Settled(g, s) && s.closed <= s.gScore.Keys
    requires s.queue != [] && s.queue[0].node in s.closed
    requires forall m: nat :: m in nbrs <==> Open(g, s.queue[0].node, m)
    ensures s.queue[0].node in s.gScore
    ensures forall w :: w in nbrs && w !in s.closed ==>
              HasNode(s.queue[1..], w) && w in s.gScore && s.gScore[w] <= s.gScore[s.queue[0].node] + 1
  {
    var u := s.queue[0].node;
    forall w | w in nbrs && w !in s.closed
      ensures HasNode(s.queue[1..], w) && w in s.gScore && s.gScore[w] <= s.gScore[u] + 1
    {
      assert Open(g, u, w);
      var y :| 0 <= y < |s.queue| && s.queue[y] == Entry(w, s.gScore[w] + ToGoal(g, w));
      assert y != 0;
      assert s.queue[1..][y - 1] == s.queue[y];
    }
  }

  /** Dropping the front entry of a cell closed before keeps the invariant. */
  lemma {:induction false} AgainKeeps(g: seq<Cell>, s: Search, r: Search)
    requires Inv(g, s) && s.queue != [] && s.queue[0].node in s.closed
    requires Fringe(r.queue, r.cameFrom, r.gScore) == Fringe(s.queue[1..], s.cameFrom, s.gScore) && r.closed == s.closed
    ensures Inv(g, r)
  {
    DequeueSound(g, s, s.closed);
  }

  /** A turn keeps the invariant and makes progress. */
  lemma {:induction false} TurnKeeps(g: seq<Cell>, s: Search, nbrs: seq<nat>, r: Search)
    requires Inv(g, s) && Sorted(s.queue) && s.queue != [] && s.queue[0].node != |g| - 1
    requires forall x :: 0 <= x < |nbrs| ==> nbrs[x] < |g|
    requires forall m: nat :: m in nbrs <==> Open(g, s.queue[0].node, m)
    requires s.queue[0].node in s.gScore && r.closed == s.closed + {s.queue[0].node}
    requires Fringe(r.queue, r.cameFrom, r.gScore) ==
             Relaxed(g, Fringe(s.queue[1..], s.cameFrom, s.gScore), r.closed, s.queue[0].node, s.gScore[s.queue[0].node] + 1, nbrs)
    ensures Inv(g, r)
    ensures Unclosed(g, r.closed) < Unclosed(g, s.closed) ||
            (Unclosed(g, r.closed) == Unclosed(g, s.closed) && |r.queue| < |s.queue|)
  {
    if s.queue[0].node in s.closed {
      Again(g, s, nbrs, r);
    } else {
      TurnFacts(g, s, nbrs, r);
      TurnFirst(g, s, nbrs, r);
    }
  }

  /** A turn that dequeues a cell closed before keeps the invariant, closes nothing new and shortens the open list. */
  lemma {:induction false} Again(g: seq<Cell>, s: Search, nbrs: seq<nat>, r: Search)
    requires Inv(g, s) && s.queue != [] && s.queue[0].node in s.closed
    requires forall x :: 0 <= x < |nbrs| ==> nbrs[x] < |g|
    requires forall m: nat :: m in nbrs <==> Open(g, s.queue[0].node, m)
    requires s.queue[0].node in s.gScore && r.closed == s.closed + {s.queue[0].node}
    requires Fringe(r.queue, r.cameFrom, r.gScore) ==
             Relaxed(g, Fringe(s.queue[1..], s.cameFrom, s.gScore), r.closed, s.queue[0].node, s.gScore[s.queue[0].node] + 1, nbrs)
    ensures Inv(g, r)
    ensures Unclosed(g, r.closed) == Unclosed(g, s.closed) && |r.queue| < |s.queue|
  {
    AgainIdle(g, s, nbrs, r);
    AgainKeeps(g, s, r);
  }

  /** Relaxing around a cell closed before changes nothing. */
  lemma {:induction false} AgainIdle(g: seq<Cell>, s: Search, nbrs: seq<nat>, r: Search)
    requires Listed(g, s.queue, s.gScore, s.closed) && Settled(g, s) && s.closed <= s.gScore.Keys
    requires s.queue != [] && s.queue[0].node in s.closed
    requires forall x :: 0 <= x < |nbrs| ==> nbrs[x] < |g|
    requires forall m: nat :: m in nbrs <==> Open(g, s.queue[0].node, m)
    requires s.queue[0].node in s.gScore && r.closed == s.closed + {s.queue[0].node}
    requires Fringe(r.queue, r.cameFrom, r.gScore) ==
             Relaxed(g, Fringe(s.queue[1..], s.cameFrom, s.gScore), r.closed, s.queue[0].node, s.gScore[s.queue[0].node] + 1, nbrs)
    ensures Fringe(r.queue, r.cameFrom, r.gScore) == Fringe(s.queue[1..], s.cameFrom, s.gScore) && r.closed == s.closed
  {
    AgainQueued(g, s, nbrs);
    assert r.closed == s.closed;
    TurnAgain(g, s, nbrs, r);
  }

  /** The front of the open list is a scored cell of the grid. */
  lemma {:induction false} Front(g: seq<Cell>, s: Search)
    requires Inv(g, s) && s.queue != []
    ensures s.queue[0].node in s.gScore && s.queue[0].node < |g|
  {
  }

  /**
   * When the goal is dequeued, the scores rank its `cameFrom` chain, whose
   * links are open, and its score is no more than any walk to it.
   */
  lemma {:induction false} Found(g: seq<Cell>, s: Search)
    requires Inv(g, s) && Sorted(s.queue) && s.queue != [] && s.queue[0].node == |g| - 1
    ensures ParentChain(s.cameFrom, GoalRank(g, s), 0) && |g| - 1 in GoalRank(g, s)
    ensures OpenLinks(g, s.cameFrom, GoalRank(g, s), 0)
    ensures forall p :: Walk(g, p) && p[0] == 0 && p[|p| - 1] == |g| - 1 ==> GoalRank(g, s)[|g| - 1] + 1 <= |p|
  {
    FrontOptimal(g, s);
  }

  /** With the open list empty, the closed cells are closed under moves: the goal is out of reach. */
  lemma {:induction false} Exhausted(g: seq<Cell>, s: Search)
    requires Inv(g, s) && s.queue == []
    ensures !Reachable(g, 0, |g| - 1)
  {
    assert Closed(g, s.closed);
    Unreachable(g, s.closed, 0, |g| - 1);
  }
}
