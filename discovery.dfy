/**
 * The neighbour scans of algorithms.js. BFS and DFS push every neighbour
 * not yet in `visited` onto the pending list, mark it visited and give it
 * the expanded cell as its `cameFrom` entry; GBFS and randomWalk filter the
 * neighbours down to those not yet visited.
 */
module Discovery {
  /** The neighbours a scan over nbrs pushes: those not in seen, each at its first occurrence. */
  function Fresh(nbrs: seq<nat>, seen: set<nat>): (r: seq<nat>)
    ensures |r| <= |nbrs|
    decreases |nbrs|
  {
    if nbrs == [] then []
    else
      var init := nbrs[..|nbrs| - 1];
      var w := nbrs[|nbrs| - 1];
      Fresh(init, seen) + (if w in seen || w in init then [] else [w])
  }

  /** A scan pushes exactly the neighbours not yet seen. */
  lemma {:induction false} FreshMembers(nbrs: seq<nat>, seen: set<nat>)
    ensures forall w :: w in Fresh(nbrs, seen) <==> w in nbrs && w !in seen
    decreases |nbrs|
  {
    if nbrs != [] {
      var init := nbrs[..|nbrs| - 1];
      FreshMembers(init, seen);
      assert forall v :: v in nbrs <==> v in init || v == nbrs[|nbrs| - 1] by {
        assert nbrs == init + [nbrs[|nbrs| - 1]];
      }
    }
  }

  /** A scan over neighbours that are all seen pushes nothing. */
  lemma {:induction false} NothingFresh(nbrs: seq<nat>, seen: set<nat>)
    requires forall w :: w in nbrs ==> w in seen
    ensures Fresh(nbrs, seen) == []
    decreases |nbrs|
  {
    if nbrs != [] {
      var init := nbrs[..|nbrs| - 1];
      assert forall w :: w in init ==> w in nbrs;
      NothingFresh(init, seen);
      assert nbrs[|nbrs| - 1] in nbrs;
    }
  }

  /** A scan pushes no neighbour twice. */
  lemma {:induction false} FreshDistinct(nbrs: seq<nat>, seen: set<nat>)
    ensures forall x, y :: 0 <= x < y < |Fresh(nbrs, seen)| ==> Fresh(nbrs, seen)[x] != Fresh(nbrs, seen)[y]
    decreases |nbrs|
  {
    if nbrs != [] {
      FreshDistinct(nbrs[..|nbrs| - 1], seen);
      FreshMembers(nbrs[..|nbrs| - 1], seen);
    }
  }

  /**
   * The inner loop of BFS and DFS: push each neighbour not yet visited,
   * mark it visited and record `current` as the cell it came from.
   */
  method PushUnvisited(nbrs: seq<nat>, current: nat, pending: seq<nat>, visited: set<nat>, cameFrom: map<nat, nat>)
      returns (pending': seq<nat>, visited': set<nat>, cameFrom': map<nat, nat>)
    ensures pending' == pending + Fresh(nbrs, visited)
    ensures visited' == visited + set w | w in nbrs
    ensures cameFrom' == Link(cameFrom, Fresh(nbrs, visited), current)
  {
    pending', visited', cameFrom' := pending, visited, cameFrom;
    ghost var pushed: seq<nat> := [];
    for i := 0 to |nbrs|
      invariant pushed == Fresh(nbrs[..i], visited)
      invariant pending' == pending + pushed
      invariant forall w :: w in visited' <==> w in visited || w in nbrs[..i]
      invariant cameFrom' == Link(cameFrom, pushed, current)
    {
      var neighbor := nbrs[i];
      FreshSnoc(nbrs, visited, i);
      SeenSnoc(nbrs, visited, i, visited');
      if neighbor !in visited' {
        LinkSnoc(cameFrom, pushed, neighbor, current);
        pending' := pending' + [neighbor];
        visited' := visited' + {neighbor};
        cameFrom' := cameFrom'[neighbor := current];
        pushed := pushed + [neighbor];
      }
    }
    assert nbrs[..|nbrs|] == nbrs;
  }

  /** After scanning nbrs[i], the cells seen are those seen before the scan and the neighbours up to nbrs[i]. */
  lemma SeenSnoc(nbrs: seq<nat>, visited: set<nat>, i: nat, seen: set<nat>)
    requires i < |nbrs|
    requires forall w :: w in seen <==> w in visited || w in nbrs[..i]
    ensures nbrs[i] in seen <==> nbrs[i] in visited || nbrs[i] in nbrs[..i]
    ensures nbrs[i] in seen ==> forall w :: w in seen <==> w in visited || w in nbrs[..i + 1]
    ensures forall w :: w in seen + {nbrs[i]} <==> w in visited || w in nbrs[..i + 1]
  {
    assert nbrs[..i + 1] == nbrs[..i] + [nbrs[i]];
  }

  /** Scanning one more neighbour pushes it exactly when it is neither seen nor met before. */
  lemma FreshSnoc(nbrs: seq<nat>, seen: set<nat>, i: nat)
    requires i < |nbrs|
    ensures nbrs[i] in seen || nbrs[i] in nbrs[..i] ==> Fresh(nbrs[..i + 1], seen) == Fresh(nbrs[..i], seen)
    ensures nbrs[i] !in seen && nbrs[i] !in nbrs[..i] ==> Fresh(nbrs[..i + 1], seen) == Fresh(nbrs[..i], seen) + [nbrs[i]]
  {
    assert nbrs[..i + 1][..i] == nbrs[..i];
  }

  /** cameFrom after each cell of f has been given u as the cell it came from. */
  function Link(cameFrom: map<nat, nat>, f: seq<nat>, u: nat): (r: map<nat, nat>)
    ensures cameFrom.Keys <= r.Keys
    decreases |f|
  {
    if f == [] then cameFrom
    else Link(cameFrom, f[..|f| - 1], u)[f[|f| - 1] := u]
  }

  /** Link gives u to exactly the cells of f and keeps every other entry. */
  lemma {:induction false} LinkFacts(cameFrom: map<nat, nat>, f: seq<nat>, u: nat)
    ensures forall v :: v in Link(cameFrom, f, u) <==> v in cameFrom || v in f
    ensures forall v :: v in Link(cameFrom, f, u) ==> Link(cameFrom, f, u)[v] == if v in f then u else cameFrom[v]
    decreases |f|
  {
    if f != [] {
      var init := f[..|f| - 1];
      LinkFacts(cameFrom, init, u);
      assert forall v :: v in f <==> v in init || v == f[|f| - 1] by {
        assert f == init + [f[|f| - 1]];
      }
    }
  }

  lemma LinkSnoc(cameFrom: map<nat, nat>, f: seq<nat>, w: nat, u: nat)
    ensures Link(cameFrom, f + [w], u) == Link(cameFrom, f, u)[w := u]
  {
    assert (f + [w])[..|f|] == f;
  }

  /** The neighbours not yet visited, in scan order (the `filter` of GBFS's inner loop and of randomWalk). */
  function Unvisited(nbrs: seq<nat>, visited: set<nat>): (r: seq<nat>)
    ensures forall x :: 0 <= x < |r| ==> r[x] in nbrs
    decreases |nbrs|
  {
    if nbrs == [] then []
    else
      var init := nbrs[..|nbrs| - 1];
      var w := nbrs[|nbrs| - 1];
      Unvisited(init, visited) + (if w in visited then [] else [w])
  }

  /** The filter keeps exactly the neighbours not yet visited. */
  lemma {:induction false} UnvisitedMembers(nbrs: seq<nat>, visited: set<nat>)
    ensures forall w :: w in Unvisited(nbrs, visited) <==> w in nbrs && w !in visited
    decreases |nbrs|
  {
    if nbrs != [] {
      var init := nbrs[..|nbrs| - 1];
      UnvisitedMembers(init, visited);
      assert nbrs == init + [nbrs[|nbrs| - 1]];
    }
  }

  /** Scanning one more neighbour keeps it exactly when it is not visited. */
  lemma UnvisitedSnoc(nbrs: seq<nat>, visited: set<nat>, i: nat)
    requires i < |nbrs|
    ensures Unvisited(nbrs[..i + 1], visited) ==
            Unvisited(nbrs[..i], visited) + (if nbrs[i] in visited then [] else [nbrs[i]])
  {
    assert nbrs[..i + 1][..i] == nbrs[..i];
  }
}
