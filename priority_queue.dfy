/**
 * PriorityQueue (algorithms.js): a list of (node, priority) entries kept in
 * non-decreasing priority. enqueue appends and re-sorts with a stable sort,
 * which on an already sorted list moves the new entry in front of exactly
 * the entries of larger priority; dequeue takes the first entry.
 */
module Queues {
  datatype Entry = Entry(node: nat, priority: int)

  /** Priorities never decrease along the list. */
  ghost predicate Sorted(s: seq<Entry>)
  {
    forall x :: 0 <= x < |s| - 1 ==> s[x].priority <= s[x + 1].priority
  }

  /** The first entry of a sorted list has the least priority. */
  lemma {:induction false} SortedHead(s: seq<Entry>)
    requires Sorted(s) && s != []
    ensures forall x :: 0 <= x < |s| ==> s[0].priority <= s[x].priority
    decreases |s|
  {
    if |s| > 1 {
      var t := s[..|s| - 1];
      assert forall x :: 0 <= x < |t| ==> t[x] == s[x];
      SortedHead(t);
      assert s[0].priority <= s[|s| - 2].priority <= s[|s| - 1].priority;
    }
  }

  /**
   * The list a stable sort makes of sorted s with e appended: e goes
   * after every entry of priority at most its own and before the others.
   */
  function Insert(s: seq<Entry>, e: Entry): (r: seq<Entry>)
    ensures |r| == |s| + 1
  {
    if s == [] then [e]
    else if s[|s| - 1].priority <= e.priority then s + [e]
    else Insert(s[..|s| - 1], e) + [s[|s| - 1]]
  }

  /** Where Insert puts e: after the entries of priority at most e's, before the larger ones. */
  lemma {:induction false} InsertSplit(s: seq<Entry>, e: Entry, k: nat)
    requires k <= |s|
    requires forall x :: 0 <= x < k ==> s[x].priority <= e.priority
    requires forall x :: k <= x < |s| ==> s[x].priority > e.priority
    ensures Insert(s, e) == s[..k] + [e] + s[k..]
    decreases |s|
  {
    if s == [] {
    } else if k == |s| {
      assert s[..k] == s && s[k..] == [];
    } else {
      var t := s[..|s| - 1];
      InsertSplit(t, e, k);
      assert t[..k] == s[..k] && t[k..] + [s[|s| - 1]] == s[k..];
    }
  }

  /** Insert keeps a sorted list sorted. */
  lemma {:induction false} InsertSorted(s: seq<Entry>, e: Entry)
    requires Sorted(s)
    ensures Sorted(Insert(s, e))
    decreases |s|
  {
    if s != [] && s[|s| - 1].priority > e.priority {
      var t := s[..|s| - 1];
      assert Sorted(t) by {
        forall x | 0 <= x < |t| - 1 ensures t[x].priority <= t[x + 1].priority {
          assert t[x] == s[x] && t[x + 1] == s[x + 1];
        }
      }
      InsertSorted(t, e);
      var r := Insert(t, e);
      assert r[|r| - 1].priority <= s[|s| - 1].priority by {
        if |t| > 0 && t[|t| - 1].priority > e.priority {
          assert r[|r| - 1] == t[|t| - 1];
        } else {
          assert r[|r| - 1] == e;
        }
      }
    }
  }

  /** Insert adds e and loses nothing. */
  lemma {:induction false} InsertPermutation(s: seq<Entry>, e: Entry)
    ensures multiset(Insert(s, e)) == multiset(s) + multiset{e}
    decreases |s|
  {
    if s != [] && s[|s| - 1].priority > e.priority {
      var t := s[..|s| - 1];
      InsertPermutation(t, e);
      assert s == t + [s[|s| - 1]];
    }
  }

  /** The entries of Insert(s, e) are those of s and e. */
  lemma InsertMembers(s: seq<Entry>, e: Entry)
    ensures forall f :: f in Insert(s, e) <==> f in s || f == e
  {
    InsertPermutation(s, e);
    forall f ensures f in Insert(s, e) <==> f in s || f == e {
      assert f in Insert(s, e) <==> f in multiset(Insert(s, e));
      assert f in s <==> f in multiset(s);
    }
  }

  /** Swapping e with the entry before it moves it one place left among the entries of s. */
  lemma SwapBack(s: seq<Entry>, e: Entry, i: nat, before: seq<Entry>)
    requires 0 < i <= |s| && before == s[..i] + [e] + s[i..]
    ensures before[i - 1] == s[i - 1]
    ensures before[i - 1 := e][i := before[i - 1]] == s[..i - 1] + [e] + s[i - 1..]
  {
    assert s[i - 1..] == [s[i - 1]] + s[i..];
    assert s[..i] == s[..i - 1] + [s[i - 1]];
  }

  /** In a sorted list, when the entry before position i has priority at most e's, so do all entries before i. */
  lemma AtMostBefore(s: seq<Entry>, e: Entry, i: nat)
    requires Sorted(s) && i <= |s|
    requires i > 0 ==> s[i - 1].priority <= e.priority
    ensures forall x :: 0 <= x < i ==> s[x].priority <= e.priority
  {
    forall x | 0 <= x < i ensures s[x].priority <= e.priority {
      SortedHead(s[x..i]);
      assert s[x..i][i - 1 - x] == s[i - 1];
    }
  }

  class PriorityQueue {
    var elements: seq<Entry>

    ghost predicate Valid()
      reads this
    {
      Sorted(elements)
    }

    constructor ()
      ensures Valid() && elements == []
    {
      elements := [];
    }

    /**
     * enqueue: append the entry, then sort stably by priority; on a sorted
     * list that sort moves the new entry left past each larger-priority
     * entry and stops at the first one of priority at most its own.
     */
    method Enqueue(node: nat, priority: int)
      requires Valid()
      modifies this
      ensures Valid()
      ensures elements == Insert(old(elements), Entry(node, priority))
    {
      ghost var s := elements;
      var e := Entry(node, priority);
      elements := elements + [e];
      var i := |elements| - 1;
      while i > 0 && elements[i - 1].priority > priority
        invariant 0 <= i <= |s|
        invariant elements == s[..i] + [e] + s[i..]
        invariant forall x :: i <= x < |s| ==> s[x].priority > priority
      {
        SwapBack(s, e, i, elements);
        elements := elements[i - 1 := e][i := elements[i - 1]];
        i := i - 1;
      }
      assert i > 0 ==> elements[i - 1] == s[i - 1];
      AtMostBefore(s, e, i);
      InsertSplit(s, e, i);
      InsertSorted(s, e);
    }

    /** dequeue: remove and return the node of the first entry, one of least priority. */
    method Dequeue() returns (node: nat)
      requires Valid() && elements != []
      modifies this
      ensures Valid()
      ensures node == old(elements)[0].node && elements == old(elements)[1..]
      ensures forall x :: 0 <= x < |old(elements)| ==> old(elements)[0].priority <= old(elements)[x].priority
    {
      SortedHead(elements);
      node := elements[0].node;
      elements := elements[1..];
    }

    function IsEmpty(): (empty: bool)
      reads this
      ensures empty <==> |elements| == 0
    {
      elements == []
    }
  }

  /** The nodes that have an entry in s. */
  ghost function Nodes(s: seq<Entry>): set<nat>
  {
    set x | 0 <= x < |s| :: s[x].node
  }

  /** Insert adds the new entry's node to the nodes of the list and no other. */
  lemma NodesInsert(s: seq<Entry>, e: Entry)
    ensures Nodes(Insert(s, e)) == Nodes(s) + {e.node}
  {
    var r := Insert(s, e);
    InsertPermutation(s, e);
    forall w | w in Nodes(r) ensures w in Nodes(s) + {e.node} {
      var x :| 0 <= x < |r| && r[x].node == w;
      assert r[x] in multiset(r);
      if r[x] != e {
        assert r[x] in multiset(s);
        var y :| 0 <= y < |s| && s[y] == r[x];
      }
    }
    forall w | w in Nodes(s) + {e.node} ensures w in Nodes(r) {
      var f := if w == e.node then e else var y :| 0 <= y < |s| && s[y].node == w; s[y];
      assert f in multiset(r);
      var x :| 0 <= x < |r| && r[x] == f;
    }
  }

  /** The nodes of a list are its first entry's node and the nodes of the rest. */
  lemma NodesTail(s: seq<Entry>)
    requires s != []
    ensures Nodes(s) == {s[0].node} + Nodes(s[1..])
  {
    forall w | w in Nodes(s) ensures w in {s[0].node} + Nodes(s[1..]) {
      var x :| 0 <= x < |s| && s[x].node == w;
      if x > 0 {
        assert s[1..][x - 1] == s[x];
      }
    }
  }

  /** Some entry of s holds the node: what `elements.some(e => e.node === node)` tests. */
  function HasNode(s: seq<Entry>, node: nat): (b: bool)
    ensures b <==> exists x :: 0 <= x < |s| && s[x].node == node
  {
    if s == [] then false
    else if s[0].node == node then true
    else
      assert forall x :: 0 < x < |s| ==> s[x] == s[1..][x - 1];
      HasNode(s[1..], node)
  }
}
