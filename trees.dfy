/**
 * Parent maps with ranks. Both the generator's carving tree and the
 * searches' `cameFrom` maps are parent maps in which every non-root key
 * points at a cell one rank closer to the root; following the parents from
 * any ranked cell therefore ends at the root.
 */
module Trees {
  /** Every ranked cell other than the root has a parent, ranked exactly one less. */
  ghost predicate ParentChain(parent: map<nat, nat>, rank: map<nat, nat>, root: nat)
  {
    && root in rank && rank[root] == 0
    && (forall v :: v in rank && v != root ==> v in parent)
    && (forall v {:trigger parent[v]} :: v in parent && v in rank && v != root ==>
          parent[v] in rank && rank[parent[v]] + 1 == rank[v])
  }

  /** The root is the only cell of rank 0. */
  lemma RankZeroIsRoot(parent: map<nat, nat>, rank: map<nat, nat>, root: nat, v: nat)
    requires ParentChain(parent, rank, root) && v in rank && rank[v] == 0
    ensures v == root
  {
  }

  /** Hanging a new cell v under a ranked cell u keeps the chain property. */
  lemma AddLeaf(parent: map<nat, nat>, rank: map<nat, nat>, root: nat, u: nat, v: nat)
    requires ParentChain(parent, rank, root) && u in rank && v !in rank
    ensures ParentChain(parent[v := u], rank[v := rank[u] + 1], root)
  {
    var p, r := parent[v := u], rank[v := rank[u] + 1];
    forall w | w in p && w in r && w != root ensures p[w] in r && r[p[w]] + 1 == r[w] {
      if w != v {
        assert p[w] == parent[w] && p[w] in rank;
      }
    }
  }

  /** The cells met when following parents from v back to the root, root first. */
  ghost function ChainPath(parent: map<nat, nat>, rank: map<nat, nat>, root: nat, v: nat): (p: seq<nat>)
    requires ParentChain(parent, rank, root) && v in rank
    ensures |p| == rank[v] + 1 && p[0] == root && p[|p| - 1] == v
    ensures forall x :: 0 <= x < |p| ==> p[x] in rank && rank[p[x]] == x
    ensures forall x :: 0 < x < |p| ==> p[x] in parent && parent[p[x]] == p[x - 1]
    decreases rank[v]
  {
    if v == root then [v] else ChainPath(parent, rank, root, parent[v]) + [v]
  }
}
