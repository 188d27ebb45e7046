/** Directed graphs given by adjacency lists, paths and reachability. */
module Digraph {
  import opened Locks

  type Adj = map<LockId, seq<LockId>>

  /** The neighbours of a node; a node without an entry has none. */
  function Neigh(adj: Adj, v: LockId): seq<LockId> {
    if v in adj then adj[v] else []
  }

  predicate Edge(adj: Adj, u: LockId, v: LockId) {
    v in Neigh(adj, u)
  }

  /** All nodes of the graph: those with an entry and their neighbours. */
  ghost function Nodes(adj: Adj): set<LockId> {
    adj.Keys + set u, v | u in adj.Keys && v in adj[u] :: v
  }

  lemma NeighInNodes(adj: Adj, u: LockId, v: LockId)
    requires v in Neigh(adj, u)
    ensures u in Nodes(adj) && v in Nodes(adj)
  {
  }

  ghost predicate IsPath(adj: Adj, p: seq<LockId>) {
    |p| > 0 && forall i | 0 <= i < |p| - 1 :: Edge(adj, p[i], p[i + 1])
  }

  ghost predicate Joins(adj: Adj, p: seq<LockId>, u: LockId, v: LockId) {
    IsPath(adj, p) && p[0] == u && p[|p| - 1] == v
  }

  ghost predicate Reach(adj: Adj, u: LockId, v: LockId) {
    exists p :: Joins(adj, p, u, v)
  }

  ghost predicate Mutual(adj: Adj, u: LockId, v: LockId) {
    Reach(adj, u, v) && Reach(adj, v, u)
  }

  /** No edge leaves the set. */
  ghost predicate Closed(adj: Adj, s: set<LockId>) {
    forall u, v | u in s && v in Neigh(adj, u) :: v in s
  }

  lemma ReachRefl(adj: Adj, u: LockId)
    ensures Reach(adj, u, u)
  {
    assert Joins(adj, [u], u, u);
  }

  lemma ReachEdge(adj: Adj, u: LockId, v: LockId)
    requires Edge(adj, u, v)
    ensures Reach(adj, u, v)
  {
    assert Joins(adj, [u, v], u, v);
  }

  lemma ReachTrans(adj: Adj, u: LockId, v: LockId, w: LockId)
    requires Reach(adj, u, v) && Reach(adj, v, w)
    ensures Reach(adj, u, w)
  {
    var p :| Joins(adj, p, u, v);
    var q :| Joins(adj, q, v, w);
    var r := p + q[1..];
    forall i | 0 <= i < |r| - 1 ensures Edge(adj, r[i], r[i + 1]) {
      if i < |p| - 1 {
        assert Edge(adj, p[i], p[i + 1]);
      } else {
        assert Edge(adj, q[i - |p| + 1], q[i - |p| + 2]);
      }
    }
    assert Joins(adj, r, u, w);
  }

  /** A path that starts in a closed set stays in it. */
  lemma ClosedPath(adj: Adj, s: set<LockId>, p: seq<LockId>, i: nat)
    requires Closed(adj, s) && IsPath(adj, p) && p[0] in s && i < |p|
    ensures p[i] in s
  {
    if i > 0 {
      ClosedPath(adj, s, p, i - 1);
      assert Edge(adj, p[i - 1], p[i]);
    }
  }

  lemma ClosedReach(adj: Adj, s: set<LockId>, u: LockId, v: LockId)
    requires Closed(adj, s) && u in s && Reach(adj, u, v)
    ensures v in s
  {
    var p :| Joins(adj, p, u, v);
    ClosedPath(adj, s, p, |p| - 1);
  }
}
