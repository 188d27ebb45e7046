/** Simple cycles of a graph, and the depth-first enumeration of them as a
    recursive function. The cycle finder runs the enumeration on a stack. */
module SimpleCycles {
  import opened Locks
  import opened Digraph

  /** A path without repetition inside `s`. */
  ghost predicate IsTrail(adj: Adj, s: set<LockId>, p: seq<LockId>) {
    IsPath(adj, p) && Distinct(p) && forall i | 0 <= i < |p| :: p[i] in s
  }

  /** A simple cycle of at least two nodes inside `s`, written from one of its
      nodes on. A cycle of length k is written in k ways. */
  ghost predicate IsRooted(adj: Adj, s: set<LockId>, c: seq<LockId>) {
    |c| >= 2 && IsTrail(adj, s, c) && Edge(adj, c[|c| - 1], c[0])
  }

  function Last(p: seq<LockId>): LockId
    requires p != []
  {
    p[|p| - 1]
  }

  ghost function Unused(s: set<LockId>, p: seq<LockId>): set<LockId> {
    set x | x in s && x !in p
  }

  /** The cycles found from `path` on, looking at the neighbours of its last node
      from position `next` on. */
  ghost function Emit(adj: Adj, s: set<LockId>, path: seq<LockId>, next: nat): seq<seq<LockId>>
    requires path != []
    decreases Unused(s, path), |Neigh(adj, Last(path))| - next
  {
    var neigh := Neigh(adj, Last(path));
    if next >= |neigh| then []
    else
      var v := neigh[next];
      var rest := Emit(adj, s, path, next + 1);
      if v !in s then rest
      else if v == path[0] && |path| >= 2 then [path] + rest
      else if v !in path then
        Longer(s, path, v);
        Emit(adj, s, path + [v], 0) + rest
      else rest
  }

  lemma Longer(s: set<LockId>, path: seq<LockId>, v: LockId)
    requires v in s && v !in path
    ensures Unused(s, path + [v]) < Unused(s, path)
  {
    assert v in Unused(s, path) && v !in Unused(s, path + [v]);
  }

  lemma TrailExtends(adj: Adj, s: set<LockId>, path: seq<LockId>, v: LockId)
    requires IsTrail(adj, s, path) && v in s && v !in path && v in Neigh(adj, Last(path))
    ensures IsTrail(adj, s, path + [v])
  {
    var q := path + [v];
    forall i | 0 <= i < |q| - 1 ensures Edge(adj, q[i], q[i + 1]) {
      if i < |path| - 1 { assert Edge(adj, path[i], path[i + 1]); }
    }
  }

  /** The node a cycle that begins with `path` goes to from the end of `path`. */
  ghost function Onward(path: seq<LockId>, c: seq<LockId>): LockId
    requires path != [] && |c| >= |path|
  {
    if |c| == |path| then path[0] else c[|path|]
  }

  /** The cycles that begin with `path` and go on by a neighbour at `next` or later. */
  ghost predicate Begins(adj: Adj, s: set<LockId>, path: seq<LockId>, next: nat, c: seq<LockId>)
    requires path != []
  {
    && IsRooted(adj, s, c) && path <= c
    && Onward(path, c) in
           Neigh(adj, Last(path))[if next <= |Neigh(adj, Last(path))| then next else |Neigh(adj, Last(path))|..]
  }

  /** The enumeration finds exactly those cycles. */
  lemma {:induction false} EmitExact(adj: Adj, s: set<LockId>, path: seq<LockId>, next: nat, c: seq<LockId>)
    requires IsTrail(adj, s, path)
    ensures c in Emit(adj, s, path, next) <==> Begins(adj, s, path, next, c)
    decreases Unused(s, path), |Neigh(adj, Last(path))| - next
  {
    var neigh := Neigh(adj, Last(path));
    if next < |neigh| {
      var v := neigh[next];
      EmitExact(adj, s, path, next + 1, c);
      assert neigh[next..] == [v] + neigh[next + 1..];
      BeginsStep(adj, s, path, next, c);
      if v in s && !(v == path[0] && |path| >= 2) && v !in path {
        Longer(s, path, v);
        TrailExtends(adj, s, path, v);
        EmitExact(adj, s, path + [v], 0, c);
      }
    }
  }

  lemma BeginsStep(adj: Adj, s: set<LockId>, path: seq<LockId>, next: nat, c: seq<LockId>)
    requires IsTrail(adj, s, path) && next < |Neigh(adj, Last(path))|
    ensures var v := Neigh(adj, Last(path))[next];
            Begins(adj, s, path, next, c) <==>
              || Begins(adj, s, path, next + 1, c)
              || (v == path[0] && |path| >= 2 && c == path)
              || (v in s && v !in path && Begins(adj, s, path + [v], 0, c))
  {
  }

  /** No neighbour is listed twice. */
  ghost predicate NoParallel(adj: Adj) {
    forall u | u in adj :: Distinct(adj[u])
  }

  lemma DistinctConcat(a: seq<seq<LockId>>, b: seq<seq<LockId>>)
    requires Distinct(a) && Distinct(b) && forall x | x in a :: x !in b
    ensures Distinct(a + b)
  {
    var c := a + b;
    forall i, j | 0 <= i < j < |c| ensures c[i] != c[j] {
      if i < |a| <= j { assert c[i] in a && c[j] == b[j - |a|] && c[j] in b; }
    }
  }

  /** In a graph without parallel edges no cycle is enumerated twice. */
  lemma {:induction false} EmitOnce(adj: Adj, s: set<LockId>, path: seq<LockId>, next: nat)
    requires IsTrail(adj, s, path) && NoParallel(adj)
    ensures Distinct(Emit(adj, s, path, next))
    decreases Unused(s, path), |Neigh(adj, Last(path))| - next
  {
    var neigh := Neigh(adj, Last(path));
    if next < |neigh| {
      var v := neigh[next];
      var rest := Emit(adj, s, path, next + 1);
      EmitOnce(adj, s, path, next + 1);
      forall c | c in rest ensures |c| >= |path| && Onward(path, c) != v {
        EmitExact(adj, s, path, next + 1, c);
      }
      if v in s && v == path[0] && |path| >= 2 {
        assert path !in rest;
        DistinctConcat([path], rest);
      } else if v in s && v !in path {
        Longer(s, path, v);
        TrailExtends(adj, s, path, v);
        EmitOnce(adj, s, path + [v], 0);
        var first := Emit(adj, s, path + [v], 0);
        forall c | c in first ensures c !in rest {
          EmitExact(adj, s, path + [v], 0, c);
          assert (path + [v])[|path|] == c[|path|];
        }
        DistinctConcat(first, rest);
      }
    }
  }

  /** The enumeration from every node of `starts` in turn. */
  ghost function EmitAll(adj: Adj, s: set<LockId>, starts: seq<LockId>): seq<seq<LockId>> {
    if starts == [] then [] else Emit(adj, s, [starts[0]], 0) + EmitAll(adj, s, starts[1..])
  }

  lemma RootOfEmit(adj: Adj, s: set<LockId>, u: LockId, c: seq<LockId>)
    requires u in s
    ensures c in Emit(adj, s, [u], 0) <==> IsRooted(adj, s, c) && c[0] == u
  {
    assert IsTrail(adj, s, [u]);
    EmitExact(adj, s, [u], 0, c);
    if IsRooted(adj, s, c) && c[0] == u {
      assert Edge(adj, c[0], c[1]);
      assert Begins(adj, s, [u], 0, c);
    }
  }

  /** It finds exactly the cycles written from a node of `starts`. */
  lemma {:induction false} EmitAllExact(adj: Adj, s: set<LockId>, starts: seq<LockId>, c: seq<LockId>)
    requires forall u | u in starts :: u in s
    ensures c in EmitAll(adj, s, starts) <==> IsRooted(adj, s, c) && c[0] in starts
  {
    if starts != [] {
      RootOfEmit(adj, s, starts[0], c);
      EmitAllExact(adj, s, starts[1..], c);
      assert starts == [starts[0]] + starts[1..];
    }
  }

  lemma {:induction false} EmitAllOnce(adj: Adj, s: set<LockId>, starts: seq<LockId>)
    requires (forall u | u in starts :: u in s) && Distinct(starts) && NoParallel(adj)
    ensures Distinct(EmitAll(adj, s, starts))
  {
    if starts != [] {
      var u := starts[0];
      assert IsTrail(adj, s, [u]);
      EmitOnce(adj, s, [u], 0);
      EmitAllOnce(adj, s, starts[1..]);
      var first := Emit(adj, s, [u], 0);
      forall c | c in first ensures c !in EmitAll(adj, s, starts[1..]) {
        RootOfEmit(adj, s, u, c);
        EmitAllExact(adj, s, starts[1..], c);
      }
      DistinctConcat(first, EmitAll(adj, s, starts[1..]));
    }
  }
}
