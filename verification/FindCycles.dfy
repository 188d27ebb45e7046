/** The offline cycle finder: components, enumeration inside each of them, normal
    form, order and removal of duplicates. */
module FindCycles {
  import opened Locks
  import opened Digraph
  import opened Tarjan
  import opened SimpleCycles
  import opened CycleSearch
  import opened CanonicalCycles

  // ------------------------------------------------ cycles in terms of the edges

  /** A simple cycle of at least two locks, written from one of them on. */
  ghost predicate IsCycle(edges: Edges, c: seq<LockId>) {
    |c| >= 2 && Distinct(c) && AllEdges(edges, c)
  }

  /** `p` leads from `u` to `v` along edges. */
  ghost predicate Leads(edges: Edges, p: seq<LockId>, u: LockId, v: LockId) {
    && |p| > 0 && p[0] == u && p[|p| - 1] == v
    && forall i | 0 <= i < |p| - 1 :: EdgeKey(p[i], p[i + 1]) in edges
  }

  /** Two locks each of which leads to the other. */
  ghost predicate Together(edges: Edges, u: LockId, v: LockId) {
    (exists p :: Leads(edges, p, u, v)) && (exists p :: Leads(edges, p, v, u))
  }

  lemma LeadsIsPath(edges: Edges, adj: Adj, p: seq<LockId>, u: LockId, v: LockId)
    requires IsAdjOf(edges, adj)
    ensures Leads(edges, p, u, v) <==> Joins(adj, p, u, v)
  {
    if Leads(edges, p, u, v) {
      forall i | 0 <= i < |p| - 1 ensures Edge(adj, p[i], p[i + 1]) { assert EdgeKey(p[i], p[i + 1]) in edges; }
    }
    if Joins(adj, p, u, v) {
      forall i | 0 <= i < |p| - 1 ensures EdgeKey(p[i], p[i + 1]) in edges { assert Edge(adj, p[i], p[i + 1]); }
    }
  }

  lemma TogetherIsMutual(edges: Edges, adj: Adj, u: LockId, v: LockId)
    requires IsAdjOf(edges, adj)
    ensures Together(edges, u, v) <==> Mutual(adj, u, v)
  {
    forall p ensures Leads(edges, p, u, v) <==> Joins(adj, p, u, v) { LeadsIsPath(edges, adj, p, u, v); }
    forall p ensures Leads(edges, p, v, u) <==> Joins(adj, p, v, u) { LeadsIsPath(edges, adj, p, v, u); }
  }

  lemma RootedIsCycle(edges: Edges, adj: Adj, s: set<LockId>, c: seq<LockId>)
    requires IsAdjOf(edges, adj)
    ensures IsRooted(adj, s, c) <==> IsCycle(edges, c) && forall i | 0 <= i < |c| :: c[i] in s
  {
    if IsRooted(adj, s, c) { RootedHasEdges(edges, adj, s, c); }
    if IsCycle(edges, c) && forall i | 0 <= i < |c| :: c[i] in s {
      forall i | 0 <= i < |c| - 1 ensures Edge(adj, c[i], c[i + 1]) {
        assert EdgeKey(c[i], NextNode(c, i)) in edges;
      }
      assert EdgeKey(c[|c| - 1], NextNode(c, |c| - 1)) in edges;
    }
  }

  /** All locks of a cycle are together. */
  lemma CycleTogether(edges: Edges, c: seq<LockId>, i: nat)
    requires IsCycle(edges, c) && i < |c|
    ensures Together(edges, c[0], c[i])
  {
    var p := c[..i + 1];
    forall j | 0 <= j < |p| - 1 ensures EdgeKey(p[j], p[j + 1]) in edges {
      assert EdgeKey(c[j], NextNode(c, j)) in edges;
    }
    assert Leads(edges, p, c[0], c[i]);
    var q := c[i..] + [c[0]];
    forall j | 0 <= j < |q| - 1 ensures EdgeKey(q[j], q[j + 1]) in edges {
      assert EdgeKey(c[i + j], NextNode(c, i + j)) in edges;
    }
    assert Leads(edges, q, c[i], c[0]);
  }

  // ----------------------------------------- how often a component is enumerated

  function SumLen(ks: seq<seq<LockId>>): nat {
    if ks == [] then 0 else |ks[0]| + SumLen(ks[1..])
  }

  ghost function Rotations(c: seq<LockId>): (r: seq<seq<LockId>>)
    ensures |r| == |c| && forall i | 0 <= i < |c| :: r[i] == Rotate(c, i)
  {
    seq(|c|, i requires 0 <= i < |c| => Rotate(c, i))
  }

  ghost function AllRotations(ks: seq<seq<LockId>>): (r: seq<seq<LockId>>)
    ensures |r| == SumLen(ks)
  {
    if ks == [] then [] else Rotations(ks[0]) + AllRotations(ks[1..])
  }

  ghost predicate IsRotationOf(ks: seq<seq<LockId>>, x: seq<LockId>) {
    exists j, i: nat | 0 <= j < |ks| && i < |ks[j]| :: x == Rotate(ks[j], i)
  }

  lemma {:induction false} AllRotationsMembers(ks: seq<seq<LockId>>, x: seq<LockId>)
    ensures x in AllRotations(ks) <==> IsRotationOf(ks, x)
  {
    if ks != [] {
      AllRotationsMembers(ks[1..], x);
      if IsRotationOf(ks, x) {
        var j, i: nat :| 0 <= j < |ks| && i < |ks[j]| && x == Rotate(ks[j], i);
        if j == 0 { assert Rotations(ks[0])[i] == x; } else { assert ks[1..][j - 1] == ks[j]; }
      }
      if x in Rotations(ks[0]) {
        var i: nat :| i < |ks[0]| && Rotations(ks[0])[i] == x;
        assert x == Rotate(ks[0], i);
      }
      if IsRotationOf(ks[1..], x) {
        var j, i: nat :| 0 <= j < |ks[1..]| && i < |ks[1..][j]| && x == Rotate(ks[1..][j], i);
        assert ks[1..][j] == ks[j + 1];
      }
    }
  }

  /** How far to rotate back what has been rotated by `i`. */
  function BackBy(c: seq<LockId>, i: nat): nat
    requires i < |c|
  {
    if i == 0 then 0 else |c| - i
  }

  lemma SwapBack<T>(a: seq<T>, b: seq<T>)
    ensures (b + a)[|b|..] + (b + a)[..|b|] == a + b
  {
    assert (b + a)[|b|..] == a && (b + a)[..|b|] == b;
  }

  lemma RotateBack(c: seq<LockId>, i: nat)
    requires i < |c|
    ensures Rotate(Rotate(c, i), BackBy(c, i)) == c
  {
    hide Rotate;
    RotateIs(c, i);
    RotateIs(Rotate(c, i), BackBy(c, i));
    if i == 0 {
      assert c[0..] + c[..0] == c;
    } else {
      SwapBack(c[..i], c[i..]);
      assert c[..i] + c[i..] == c;
    }
  }

  lemma RotateIs(c: seq<LockId>, i: nat)
    requires i <= |c|
    ensures Rotate(c, i) == c[i..] + c[..i]
  {
  }

  /** A rotation of two canonical cycles is a rotation of one. */
  lemma RotationsDiffer(c: seq<LockId>, d: seq<LockId>, i: nat, j: nat)
    requires IsCanonical(c) && IsCanonical(d) && i < |c| && j < |d| && Rotate(c, i) == Rotate(d, j)
    ensures c == d && i == j
  {
    hide Rotate, IsCanonical;
    RotateBack(c, i);
    RotateBack(d, j);
    CanonicalRotationUnique(Rotate(c, i), BackBy(c, i), BackBy(d, j));
  }

  lemma {:induction false} AllRotationsDistinct(ks: seq<seq<LockId>>)
    requires Distinct(ks) && forall j | 0 <= j < |ks| :: IsCanonical(ks[j])
    ensures Distinct(AllRotations(ks))
  {
    if ks != [] {
      AllRotationsDistinct(ks[1..]);
      var a, b := Rotations(ks[0]), AllRotations(ks[1..]);
      forall i, j | 0 <= i < j < |a| ensures a[i] != a[j] {
        if a[i] == a[j] { RotationsDiffer(ks[0], ks[0], i, j); }
      }
      forall x | x in a ensures x !in b {
        if x in b {
          AllRotationsMembers(ks[1..], x);
          var j, i: nat :| 0 <= j < |ks[1..]| && i < |ks[1..][j]| && x == Rotate(ks[1..][j], i);
          var k: nat :| k < |a| && a[k] == x;
          RotationsDiffer(ks[0], ks[1..][j], k, i);
        }
      }
      DistinctConcat(a, b);
    }
  }

  lemma {:induction false} DistinctSize<T>(a: seq<T>)
    requires Distinct(a)
    ensures |set x | x in a| == |a|
  {
    if a != [] {
      var b := a[..|a| - 1];
      DistinctSize(b);
      assert (set x | x in a) == (set x | x in b) + {a[|a| - 1]};
    } else {
      assert (set x | x in a) == {};
    }
  }

  lemma SameMembersSameLength<T>(a: seq<T>, b: seq<T>)
    requires Distinct(a) && Distinct(b) && forall x :: x in a <==> x in b
    ensures |a| == |b|
  {
    DistinctSize(a);
    DistinctSize(b);
    assert (set x | x in a) == (set x | x in b);
  }

  /** `ks` lists the cycles of the component of `u`, each once in normal form. */
  ghost predicate Lists(edges: Edges, u: LockId, ks: seq<seq<LockId>>) {
    Distinct(ks) && forall c :: c in ks <==> IsCycle(edges, c) && IsCanonical(c) && Together(edges, u, c[0])
  }

  lemma RotateIsCycle(edges: Edges, c: seq<LockId>, m: nat)
    requires IsCycle(edges, c) && m < |c|
    ensures IsCycle(edges, Rotate(c, m))
  {
    RotateCycle(edges, c, m);
    var r := Rotate(c, m);
    forall i, j | 0 <= i < j < |r| ensures r[i] != r[j] {
      assert r[i] == c[if i + m < |c| then i + m else i + m - |c|];
      assert r[j] == c[if j + m < |c| then j + m else j + m - |c|];
    }
  }

  /** Every cycle is a rotation of one in normal form. */
  lemma NormalForm(edges: Edges, c: seq<LockId>) returns (k: seq<LockId>, i: nat)
    requires IsCycle(edges, c)
    ensures IsCycle(edges, k) && IsCanonical(k) && i < |k| && c == Rotate(k, i)
  {
    var m := LeastExists(c);
    k := Rotate(c, m);
    RotateIsCanonical(c, m);
    RotateIsCycle(edges, c, m);
    i := BackBy(c, m);
    RotateBack(c, m);
  }

  lemma ComponentSet(edges: Edges, adj: Adj, scc: seq<LockId>, u: LockId, v: LockId)
    requires IsAdjOf(edges, adj) && IsComponent(adj, scc) && u in scc
    ensures v in scc <==> Together(edges, u, v)
  {
    TogetherIsMutual(edges, adj, u, v);
  }

  lemma TogetherTrans(edges: Edges, adj: Adj, u: LockId, v: LockId, w: LockId)
    requires IsAdjOf(edges, adj) && Together(edges, u, v) && Together(edges, v, w)
    ensures Together(edges, u, w)
  {
    hide Together, Leads, IsAdjOf, Reach;
    TogetherIsMutual(edges, adj, u, v);
    TogetherIsMutual(edges, adj, v, w);
    TogetherIsMutual(edges, adj, u, w);
    ReachTrans(adj, u, v, w);
    ReachTrans(adj, w, v, u);
  }

  /** A cycle with one node in a component lies in it. */
  lemma CycleInComponent(edges: Edges, adj: Adj, scc: seq<LockId>, c: seq<LockId>, i: nat)
    requires IsAdjOf(edges, adj) && IsComponent(adj, scc) && IsCycle(edges, c) && i < |c| && c[i] in scc
    ensures forall j | 0 <= j < |c| :: c[j] in scc
  {
    hide Together, IsAdjOf, IsComponent, IsCycle;
    CycleTogether(edges, c, i);
    forall j | 0 <= j < |c| ensures c[j] in scc {
      CycleTogether(edges, c, j);
      TogetherSym(edges, c[0], c[i]);
      TogetherTrans(edges, adj, c[i], c[0], c[j]);
      ComponentSet(edges, adj, scc, c[i], c[j]);
    }
  }

  lemma TogetherSym(edges: Edges, u: LockId, v: LockId)
    requires Together(edges, u, v)
    ensures Together(edges, v, u)
  {
  }

  /** What the enumeration of a component emits without a cap: the cycles of the
      component, written from each of their nodes. */
  lemma RawMembers(edges: Edges, adj: Adj, scc: seq<LockId>, c: seq<LockId>)
    requires IsAdjOf(edges, adj) && IsComponent(adj, scc)
    ensures c in EmitAll(adj, NodeSet(scc), scc) <==> IsCycle(edges, c) && c[0] in scc
  {
    var s := NodeSet(scc);
    EmitAllExact(adj, s, scc, c);
    RootedIsCycle(edges, adj, s, c);
    if IsCycle(edges, c) && c[0] in scc { CycleInComponent(edges, adj, scc, c, 0); }
  }

  /** A cycle of length k counts k times against the cap: the enumeration of a
      component emits the lengths of its cycles, summed up. */
  lemma RawCount(edges: Edges, adj: Adj, scc: seq<LockId>, u: LockId, ks: seq<seq<LockId>>)
    requires IsAdjOf(edges, adj) && IsComponent(adj, scc) && u in scc && Lists(edges, u, ks)
    ensures |EmitAll(adj, NodeSet(scc), scc)| == SumLen(ks)
  {
    var raw, all := EmitAll(adj, NodeSet(scc), scc), AllRotations(ks);
    EmitAllOnce(adj, NodeSet(scc), scc);
    forall j | 0 <= j < |ks| ensures IsCanonical(ks[j]) { assert ks[j] in ks; }
    AllRotationsDistinct(ks);
    forall x ensures x in raw <==> x in all {
      RawMembers(edges, adj, scc, x);
      AllRotationsMembers(ks, x);
      if x in raw { RawIsRotation(edges, adj, scc, u, ks, x); }
      if x in all { RotationIsRaw(edges, adj, scc, u, ks, x); }
    }
    SameMembersSameLength(raw, all);
  }

  lemma RawIsRotation(edges: Edges, adj: Adj, scc: seq<LockId>, u: LockId, ks: seq<seq<LockId>>, x: seq<LockId>)
    requires IsAdjOf(edges, adj) && IsComponent(adj, scc) && u in scc && Lists(edges, u, ks)
    requires IsCycle(edges, x) && x[0] in scc
    ensures IsRotationOf(ks, x)
  {
    var k, i := NormalForm(edges, x);
    CycleInComponent(edges, adj, scc, x, 0);
    assert k[0] == x[if i == 0 then 0 else |x| - i];
    ComponentSet(edges, adj, scc, u, k[0]);
    assert k in ks;
    var j :| 0 <= j < |ks| && ks[j] == k;
    assert x == Rotate(ks[j], i);
  }

  lemma RotationIsRaw(edges: Edges, adj: Adj, scc: seq<LockId>, u: LockId, ks: seq<seq<LockId>>, x: seq<LockId>)
    requires IsAdjOf(edges, adj) && IsComponent(adj, scc) && u in scc && Lists(edges, u, ks)
    requires IsRotationOf(ks, x)
    ensures IsCycle(edges, x) && x[0] in scc
  {
    var j, i: nat :| 0 <= j < |ks| && i < |ks[j]| && x == Rotate(ks[j], i);
    assert ks[j] in ks;
    RotateIsCycle(edges, ks[j], i);
    ComponentSet(edges, adj, scc, u, ks[j][0]);
    CycleInComponent(edges, adj, scc, ks[j], 0);
  }

  // ------------------------------------------------------------------ the finder

  /** The cycles of component `scc` that the cap lets through are among `found`. */
  ghost predicate Covers(adj: Adj, cap: int, scc: seq<LockId>, found: seq<seq<LockId>>) {
    forall c | c in Take(cap, EmitAll(adj, NodeSet(scc), scc)) :: c in found
  }

  lemma CycleNeedsTwo(edges: Edges, scc: seq<LockId>, c: seq<LockId>)
    requires IsCycle(edges, c) && forall j | 0 <= j < |c| :: c[j] in scc
    ensures |scc| >= 2
  {
    assert c[0] in scc && c[1] in scc;
    var i :| 0 <= i < |scc| && scc[i] == c[0];
    var j :| 0 <= j < |scc| && scc[j] == c[1];
    assert i != j;
  }

  /** A component of one node has no cycle of two or more. */
  lemma SmallComponent(edges: Edges, adj: Adj, cap: int, scc: seq<LockId>, found: seq<seq<LockId>>)
    requires IsAdjOf(edges, adj) && IsComponent(adj, scc) && |scc| < 2
    ensures Covers(adj, cap, scc, found)
  {
    var raw := EmitAll(adj, NodeSet(scc), scc);
    if raw != [] {
      var c := raw[0];
      RawMembers(edges, adj, scc, c);
      CycleInComponent(edges, adj, scc, c, 0);
      CycleNeedsTwo(edges, scc, c);
    }
  }

  /** The raw result: cycles only, and all of them that the cap lets through. */
  ghost predicate RawOk(edges: Edges, adj: Adj, cap: int, sccs: seq<seq<LockId>>, found: seq<seq<LockId>>) {
    && (forall i | 0 <= i < |found| :: IsCycle(edges, found[i]))
    && (forall j | 0 <= j < |sccs| :: Covers(adj, cap, sccs[j], found))
    && (cap <= 0 ==> found == [])
  }

  lemma RawGrows(edges: Edges, adj: Adj, cap: int, sccs: seq<seq<LockId>>, found: seq<seq<LockId>>, scc: seq<LockId>)
    requires IsAdjOf(edges, adj) && IsComponent(adj, scc) && RawOk(edges, adj, cap, sccs, found)
    ensures RawOk(edges, adj, cap, sccs + [scc], found + Take(cap, EmitAll(adj, NodeSet(scc), scc)))
  {
    var more := Take(cap, EmitAll(adj, NodeSet(scc), scc));
    forall i | 0 <= i < |more| ensures IsCycle(edges, more[i]) {
      RawMembers(edges, adj, scc, more[i]);
    }
  }

  method RawCycles(edges: Edges, cap: int)
    returns (out: seq<Cycle>, ghost adj: Adj, ghost sccs: seq<seq<LockId>>, ghost found: seq<seq<LockId>>)
    ensures IsAdjOf(edges, adj) && Partition(adj, sccs, Nodes(adj)) && RawOk(edges, adj, cap, sccs, found)
    ensures out == CyclesOf(edges, found)
  {
    hide IsAdjOf, IsComponent, IsCycle, Take, EmitAll, CyclesOf, Covers;
    var adj0 := BuildAdj(edges);
    var sccs0 := TarjanScc(adj0);
    adj, sccs := adj0, sccs0;
    out, found := [], [];
    CyclesOfNone(edges);
    var i: nat := 0;
    while i < |sccs0|
      invariant i <= |sccs0| && RawOk(edges, adj, cap, sccs0[..i], found)
      invariant out == CyclesOf(edges, found)
    {
      var scc := sccs0[i];
      assert sccs0[..i + 1] == sccs0[..i] + [scc];
      i := i + 1;
      if |scc| < 2 {
        SmallComponent(edges, adj, cap, scc, found);
        continue;
      }
      RawGrows(edges, adj, cap, sccs0[..i - 1], found, scc);
      out := EnumerateScc(edges, adj0, scc, cap, out);
      CyclesOfConcat(edges, found, Take(cap, EmitAll(adj, NodeSet(scc), scc)));
      found := found + Take(cap, EmitAll(adj, NodeSet(scc), scc));
    }
    assert sccs0[..|sccs0|] == sccs0;
  }

  /** `ks` are the canonical rotations, by `ms`, of the cycles `found`. */
  ghost predicate NormalForms(edges: Edges, found: seq<seq<LockId>>, ks: seq<seq<LockId>>, ms: seq<nat>) {
    && |ks| == |ms| <= |found|
    && (forall i | 0 <= i < |ks| :: IsCycle(edges, ks[i]) && IsCanonical(ks[i]))
    && (forall i | 0 <= i < |ks| :: ms[i] < |found[i]| && ks[i] == Rotate(found[i], ms[i]))
  }

  lemma NormalFormsGrow(edges: Edges, found: seq<seq<LockId>>, ks: seq<seq<LockId>>, ms: seq<nat>, m: nat)
    requires NormalForms(edges, found, ks, ms) && |ks| < |found|
    requires var c := found[|ks|]; m < |c| && IsCycle(edges, Rotate(c, m)) && IsCanonical(Rotate(c, m))
    ensures NormalForms(edges, found, ks + [Rotate(found[|ks|], m)], ms + [m])
  {
  }

  /** Brings every cycle into normal form. */
  method CanonAll(edges: Edges, out: seq<Cycle>, ghost found: seq<seq<LockId>>)
    returns (r: seq<Cycle>, ghost ks: seq<seq<LockId>>, ghost ms: seq<nat>)
    requires out == CyclesOf(edges, found) && forall i | 0 <= i < |found| :: IsCycle(edges, found[i])
    ensures r == CyclesOf(edges, ks) && |ks| == |found| && NormalForms(edges, found, ks, ms)
  {
    hide IsCycle, CyclesOf, IsCanonical, LeastAt;
    r, ks, ms := [], [], [];
    CyclesOfNone(edges);
    var i: nat := 0;
    while i < |out|
      invariant i <= |out| && |ks| == i && r == CyclesOf(edges, ks) && NormalForms(edges, found, ks, ms)
    {
      var cy, m := Canon(out[i]);
      CanonStep(edges, found[i], m);
      CyclesOfAppend(edges, ks, Rotate(found[i], m));
      NormalFormsGrow(edges, found, ks, ms, m);
      r := r + [cy];
      ks, ms := ks + [Rotate(found[i], m)], ms + [m];
      i := i + 1;
    }
  }

  lemma CanonStep(edges: Edges, c: seq<LockId>, m: nat)
    requires IsCycle(edges, c)
    ensures Starts(CycleOf(edges, c)) == c && c != []
    ensures LeastAt(c, m) ==>
      && m < |c| && IsCycle(edges, Rotate(c, m)) && IsCanonical(Rotate(c, m))
      && Rotate(CycleOf(edges, c), m) == CycleOf(edges, Rotate(c, m))
  {
    RotateCycle(edges, c, 0);
    if LeastAt(c, m) {
      RotateIsCanonical(c, m);
      RotateIsCycle(edges, c, m);
      RotateCycle(edges, c, m);
    }
  }

  /** Reported cycles are cycles in normal form with the witnesses of their edges. */
  ghost predicate Sound(edges: Edges, r: seq<Cycle>) {
    forall cy | cy in r :: exists c :: IsCycle(edges, c) && IsCanonical(c) && cy == CycleOf(edges, c)
  }

  /** Reported cycles have at least two edges, over locks of which the first is the least
      and none occurs twice; they form a ring of edges of the graph, each with what is
      recorded for it. */
  ghost predicate AllWitnessed(edges: Edges, r: seq<Cycle>) {
    forall cy | cy in r :: Witnessed(edges, cy) && LeastFirst(cy)
  }

  /** Said with the numbers of the locks: by address, then by generation. */
  ghost predicate LeastFirst(cy: Cycle) {
    |cy| >= 2
    && (forall i, j | 0 <= i < j < |cy| :: cy[i].frm != cy[j].frm)
    && forall i | 0 < i < |cy| ::
      var a, b := cy[0].frm, cy[i].frm;
      a.addr < b.addr || (a.addr == b.addr && a.gen < b.gen)
  }

  lemma SoundIsWitnessed(edges: Edges, r: seq<Cycle>)
    requires Sound(edges, r)
    ensures AllWitnessed(edges, r)
  {
    hide CycleOf, AllEdges, Witnessed;
    forall cy | cy in r ensures Witnessed(edges, cy) && LeastFirst(cy) {
      var c :| IsCycle(edges, c) && IsCanonical(c) && cy == CycleOf(edges, c);
      CycleIsWitnessed(edges, c);
      StartsOfCycle(edges, c);
    }
  }

  lemma StartsOfCycle(edges: Edges, c: seq<LockId>)
    ensures |CycleOf(edges, c)| == |c| && forall i | 0 <= i < |c| :: CycleOf(edges, c)[i].frm == c[i]
  {
  }

  /** If the lengths of the cycles of a component sum up to at most the cap, each
      of these cycles is reported. */
  ghost predicate Complete(edges: Edges, cap: int, r: seq<Cycle>) {
    forall c, ks {:trigger Lists(edges, c[0], ks)} |
      IsCycle(edges, c) && IsCanonical(c) && Lists(edges, c[0], ks) && SumLen(ks) <= cap :: CycleOf(edges, c) in r
  }

  /** Whatever the cap, as long as it is positive, something is reported if and
      only if there is a cycle. */
  ghost predicate Verdict(edges: Edges, cap: int, r: seq<Cycle>) {
    r != [] <==> cap > 0 && exists c :: IsCycle(edges, c)
  }

  /** A cycle of the component of `u` is reported. */
  ghost predicate Represented(edges: Edges, u: LockId, r: seq<Cycle>) {
    exists k :: IsCycle(edges, k) && IsCanonical(k) && Together(edges, u, k[0]) && CycleOf(edges, k) in r
  }

  /** For a positive cap, however small, no component with a cycle is passed over. */
  ghost predicate EachComponent(edges: Edges, cap: int, r: seq<Cycle>) {
    forall c | cap > 0 && IsCycle(edges, c) :: Represented(edges, c[0], r)
  }

  lemma InSomeComponent(edges: Edges, adj: Adj, sccs: seq<seq<LockId>>, c: seq<LockId>) returns (j: nat)
    requires IsAdjOf(edges, adj) && Partition(adj, sccs, Nodes(adj)) && IsCycle(edges, c)
    ensures j < |sccs| && c[0] in sccs[j] && IsComponent(adj, sccs[j])
  {
    assert EdgeKey(c[0], NextNode(c, 0)) in edges;
    NeighInNodes(adj, c[0], NextNode(c, 0));
    assert InSome(sccs, c[0]);
    j :| 0 <= j < |sccs| && c[0] in sccs[j];
  }

  lemma RawComplete(edges: Edges, adj: Adj, cap: int, sccs: seq<seq<LockId>>, found: seq<seq<LockId>>,
                    c: seq<LockId>, ks: seq<seq<LockId>>)
    requires IsAdjOf(edges, adj) && Partition(adj, sccs, Nodes(adj)) && RawOk(edges, adj, cap, sccs, found)
    requires IsCycle(edges, c) && Lists(edges, c[0], ks) && SumLen(ks) <= cap
    ensures c in found
  {
    var j := InSomeComponent(edges, adj, sccs, c);
    RawCount(edges, adj, sccs[j], c[0], ks);
    RawMembers(edges, adj, sccs[j], c);
    assert Covers(adj, cap, sccs[j], found);
    assert c in Take(cap, EmitAll(adj, NodeSet(sccs[j]), sccs[j]));
  }

  /** For a positive cap some cycle of the component of any cycle is found. */
  lemma ComponentFound(edges: Edges, adj: Adj, cap: int, sccs: seq<seq<LockId>>, found: seq<seq<LockId>>,
                       c: seq<LockId>)
    returns (x: seq<LockId>)
    requires IsAdjOf(edges, adj) && Partition(adj, sccs, Nodes(adj)) && RawOk(edges, adj, cap, sccs, found)
    requires IsCycle(edges, c) && cap > 0
    ensures x in found && IsCycle(edges, x) && Together(edges, c[0], x[0])
  {
    hide IsAdjOf, Partition, Distinct, AllEdges, EmitAll, Nodes, Together, IsComponent;
    var j := InSomeComponent(edges, adj, sccs, c);
    RawMembers(edges, adj, sccs[j], c);
    var raw := EmitAll(adj, NodeSet(sccs[j]), sccs[j]);
    assert Covers(adj, cap, sccs[j], found);
    x := raw[0];
    assert Take(cap, raw)[0] in Take(cap, raw);
    RawMembers(edges, adj, sccs[j], x);
    ComponentSet(edges, adj, sccs[j], c[0], x[0]);
  }

  lemma RawVerdict(edges: Edges, adj: Adj, cap: int, sccs: seq<seq<LockId>>, found: seq<seq<LockId>>)
    requires IsAdjOf(edges, adj) && Partition(adj, sccs, Nodes(adj)) && RawOk(edges, adj, cap, sccs, found)
    ensures found != [] <==> cap > 0 && exists c :: IsCycle(edges, c)
  {
    hide IsAdjOf, Partition, IsCycle, EmitAll, Nodes;
    if found != [] { assert IsCycle(edges, found[0]); }
    if cap > 0 && exists c :: IsCycle(edges, c) {
      var c :| IsCycle(edges, c);
      var x := ComponentFound(edges, adj, cap, sccs, found, c);
    }
  }

  /** A canonical cycle is its own only canonical rotation. */
  lemma CanonicalStays(c: seq<LockId>, m: nat)
    requires m < |c| && IsCanonical(c) && IsCanonical(Rotate(c, m))
    ensures Rotate(c, m) == c
  {
    assert Rotate(c, 0) == c;
    CanonicalRotationUnique(c, 0, m);
  }

  lemma MemberOfCycles(edges: Edges, ks: seq<seq<LockId>>, cy: Cycle)
    ensures cy in CyclesOf(edges, ks) <==> exists i | 0 <= i < |ks| :: cy == CycleOf(edges, ks[i])
  {
    var r := CyclesOf(edges, ks);
    if exists i | 0 <= i < |ks| :: cy == CycleOf(edges, ks[i]) {
      var i :| 0 <= i < |ks| && cy == CycleOf(edges, ks[i]);
      assert r[i] == cy;
    }
  }

  /** `r` has exactly the cycles of `ks`. */
  ghost predicate SameCycles(edges: Edges, ks: seq<seq<LockId>>, r: seq<Cycle>) {
    && (forall cy | cy in r :: exists i | 0 <= i < |ks| :: cy == CycleOf(edges, ks[i]))
    && (forall i | 0 <= i < |ks| :: CycleOf(edges, ks[i]) in r)
  }

  lemma DedupMember(edges: Edges, ks: seq<seq<LockId>>, r: seq<Cycle>, i: nat)
    requires i < |ks| && HasKey(r, KeyOf(CycleOf(edges, ks[i])))
    requires forall cy | cy in r :: cy in CyclesOf(edges, ks)
    ensures CycleOf(edges, ks[i]) in r
  {
    hide KeyOf, CycleOf, CyclesOf;
    var d :| d in r && KeyOf(d) == KeyOf(CycleOf(edges, ks[i]));
    MemberOfCycles(edges, ks, d);
    var j :| 0 <= j < |ks| && d == CycleOf(edges, ks[j]);
    KeyDetermines(edges, ks[i], ks[j]);
  }

  lemma DedupKeeps(edges: Edges, ks: seq<seq<LockId>>, sorted: seq<Cycle>, r: seq<Cycle>)
    requires multiset(sorted) == multiset(CyclesOf(edges, ks))
    requires forall cy | cy in r :: cy in sorted
    requires forall cy | cy in sorted :: HasKey(r, KeyOf(cy))
    ensures SameCycles(edges, ks, r)
  {
    hide KeyOf, CycleOf, CyclesOf, HasKey;
    var all := CyclesOf(edges, ks);
    forall cy ensures cy in sorted <==> cy in all { assert cy in multiset(sorted) <==> cy in multiset(all); }
    forall cy | cy in r ensures exists i | 0 <= i < |ks| :: cy == CycleOf(edges, ks[i]) {
      MemberOfCycles(edges, ks, cy);
    }
    forall i | 0 <= i < |ks| ensures CycleOf(edges, ks[i]) in r {
      assert all[i] in all;
      DedupMember(edges, ks, r, i);
    }
  }

  /** The cycle finder: sound for every cap, complete for every component whose
      cycles fit under the cap, and for every positive cap decisive in each component. */
  method FindAllCycles(edges: Edges, cap: int) returns (r: seq<Cycle>)
    ensures StrictlySorted(r)
    ensures Sound(edges, r) && AllWitnessed(edges, r)
    ensures Complete(edges, cap, r)
    ensures Verdict(edges, cap, r)
    ensures EachComponent(edges, cap, r)
  {
    hide *;
    var out, adj, sccs, found := RawCycles(edges, cap);
    RawIsCycles(edges, adj, cap, sccs, found);
    var canon, ks, ms := CanonAll(edges, out, found);
    var sorted := Sort(canon);
    r := Dedup(sorted);
    DedupKeeps(edges, ks, sorted, r);
    Conclude(edges, adj, cap, sccs, found, ks, ms, r);
    SoundIsWitnessed(edges, r);
  }

  lemma RawIsCycles(edges: Edges, adj: Adj, cap: int, sccs: seq<seq<LockId>>, found: seq<seq<LockId>>)
    requires RawOk(edges, adj, cap, sccs, found)
    ensures forall i | 0 <= i < |found| :: IsCycle(edges, found[i])
  {
  }

  /** A canonical cycle that was found is reported. */
  lemma FoundIsReported(edges: Edges, found: seq<seq<LockId>>, ks: seq<seq<LockId>>, ms: seq<nat>, r: seq<Cycle>,
                        c: seq<LockId>)
    requires |ks| == |found| && NormalForms(edges, found, ks, ms) && SameCycles(edges, ks, r)
    requires c in found && IsCanonical(c)
    ensures CycleOf(edges, c) in r
  {
    hide IsCycle, IsCanonical, CycleOf;
    var i :| 0 <= i < |found| && found[i] == c;
    CanonicalStays(c, ms[i]);
  }

  /** The normal form of a cycle that was found is reported, and in its component. */
  lemma FoundIsRepresented(edges: Edges, adj: Adj, found: seq<seq<LockId>>, ks: seq<seq<LockId>>, ms: seq<nat>,
                           r: seq<Cycle>, u: LockId, x: seq<LockId>)
    requires |ks| == |found| && NormalForms(edges, found, ks, ms) && SameCycles(edges, ks, r)
    requires IsAdjOf(edges, adj) && x in found && IsCycle(edges, x) && Together(edges, u, x[0])
    ensures Represented(edges, u, r)
  {
    hide IsAdjOf, IsCycle, IsCanonical, CycleOf, Together;
    var i :| 0 <= i < |found| && found[i] == x;
    CycleTogether(edges, x, ms[i]);
    TogetherTrans(edges, adj, u, x[0], x[ms[i]]);
    assert ks[i][0] == x[ms[i]];
    assert CycleOf(edges, ks[i]) in r;
  }

  lemma Conclude(edges: Edges, adj: Adj, cap: int, sccs: seq<seq<LockId>>, found: seq<seq<LockId>>,
                 ks: seq<seq<LockId>>, ms: seq<nat>, r: seq<Cycle>)
    requires IsAdjOf(edges, adj) && Partition(adj, sccs, Nodes(adj)) && RawOk(edges, adj, cap, sccs, found)
    requires |ks| == |found| && NormalForms(edges, found, ks, ms) && SameCycles(edges, ks, r)
    ensures Sound(edges, r) && Complete(edges, cap, r) && Verdict(edges, cap, r) && EachComponent(edges, cap, r)
  {
    hide IsAdjOf, Partition, RawOk, Lists, CycleOf, IsCanonical, AllEdges, Nodes, Represented;
    RawVerdict(edges, adj, cap, sccs, found);
    if found != [] { assert CycleOf(edges, ks[0]) in r; }
    if r != [] { assert r[0] in r; }
    forall c, xs | IsCycle(edges, c) && IsCanonical(c) && Lists(edges, c[0], xs) && SumLen(xs) <= cap
      ensures CycleOf(edges, c) in r
    {
      RawComplete(edges, adj, cap, sccs, found, c, xs);
      FoundIsReported(edges, found, ks, ms, r, c);
    }
    forall c | cap > 0 && IsCycle(edges, c) ensures Represented(edges, c[0], r) {
      var x := ComponentFound(edges, adj, cap, sccs, found, c);
      FoundIsRepresented(edges, adj, found, ks, ms, r, c[0], x);
    }
  }

  // ------------------------------------------------------------ what it amounts to

  /** A walk along edges that comes back to where it began. */
  ghost predicate ClosedWalk(edges: Edges, p: seq<LockId>) {
    |p| >= 2 && Leads(edges, p, p[0], p[0])
  }

  ghost predicate NoSelfLoop(edges: Edges) {
    forall u :: EdgeKey(u, u) !in edges
  }

  /** Where no lock has an edge to itself, any closed walk contains a simple cycle. */
  lemma {:induction false} WalkHasCycle(edges: Edges, p: seq<LockId>)
    requires NoSelfLoop(edges) && ClosedWalk(edges, p)
    ensures exists c :: IsCycle(edges, c)
    decreases |p|
  {
    var c := p[..|p| - 1];
    if Distinct(c) {
      assert |c| >= 2 by { assert EdgeKey(p[0], p[1]) in edges; }
      forall i: nat | i < |c| ensures EdgeKey(c[i], NextNode(c, i)) in edges {
        assert EdgeKey(p[i], p[i + 1]) in edges;
      }
      assert IsCycle(edges, c);
    } else {
      var i, j :| 0 <= i < j < |c| && c[i] == c[j];
      var q := p[i..j + 1];
      forall k | 0 <= k < |q| - 1 ensures EdgeKey(q[k], q[k + 1]) in edges {
        assert EdgeKey(p[i + k], p[i + k + 1]) in edges;
      }
      WalkHasCycle(edges, q);
    }
  }

  lemma CycleIsWalk(edges: Edges, c: seq<LockId>)
    requires IsCycle(edges, c)
    ensures ClosedWalk(edges, c + [c[0]])
  {
    var p := c + [c[0]];
    forall k | 0 <= k < |p| - 1 ensures EdgeKey(p[k], p[k + 1]) in edges {
      assert EdgeKey(c[k], NextNode(c, k)) in edges;
    }
  }

  /** The verdict of the finder is whether the lock order has a closed walk. */
  lemma VerdictIsClosedWalk(edges: Edges, cap: int, r: seq<Cycle>)
    requires NoSelfLoop(edges) && Verdict(edges, cap, r)
    ensures r != [] <==> cap > 0 && exists p :: ClosedWalk(edges, p)
  {
    if r != [] {
      var c :| IsCycle(edges, c);
      CycleIsWalk(edges, c);
    }
    if cap > 0 && exists p :: ClosedWalk(edges, p) {
      var p :| ClosedWalk(edges, p);
      WalkHasCycle(edges, p);
    }
  }

  ghost function CanonicalOnes(cs: seq<seq<LockId>>): (r: seq<seq<LockId>>)
    ensures forall c :: c in r <==> c in cs && IsCanonical(c)
    ensures Distinct(cs) ==> Distinct(r)
  {
    if cs == [] then []
    else
      var r := CanonicalOnes(cs[..|cs| - 1]);
      var c := cs[|cs| - 1];
      if IsCanonical(c) then r + [c] else r
  }

  /** Every component has a list of its cycles, so the bound on the lengths of its
      cycles can always be stated. */
  lemma ListExists(edges: Edges, adj: Adj, scc: seq<LockId>, u: LockId)
    requires IsAdjOf(edges, adj) && IsComponent(adj, scc) && u in scc
    ensures exists ks :: Lists(edges, u, ks)
  {
    var raw := EmitAll(adj, NodeSet(scc), scc);
    var ks := CanonicalOnes(raw);
    EmitAllOnce(adj, NodeSet(scc), scc);
    forall c ensures c in ks <==> IsCycle(edges, c) && IsCanonical(c) && Together(edges, u, c[0]) {
      RawMembers(edges, adj, scc, c);
      if IsCycle(edges, c) { ComponentSet(edges, adj, scc, u, c[0]); }
    }
    assert Lists(edges, u, ks);
  }
}
