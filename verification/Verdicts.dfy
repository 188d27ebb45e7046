/** What the analyzer's verdict says about the traced program. */
module Verdicts {
  import opened Locks
  import opened Events
  import opened Replay
  import opened HeldLocks
  import opened EdgeHistory
  import opened Schedule
  import opened Witnesses
  import opened CycleSearch
  import opened FindCycles
  import opened LockGraph

  // ------------------------------------------------------------- edges of a replay

  /** A replay never relates a lock to itself. */
  lemma ReplayNoSelfLoop(es: seq<Event>)
    ensures NoSelfLoop(Run(Empty, es).edges)
  {
    forall u ensures EdgeKey(u, u) !in Run(Empty, es).edges {
      EarliestWitness(es, EdgeKey(u, u));
    }
  }

  // --------------------------------------------------------------- lock hierarchies

  /** Every edge leads to a higher rank. */
  ghost predicate Ranked(edges: Edges, rank: LockId -> int) {
    forall key | key in edges :: rank(key.frm) < rank(key.to)
  }

  lemma {:induction false} RankGrows(edges: Edges, rank: LockId -> int, p: seq<LockId>, i: nat)
    requires Ranked(edges, rank) && 0 < i < |p| && forall j | 0 <= j < |p| - 1 :: EdgeKey(p[j], p[j + 1]) in edges
    ensures rank(p[0]) < rank(p[i])
  {
    assert EdgeKey(p[i - 1], p[i]) in edges;
    if i > 1 { RankGrows(edges, rank, p, i - 1); }
  }

  lemma RankedHasNoWalk(edges: Edges, rank: LockId -> int, p: seq<LockId>)
    requires Ranked(edges, rank)
    ensures !ClosedWalk(edges, p)
  {
    if ClosedWalk(edges, p) { RankGrows(edges, rank, p, |p| - 1); }
  }

  /** The locks from which `u` is reached. */
  ghost function Below(edges: Edges, u: LockId): set<LockId> {
    set key | key in edges && LeadsTo(edges, key.frm, u) :: key.frm
  }

  ghost predicate LeadsTo(edges: Edges, u: LockId, v: LockId) {
    exists p :: |p| >= 2 && Leads(edges, p, u, v)
  }

  lemma LeadsOn(edges: Edges, u: LockId, v: LockId, w: LockId)
    requires LeadsTo(edges, u, v) && EdgeKey(v, w) in edges
    ensures LeadsTo(edges, u, w)
  {
    var p :| |p| >= 2 && Leads(edges, p, u, v);
    var q := p + [w];
    forall i | 0 <= i < |q| - 1 ensures EdgeKey(q[i], q[i + 1]) in edges {
      if i < |p| - 1 { assert EdgeKey(p[i], p[i + 1]) in edges; }
    }
    assert Leads(edges, q, u, w);
  }

  /** Along an edge the set of locks below grows strictly, unless there is a walk
      back. */
  lemma BelowGrows(edges: Edges, key: EdgeKey)
    requires key in edges && forall p :: !ClosedWalk(edges, p)
    ensures Below(edges, key.frm) < Below(edges, key.to)
  {
    forall x | x in Below(edges, key.frm) ensures x in Below(edges, key.to) {
      LeadsOn(edges, x, key.frm, key.to);
    }
    assert Leads(edges, [key.frm, key.to], key.frm, key.to);
    assert key.frm in Below(edges, key.to);
    if key.frm in Below(edges, key.frm) {
      var p :| |p| >= 2 && Leads(edges, p, key.frm, key.frm);
      assert ClosedWalk(edges, p);
    }
  }

  lemma {:induction false} SmallerSet<T>(a: set<T>, b: set<T>)
    requires a < b
    ensures |a| < |b|
    decreases a
  {
    if a != {} {
      var x :| x in a;
      SmallerSet(a - {x}, b - {x});
    }
  }

  /** Silence means a lock hierarchy, and a lock hierarchy means silence: the
      finder reports nothing exactly when the locks can be ranked so that every
      edge goes up. */
  lemma SilentIffRanked(edges: Edges, cap: int, r: seq<Cycle>)
    requires NoSelfLoop(edges) && Verdict(edges, cap, r) && cap > 0
    ensures r == [] <==> exists rank :: Ranked(edges, rank)
  {
    VerdictIsClosedWalk(edges, cap, r);
    if r == [] {
      var rank: LockId -> int := u => |Below(edges, u)|;
      forall key | key in edges ensures rank(key.frm) < rank(key.to) {
        BelowGrows(edges, key);
        SmallerSet(Below(edges, key.frm), Below(edges, key.to));
      }
      assert Ranked(edges, rank);
    } else if exists rank :: Ranked(edges, rank) {
      var rank :| Ranked(edges, rank);
      var p :| ClosedWalk(edges, p);
      RankedHasNoWalk(edges, rank, p);
    }
  }

  /** A program that follows a lock hierarchy is reported clean: if every request
      ranks above all other locks its thread holds, nothing is found, for every
      trace and every cap. */
  lemma HierarchyIsSilent(es: seq<Event>, rank: LockId -> int, cap: int, r: seq<Cycle>)
    requires forall key, i | BuiltAt(es, key, i) :: rank(key.frm) < rank(key.to)
    requires Verdict(Run(Empty, es).edges, cap, r)
    ensures r == []
  {
    hide BuiltAt, Verdict, Run;
    var edges := Run(Empty, es).edges;
    forall key | key in edges ensures rank(key.frm) < rank(key.to) {
      EarliestWitness(es, key);
      var i :| Alive(es, key, i);
    }
    ReplayNoSelfLoop(es);
    VerdictIsClosedWalk(edges, cap, r);
    if r != [] {
      var p :| ClosedWalk(edges, p);
      RankedHasNoWalk(edges, rank, p);
    }
  }

  // ------------------------------------------------------------------ end to end

  /** Locks that were requested in a ring: for each of them some thread asked for
      the next one while holding it. */
  ghost predicate RequestRing(es: seq<Event>, c: seq<LockId>) {
    |c| >= 2 && Distinct(c) && forall i: nat | i < |c| :: Requested(es, EdgeKey(c[i], NextNode(c, i)))
  }

  /** Some thread asked for `key.to` while its counts say that it held `key.frm`. */
  ghost predicate Requested(es: seq<Event>, key: EdgeKey) {
    exists i :: RequestedAt(es, key, i)
  }

  /** Without DESTROY, the edges are the requests. */
  lemma EdgesAreRequested(es: seq<Event>, key: EdgeKey)
    requires NoDestroy(es)
    ensures key in Run(Empty, es).edges <==> Requested(es, key)
  {
    hide RequestedAt, Run, DestroyedAt, NoDestroy;
    EdgeIsExplained(es, key);
    forall j ensures !DestroyedAt(es, key, j) { NothingDestroyed(es, key, j); }
    if Requested(es, key) {
      var i :| RequestedAt(es, key, i);
      assert Stands(es, key, i);
    }
  }

  lemma NothingDestroyed(es: seq<Event>, key: EdgeKey, j: int)
    requires NoDestroy(es)
    ensures !DestroyedAt(es, key, j)
  {
    if 0 <= j < |es| { ActionIs(es[j]); }
  }

  /** The verdict on a trace without DESTROY: something is reported if and only if
      locks were requested in a ring. */
  lemma VerdictIsRequestRing(es: seq<Event>, cap: int, r: seq<Cycle>)
    requires NoDestroy(es) && Verdict(Run(Empty, es).edges, cap, r) && cap > 0
    ensures r != [] <==> exists c :: RequestRing(es, c)
  {
    hide Run, Requested;
    var edges := Run(Empty, es).edges;
    forall key ensures key in edges <==> Requested(es, key) { EdgesAreRequested(es, key); }
    forall c ensures IsCycle(edges, c) <==> RequestRing(es, c) {
      if IsCycle(edges, c) || RequestRing(es, c) {
        assert forall i: nat | i < |c| ::
          EdgeKey(c[i], NextNode(c, i)) in edges <==> Requested(es, EdgeKey(c[i], NextNode(c, i)));
      }
    }
  }

  /** Equal edge keys give equal verdicts. */
  lemma VerdictNeedsKeysOnly(a: Edges, b: Edges, capA: int, capB: int, ra: seq<Cycle>, rb: seq<Cycle>)
    requires a.Keys == b.Keys && capA > 0 && capB > 0 && Verdict(a, capA, ra) && Verdict(b, capB, rb)
    ensures ra != [] <==> rb != []
  {
    forall c ensures IsCycle(a, c) <==> IsCycle(b, c) {
      assert forall i: nat | i < |c| :: EdgeKey(c[i], NextNode(c, i)) in a <==> EdgeKey(c[i], NextNode(c, i)) in b;
    }
  }

  /** The backend's scan order cannot change the verdict on streams without INIT and
      without a contested edge. */
  lemma ScheduleKeepsVerdict(history: seq<Event>, a: seq<Event>, b: seq<Event>, capA: int, capB: int, ra: seq<Cycle>,
                             rb: seq<Cycle>)
    requires NoInit(a) && NoneContested(Run(Empty, history), a) && SameStreams(a, b) && capA > 0 && capB > 0
    requires Verdict(Run(Run(Empty, history), a).edges, capA, ra)
    requires Verdict(Run(Run(Empty, history), b).edges, capB, rb)
    ensures ra != [] <==> rb != []
  {
    hide Verdict, NoInit, NoneContested, SameStreams, Run;
    ScheduleIndependence(history, a, b);
    VerdictNeedsKeysOnly(Run(Run(Empty, history), a).edges, Run(Run(Empty, history), b).edges, capA, capB, ra, rb);
  }

  /** The analyzer on a trace: replay, then search. */
  method Analyze(events: seq<Event>, cap: int) returns (r: seq<Cycle>)
    ensures var edges := Run(Empty, events).edges;
            && Sound(edges, r) && AllWitnessed(edges, r) && Complete(edges, cap, r)
            && Verdict(edges, cap, r) && EachComponent(edges, cap, r)
  {
    hide Sound, AllWitnessed, Complete, Verdict, EachComponent, Run;
    var g := new Graph();
    g.ReplayAll(events);
    r := FindAllCycles(g.edges, cap);
  }
}
