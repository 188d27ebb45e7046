/** Time stamps and backtraces do not decide anything: a replay of the same events with
    other stamps and frames has the same held-lock counts, edges and generations. */
module Stamps {
  import opened Locks
  import opened Events
  import opened Replay
  import opened HeldLocks
  import opened EdgeHistory
  import opened Schedule

  /** What is left of an event: its thread, operation, kind, address and return code. */
  function Bare(e: Event): Event {
    e.(ts := 0, bt := [])
  }

  function BareAll(es: seq<Event>): (r: seq<Event>)
    ensures |r| == |es| && forall i | 0 <= i < |es| :: r[i] == Bare(es[i])
  {
    if es == [] then [] else BareAll(es[..|es| - 1]) + [Bare(es[|es| - 1])]
  }

  lemma BareAction(e: Event)
    ensures ActionOf(Bare(e)) == ActionOf(e)
    ensures Acquires(Bare(e)) == Acquires(e) && Fails(Bare(e)) == Fails(e) && Returns(Bare(e)) == Returns(e)
    ensures Target(Bare(e)) == Target(e)
  {
  }

  lemma BarePrefix(es: seq<Event>, i: nat)
    requires i <= |es|
    ensures BareAll(es)[..i] == BareAll(es[..i])
  {
  }

  lemma {:induction false} BareGens(es: seq<Event>, addr: int)
    ensures Gen(BareAll(es), addr) == Gen(es, addr)
  {
    hide BareAll;
    if es != [] {
      BareGens(es[..|es| - 1], addr);
      BareAction(es[|es| - 1]);
      BarePrefix(es, |es| - 1);
      SameLastGen(BareAll(es), es, addr);
    }
  }

  lemma SameLastGen(a: seq<Event>, b: seq<Event>, addr: int)
    requires |a| == |b| > 0 && Bare(a[|a| - 1]) == Bare(b[|b| - 1])
    requires Gen(a[..|a| - 1], addr) == Gen(b[..|b| - 1], addr)
    ensures Gen(a, addr) == Gen(b, addr)
  {
  }

  /** The counters that explain the held stacks. */
  lemma {:induction false} BareCounts(es: seq<Event>, tid: int, id: LockId)
    ensures Count(BareAll(es), tid, id) == Count(es, tid, id)
  {
    hide BareAll;
    if es != [] {
      BareCounts(es[..|es| - 1], tid, id);
      BareGens(es[..|es| - 1], id.addr);
      BareAction(es[|es| - 1]);
      BarePrefix(es, |es| - 1);
      SameLastCount(BareAll(es), es, tid, id);
    }
  }

  lemma SameLastCount(a: seq<Event>, b: seq<Event>, tid: int, id: LockId)
    requires |a| == |b| > 0 && Bare(a[|a| - 1]) == Bare(b[|b| - 1])
    requires Gen(a[..|a| - 1], id.addr) == Gen(b[..|b| - 1], id.addr)
    requires Count(a[..|a| - 1], tid, id) == Count(b[..|b| - 1], tid, id)
    ensures Count(a, tid, id) == Count(b, tid, id)
  {
    hide Gen, Means;
  }

  lemma BareBuilds(es: seq<Event>, key: EdgeKey, i: int)
    ensures BuiltAt(BareAll(es), key, i) <==> BuiltAt(es, key, i)
  {
    hide Builds, Gen, Count, Acquires, Fails, Returns, Target, Means, BareAll;
    if 0 <= i < |es| {
      var bare := BareAll(es);
      BuiltByCounts(bare, key, i);
      BuiltByCounts(es, key, i);
      BarePrefix(es, i);
      BareAction(es[i]);
      BareCounts(es[..i], es[i].tid, key.frm);
      BareCounts(es[..i], es[i].tid, key.to);
      BareGens(es[..i], Target(es[i]));
    }
  }

  lemma BareKills(es: seq<Event>, key: EdgeKey, i: int)
    ensures KilledAt(BareAll(es), key, i) <==> KilledAt(es, key, i)
  {
    hide Gen, Run, ActionOf;
    if 0 <= i < |es| && ActionOf(es[i]).Destroy? {
      BarePrefix(es, i);
      BareGens(es[..i], ActionOf(es[i]).addr);
      GenIsCurrent(es[..i], ActionOf(es[i]).addr);
      GenIsCurrent(BareAll(es[..i]), ActionOf(es[i]).addr);
    }
    if 0 <= i < |es| { BareAction(es[i]); }
  }

  /** The edges of a replay do not depend on stamps and frames. */
  lemma BareEdges(es: seq<Event>)
    ensures Run(Empty, BareAll(es)).edges.Keys == Run(Empty, es).edges.Keys
  {
    hide BuiltAt, KilledAt, Run;
    var bare := BareAll(es);
    forall key ensures key in Run(Empty, bare).edges <==> key in Run(Empty, es).edges {
      EarliestWitness(bare, key);
      EarliestWitness(es, key);
      forall i ensures Alive(bare, key, i) <==> Alive(es, key, i) {
        forall j
          ensures BuiltAt(bare, key, j) <==> BuiltAt(es, key, j)
          ensures KilledAt(bare, key, j) <==> KilledAt(es, key, j)
        {
          BareBuilds(es, key, j);
          BareKills(es, key, j);
        }
      }
    }
  }

  /** Traces that differ in stamps and frames only lead to the same edges, generations
      and held-lock counts. */
  lemma StampsDoNotMatter(a: seq<Event>, b: seq<Event>)
    requires BareAll(a) == BareAll(b)
    ensures var s, t := Run(Empty, a), Run(Empty, b);
            && s.edges.Keys == t.edges.Keys && s.addrGen == t.addrGen
            && forall tid, id :: HoldOf(StackOf(s, tid), id) == HoldOf(StackOf(t, tid), id)
  {
    hide Run, Gen, Count, HoldOf, Holds, WellHeld;
    BareEdges(a);
    BareEdges(b);
    var s, t := Run(Empty, a), Run(Empty, b);
    forall addr
      ensures (addr in s.addrGen <==> addr in t.addrGen) && (addr in s.addrGen ==> s.addrGen[addr] == t.addrGen[addr])
    {
      GenIsCurrent(a, addr);
      GenIsCurrent(b, addr);
      BareGens(a, addr);
      BareGens(b, addr);
    }
    forall tid, id ensures HoldOf(StackOf(s, tid), id) == HoldOf(StackOf(t, tid), id) {
      HeldIsCounted(a, tid, id);
      HeldIsCounted(b, tid, id);
      BareCounts(a, tid, id);
      BareCounts(b, tid, id);
    }
  }

  lemma {:induction false} BareOfThread(es: seq<Event>, tid: int)
    ensures OfThread(BareAll(es), tid) == BareAll(OfThread(es, tid))
  {
    if es != [] {
      var front, e := es[..|es| - 1], es[|es| - 1];
      BareOfThread(front, tid);
      BarePrefix(es, |front|);
      if e.tid == tid { BareSnoc(OfThread(front, tid), e); }
    }
  }

  lemma BareSnoc(es: seq<Event>, e: Event)
    ensures BareAll(es + [e]) == BareAll(es) + [Bare(e)]
  {
    assert (es + [e])[..|es|] == es;
  }
}
