/** When the order in which the backend drains the threads' rings does not change what
    the analyzer finds. Without INIT, held locks, generations and known locks depend only
    on what each thread did, and so does an edge unless it is contested: one thread's last
    word on it is to build it and another's is to destroy an end of it. */
module Schedule {
  import opened Locks
  import opened Events
  import opened Replay
  import opened HeldLocks
  import opened EdgeHistory

  /** The events of one thread, in order. */
  function OfThread(es: seq<Event>, tid: int): seq<Event> {
    if es == [] then []
    else
      var front, e := es[..|es| - 1], es[|es| - 1];
      if e.tid == tid then OfThread(front, tid) + [e] else OfThread(front, tid)
  }

  /** Two merges of the same per-thread streams. */
  ghost predicate SameStreams(a: seq<Event>, b: seq<Event>) {
    forall tid :: OfThread(a, tid) == OfThread(b, tid)
  }

  ghost predicate NoInit(es: seq<Event>) {
    forall i | 0 <= i < |es| :: !ActionOf(es[i]).Init?
  }

  ghost predicate NoDestroy(es: seq<Event>) {
    forall i | 0 <= i < |es| :: !ActionOf(es[i]).Destroy?
  }

  /** Held locks have known addresses. */
  ghost predicate Known(s: GState) {
    forall tid, i | 0 <= i < |StackOf(s, tid)| :: StackOf(s, tid)[i].id.addr in s.addrGen
  }

  // -------------------------------------------------- what one thread does by itself

  /** The effect of an event on its thread's held locks, given the generations. */
  function LocalStep(s0: GState, stk: seq<LockNode>, e: Event): seq<LockNode> {
    match ActionOf(e)
    case Acquire(a, k) => Take(stk, IdOf(s0, a), k, e.tid, e.bt)
    case Unlock(a) => Drop(stk, IdOf(s0, a))
    case CondPost(a) => Take(Drop(stk, IdOf(s0, a)), IdOf(s0, a), Mutex, e.tid, e.bt)
    case _ => stk
  }

  function LocalRun(s0: GState, stk: seq<LockNode>, es: seq<Event>): seq<LockNode> {
    if es == [] then stk else LocalStep(s0, LocalRun(s0, stk, es[..|es| - 1]), es[|es| - 1])
  }

  /** The edges an event builds, given its thread's held locks. */
  predicate LocalBuilds(s0: GState, stk: seq<LockNode>, e: Event, key: EdgeKey) {
    match ActionOf(e)
    case Acquire(a, _) => key.to == IdOf(s0, a) && !Holds(stk, key.to) && key.frm != key.to && Holds(stk, key.frm)
    case Attempt(a, _) => key.to == IdOf(s0, a) && key.frm != key.to && Holds(stk, key.frm)
    case CondPost(a) =>
      var rest := Drop(stk, IdOf(s0, a));
      key.to == IdOf(s0, a) && !Holds(rest, key.to) && key.frm != key.to && Holds(rest, key.frm)
    case _ => false
  }

  /** The event destroys an end of the edge, given the generations. */
  predicate LocalKills(s0: GState, e: Event, key: EdgeKey) {
    match ActionOf(e)
    case Destroy(a) => key.frm == IdOf(s0, a) || key.to == IdOf(s0, a)
    case _ => false
  }

  /** The last word on an edge: none, it was built, or an end of it was destroyed. */
  datatype Fate = Open | Built | Killed

  function NextFate(before: Fate, s0: GState, stk: seq<LockNode>, e: Event, key: EdgeKey): Fate {
    if LocalBuilds(s0, stk, e, key) then Built else if LocalKills(s0, e, key) then Killed else before
  }

  /** A thread's last word on an edge, from its own events alone. */
  function LocalFate(s0: GState, stk: seq<LockNode>, es: seq<Event>, key: EdgeKey): Fate {
    if es == [] then Open
    else
      var front := es[..|es| - 1];
      NextFate(LocalFate(s0, stk, front, key), s0, LocalRun(s0, stk, front), es[|es| - 1], key)
  }

  /** The last word of thread `tid` on an edge. */
  function LastWord(s0: GState, es: seq<Event>, key: EdgeKey, tid: int): Fate {
    LocalFate(s0, StackOf(s0, tid), OfThread(es, tid), key)
  }

  /** The last word on an edge in the whole trace. */
  function Outcome(s0: GState, es: seq<Event>, key: EdgeKey): Fate {
    if es == [] then Open
    else
      var front, e := es[..|es| - 1], es[|es| - 1];
      NextFate(Outcome(s0, front, key), s0, LocalRun(s0, StackOf(s0, e.tid), OfThread(front, e.tid)), e, key)
  }

  /** One thread's last word is to build the edge, another's to destroy an end of it.
      This is a condition on the threads' own streams. */
  ghost predicate Contested(s0: GState, es: seq<Event>, key: EdgeKey) {
    exists u, t :: LastWord(s0, es, key, u) == Built && LastWord(s0, es, key, t) == Killed
  }

  /** The event uses the address, and thereby makes its lock known. */
  predicate UsesAddr(e: Event, addr: int) {
    match ActionOf(e)
    case Acquire(a, _) => a == addr
    case Attempt(a, _) => a == addr
    case CondPost(a) => a == addr
    case _ => false
  }

  predicate LocalUses(es: seq<Event>, addr: int) {
    es != [] && (LocalUses(es[..|es| - 1], addr) || UsesAddr(es[|es| - 1], addr))
  }

  // ----------------------------------------------------------------------- one step

  lemma StepKeepsIds(s: GState, e: Event, addr: int)
    requires !ActionOf(e).Init?
    ensures GenOf(Step(s, e), addr) == GenOf(s, addr)
    ensures addr in Step(s, e).addrGen <==> addr in s.addrGen || UsesAddr(e, addr)
  {
    hide Step;
    StepGen(s, e, addr);
  }

  /** The known locks after an event. */
  lemma MetaAfter(s: GState, e: Event)
    ensures match ActionOf(e)
            case Acquire(a, k) => Step(s, e).meta == Touch(s, a, k, e.tid).meta
            case Attempt(a, k) => Step(s, e).meta == Touch(s, a, k, e.tid).meta
            case CondPost(a) => Step(s, e).meta == Touch(s, a, Mutex, e.tid).meta
            case Destroy(a) => Step(s, e).meta == DestroyStep(s, a).meta
            case Init(k, a, recursive) => Step(s, e).meta == InitStep(s, k, a, recursive, e.tid, e.bt).meta
            case _ => Step(s, e).meta == s.meta
  {
    hide Take, Drop, AddEdges, Holds, StackOf;
  }

  lemma TouchMeta(s: GState, a: int, k: LockKind, tid: int, id: LockId)
    ensures id in Touch(s, a, k, tid).meta <==> id in s.meta || id == IdOf(s, a)
  {
  }

  lemma DestroyMeta(s: GState, a: int, id: LockId)
    ensures id in DestroyStep(s, a).meta <==> id in s.meta
  {
  }

  lemma StepMeta(s: GState, e: Event, id: LockId)
    requires !ActionOf(e).Init?
    ensures id in Step(s, e).meta <==> id in s.meta || (UsesAddr(e, id.addr) && id.gen == GenOf(s, id.addr))
  {
    hide Step, Touch, DestroyStep;
    MetaAfter(s, e);
    match ActionOf(e)
    case Acquire(a, k) => TouchMeta(s, a, k, e.tid, id);
    case Attempt(a, k) => TouchMeta(s, a, k, e.tid, id);
    case CondPost(a) => TouchMeta(s, a, Mutex, e.tid, id);
    case Destroy(a) => DestroyMeta(s, a, id);
    case _ =>
  }

  /** Releasing a lock at an unknown address is void either way. */
  lemma UnknownIsVoid(s: GState, tid: int, a: int)
    requires Known(s)
    ensures var stk := StackOf(s, tid); (if a in s.addrGen then Drop(stk, IdOf(s, a)) else stk) == Drop(stk, IdOf(s, a))
  {
    if a !in s.addrGen { DropAbsent(StackOf(s, tid), IdOf(s, a)); }
  }

  ghost predicate SameIds(s: GState, t: GState) {
    forall addr :: GenOf(s, addr) == GenOf(t, addr)
  }

  lemma StepIsLocal(s0: GState, s: GState, e: Event)
    requires Known(s) && SameIds(s0, s)
    ensures StackStep(s, StackOf(s, e.tid), e) == LocalStep(s0, StackOf(s, e.tid), e)
    ensures forall key :: Builds(s, e, key) <==> LocalBuilds(s0, StackOf(s, e.tid), e, key)
  {
    hide Drop, Take, Known, Holds;
    match ActionOf(e)
    case Unlock(a) => UnknownIsVoid(s, e.tid, a);
    case CondPost(a) => UnknownIsVoid(s, e.tid, a);
    case _ =>
  }

  // ----------------------------------------------------- held locks stay at known addresses

  lemma StackStepKnown(s: GState, stk: seq<LockNode>, e: Event, n: LockNode)
    requires n in StackStep(s, stk, e) && forall m | m in stk :: m.id.addr in s.addrGen
    ensures n.id.addr in s.addrGen || UsesAddr(e, n.id.addr)
  {
    hide Take, Drop;
    match ActionOf(e)
    case Acquire(a, k) => TakeSubset(stk, IdOf(s, a), k, e.tid, e.bt, n);
    case Unlock(a) => if a in s.addrGen { DropSubset(stk, IdOf(s, a), n); }
    case CondPost(a) =>
      var rest := if a in s.addrGen then Drop(stk, IdOf(s, a)) else stk;
      TakeSubset(rest, IdOf(s, a), Mutex, e.tid, e.bt, n);
      if n.id != IdOf(s, a) && a in s.addrGen {
        var m :| m in rest && m.id == n.id;
        DropSubset(stk, IdOf(s, a), m);
      }
    case _ =>
  }

  /** No event forgets an address. */
  lemma StepRemembers(s: GState, e: Event, addr: int)
    ensures addr in s.addrGen || UsesAddr(e, addr) ==> addr in Step(s, e).addrGen
  {
    hide Step;
    StepGen(s, e, addr);
  }

  lemma StepKnown(s: GState, e: Event)
    requires Known(s)
    ensures Known(Step(s, e))
  {
    hide Step, StackStep;
    var t := Step(s, e);
    forall tid, i | 0 <= i < |StackOf(t, tid)| ensures StackOf(t, tid)[i].id.addr in t.addrGen {
      StepStacks(s, e, tid);
      var n := StackOf(t, tid)[i];
      StepRemembers(s, e, n.id.addr);
      if e.tid == tid { StackStepKnown(s, StackOf(s, tid), e, n); }
    }
  }

  lemma {:induction false} RunKnown(es: seq<Event>)
    ensures Known(Run(Empty, es)) && EndsKnown(Run(Empty, es))
  {
    hide Step, Known, EndsKnown;
    if es == [] {
      EmptyKnown();
    } else {
      var s, e := Run(Empty, es[..|es| - 1]), es[|es| - 1];
      RunKnown(es[..|es| - 1]);
      StepKnown(s, e);
      StepEndsKnown(s, e);
    }
  }

  /** Both ends of every edge are at known addresses. */
  ghost predicate EndsKnown(s: GState) {
    forall key | key in s.edges :: key.frm.addr in s.addrGen && key.to.addr in s.addrGen
  }

  lemma StepEndsKnown(s: GState, e: Event)
    requires Known(s) && EndsKnown(s)
    ensures EndsKnown(Step(s, e))
  {
    hide Step, Builds;
    var t := Step(s, e);
    forall key | key in t.edges ensures key.frm.addr in t.addrGen && key.to.addr in t.addrGen {
      EdgeStep(s, e, key);
      StepRemembers(s, e, key.frm.addr);
      StepRemembers(s, e, key.to.addr);
      if Builds(s, e, key) { BuiltEndsKnown(s, e, key); }
    }
  }

  lemma BuiltEndsKnown(s: GState, e: Event, key: EdgeKey)
    requires Known(s) && Builds(s, e, key)
    ensures key.frm.addr in s.addrGen && UsesAddr(e, key.to.addr)
  {
    hide Drop;
    var stk := StackOf(s, e.tid);
    var held := RequestOf(s, e).value.held;
    var i :| 0 <= i < |held| && held[i].id == key.frm;
    if held != stk {
      DropSubset(stk, IdOf(s, key.to.addr), held[i]);
      var m :| m in stk && m.id == key.frm;
    }
  }

  lemma EmptyKnown()
    ensures Known(Empty) && EndsKnown(Empty)
  {
  }

  // --------------------------------------------------------------------- whole runs

  lemma OfThreadLast(es: seq<Event>, tid: int)
    requires es != []
    ensures var front, e := es[..|es| - 1], es[|es| - 1];
            OfThread(es, tid) == if e.tid == tid then OfThread(front, tid) + [e] else OfThread(front, tid)
  {
  }

  lemma LocalLast(s0: GState, stk: seq<LockNode>, front: seq<Event>, e: Event)
    ensures LocalRun(s0, stk, front + [e]) == LocalStep(s0, LocalRun(s0, stk, front), e)
    ensures forall key :: LocalFate(s0, stk, front + [e], key) ==
              NextFate(LocalFate(s0, stk, front, key), s0, LocalRun(s0, stk, front), e, key)
    ensures forall a :: LocalUses(front + [e], a) <==> LocalUses(front, a) || UsesAddr(e, a)
  {
    assert (front + [e])[..|front|] == front;
  }

  /** Along a run without INIT: generations stay, and the held locks
      of each thread are what the thread's own events make of them. */
  lemma {:induction false} RunIsLocal(s0: GState, es: seq<Event>, tid: int)
    requires Known(s0) && NoInit(es)
    ensures var s := Run(s0, es);
            Known(s) && SameIds(s0, s) && StackOf(s, tid) == LocalRun(s0, StackOf(s0, tid), OfThread(es, tid))
  {
    hide Step, Known, LocalStep, StackStep, Builds, LocalBuilds;
    if es != [] {
      var front, e := es[..|es| - 1], es[|es| - 1];
      var s := Run(s0, front);
      RunIsLocal(s0, front, tid);
      StepKnown(s, e);
      forall addr ensures GenOf(Step(s, e), addr) == GenOf(s0, addr) { StepKeepsIds(s, e, addr); }
      StepStacks(s, e, tid);
      OfThreadLast(es, tid);
      StepIsLocal(s0, s, e);
      LocalLast(s0, StackOf(s0, tid), OfThread(front, tid), e);
    }
  }

  ghost predicate SomeUses(es: seq<Event>, addr: int) {
    exists tid :: LocalUses(OfThread(es, tid), addr)
  }

  lemma SomeUsesStep(es: seq<Event>, addr: int)
    requires es != []
    ensures SomeUses(es, addr) <==> SomeUses(es[..|es| - 1], addr) || UsesAddr(es[|es| - 1], addr)
  {
    hide LocalUses, UsesAddr, OfThread;
    var front, e := es[..|es| - 1], es[|es| - 1];
    forall tid
      ensures LocalUses(OfThread(es, tid), addr) <==>
                LocalUses(OfThread(front, tid), addr) || (tid == e.tid && UsesAddr(e, addr))
    {
      OfThreadLast(es, tid);
      LocalLast(Empty, [], OfThread(front, tid), e);
    }
    assert UsesAddr(e, addr) ==> LocalUses(OfThread(es, e.tid), addr);
  }

  /** The known locks and known addresses of a run, thread by thread. */
  lemma {:induction false} RunByThread(s0: GState, es: seq<Event>, id: LockId)
    requires Known(s0) && NoInit(es)
    ensures var s := Run(s0, es);
            && (id.addr in s.addrGen <==> id.addr in s0.addrGen || SomeUses(es, id.addr))
            && (id in s.meta <==> id in s0.meta || (SomeUses(es, id.addr) && id.gen == GenOf(s0, id.addr)))
  {
    hide Step, Known, LocalStep, StackStep, SomeUses, UsesAddr, LocalRun;
    if es == [] {
      NothingUsed(id.addr);
    } else {
      var front, e := es[..|es| - 1], es[|es| - 1];
      var s := Run(s0, front);
      RunByThread(s0, front, id);
      RunIsLocal(s0, front, e.tid);
      StepKeepsIds(s, e, id.addr);
      StepMeta(s, e, id);
      SomeUsesStep(es, id.addr);
    }
  }

  lemma NothingUsed(addr: int)
    ensures !SomeUses([], addr)
  {
  }

  // ---------------------------------------------------------------- the fate of an edge

  /** What an event does to an edge, said with the generations of `s0`. */
  lemma EdgeStepLocal(s0: GState, s: GState, e: Event, key: EdgeKey)
    requires Known(s) && EndsKnown(s) && SameIds(s0, s)
    ensures key in Step(s, e).edges <==>
              LocalBuilds(s0, StackOf(s, e.tid), e, key) || (key in s.edges && !LocalKills(s0, e, key))
  {
    hide Step, Builds, Known, LocalBuilds;
    StepIsLocal(s0, s, e);
    EdgeStep(s, e, key);
  }

  /** An edge is there after a run without INIT exactly if the last word on it was to
      build it, or there was none and it was there before. */
  lemma {:induction false} EdgeByOutcome(s0: GState, es: seq<Event>, key: EdgeKey)
    requires Known(s0) && EndsKnown(s0) && NoInit(es)
    ensures EndsKnown(Run(s0, es))
    ensures var f := Outcome(s0, es, key); key in Run(s0, es).edges <==> f == Built || (f == Open && key in s0.edges)
  {
    hide Step, Known, EndsKnown, LocalBuilds, LocalKills, LocalRun, SameIds;
    if es != [] {
      var front, e := es[..|es| - 1], es[|es| - 1];
      var s := Run(s0, front);
      EdgeByOutcome(s0, front, key);
      RunIsLocal(s0, front, e.tid);
      StepEndsKnown(s, e);
      EdgeStepLocal(s0, s, e, key);
    }
  }

  /** One more event changes the last word of its own thread only. */
  lemma LastWordStep(s0: GState, es: seq<Event>, key: EdgeKey, tid: int)
    requires es != []
    ensures var front, e := es[..|es| - 1], es[|es| - 1];
            LastWord(s0, es, key, tid) ==
              if e.tid != tid then LastWord(s0, front, key, tid)
              else NextFate(LastWord(s0, front, key, tid), s0,
                            LocalRun(s0, StackOf(s0, tid), OfThread(front, tid)), e, key)
  {
    hide LocalFate, NextFate, LocalRun, OfThread;
    var front, e := es[..|es| - 1], es[|es| - 1];
    OfThreadLast(es, tid);
    LocalLast(s0, StackOf(s0, tid), OfThread(front, tid), e);
  }

  /** The last word in the trace is some thread's last word, and there is none only if
      no thread has one. */
  lemma {:induction false} OutcomeIsSomeones(s0: GState, es: seq<Event>, key: EdgeKey) returns (u: int)
    ensures Outcome(s0, es, key) == LastWord(s0, es, key, u)
    ensures Outcome(s0, es, key) == Open ==> forall tid :: LastWord(s0, es, key, tid) == Open
  {
    hide LastWord, LocalRun, LocalBuilds, LocalKills;
    if es == [] {
      u := 0;
      NoWords(s0, key);
    } else {
      var front, e := es[..|es| - 1], es[|es| - 1];
      u := OutcomeIsSomeones(s0, front, key);
      LastWordStep(s0, es, key, u);
      LastWordStep(s0, es, key, e.tid);
      forall tid ensures Outcome(s0, es, key) == Open ==> LastWord(s0, es, key, tid) == Open {
        LastWordStep(s0, es, key, tid);
      }
      if Outcome(s0, es, key) != Outcome(s0, front, key) || u == e.tid { u := e.tid; }
    }
  }

  lemma NoWords(s0: GState, key: EdgeKey)
    ensures forall tid :: LastWord(s0, [], key, tid) == Open
  {
  }

  /** Merges of the same streams agree on an edge that is not contested. */
  lemma UncontestedAgrees(s0: GState, a: seq<Event>, b: seq<Event>, key: EdgeKey)
    requires Known(s0) && EndsKnown(s0) && NoInit(a) && NoInit(b) && SameStreams(a, b) && !Contested(s0, a, key)
    ensures key in Run(s0, a).edges <==> key in Run(s0, b).edges
  {
    hide Known, EndsKnown, LocalFate, OfThread, Outcome, Run;
    EdgeByOutcome(s0, a, key);
    EdgeByOutcome(s0, b, key);
    var u := OutcomeIsSomeones(s0, a, key);
    var t := OutcomeIsSomeones(s0, b, key);
    assert LastWord(s0, b, key, u) == LastWord(s0, a, key, u) && LastWord(s0, a, key, t) == LastWord(s0, b, key, t);
  }

  // -------------------------------------------------- merges that disagree on an edge

  lemma {:induction false} OfThreadConcat(x: seq<Event>, y: seq<Event>, tid: int)
    ensures OfThread(x + y, tid) == OfThread(x, tid) + OfThread(y, tid)
  {
    if y == [] {
      assert x + y == x;
    } else {
      var z := x + y;
      assert z[..|z| - 1] == x + y[..|y| - 1] && z[|z| - 1] == y[|y| - 1];
      OfThreadConcat(x, y[..|y| - 1], tid);
    }
  }

  lemma {:induction false} OfThreadOwn(es: seq<Event>, u: int, tid: int)
    ensures OfThread(OfThread(es, u), tid) == if tid == u then OfThread(es, u) else []
    ensures forall i | 0 <= i < |OfThread(es, u)| :: OfThread(es, u)[i].tid == u
  {
    if es != [] {
      var front, e := es[..|es| - 1], es[|es| - 1];
      OfThreadOwn(front, u, tid);
      if e.tid == u { assert (OfThread(front, u) + [e])[..|OfThread(front, u)|] == OfThread(front, u); }
    }
  }

  /** The events of all threads but two. */
  function Others(es: seq<Event>, u: int, t: int): seq<Event> {
    if es == [] then []
    else
      var e := es[|es| - 1];
      Others(es[..|es| - 1], u, t) + if e.tid == u || e.tid == t then [] else [e]
  }

  lemma {:induction false} OfThreadOthers(es: seq<Event>, u: int, t: int, tid: int)
    ensures OfThread(Others(es, u, t), tid) == if tid == u || tid == t then [] else OfThread(es, tid)
  {
    if es != [] {
      var front, e := es[..|es| - 1], es[|es| - 1];
      OfThreadOthers(front, u, t, tid);
      if e.tid == u || e.tid == t {
        assert Others(es, u, t) == Others(front, u, t);
      } else {
        OfThreadSnoc(Others(front, u, t), e, tid);
      }
    }
  }

  /** The merge in which `t` comes last and `u` before it. */
  function LastTwo(es: seq<Event>, u: int, t: int): seq<Event> {
    Others(es, u, t) + OfThread(es, u) + OfThread(es, t)
  }

  lemma LastTwoIsMerge(es: seq<Event>, u: int, t: int)
    requires u != t
    ensures SameStreams(es, LastTwo(es, u, t))
  {
    hide OfThread, Others;
    forall tid ensures OfThread(es, tid) == OfThread(LastTwo(es, u, t), tid) {
      OfThreadConcat(Others(es, u, t) + OfThread(es, u), OfThread(es, t), tid);
      OfThreadConcat(Others(es, u, t), OfThread(es, u), tid);
      OfThreadOthers(es, u, t, tid);
      OfThreadOwn(es, u, tid);
      OfThreadOwn(es, t, tid);
    }
  }

  lemma OfThreadSnoc(front: seq<Event>, e: Event, tid: int)
    ensures OfThread(front + [e], tid) == if e.tid == tid then OfThread(front, tid) + [e] else OfThread(front, tid)
  {
    assert (front + [e])[..|front|] == front;
  }

  lemma OutcomeSnoc(s0: GState, front: seq<Event>, e: Event, key: EdgeKey)
    ensures Outcome(s0, front + [e], key) ==
              NextFate(Outcome(s0, front, key), s0, LocalRun(s0, StackOf(s0, e.tid), OfThread(front, e.tid)), e, key)
  {
    assert (front + [e])[..|front|] == front;
  }

  /** If a thread comes last with all its events, its last word decides. */
  lemma {:induction false} LastDecides(s0: GState, front: seq<Event>, own: seq<Event>, t: int, key: EdgeKey)
    requires OfThread(front, t) == [] && forall i | 0 <= i < |own| :: own[i].tid == t
    ensures OfThread(front + own, t) == own
    ensures var w := LocalFate(s0, StackOf(s0, t), own, key);
            Outcome(s0, front + own, key) == if w == Open then Outcome(s0, front, key) else w
  {
    hide LocalRun, LocalBuilds, LocalKills, StackOf, OfThread, Outcome;
    if own == [] {
      assert front + own == front;
    } else {
      var less, e := own[..|own| - 1], own[|own| - 1];
      LastDecides(s0, front, less, t, key);
      assert front + own == (front + less) + [e];
      OfThreadSnoc(front + less, e, t);
      OutcomeSnoc(s0, front + less, e, key);
    }
  }

  lemma LastTwoDecides(s0: GState, es: seq<Event>, u: int, t: int, key: EdgeKey)
    requires u != t && LastWord(s0, es, key, t) != Open
    ensures Outcome(s0, LastTwo(es, u, t), key) == LastWord(s0, es, key, t)
  {
    hide OfThread, Others, Outcome, LocalFate;
    OfThreadConcat(Others(es, u, t), OfThread(es, u), t);
    OfThreadOthers(es, u, t, t);
    OfThreadOwn(es, u, t);
    OfThreadOwn(es, t, t);
    LastDecides(s0, Others(es, u, t) + OfThread(es, u), OfThread(es, t), t, key);
  }

  lemma {:induction false} EventOfThread(es: seq<Event>, i: nat)
    requires i < |es|
    ensures es[i] in OfThread(es, es[i].tid)
  {
    if i < |es| - 1 { EventOfThread(es[..|es| - 1], i); }
  }

  lemma {:induction false} ThreadEventIn(es: seq<Event>, tid: int, e: Event)
    requires e in OfThread(es, tid)
    ensures e in es
  {
    if es != [] && !(es[|es| - 1].tid == tid && es[|es| - 1] == e) {
      ThreadEventIn(es[..|es| - 1], tid, e);
    }
  }

  lemma SameStreamsNoInit(a: seq<Event>, b: seq<Event>)
    requires SameStreams(a, b) && NoInit(a)
    ensures NoInit(b)
  {
    hide OfThread;
    forall i | 0 <= i < |b| ensures !ActionOf(b[i]).Init? {
      EventOfThread(b, i);
      ThreadEventIn(a, b[i].tid, b[i]);
    }
  }

  /** A contested edge has two merges that disagree on it. */
  lemma ContestedDisagrees(s0: GState, es: seq<Event>, key: EdgeKey) returns (a: seq<Event>, b: seq<Event>)
    requires Known(s0) && EndsKnown(s0) && NoInit(es) && Contested(s0, es, key)
    ensures SameStreams(es, a) && SameStreams(es, b)
    ensures key in Run(s0, a).edges && key !in Run(s0, b).edges
  {
    hide Known, EndsKnown, LastWord, SameStreams, Outcome, Run, LastTwo, NoInit;
    var u, t :| LastWord(s0, es, key, u) == Built && LastWord(s0, es, key, t) == Killed;
    a, b := LastTwo(es, t, u), LastTwo(es, u, t);
    LastTwoIsMerge(es, t, u);
    LastTwoIsMerge(es, u, t);
    SameStreamsNoInit(es, a);
    SameStreamsNoInit(es, b);
    LastTwoDecides(s0, es, t, u, key);
    LastTwoDecides(s0, es, u, t, key);
    EdgeByOutcome(s0, a, key);
    EdgeByOutcome(s0, b, key);
  }

  /** The merges of these streams agree on the edge. */
  ghost predicate MergesAgree(s0: GState, es: seq<Event>, key: EdgeKey) {
    forall b :: SameStreams(es, b) ==> (key in Run(s0, b).edges <==> key in Run(s0, es).edges)
  }

  /** Exactly when the schedule decides on an edge: after any history, all merges of
      streams without INIT agree on it if and only if it is not contested. */
  lemma EdgeIsScheduled(history: seq<Event>, es: seq<Event>, key: EdgeKey)
    requires NoInit(es)
    ensures var s0 := Run(Empty, history); MergesAgree(s0, es, key) <==> !Contested(s0, es, key)
  {
    hide Known, EndsKnown, Contested, SameStreams, Run, NoInit;
    var s0 := Run(Empty, history);
    RunKnown(history);
    if Contested(s0, es, key) {
      var a, b := ContestedDisagrees(s0, es, key);
    } else {
      forall b | SameStreams(es, b) ensures key in Run(s0, b).edges <==> key in Run(s0, es).edges {
        SameStreamsNoInit(es, b);
        UncontestedAgrees(s0, es, b, key);
      }
    }
  }

  // ------------------------------------------------------------------- whole graphs

  /** Everything the verdict of the analyzer depends on. */
  ghost predicate SameGraph(s: GState, t: GState) {
    && (forall tid :: StackOf(s, tid) == StackOf(t, tid))
    && s.edges.Keys == t.edges.Keys && s.meta.Keys == t.meta.Keys && s.addrGen == t.addrGen
  }

  ghost predicate NoneContested(s0: GState, es: seq<Event>) {
    forall key :: !Contested(s0, es, key)
  }

  /** Schedule independence: after any history, two merges of the same streams without
      INIT and without a contested edge lead to the same held locks, edges, known locks
      and generations. */
  lemma ScheduleIndependence(history: seq<Event>, a: seq<Event>, b: seq<Event>)
    requires NoInit(a) && SameStreams(a, b) && NoneContested(Run(Empty, history), a)
    ensures var s0 := Run(Empty, history); SameGraph(Run(s0, a), Run(s0, b))
  {
    hide Known, EndsKnown, LocalRun, LocalUses, OfThread, Contested;
    var s0 := Run(Empty, history);
    RunKnown(history);
    SameStreamsNoInit(a, b);
    var s, t := Run(s0, a), Run(s0, b);
    forall tid ensures StackOf(s, tid) == StackOf(t, tid) {
      RunIsLocal(s0, a, tid);
      RunIsLocal(s0, b, tid);
    }
    forall key ensures key in s.edges <==> key in t.edges { UncontestedAgrees(s0, a, b, key); }
    forall id ensures id in s.meta <==> id in t.meta {
      RunByThread(s0, a, id);
      RunByThread(s0, b, id);
    }
    forall addr
      ensures (addr in s.addrGen <==> addr in t.addrGen) && (addr in s.addrGen ==> s.addrGen[addr] == t.addrGen[addr])
    {
      RunByThread(s0, a, LockId(addr, 0));
      RunByThread(s0, b, LockId(addr, 0));
      RunIsLocal(s0, a, 0);
      RunIsLocal(s0, b, 0);
      assert GenOf(s, addr) == GenOf(s0, addr) == GenOf(t, addr);
    }
  }

  /** And exactly then: all merges lead to the same graph if and only if no edge is
      contested. */
  lemma ScheduleIndependenceIsExact(history: seq<Event>, es: seq<Event>)
    requires NoInit(es)
    ensures var s0 := Run(Empty, history);
            NoneContested(s0, es) <==> forall b :: SameStreams(es, b) ==> SameGraph(Run(s0, es), Run(s0, b))
  {
    hide Contested, SameStreams, Run, NoInit;
    var s0 := Run(Empty, history);
    if NoneContested(s0, es) {
      forall b | SameStreams(es, b) ensures SameGraph(Run(s0, es), Run(s0, b)) { ScheduleIndependence(history, es, b); }
    } else {
      var key :| Contested(s0, es, key);
      RunKnown(history);
      var a, b := ContestedDisagrees(s0, es, key);
      assert !SameGraph(Run(s0, es), Run(s0, a)) || !SameGraph(Run(s0, es), Run(s0, b));
    }
  }

  /** Without DESTROY no edge is contested. */
  lemma NoDestroyNoContest(s0: GState, es: seq<Event>)
    requires NoDestroy(es)
    ensures NoneContested(s0, es)
  {
    hide LocalFate, OfThread;
    forall key, t ensures LastWord(s0, es, key, t) != Killed {
      forall i | 0 <= i < |OfThread(es, t)| ensures !ActionOf(OfThread(es, t)[i]).Destroy? {
        ThreadEventIn(es, t, OfThread(es, t)[i]);
      }
      NeverKilled(s0, StackOf(s0, t), OfThread(es, t), key);
    }
  }

  lemma {:induction false} NeverKilled(s0: GState, stk: seq<LockNode>, es: seq<Event>, key: EdgeKey)
    requires NoDestroy(es)
    ensures LocalFate(s0, stk, es, key) != Killed
  {
    hide LocalRun, LocalBuilds;
    if es != [] { NeverKilled(s0, stk, es[..|es| - 1], key); }
  }

  /** From the beginning of a trace, an uncontested edge is there exactly if it is some
      thread's last word to build it. */
  lemma EdgeByStreams(es: seq<Event>, key: EdgeKey)
    requires NoInit(es) && !Contested(Empty, es, key)
    ensures key in Run(Empty, es).edges <==> exists u :: LastWord(Empty, es, key, u) == Built
  {
    hide LastWord, Outcome, Known, EndsKnown;
    EmptyKnown();
    EdgeByOutcome(Empty, es, key);
    var u := OutcomeIsSomeones(Empty, es, key);
  }

  // ------------------------------------------------------- why lifecycle is excluded

  const LOCK_A := Event(0, 1, LOCK_POST, MUTEX, 100, 0, [])
  const LOCK_B := Event(0, 1, LOCK_POST, MUTEX, 200, 0, [])
  const DESTROY_A := Event(0, 2, DESTROY, MUTEX, 100, 0, [])

  lemma RunThree(x: Event, y: Event, z: Event)
    ensures Run(Empty, [x, y, z]) == Step(Step(Step(Empty, x), y), z)
  {
    hide Step;
    var one, two, three := [x], [x, y], [x, y, z];
    assert three[..|three| - 1] == two && two[..|two| - 1] == one && one[..|one| - 1] == [];
    assert Run(Empty, one) == Step(Empty, x);
    assert Run(Empty, two) == Step(Run(Empty, one), y);
  }

  lemma OfThreadThree(x: Event, y: Event, z: Event, tid: int)
    ensures OfThread([x, y, z], tid) ==
      (if x.tid == tid then [x] else []) + (if y.tid == tid then [y] else []) + (if z.tid == tid then [z] else [])
  {
    var one, two, three := [x], [x, y], [x, y, z];
    assert three[..|three| - 1] == two && two[..|two| - 1] == one && one[..|one| - 1] == [];
    assert OfThread(one, tid) == if x.tid == tid then [x] else [];
    assert OfThread(two, tid) == (if x.tid == tid then [x] else []) + (if y.tid == tid then [y] else []);
  }

  const A_TO_B := EdgeKey(LockId(100, 1), LockId(200, 1))

  lemma AfterLockA()
    ensures var s := Step(Empty, LOCK_A);
            && s.edges == map[] && s.addrGen == map[100 := 1]
            && StackOf(s, 1) == [LockNode(LockId(100, 1), Mutex, 1, [], 1)]
  {
  }

  lemma AfterLockB()
    ensures var t := Step(Step(Empty, LOCK_A), LOCK_B);
            A_TO_B in t.edges && GenOf(t, 100) == 1 && 100 in t.addrGen
  {
    hide Step;
    AfterLockA();
    var s := Step(Empty, LOCK_A);
    assert StackOf(s, 1)[0].id == A_TO_B.frm;
    assert Holds(StackOf(s, 1), A_TO_B.frm) && !Holds(StackOf(s, 1), A_TO_B.to);
    EdgeStep(s, LOCK_B, A_TO_B);
    StepGen(s, LOCK_B, 100);
  }

  /** With a DESTROY in the streams the merge matters: drained last it removes the
      edge from A to B, drained first it does nothing. */
  lemma DestroyOrderMatters()
    ensures var last, first := [LOCK_A, LOCK_B, DESTROY_A], [DESTROY_A, LOCK_A, LOCK_B];
            SameStreams(last, first) && Run(Empty, last).edges.Keys != Run(Empty, first).edges.Keys
  {
    hide Run, OfThread, Builds;
    var last, first := [LOCK_A, LOCK_B, DESTROY_A], [DESTROY_A, LOCK_A, LOCK_B];
    forall tid ensures OfThread(last, tid) == OfThread(first, tid) {
      OfThreadThree(LOCK_A, LOCK_B, DESTROY_A, tid);
      OfThreadThree(DESTROY_A, LOCK_A, LOCK_B, tid);
    }
    RunThree(LOCK_A, LOCK_B, DESTROY_A);
    RunThree(DESTROY_A, LOCK_A, LOCK_B);
    AfterLockB();
    DestroyFirst();
    var t := Step(Step(Empty, LOCK_A), LOCK_B);
    EdgeStep(t, DESTROY_A, A_TO_B);
    DestroyBuildsNothing(t);
    assert A_TO_B in Run(Empty, first).edges && A_TO_B !in Run(Empty, last).edges;
  }

  lemma DestroyFirst()
    ensures Step(Empty, DESTROY_A) == Empty
  {
  }

  lemma DestroyBuildsNothing(t: GState)
    ensures !Builds(t, DESTROY_A, A_TO_B)
  {
  }
}
