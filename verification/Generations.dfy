/** Reuse of addresses: when a lock is destroyed and its address gets a new lock. */
module Generations {
  import opened Locks
  import opened Events
  import opened Replay
  import opened HeldLocks
  import opened EdgeHistory
  import opened Schedule

  /** No edge and no held stack mentions the lock. */
  ghost predicate Gone(s: GState, id: LockId) {
    && (forall key | key in s.edges :: key.frm != id && key.to != id)
    && (forall tid :: !Holds(StackOf(s, tid), id))
  }

  /** The address of the lock has moved on to a later generation. */
  predicate Retired(s: GState, id: LockId) {
    id.addr in s.addrGen && s.addrGen[id.addr] > id.gen
  }

  /** The event neither uses the address nor begins or ends a lock there. */
  predicate Untouched(e: Event, addr: int) {
    match ActionOf(e)
    case Init(_, a, _) => a != addr
    case Destroy(a) => a != addr
    case _ => !UsesAddr(e, addr)
  }

  /** What is gone comes back only by a use that means this lock. */
  lemma GoneStays(s: GState, e: Event, id: LockId)
    requires Gone(s, id) && (UsesAddr(e, id.addr) ==> IdOf(s, id.addr) != id)
    ensures Gone(Step(s, e), id)
  {
    hide Step, StackStep, Take, Drop, WellHeld;
    var t := Step(s, e);
    forall key | key in t.edges ensures key.frm != id && key.to != id {
      EdgeStep(s, e, key);
      if key !in s.edges { GoneBuildsNot(s, e, key, id); }
    }
    forall tid ensures !Holds(StackOf(t, tid), id) {
      StepStacks(s, e, tid);
      if e.tid == tid && Holds(StackOf(t, tid), id) {
        var stk := StackOf(s, tid);
        var i :| 0 <= i < |StackOf(t, tid)| && StackOf(t, tid)[i].id == id;
        OnlyUsesAdd(s, stk, e, StackOf(t, tid)[i]);
      }
    }
  }

  lemma GoneBuildsNot(s: GState, e: Event, key: EdgeKey, id: LockId)
    requires Builds(s, e, key) && !Holds(StackOf(s, e.tid), id) && (UsesAddr(e, id.addr) ==> IdOf(s, id.addr) != id)
    ensures key.frm != id && key.to != id
  {
    hide Drop;
    match ActionOf(e)
    case CondPost(a) =>
      var stk := StackOf(s, e.tid);
      var rest := if a in s.addrGen then Drop(stk, IdOf(s, a)) else stk;
      var i :| 0 <= i < |rest| && rest[i].id == key.frm;
      if a in s.addrGen {
        DropSubset(stk, IdOf(s, a), rest[i]);
        var m :| m in stk && m.id == key.frm;
        assert Holds(stk, key.frm) by { var j :| 0 <= j < |stk| && stk[j] == m; }
      }
    case _ =>
  }

  /** An entry after an event was there before or is for the lock that was used. */
  lemma OnlyUsesAdd(s: GState, stk: seq<LockNode>, e: Event, n: LockNode)
    requires n in StackStep(s, stk, e)
    ensures Holds(stk, n.id) || (UsesAddr(e, n.id.addr) && n.id == IdOf(s, n.id.addr))
  {
    hide Take, Drop;
    match ActionOf(e)
    case Acquire(a, k) =>
      TakeSubset(stk, IdOf(s, a), k, e.tid, e.bt, n);
      if n.id != IdOf(s, a) { HeldEntry(stk, n.id); }
    case Unlock(a) =>
      if a in s.addrGen { DropSubset(stk, IdOf(s, a), n); }
      HeldEntry(stk, n.id);
    case CondPost(a) =>
      var rest := if a in s.addrGen then Drop(stk, IdOf(s, a)) else stk;
      TakeSubset(rest, IdOf(s, a), Mutex, e.tid, e.bt, n);
      if n.id != IdOf(s, a) {
        var m :| m in rest && m.id == n.id;
        if a in s.addrGen { DropSubset(stk, IdOf(s, a), m); }
        HeldEntry(stk, n.id);
      }
    case _ => HeldEntry(stk, n.id);
  }

  lemma HeldEntry(stk: seq<LockNode>, id: LockId)
    requires exists m | m in stk :: m.id == id
    ensures Holds(stk, id)
  {
    var m :| m in stk && m.id == id;
    var j :| 0 <= j < |stk| && stk[j] == m;
  }

  lemma RetiredStays(s: GState, e: Event, id: LockId)
    requires Retired(s, id)
    ensures Retired(Step(s, e), id)
  {
    hide Step;
    StepGen(s, e, id.addr);
  }

  /** A retired lock that is gone stays gone, whatever follows. */
  lemma {:induction false} RetiredForever(s: GState, es: seq<Event>, id: LockId)
    requires Retired(s, id) && Gone(s, id)
    ensures Retired(Run(s, es), id) && Gone(Run(s, es), id)
  {
    hide Step, Gone;
    if es != [] {
      var front, e := es[..|es| - 1], es[|es| - 1];
      RetiredForever(s, front, id);
      RetiredStays(Run(s, front), e, id);
      GoneStays(Run(s, front), e, id);
    }
  }

  /** Destroying a lock that nobody holds leaves nothing of it. */
  lemma DestroyedIsGone(s: GState, e: Event, addr: int)
    requires ActionOf(e) == Destroy(addr) && addr in s.addrGen
    requires forall tid :: !Holds(StackOf(s, tid), IdOf(s, addr))
    ensures Gone(Step(s, e), IdOf(s, addr)) && addr in Step(s, e).addrGen && IdOf(Step(s, e), addr) == IdOf(s, addr)
  {
    hide Holds;
    var t := Step(s, e);
    forall tid ensures !Holds(StackOf(t, tid), IdOf(s, addr)) { assert StackOf(t, tid) == StackOf(s, tid); }
  }

  lemma {:induction false} UntouchedKeeps(s: GState, es: seq<Event>, addr: int)
    requires addr in s.addrGen && Gone(s, IdOf(s, addr)) && forall i | 0 <= i < |es| :: Untouched(es[i], addr)
    ensures var t := Run(s, es); addr in t.addrGen && IdOf(t, addr) == IdOf(s, addr) && Gone(t, IdOf(s, addr))
  {
    hide Step, Gone;
    if es != [] {
      var front, e := es[..|es| - 1], es[|es| - 1];
      UntouchedKeeps(s, front, addr);
      StepGen(Run(s, front), e, addr);
      GoneStays(Run(s, front), e, IdOf(s, addr));
    }
  }

  /** Generation separation: a lock destroyed while nobody holds it, whose address
      is initialised again before any other use, never shows up again. */
  lemma GenerationSeparation(s: GState, destroy: Event, between: seq<Event>, init: Event, later: seq<Event>, addr: int)
    requires ActionOf(destroy) == Destroy(addr) && addr in s.addrGen
    requires forall tid :: !Holds(StackOf(s, tid), IdOf(s, addr))
    requires forall i | 0 <= i < |between| :: Untouched(between[i], addr)
    requires ActionOf(init).Init? && ActionOf(init).addr == addr
    ensures Gone(Run(Step(Run(Step(s, destroy), between), init), later), IdOf(s, addr))
  {
    hide Step, Gone, Run;
    var id := IdOf(s, addr);
    DestroyedIsGone(s, destroy, addr);
    var t := Step(s, destroy);
    UntouchedKeeps(t, between, addr);
    var u := Run(t, between);
    StepGen(u, init, addr);
    GoneStays(u, init, id);
    RetiredForever(Step(u, init), later, id);
  }

  ghost predicate HasInit(es: seq<Event>, addr: int) {
    exists i | 0 <= i < |es| :: ActionOf(es[i]).Init? && ActionOf(es[i]).addr == addr
  }

  /** Destroying does not end a lock's identity: a known address keeps meaning the
      same lock exactly as long as no INIT of it is replayed. */
  lemma {:induction false} IdentityEndsWithInit(s: GState, es: seq<Event>, addr: int)
    requires addr in s.addrGen
    ensures addr in Run(s, es).addrGen && GenOf(Run(s, es), addr) >= GenOf(s, addr)
    ensures IdOf(Run(s, es), addr) == IdOf(s, addr) <==> !HasInit(es, addr)
  {
    hide Step;
    if es != [] {
      var front, e := es[..|es| - 1], es[|es| - 1];
      IdentityEndsWithInit(s, front, addr);
      StepGen(Run(s, front), e, addr);
      var isInit := ActionOf(e).Init? && ActionOf(e).addr == addr;
      assert HasInit(es, addr) <==> HasInit(front, addr) || isInit by {
        if HasInit(front, addr) {
          var i :| 0 <= i < |front| && ActionOf(front[i]).Init? && ActionOf(front[i]).addr == addr;
          assert es[i] == front[i];
        }
        if isInit { assert es[|es| - 1] == e; }
        if HasInit(es, addr) && !isInit {
          var i :| 0 <= i < |es| && ActionOf(es[i]).Init? && ActionOf(es[i]).addr == addr;
          assert front[i] == es[i];
        }
      }
    }
  }
}
