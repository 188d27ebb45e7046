/** What is recorded for a lock-order edge, in terms of the events of the trace: which
    event took the first lock, which asked for the second, how, and from where. */
module Witnesses {
  import opened Locks
  import opened Events
  import opened Replay
  import opened HeldLocks
  import opened EdgeHistory

  // ------------------------------------------------------- requests and destructions

  /** Event `i` asks for `key.to` while its thread's count says that it holds `key.frm`. */
  ghost predicate RequestedAt(es: seq<Event>, key: EdgeKey, i: int) {
    0 <= i < |es| && AsksFor(es, i, key.to) && key.frm != key.to && Count(es[..i], es[i].tid, key.frm) > 0
  }

  /** Event `i` destroys one end of the edge. */
  ghost predicate DestroyedAt(es: seq<Event>, key: EdgeKey, i: int) {
    0 <= i < |es| && es[i].op == DESTROY
    && var g := Gen(es[..i], es[i].addr);
       g > 0 && (Means(key.frm, es[i].addr, g) || Means(key.to, es[i].addr, g))
  }

  /** The edge is requested at `i` and neither end is destroyed later. */
  ghost predicate Stands(es: seq<Event>, key: EdgeKey, i: int) {
    RequestedAt(es, key, i) && forall j | i < j < |es| :: !DestroyedAt(es, key, j)
  }

  /** Between any earlier request for the edge and `i`, an end was destroyed. */
  ghost predicate Earliest(es: seq<Event>, key: EdgeKey, i: int) {
    forall j | 0 <= j < i && RequestedAt(es, key, j) :: exists l | j < l < i :: DestroyedAt(es, key, l)
  }

  lemma KilledByCounts(es: seq<Event>, key: EdgeKey, i: int)
    ensures KilledAt(es, key, i) <==> DestroyedAt(es, key, i)
  {
    hide Run, Gen;
    if 0 <= i < |es| {
      ActionIs(es[i]);
      GenIsCurrent(es[..i], es[i].addr);
    }
  }

  lemma SameEvents(es: seq<Event>, key: EdgeKey)
    ensures forall i :: BuiltAt(es, key, i) <==> RequestedAt(es, key, i)
    ensures forall i :: KilledAt(es, key, i) <==> DestroyedAt(es, key, i)
  {
    hide BuiltAt, KilledAt, DestroyedAt, AsksFor;
    forall i ensures BuiltAt(es, key, i) <==> RequestedAt(es, key, i) {
      if 0 <= i < |es| { BuiltByCounts(es, key, i); } else { NotAnEvent(es, key, i); }
    }
    forall i ensures KilledAt(es, key, i) <==> DestroyedAt(es, key, i) { KilledByCounts(es, key, i); }
  }

  lemma NotAnEvent(es: seq<Event>, key: EdgeKey, i: int)
    requires !(0 <= i < |es|)
    ensures !BuiltAt(es, key, i)
  {
  }

  // ----------------------------------------------------------- since when it is held

  /** Event `j` begins a hold: the thread's count of the lock was zero before, or comes
      back to one through the release inside a condition wait. */
  ghost predicate Begins(es: seq<Event>, j: int, tid: int, id: LockId) {
    && 0 <= j < |es| && es[j].tid == tid && Means(id, Target(es[j]), Gen(es[..j], id.addr))
    && ((Acquires(es[j]) && Count(es[..j], tid, id) == 0) || (Returns(es[j]) && Count(es[..j], tid, id) <= 1))
  }

  /** The hold that event `j` begins lasts until the end of the trace. */
  ghost predicate HeldSince(es: seq<Event>, j: int, tid: int, id: LockId) {
    && Begins(es, j, tid, id)
    && (forall k | j < k < |es| :: !Begins(es, k, tid, id))
    && (forall k | j < k <= |es| :: Count(es[..k], tid, id) > 0)
  }

  /** The entry records event `j`, since which its lock is held. */
  ghost predicate Records(es: seq<Event>, j: int, tid: int, n: LockNode) {
    && HeldSince(es, j, tid, n.id)
    && n.kind == RequestKind(es[j]) && n.acquireBt == es[j].bt && n.acquireTid == tid
  }

  ghost predicate Recorded(es: seq<Event>, tid: int, n: LockNode) {
    exists j :: Records(es, j, tid, n)
  }

  lemma BeginsFront(es: seq<Event>, j: int, tid: int, id: LockId)
    requires es != [] && j < |es| - 1
    ensures Begins(es, j, tid, id) <==> Begins(es[..|es| - 1], j, tid, id)
  {
    hide Gen, Count, Means, Acquires, Returns, Target;
    if 0 <= j { assert es[..|es| - 1][..j] == es[..j]; }
  }

  /** A hold goes on through an event that does not begin another. */
  lemma HoldGoesOn(es: seq<Event>, j: int, tid: int, id: LockId)
    requires es != [] && HeldSince(es[..|es| - 1], j, tid, id)
    requires !Begins(es, |es| - 1, tid, id) && Count(es, tid, id) > 0
    ensures HeldSince(es, j, tid, id)
  {
    hide Begins, Count;
    var front := es[..|es| - 1];
    assert 0 <= j < |front| by { BeginsIn(front, j, tid, id); }
    forall k | j <= k < |front| ensures Begins(es, k, tid, id) <==> Begins(front, k, tid, id) {
      BeginsFront(es, k, tid, id);
    }
    forall k | j < k <= |es| ensures Count(es[..k], tid, id) > 0 {
      if k <= |front| { assert es[..k] == front[..k]; } else { assert es[..k] == es; }
    }
  }

  lemma BeginsIn(es: seq<Event>, j: int, tid: int, id: LockId)
    requires Begins(es, j, tid, id)
    ensures 0 <= j < |es|
  {
  }

  lemma BeginsNow(es: seq<Event>, tid: int, id: LockId)
    requires es != [] && Begins(es, |es| - 1, tid, id) && Count(es, tid, id) > 0
    ensures HeldSince(es, |es| - 1, tid, id)
  {
    hide Begins, Count;
    assert es[..|es|] == es;
  }

  /** The event puts a new entry for the lock on the stack of its thread. */
  predicate Enters(s: GState, stk: seq<LockNode>, e: Event, id: LockId) {
    match ActionOf(e)
    case Acquire(a, _) => id == IdOf(s, a) && !Holds(stk, id)
    case CondPost(a) => id == IdOf(s, a) && !Holds(if a in s.addrGen then Drop(stk, id) else stk, id)
    case _ => false
  }

  /** Every entry after an event is new, or was there with the same record. */
  lemma EntryComesFrom(s: GState, stk: seq<LockNode>, e: Event, n: LockNode)
    requires n in StackStep(s, stk, e)
    ensures if Enters(s, stk, e, n.id) then n == LockNode(n.id, RequestKind(e), 1, e.bt, e.tid)
            else exists m | m in stk :: SameRecord(m, n)
  {
    hide Take, Drop, Holds, RequestKind;
    ActionIs(e);
    match ActionOf(e)
    case Acquire(a, k) => TakeSubset(stk, IdOf(s, a), k, e.tid, e.bt, n);
    case Unlock(a) => if a in s.addrGen { DropSubset(stk, IdOf(s, a), n); } else { assert SameRecord(n, n); }
    case CondPost(a) =>
      var rest := if a in s.addrGen then Drop(stk, IdOf(s, a)) else stk;
      TakeSubset(rest, IdOf(s, a), Mutex, e.tid, e.bt, n);
      if !Enters(s, stk, e, n.id) {
        var l :| l in rest && SameRecord(l, n);
        if a in s.addrGen {
          DropSubset(stk, IdOf(s, a), l);
          var m :| m in stk && SameRecord(m, l);
          assert SameRecord(m, n);
        }
      }
    case _ => assert SameRecord(n, n);
  }

  /** Entering the stack is beginning a hold. */
  lemma EntersIsBegins(es: seq<Event>, id: LockId)
    requires es != []
    ensures var front, e := es[..|es| - 1], es[|es| - 1];
            var s := Run(Empty, front);
            Enters(s, StackOf(s, e.tid), e, id) <==> Begins(es, |es| - 1, e.tid, id)
  {
    hide Drop, WellHeld, Gen, Count, Run, Means, Holds, Acquires, Returns, Target, RequestKind, Fails;
    var front, e := es[..|es| - 1], es[|es| - 1];
    ActionIs(e);
    HeldIsCounted(front, e.tid, id);
    MeansIsIdOf(front, id, Target(e));
    MeansAt(id, Target(e), front);
    match ActionOf(e)
    case CondPost(a) => DropHolds(front, e.tid, a, id);
    case _ =>
  }

  lemma MeansAt(id: LockId, a: int, es: seq<Event>)
    ensures Means(id, a, Gen(es, id.addr)) <==> Means(id, a, Gen(es, a))
  {
    hide Gen;
  }

  /** In every state of a run each entry of a stack records the event since which the
      thread holds the lock: how it was acquired, and from where. */
  lemma {:induction false} EntryIsRecorded(es: seq<Event>, tid: int, n: LockNode)
    requires n in StackOf(Run(Empty, es), tid)
    ensures Recorded(es, tid, n)
  {
    hide Step, StackStep, HeldSince, Begins, Enters, Holds, HoldOf, WellHeld, Count, RequestKind;
    if es == [] {
      NothingHeld(tid);
    } else {
      var front, e := es[..|es| - 1], es[|es| - 1];
      var s := Run(Empty, front);
      StepStacks(s, e, tid);
      StillCounted(es, tid, n);
      EntersIsBegins(es, n.id);
      if e.tid == tid {
        EntryComesFrom(s, StackOf(s, tid), e, n);
      } else {
        OthersDoNotBegin(es, tid, n.id);
      }
      if e.tid == tid && Enters(s, StackOf(s, tid), e, n.id) {
        BeginsNow(es, tid, n.id);
        assert Records(es, |es| - 1, tid, n);
      } else {
        var m :| m in StackOf(s, tid) && SameRecord(m, n);
        EntryIsRecorded(front, tid, m);
        RecordGoesOn(es, tid, m, n);
      }
    }
  }

  lemma NothingHeld(tid: int)
    ensures StackOf(Empty, tid) == []
  {
  }

  lemma OthersDoNotBegin(es: seq<Event>, tid: int, id: LockId)
    requires es != [] && es[|es| - 1].tid != tid
    ensures !Begins(es, |es| - 1, tid, id)
  {
  }

  lemma StillCounted(es: seq<Event>, tid: int, n: LockNode)
    requires n in StackOf(Run(Empty, es), tid)
    ensures Count(es, tid, n.id) > 0
  {
    hide Run, Count, WellHeld, HoldOf;
    HeldIsCounted(es, tid, n.id);
    var stk := StackOf(Run(Empty, es), tid);
    var i :| 0 <= i < |stk| && stk[i] == n;
    assert Holds(stk, n.id);
  }

  lemma RecordGoesOn(es: seq<Event>, tid: int, m: LockNode, n: LockNode)
    requires es != [] && SameRecord(m, n) && Recorded(es[..|es| - 1], tid, m)
    requires !Begins(es, |es| - 1, tid, n.id) && Count(es, tid, n.id) > 0
    ensures Recorded(es, tid, n)
  {
    hide Begins, Count, RequestKind;
    var front := es[..|es| - 1];
    var j :| Records(front, j, tid, m);
    BeginsIn(front, j, tid, m.id);
    HoldGoesOn(es, j, tid, m.id);
    assert Records(es, j, tid, n);
  }

  // ---------------------------------------------------------------- what an edge says

  /** The edge records event `j`, since which its first lock was held when event `i` of
      the same thread asked for the second. */
  ghost predicate Explains(es: seq<Event>, key: EdgeKey, info: EdgeInfo, j: int, i: int) {
    && 0 <= j < i < |es| && HeldSince(es[..i], j, es[i].tid, key.frm)
    && info == EdgeInfo(es[i].tid, RequestKind(es[j]), RequestKind(es[i]), es[j].bt, es[i].bt)
  }

  lemma WitnessExplains(es: seq<Event>, key: EdgeKey, i: int) returns (j: int)
    requires BuiltAt(es, key, i)
    ensures Explains(es, key, Witness(Run(Empty, es[..i]), es[i], key), j, i)
  {
    hide Run, Drop, Begins, RequestKind, Holds, Count;
    var before, e := es[..i], es[i];
    var s := Run(Empty, before);
    ActionIs(e);
    var q := RequestOf(s, e).value;
    var h := EntryOf(q.held, key.frm);
    var m := HeldBefore(s, e, h);
    EntryIsRecorded(before, e.tid, m);
    j :| Records(before, j, e.tid, m);
    BeginsIn(before, j, e.tid, m.id);
  }

  lemma HeldBefore(s: GState, e: Event, h: LockNode) returns (m: LockNode)
    requires RequestOf(s, e).Some? && h in RequestOf(s, e).value.held
    ensures m in StackOf(s, e.tid) && SameRecord(m, h)
  {
    hide Drop, Holds;
    var stk := StackOf(s, e.tid);
    if h in stk {
      m := h;
    } else {
      DropSubset(stk, RequestOf(s, e).value.id, h);
      m :| m in stk && SameRecord(m, h);
    }
  }

  /** Where an edge comes from: it is there if and only if some event requested it and no
      end was destroyed later. It records the earliest such request, and the event since
      which the requesting thread had held the first lock: both kinds, both backtraces. */
  lemma EdgeIsExplained(es: seq<Event>, key: EdgeKey)
    ensures key in Run(Empty, es).edges <==> exists i :: Stands(es, key, i)
    ensures key in Run(Empty, es).edges ==>
              exists j, i ::
                Stands(es, key, i) && Earliest(es, key, i) && Explains(es, key, Run(Empty, es).edges[key], j, i)
  {
    hide Run, Builds, KilledAt, RequestedAt, DestroyedAt, Witness, Explains;
    EarliestWitness(es, key);
    SameEvents(es, key);
    forall i ensures Alive(es, key, i) <==> Stands(es, key, i) { }
    if key in Run(Empty, es).edges {
      var i :| Alive(es, key, i) && First(es, key, i)
               && Run(Empty, es).edges[key] == Witness(Run(Empty, es[..i]), es[i], key);
      var j := WitnessExplains(es, key, i);
      assert Stands(es, key, i) && Earliest(es, key, i);
    }
  }
}
