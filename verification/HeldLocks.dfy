/** What the replayed stacks of held locks mean: for every thread and lock they
    count acquisitions against releases. */
module HeldLocks {
  import opened Locks
  import opened Events
  import opened Replay

  // --------------------------------------------------------------- one held stack

  /** Every lock has at most one entry, and every entry counts at least one hold. */
  ghost predicate WellHeld(stk: seq<LockNode>) {
    && (forall i, j | 0 <= i < j < |stk| :: stk[i].id != stk[j].id)
    && (forall i | 0 <= i < |stk| :: stk[i].holdCount >= 1)
  }

  /** How often the lock is held; absence means not at all. */
  function HoldOf(stk: seq<LockNode>, id: LockId): int {
    if stk == [] then 0 else if stk[0].id == id then stk[0].holdCount else HoldOf(stk[1..], id)
  }

  lemma {:induction false} HoldAt(stk: seq<LockNode>, i: nat)
    requires WellHeld(stk) && i < |stk|
    ensures HoldOf(stk, stk[i].id) == stk[i].holdCount
  {
    if i > 0 { HoldAt(stk[1..], i - 1); }
  }

  lemma {:induction false} HoldAbsent(stk: seq<LockNode>, id: LockId)
    requires !Holds(stk, id)
    ensures HoldOf(stk, id) == 0
  {
    if stk != [] {
      assert stk[0].id != id;
      forall i | 0 <= i < |stk[1..]| ensures stk[1..][i].id != id { assert stk[1..][i] == stk[i + 1]; }
      HoldAbsent(stk[1..], id);
    }
  }

  lemma HoldsIsPositive(stk: seq<LockNode>, id: LockId)
    requires WellHeld(stk)
    ensures Holds(stk, id) <==> HoldOf(stk, id) > 0
    ensures HoldOf(stk, id) >= 0
  {
    if Holds(stk, id) {
      var i :| 0 <= i < |stk| && stk[i].id == id;
      HoldAt(stk, i);
    } else {
      HoldAbsent(stk, id);
    }
  }

  /** Entries that agree on the locks and their counts hold the same. */
  lemma HoldOfOther(a: seq<LockNode>, b: seq<LockNode>, x: LockId)
    requires WellHeld(a) && WellHeld(b)
    requires forall i | 0 <= i < |a| && a[i].id == x ::
               exists j | 0 <= j < |b| :: b[j].id == x && b[j].holdCount == a[i].holdCount
    requires forall j | 0 <= j < |b| && b[j].id == x :: Holds(a, x)
    ensures HoldOf(a, x) == HoldOf(b, x)
  {
    if Holds(a, x) {
      var i :| 0 <= i < |a| && a[i].id == x;
      var j :| 0 <= j < |b| && b[j].id == x && b[j].holdCount == a[i].holdCount;
      HoldAt(a, i);
      HoldAt(b, j);
    } else {
      HoldAbsent(a, x);
      HoldAbsent(b, x);
    }
  }

  lemma HoldOfSame(a: seq<LockNode>, b: seq<LockNode>, x: LockId)
    requires WellHeld(a) && WellHeld(b)
    requires forall i | 0 <= i < |a| && a[i].id == x :: i < |b| && b[i] == a[i]
    requires forall j | 0 <= j < |b| && b[j].id == x :: j < |a| && a[j].id == x
    ensures HoldOf(a, x) == HoldOf(b, x)
  {
    if Holds(a, x) {
      var i :| 0 <= i < |a| && a[i].id == x;
      HoldAt(a, i);
      HoldAt(b, i);
    } else {
      HoldAbsent(a, x);
      HoldAbsent(b, x);
    }
  }

  /** Another count for the entry at `i`. */
  lemma Recounted(stk: seq<LockNode>, i: nat, n: LockNode, x: LockId)
    requires WellHeld(stk) && i < |stk| && n.id == stk[i].id && n.holdCount >= 1
    ensures WellHeld(stk[i := n])
    ensures HoldOf(stk[i := n], x) == if x == n.id then n.holdCount else HoldOf(stk, x)
  {
    hide HoldOf;
    var r := stk[i := n];
    if x == n.id { HoldAt(r, i); } else { HoldOfSame(stk, r, x); }
  }

  /** A new entry at the end. */
  lemma Pushed(stk: seq<LockNode>, n: LockNode, x: LockId)
    requires WellHeld(stk) && !Holds(stk, n.id) && n.holdCount == 1
    ensures WellHeld(stk + [n])
    ensures HoldOf(stk + [n], x) == HoldOf(stk, x) + if x == n.id then 1 else 0
  {
    hide HoldOf;
    var r := stk + [n];
    assert forall i | 0 <= i < |stk| :: stk[i].id != n.id;
    assert WellHeld(r);
    if x == n.id {
      HoldAbsent(stk, n.id);
      HoldAt(r, |stk|);
    } else {
      HoldOfSame(stk, r, x);
    }
  }

  /** An acquisition adds one hold of the lock and changes no other. */
  lemma TakeCounts(stk: seq<LockNode>, id: LockId, k: LockKind, tid: int, bt: Bt, x: LockId)
    requires WellHeld(stk)
    ensures WellHeld(Take(stk, id, k, tid, bt))
    ensures HoldOf(Take(stk, id, k, tid, bt), x) == HoldOf(stk, x) + if x == id then 1 else 0
  {
    hide HoldOf, Bump;
    if Holds(stk, id) {
      var i := EntryAt(stk, id);
      BumpAt(stk, i, id);
      HoldAt(stk, i);
      Recounted(stk, i, stk[i].(holdCount := stk[i].holdCount + 1), x);
    } else {
      Pushed(stk, LockNode(id, k, 1, bt, tid), x);
    }
  }

  /** The only entry of a held lock. */
  lemma EntryAt(stk: seq<LockNode>, id: LockId) returns (i: nat)
    requires WellHeld(stk) && Holds(stk, id)
    ensures i < |stk| && stk[i].id == id && stk[i].holdCount >= 1
    ensures forall j | 0 <= j < |stk| && j != i :: stk[j].id != id
  {
    i :| 0 <= i < |stk| && stk[i].id == id;
  }

  /** A release takes one hold away, if there is one, and changes no other. */
  lemma DropCounts(stk: seq<LockNode>, id: LockId, x: LockId)
    requires WellHeld(stk)
    ensures WellHeld(Drop(stk, id))
    ensures HoldOf(Drop(stk, id), x) == if x == id && HoldOf(stk, x) > 0 then HoldOf(stk, x) - 1 else HoldOf(stk, x)
  {
    hide HoldOf, Drop;
    HoldsIsPositive(stk, id);
    if Holds(stk, id) {
      var i := EntryAt(stk, id);
      DropAt(stk, i, id);
      HoldAt(stk, i);
      if stk[i].holdCount > 1 {
        Recounted(stk, i, stk[i].(holdCount := stk[i].holdCount - 1), x);
      } else {
        Removed(stk, i, x);
      }
    } else {
      DropAbsent(stk, id);
    }
  }

  /** The entry at `i` removed. */
  lemma Removed(stk: seq<LockNode>, i: nat, x: LockId)
    requires WellHeld(stk) && i < |stk|
    ensures var r := stk[..i] + stk[i + 1..];
            WellHeld(r) && HoldOf(r, x) == if x == stk[i].id then 0 else HoldOf(stk, x)
  {
    hide HoldOf;
    var r := stk[..i] + stk[i + 1..];
    assert forall j | 0 <= j < |r| :: r[j] == stk[if j < i then j else j + 1];
    if x == stk[i].id {
      HoldAbsent(r, x);
    } else {
      forall j | 0 <= j < |stk| && stk[j].id == x
        ensures exists k | 0 <= k < |r| :: r[k].id == x && r[k].holdCount == stk[j].holdCount
      {
        assert r[if j < i then j else j - 1] == stk[j];
      }
      HoldOfOther(stk, r, x);
    }
  }

  // ------------------------------------------------------- what an entry records

  /** Two entries that differ at most in their counts. */
  predicate SameRecord(m: LockNode, n: LockNode) {
    m == n.(holdCount := m.holdCount)
  }

  /** A release leaves the records of what is still held. */
  lemma {:induction false} DropSubset(stk: seq<LockNode>, id: LockId, n: LockNode)
    requires n in Drop(stk, id)
    ensures exists m | m in stk :: SameRecord(m, n)
  {
    if stk != [] {
      var front, top := stk[..|stk| - 1], stk[|stk| - 1];
      if top.id != id && n != top {
        DropSubset(front, id, n);
        var m :| m in front && SameRecord(m, n);
        assert m in stk;
      } else if n in front {
        assert n in stk;
      } else {
        assert top in stk;
      }
    }
  }

  lemma {:induction false} BumpSubset(stk: seq<LockNode>, id: LockId, n: LockNode)
    requires n in Bump(stk, id)
    ensures exists m | m in stk :: SameRecord(m, n)
  {
    if stk != [] {
      var rest := stk[1..];
      assert stk[0] in stk;
      if n in rest {
        assert n in stk;
      } else if stk[0].id != id && n in Bump(rest, id) {
        BumpSubset(rest, id, n);
        var m :| m in rest && SameRecord(m, n);
        assert m in stk;
      }
    }
  }

  /** An acquisition leaves the records of what is held, re-entry included; only a new
      entry records the acquisition itself. */
  lemma TakeSubset(stk: seq<LockNode>, id: LockId, k: LockKind, tid: int, bt: Bt, n: LockNode)
    requires n in Take(stk, id, k, tid, bt)
    ensures if n.id == id && !Holds(stk, id) then n == LockNode(id, k, 1, bt, tid)
            else exists m | m in stk :: SameRecord(m, n)
  {
    if Holds(stk, id) {
      BumpSubset(stk, id, n);
    } else if n in stk {
      assert SameRecord(n, n);
    }
  }

  // ------------------------------------------------------------- over whole traces

  /** The generation of an address after a trace, 0 before its first use: an INIT
      starts the next one, a use starts the first if there is none. */
  function Gen(es: seq<Event>, addr: int): nat {
    if es == [] then 0
    else
      var g, e := Gen(es[..|es| - 1], addr), es[|es| - 1];
      if e.op == INIT && e.addr == addr then g + 1
      else if Uses(e) && Target(e) == addr && g == 0 then 1
      else g
  }

  /** The lock a use of the address means when the generation is `g`. */
  predicate Means(id: LockId, addr: int, g: nat) {
    id.addr == addr && id.gen == if g == 0 then 1 else g
  }

  /** Acquisitions of the lock by the thread minus its releases, where a release
      of a lock that is not held is void and a condition wait releases once and
      acquires again. */
  function Count(es: seq<Event>, tid: int, id: LockId): nat {
    if es == [] then 0
    else
      var front, e := es[..|es| - 1], es[|es| - 1];
      var n, g := Count(front, tid, id), Gen(front, id.addr);
      if e.tid != tid || !Means(id, Target(e), g) then n
      else if Acquires(e) then n + 1
      else if Releases(e) then if g > 0 && n > 0 then n - 1 else n
      else if Returns(e) && n == 0 then 1
      else n
  }

  /** What one event does to the current generation of an address. */
  lemma StepGen(s: GState, e: Event, addr: int)
    ensures var g, t := if addr in s.addrGen then s.addrGen[addr] else 0, Step(s, e);
            match ActionOf(e)
            case Init(_, a, _) =>
              if a == addr then addr in t.addrGen && t.addrGen[addr] == g + 1 else SameGen(s, t, addr)
            case Acquire(a, _) =>
              if a == addr then addr in t.addrGen && t.addrGen[addr] == GenOf(s, addr) else SameGen(s, t, addr)
            case Attempt(a, _) =>
              if a == addr then addr in t.addrGen && t.addrGen[addr] == GenOf(s, addr) else SameGen(s, t, addr)
            case CondPost(a) =>
              if a == addr then addr in t.addrGen && t.addrGen[addr] == GenOf(s, addr) else SameGen(s, t, addr)
            case _ => SameGen(s, t, addr)
  {
    hide Take, Drop, AddEdges;
  }

  predicate SameGen(s: GState, t: GState, addr: int) {
    && (addr in t.addrGen <==> addr in s.addrGen)
    && (addr in s.addrGen ==> t.addrGen[addr] == s.addrGen[addr])
  }

  lemma {:induction false} GenIsCurrent(es: seq<Event>, addr: int)
    ensures var s := Run(Empty, es);
            && (addr in s.addrGen <==> Gen(es, addr) > 0)
            && (addr in s.addrGen ==> s.addrGen[addr] == Gen(es, addr))
  {
    hide Step;
    if es != [] {
      GenIsCurrent(es[..|es| - 1], addr);
      ActionIs(es[|es| - 1]);
      StepGen(Run(Empty, es[..|es| - 1]), es[|es| - 1], addr);
    }
  }

  /** A lock that is counted has had its generation begun. */
  lemma {:induction false} CountNeedsGen(es: seq<Event>, tid: int, id: LockId)
    ensures Count(es, tid, id) > 0 ==> Gen(es, id.addr) > 0
  {
    if es != [] { CountNeedsGen(es[..|es| - 1], tid, id); }
  }

  /** What one event does to the held locks of a thread. */
  function StackStep(s: GState, stk: seq<LockNode>, e: Event): seq<LockNode> {
    match ActionOf(e)
    case Acquire(a, k) => Take(stk, IdOf(s, a), k, e.tid, e.bt)
    case Unlock(a) => if a in s.addrGen then Drop(stk, IdOf(s, a)) else stk
    case CondPost(a) => Take(if a in s.addrGen then Drop(stk, IdOf(s, a)) else stk, IdOf(s, a), Mutex, e.tid, e.bt)
    case _ => stk
  }

  lemma StepStacks(s: GState, e: Event, tid: int)
    ensures StackOf(Step(s, e), tid) == if e.tid == tid then StackStep(s, StackOf(s, tid), e) else StackOf(s, tid)
  {
    hide Take, Drop, AddEdges;
  }

  lemma StackStepWellHeld(s: GState, stk: seq<LockNode>, e: Event)
    requires WellHeld(stk)
    ensures WellHeld(StackStep(s, stk, e))
  {
    hide Take, Drop, WellHeld;
    var id := LockId(0, 0);
    match ActionOf(e)
    case Acquire(a, k) => TakeCounts(stk, IdOf(s, a), k, e.tid, e.bt, id);
    case Unlock(a) => DropCounts(stk, IdOf(s, a), id);
    case CondPost(a) =>
      DropCounts(stk, IdOf(s, a), id);
      TakeCounts(if a in s.addrGen then Drop(stk, IdOf(s, a)) else stk, IdOf(s, a), Mutex, e.tid, e.bt, id);
    case _ =>
  }

  /** What one event of the thread does to its hold of lock `x`. */
  function HoldStep(s: GState, n: int, e: Event, x: LockId): int {
    if x != IdOf(s, Target(e)) then n
    else if Acquires(e) then n + 1
    else if Releases(e) then if Target(e) in s.addrGen && n > 0 then n - 1 else n
    else if Returns(e) && (Target(e) !in s.addrGen || n == 0) then n + 1
    else n
  }

  lemma StackStepCounts(s: GState, stk: seq<LockNode>, e: Event, x: LockId)
    requires WellHeld(stk)
    ensures HoldOf(StackStep(s, stk, e), x) == HoldStep(s, HoldOf(stk, x), e, x)
  {
    hide Take, Drop, WellHeld, HoldOf;
    HoldsIsPositive(stk, x);
    ActionIs(e);
    match ActionOf(e)
    case Acquire(a, k) => TakeCounts(stk, IdOf(s, a), k, e.tid, e.bt, x);
    case Unlock(a) => DropCounts(stk, IdOf(s, a), x);
    case CondPost(a) =>
      DropCounts(stk, IdOf(s, a), x);
      TakeCounts(if a in s.addrGen then Drop(stk, IdOf(s, a)) else stk, IdOf(s, a), Mutex, e.tid, e.bt, x);
    case _ =>
  }

  /** In every state of a run, the held stack of a thread has one entry for every
      lock with a positive count, and its hold count is that count. */
  lemma {:induction false} HeldIsCounted(es: seq<Event>, tid: int, id: LockId)
    ensures var stk := StackOf(Run(Empty, es), tid);
            && WellHeld(stk)
            && HoldOf(stk, id) == Count(es, tid, id)
            && (Holds(stk, id) <==> Count(es, tid, id) > 0)
  {
    hide WellHeld, Step, StackStep, HoldOf, Holds;
    if es == [] {
      EmptyWellHeld();
    } else {
      var front, e := es[..|es| - 1], es[|es| - 1];
      var s := Run(Empty, front);
      var stk := StackOf(s, tid);
      HeldIsCounted(front, tid, id);
      StepStacks(s, e, tid);
      StackStepWellHeld(s, stk, e);
      StackStepCounts(s, stk, e, id);
      CountStep(es, tid, id);
    }
    HoldsIsPositive(StackOf(Run(Empty, es), tid), id);
  }

  lemma CountStep(es: seq<Event>, tid: int, id: LockId)
    requires es != []
    ensures var front, e := es[..|es| - 1], es[|es| - 1];
            var n := Count(front, tid, id);
            Count(es, tid, id) == if e.tid == tid then HoldStep(Run(Empty, front), n, e, id) else n
  {
    hide Run, Gen, Acquires, Releases, Returns, Target;
    var front := es[..|es| - 1];
    GenIsCurrent(front, id.addr);
    CountNeedsGen(front, tid, id);
  }

  lemma EmptyWellHeld()
    ensures WellHeld([]) && forall id :: HoldOf([], id) == 0
  {
  }
}
