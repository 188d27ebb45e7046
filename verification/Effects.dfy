/** What each operation of the runtime does to the analyzer's state, operation by
    operation: held locks, edges and what they record, generations and metadata. */
module Effects {
  import opened BitMask
  import opened Locks
  import opened Events
  import opened Replay
  import opened HeldLocks
  import opened EdgeHistory
  import opened Schedule

  /** What every replayed state satisfies. */
  ghost predicate Consistent(s: GState) {
    Known(s) && EndsKnown(s) && forall tid :: WellHeld(StackOf(s, tid))
  }

  lemma ReplayIsConsistent(es: seq<Event>)
    ensures Consistent(Run(Empty, es))
  {
    hide Run, Known, EndsKnown, WellHeld;
    RunKnown(es);
    forall tid ensures WellHeld(StackOf(Run(Empty, es), tid)) { HeldIsCounted(es, tid, LockId(0, 0)); }
  }

  /** How often the event's thread holds the lock. */
  function Held(s: GState, e: Event, id: LockId): int {
    HoldOf(StackOf(s, e.tid), id)
  }

  /** The lock the event speaks of. */
  function Current(s: GState, e: Event): LockId {
    IdOf(s, e.addr)
  }

  /** The mutex of a condition wait. */
  function WaitMutex(s: GState, e: Event): LockId {
    IdOf(s, e.rc % TWO_TO_THE_64)
  }

  lemma UnknownNotHeld(s: GState, tid: int, a: int)
    requires Consistent(s) && a !in s.addrGen
    ensures HoldOf(StackOf(s, tid), IdOf(s, a)) == 0
  {
    hide HoldOf;
    HoldsIsPositive(StackOf(s, tid), IdOf(s, a));
  }

  // ------------------------------------------------------------------ held locks

  /** Holds after an event: a successful acquisition of any sort adds one, an UNLOCK of
      any kind of lock takes one away if there is one, a condition wait that has a mutex
      leaves it held at least once; nothing else changes a hold, and no hold of another
      thread changes. */
  lemma HoldAfter(s: GState, e: Event, id: LockId)
    requires Consistent(s)
    ensures forall tid | tid != e.tid :: StackOf(Step(s, e), tid) == StackOf(s, tid)
    ensures var n := Held(s, e, id);
            Held(Step(s, e), e, id) ==
              match e.op
              case LOCK_POST | TRYLOCK_POST | TIMEDLOCK_POST
                 | RDLOCK_POST | TRYRDLOCK_POST | TIMEDRDLOCK_POST
                 | WRLOCK_POST | TRYWRLOCK_POST | TIMEDWRLOCK_POST =>
                if e.rc == 0 && id == Current(s, e) then n + 1 else n
              case UNLOCK =>
                if id == Current(s, e) && n > 0 then n - 1 else n
              case COND_WAIT_POST | COND_TIMEDWAIT_POST =>
                if e.rc % TWO_TO_THE_64 != 0 && id == WaitMutex(s, e) && n == 0 then 1 else n
              case _ => n
  {
    hide Step, HoldOf, StackStep, WellHeld, Known, EndsKnown;
    forall tid ensures tid != e.tid ==> StackOf(Step(s, e), tid) == StackOf(s, tid) { StepStacks(s, e, tid); }
    StepStacks(s, e, e.tid);
    StackStepCounts(s, StackOf(s, e.tid), e, id);
    if Target(e) !in s.addrGen { UnknownNotHeld(s, e.tid, Target(e)); }
    HoldsIsPositive(StackOf(s, e.tid), id);
  }

  // ----------------------------------------------------------------------- edges

  /** An edge to the requested lock from another one that the thread holds. */
  ghost predicate FromHeld(s: GState, e: Event, key: EdgeKey, to: LockId) {
    key.to == to && key.frm != to && Held(s, e, key.frm) > 0
  }

  lemma HoldAfterRelease(s: GState, e: Event, a: int, x: LockId)
    requires Consistent(s)
    ensures var stk := StackOf(s, e.tid);
            var rest := if a in s.addrGen then Drop(stk, IdOf(s, a)) else stk;
            Holds(rest, x) <==> Held(s, e, x) > if x == IdOf(s, a) then 1 else 0
  {
    hide Drop, HoldOf, WellHeld, Known, EndsKnown, Holds;
    var stk := StackOf(s, e.tid);
    DropCounts(stk, IdOf(s, a), x);
    HoldsIsPositive(stk, x);
    HoldsIsPositive(Drop(stk, IdOf(s, a)), x);
    if a !in s.addrGen { UnknownNotHeld(s, e.tid, a); }
  }

  /** Edges after an event: a first acquisition adds those from all other held locks, a
      failed attempt does so even for a held lock, a condition wait does so after its
      release, a failed plain acquisition adds none; DESTROY removes those of its lock. */
  lemma EdgeAfter(s: GState, e: Event, key: EdgeKey)
    requires Consistent(s)
    ensures key in Step(s, e).edges <==>
              match e.op
              case LOCK_POST | RDLOCK_POST | WRLOCK_POST =>
                key in s.edges || (e.rc == 0 && Held(s, e, key.to) == 0 && FromHeld(s, e, key, Current(s, e)))
              case TRYLOCK_POST | TIMEDLOCK_POST | TRYRDLOCK_POST | TIMEDRDLOCK_POST
                 | TRYWRLOCK_POST | TIMEDWRLOCK_POST =>
                || key in s.edges
                || ((e.rc == 0 ==> Held(s, e, key.to) == 0) && FromHeld(s, e, key, Current(s, e)))
              case COND_WAIT_POST | COND_TIMEDWAIT_POST =>
                || key in s.edges
                || (e.rc % TWO_TO_THE_64 != 0 && Held(s, e, key.to) <= 1 && FromHeld(s, e, key, WaitMutex(s, e)))
              case DESTROY => key in s.edges && key.frm != Current(s, e) && key.to != Current(s, e)
              case _ => key in s.edges
  {
    hide Step, HoldOf, WellHeld, Known, Holds, Drop;
    EdgeStep(s, e, key);
    HoldsIsPositive(StackOf(s, e.tid), key.frm);
    HoldsIsPositive(StackOf(s, e.tid), key.to);
    HoldAfterRelease(s, e, e.rc % TWO_TO_THE_64, key.frm);
    HoldAfterRelease(s, e, e.rc % TWO_TO_THE_64, key.to);
    KillsIs(s, e, key);
  }

  lemma KillsIs(s: GState, e: Event, key: EdgeKey)
    requires Consistent(s)
    ensures key in s.edges ==>
              (Kills(s, e, key) <==> e.op == DESTROY && (key.frm == Current(s, e) || key.to == Current(s, e)))
  {
    hide Known, WellHeld;
    ActionIs(e);
  }

  /** The kind an operation asks for. */
  function KindAsked(op: EvOp, k: EvKind): LockKind {
    match op
    case RDLOCK_POST | TRYRDLOCK_POST | TIMEDRDLOCK_POST => RwlockRd
    case WRLOCK_POST | TRYWRLOCK_POST | TIMEDWRLOCK_POST => RwlockWr
    case COND_WAIT_POST | COND_TIMEDWAIT_POST => Mutex
    case _ => if k == SPIN then Spin else Mutex
  }

  /** An edge that is new records the thread, how it holds the first lock since when, and
      how it asks for the second and from where; an edge that stays keeps what it records. */
  lemma RecordAfter(s: GState, e: Event, key: EdgeKey)
    requires Consistent(s) && key in Step(s, e).edges
    ensures key in s.edges ==> Step(s, e).edges[key] == s.edges[key]
    ensures key !in s.edges ==>
              exists n | n in StackOf(s, e.tid) ::
                n.id == key.frm
                && Step(s, e).edges[key] == EdgeInfo(e.tid, n.kind, KindAsked(e.op, e.kind), n.acquireBt, e.bt)
  {
    hide Step, WellHeld, Known, EndsKnown, Drop, Holds;
    EdgeStep(s, e, key);
    if key !in s.edges {
      var q := RequestOf(s, e).value;
      var h := EntryOf(q.held, key.frm);
      if h !in StackOf(s, e.tid) { DropSubset(StackOf(s, e.tid), q.id, h); }
      var n :| n in StackOf(s, e.tid) && SameRecord(n, h);
    }
  }

  // ------------------------------------------------------ generations and metadata

  /** Generations after an event: INIT begins the next one, the first use of an unknown
      address begins generation 1. */
  lemma GenAfter(s: GState, e: Event, addr: int)
    ensures var before := if addr in s.addrGen then s.addrGen[addr] else 0;
            var after := if addr in Step(s, e).addrGen then Step(s, e).addrGen[addr] else 0;
            after ==
              match e.op
              case INIT => if addr == e.addr then before + 1 else before
              case LOCK_POST | RDLOCK_POST | WRLOCK_POST =>
                if addr == e.addr && addr !in s.addrGen && e.rc == 0 then 1 else before
              case TRYLOCK_POST | TIMEDLOCK_POST | TRYRDLOCK_POST | TIMEDRDLOCK_POST
                 | TRYWRLOCK_POST | TIMEDWRLOCK_POST =>
                if addr == e.addr && addr !in s.addrGen then 1 else before
              case COND_WAIT_POST | COND_TIMEDWAIT_POST =>
                if addr == e.rc % TWO_TO_THE_64 != 0 && addr !in s.addrGen then 1 else before
              case _ => before
  {
    hide Step;
    StepGen(s, e, addr);
  }

  /** Metadata after an event: INIT describes the new lock, DESTROY marks the lock as dead,
      a first use without INIT describes it by how it is asked for. */
  lemma MetaAfterEvent(s: GState, e: Event, id: LockId)
    ensures var m := Step(s, e).meta;
            match e.op
            case INIT =>
              var gen := (if e.addr in s.addrGen then s.addrGen[e.addr] else 0) + 1;
              var kind := match e.kind case RWLOCK => RwlockWr case SPIN => Spin case _ => Mutex;
              if id == LockId(e.addr, gen)
              then id in m && m[id] == LockMeta(kind, e.kind == MUTEX && e.rc % 2 == 1, gen, true, e.bt, e.tid)
              else SameMeta(s, m, id)
            case DESTROY =>
              if e.addr in s.addrGen && id == Current(s, e) && id in s.meta
              then id in m && m[id] == s.meta[id].(alive := false)
              else SameMeta(s, m, id)
            case LOCK_POST | RDLOCK_POST | WRLOCK_POST =>
              if e.rc == 0 && id == Current(s, e) then Described(s, e, m, id) else SameMeta(s, m, id)
            case TRYLOCK_POST | TIMEDLOCK_POST | TRYRDLOCK_POST | TIMEDRDLOCK_POST
               | TRYWRLOCK_POST | TIMEDWRLOCK_POST =>
              if id == Current(s, e) then Described(s, e, m, id) else SameMeta(s, m, id)
            case COND_WAIT_POST | COND_TIMEDWAIT_POST =>
              if e.rc % TWO_TO_THE_64 != 0 && id == WaitMutex(s, e) then Described(s, e, m, id) else SameMeta(s, m, id)
            case _ => SameMeta(s, m, id)
  {
    hide Step, Touch, DestroyStep, InitStep;
    MetaAfter(s, e);
    ActionIs(e);
    InitDescribes(s, e, id);
    DestroyMarks(s, e.addr, id);
    TouchDescribes(s, Target(e), RequestKind(e), e.tid, id);
  }

  lemma InitDescribes(s: GState, e: Event, id: LockId)
    ensures var gen := (if e.addr in s.addrGen then s.addrGen[e.addr] else 0) + 1;
            var kind := match e.kind case RWLOCK => RwlockWr case SPIN => Spin case _ => Mutex;
            var recursive := e.kind == MUTEX && e.rc % 2 == 1;
            var m := InitStep(s, e.kind, e.addr, recursive, e.tid, e.bt).meta;
            if id == LockId(e.addr, gen) then id in m && m[id] == LockMeta(kind, recursive, gen, true, e.bt, e.tid)
            else SameMeta(s, m, id)
  {
  }

  lemma DestroyMarks(s: GState, a: int, id: LockId)
    ensures var m := DestroyStep(s, a).meta;
            if a in s.addrGen && id == IdOf(s, a) && id in s.meta then id in m && m[id] == s.meta[id].(alive := false)
            else SameMeta(s, m, id)
  {
  }

  lemma TouchDescribes(s: GState, a: int, k: LockKind, tid: int, id: LockId)
    ensures var m := Touch(s, a, k, tid).meta;
            if id == IdOf(s, a) && id !in s.meta then id in m && m[id] == LockMeta(k, false, id.gen, true, [], tid)
            else SameMeta(s, m, id)
  {
  }

  predicate SameMeta(s: GState, m: map<LockId, LockMeta>, id: LockId) {
    (id in m <==> id in s.meta) && (id in m ==> m[id] == s.meta[id])
  }

  /** What is known stays; a lock that is not is taken as the event uses it. */
  predicate Described(s: GState, e: Event, m: map<LockId, LockMeta>, id: LockId) {
    && id in m
    && m[id] == if id in s.meta then s.meta[id] else LockMeta(KindAsked(e.op, e.kind), false, id.gen, true, [], e.tid)
  }

  /** The events that leave the whole state alone: every PRE event, a plain acquisition
      that failed, and a condition wait without a mutex. */
  lemma NothingHappens(s: GState, e: Event)
    requires
      match e.op
      case LOCK_PRE | TRYLOCK_PRE | TIMEDLOCK_PRE | RDLOCK_PRE | TRYRDLOCK_PRE | TIMEDRDLOCK_PRE
         | WRLOCK_PRE | TRYWRLOCK_PRE | TIMEDWRLOCK_PRE | COND_WAIT_PRE | COND_TIMEDWAIT_PRE => true
      case LOCK_POST | RDLOCK_POST | WRLOCK_POST => e.rc != 0
      case COND_WAIT_POST | COND_TIMEDWAIT_POST => e.rc % TWO_TO_THE_64 == 0
      case _ => false
    ensures Step(s, e) == s
  {
    ActionIs(e);
  }
}
