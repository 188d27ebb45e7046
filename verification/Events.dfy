/** The events of a trace, as the runtime writes them and the analyzer reads them. */
module Events {
  import opened BitMask
  import opened Locks

  datatype EvOp =
    | INIT | DESTROY
    | LOCK_PRE | LOCK_POST | TRYLOCK_PRE | TRYLOCK_POST | TIMEDLOCK_PRE | TIMEDLOCK_POST
    | UNLOCK
    | RDLOCK_PRE | RDLOCK_POST | TRYRDLOCK_PRE | TRYRDLOCK_POST | TIMEDRDLOCK_PRE | TIMEDRDLOCK_POST
    | WRLOCK_PRE | WRLOCK_POST | TRYWRLOCK_PRE | TRYWRLOCK_POST | TIMEDWRLOCK_PRE | TIMEDWRLOCK_POST
    | COND_WAIT_PRE | COND_WAIT_POST | COND_TIMEDWAIT_PRE | COND_TIMEDWAIT_POST

  datatype EvKind = MUTEX | RWLOCK | SPIN | COND

  /** One event with its backtrace; `rc` is the return code, or for a condition
      wait the address of the mutex. */
  datatype Event = Event(ts: int, tid: int, op: EvOp, kind: EvKind, addr: int, rc: int, bt: Bt)

  /** The number that stands for an operation in the log. */
  function OpCode(op: EvOp): (n: nat)
    ensures 1 <= n <= 25
  {
    match op
    case INIT => 1
    case DESTROY => 2
    case LOCK_PRE => 3
    case LOCK_POST => 4
    case TRYLOCK_PRE => 5
    case TRYLOCK_POST => 6
    case TIMEDLOCK_PRE => 7
    case TIMEDLOCK_POST => 8
    case UNLOCK => 9
    case RDLOCK_PRE => 10
    case RDLOCK_POST => 11
    case TRYRDLOCK_PRE => 12
    case TRYRDLOCK_POST => 13
    case TIMEDRDLOCK_PRE => 14
    case TIMEDRDLOCK_POST => 15
    case WRLOCK_PRE => 16
    case WRLOCK_POST => 17
    case TRYWRLOCK_PRE => 18
    case TRYWRLOCK_POST => 19
    case TIMEDWRLOCK_PRE => 20
    case TIMEDWRLOCK_POST => 21
    case COND_WAIT_PRE => 22
    case COND_WAIT_POST => 23
    case COND_TIMEDWAIT_PRE => 24
    case COND_TIMEDWAIT_POST => 25
  }

  /** The number that stands for the kind of an object in the log. */
  function KindCode(k: EvKind): (n: nat)
    ensures 1 <= n <= 4
  {
    match k
    case MUTEX => 1
    case RWLOCK => 2
    case SPIN => 3
    case COND => 4
  }

  // ------------------------------------------------------- what the operations are

  /** Acquisitions that wait until they succeed or fail for good. */
  const LOCKS: set<EvOp> := {LOCK_POST, RDLOCK_POST, WRLOCK_POST}

  /** Acquisitions that may give up: a failed one still asked for its lock. */
  const TRIES: set<EvOp> :=
    {TRYLOCK_POST, TIMEDLOCK_POST, TRYRDLOCK_POST, TIMEDRDLOCK_POST, TRYWRLOCK_POST, TIMEDWRLOCK_POST}

  const READS: set<EvOp> := {RDLOCK_POST, TRYRDLOCK_POST, TIMEDRDLOCK_POST}
  const WRITES: set<EvOp> := {WRLOCK_POST, TRYWRLOCK_POST, TIMEDWRLOCK_POST}
  const WAITS: set<EvOp> := {COND_WAIT_POST, COND_TIMEDWAIT_POST}

  /** The thread has got the lock. */
  predicate Acquires(e: Event) {
    e.rc == 0 && (e.op in LOCKS || e.op in TRIES)
  }

  /** The thread asked for the lock and did not get it. */
  predicate Fails(e: Event) {
    e.rc != 0 && e.op in TRIES
  }

  predicate Releases(e: Event) {
    e.op == UNLOCK
  }

  /** The thread has come back from a condition wait, which released its mutex and took
      it again. */
  predicate Returns(e: Event) {
    e.op in WAITS && Target(e) != 0
  }

  /** The event asks for a lock. */
  predicate Uses(e: Event) {
    Acquires(e) || Fails(e) || Returns(e)
  }

  /** The address of the lock: of a condition wait the mutex, a 64-bit word that is
      logged as a signed number. */
  function Target(e: Event): int {
    if e.op in WAITS then e.rc % TWO_TO_THE_64 else e.addr
  }

  /** How the lock is asked for. */
  function RequestKind(e: Event): LockKind {
    if e.op in READS then RwlockRd
    else if e.op in WRITES then RwlockWr
    else if e.op !in WAITS && e.kind == SPIN then Spin
    else Mutex
  }

  // ------------------------------------------------------------------- the dispatch

  /** What an event makes the analyzer do. */
  datatype Action =
    | Ignore
    | Init(k: EvKind, addr: int, recursive: bool)
    | Destroy(addr: int)
    | Acquire(addr: int, kind: LockKind)
    | Attempt(addr: int, kind: LockKind)
    | Unlock(addr: int)
    | CondPost(addr: int)

  function KindField(k: EvKind): LockKind {
    if k == SPIN then Spin else Mutex
  }

  function OnSuccess(e: Event, k: LockKind): Action {
    if e.rc == 0 then Acquire(e.addr, k) else Ignore
  }

  function OnTry(e: Event, k: LockKind): Action {
    if e.rc == 0 then Acquire(e.addr, k) else Attempt(e.addr, k)
  }

  function ActionOf(e: Event): Action {
    match e.op
    case INIT => Init(e.kind, e.addr, e.kind == MUTEX && e.rc % 2 == 1)
    case DESTROY => Destroy(e.addr)
    case LOCK_POST => OnSuccess(e, KindField(e.kind))
    case TRYLOCK_POST => OnTry(e, KindField(e.kind))
    case TIMEDLOCK_POST => OnTry(e, KindField(e.kind))
    case RDLOCK_POST => OnSuccess(e, RwlockRd)
    case TRYRDLOCK_POST => OnTry(e, RwlockRd)
    case TIMEDRDLOCK_POST => OnTry(e, RwlockRd)
    case WRLOCK_POST => OnSuccess(e, RwlockWr)
    case TRYWRLOCK_POST => OnTry(e, RwlockWr)
    case TIMEDWRLOCK_POST => OnTry(e, RwlockWr)
    case UNLOCK => Unlock(e.addr)
    case COND_WAIT_POST => CondAction(e.rc)
    case COND_TIMEDWAIT_POST => CondAction(e.rc)
    case _ => Ignore
  }

  /** The dispatch, by what the operations are. */
  lemma ActionIs(e: Event)
    ensures ActionOf(e) ==
              if e.op == INIT then Init(e.kind, e.addr, e.kind == MUTEX && e.rc % 2 == 1)
              else if e.op == DESTROY then Destroy(e.addr)
              else if Acquires(e) then Acquire(Target(e), RequestKind(e))
              else if Fails(e) then Attempt(Target(e), RequestKind(e))
              else if Releases(e) then Unlock(Target(e))
              else if Returns(e) then CondPost(Target(e))
              else Ignore
    ensures Uses(e) ==> e.op != INIT && e.op != DESTROY && !Releases(e)
    ensures Returns(e) ==> !Acquires(e) && !Fails(e) && RequestKind(e) == Mutex
    ensures Fails(e) ==> !Acquires(e)
  {
  }

  /** The mutex address of a condition wait, from the signed field. */
  function CondAction(rc: int): Action {
    var m := rc % TWO_TO_THE_64;
    if m != 0 then CondPost(m) else Ignore
  }
}
