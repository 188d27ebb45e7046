/** Replay of a trace as a function on states: current generations, lock metadata,
    lock-order edges with their first witness, and the locks each thread holds. */
module Replay {
  import opened Locks
  import opened Events

  datatype LockMeta = LockMeta(kind: LockKind, recursive: bool, gen: int, alive: bool, initBt: Bt, initTid: int)

  /** A held lock; `holdCount` counts re-entries. */
  datatype LockNode = LockNode(id: LockId, kind: LockKind, holdCount: int, acquireBt: Bt, acquireTid: int)

  datatype GState = GState(
    addrGen: map<int, int>,
    meta: map<LockId, LockMeta>,
    edges: Edges,
    stacks: map<int, seq<LockNode>>)

  const Empty := GState(map[], map[], map[], map[])

  function StackOf(s: GState, tid: int): seq<LockNode> {
    if tid in s.stacks then s.stacks[tid] else []
  }

  /** The generation a use of the address refers to. */
  function GenOf(s: GState, addr: int): int {
    if addr in s.addrGen then s.addrGen[addr] else 1
  }

  function IdOf(s: GState, addr: int): LockId {
    LockId(addr, GenOf(s, addr))
  }

  predicate Holds(stk: seq<LockNode>, id: LockId) {
    exists i | 0 <= i < |stk| :: stk[i].id == id
  }

  // ------------------------------------------------------- effects on held locks

  /** The first entry for the lock is held once more. */
  function Bump(stk: seq<LockNode>, id: LockId): (r: seq<LockNode>)
    ensures |r| == |stk|
  {
    if stk == [] then []
    else if stk[0].id == id then [stk[0].(holdCount := stk[0].holdCount + 1)] + stk[1..]
    else [stk[0]] + Bump(stk[1..], id)
  }

  /** The last entry for the lock is held once less, or dropped. */
  function Drop(stk: seq<LockNode>, id: LockId): seq<LockNode> {
    if stk == [] then []
    else
      var top := stk[|stk| - 1];
      if top.id != id then Drop(stk[..|stk| - 1], id) + [top]
      else if top.holdCount > 1 then stk[..|stk| - 1] + [top.(holdCount := top.holdCount - 1)]
      else stk[..|stk| - 1]
  }

  /** A successful acquisition on the held locks of the thread. */
  function Take(stk: seq<LockNode>, id: LockId, k: LockKind, tid: int, bt: Bt): seq<LockNode> {
    if Holds(stk, id) then Bump(stk, id) else stk + [LockNode(id, k, 1, bt, tid)]
  }

  // --------------------------------------------------------------- effects on edges

  /** Edges from every held lock to the requested one, unless already known. */
  function AddEdges(edges: Edges, stk: seq<LockNode>, id: LockId, k: LockKind, tid: int, bt: Bt): Edges {
    if stk == [] then edges
    else
      var before := AddEdges(edges, stk[..|stk| - 1], id, k, tid, bt);
      var held := stk[|stk| - 1];
      var key := EdgeKey(held.id, id);
      if held.id == id || key in before then before
      else before[key := EdgeInfo(tid, held.kind, k, held.acquireBt, bt)]
  }

  // ------------------------------------------------------------------------ steps

  /** A use of an address fixes its generation and makes its lock known. */
  function Touch(s: GState, addr: int, k: LockKind, tid: int): GState {
    var id := IdOf(s, addr);
    s.(addrGen := s.addrGen[addr := GenOf(s, addr)],
       meta := if id in s.meta then s.meta else s.meta[id := LockMeta(k, false, id.gen, true, [], tid)])
  }

  function InitStep(s: GState, k: EvKind, addr: int, recursive: bool, tid: int, bt: Bt): GState {
    var gen := (if addr in s.addrGen then s.addrGen[addr] else 0) + 1;
    var kind := if k == RWLOCK then RwlockWr else if k == SPIN then Spin else Mutex;
    s.(addrGen := s.addrGen[addr := gen],
       meta := s.meta[LockId(addr, gen) := LockMeta(kind, recursive, gen, true, bt, tid)])
  }

  function DestroyStep(s: GState, addr: int): GState {
    if addr !in s.addrGen then s
    else
      var id := LockId(addr, s.addrGen[addr]);
      s.(meta := if id in s.meta then s.meta[id := s.meta[id].(alive := false)] else s.meta,
         edges := map key | key in s.edges && key.frm != id && key.to != id :: s.edges[key])
  }

  function AcquireStep(s: GState, addr: int, k: LockKind, tid: int, bt: Bt): GState {
    var id := IdOf(s, addr);
    var stk := StackOf(s, tid);
    var t := Touch(s, addr, k, tid);
    t.(stacks := s.stacks[tid := Take(stk, id, k, tid, bt)],
       edges := if Holds(stk, id) then s.edges else AddEdges(s.edges, stk, id, k, tid, bt))
  }

  function AttemptStep(s: GState, addr: int, k: LockKind, tid: int, bt: Bt): GState {
    var stk := StackOf(s, tid);
    var t := Touch(s, addr, k, tid);
    t.(stacks := s.stacks[tid := stk], edges := AddEdges(s.edges, stk, IdOf(s, addr), k, tid, bt))
  }

  function UnlockStep(s: GState, addr: int, tid: int): GState {
    var stk := StackOf(s, tid);
    s.(stacks := s.stacks[tid := if addr in s.addrGen then Drop(stk, IdOf(s, addr)) else stk])
  }

  function Step(s: GState, e: Event): GState {
    match ActionOf(e)
    case Ignore => s
    case Init(k, addr, recursive) => InitStep(s, k, addr, recursive, e.tid, e.bt)
    case Destroy(addr) => DestroyStep(s, addr)
    case Acquire(addr, k) => AcquireStep(s, addr, k, e.tid, e.bt)
    case Attempt(addr, k) => AttemptStep(s, addr, k, e.tid, e.bt)
    case Unlock(addr) => UnlockStep(s, addr, e.tid)
    case CondPost(addr) => AcquireStep(UnlockStep(s, addr, e.tid), addr, Mutex, e.tid, e.bt)
  }

  /** The state after a sequence of events. */
  function Run(s: GState, es: seq<Event>): GState {
    if es == [] then s else Step(Run(s, es[..|es| - 1]), es[|es| - 1])
  }

  // ------------------------------------------------ facts about held-lock entries

  /** Counting up the entry at `i`, the first for its lock. */
  lemma {:induction false} BumpAt(stk: seq<LockNode>, i: nat, id: LockId)
    requires i < |stk| && stk[i].id == id && forall j | 0 <= j < i :: stk[j].id != id
    ensures Holds(stk, id) && Bump(stk, id) == stk[i := stk[i].(holdCount := stk[i].holdCount + 1)]
  {
    if i > 0 {
      var rest := stk[1..];
      BumpAt(rest, i - 1, id);
      assert Bump(stk, id) == [stk[0]] + rest[i - 1 := rest[i - 1].(holdCount := rest[i - 1].holdCount + 1)];
    }
  }

  lemma NotHeld(stk: seq<LockNode>, id: LockId)
    requires forall j | 0 <= j < |stk| :: stk[j].id != id
    ensures !Holds(stk, id)
  {
  }

  /** Counting down or dropping the entry at `i`, the last for its lock. */
  lemma {:induction false} DropAt(stk: seq<LockNode>, i: nat, id: LockId)
    requires i < |stk| && stk[i].id == id && forall j | i < j < |stk| :: stk[j].id != id
    ensures Drop(stk, id) ==
      if stk[i].holdCount > 1 then stk[i := stk[i].(holdCount := stk[i].holdCount - 1)] else stk[..i] + stk[i + 1..]
  {
    if i < |stk| - 1 {
      var front := stk[..|stk| - 1];
      DropAt(front, i, id);
      assert Drop(stk, id) == Drop(front, id) + [stk[|stk| - 1]];
      assert front[..i] + front[i + 1..] + [stk[|stk| - 1]] == stk[..i] + stk[i + 1..];
    }
  }

  lemma {:induction false} DropAbsent(stk: seq<LockNode>, id: LockId)
    requires forall j | 0 <= j < |stk| :: stk[j].id != id
    ensures Drop(stk, id) == stk
  {
    if stk != [] { DropAbsent(stk[..|stk| - 1], id); }
  }
}
