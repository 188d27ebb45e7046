/** The analyzer's graph object: handlers that update its dictionaries in place,
    proved to do what the replay function says. */
module LockGraph {
  import opened BitMask
  import opened Locks
  import opened Events
  import opened Replay

  class Graph {
    var addrGen: map<int, int>
    var meta: map<LockId, LockMeta>
    var edges: Edges
    var stacks: map<int, seq<LockNode>>

    ghost function View(): GState
      reads this
    {
      GState(addrGen, meta, edges, stacks)
    }

    constructor ()
      ensures View() == Empty
    {
      addrGen, meta, edges, stacks := map[], map[], map[], map[];
    }

    method EnsureGen(addr: int) returns (id: LockId)
      modifies this`addrGen
      ensures id == old(IdOf(View(), addr))
      ensures addrGen == old(addrGen)[addr := id.gen]
    {
      if addr !in addrGen {
        addrGen := addrGen[addr := 1];
        return LockId(addr, 1);
      }
      assert addrGen == addrGen[addr := addrGen[addr]];
      return LockId(addr, addrGen[addr]);
    }

    method OnInit(k: EvKind, addr: int, recursive: bool, tid: int, bt: Bt)
      modifies this
      ensures View() == InitStep(old(View()), k, addr, recursive, tid, bt)
    {
      var gen := (if addr in addrGen then addrGen[addr] else 0) + 1;
      addrGen := addrGen[addr := gen];
      var kind;
      if k == RWLOCK { kind := RwlockWr; } else if k == SPIN { kind := Spin; } else { kind := Mutex; }
      meta := meta[LockId(addr, gen) := LockMeta(kind, recursive, gen, true, bt, tid)];
    }

    method OnDestroy(addr: int)
      modifies this
      ensures View() == DestroyStep(old(View()), addr)
    {
      if addr !in addrGen { return; }
      var id := LockId(addr, addrGen[addr]);
      if id in meta { meta := meta[id := meta[id].(alive := false)]; }
      edges := map key | key in edges && key.frm != id && key.to != id :: edges[key];
    }

    method EnsureMeta(id: LockId, k: LockKind, tid: int)
      modifies this`meta
      ensures meta == if id in old(meta) then old(meta) else old(meta)[id := LockMeta(k, false, id.gen, true, [], tid)]
    {
      if id !in meta { meta := meta[id := LockMeta(k, false, id.gen, true, [], tid)]; }
    }

    method OnAcquire(addr: int, k: LockKind, tid: int, bt: Bt)
      modifies this
      ensures View() == AcquireStep(old(View()), addr, k, tid, bt)
    {
      hide AddEdges, Bump, Holds, Take;
      var id := EnsureGen(addr);
      EnsureMeta(id, k, tid);
      TakeHold(id, k, tid, bt);
    }

    /** Re-entry counts up; otherwise edges are built and a new entry is pushed. */
    method TakeHold(id: LockId, k: LockKind, tid: int, bt: Bt)
      modifies this`stacks, this`edges
      ensures stacks == old(stacks)[tid := Take(old(StackOf(View(), tid)), id, k, tid, bt)]
      ensures edges ==
                if old(Holds(StackOf(View(), tid), id)) then old(edges)
                else AddEdges(old(edges), old(StackOf(View(), tid)), id, k, tid, bt)
    {
      hide AddEdges, Bump, Holds;
      if tid !in stacks { stacks := stacks[tid := []]; }
      var stk := stacks[tid];
      var i := FindHeld(stk, id);
      if i < |stk| {
        BumpAt(stk, i, id);
        stacks := stacks[tid := stk[i := stk[i].(holdCount := stk[i].holdCount + 1)]];
      } else {
        NotHeld(stk, id);
        BuildEdgesTo(id, k, tid, bt);
        stacks := stacks[tid := stk + [LockNode(id, k, 1, bt, tid)]];
      }
    }

    /** The position of the lock among the held ones, or their number. */
    static method FindHeld(stk: seq<LockNode>, id: LockId) returns (i: nat)
      ensures i <= |stk| && (i < |stk| ==> stk[i].id == id)
      ensures forall j | 0 <= j < i :: stk[j].id != id
    {
      i := 0;
      while i < |stk| && stk[i].id != id
        invariant i <= |stk| && forall j | 0 <= j < i :: stk[j].id != id
      {
        i := i + 1;
      }
    }

    method OnAcquireAttempt(addr: int, k: LockKind, tid: int, bt: Bt)
      modifies this
      ensures View() == AttemptStep(old(View()), addr, k, tid, bt)
    {
      var id := EnsureGen(addr);
      EnsureMeta(id, k, tid);
      BuildEdgesTo(id, k, tid, bt);
    }

    method OnUnlock(addr: int, tid: int)
      modifies this`stacks
      ensures View() == UnlockStep(old(View()), addr, tid)
    {
      if tid !in stacks { stacks := stacks[tid := []]; }
      assert stacks == stacks[tid := stacks[tid]];
      var stk := stacks[tid];
      if addr !in addrGen { return; }
      var id := LockId(addr, addrGen[addr]);
      var i := |stk| - 1;
      while i >= 0 && stk[i].id != id
        invariant -1 <= i < |stk| && forall j | i < j < |stk| :: stk[j].id != id
      {
        i := i - 1;
      }
      if i < 0 {
        DropAbsent(stk, id);
        return;
      }
      DropAt(stk, i, id);
      if stk[i].holdCount > 1 {
        stacks := stacks[tid := stk[i := stk[i].(holdCount := stk[i].holdCount - 1)]];
      } else {
        stacks := stacks[tid := stk[..i] + stk[i + 1..]];
      }
    }

    method OnCondPost(addr: int, tid: int, bt: Bt)
      modifies this
      ensures View() == AcquireStep(UnlockStep(old(View()), addr, tid), addr, Mutex, tid, bt)
    {
      OnUnlock(addr, tid);
      OnAcquire(addr, Mutex, tid, bt);
    }

    method BuildEdgesTo(id: LockId, k: LockKind, tid: int, bt: Bt)
      modifies this`edges, this`stacks
      ensures stacks == old(stacks)[tid := StackOf(old(View()), tid)]
      ensures edges == AddEdges(old(edges), StackOf(old(View()), tid), id, k, tid, bt)
    {
      if tid !in stacks { stacks := stacks[tid := []]; }
      assert stacks == stacks[tid := stacks[tid]];
      var stk := stacks[tid];
      var i: nat := 0;
      while i < |stk|
        invariant stacks == old(stacks)[tid := stk]
        invariant i <= |stk| && edges == AddEdges(old(edges), stk[..i], id, k, tid, bt)
      {
        assert stk[..i + 1][..i] == stk[..i];
        var held := stk[i];
        i := i + 1;
        if held.id == id { continue; }
        var key := EdgeKey(held.id, id);
        if key !in edges {
          edges := edges[key := EdgeInfo(tid, held.kind, k, held.acquireBt, bt)];
        }
      }
      assert stk[..|stk|] == stk;
    }

    /** Replays a trace: one handler call per event, in the order of the file. */
    method ReplayAll(events: seq<Event>)
      modifies this
      ensures View() == Run(old(View()), events)
    {
      var i: nat := 0;
      while i < |events|
        invariant i <= |events| && View() == Run(old(View()), events[..i])
      {
        var e := events[i];
        assert events[..i + 1][..i] == events[..i];
        Handle(e);
        i := i + 1;
      }
      assert events[..|events|] == events;
    }

    method Handle(e: Event)
      modifies this
      ensures View() == Step(old(View()), e)
    {
      hide InitStep, DestroyStep, AcquireStep, AttemptStep, UnlockStep;
      var k := KindField(e.kind);
      match e.op {
        case INIT => OnInit(e.kind, e.addr, e.kind == MUTEX && e.rc % 2 == 1, e.tid, e.bt);
        case DESTROY => OnDestroy(e.addr);
        case LOCK_POST =>
          if e.rc == 0 { OnAcquire(e.addr, k, e.tid, e.bt); }
        case TRYLOCK_POST | TIMEDLOCK_POST =>
          if e.rc == 0 { OnAcquire(e.addr, k, e.tid, e.bt); } else { OnAcquireAttempt(e.addr, k, e.tid, e.bt); }
        case RDLOCK_POST =>
          if e.rc == 0 { OnAcquire(e.addr, RwlockRd, e.tid, e.bt); }
        case TRYRDLOCK_POST | TIMEDRDLOCK_POST =>
          if e.rc == 0 {
            OnAcquire(e.addr, RwlockRd, e.tid, e.bt);
          } else {
            OnAcquireAttempt(e.addr, RwlockRd, e.tid, e.bt);
          }
        case WRLOCK_POST =>
          if e.rc == 0 { OnAcquire(e.addr, RwlockWr, e.tid, e.bt); }
        case TRYWRLOCK_POST | TIMEDWRLOCK_POST =>
          if e.rc == 0 {
            OnAcquire(e.addr, RwlockWr, e.tid, e.bt);
          } else {
            OnAcquireAttempt(e.addr, RwlockWr, e.tid, e.bt);
          }
        case UNLOCK => OnUnlock(e.addr, e.tid);
        case COND_WAIT_POST | COND_TIMEDWAIT_POST =>
          var m := e.rc % TWO_TO_THE_64;
          if m != 0 { OnCondPost(m, e.tid, e.bt); }
        case _ =>
      }
    }
  }
}
