/** Where the lock-order edges of a replay come from: an edge stands for a request
    made while holding another lock, and carries the first such request since the
    last destruction of either lock. */
module EdgeHistory {
  import opened Locks
  import opened Events
  import opened Replay
  import opened HeldLocks

  /** A request that builds edges: the lock, the kind of request, and the locks
      the thread holds at that moment. */
  datatype Request = Request(id: LockId, kind: LockKind, held: seq<LockNode>)

  /** The request an event makes, if it builds edges. A successful re-entry does
      not; a failed attempt does; a condition wait requests after releasing. */
  function RequestOf(s: GState, e: Event): Option<Request> {
    var stk := StackOf(s, e.tid);
    match ActionOf(e)
    case Acquire(a, k) => if Holds(stk, IdOf(s, a)) then None else Some(Request(IdOf(s, a), k, stk))
    case Attempt(a, k) => Some(Request(IdOf(s, a), k, stk))
    case CondPost(a) =>
      var rest := if a in s.addrGen then Drop(stk, IdOf(s, a)) else stk;
      if Holds(rest, IdOf(s, a)) then None else Some(Request(IdOf(s, a), Mutex, rest))
    case _ => None
  }

  /** The event requests `key.to` while its thread holds `key.frm`, another lock. */
  predicate Builds(s: GState, e: Event, key: EdgeKey) {
    RequestOf(s, e).Some? && var q := RequestOf(s, e).value; key.to == q.id && key.frm != q.id && Holds(q.held, key.frm)
  }

  /** The event destroys one end of the edge. */
  predicate Kills(s: GState, e: Event, key: EdgeKey) {
    match ActionOf(e)
    case Destroy(a) => a in s.addrGen && (key.frm == IdOf(s, a) || key.to == IdOf(s, a))
    case _ => false
  }

  /** The entry of a held lock. */
  function EntryOf(stk: seq<LockNode>, id: LockId): (n: LockNode)
    requires Holds(stk, id)
    ensures n.id == id && n in stk
  {
    if stk[0].id == id then stk[0]
    else
      assert Holds(stk[1..], id) by {
        var i :| 0 <= i < |stk| && stk[i].id == id;
        assert stk[1..][i - 1].id == id;
      }
      EntryOf(stk[1..], id)
  }

  /** What is recorded for the edge: the requesting thread, how the first lock is
      held and how the second is requested, with both backtraces. */
  function Witness(s: GState, e: Event, key: EdgeKey): EdgeInfo
    requires Builds(s, e, key)
  {
    var q := RequestOf(s, e).value;
    var h := EntryOf(q.held, key.frm);
    EdgeInfo(e.tid, h.kind, q.kind, h.acquireBt, e.bt)
  }

  // --------------------------------------------------------------------- one step

  lemma {:induction false} EntryOfFront(stk: seq<LockNode>, id: LockId)
    requires stk != [] && Holds(stk[..|stk| - 1], id)
    ensures Holds(stk, id) && EntryOf(stk, id) == EntryOf(stk[..|stk| - 1], id)
    decreases |stk|
  {
    var front := stk[..|stk| - 1];
    var i :| 0 <= i < |front| && front[i].id == id;
    assert stk[i].id == id;
    if stk[0].id != id {
      assert stk[1..][..|stk[1..]| - 1] == front[1..];
      assert front[1..][i - 1].id == id;
      EntryOfFront(stk[1..], id);
    }
  }

  /** The added edges are those from every other held lock; known edges stay. */
  lemma {:induction false} AddEdgesExact(edges: Edges, stk: seq<LockNode>, id: LockId, k: LockKind, tid: int, bt: Bt,
                                         key: EdgeKey)
    ensures var r := AddEdges(edges, stk, id, k, tid, bt);
            && (key in r <==> key in edges || (key.to == id && key.frm != id && Holds(stk, key.frm)))
            && (key in edges ==> r[key] == edges[key])
            && (key !in edges && key in r ==>
                  Holds(stk, key.frm) &&
                  var h := EntryOf(stk, key.frm); r[key] == EdgeInfo(tid, h.kind, k, h.acquireBt, bt))
  {
    if stk != [] {
      var front, held := stk[..|stk| - 1], stk[|stk| - 1];
      AddEdgesExact(edges, front, id, k, tid, bt, key);
      if Holds(front, key.frm) {
        EntryOfFront(stk, key.frm);
      } else if held.id == key.frm {
        EntryIsLast(stk, key.frm);
      }
    }
  }

  lemma {:induction false} EntryIsLast(stk: seq<LockNode>, id: LockId)
    requires stk != [] && !Holds(stk[..|stk| - 1], id) && stk[|stk| - 1].id == id
    ensures Holds(stk, id) && EntryOf(stk, id) == stk[|stk| - 1]
  {
    if |stk| > 1 {
      var front := stk[..|stk| - 1];
      assert stk[0] == front[0] && front[0].id != id;
      assert stk[1..][..|stk[1..]| - 1] == front[1..];
      forall i | 0 <= i < |front[1..]| ensures front[1..][i].id != id { assert front[1..][i] == front[i + 1]; }
      EntryIsLast(stk[1..], id);
    }
  }

  /** How the edges look after an event. */
  lemma EdgesAfter(s: GState, e: Event)
    ensures match RequestOf(s, e)
            case Some(q) => Step(s, e).edges == AddEdges(s.edges, q.held, q.id, q.kind, e.tid, e.bt)
            case None =>
              match ActionOf(e)
              case Destroy(a) => Step(s, e).edges == DestroyStep(s, a).edges
              case _ => Step(s, e).edges == s.edges
  {
    hide AddEdges, Take, Drop;
  }

  /** An edge is there after an event if it was and is not killed, or is built. */
  lemma EdgeStep(s: GState, e: Event, key: EdgeKey)
    ensures var r := Step(s, e).edges;
            && (key in r <==> (key in s.edges && !Kills(s, e, key)) || Builds(s, e, key))
            && (key in r && key in s.edges ==> r[key] == s.edges[key])
            && (key in r && key !in s.edges ==> r[key] == Witness(s, e, key))
  {
    hide AddEdges, Step;
    EdgesAfter(s, e);
    if RequestOf(s, e).Some? {
      var q := RequestOf(s, e).value;
      AddEdgesExact(s.edges, q.held, q.id, q.kind, e.tid, e.bt, key);
    }
  }

  // ---------------------------------------------------------------- whole histories

  /** Event `i` of the trace requests the edge. */
  ghost predicate BuiltAt(es: seq<Event>, key: EdgeKey, i: int) {
    0 <= i < |es| && Builds(Run(Empty, es[..i]), es[i], key)
  }

  /** Event `i` of the trace destroys an end of the edge. */
  ghost predicate KilledAt(es: seq<Event>, key: EdgeKey, i: int) {
    0 <= i < |es| && Kills(Run(Empty, es[..i]), es[i], key)
  }

  /** The edge is requested at `i` and neither end is destroyed later. */
  ghost predicate Alive(es: seq<Event>, key: EdgeKey, i: int) {
    BuiltAt(es, key, i) && forall j | i < j < |es| :: !KilledAt(es, key, j)
  }

  /** Between any earlier request for the edge and `i`, an end was destroyed. */
  ghost predicate First(es: seq<Event>, key: EdgeKey, i: int) {
    forall j | 0 <= j < i && BuiltAt(es, key, j) :: exists l | j < l < i :: KilledAt(es, key, l)
  }

  lemma AtPrefix(es: seq<Event>, key: EdgeKey, i: int)
    requires es != [] && 0 <= i < |es| - 1
    ensures BuiltAt(es, key, i) <==> BuiltAt(es[..|es| - 1], key, i)
    ensures KilledAt(es, key, i) <==> KilledAt(es[..|es| - 1], key, i)
  {
    assert es[..|es| - 1][..i] == es[..i];
  }

  lemma AliveFront(es: seq<Event>, key: EdgeKey, j: int)
    requires Alive(es, key, j) && j < |es| - 1
    ensures Alive(es[..|es| - 1], key, j)
  {
    hide Builds, Kills;
    AtPrefix(es, key, j);
    var front := es[..|es| - 1];
    forall l | j < l < |front| ensures !KilledAt(front, key, l) { AtPrefix(es, key, l); }
  }

  /** An event that builds an edge does not destroy an end of it. */
  lemma KillsNotBuilds(s: GState, e: Event, key: EdgeKey)
    ensures !(Kills(s, e, key) && Builds(s, e, key))
  {
  }

  /** If no earlier request is alive before the last event, a destruction lies
      between each of them and it. */
  lemma NewIsFirst(es: seq<Event>, front: seq<Event>, key: EdgeKey)
    requires es != [] && front == es[..|es| - 1] && forall j :: !Alive(front, key, j)
    ensures First(es, key, |es| - 1)
  {
    hide Builds, Kills;
    forall j | 0 <= j < |front| && BuiltAt(es, key, j) ensures exists l | j < l < |front| :: KilledAt(es, key, l) {
      AtPrefix(es, key, j);
      assert !Alive(front, key, j);
      var l :| j < l < |front| && KilledAt(front, key, l);
      AtPrefix(es, key, l);
    }
  }

  lemma {:induction false} FindWitness(es: seq<Event>, key: EdgeKey) returns (i: int)
    ensures key in Run(Empty, es).edges ==>
              Alive(es, key, i) && First(es, key, i)
              && Run(Empty, es).edges[key] == Witness(Run(Empty, es[..i]), es[i], key)
    ensures key !in Run(Empty, es).edges ==> forall j :: !Alive(es, key, j)
  {
    hide Step, Builds, Kills, Witness;
    i := -1;
    if es == [] { return; }
    var front, e := es[..|es| - 1], es[|es| - 1];
    var s, n := Run(Empty, front), |front|;
    i := FindWitness(front, key);
    EdgeStep(s, e, key);
    assert BuiltAt(es, key, n) <==> Builds(s, e, key);
    assert KilledAt(es, key, n) <==> Kills(s, e, key);
    if key in Run(Empty, es).edges {
      if key in s.edges {
        KillsNotBuilds(s, e, key);
        FrontStays(es, front, key, i);
      } else {
        NewIsFirst(es, front, key);
        i := n;
      }
    } else {
      forall j ensures !Alive(es, key, j) {
        if j < n && Alive(es, key, j) { AliveFront(es, key, j); }
      }
    }
  }

  lemma FrontStays(es: seq<Event>, front: seq<Event>, key: EdgeKey, i: int)
    requires es != [] && front == es[..|es| - 1] && Alive(front, key, i) && First(front, key, i)
    requires !KilledAt(es, key, |es| - 1)
    ensures Alive(es, key, i) && First(es, key, i) && es[..i] == front[..i]
  {
    hide Builds, Kills;
    forall j | 0 <= j < |front|
      ensures BuiltAt(es, key, j) <==> BuiltAt(front, key, j)
      ensures KilledAt(es, key, j) <==> KilledAt(front, key, j)
    {
      AtPrefix(es, key, j);
    }
  }

  /** The edges of a replay are exactly the requests not undone by a later
      destruction, and an edge records the first request since the last one. */
  lemma EarliestWitness(es: seq<Event>, key: EdgeKey)
    ensures key in Run(Empty, es).edges <==> exists i :: Alive(es, key, i)
    ensures key in Run(Empty, es).edges ==>
              exists i :: Alive(es, key, i) && First(es, key, i)
                && Run(Empty, es).edges[key] == Witness(Run(Empty, es[..i]), es[i], key)
  {
    hide *;
    var i := FindWitness(es, key);
  }

  // ---------------------------------------------------- requests in terms of counts

  /** Event `i` asks for the lock in a way that builds edges: a first acquisition,
      a failed attempt, or the return from a condition wait on a mutex that is
      held at most once. */
  ghost predicate AsksFor(es: seq<Event>, i: int, id: LockId)
    requires 0 <= i < |es|
  {
    var before, e := es[..i], es[i];
    && Means(id, Target(e), Gen(before, Target(e)))
    && (|| (Acquires(e) && Count(before, e.tid, id) == 0)
        || Fails(e)
        || (Returns(e) && Count(before, e.tid, id) <= 1))
  }

  /** The edges an event builds, said without the replayed state: it asks for one
      lock while the counts say that its thread holds the other. */
  lemma BuiltByCounts(es: seq<Event>, key: EdgeKey, i: int)
    requires 0 <= i < |es|
    ensures BuiltAt(es, key, i) <==>
              AsksFor(es, i, key.to) && key.frm != key.to && Count(es[..i], es[i].tid, key.frm) > 0
  {
    hide Drop, WellHeld, Gen, Count, Run, Means;
    var before, e := es[..i], es[i];
    var s := Run(Empty, before);
    HeldIsCounted(before, e.tid, key.frm);
    HeldIsCounted(before, e.tid, key.to);
    ActionIs(e);
    match ActionOf(e)
    case Acquire(a, k) => MeansIsIdOf(before, key.to, a);
    case Attempt(a, k) => MeansIsIdOf(before, key.to, a);
    case CondPost(a) =>
      MeansIsIdOf(before, key.to, a);
      var stk := StackOf(s, e.tid);
      DropHolds(before, e.tid, a, key.frm);
      DropHolds(before, e.tid, a, key.to);
    case _ =>
  }

  lemma MeansIsIdOf(es: seq<Event>, id: LockId, a: int)
    ensures Means(id, a, Gen(es, a)) <==> id == IdOf(Run(Empty, es), a)
  {
    GenIsCurrent(es, a);
  }

  /** Which locks a thread still holds after releasing the lock of `a` once. */
  lemma DropHolds(es: seq<Event>, tid: int, a: int, x: LockId)
    ensures var s := Run(Empty, es);
            var stk := StackOf(s, tid);
            var rest := if a in s.addrGen then Drop(stk, IdOf(s, a)) else stk;
            Holds(rest, x) <==> Count(es, tid, x) > if x == IdOf(s, a) then 1 else 0
  {
    hide Drop, WellHeld, Run, Holds;
    var s := Run(Empty, es);
    var stk := StackOf(s, tid);
    HeldIsCounted(es, tid, x);
    CountNeedsGen(es, tid, x);
    GenIsCurrent(es, a);
    DropCounts(stk, IdOf(s, a), x);
    HoldsIsPositive(stk, x);
    HoldsIsPositive(Drop(stk, IdOf(s, a)), x);
  }
}
