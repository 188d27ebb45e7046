/** The strongly connected components search of the cycle finder. It is Tarjan's
    algorithm with the recursion replaced by an explicit stack of frames. */
module Tarjan {
  import opened Locks
  import opened Digraph

  /** A node being explored, and the position of its next neighbour to look at. */
  datatype Frame = Frame(node: LockId, next: nat)

  /** The search between two steps: index and `low` of every visited node, the
      component stack `stk`, the nodes `fr` of the frames. Beside the program's
      variables, `at` gives the position of a node on the stack, `own` the frame
      in whose segment of the stack a node lies, and `upto` the number of
      neighbours of a node that have been looked at. */
  datatype State = State(
    idx: map<LockId, nat>,
    low: map<LockId, nat>,
    stk: seq<LockId>,
    at: map<LockId, nat>,
    fr: seq<LockId>,
    own: map<LockId, nat>,
    upto: map<LockId, nat>,
    counter: nat)
  {
    ghost function Idx(v: LockId): nat { if v in idx then idx[v] else 0 }
    ghost function Low(v: LockId): nat { if v in low then low[v] else 0 }
    ghost function At(v: LockId): nat { if v in at then at[v] else 0 }
    ghost function Own(v: LockId): nat { if v in own then own[v] else 0 }
    ghost function Upto(v: LockId): nat { if v in upto then upto[v] else 0 }

    /** The frame in whose segment of the stack `v` lies. */
    ghost function Root(v: LockId): LockId { if Own(v) < |fr| then fr[Own(v)] else v }
  }

  // ---------------------------------------------------------------- invariants
  //
  // Each invariant is a fact about one node, frame or pair, so that a step has to
  // show only what changes for it. The triggers keep the facts from being used
  // before they are called for by name.

  /** A node that has an index: what has been looked at has an index too, and
      from a node that left the stack all edges lead to such nodes. */
  ghost predicate SeenOk(adj: Adj, s: State, v: LockId) {
    && s.Idx(v) < s.counter
    && s.Upto(v) <= |Neigh(adj, v)|
    && (forall k | 0 <= k < s.Upto(v) :: Neigh(adj, v)[k] in s.idx)
    && (v !in s.at ==> s.Upto(v) == |Neigh(adj, v)| && forall k | 0 <= k < s.Upto(v) :: Neigh(adj, v)[k] !in s.at)
  }

  /** A node on the stack lies in the segment of a frame, and has neighbours
      left to look at only if it is that frame. */
  ghost predicate StackOk(adj: Adj, s: State, v: LockId) {
    && v in s.idx && s.At(v) < |s.stk| && s.stk[s.At(v)] == v
    && s.Own(v) < |s.fr| && s.Root(v) in s.at && s.Idx(s.Root(v)) <= s.Idx(v)
    && (v != s.Root(v) ==> s.Upto(v) == |Neigh(adj, v)|)
  }

  /** `low[v]` is the index of a stack node that `v` reaches. */
  ghost predicate LowReached(adj: Adj, s: State, v: LockId) {
    exists z | z in s.at :: s.Idx(z) == s.Low(v) && Reach(adj, v, z)
  }

  /** `low` is sound, bounds the index of every stack node an explored edge leads
      to, and is least for the frame of the segment. */
  ghost predicate LowOk(adj: Adj, s: State, v: LockId) {
    && s.Low(v) <= s.Idx(v)
    && s.Low(s.Root(v)) <= s.Low(v)
    && LowReached(adj, s, v)
    && (forall k | 0 <= k < s.Upto(v) <= |Neigh(adj, v)| && Neigh(adj, v)[k] in s.at ::
        s.Low(v) <= s.Idx(Neigh(adj, v)[k]))
  }

  /** Indices grow along the stack, and from segment to segment. */
  ghost predicate OrderOk(s: State, u: LockId, v: LockId) {
    && (s.At(u) < s.At(v) ==> s.Idx(u) < s.Idx(v))
    && (s.Own(u) < s.Own(v) ==> s.Idx(u) < s.Idx(v))
  }

  /** A frame reaches its segment and all later ones, and is reached by its
      segment and all earlier ones. */
  ghost predicate LinkOk(adj: Adj, s: State, i: nat, v: LockId)
    requires i < |s.fr|
  {
    && (i <= s.Own(v) ==> Reach(adj, s.fr[i], v))
    && (s.Own(v) <= i ==> Reach(adj, v, s.fr[i]))
  }

  ghost predicate FrameOk(s: State, i: nat)
    requires i < |s.fr|
  {
    s.fr[i] in s.at && s.Own(s.fr[i]) == i
  }

  ghost predicate PosOk(s: State, j: nat)
    requires j < |s.stk|
  {
    s.stk[j] in s.at && s.At(s.stk[j]) == j
  }

  ghost predicate Domains(s: State) {
    s.idx.Keys == s.low.Keys == s.upto.Keys && s.at.Keys == s.own.Keys
  }

  ghost predicate AllSeen(adj: Adj, s: State) {
    forall v {:trigger SeenOk(adj, s, v)} | v in s.idx :: SeenOk(adj, s, v)
  }

  ghost predicate AllOnStack(adj: Adj, s: State) {
    forall v {:trigger StackOk(adj, s, v)} | v in s.at :: StackOk(adj, s, v)
  }

  ghost predicate AllLow(adj: Adj, s: State) {
    forall v {:trigger LowOk(adj, s, v)} | v in s.at :: LowOk(adj, s, v)
  }

  ghost predicate AllOrdered(s: State) {
    forall u, v {:trigger OrderOk(s, u, v)} | u in s.at && v in s.at :: OrderOk(s, u, v)
  }

  ghost predicate AllPlaced(s: State) {
    && (forall i: nat {:trigger FrameOk(s, i)} | i < |s.fr| :: FrameOk(s, i))
    && (forall j: nat {:trigger PosOk(s, j)} | j < |s.stk| :: PosOk(s, j))
  }

  ghost predicate AllLinked(adj: Adj, s: State) {
    forall i: nat, v {:trigger LinkOk(adj, s, i, v)} | i < |s.fr| && v in s.at :: LinkOk(adj, s, i, v)
  }

  ghost predicate Inv(adj: Adj, s: State) {
    && Domains(s) && AllSeen(adj, s) && AllOnStack(adj, s) && AllLow(adj, s) && AllOrdered(s)
    && AllPlaced(s) && AllLinked(adj, s)
  }

  // ------------------------------------------------------------- pushing a node

  /** The node of the top frame. */
  ghost function Top(s: State): LockId
    requires s.fr != []
  {
    s.fr[|s.fr| - 1]
  }

  /** The neighbour the top frame looks at next. */
  ghost predicate IsNext(adj: Adj, s: State, w: LockId) {
    && s.fr != [] && s.Upto(Top(s)) < |Neigh(adj, Top(s))|
    && w == Neigh(adj, Top(s))[s.Upto(Top(s))]
  }

  /** A node `w` seen for the first time gets the next index and goes on both
      stacks; the frame that came across it, if any, has moved past it. */
  ghost function Push(s: State, w: LockId): State {
    var upto := if s.fr == [] then s.upto else s.upto[Top(s) := s.Upto(Top(s)) + 1];
    State(s.idx[w := s.counter], s.low[w := s.counter], s.stk + [w], s.at[w := |s.stk|],
          s.fr + [w], s.own[w := |s.fr|], upto[w := 0], s.counter + 1)
  }

  lemma LowSelf(adj: Adj, s: State, v: LockId)
    requires v in s.at && s.Low(v) == s.Idx(v)
    ensures LowReached(adj, s, v)
  {
    ReachRefl(adj, v);
  }

  lemma LowStays(adj: Adj, s: State, t: State, v: LockId)
    requires LowReached(adj, s, v) && s.Low(v) == t.Low(v)
    requires forall z | z in s.at && s.Idx(z) <= s.Low(v) :: z in t.at && t.Idx(z) == s.Idx(z)
    ensures LowReached(adj, t, v)
  {
  }

  /** When a node may be pushed: the search is between two trees, or the top
      frame has come across it. */
  ghost predicate MayPush(adj: Adj, s: State, w: LockId) {
    && Domains(s) && w !in s.idx && w !in s.at
    && (s.fr == [] || (IsNext(adj, s, w) && Top(s) in s.at && Top(s) in s.idx && s.Own(Top(s)) == |s.fr| - 1))
  }

  lemma PushSeen(adj: Adj, s: State, w: LockId, v: LockId)
    requires MayPush(adj, s, w) && (v == w || SeenOk(adj, s, v))
    ensures SeenOk(adj, Push(s, w), v)
  {
  }

  lemma PushStack(adj: Adj, s: State, w: LockId, v: LockId)
    requires MayPush(adj, s, w) && (v == w || (v in s.at && StackOk(adj, s, v)))
    ensures StackOk(adj, Push(s, w), v)
  {
  }

  lemma PushLow(adj: Adj, s: State, w: LockId, v: LockId)
    requires MayPush(adj, s, w)
    requires v == w || (v in s.at && SeenOk(adj, s, v) && StackOk(adj, s, v) && LowOk(adj, s, v))
    requires forall z | z in s.at :: z in s.idx
    ensures LowOk(adj, Push(s, w), v)
  {
    hide LowReached;
    var t := Push(s, w);
    if v == w { LowSelf(adj, t, w); } else { LowStays(adj, s, t, v); }
  }

  lemma PushOrder(adj: Adj, s: State, w: LockId, u: LockId, v: LockId)
    requires MayPush(adj, s, w)
    requires u == w || (u in s.at && StackOk(adj, s, u) && SeenOk(adj, s, u))
    requires v == w || (v in s.at && StackOk(adj, s, v) && SeenOk(adj, s, v))
    requires u == w || v == w || OrderOk(s, u, v)
    ensures OrderOk(Push(s, w), u, v)
  {
  }

  lemma PushLink(adj: Adj, s: State, w: LockId, i: nat, v: LockId)
    requires MayPush(adj, s, w) && Inv(adj, s)
    requires i <= |s.fr| && (v == w || v in s.at)
    ensures LinkOk(adj, Push(s, w), i, v)
  {
    hide Reach;
    var k := |s.fr| - 1;
    if i <= k && v != w {
      assert LinkOk(adj, s, i, v) && StackOk(adj, s, v);
    } else if v == w {
      ReachRefl(adj, w);
      if i <= k {
        assert LinkOk(adj, s, i, Top(s));
        ReachEdge(adj, Top(s), w);
        ReachTrans(adj, s.fr[i], Top(s), w);
      }
    } else {
      assert StackOk(adj, s, v) && LinkOk(adj, s, k, v);
      ReachEdge(adj, Top(s), w);
      ReachTrans(adj, v, Top(s), w);
    }
  }

  lemma PushFrames(adj: Adj, s: State, w: LockId)
    requires MayPush(adj, s, w)
    ensures var t := Push(s, w);
            && Domains(t)
            && (forall i: nat | i < |t.fr| && (i < |s.fr| ==> FrameOk(s, i)) :: FrameOk(t, i))
            && (forall j: nat | j < |t.stk| && (j < |s.stk| ==> PosOk(s, j)) :: PosOk(t, j))
  {
  }

  lemma PushAllowed(adj: Adj, s: State, w: LockId)
    requires Inv(adj, s) && w !in s.idx && (s.fr == [] || IsNext(adj, s, w))
    ensures MayPush(adj, s, w)
    ensures forall z | z in s.at :: z in s.idx
  {
    hide SeenOk, LowOk, OrderOk, LinkOk;
    forall z | z in s.at ensures z in s.idx { assert StackOk(adj, s, z); }
    if s.fr != [] { assert FrameOk(s, |s.fr| - 1); }
  }

  lemma PushAllSeen(adj: Adj, s: State, w: LockId)
    requires MayPush(adj, s, w) && AllSeen(adj, s)
    ensures AllSeen(adj, Push(s, w))
  {
    hide SeenOk, MayPush;
    forall v | v in Push(s, w).idx ensures SeenOk(adj, Push(s, w), v) { PushSeen(adj, s, w, v); }
  }

  lemma PushAllOnStack(adj: Adj, s: State, w: LockId)
    requires MayPush(adj, s, w) && AllOnStack(adj, s)
    ensures AllOnStack(adj, Push(s, w))
  {
    hide StackOk, MayPush;
    forall v | v in Push(s, w).at ensures StackOk(adj, Push(s, w), v) { PushStack(adj, s, w, v); }
  }

  lemma PushAllLow(adj: Adj, s: State, w: LockId)
    requires MayPush(adj, s, w) && AllSeen(adj, s) && AllOnStack(adj, s) && AllLow(adj, s)
    requires forall z | z in s.at :: z in s.idx
    ensures AllLow(adj, Push(s, w))
  {
    hide SeenOk, StackOk, LowOk, MayPush;
    forall v | v in Push(s, w).at ensures LowOk(adj, Push(s, w), v) { PushLow(adj, s, w, v); }
  }

  lemma PushAllOrdered(adj: Adj, s: State, w: LockId)
    requires MayPush(adj, s, w) && AllSeen(adj, s) && AllOnStack(adj, s) && AllOrdered(s)
    requires forall z | z in s.at :: z in s.idx
    ensures AllOrdered(Push(s, w))
  {
    hide SeenOk, StackOk, OrderOk, MayPush;
    forall u, v | u in Push(s, w).at && v in Push(s, w).at ensures OrderOk(Push(s, w), u, v) {
      PushOrder(adj, s, w, u, v);
    }
  }

  lemma PushAllLinked(adj: Adj, s: State, w: LockId)
    requires MayPush(adj, s, w) && Inv(adj, s)
    ensures AllLinked(adj, Push(s, w))
  {
    hide Inv, LinkOk, MayPush;
    forall i: nat, v | i < |Push(s, w).fr| && v in Push(s, w).at ensures LinkOk(adj, Push(s, w), i, v) {
      PushLink(adj, s, w, i, v);
    }
  }

  lemma PushAllPlaced(adj: Adj, s: State, w: LockId)
    requires MayPush(adj, s, w) && AllPlaced(s)
    ensures Domains(Push(s, w)) && AllPlaced(Push(s, w))
  {
    hide FrameOk, PosOk, MayPush, Domains;
    PushFrames(adj, s, w);
  }

  /** Opening an unvisited node keeps the invariant. */
  lemma PushKeeps(adj: Adj, s: State, w: LockId)
    requires Inv(adj, s) && w !in s.idx && (s.fr == [] || IsNext(adj, s, w))
    ensures Inv(adj, Push(s, w))
  {
    hide AllSeen, AllOnStack, AllLow, AllOrdered, AllPlaced, AllLinked, MayPush, Push, IsNext, Domains;
    PushAllowed(adj, s, w);
    PushAllPlaced(adj, s, w);
    PushAllSeen(adj, s, w);
    PushAllOnStack(adj, s, w);
    PushAllLow(adj, s, w);
    PushAllOrdered(adj, s, w);
    PushAllLinked(adj, s, w);
  }

  // ------------------------------------------------- looking at a visited node

  /** The top frame looks at a neighbour that has an index. */
  ghost function Look(s: State, w: LockId): State
    requires s.fr != []
  {
    var v := Top(s);
    var low := if w in s.at && s.Idx(w) < s.Low(v) then s.low[v := s.Idx(w)] else s.low;
    s.(upto := s.upto[v := s.Upto(v) + 1], low := low)
  }

  lemma LookLow(adj: Adj, s: State, w: LockId, v: LockId)
    requires Inv(adj, s) && IsNext(adj, s, w) && w in s.idx && v in s.at
    ensures LowOk(adj, Look(s, w), v)
  {
    hide Reach;
    var t := Look(s, w);
    var top := Top(s);
    assert FrameOk(s, |s.fr| - 1);
    assert StackOk(adj, s, v) && StackOk(adj, s, top) && LowOk(adj, s, v) && LowOk(adj, s, top);
    if v == top && w in s.at && s.Idx(w) < s.Low(v) {
      ReachEdge(adj, v, w);
      assert t.Idx(w) == t.Low(v);
      assert LowReached(adj, t, v);
    } else {
      hide LowReached;
      LowStays(adj, s, t, v);
    }
  }

  lemma LookSeen(adj: Adj, s: State, w: LockId, v: LockId)
    requires IsNext(adj, s, w) && Top(s) in s.at && w in s.idx && SeenOk(adj, s, v)
    ensures SeenOk(adj, Look(s, w), v)
  {
  }

  lemma LookStack(adj: Adj, s: State, w: LockId, v: LockId)
    requires IsNext(adj, s, w) && s.Own(Top(s)) == |s.fr| - 1 && StackOk(adj, s, v)
    ensures StackOk(adj, Look(s, w), v)
  {
  }

  /** Changing `low` and `upto` leaves the facts about the stack and reachability. */
  lemma LookRest(adj: Adj, s: State, w: LockId)
    requires Domains(s) && s.fr != [] && Top(s) in s.idx
    ensures var t := Look(s, w);
            && Domains(t) && t.at == s.at && t.idx == s.idx && t.fr == s.fr && t.stk == s.stk
            && (forall u, v :: OrderOk(t, u, v) == OrderOk(s, u, v))
            && (forall i: nat, v | i < |t.fr| :: LinkOk(adj, t, i, v) == LinkOk(adj, s, i, v))
            && (forall i: nat | i < |t.fr| :: FrameOk(t, i) == FrameOk(s, i))
            && (forall j: nat | j < |t.stk| :: PosOk(t, j) == PosOk(s, j))
  {
    hide Reach;
  }

  lemma TopFacts(adj: Adj, s: State)
    requires Inv(adj, s) && s.fr != []
    ensures var v := Top(s);
            && v in s.at && v in s.idx && s.Own(v) == |s.fr| - 1 && s.Root(v) == v
            && SeenOk(adj, s, v) && StackOk(adj, s, v) && LowOk(adj, s, v)
  {
    assert FrameOk(s, |s.fr| - 1);
    assert StackOk(adj, s, Top(s));
  }

  lemma LookKeeps(adj: Adj, s: State, w: LockId)
    requires Inv(adj, s) && IsNext(adj, s, w) && w in s.idx
    ensures Inv(adj, Look(s, w))
  {
    hide SeenOk, StackOk, LowOk, OrderOk, LinkOk, FrameOk, PosOk, Look, Domains;
    var t := Look(s, w);
    TopFacts(adj, s);
    LookRest(adj, s, w);
    assert t.idx.Keys == s.idx.Keys;
    forall v | v in t.idx ensures SeenOk(adj, t, v) { LookSeen(adj, s, w, v); }
    forall v | v in t.at ensures StackOk(adj, t, v) { LookStack(adj, s, w, v); }
    forall v | v in t.at ensures LowOk(adj, t, v) { LookLow(adj, s, w, v); }
  }

  // ----------------------------------------------------------- leaving a frame

  /** The top frame has looked at all its neighbours. */
  ghost predicate Exhausted(adj: Adj, s: State) {
    s.fr != [] && s.Upto(Top(s)) == |Neigh(adj, Top(s))|
  }

  /** The `low` of the frame below takes the value of the top frame if that is less. */
  ghost function LowUp(s: State): map<LockId, nat>
    requires s.fr != []
  {
    var k := |s.fr| - 1;
    if k > 0 && s.Low(s.fr[k]) < s.Low(s.fr[k - 1]) then s.low[s.fr[k - 1] := s.Low(s.fr[k])] else s.low
  }

  /** The top frame is not the root of a component: its segment joins that of
      the frame below. */
  ghost function Merge(s: State): State
    requires s.fr != []
  {
    var k := |s.fr| - 1;
    s.(low := LowUp(s), fr := s.fr[..k],
      own := map u | u in s.own :: if s.own[u] == k then if k > 0 then k - 1 else 0 else s.own[u])
  }

  /** A frame whose `low` is not its index is not the first. */
  lemma HasParent(adj: Adj, s: State)
    requires Inv(adj, s) && s.fr != [] && s.Low(Top(s)) != s.Idx(Top(s))
    ensures |s.fr| > 1
    ensures exists z :: z in s.at && s.Idx(z) < s.Idx(Top(s)) && s.Own(z) < |s.fr| - 1
                      && Reach(adj, Top(s), z) && s.Idx(z) == s.Low(Top(s))
  {
    hide Reach;
    TopFacts(adj, s);
    var v := Top(s);
    var z :| z in s.at && s.Idx(z) == s.Low(v) && Reach(adj, v, z);
    assert StackOk(adj, s, z);
  }

  lemma MergeSeen(adj: Adj, s: State, v: LockId)
    requires s.fr != [] && SeenOk(adj, s, v)
    ensures SeenOk(adj, Merge(s), v)
  {
  }

  lemma MergeStack(adj: Adj, s: State, v: LockId)
    requires Inv(adj, s) && Exhausted(adj, s) && |s.fr| > 1 && v in s.at
    ensures StackOk(adj, Merge(s), v)
  {
    hide SeenOk, LowOk, LinkOk;
    var p := s.fr[|s.fr| - 2];
    assert FrameOk(s, |s.fr| - 2) && StackOk(adj, s, v) && StackOk(adj, s, p) && OrderOk(s, p, v);
  }

  lemma MergeReached(adj: Adj, s: State, v: LockId)
    requires Inv(adj, s) && Exhausted(adj, s) && s.Low(Top(s)) != s.Idx(Top(s)) && v in s.at
    ensures LowReached(adj, Merge(s), v)
  {
    hide Reach, OrderOk, PosOk, SeenOk, StackOk;
    HasParent(adj, s);
    var t, top, p := Merge(s), Top(s), s.fr[|s.fr| - 2];
    assert Domains(s) && LowOk(adj, s, v) && FrameOk(s, |s.fr| - 1);
    if v == p && s.Low(top) < s.Low(p) {
      var z :| z in s.at && s.Idx(z) == s.Low(top) && Reach(adj, top, z);
      assert LinkOk(adj, s, |s.fr| - 2, top);
      ReachTrans(adj, p, top, z);
      assert t.Idx(z) == t.Low(v);
    } else {
      LowStays(adj, s, t, v);
    }
  }

  lemma MergeLow(adj: Adj, s: State, p: LockId, v: LockId)
    requires Domains(s) && |s.fr| > 1 && p == s.fr[|s.fr| - 2] && p in s.at && Top(s) in s.at && p in s.idx
    requires s.Own(p) == |s.fr| - 2 && s.Idx(p) <= s.Idx(Top(s)) && s.Own(Top(s)) == |s.fr| - 1
    requires v in s.at && s.Own(v) < |s.fr| && s.Own(s.Root(v)) == s.Own(v)
    requires LowOk(adj, s, v) && LowOk(adj, s, p) && LowOk(adj, s, Top(s)) && LowReached(adj, Merge(s), v)
    ensures LowOk(adj, Merge(s), v)
  {
    hide LowReached;
  }

  /** The parts of the invariant that only need the frames to be fewer. */
  lemma MergeRest(adj: Adj, s: State)
    requires Inv(adj, s) && |s.fr| > 1
    ensures var t := Merge(s);
            && Domains(t) && t.at == s.at && t.idx == s.idx && t.stk == s.stk && |t.fr| == |s.fr| - 1
            && (forall i: nat | i < |t.fr| :: FrameOk(t, i))
            && (forall j: nat | j < |t.stk| :: PosOk(t, j))
  {
    hide StackOk, LowOk, SeenOk, LinkOk, OrderOk;
    var t := Merge(s);
    forall i: nat | i < |t.fr| ensures FrameOk(t, i) { assert FrameOk(s, i); }
    forall j: nat | j < |t.stk| ensures PosOk(t, j) { assert PosOk(s, j); }
  }

  lemma MergeOrder(adj: Adj, s: State, u: LockId, v: LockId)
    requires Inv(adj, s) && |s.fr| > 1 && u in s.at && v in s.at
    ensures OrderOk(Merge(s), u, v)
  {
    hide LowOk, SeenOk, LinkOk, FrameOk, PosOk;
    assert OrderOk(s, u, v) && StackOk(adj, s, u) && StackOk(adj, s, v);
  }

  lemma ParentFacts(adj: Adj, s: State, v: LockId)
    requires Inv(adj, s) && |s.fr| > 1 && v in s.at
    ensures var p := s.fr[|s.fr| - 2];
            && p in s.at && p in s.idx && s.Own(p) == |s.fr| - 2 && s.Idx(p) <= s.Idx(Top(s)) && LowOk(adj, s, p)
    ensures s.Own(v) < |s.fr| && s.Own(s.Root(v)) == s.Own(v)
  {
    hide LowOk, SeenOk, LinkOk;
    TopFacts(adj, s);
    var p := s.fr[|s.fr| - 2];
    assert FrameOk(s, |s.fr| - 2) && StackOk(adj, s, p) && OrderOk(s, p, Top(s));
    assert StackOk(adj, s, v) && FrameOk(s, s.Own(v));
  }

  lemma MergeKeeps(adj: Adj, s: State)
    requires Inv(adj, s) && Exhausted(adj, s) && s.Low(Top(s)) != s.Idx(Top(s))
    ensures |s.fr| > 1 && Inv(adj, Merge(s))
  {
    hide SeenOk, StackOk, LowOk, OrderOk, LinkOk, FrameOk, PosOk, Merge, Domains, LowReached, Reach;
    HasParent(adj, s);
    TopFacts(adj, s);
    MergeRest(adj, s);
    var t := Merge(s);
    forall v | v in t.idx ensures SeenOk(adj, t, v) { MergeSeen(adj, s, v); }
    forall v | v in t.at ensures StackOk(adj, t, v) { MergeStack(adj, s, v); }
    forall v | v in t.at ensures LowOk(adj, t, v) {
      ParentFacts(adj, s, v);
      MergeReached(adj, s, v);
      MergeLow(adj, s, s.fr[|s.fr| - 2], v);
    }
    forall u, v | u in t.at && v in t.at ensures OrderOk(t, u, v) { MergeOrder(adj, s, u, v); }
    forall i: nat, v | i < |t.fr| && v in t.at ensures LinkOk(adj, t, i, v) { MergeLink(adj, s, i, v); }
  }

  lemma MergeLink(adj: Adj, s: State, i: nat, v: LockId)
    requires Inv(adj, s) && Exhausted(adj, s) && s.Low(Top(s)) != s.Idx(Top(s)) && v in s.at && i < |s.fr| - 1
    ensures LinkOk(adj, Merge(s), i, v)
  {
    hide Reach, OrderOk, PosOk, SeenOk, LowOk, StackOk;
    assert LinkOk(adj, s, i, v);
    var k := |s.fr| - 1;
    if s.Own(v) == k && i == k - 1 {
      HasParent(adj, s);
      var z :| z in s.at && s.Own(z) < k && Reach(adj, Top(s), z);
      assert LinkOk(adj, s, k, v) && LinkOk(adj, s, k - 1, z);
      ReachTrans(adj, v, Top(s), z);
      ReachTrans(adj, v, z, s.fr[i]);
    }
  }

  // ------------------------------------------------------ closing a component

  /** The top frame is the root of a component: all of the stack from it on leaves. */
  ghost predicate IsRoot(adj: Adj, s: State) {
    Exhausted(adj, s) && s.Low(Top(s)) == s.Idx(Top(s))
  }

  ghost function Close(s: State): State
    requires s.fr != [] && s.At(Top(s)) <= |s.stk|
  {
    var pos := s.At(Top(s));
    s.(low := LowUp(s), stk := s.stk[..pos], fr := s.fr[..|s.fr| - 1],
       at := map u | u in s.at && s.at[u] < pos :: s.at[u],
       own := map u | u in s.own && s.At(u) < pos :: s.own[u])
  }

  /** The nodes that leave the stack with the top frame. */
  ghost predicate Leaves(s: State, u: LockId)
    requires s.fr != []
  {
    u in s.at && s.At(u) >= s.At(Top(s))
  }

  /** The top segment of the stack is that of the top frame. */
  lemma LeavesIsSegment(adj: Adj, s: State, u: LockId)
    requires Inv(adj, s) && s.fr != [] && u in s.at
    ensures Leaves(s, u) <==> s.Own(u) == |s.fr| - 1
    ensures s.Own(u) < |s.fr|
    ensures Leaves(s, u) <==> s.Idx(u) >= s.Idx(Top(s))
  {
    hide LowOk, SeenOk, LinkOk, PosOk;
    TopFacts(adj, s);
    assert StackOk(adj, s, u) && OrderOk(s, u, Top(s)) && OrderOk(s, Top(s), u);
  }

  lemma LowUpIdle(adj: Adj, s: State)
    requires Inv(adj, s) && IsRoot(adj, s)
    ensures LowUp(s) == s.low
  {
    hide SeenOk, LinkOk, PosOk;
    if |s.fr| > 1 {
      var p := s.fr[|s.fr| - 2];
      TopFacts(adj, s);
      ParentFacts(adj, s, Top(s));
      LeavesIsSegment(adj, s, p);
    }
  }

  /** All edges of a node that leaves go to nodes that leave or have left. */
  lemma LeavesClosed(adj: Adj, s: State, u: LockId, k: nat)
    requires Inv(adj, s) && IsRoot(adj, s) && u in s.idx && (u in s.at ==> Leaves(s, u)) && k < |Neigh(adj, u)|
    ensures var w := Neigh(adj, u)[k]; w in s.idx && (w in s.at ==> u in s.at && Leaves(s, w))
  {
    hide LinkOk, PosOk, LowReached, OrderOk;
    assert SeenOk(adj, s, u);
    if u in s.at {
      TopFacts(adj, s);
      LeavesIsSegment(adj, s, u);
      assert StackOk(adj, s, u) && LowOk(adj, s, u);
      var w := Neigh(adj, u)[k];
      if w in s.at { LeavesIsSegment(adj, s, w); }
    }
  }

  lemma CloseSeen(adj: Adj, s: State, v: LockId)
    requires Inv(adj, s) && IsRoot(adj, s) && v in s.idx && s.At(Top(s)) <= |s.stk|
    ensures SeenOk(adj, Close(s), v)
  {
    hide LinkOk, PosOk, LowOk, OrderOk, FrameOk;
    var t := Close(s);
    assert SeenOk(adj, s, v);
    if v !in t.at {
      forall k | 0 <= k < |Neigh(adj, v)| ensures Neigh(adj, v)[k] in s.idx && Neigh(adj, v)[k] !in t.at {
        LeavesClosed(adj, s, v, k);
      }
      if v in s.at {
        LeavesIsSegment(adj, s, v);
        assert StackOk(adj, s, v);
      }
    }
  }

  lemma CloseStack(adj: Adj, s: State, v: LockId)
    requires Inv(adj, s) && IsRoot(adj, s) && v in s.at && !Leaves(s, v) && s.At(Top(s)) <= |s.stk|
    ensures StackOk(adj, Close(s), v)
  {
    hide LinkOk, PosOk, LowOk, OrderOk, SeenOk;
    LeavesIsSegment(adj, s, v);
    assert StackOk(adj, s, v) && FrameOk(s, s.Own(v));
    LeavesIsSegment(adj, s, s.Root(v));
  }

  lemma CloseLow(adj: Adj, s: State, v: LockId)
    requires Inv(adj, s) && IsRoot(adj, s) && v in s.at && !Leaves(s, v) && s.At(Top(s)) <= |s.stk|
    ensures LowOk(adj, Close(s), v)
  {
    hide LinkOk, PosOk, OrderOk, SeenOk, Reach, FrameOk, StackOk;
    LeavesIsSegment(adj, s, v);
    assert LowOk(adj, s, v);
    LowUpIdle(adj, s);
    var z :| z in s.at && s.Idx(z) == s.Low(v) && Reach(adj, v, z);
    LeavesIsSegment(adj, s, z);
    assert z in Close(s).at;
  }

  lemma CloseRest(adj: Adj, s: State)
    requires Inv(adj, s) && IsRoot(adj, s) && s.At(Top(s)) <= |s.stk|
    ensures var t := Close(s);
            && Domains(t) && t.idx == s.idx && |t.fr| == |s.fr| - 1 && t.upto == s.upto
            && (forall v :: v in t.at <==> v in s.at && !Leaves(s, v))
            && (forall i: nat | i < |t.fr| :: FrameOk(t, i))
            && (forall j: nat | j < |t.stk| :: PosOk(t, j))
  {
    hide LinkOk, OrderOk, SeenOk, LowOk, StackOk;
    var t := Close(s);
    LowUpIdle(adj, s);
    assert forall v :: v in t.at <==> v in s.at && !Leaves(s, v);
    forall i: nat | i < |t.fr| ensures FrameOk(t, i) {
      assert FrameOk(s, i);
      LeavesIsSegment(adj, s, s.fr[i]);
    }
    forall j: nat | j < |t.stk| ensures PosOk(t, j) { assert PosOk(s, j); }
  }

  lemma CloseOrder(adj: Adj, s: State, u: LockId, v: LockId)
    requires Domains(s) && s.fr != [] && s.At(Top(s)) <= |s.stk|
    requires u in s.at && v in s.at && !Leaves(s, u) && !Leaves(s, v) && OrderOk(s, u, v)
    ensures OrderOk(Close(s), u, v)
  {
  }

  lemma CloseLink(adj: Adj, s: State, i: nat, v: LockId)
    requires Domains(s) && i < |s.fr| - 1 && s.At(Top(s)) <= |s.stk|
    requires v in s.at && !Leaves(s, v) && LinkOk(adj, s, i, v)
    ensures LinkOk(adj, Close(s), i, v)
  {
    hide Reach;
  }

  lemma CloseKeeps(adj: Adj, s: State)
    requires Inv(adj, s) && IsRoot(adj, s)
    ensures s.At(Top(s)) < |s.stk| && Inv(adj, Close(s))
  {
    hide SeenOk, LowOk, OrderOk, LinkOk, FrameOk, PosOk, Close, LowReached, Reach, Leaves, IsRoot, Exhausted;
    assert s.fr != [] by { RootHasFrame(adj, s); }
    assert s.At(Top(s)) < |s.stk| by { TopFacts(adj, s); }
    CloseParts(adj, s);
  }

  lemma RootHasFrame(adj: Adj, s: State)
    requires IsRoot(adj, s)
    ensures s.fr != []
  {
  }

  lemma CloseParts(adj: Adj, s: State)
    requires Inv(adj, s) && IsRoot(adj, s) && s.At(Top(s)) <= |s.stk|
    ensures Inv(adj, Close(s))
  {
    hide SeenOk, StackOk, LowOk, OrderOk, LinkOk, FrameOk, PosOk, Close, LowReached, Reach, Leaves, IsRoot, Exhausted;
    RootHasFrame(adj, s);
    CloseRest(adj, s);
    var t := Close(s);
    forall v | v in t.idx ensures SeenOk(adj, t, v) { CloseSeen(adj, s, v); }
    forall v | v in t.at ensures StackOk(adj, t, v) { CloseStack(adj, s, v); }
    forall v | v in t.at ensures LowOk(adj, t, v) { CloseLow(adj, s, v); }
    forall u, v | u in t.at && v in t.at ensures OrderOk(t, u, v) { CloseOrder(adj, s, u, v); }
    forall i: nat, v | i < |t.fr| && v in t.at ensures LinkOk(adj, t, i, v) { CloseLink(adj, s, i, v); }
  }

  /** What leaves the stack is exactly one class of mutual reachability. */
  lemma LeavesIsComponent(adj: Adj, s: State, u: LockId, x: LockId)
    requires Inv(adj, s) && IsRoot(adj, s) && u in s.at && Leaves(s, u)
    ensures x in s.at && Leaves(s, x) <==> Mutual(adj, u, x)
  {
    hide Reach, SeenOk, LowOk, OrderOk, FrameOk, PosOk;
    var k := |s.fr| - 1;
    LeavesIsSegment(adj, s, u);
    assert LinkOk(adj, s, k, u);
    if x in s.at && Leaves(s, x) {
      LeavesIsSegment(adj, s, x);
      assert LinkOk(adj, s, k, x);
      ReachTrans(adj, u, Top(s), x);
      ReachTrans(adj, x, Top(s), u);
    } else if Mutual(adj, u, x) {
      var done := s.idx.Keys - s.at.Keys;
      var all := done + set y | y in s.at && Leaves(s, y);
      assert u in all by { assert StackOk(adj, s, u); }
      forall a, b | a in all && b in Neigh(adj, a) ensures b in all && (a in done ==> b in done) {
        var j :| 0 <= j < |Neigh(adj, a)| && Neigh(adj, a)[j] == b;
        assert a in s.at ==> StackOk(adj, s, a);
        LeavesClosed(adj, s, a, j);
      }
      ClosedReach(adj, all, u, x);
      ClosedReach(adj, done, x, u);
    }
  }

  // --------------------------------------------------------------- the search

  /** One class of mutual reachability, without repetition. */
  ghost predicate IsComponent(adj: Adj, c: seq<LockId>) {
    c != [] && Distinct(c) && forall u, v | u in c :: v in c <==> Mutual(adj, u, v)
  }

  ghost predicate InSome(sccs: seq<seq<LockId>>, v: LockId) {
    exists i | 0 <= i < |sccs| :: v in sccs[i]
  }

  /** The components found so far: each is a component, no two share a node, and
      their nodes are the nodes of `done`. */
  ghost predicate Partition(adj: Adj, sccs: seq<seq<LockId>>, done: set<LockId>) {
    && (forall i | 0 <= i < |sccs| :: IsComponent(adj, sccs[i]))
    && (forall i, j, v | 0 <= i < j < |sccs| && v in sccs[i] :: v !in sccs[j])
    && (forall v :: v in done <==> InSome(sccs, v))
  }

  predicate OnStack(onStack: map<LockId, bool>, v: LockId) {
    v in onStack && onStack[v]
  }

  ghost predicate FramesAgree(s: State, work: seq<Frame>) {
    |work| == |s.fr| && forall i | 0 <= i < |work| :: work[i] == Frame(s.fr[i], s.Upto(s.fr[i]))
  }

  ghost predicate StackAgrees(s: State, onStack: map<LockId, bool>) {
    forall v :: OnStack(onStack, v) <==> v in s.at
  }

  /** No two frames are for the same node. */
  ghost predicate FramesDiffer(s: State) {
    forall i: nat | i < |s.fr| - 1 :: s.fr[i] != s.fr[|s.fr| - 1]
  }

  lemma FramesDifferFrom(adj: Adj, s: State)
    requires Inv(adj, s)
    ensures FramesDiffer(s)
  {
    hide SeenOk, StackOk, LowOk, OrderOk, LinkOk, PosOk;
    forall i: nat | i < |s.fr| - 1 ensures s.fr[i] != s.fr[|s.fr| - 1] {
      assert FrameOk(s, i) && FrameOk(s, |s.fr| - 1);
    }
  }

  lemma PushAgrees(s: State, w: LockId, work: seq<Frame>, onStack: map<LockId, bool>)
    requires FramesAgree(s, work) && StackAgrees(s, onStack) && FramesDiffer(s)
    requires forall i | 0 <= i < |s.fr| :: s.fr[i] != w
    ensures StackAgrees(Push(s, w), onStack[w := true])
    ensures s.fr == [] ==> FramesAgree(Push(s, w), work + [Frame(w, 0)])
    ensures s.fr != [] ==>
      FramesAgree(Push(s, w), work[|work| - 1 := Frame(Top(s), s.Upto(Top(s)) + 1)] + [Frame(w, 0)])
  {
  }

  lemma LookAgrees(s: State, w: LockId, work: seq<Frame>)
    requires FramesAgree(s, work) && FramesDiffer(s) && s.fr != []
    ensures FramesAgree(Look(s, w), work[|work| - 1 := Frame(Top(s), s.Upto(Top(s)) + 1)])
  {
  }

  function Reverse(s: seq<LockId>): (r: seq<LockId>)
    ensures |r| == |s| && forall k | 0 <= k < |s| :: r[k] == s[|s| - 1 - k]
  {
    if s == [] then [] else [s[|s| - 1]] + Reverse(s[..|s| - 1])
  }

  /** The nodes of `gone` lost their mark, and no others. */
  ghost predicate MarksLost(onStack: map<LockId, bool>, onStack0: map<LockId, bool>, gone: seq<LockId>) {
    forall u :: OnStack(onStack, u) <==> OnStack(onStack0, u) && u !in gone
  }

  lemma PopStep(stk0: seq<LockId>, n: nat, comp: seq<LockId>, onStack: map<LockId, bool>, onStack0: map<LockId, bool>)
    requires n < |stk0| && comp == Reverse(stk0[n + 1..]) && MarksLost(onStack, onStack0, stk0[n + 1..])
    ensures comp + [stk0[n]] == Reverse(stk0[n..]) && MarksLost(onStack[stk0[n] := false], onStack0, stk0[n..])
  {
    assert stk0[n..] == [stk0[n]] + stk0[n + 1..];
    ReverseCons(stk0[n], stk0[n + 1..]);
  }

  lemma ReverseCons(x: LockId, s: seq<LockId>)
    ensures Reverse([x] + s) == Reverse(s) + [x]
  {
    var a, b := Reverse([x] + s), Reverse(s) + [x];
    assert |a| == |b|;
    forall k | 0 <= k < |a| ensures a[k] == b[k] { }
  }

  /** Pops the stack down to `v` and collects what comes off. */
  method PopComponent(stk0: seq<LockId>, onStack0: map<LockId, bool>, v: LockId, ghost pos: nat)
    returns (comp: seq<LockId>, stk: seq<LockId>, onStack: map<LockId, bool>)
    requires pos < |stk0| && stk0[pos] == v && v !in stk0[pos + 1..]
    ensures stk == stk0[..pos] && comp == Reverse(stk0[pos..])
    ensures forall u :: OnStack(onStack, u) <==> OnStack(onStack0, u) && u !in stk0[pos..]
  {
    hide Reverse, OnStack;
    comp, stk, onStack := [], stk0, onStack0;
    NothingPopped(stk0, onStack0);
    while true
      invariant pos < |stk| <= |stk0| && stk == stk0[..|stk|]
      invariant comp == Reverse(stk0[|stk|..]) && MarksLost(onStack, onStack0, stk0[|stk|..])
      decreases |stk|
    {
      var w := stk[|stk| - 1];
      PopStep(stk0, |stk| - 1, comp, onStack, onStack0);
      stk := stk[..|stk| - 1];
      onStack := onStack[w := false];
      comp := comp + [w];
      if w == v { break; }
    }
    LaterIsAbove(stk0, pos, |stk|);
  }

  lemma NothingPopped(stk0: seq<LockId>, onStack0: map<LockId, bool>)
    ensures Reverse(stk0[|stk0|..]) == [] && MarksLost(onStack0, onStack0, stk0[|stk0|..])
  {
  }

  lemma LaterIsAbove(stk0: seq<LockId>, pos: nat, n: nat)
    requires n < |stk0|
    ensures n > pos ==> stk0[n] in stk0[pos + 1..]
  {
    if n > pos { assert stk0[pos + 1..][n - pos - 1] == stk0[n]; }
  }

  /** The nodes that left the stack. */
  ghost function Done(s: State): set<LockId> {
    s.idx.Keys - s.at.Keys
  }

  lemma LeavesOnStack(adj: Adj, s: State)
    requires Inv(adj, s) && s.fr != []
    ensures s.At(Top(s)) < |s.stk| && s.stk[s.At(Top(s))] == Top(s)
    ensures Distinct(s.stk)
    ensures forall u :: u in s.stk[s.At(Top(s))..] <==> Leaves(s, u)
    ensures Top(s) !in s.stk[s.At(Top(s)) + 1..]
  {
    hide SeenOk, LowOk, OrderOk, LinkOk, FrameOk;
    TopFacts(adj, s);
    var pos := s.At(Top(s));
    forall i, j | 0 <= i < j < |s.stk| ensures s.stk[i] != s.stk[j] {
      assert PosOk(s, i) && PosOk(s, j);
    }
    forall u ensures u in s.stk[pos..] <==> Leaves(s, u) {
      if u in s.stk[pos..] {
        var j :| pos <= j < |s.stk| && s.stk[j] == u;
        assert PosOk(s, j);
      }
      if Leaves(s, u) {
        assert StackOk(adj, s, u);
        assert s.stk[pos..][s.At(u) - pos] == u;
      }
    }
  }

  lemma CloseComponent(adj: Adj, s: State, comp: seq<LockId>)
    requires Inv(adj, s) && IsRoot(adj, s) && s.At(Top(s)) < |s.stk| && comp == Reverse(s.stk[s.At(Top(s))..])
    ensures IsComponent(adj, comp)
    ensures forall u :: u in comp <==> Leaves(s, u)
  {
    hide Inv, Reach, Mutual, IsRoot;
    RootHasFrame(adj, s);
    LeavesOnStack(adj, s);
    var top := s.stk[s.At(Top(s))..];
    forall u ensures u in comp <==> u in top {
      if u in top {
        var j :| 0 <= j < |top| && top[j] == u;
        assert comp[|top| - 1 - j] == u;
      }
    }
    forall u, v | u in comp ensures v in comp <==> Mutual(adj, u, v) {
      LeavesIsComponent(adj, s, u, v);
    }
  }

  lemma ClosePartition(adj: Adj, s: State, sccs: seq<seq<LockId>>, comp: seq<LockId>)
    requires Inv(adj, s) && IsRoot(adj, s) && s.At(Top(s)) < |s.stk| && comp == Reverse(s.stk[s.At(Top(s))..])
    requires Partition(adj, sccs, Done(s))
    ensures Partition(adj, sccs + [comp], Done(Close(s)))
  {
    hide IsComponent, SeenOk, LowOk, OrderOk, LinkOk, FrameOk, PosOk, Close, Leaves, IsRoot;
    RootHasFrame(adj, s);
    CloseComponent(adj, s, comp);
    CloseRest(adj, s);
    var t := Close(s);
    var all := sccs + [comp];
    forall v ensures v in Done(t) <==> InSome(all, v) {
      LeavesSeen(adj, s, v);
      if v in Done(s) {
        var i :| 0 <= i < |sccs| && v in sccs[i];
        assert v in all[i];
      }
      if Leaves(s, v) {
        assert v in all[|sccs|];
      }
      if InSome(all, v) {
        var i :| 0 <= i < |all| && v in all[i];
        assert i < |sccs| ==> InSome(sccs, v);
      }
    }
    forall i, v | 0 <= i < |sccs| && v in sccs[i] ensures v !in comp {
      assert InSome(sccs, v);
      LeavesSeen(adj, s, v);
    }
  }

  lemma LeavesSeen(adj: Adj, s: State, v: LockId)
    requires Inv(adj, s) && s.fr != []
    ensures Leaves(s, v) ==> v in s.at && v in s.idx
  {
    if v in s.at { assert StackOk(adj, s, v); }
  }

  lemma StackHasFrame(adj: Adj, s: State, v: LockId)
    requires Inv(adj, s) && v in s.at
    ensures s.fr != []
  {
    assert StackOk(adj, s, v);
  }

  /** Once all nodes with an entry have been visited and the stack is empty, the
      visited nodes are all nodes of the graph. */
  lemma AllVisited(adj: Adj, s: State)
    requires Inv(adj, s) && s.fr == [] && adj.Keys <= s.idx.Keys <= Nodes(adj)
    ensures Done(s) == Nodes(adj)
  {
    hide LowOk, OrderOk, LinkOk, FrameOk, PosOk;
    forall v ensures v !in s.at {
      if v in s.at { StackHasFrame(adj, s, v); }
    }
    forall u, v | u in adj.Keys && v in adj[u] ensures v in s.idx {
      assert SeenOk(adj, s, u);
      var k :| 0 <= k < |adj[u]| && adj[u][k] == v;
      assert Neigh(adj, u)[k] == v;
    }
  }

  ghost predicate Agrees(s: State, idx: map<LockId, nat>, low: map<LockId, nat>, onStack: map<LockId, bool>,
                         stk: seq<LockId>, work: seq<Frame>, counter: nat) {
    && s.idx == idx && s.low == low && s.stk == stk && s.counter == counter
    && FramesAgree(s, work) && StackAgrees(s, onStack)
  }

  lemma PushStep(adj: Adj, s: State, w: LockId, work: seq<Frame>, onStack: map<LockId, bool>)
    requires Inv(adj, s) && w !in s.idx && (s.fr == [] || IsNext(adj, s, w))
    requires FramesAgree(s, work) && StackAgrees(s, onStack)
    ensures var t := Push(s, w);
            && Inv(adj, t) && Done(t) == Done(s) && StackAgrees(t, onStack[w := true])
            && (s.fr == [] ==> FramesAgree(t, work + [Frame(w, 0)]))
            && (s.fr != [] ==> FramesAgree(t, work[|work| - 1 := Frame(Top(s), s.Upto(Top(s)) + 1)] + [Frame(w, 0)]))
  {
    hide SeenOk, StackOk, LowOk, OrderOk, LinkOk, PosOk, FramesAgree, StackAgrees, IsNext;
    FramesDifferFrom(adj, s);
    PushAllowed(adj, s, w);
    forall i: nat | i < |s.fr| ensures s.fr[i] != w { assert FrameOk(s, i); }
    PushAgrees(s, w, work, onStack);
    PushKeeps(adj, s, w);
    assert Done(Push(s, w)) == Done(s);
  }

  /** The top frame of the program is the top frame of the state. */
  lemma TopAgrees(adj: Adj, s: State, work: seq<Frame>, onStack: map<LockId, bool>)
    requires Inv(adj, s) && FramesAgree(s, work) && StackAgrees(s, onStack) && work != []
    ensures s.fr != [] && |work| == |s.fr|
    ensures var Frame(v, ni) := work[|work| - 1];
            && v == Top(s) && ni == s.Upto(v) <= |Neigh(adj, v)|
            && v in s.idx && v in s.low && v in s.at
            && (ni < |Neigh(adj, v)| ==> IsNext(adj, s, Neigh(adj, v)[ni]))
            && (ni == |Neigh(adj, v)| ==> Exhausted(adj, s))
  {
    hide SeenOk, StackOk, LowOk, OrderOk, LinkOk, PosOk, StackAgrees;
    TopFacts(adj, s);
    assert s.Upto(Top(s)) <= |Neigh(adj, Top(s))| by { TopUpto(adj, s); }
  }

  lemma TopUpto(adj: Adj, s: State)
    requires Inv(adj, s) && s.fr != []
    ensures s.Upto(Top(s)) <= |Neigh(adj, Top(s))|
  {
    TopFacts(adj, s);
  }

  lemma LookStep(adj: Adj, s: State, w: LockId, work: seq<Frame>, onStack: map<LockId, bool>)
    requires Inv(adj, s) && IsNext(adj, s, w) && w in s.idx
    requires FramesAgree(s, work) && StackAgrees(s, onStack)
    ensures var t := Look(s, w);
            && Inv(adj, t) && Done(t) == Done(s) && StackAgrees(t, onStack) && (OnStack(onStack, w) <==> w in s.at)
            && FramesAgree(t, work[|work| - 1 := Frame(Top(s), s.Upto(Top(s)) + 1)])
  {
    hide SeenOk, StackOk, LowOk, OrderOk, LinkOk, PosOk, FramesAgree, Inv;
    FramesDifferFrom(adj, s);
    LookAgrees(s, w, work);
    LookKeeps(adj, s, w);
  }

  /** The frame below the top one, if there is one. */
  lemma ParentAgrees(adj: Adj, s: State, work: seq<Frame>)
    requires Inv(adj, s) && FramesAgree(s, work) && |work| > 1
    ensures var p := work[|work| - 2].node; p == s.fr[|s.fr| - 2] && p != Top(s) && p in s.low
  {
    hide SeenOk, StackOk, LowOk, OrderOk, LinkOk, PosOk;
    FramesDifferFrom(adj, s);
    TopFacts(adj, s);
    ParentFacts(adj, s, Top(s));
  }

  lemma MergeStep(adj: Adj, s: State, work: seq<Frame>, onStack: map<LockId, bool>)
    requires Inv(adj, s) && Exhausted(adj, s) && s.Low(Top(s)) != s.Idx(Top(s))
    requires FramesAgree(s, work) && StackAgrees(s, onStack)
    ensures var t := Merge(s);
            && Inv(adj, t) && Done(t) == Done(s) && StackAgrees(t, onStack) && FramesAgree(t, work[..|work| - 1])
  {
    hide Inv;
    MergeKeeps(adj, s);
  }

  lemma CloseStep(adj: Adj, s: State, work: seq<Frame>, onStack0: map<LockId, bool>, onStack: map<LockId, bool>)
    requires Inv(adj, s) && IsRoot(adj, s)
    requires FramesAgree(s, work) && StackAgrees(s, onStack0)
    requires s.At(Top(s)) < |s.stk|
    requires forall u :: OnStack(onStack, u) <==> OnStack(onStack0, u) && u !in s.stk[s.At(Top(s))..]
    ensures var t := Close(s);
            && Inv(adj, t) && StackAgrees(t, onStack) && FramesAgree(t, work[..|work| - 1])
            && t.low == LowUp(s)
  {
    hide Inv, Leaves;
    CloseParts(adj, s);
    LeavesOnStack(adj, s);
    CloseRest(adj, s);
  }

  /** The search finds exactly the strongly connected components. */
  method TarjanScc(adj: Adj) returns (sccs: seq<seq<LockId>>)
    ensures Partition(adj, sccs, Nodes(adj))
  {
    var idx: map<LockId, nat>, low: map<LockId, nat>, onStack: map<LockId, bool> := map[], map[], map[];
    var stk: seq<LockId>, counter := [], 0;
    sccs := [];
    ghost var s := State(map[], map[], [], map[], [], map[], map[], 0);
    var starts := adj.Keys;
    while starts != {}
      invariant starts <= adj.Keys && adj.Keys - starts <= s.idx.Keys <= Nodes(adj)
      invariant s.fr == [] && Inv(adj, s) && Partition(adj, sccs, Done(s))
      invariant Agrees(s, idx, low, onStack, stk, [], counter)
    {
      var start :| start in starts;
      starts := starts - {start};
      if start !in idx {
        idx, low, onStack, stk, sccs, counter, s := Explore(adj, start, idx, low, onStack, stk, sccs, counter, s);
      }
    }
    AllVisited(adj, s);
  }

  /** The top frame has looked at all its neighbours: it is left, and if its node is a
      root the component is taken off the stack. */
  method Leave(adj: Adj, v: LockId, work0: seq<Frame>, idx: map<LockId, nat>, low0: map<LockId, nat>,
               onStack0: map<LockId, bool>, stk0: seq<LockId>, sccs0: seq<seq<LockId>>, counter: nat, ghost s0: State)
    returns (work: seq<Frame>, low: map<LockId, nat>, onStack: map<LockId, bool>, stk: seq<LockId>,
             sccs: seq<seq<LockId>>, ghost s: State)
    requires Inv(adj, s0) && Partition(adj, sccs0, Done(s0)) && Agrees(s0, idx, low0, onStack0, stk0, work0, counter)
    requires work0 != [] && work0[|work0| - 1].node == v && work0[|work0| - 1].next >= |Neigh(adj, v)|
    ensures Inv(adj, s) && Partition(adj, sccs, Done(s)) && Agrees(s, idx, low, onStack, stk, work, counter)
    ensures work == work0[..|work0| - 1]
  {
    hide SeenOk, StackOk, LowOk, OrderOk, LinkOk, FrameOk, PosOk, Partition, Inv, FramesAgree, StackAgrees;
    low, onStack, stk, sccs, s := low0, onStack0, stk0, sccs0, s0;
    TopAgrees(adj, s, work0, onStack);
    work := work0[..|work0| - 1];
    if work != [] {
      ParentAgrees(adj, s, work0);
      var parent := work[|work| - 1].node;
      if low[v] < low[parent] { low := low[parent := low[v]]; }
    }
    assert low == LowUp(s);
    if low[v] == idx[v] {
      LeavesOnStack(adj, s);
      var comp;
      comp, stk, onStack := PopComponent(stk, onStack, v, s.At(v));
      ClosePartition(adj, s, sccs, comp);
      CloseStep(adj, s, work0, onStack0, onStack);
      sccs := sccs + [comp];
      s := Close(s);
    } else {
      MergeStep(adj, s, work0, onStack);
      s := Merge(s);
    }
  }

  /** Explores what is reachable from `start` and not visited yet. */
  method Explore(adj: Adj, start: LockId, idx0: map<LockId, nat>, low0: map<LockId, nat>, onStack0: map<LockId, bool>,
                 stk0: seq<LockId>, sccs0: seq<seq<LockId>>, counter0: nat, ghost s0: State)
    returns (idx: map<LockId, nat>, low: map<LockId, nat>, onStack: map<LockId, bool>,
             stk: seq<LockId>, sccs: seq<seq<LockId>>, counter: nat, ghost s: State)
    requires Inv(adj, s0) && s0.fr == [] && Partition(adj, sccs0, Done(s0)) && start in Nodes(adj) && start !in idx0
    requires Agrees(s0, idx0, low0, onStack0, stk0, [], counter0) && idx0.Keys <= Nodes(adj)
    ensures Inv(adj, s) && s.fr == [] && Partition(adj, sccs, Done(s))
    ensures Agrees(s, idx, low, onStack, stk, [], counter)
    ensures idx0.Keys + {start} <= idx.Keys <= Nodes(adj)
  {
    hide SeenOk, StackOk, LowOk, OrderOk, LinkOk, FrameOk, PosOk, Partition, Inv, FramesAgree, StackAgrees;
    idx, low, onStack, stk, sccs, counter, s := idx0, low0, onStack0, stk0, sccs0, counter0, s0;
    var work: seq<Frame> := [];
    PushStep(adj, s, start, work, onStack);
    idx, low := idx[start := counter], low[start := counter];
    counter := counter + 1;
    stk, onStack := stk + [start], onStack[start := true];
    work := work + [Frame(start, 0)];
    s := Push(s, start);
    while work != []
      invariant Inv(adj, s) && Partition(adj, sccs, Done(s))
      invariant Agrees(s, idx, low, onStack, stk, work, counter)
      invariant idx0.Keys + {start} <= idx.Keys <= Nodes(adj)
      decreases Nodes(adj) - idx.Keys, |work|,
                if work == [] then 0 else |Neigh(adj, work[|work| - 1].node)| - work[|work| - 1].next
    {
      var Frame(v, ni) := work[|work| - 1];
      var neigh := Neigh(adj, v);
      ghost var before := work;
      TopAgrees(adj, s, work, onStack);
      if ni < |neigh| {
        var w := neigh[ni];
        work := work[|work| - 1 := Frame(v, ni + 1)];
        if w !in idx {
          PushStep(adj, s, w, before, onStack);
          NeighInNodes(adj, v, w);
          ghost var left := Nodes(adj) - idx.Keys;
          idx, low := idx[w := counter], low[w := counter];
          assert w in left && Nodes(adj) - idx.Keys == left - {w};
          counter := counter + 1;
          stk, onStack := stk + [w], onStack[w := true];
          work := work + [Frame(w, 0)];
          s := Push(s, w);
        } else {
          LookStep(adj, s, w, before, onStack);
          if OnStack(onStack, w) {
            if idx[w] < low[v] { low := low[v := idx[w]]; }
          }
          s := Look(s, w);
        }
      } else {
        work, low, onStack, stk, sccs, s := Leave(adj, v, work, idx, low, onStack, stk, sccs, counter, s);
      }
    }
    assert s.fr == [] by { FramesEmpty(s, work); }
  }

  lemma FramesEmpty(s: State, work: seq<Frame>)
    requires FramesAgree(s, work) && work == []
    ensures s.fr == []
  {
  }
}
