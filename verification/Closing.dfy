/** Whether the backend, left to itself, closes the log with nothing left in a ring. */
module Closing {
  import opened RingLayout
  import opened Pipeline
  import R = RingProtocol

  // ------------------------------------------------------------- draining one ring

  ghost predicate EventInFront(r: R.State) {
    r.recs != [] && r.recs[0].Ev?
  }

  /** The backend will take an event out of the ring before it moves on, if no more are
      published. A call that has found the ring empty stops at padding, whatever is
      behind it. */
  ghost predicate WillTake(r: R.State) {
    match r.cons
    case Returned(o) => o == R.Written
    case Second => if r.seenHead == r.tail then EventInFront(r) else Payloads(r.recs) != []
    case SecondTag(e) => if e then EventInFront(r) else Payloads(r.recs) != []
    case _ => Payloads(r.recs) != []
  }

  /** How far a call is from its end, by the program point and by the bytes it still
      copies there. */
  function Stage(c: R.Consumer): nat {
    match c
    case Returned(o) => if o == R.Written then 9 else 0
    case Loop => 8
    case LoopTag => 7
    case SkipsOne => 6
    case Second => 6
    case SecondTag(_) => 5
    case NeedsHeader => 4
    case Header(_) => 3
    case NeedsAll(_) => 2
    case Body(_, _) => 1
  }

  function ToCopy(c: R.Consumer): nat {
    match c
    case Header(hdr) => if |hdr| < R.HEADER then R.HEADER - |hdr| else 0
    case Body(hdr, got) => if |got| < R.SizeOf(hdr) then R.SizeOf(hdr) - |got| else 0
    case _ => 0
  }

  ghost predicate Nearer(r': R.State, r: R.State) {
    || r'.head - r'.tail < r.head - r.tail
    || (r'.head - r'.tail == r.head - r.tail
        && (Stage(r'.cons) < Stage(r.cons) || (Stage(r'.cons) == Stage(r.cons) && ToCopy(r'.cons) < ToCopy(r.cons))))
  }

  /** What a step of a call on a ring keeps until the call returns. */
  ghost predicate Drains(r: R.State, r': R.State) {
    && R.Inv(r') && Nearer(r', r) && WillTake(r') == WillTake(r)
    && (!WillTake(r) ==> Payloads(r'.recs) == Payloads(r.recs))
  }

  lemma NoRecords(r: R.State)
    requires R.Inv(r)
    ensures r.head >= r.tail && (r.recs == [] <==> r.head == r.tail)
  {
    hide R.AllFramed, R.HeadsOk, Shows, Fits, R.ProdOk, R.ConsOk, R.TailsOk, R.Seen, R.Fifo, Payloads;
    if r.recs != [] { assert |BytesOf(r.recs[0])| > 0; }
  }

  lemma FreshHead(r: R.State)
    requires R.Inv(r)
    ensures r.head in r.heads && r.seenHead <= r.head
  {
    hide Layout, R.AllFramed, R.HeadsOk, R.ProdOk, R.ConsOk, R.TailsOk, R.Fifo, Payloads;
    R.CoversFront(r, r.seenHead);
  }

  lemma LoadDrains(r: R.State)
    requires R.Inv(r) && (r.cons.Loop? || r.cons.Second? || r.cons.NeedsHeader? || r.cons.NeedsAll?)
    ensures Drains(r, R.OnLoadHead(r, r.head))
  {
    hide Layout, R.AllFramed, R.HeadsOk, R.ProdOk, R.TailsOk, R.Fifo, R.Seen, R.SizeOf;
    FreshHead(r);
    NoRecords(r);
    R.LoadHeadKeeps(r, r.head);
  }

  lemma TagDrains(r: R.State)
    requires R.Inv(r) && (r.cons.LoopTag? || r.cons.SecondTag?) && |r.buf| > 0
    ensures Drains(r, R.OnRead(r))
  {
    hide Layout, R.AllFramed, R.HeadsOk, R.ProdOk, R.TailsOk, R.Fifo, R.Seen, R.SizeOf, R.FrameCount;
    R.TagIs(r);
    R.TagKeeps(r);
  }

  lemma CopyDrains(r: R.State)
    requires R.Inv(r) && (r.cons.SkipsOne? || r.cons.Header? || r.cons.Body?) && |r.buf| > 0
    ensures Drains(r, R.OnRead(r))
  {
    hide Layout, R.AllFramed, R.HeadsOk, R.ProdOk, R.TailsOk, R.Fifo, R.Seen, R.SizeOf, R.FrameCount;
    R.ReadKeeps(r);
  }

  /** One step on a ring brings the call nearer to its end and does not change what
      it will take. */
  lemma StepDrains(r: R.State)
    requires R.Inv(r) && !r.cons.Returned?
    ensures |r.buf| > 0 && Drains(r, R.Step(r, NextMove(r)))
  {
    hide R.Inv, Drains;
    BufferIsThere(r);
    if NextMove(r).LoadHead? {
      LoadDrains(r);
    } else if r.cons.LoopTag? || r.cons.SecondTag? {
      TagDrains(r);
    } else {
      CopyDrains(r);
    }
  }

  // ------------------------------------------------------------------ the whole scan

  ghost predicate TakesFrom(s: Sys, t: Tid) {
    t in s.rings && WillTake(s.rings[t])
  }

  /** The scan that is under way will have taken an event when it is over, if no more
      are published. */
  ghost predicate WillDo(s: Sys) {
    !Unlocked(s.scan) && (s.scan.did || exists t | t in Ahead(s) :: TakesFrom(s, t))
  }

  /** How far the scan is from its end: in rings, and on the current one. */
  function RingsLeft(s: Sys): int {
    match s.scan
    case Draining(i, _) => 3 * (|s.registry| - i) + 2
    case AsksDead(i, _) => 3 * (|s.registry| - i) + 1
    case AsksEmpty(i, _) => 3 * (|s.registry| - i)
    case _ => 0
  }

  predicate OnRing(s: Sys) {
    s.scan.Draining? && s.scan.i < |s.registry| && s.registry[s.scan.i] in s.rings
  }

  function UnreadLeft(s: Sys): int {
    if OnRing(s) then s.rings[s.registry[s.scan.i]].head - s.rings[s.registry[s.scan.i]].tail else 0
  }

  function StagesLeft(s: Sys): nat {
    if OnRing(s) then Stage(s.rings[s.registry[s.scan.i]].cons) else 0
  }

  function BytesLeft(s: Sys): nat {
    if OnRing(s) then ToCopy(s.rings[s.registry[s.scan.i]].cons) else 0
  }

  ghost predicate Sooner(e: Sys, s: Sys) {
    || RingsLeft(e) < RingsLeft(s)
    || (RingsLeft(e) == RingsLeft(s)
        && (UnreadLeft(e) < UnreadLeft(s)
            || (UnreadLeft(e) == UnreadLeft(s)
                && (StagesLeft(e) < StagesLeft(s)
                    || (StagesLeft(e) == StagesLeft(s) && BytesLeft(e) < BytesLeft(s))))))
  }

  /** What the backend leaves alone for thread `t`. */
  ghost predicate Kept(s: Sys, e: Sys, t: Tid) {
    Of(e.committed, t) == Of(s.committed, t) && (!WillDo(s) ==> Waiting(e, t) == Waiting(s, t))
  }

  ghost predicate AllKept(s: Sys, e: Sys) {
    e.shutdown == s.shutdown && e.due == s.due && forall t: Tid {:trigger Kept(s, e, t)} :: Kept(s, e, t)
  }

  /** A step inside a scan. */
  ghost predicate Inside(s: Sys, e: Sys) {
    AllKept(s, e) && !Unlocked(e.scan) && e.mode == s.mode && WillDo(e) == WillDo(s) && Sooner(e, s)
  }

  lemma SameTakes(s: Sys, e: Sys)
    requires !Unlocked(s.scan) && !Unlocked(e.scan) && Ahead(e) == Ahead(s) && e.scan.did == s.scan.did
    requires forall t | t in Ahead(s) :: TakesFrom(e, t) == TakesFrom(s, t)
    ensures WillDo(e) == WillDo(s)
  {
    hide Ahead, TakesFrom;
  }

  lemma FrontOfAhead(s: Sys)
    requires s.scan.Draining? && s.scan.i < |s.registry|
    ensures Ahead(s) == [s.registry[s.scan.i]] + s.registry[s.scan.i + 1..]
  {
  }

  lemma NothingSent(r: R.State)
    requires |r.buf| > 0
    ensures R.Step(r, NextMove(r)).sent == r.sent
  {
    DrainIsNotProducing(r, NextMove(r));
  }

  /** The ring the scan is on. */
  function Front(s: Sys): Tid
    requires OnRing(s)
  {
    s.registry[s.scan.i]
  }

  /** A step on the current ring: on the ring itself, and around it. */
  lemma OnFront(s: Sys)
    requires Inv(s) && OnRing(s)
    ensures var t := Front(s); var r := s.rings[t];
            && R.Inv(r) && |r.buf| > 0 && Front(s) in Ahead(s)
            && var e := RingStep(s, t, NextMove(r));
               && Inv(BackStep(s)) && OnRing(e) && Front(e) == t && e.rings[t] == R.Step(r, NextMove(r))
               && Ahead(e) == Ahead(s) && e.registry == s.registry && e.scan == s.scan && e.mode == s.mode
               && e.shutdown == s.shutdown && e.due == s.due
  {
    hide R.Inv, R.Step, NextMove, Proj, Unique, ScanOk, BackStep;
    var t := Front(s);
    assert ThreadOk(s, t);
    BufferIsThere(s.rings[t]);
    StepKeeps(s, Back);
    assert t == s.registry[s.scan.i..][0];
  }

  lemma FrontCommits(s: Sys)
    requires Inv(s) && OnRing(s)
    ensures |s.rings[Front(s)].buf| > 0
    ensures Of(RingStep(s, Front(s), NextMove(s.rings[Front(s)])).committed, Front(s)) == Of(s.committed, Front(s))
  {
    hide R.Inv, R.Step, NextMove, Proj, Unique, ScanOk;
    var t := Front(s);
    assert ThreadOk(s, t);
    BufferIsThere(s.rings[t]);
    NothingSent(s.rings[t]);
  }

  lemma CallIs(s: Sys)
    requires Inv(s) && OnRing(s) && !s.rings[Front(s)].cons.Returned? && |s.rings[Front(s)].buf| > 0
    ensures BackStep(s) == RingStep(s, Front(s), NextMove(s.rings[Front(s)]))
  {
    hide R.Inv, R.Step, NextMove, RingStep;
  }

  lemma CallSooner(s: Sys, e: Sys)
    requires OnRing(s) && OnRing(e) && e.registry == s.registry && e.scan == s.scan
    requires Nearer(e.rings[Front(s)], s.rings[Front(s)])
    ensures Sooner(e, s)
  {
    hide Stage, ToCopy;
  }

  lemma CallStep(s: Sys)
    requires Inv(s) && OnRing(s) && !s.rings[Front(s)].cons.Returned?
    ensures Inside(s, BackStep(s))
  {
    hide R.Inv, R.Step, WillTake, Payloads, NextMove, Proj, Inv, BackStep, RingStep, Sooner, Nearer, Ahead, WillDo;
    var t := Front(s);
    OnFront(s);
    CallIs(s);
    StepDrains(s.rings[t]);
    FrontCommits(s);
    var e := BackStep(s);
    CallSooner(s, e);
    forall u: Tid ensures TakesFrom(e, u) == TakesFrom(s, u) {
      if u != t { RingStepOther(s, t, NextMove(s.rings[t]), u); }
    }
    SameTakes(s, e);
    forall u: Tid ensures Kept(s, e, u) {
      if u == t { TakenFromAhead(s, t); } else { RingStepOther(s, t, NextMove(s.rings[t]), u); }
    }
  }

  lemma TakenFromAhead(s: Sys, t: Tid)
    requires !Unlocked(s.scan) && t in Ahead(s)
    ensures !WillDo(s) ==> !TakesFrom(s, t)
  {
  }

  lemma ReturnIs(s: Sys)
    requires Inv(s) && OnRing(s) && s.rings[Front(s)].cons.Returned? && |s.rings[Front(s)].buf| > 0
    ensures var r := s.rings[Front(s)];
            && NextMove(r) == R.Again && R.Step(r, R.Again) == r.(cons := R.Loop)
            && BackStep(s) == RingStep(s, Front(s), R.Again).(scan :=
                 if r.cons.outcome == R.Written then Draining(s.scan.i, true) else AsksDead(s.scan.i, s.scan.did))
  {
    hide R.Inv, R.Step, RingStep, Proj, Unique, FoundEmpty;
    assert ThreadOk(s, Front(s));
    AgainIs(s.rings[Front(s)]);
  }

  lemma ReturnKept(s: Sys, u: Tid)
    requires Inv(s) && OnRing(s) && s.rings[Front(s)].cons.Returned?
    ensures Kept(s, BackStep(s), u)
    ensures u != Front(s) ==> TakesFrom(BackStep(s), u) == TakesFrom(s, u)
  {
    hide R.Inv, R.Step, WillTake, Payloads, NextMove, Proj, Inv, BackStep, RingStep, Ahead, WillDo;
    OnFront(s);
    ReturnIs(s);
    FrontCommits(s);
    if u != Front(s) { RingStepOther(s, Front(s), R.Again, u); }
  }

  /** A call that took an event: the scan has done something. */
  lemma TookOne(s: Sys)
    requires Inv(s) && OnRing(s) && s.rings[Front(s)].cons == R.Returned(R.Written)
    ensures Inside(s, BackStep(s))
  {
    hide R.Inv, R.Step, Payloads, NextMove, Proj, Inv, BackStep, RingStep, Ahead;
    OnFront(s);
    ReturnIs(s);
    assert TakesFrom(s, Front(s));
    forall u: Tid ensures Kept(s, BackStep(s), u) { ReturnKept(s, u); }
  }

  lemma AheadMovesOn(s: Sys)
    requires Inv(s) && OnRing(s)
    ensures Ahead(s) == [Front(s)] + s.registry[s.scan.i + 1..] && Front(s) !in s.registry[s.scan.i + 1..]
  {
    hide ThreadOk;
    FrontOfAhead(s);
  }

  lemma AheadAfter(s: Sys)
    requires s.scan.AsksDead? && s.scan.i < |s.registry|
    ensures Ahead(s) == s.registry[s.scan.i + 1..]
  {
  }

  /** A call that took nothing: the scan moves on. */
  lemma TookNone(s: Sys)
    requires Inv(s) && OnRing(s) && s.rings[Front(s)].cons.Returned? && s.rings[Front(s)].cons.outcome != R.Written
    ensures Inside(s, BackStep(s))
  {
    hide R.Inv, R.Step, Payloads, NextMove, Proj, Inv, BackStep, RingStep, Ahead;
    OnFront(s);
    ReturnIs(s);
    var e := BackStep(s);
    AheadMovesOn(s);
    AheadAfter(e);
    assert !TakesFrom(s, Front(s));
    forall u: Tid ensures Kept(s, e, u) && (u != Front(s) ==> TakesFrom(e, u) == TakesFrom(s, u)) { ReturnKept(s, u); }
  }

  lemma DeadStep(s: Sys)
    requires Inv(s) && s.scan.AsksDead?
    ensures Inside(s, BackStep(s))
  {
    hide R.Inv, Proj, WillTake, ThreadOk, Unique, Payloads;
    var e := BackStep(s);
    assert Ahead(e) == Ahead(s);
    assert forall u: Tid {:trigger Kept(s, e, u)} :: Kept(s, e, u);
    SameTakes(s, e);
  }

  lemma EmptyKept(s: Sys, u: Tid)
    requires Inv(s) && s.scan.AsksEmpty?
    ensures Kept(s, BackStep(s), u) && (u != s.registry[s.scan.i] ==> TakesFrom(BackStep(s), u) == TakesFrom(s, u))
  {
    hide R.Inv, Proj, WillTake, Unique, Without, Ahead, WillDo;
    var t := s.registry[s.scan.i];
    assert ThreadOk(s, t);
    NoRecords(s.rings[t]);
  }

  lemma AskedRing(s: Sys)
    requires Inv(s) && s.scan.AsksEmpty?
    ensures s.scan.i < |s.registry| && s.registry[s.scan.i] in s.rings && Unique(s.registry)
  {
    hide R.Inv, Proj, Unique, CaughtUp, Current, DueOk;
    assert ThreadOk(s, s.registry[s.scan.i]);
  }

  lemma EmptyIs(s: Sys)
    requires s.scan.AsksEmpty? && s.scan.i < |s.registry| && s.registry[s.scan.i] in s.rings
    ensures var e := BackStep(s);
            && e.shutdown == s.shutdown && e.due == s.due
            && e.mode == s.mode && e.scan.Draining? && e.scan.did == s.scan.did
            && ((e.registry == Without(s.registry, s.scan.i) && e.scan.i == s.scan.i)
                || (e.registry == s.registry && e.scan.i == s.scan.i + 1))
  {
    hide Without;
  }

  lemma EmptyAhead(s: Sys)
    requires Inv(s) && s.scan.AsksEmpty?
    ensures var e := BackStep(s);
            && !Unlocked(e.scan) && Ahead(e) == Ahead(s) && s.registry[s.scan.i] !in Ahead(s)
            && e.scan.did == s.scan.did && e.shutdown == s.shutdown && e.due == s.due && e.mode == s.mode
            && RingsLeft(e) < RingsLeft(s)
  {
    hide Inv, Unique, Without, BackStep;
    AskedRing(s);
    EmptyIs(s);
    WithoutIs(s.registry, s.scan.i);
    NotAhead(s.registry, s.scan.i);
  }

  /** Freeing a ring, or leaving it: the rest of the scan is the same. */
  lemma EmptyStep(s: Sys)
    requires Inv(s) && s.scan.AsksEmpty?
    ensures Inside(s, BackStep(s))
  {
    hide Inv, BackStep, Kept, TakesFrom, Ahead, WillDo, RingsLeft;
    EmptyAhead(s);
    forall u: Tid ensures Kept(s, BackStep(s), u) { EmptyKept(s, u); }
    forall u | u in Ahead(s) ensures TakesFrom(BackStep(s), u) == TakesFrom(s, u) { EmptyKept(s, u); }
    SameTakes(s, BackStep(s));
  }

  lemma NotAhead(s: seq<Tid>, i: nat)
    requires Unique(s) && i < |s|
    ensures s[i] !in s[i + 1..]
  {
  }

  lemma EndStep(s: Sys)
    requires Inv(s) && s.scan.Draining? && s.scan.i == |s.registry|
    ensures var e := BackStep(s);
            && AllKept(s, e) && WillDo(s) == s.scan.did
            && if s.mode == Running then e.mode == Running && e.scan == ChecksShutdown
               else e.scan == Between && e.mode == NextMode(s.mode, s.scan.did)
  {
    hide Inv, R.Inv, Proj, WillTake, Payloads;
    assert forall u: Tid {:trigger Kept(s, BackStep(s), u)} :: Kept(s, BackStep(s), u);
  }

  /** Every step of a scan but the last stays inside it. */
  lemma ScanStep(s: Sys)
    requires Inv(s) && !Unlocked(s.scan) && !(s.scan.Draining? && s.scan.i == |s.registry|)
    ensures Inside(s, BackStep(s))
  {
    hide R.Inv, Proj, BackStep, Inside, Unique;
    match s.scan
    case Draining(i, _) =>
      assert ThreadOk(s, s.registry[i]);
      if s.rings[Front(s)].cons.Returned? {
        if s.rings[Front(s)].cons.outcome == R.Written { TookOne(s); } else { TookNone(s); }
      } else {
        CallStep(s);
      }
    case AsksDead(_, _) => DeadStep(s);
    case AsksEmpty(_, _) => EmptyStep(s);
  }

  // ------------------------------------------------------------- runs of the backend

  /** No thread takes a step. */
  predicate OnlyBackend(acts: seq<Act>) {
    forall i | 0 <= i < |acts| :: acts[i] == Begin || acts[i] == Back
  }

  lemma {:induction false} RunConcat(s: Sys, a: seq<Act>, b: seq<Act>)
    ensures Run(s, a + b) == Run(Run(s, a), b)
    decreases |b|
  {
    hide Step;
    if b == [] {
      assert a + b == a;
    } else {
      var most := b[..|b| - 1];
      RunConcat(s, a, most);
      assert (a + b)[..|a + b| - 1] == a + most;
    }
  }

  lemma RunOne(s: Sys, a: Act)
    ensures Run(s, [a]) == Step(s, a)
  {
    hide Step;
    assert Run(s, [a][..0]) == s;
  }

  /** A scan that is under way comes to its end. */
  ghost predicate Finished(s: Sys, e: Sys) {
    && Inv(e) && AllKept(s, e)
    && if s.mode == Running then e.mode == Running && e.scan == ChecksShutdown
       else e.scan == Between && e.mode == NextMode(s.mode, WillDo(s))
  }

  lemma InsideFinished(s: Sys, e: Sys, f: Sys)
    requires Inside(s, e) && Finished(e, f)
    ensures Finished(s, f)
  {
    hide Inv, WillDo, Waiting, Sooner, Of, NextMode;
    forall u: Tid ensures Kept(s, f, u) { assert Kept(s, e, u) && Kept(e, f, u); }
  }

  lemma {:induction false} FinishScan(s: Sys) returns (acts: seq<Act>)
    requires Inv(s) && !Unlocked(s.scan)
    ensures OnlyBackend(acts) && Finished(s, Run(s, acts))
    decreases RingsLeft(s), UnreadLeft(s), StagesLeft(s), BytesLeft(s)
  {
    hide Inv, BackStep, AllKept, WillDo, RingsLeft, UnreadLeft, StagesLeft, BytesLeft, Run;
    var e := BackStep(s);
    StepKeeps(s, Back);
    RunOne(s, Back);
    if s.scan.Draining? && s.scan.i == |s.registry| {
      EndStep(s);
      acts := [Back];
    } else {
      ScanStep(s);
      MeasureOk(s);
      MeasureOk(e);
      var more := FinishScan(e);
      RunConcat(s, [Back], more);
      InsideFinished(s, e, Run(e, more));
      acts := [Back] + more;
    }
  }

  lemma MeasureOk(s: Sys)
    requires Inv(s)
    ensures RingsLeft(s) >= 0 && UnreadLeft(s) >= 0
  {
    hide R.Inv, Proj, Unique;
    if OnRing(s) {
      assert ThreadOk(s, Front(s));
      NoRecords(s.rings[Front(s)]);
    }
  }

  ghost predicate NothingWaits(s: Sys) {
    forall t: Tid :: Waiting(s, t) == []
  }

  /** Everything committed before a scan is out of the rings after it. */
  lemma ScanEmpties(s: Sys, e: Sys)
    requires Inv(s) && s.scan == Between && s.mode != Closed && Finished(Step(s, Begin), e)
    ensures NothingWaits(e)
  {
    hide Inv, Step, Waiting, Proj, WillDo;
    forall t: Tid ensures Waiting(e, t) == [] {
      CommittedGrows(s, Begin, t);
      BeginCommits(s);
      assert Kept(Step(s, Begin), e, t);
      UnlockedIsCaughtUp(e, t);
      FileAndRing(e, t);
      assert |Proj(e.file, t) + Waiting(e, t)| == |Proj(e.file, t)| + |Waiting(e, t)|;
    }
  }

  lemma BeginCommits(s: Sys)
    requires s.scan == Between && s.mode != Closed
    ensures var b := Step(s, Begin);
            b.committed == s.committed && b.mode == s.mode && b.shutdown == s.shutdown && !Unlocked(b.scan)
  {
  }

  lemma FreshScan(s: Sys) returns (acts: seq<Act>)
    requires Inv(s) && s.scan == Between && s.mode != Closed
    ensures OnlyBackend(acts)
    ensures var e := Run(s, acts); Finished(Step(s, Begin), e) && NothingWaits(e) && e.shutdown == s.shutdown
  {
    hide Inv, Step, Run, WillDo, NothingWaits;
    StepKeeps(s, Begin);
    BeginCommits(s);
    RunOne(s, Begin);
    var more := FinishScan(Step(s, Begin));
    RunConcat(s, [Begin], more);
    ScanEmpties(s, Run(Step(s, Begin), more));
    acts := [Begin] + more;
  }

  /** A scan that begins with empty rings takes nothing. */
  lemma QuietScan(s: Sys)
    requires Inv(s) && s.scan == Between && s.mode != Closed && NothingWaits(s)
    ensures !WillDo(Step(s, Begin))
  {
    hide R.Inv, Proj, Unique;
    var b := Step(s, Begin);
    forall t: Tid ensures !TakesFrom(b, t) {
      assert ThreadOk(s, t);
      assert Waiting(s, t) == [];
    }
  }

  /** Either drain goes on until a scan takes nothing, and then the next mode begins
      with empty rings. */
  lemma DrainMode(s: Sys) returns (acts: seq<Act>)
    requires Inv(s) && s.scan == Between && (s.mode == LastDrain || s.mode == FinalDrain)
    ensures OnlyBackend(acts)
    ensures var e := Run(s, acts); Inv(e) && e.scan == Between && e.mode == NextMode(s.mode, false) && NothingWaits(e)
  {
    hide Inv, Step, Run, WillDo, NothingWaits, AllKept;
    acts := FreshScan(s);
    BeginCommits(s);
    var e := Run(s, acts);
    if e.mode == s.mode {
      var more := FreshScan(e);
      BeginCommits(e);
      QuietScan(e);
      RunConcat(s, acts, more);
      acts := acts + more;
    }
  }

  /** From the last drain on the backend closes the log with empty rings. */
  lemma CloseFromDrain(s: Sys) returns (acts: seq<Act>)
    requires Inv(s) && s.scan == Between && (s.mode == LastDrain || s.mode == FinalDrain)
    ensures OnlyBackend(acts) && Emptied(Run(s, acts))
  {
    hide Inv, Run, NothingWaits;
    acts := DrainMode(s);
    if s.mode == LastDrain {
      var more := DrainMode(Run(s, acts));
      RunConcat(s, acts, more);
      acts := acts + more;
    }
  }

  /** The log is closed and nothing is left in a ring. */
  ghost predicate Emptied(s: Sys) {
    s.mode == Closed && NothingWaits(s)
  }

  /** Too late for what waits now: the log is closed, or the scan that will close it is
      past the rings that hold something. */
  ghost predicate LastLook(s: Sys) {
    s.mode == Closed || (s.mode == FinalDrain && !Unlocked(s.scan) && !WillDo(s))
  }

  lemma ChecksStep(s: Sys)
    requires Inv(s) && s.scan == ChecksShutdown && s.shutdown
    ensures var e := Step(s, Back); Inv(e) && e.scan == Between && e.mode == LastDrain
  {
    hide R.Inv, Proj, Unique, ThreadOk;
    StepKeeps(s, Back);
    assert s.mode == Running;
  }

  lemma CloseFromChecks(s: Sys) returns (acts: seq<Act>)
    requires Inv(s) && s.scan == ChecksShutdown && s.shutdown
    ensures OnlyBackend(acts) && Emptied(Run(s, acts))
  {
    hide Inv, Run, Emptied, Step;
    ChecksStep(s);
    RunOne(s, Back);
    var more := CloseFromDrain(Step(s, Back));
    RunConcat(s, [Back], more);
    acts := [Back] + more;
  }

  lemma CloseFromUnlocked(s: Sys) returns (acts: seq<Act>)
    requires Inv(s) && Unlocked(s.scan) && s.shutdown && (s.mode == Closed ==> NothingWaits(s))
    ensures OnlyBackend(acts) && Emptied(Run(s, acts))
  {
    hide Inv, Run, Step, NothingWaits, WillDo, AllKept;
    if s.scan == ChecksShutdown {
      acts := CloseFromChecks(s);
    } else if s.mode == Closed {
      acts := [];
      assert Run(s, []) == s by { NoActs(s); }
    } else if s.mode == Running {
      acts := FreshScan(s);
      BeginCommits(s);
      var more := CloseFromChecks(Run(s, acts));
      RunConcat(s, acts, more);
      acts := acts + more;
    } else {
      acts := CloseFromDrain(s);
    }
  }

  lemma NoActs(s: Sys)
    ensures Run(s, []) == s
  {
  }

  lemma CloseFrom(s: Sys) returns (acts: seq<Act>)
    requires Inv(s) && s.shutdown && (LastLook(s) ==> NothingWaits(s))
    ensures OnlyBackend(acts) && Emptied(Run(s, acts))
  {
    hide Inv, Run, Emptied, WillDo, Waiting;
    if Unlocked(s.scan) {
      acts := CloseFromUnlocked(s);
    } else {
      acts := FinishScan(s);
      var e := Run(s, acts);
      if e.mode == Closed { ClosedByScan(s, e); }
      var more := CloseFromUnlocked(e);
      RunConcat(s, acts, more);
      acts := acts + more;
    }
  }

  lemma ClosedByScan(s: Sys, e: Sys)
    requires Inv(s) && !Unlocked(s.scan) && Finished(s, e) && e.mode == Closed && (LastLook(s) ==> NothingWaits(s))
    ensures NothingWaits(e)
  {
    hide R.Inv, WillDo, Waiting, ThreadOk, Unique;
    assert s.mode == FinalDrain && !WillDo(s);
    forall t: Tid ensures Waiting(e, t) == [] { assert Kept(s, e, t); }
  }

  // ---------------------------------------------------------------- the other half

  /** Nothing the backend does helps any more. */
  ghost predicate Stuck(s: Sys) {
    (s.mode == Running && !s.shutdown) || (LastLook(s) && !NothingWaits(s))
  }

  lemma StuckStays(s: Sys, a: Act)
    requires Inv(s) && Stuck(s) && (a == Begin || a == Back)
    ensures Stuck(Step(s, a))
  {
    hide Inv, Waiting, WillDo, BackStep, Of;
    if s.mode == Running {
      RunningStays(s, a);
    } else if s.mode == Closed {
      ClosedStays(s, a);
    } else if a == Back {
      LastLookStays(s);
    }
  }

  lemma RunningStays(s: Sys, a: Act)
    requires Inv(s) && s.mode == Running && !s.shutdown && (a == Begin || a == Back)
    ensures Step(s, a).mode == Running && !Step(s, a).shutdown
  {
    hide R.Inv, R.Step, ThreadOk, Unique, BackStep;
    ShutdownStays(s, a);
  }

  lemma ClosedStays(s: Sys, a: Act)
    requires Inv(s) && s.mode == Closed && (a == Begin || a == Back)
    ensures Step(s, a) == s
  {
    hide R.Inv, ThreadOk, Unique;
  }

  lemma LastLookStays(s: Sys)
    requires Inv(s) && s.mode == FinalDrain && !Unlocked(s.scan) && !WillDo(s) && !NothingWaits(s)
    ensures LastLook(BackStep(s)) && !NothingWaits(BackStep(s))
  {
    hide Inv, Waiting, WillDo, BackStep, Of;
    var e := BackStep(s);
    if s.scan.Draining? && s.scan.i == |s.registry| { EndStep(s); } else { ScanStep(s); }
    var t: Tid :| Waiting(s, t) != [];
    assert Kept(s, e, t);
  }

  lemma {:induction false} StuckRun(s: Sys, acts: seq<Act>)
    requires Inv(s) && Stuck(s) && OnlyBackend(acts)
    ensures Stuck(Run(s, acts))
    decreases |acts|
  {
    hide Inv, Step, Stuck;
    if acts != [] {
      var most := acts[..|acts| - 1];
      StuckRun(s, most);
      RunKeeps(s, most);
      StuckStays(Run(s, most), acts[|acts| - 1]);
    }
  }

  /** The threads take no more steps, wherever they are: then the backend can close the
      log with nothing left in a ring if and only if the shutdown has been requested and,
      if the last look at the rings is under way or over, nothing waits in them. */
  lemma ClosingSucceeds(acts: seq<Act>)
    ensures var s := Run(Start(), acts);
            (exists more :: OnlyBackend(more) && Emptied(Run(s, more)))
            <==> s.shutdown && (LastLook(s) ==> NothingWaits(s))
  {
    hide Inv, Run, LastLook, NothingWaits, OnlyBackend;
    StartOk();
    RunKeeps(Start(), acts);
    OnlyAfterShutdown(acts);
    var s := Run(Start(), acts);
    if s.shutdown && (LastLook(s) ==> NothingWaits(s)) {
      var more := CloseFrom(s);
    } else {
      forall more | OnlyBackend(more) ensures !Emptied(Run(s, more)) { StuckRun(s, more); }
    }
  }

  // ------------------------------------------------- an event that comes too late

  /** The scan that closes the log has found the only ring empty and asks whether its
      thread has finished; the thread logs, and has come as far as `prod`. */
  ghost predicate PassedBy(s: Sys, cap: nat, prod: R.Producer) {
    && s.shutdown && s.mode == FinalDrain && s.scan == AsksDead(0, false) && s.registry == [0]
    && 0 in s.threads && s.threads[0] == Active && s.rings.Keys == {0}
    && var r := s.rings[0];
       && |r.buf| == cap && r.head == 0 && r.tail == 0 && r.seenTail == 0 && 0 in r.tails
       && r.cons == R.Loop && r.prod == prod && r.recs == []
  }

  lemma RunAppend(s: Sys, acts: seq<Act>, a: Act)
    ensures Run(s, acts + [a]) == Step(Run(s, acts), a)
  {
    hide Step;
    assert (acts + [a])[..|acts|] == acts;
  }

  /** With no ring registered the backend goes through its loops without work. */
  lemma ToFinalDrain() returns (acts: seq<Act>)
    ensures Run(Start(), acts) == Start().(mode := FinalDrain, shutdown := true)
  {
    hide Run, Step, BackStep;
    acts := [AskShutdown];
    RunOne(Start(), AskShutdown);
    AskIs();
    IdleScan(Start().(shutdown := true));
    acts := AppendThree(acts, Begin, Back, Back);
    IdleScan(Start().(shutdown := true, mode := LastDrain));
    RunAppend(Start(), acts, Begin);
    RunAppend(Start(), acts + [Begin], Back);
    acts := acts + [Begin] + [Back];
  }

  lemma AppendThree(acts: seq<Act>, a: Act, b: Act, c: Act) returns (more: seq<Act>)
    ensures Run(Start(), more) == Step(Step(Step(Run(Start(), acts), a), b), c)
  {
    hide Run, Step;
    RunAppend(Start(), acts, a);
    RunAppend(Start(), acts + [a], b);
    RunAppend(Start(), acts + [a] + [b], c);
    more := acts + [a] + [b] + [c];
  }

  lemma IdleScan(s: Sys)
    requires s.registry == [] && s.scan == Between && s.shutdown && s.due == s.committed
    ensures s.mode == Running ==> Step(Step(Step(s, Begin), Back), Back) == s.(mode := LastDrain)
    ensures s.mode == LastDrain ==> Step(Step(s, Begin), Back) == s.(mode := FinalDrain)
  {
  }

  lemma AskIs()
    ensures Step(Start(), AskShutdown) == Start().(shutdown := true)
  {
  }

  /** A thread comes up; the scan finds its ring empty. */
  lemma FindEmpty(s: Sys, buf: seq<byte>) returns (e: Sys)
    requires s == Start().(mode := FinalDrain, shutdown := true) && |buf| > 0
    ensures e == Step(Step(Step(s, Create(0, buf)), Register(0)), Begin) && e.scan == Draining(0, false)
    ensures e.rings == map[0 := R.Init(buf)] && e.registry == [0] && e.threads == map[0 := Active]
    ensures e.mode == FinalDrain && e.shutdown
  {
    hide R.Step;
    e := Step(Step(Step(s, Create(0, buf)), Register(0)), Begin);
  }

  lemma PassIt(s: Sys, buf: seq<byte>)
    requires |buf| > 0 && s.rings == map[0 := R.Init(buf)] && s.registry == [0] && s.threads == map[0 := Active]
    requires s.mode == FinalDrain && s.shutdown && s.scan == Draining(0, false)
    ensures PassedBy(Step(Step(Step(s, Back), Back), Back), |buf|, R.Idle)
  {
    hide R.Step, NextMove;
    var r := R.Init(buf);
    EmptyCall(buf);
    var s1, s2 := Step(s, Back), Step(Step(s, Back), Back);
    assert s1.rings == map[0 := r.(cons := R.Second)] && s1.scan == s.scan;
    assert s2.rings == map[0 := r.(cons := R.Returned(R.Empty))] && s2.scan == s.scan;
  }

  /** A call on a ring that has never been used. */
  lemma EmptyCall(buf: seq<byte>)
    requires |buf| > 0
    ensures var r := R.Init(buf);
            var r1, r2 := r.(cons := R.Second), r.(cons := R.Returned(R.Empty));
            R.Step(r, NextMove(r)) == r1 && R.Step(r1, NextMove(r1)) == r2 && R.Step(r2, NextMove(r2)) == r
  {
  }

  lemma GetsPassed(buf: seq<byte>) returns (acts: seq<Act>)
    requires |buf| > 0
    ensures PassedBy(Run(Start(), acts), |buf|, R.Idle)
  {
    hide Run, Step, PassedBy;
    acts := ToFinalDrain();
    var e := FindEmpty(Run(Start(), acts), buf);
    PassIt(e, buf);
    acts := AppendThree(acts, Create(0, buf), Register(0), Begin);
    acts := AppendThree(acts, Back, Back, Back);
  }

  /** The thread's own steps up to its last store. */
  lemma PassedLogs(s: Sys, cap: nat, p: seq<byte>)
    requires R.WellFramed(p) && |p| < cap
    ensures PassedBy(s, cap, R.Idle) ==> PassedBy(Step(s, Produce(0, R.Start(p))), cap, R.Wants(p))
    ensures PassedBy(s, cap, R.Wants(p)) ==> PassedBy(Step(s, Produce(0, R.LoadTail(0))), cap, R.Tags(p, 0))
    ensures PassedBy(s, cap, R.Tags(p, 0)) ==> PassedBy(Step(s, Produce(0, R.Store)), cap, R.Fills(p, 0, 0))
  {
    hide R.WellFramed;
    assert 0 % cap == 0;
  }

  lemma PassedFills(s: Sys, cap: nat, p: seq<byte>, i: nat)
    requires PassedBy(s, cap, R.Fills(p, 0, i)) && i < |p| < cap
    ensures PassedBy(Step(s, Produce(0, R.Store)), cap, R.Fills(p, 0, i + 1))
  {
    hide R.WellFramed;
  }

  lemma {:induction false} FillsUp(acts: seq<Act>, cap: nat, p: seq<byte>, i: nat) returns (more: seq<Act>)
    requires PassedBy(Run(Start(), acts), cap, R.Fills(p, 0, i)) && i <= |p| < cap
    ensures PassedBy(Run(Start(), more), cap, R.Fills(p, 0, |p|))
    decreases |p| - i
  {
    hide Run, Step, PassedBy;
    more := acts;
    if i < |p| {
      PassedFills(Run(Start(), acts), cap, p, i);
      RunAppend(Start(), acts, Produce(0, R.Store));
      more := FillsUp(acts + [Produce(0, R.Store)], cap, p, i + 1);
    }
  }

  lemma PublishedLate(s: Sys, cap: nat, p: seq<byte>)
    requires PassedBy(s, cap, R.Fills(p, 0, |p|)) && cap > 0
    ensures var e := Step(s, Produce(0, R.Store));
            && e.shutdown && e.mode != Closed && LastLook(e) && Waiting(e, 0) == [p]
            && e.rings.Keys == {0} && e.rings[0].prod == R.Idle
  {
    var r := s.rings[0];
    var e := Step(s, Produce(0, R.Store));
    assert e.rings[0].recs == [Ev(p)];
    assert Payloads([Ev(p)]) == [p] + Payloads([Ev(p)][1..]);
    assert Ahead(e) == [];
  }

  /** Not every event of a log that is still open gets into it: the log is not closed,
      every producer is idle, and yet the backend can only close the log without the
      event `p`, which was logged behind the last look at its ring. */
  lemma LateEventIsLeft(buf: seq<byte>, p: seq<byte>) returns (acts: seq<Act>)
    requires R.WellFramed(p) && |p| < |buf|
    ensures var s := Run(Start(), acts);
            && s.shutdown && s.mode != Closed && Waiting(s, 0) == [p]
            && (forall t | t in s.rings :: s.rings[t].prod == R.Idle)
            && forall more | OnlyBackend(more) :: !Emptied(Run(s, more))
  {
    hide Run, Step, PassedBy, R.WellFramed, LastLook, Waiting;
    acts := GetsPassed(buf);
    PassedLogs(Run(Start(), acts), |buf|, p);
    RunAppend(Start(), acts, Produce(0, R.Start(p)));
    acts := acts + [Produce(0, R.Start(p))];
    PassedLogs(Run(Start(), acts), |buf|, p);
    RunAppend(Start(), acts, Produce(0, R.LoadTail(0)));
    acts := acts + [Produce(0, R.LoadTail(0))];
    PassedLogs(Run(Start(), acts), |buf|, p);
    RunAppend(Start(), acts, Produce(0, R.Store));
    acts := FillsUp(acts + [Produce(0, R.Store)], |buf|, p, 0);
    PublishedLate(Run(Start(), acts), |buf|, p);
    RunAppend(Start(), acts, Produce(0, R.Store));
    acts := acts + [Produce(0, R.Store)];
    ClosingSucceeds(acts);
  }
}
