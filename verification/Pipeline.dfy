/** The whole logging pipeline: any number of threads, each with its own ring, a
    registry of rings behind a mutex, and the backend that scans the registry, drains
    the rings into the trace file, frees the rings of finished threads and shuts down.
    A step is one atomic step of some thread or of the backend. The rings run the
    step-by-step protocol; the backend's loads of a head are up to date. */
module Pipeline {
  import opened RingLayout
  import R = RingProtocol

  type Tid = nat
  type Payload = seq<byte>

  /** A thread that has a ring: allocated but not in the registry yet, logging, or
      finished, its ring marked dead. */
  datatype Thread = Created | Active | Dead

  /** Where a scan of the registry is. The scan holds the registry's mutex. */
  datatype Scan =
    | Between                      // no scan is running
    | ChecksShutdown               // a scan of the main loop is over; about to load the shutdown flag
    | Draining(i: nat, did: bool)  // draining the ring at position i
    | AsksDead(i: nat, did: bool)  // about to load its dead flag
    | AsksEmpty(i: nat, did: bool) // the flag was set; about to see whether it is empty

  /** The backend's main loop, its drain after the shutdown request, the drain of the
      thread that closes the log, and the closed log. */
  datatype Mode = Running | LastDrain | FinalDrain | Closed

  datatype Sys = Sys(
    threads: map<Tid, Thread>,
    rings: map<Tid, R.State>,            // the allocated rings by owner
    registry: seq<Tid>,
    scan: Scan,
    mode: Mode,
    shutdown: bool,
    committed: map<Tid, seq<Payload>>,   // what each thread has published so far
    due: map<Tid, seq<Payload>>,         // the same when the latest scan began
    file: seq<(Tid, Payload)>)

  datatype Act =
    | Create(t: Tid, buf: seq<byte>)
    | Register(t: Tid)
    | Produce(t: Tid, m: R.Move)
    | Die(t: Tid)
    | AskShutdown
    | Begin
    | Back

  function Start(): Sys {
    Sys(map[], map[], [], Between, Running, false, map[], map[], [])
  }

  function Of(m: map<Tid, seq<Payload>>, t: Tid): seq<Payload> {
    if t in m then m[t] else []
  }

  /** A thread's events in the file, in order. */
  function Proj(file: seq<(Tid, Payload)>, t: Tid): seq<Payload> {
    if file == [] then []
    else
      var last := file[|file| - 1];
      Proj(file[..|file| - 1], t) + if last.0 == t then [last.1] else []
  }

  // ----------------------------------------------------------------------- steps

  /** A step on one ring; what it takes out of the ring goes to the file. */
  function RingStep(s: Sys, t: Tid, m: R.Move): Sys
    requires t in s.rings && |s.rings[t].buf| > 0
  {
    var r := s.rings[t];
    var r' := R.Step(r, m);
    s.(rings := s.rings[t := r'], committed := s.committed[t := r'.sent],
      file := if |r'.out| > |r.out| then s.file + [(t, r'.out[|r.out|])] else s.file)
  }

  /** What the end of a scan in one of the drains leads to. */
  function NextMode(mode: Mode, did: bool): Mode {
    if did then mode else if mode == LastDrain then FinalDrain else Closed
  }

  /** No scan is running, so the mutex is free. */
  predicate Unlocked(scan: Scan) {
    scan.Between? || scan.ChecksShutdown?
  }

  function Without(s: seq<Tid>, i: nat): seq<Tid>
    requires i < |s|
  {
    s[..i] + s[i + 1..]
  }

  /** What the backend does next on a ring. */
  function NextMove(r: R.State): R.Move {
    if r.cons.Returned? then R.Again
    else if r.cons.Loop? || r.cons.Second? || r.cons.NeedsHeader? || r.cons.NeedsAll? then R.LoadHead(r.head)
    else R.Read
  }

  /** One step of a scan. */
  function BackStep(s: Sys): Sys {
    match s.scan
    case Between => s
    case ChecksShutdown => s.(scan := Between, mode := if s.shutdown then LastDrain else s.mode)
    case Draining(i, did) =>
      if i >= |s.registry| then
        if s.mode == Running then s.(scan := ChecksShutdown) else s.(scan := Between, mode := NextMode(s.mode, did))
      else
        var t := s.registry[i];
        if t !in s.rings || |s.rings[t].buf| == 0 then s
        else
          var r := s.rings[t];
          var s' := RingStep(s, t, NextMove(r));
          if r.cons.Returned? then
            var more := r.cons.outcome == R.Written || r.cons.outcome == R.Oversized;
            s'.(scan := if more then Draining(i, true) else AsksDead(i, did))
          else s'
    case AsksDead(i, did) =>
      if i >= |s.registry| then s
      else
        var t := s.registry[i];
        s.(scan := if t in s.threads && s.threads[t] == Dead then AsksEmpty(i, did) else Draining(i + 1, did))
    case AsksEmpty(i, did) =>
      if i >= |s.registry| || s.registry[i] !in s.rings then s
      else
        var t := s.registry[i];
        if s.rings[t].head - s.rings[t].tail == 0 then
          s.(rings := s.rings - {t}, registry := Without(s.registry, i), scan := Draining(i, did))
        else s.(scan := Draining(i + 1, did))
  }

  function Step(s: Sys, a: Act): Sys {
    match a
    case Create(t, buf) =>
      if t in s.threads || |buf| == 0 then s
      else s.(threads := s.threads[t := Created], rings := s.rings[t := R.Init(buf)])
    case Register(t) =>
      if t in s.threads && s.threads[t] == Created && Unlocked(s.scan)
      then s.(threads := s.threads[t := Active], registry := [t] + s.registry)
      else s
    case Produce(t, m) =>
      if t in s.threads && s.threads[t] == Active && t in s.rings && |s.rings[t].buf| > 0
         && (m.Start? || m.LoadTail? || m.Store?)
      then RingStep(s, t, m)
      else s
    case Die(t) =>
      if t in s.threads && s.threads[t] == Active && t in s.rings && s.rings[t].prod == R.Idle
      then s.(threads := s.threads[t := Dead])
      else s
    case AskShutdown => s.(shutdown := true)
    case Begin =>
      if s.scan == Between && s.mode != Closed then s.(scan := Draining(0, false), due := s.committed) else s
    case Back => BackStep(s)
  }

  function Run(s: Sys, acts: seq<Act>): Sys
    decreases |acts|
  {
    if acts == [] then s else Step(Run(s, acts[..|acts| - 1]), acts[|acts| - 1])
  }

  // ------------------------------------------------------------------- invariant

  /** The ring agrees with the file and with what its thread has published. */
  ghost predicate RingOk(s: Sys, t: Tid) {
    t in s.rings ==>
      && R.Inv(s.rings[t])
      && s.rings[t].sent == Of(s.committed, t) && s.rings[t].out == Proj(s.file, t)
  }

  /** A ring is allocated exactly while its thread may use it or the registry holds it. */
  ghost predicate LifeOk(s: Sys, t: Tid) {
    && (t in s.rings ==> t in s.threads)
    && (t in s.threads && s.threads[t] != Dead ==> t in s.rings)
    && (t in s.registry <==> t in s.rings && t in s.threads && s.threads[t] != Created)
    && (t in s.threads && s.threads[t] == Dead && t in s.rings ==> s.rings[t].prod == R.Idle)
    && (t in s.threads && s.threads[t] == Created && t in s.rings ==>
           s.rings[t].prod == R.Idle && s.rings[t].sent == [])
    && (t !in s.threads ==> Of(s.committed, t) == [] && Proj(s.file, t) == [])
    && (t in s.threads && t !in s.rings ==> Proj(s.file, t) == Of(s.committed, t))
  }

  /** The rings the scan has not finished with. */
  function Ahead(s: Sys): seq<Tid> {
    match s.scan
    case Between => []
    case ChecksShutdown => []
    case Draining(i, _) => if i <= |s.registry| then s.registry[i..] else []
    case _ => if s.scan.i + 1 <= |s.registry| then s.registry[s.scan.i + 1..] else []
  }

  /** A ring that its scan is done with holds nothing that was committed before. */
  ghost predicate CaughtUp(s: Sys, t: Tid) {
    t !in Ahead(s) ==> Of(s.due, t) <= Proj(s.file, t)
  }

  /** The backend works on one ring at a time; in all others it is at the start. Once
      it has found the current ring empty, what was due from it is in the file. */
  ghost predicate Current(s: Sys, t: Tid) {
    t in s.rings ==>
      if s.scan.Draining? && s.scan.i < |s.registry| && s.registry[s.scan.i] == t
      then FoundEmpty(s.rings[t]) ==> Of(s.due, t) <= s.rings[t].out
      else s.rings[t].cons == R.Loop
  }

  ghost predicate FoundEmpty(r: R.State) {
    match r.cons
    case Second => r.seenHead == r.tail
    case SecondTag(e) => e
    case Returned(o) => o != R.Written
    case _ => false
  }

  ghost predicate DueOk(s: Sys, t: Tid) {
    Of(s.due, t) <= Of(s.committed, t)
  }

  ghost predicate ScanOk(s: Sys) {
    && (s.mode == Closed ==> s.scan == Between)
    && (s.scan.ChecksShutdown? ==> s.mode == Running)
    && match s.scan
       case Between => true
       case ChecksShutdown => true
       case Draining(i, _) => i <= |s.registry|
       case AsksDead(i, _) => i < |s.registry|
       case AsksEmpty(i, _) => i < |s.registry| && s.registry[i] in s.threads && s.threads[s.registry[i]] == Dead
  }

  ghost predicate Unique(s: seq<Tid>) {
    forall i, j | 0 <= i < j < |s| :: s[i] != s[j]
  }

  ghost predicate ThreadOk(s: Sys, t: Tid) {
    RingOk(s, t) && LifeOk(s, t) && CaughtUp(s, t) && Current(s, t) && DueOk(s, t)
  }

  ghost predicate Inv(s: Sys) {
    ScanOk(s) && Unique(s.registry) && forall t: Tid {:trigger ThreadOk(s, t)} :: ThreadOk(s, t)
  }

  // ---------------------------------------------------------------- steps on a ring

  lemma RingStepOther(s: Sys, t: Tid, m: R.Move, u: Tid)
    requires t in s.rings && |s.rings[t].buf| > 0 && u != t
    ensures var s' := RingStep(s, t, m);
            && (u in s'.rings <==> u in s.rings) && (u in s.rings ==> s'.rings[u] == s.rings[u])
            && Of(s'.committed, u) == Of(s.committed, u) && Proj(s'.file, u) == Proj(s.file, u)
  {
  }

  lemma PrefixTrans(a: seq<Payload>, b: seq<Payload>, c: seq<Payload>)
    requires a <= b && b <= c
    ensures a <= c
  {
  }

  lemma RingStepOwn(s: Sys, t: Tid, m: R.Move)
    requires t in s.rings && RingOk(s, t)
    ensures |s.rings[t].buf| > 0
    ensures var s' := RingStep(s, t, m);
            && RingOk(s', t) && s'.rings[t] == R.Step(s.rings[t], m)
            && Of(s.committed, t) <= Of(s'.committed, t) && Proj(s.file, t) <= Proj(s'.file, t)
  {
    hide R.Inv, R.Step;
    var r := s.rings[t];
    BufferIsThere(r);
    R.StepKeeps(r, m);
    R.StepIsQueueStep(r, m);
  }

  lemma BufferIsThere(r: R.State)
    requires R.Inv(r)
    ensures |r.buf| > 0
  {
  }

  /** A drained ring's events are all in the file. */
  lemma DrainedRing(r: R.State)
    requires R.Inv(r) && r.head - r.tail == 0
    ensures r.out == r.sent
  {
    hide R.AllFramed, R.HeadsOk, Shows, R.ProdOk, R.ConsOk, R.Seen, R.TailsOk;
  }

  lemma OutIsPrefix(r: R.State)
    requires R.Inv(r)
    ensures r.out <= r.sent
  {
    hide R.AllFramed, R.HeadsOk, Layout, R.ProdOk, R.ConsOk, R.Seen, R.TailsOk;
  }

  // -------------------------------------------------------------- the threads' steps

  lemma CreateKeeps(s: Sys, t: Tid, buf: seq<byte>, u: Tid)
    requires ThreadOk(s, u) && ThreadOk(s, t)
    ensures ThreadOk(Step(s, Create(t, buf)), u)
  {
    hide R.Inv, Proj;
    if |buf| > 0 { R.InitOk(buf); }
  }

  lemma RegisterKeeps(s: Sys, t: Tid, u: Tid)
    requires ThreadOk(s, u)
    ensures ThreadOk(Step(s, Register(t)), u)
  {
    hide R.Inv, Proj;
    var s' := Step(s, Register(t));
    assert u in s'.registry <==> u in s.registry || (s' != s && u == t);
  }

  lemma OtherKept(s: Sys, t: Tid, m: R.Move, u: Tid)
    requires t in s.rings && |s.rings[t].buf| > 0 && u != t && ThreadOk(s, u)
    ensures ThreadOk(RingStep(s, t, m), u)
  {
    hide R.Inv, Proj, R.Step;
    RingStepOther(s, t, m, u);
    assert Ahead(RingStep(s, t, m)) == Ahead(s);
  }

  lemma ProducerSteps(r: R.State, m: R.Move)
    requires |r.buf| > 0 && (m.Start? || m.LoadTail? || m.Store?)
    ensures var r' := R.Step(r, m);
            r'.cons == r.cons && r'.seenHead == r.seenHead && r'.tail == r.tail && r'.out == r.out
  {
  }

  lemma ProduceKeeps(s: Sys, t: Tid, m: R.Move, u: Tid)
    requires ThreadOk(s, t) && ThreadOk(s, u)
    ensures ThreadOk(Step(s, Produce(t, m)), u)
  {
    hide R.Inv, Proj, R.Step;
    var s' := Step(s, Produce(t, m));
    if s' != s {
      if u != t {
        OtherKept(s, t, m, u);
      } else {
        RingStepOwn(s, t, m);
        ProducerSteps(s.rings[t], m);
        assert Ahead(s') == Ahead(s);
        PrefixTrans(Of(s.due, t), Of(s.committed, t), Of(s'.committed, t));
      }
    }
  }

  /** A thread's state alone. */
  lemma ThreadMoved(s: Sys, threads: map<Tid, Thread>, u: Tid)
    requires ThreadOk(s, u) && LifeOk(s.(threads := threads), u)
    ensures ThreadOk(s.(threads := threads), u)
  {
    hide R.Inv, Proj, FoundEmpty, LifeOk;
    assert Ahead(s.(threads := threads)) == Ahead(s);
  }

  lemma DieKeeps(s: Sys, t: Tid, u: Tid)
    requires ThreadOk(s, u)
    ensures ThreadOk(Step(s, Die(t)), u)
  {
    hide R.Inv, Proj, RingOk, DueOk, CaughtUp, Current;
    ThreadMoved(s, Step(s, Die(t)).threads, u);
  }

  // --------------------------------------------------------------- the backend's steps

  lemma BeginKeeps(s: Sys, u: Tid)
    requires ThreadOk(s, u)
    ensures ThreadOk(Step(s, Begin), u)
  {
    hide R.Inv, Proj;
    assert s.registry[0..] == s.registry;
    if u in s.rings { OutIsPrefix(s.rings[u]); }
  }

  /** What was due from a ring stays accounted for in the next step of its drain. */
  lemma DrainStep(r: R.State, m: R.Move, due: seq<Payload>)
    requires R.Inv(r) && due <= r.sent && (FoundEmpty(r) ==> due <= r.out)
    requires m == R.Read || m == R.LoadHead(r.head)
    ensures |r.buf| > 0 && var r' := R.Step(r, m); R.Inv(r') && (FoundEmpty(r') ==> due <= r'.out)
  {
    hide R.Inv, R.Step;
    BufferIsThere(r);
    R.StepKeeps(r, m);
    R.StepIsQueueStep(r, m);
    var r' := R.Step(r, m);
    assert r.out <= r'.out;
    if FoundEmpty(r) {
      PrefixTrans(due, r.out, r'.out);
    } else if FoundEmpty(r') {
      NewlyEmpty(r, m);
      DrainedRing(r);
      PrefixTrans(due, r.out, r'.out);
    }
  }

  /** The ring is found empty only by loading a head that the tail has caught up with. */
  lemma NewlyEmpty(r: R.State, m: R.Move)
    requires R.Inv(r) && |r.buf| > 0 && (m == R.Read || m == R.LoadHead(r.head))
    requires !FoundEmpty(r) && FoundEmpty(R.Step(r, m))
    ensures r.head - r.tail == 0
  {
    hide Layout, R.AllFramed, R.HeadsOk, R.ProdOk, R.Fifo, R.TailsOk, R.WellFramed, R.SizeOf, R.FrameCount, Payloads;
    R.StepKeeps(r, m);
  }

  /** One step of draining the current ring. */
  lemma DrainKeeps(s: Sys, t: Tid, m: R.Move, u: Tid)
    requires ScanOk(s) && ThreadOk(s, t) && ThreadOk(s, u) && s.scan.Draining? && s.scan.i < |s.registry|
    requires t == s.registry[s.scan.i] && t in s.rings && (m == R.Read || m == R.LoadHead(s.rings[t].head))
    ensures |s.rings[t].buf| > 0 && ThreadOk(RingStep(s, t, m), u)
  {
    hide R.Inv, Proj, R.Step, FoundEmpty;
    RingStepOwn(s, t, m);
    var s' := RingStep(s, t, m);
    if u != t {
      OtherKept(s, t, m, u);
    } else {
      DrainStep(s.rings[t], m, Of(s.due, t));
      DrainIsNotProducing(s.rings[t], m);
      assert Ahead(s') == Ahead(s);
      PrefixTrans(Of(s.due, t), Of(s.committed, t), Of(s'.committed, t));
      assert t == s.registry[s.scan.i..][0];
    }
  }

  lemma DrainIsNotProducing(r: R.State, m: R.Move)
    requires |r.buf| > 0 && (m == R.Read || m == R.LoadHead(r.head) || m == R.Again)
    ensures R.Step(r, m).prod == r.prod && R.Step(r, m).sent == r.sent
  {
    hide R.SizeOf, R.FrameCount;
  }

  lemma AgainIs(r: R.State)
    requires R.Inv(r) && r.cons.Returned?
    ensures |r.buf| > 0 && R.Step(r, R.Again) == r.(cons := R.Loop)
    ensures r.cons.outcome != R.Written ==> FoundEmpty(r) && r.cons.outcome != R.Oversized
  {
    hide Layout, R.AllFramed, R.HeadsOk, R.ProdOk, R.Fifo, R.TailsOk, R.Seen;
    BufferIsThere(r);
  }

  /** The end of one call on the current ring. */
  lemma AgainKeeps(s: Sys, t: Tid, u: Tid)
    requires ScanOk(s) && ThreadOk(s, t) && ThreadOk(s, u) && s.scan.Draining? && s.scan.i < |s.registry|
    requires t == s.registry[s.scan.i] && t in s.rings && s.rings[t].cons.Returned?
    ensures |s.rings[t].buf| > 0
    ensures var s' := RingStep(s, t, R.Again);
            && ThreadOk(s', u) && s'.rings[t].cons == R.Loop
            && (s.rings[t].cons.outcome != R.Written ==> Of(s.due, t) <= Proj(s'.file, t))
  {
    hide R.Inv, Proj, R.Step, FoundEmpty;
    AgainIs(s.rings[t]);
    RingStepOwn(s, t, R.Again);
    var s' := RingStep(s, t, R.Again);
    LoopFindsNothing(s'.rings[t]);
    if u != t {
      OtherKept(s, t, R.Again, u);
    } else {
      assert Ahead(s') == Ahead(s);
      assert t == s.registry[s.scan.i..][0];
    }
  }

  /** Moving the scan alone. */
  lemma ScanMoved(s: Sys, scan: Scan, u: Tid)
    requires ThreadOk(s, u) && CaughtUp(s.(scan := scan), u) && Current(s.(scan := scan), u)
    ensures ThreadOk(s.(scan := scan), u)
  {
    hide R.Inv, Proj, FoundEmpty, CaughtUp, Current;
  }

  /** The scan is done with draining the current ring. */
  lemma MoveOn(s: Sys, t: Tid, did: bool, u: Tid)
    requires ScanOk(s) && ThreadOk(s, u) && s.scan.Draining? && s.scan.i < |s.registry| && t == s.registry[s.scan.i]
    requires t in s.rings && s.rings[t].cons == R.Loop && Of(s.due, t) <= Proj(s.file, t)
    ensures ThreadOk(s.(scan := AsksDead(s.scan.i, did)), u)
  {
    hide R.Inv, Proj, FoundEmpty, RingOk, LifeOk, DueOk;
    assert s.registry[s.scan.i..] == [t] + s.registry[s.scan.i + 1..];
    ScanMoved(s, AsksDead(s.scan.i, did), u);
  }

  lemma StillDraining(s: Sys, did: bool, u: Tid)
    requires ThreadOk(s, u) && s.scan.Draining?
    ensures ThreadOk(s.(scan := Draining(s.scan.i, did)), u)
  {
    hide R.Inv, Proj, FoundEmpty, RingOk, LifeOk, DueOk;
    ScanMoved(s, Draining(s.scan.i, did), u);
  }

  lemma ReturnKeeps(s: Sys, u: Tid)
    requires ScanOk(s) && ThreadOk(s, u) && s.scan.Draining? && s.scan.i < |s.registry|
    requires ThreadOk(s, s.registry[s.scan.i])
    requires var t := s.registry[s.scan.i]; t in s.rings && s.rings[t].cons.Returned?
    ensures ThreadOk(BackStep(s), u) && ScanOk(BackStep(s))
  {
    hide R.Inv, Proj, R.Step, Unique, ThreadOk;
    var t := s.registry[s.scan.i];
    AgainKeeps(s, t, u);
    var s1 := RingStep(s, t, R.Again);
    OutcomeIs(s, t);
    if s.rings[t].cons.outcome == R.Written {
      StillDraining(s1, true, u);
    } else {
      MoveOn(s1, t, s.scan.did, u);
    }
  }

  lemma OutcomeIs(s: Sys, t: Tid)
    requires ThreadOk(s, t) && t in s.rings && s.rings[t].cons.Returned?
    ensures s.rings[t].cons.outcome != R.Oversized
  {
    hide R.Inv, Proj, FoundEmpty;
    AgainIs(s.rings[t]);
  }

  lemma ChecksKeeps(s: Sys, u: Tid)
    requires ThreadOk(s, u) && s.scan.ChecksShutdown?
    ensures ThreadOk(BackStep(s), u)
  {
    hide R.Inv, Proj;
  }

  lemma EndKeeps(s: Sys, u: Tid)
    requires ScanOk(s) && ThreadOk(s, u) && s.scan.Draining? && s.scan.i == |s.registry|
    ensures ThreadOk(BackStep(s), u)
  {
    hide R.Inv, Proj;
  }

  lemma AsksDeadKeeps(s: Sys, u: Tid)
    requires ScanOk(s) && ThreadOk(s, u) && s.scan.AsksDead?
    ensures ThreadOk(BackStep(s), u) && ScanOk(BackStep(s))
  {
    hide R.Inv, Proj, FoundEmpty, RingOk, LifeOk, DueOk, CaughtUp;
    if u in s.rings { LoopFindsNothing(s.rings[u]); }
    SameAhead(s, BackStep(s).scan, u);
    ScanMoved(s, BackStep(s).scan, u);
  }

  lemma SameAhead(s: Sys, scan: Scan, u: Tid)
    requires CaughtUp(s, u) && Ahead(s.(scan := scan)) == Ahead(s)
    ensures CaughtUp(s.(scan := scan), u)
  {
    hide Proj, Ahead;
  }

  lemma WithoutIs(s: seq<Tid>, i: nat)
    requires i < |s| && Unique(s)
    ensures var w := Without(s, i);
            && |w| == |s| - 1 && Unique(w) && w[i..] == s[i + 1..] && forall u :: u in w <==> u in s && u != s[i]
  {
    var w := Without(s, i);
    forall u ensures u in w <==> u in s && u != s[i] {
      if u in s && u != s[i] {
        var k :| 0 <= k < |s| && s[k] == u;
        assert w[if k < i then k else k - 1] == u;
      }
    }
  }

  /** Freeing a ring: its thread has finished, and all it committed is in the file. */
  lemma FreeIsSafe(s: Sys)
    requires ScanOk(s) && s.scan.AsksEmpty? && ThreadOk(s, s.registry[s.scan.i])
    requires s.registry[s.scan.i] !in BackStep(s).rings
    ensures var t := s.registry[s.scan.i]; s.threads[t] == Dead && Proj(s.file, t) == Of(s.committed, t)
  {
    hide R.Inv, Proj;
    DrainedRing(s.rings[s.registry[s.scan.i]]);
  }

  lemma FreeKeeps(s: Sys, u: Tid)
    requires ScanOk(s) && Unique(s.registry) && ThreadOk(s, u) && s.scan.AsksEmpty? && ThreadOk(s, s.registry[s.scan.i])
    requires var t := s.registry[s.scan.i]; t in s.rings && s.rings[t].head - s.rings[t].tail == 0
    ensures ThreadOk(BackStep(s), u)
  {
    hide R.Inv, Proj, FoundEmpty, Unique, Without;
    WithoutIs(s.registry, s.scan.i);
    DrainedRing(s.rings[s.registry[s.scan.i]]);
    if u in s.rings { LoopFindsNothing(s.rings[u]); }
  }

  lemma LoopFindsNothing(r: R.State)
    ensures r.cons == R.Loop ==> !FoundEmpty(r)
  {
  }

  lemma KeepKeeps(s: Sys, u: Tid)
    requires ScanOk(s) && ThreadOk(s, u) && s.scan.AsksEmpty?
    requires var t := s.registry[s.scan.i]; t in s.rings && s.rings[t].head - s.rings[t].tail != 0
    ensures ThreadOk(BackStep(s), u)
  {
    hide R.Inv, Proj, FoundEmpty, Unique;
    if u in s.rings { LoopFindsNothing(s.rings[u]); }
  }

  lemma AsksEmptyKeeps(s: Sys, u: Tid)
    requires ScanOk(s) && Unique(s.registry) && ThreadOk(s, u) && s.scan.AsksEmpty? && ThreadOk(s, s.registry[s.scan.i])
    ensures ThreadOk(BackStep(s), u) && ScanOk(BackStep(s)) && Unique(BackStep(s).registry)
  {
    hide R.Inv, Proj, FoundEmpty, Unique, Without, Current, RingOk, CaughtUp, DueOk;
    WithoutIs(s.registry, s.scan.i);
    var t := s.registry[s.scan.i];
    if t in s.rings {
      if s.rings[t].head - s.rings[t].tail == 0 { FreeKeeps(s, u); } else { KeepKeeps(s, u); }
    }
  }

  lemma BackKeeps(s: Sys, u: Tid)
    requires ScanOk(s) && Unique(s.registry) && ThreadOk(s, u)
    requires !Unlocked(s.scan) && s.scan.i < |s.registry| ==> ThreadOk(s, s.registry[s.scan.i])
    ensures ThreadOk(BackStep(s), u) && ScanOk(BackStep(s)) && Unique(BackStep(s).registry)
  {
    hide R.Inv, Proj, R.Step, Unique, FoundEmpty;
    match s.scan
    case Between =>
    case ChecksShutdown => ChecksKeeps(s, u);
    case Draining(i, did) =>
      if i == |s.registry| {
        EndKeeps(s, u);
      } else {
        var t := s.registry[i];
        BufferIsThere(s.rings[t]);
        if s.rings[t].cons.Returned? {
          ReturnKeeps(s, u);
        } else {
          DrainKeeps(s, t, NextMove(s.rings[t]), u);
        }
      }
    case AsksDead(_, _) => AsksDeadKeeps(s, u);
    case AsksEmpty(_, _) => AsksEmptyKeeps(s, u);
  }

  /** The parts of the invariant that speak of the whole system. */
  lemma FrameKeeps(s: Sys, a: Act)
    requires Inv(s)
    ensures ScanOk(Step(s, a)) && Unique(Step(s, a).registry)
  {
    hide R.Inv, Proj, R.Step, BackStep;
    if a.Back? {
      if !Unlocked(s.scan) && s.scan.i < |s.registry| { assert ThreadOk(s, s.registry[s.scan.i]); }
      assert ThreadOk(s, 0);
      BackKeeps(s, 0);
    } else if a.Register? {
      assert ThreadOk(s, a.t);
    }
  }

  lemma StepKeeps(s: Sys, a: Act)
    requires Inv(s)
    ensures Inv(Step(s, a))
  {
    hide R.Inv, Proj, R.Step, BackStep, RingOk, LifeOk, Current, CaughtUp, DueOk;
    FrameKeeps(s, a);
    forall u: Tid ensures ThreadOk(Step(s, a), u) {
      assert ThreadOk(s, u);
      match a
      case Create(t, buf) => assert ThreadOk(s, t); CreateKeeps(s, t, buf, u);
      case Register(t) => RegisterKeeps(s, t, u);
      case Produce(t, m) => assert ThreadOk(s, t); ProduceKeeps(s, t, m, u);
      case Die(t) => DieKeeps(s, t, u);
      case AskShutdown => AskKeeps(s, u);
      case Begin => BeginKeeps(s, u);
      case Back =>
        if !Unlocked(s.scan) && s.scan.i < |s.registry| { assert ThreadOk(s, s.registry[s.scan.i]); }
        BackKeeps(s, u);
    }
  }

  lemma AskKeeps(s: Sys, u: Tid)
    requires ThreadOk(s, u)
    ensures ThreadOk(Step(s, AskShutdown), u)
  {
    hide R.Inv, Proj;
    assert Ahead(Step(s, AskShutdown)) == Ahead(s);
  }

  lemma {:induction false} RunKeeps(s: Sys, acts: seq<Act>)
    requires Inv(s)
    ensures Inv(Run(s, acts))
    decreases |acts|
  {
    hide Inv, Step;
    if acts != [] {
      RunKeeps(s, acts[..|acts| - 1]);
      StepKeeps(Run(s, acts[..|acts| - 1]), acts[|acts| - 1]);
    }
  }

  lemma StartOk()
    ensures Inv(Start())
  {
  }

  // ------------------------------------------------------------------ main results

  /** What waits in a thread's ring. */
  ghost function Waiting(s: Sys, t: Tid): seq<Payload> {
    if t in s.rings then Payloads(s.rings[t].recs) else []
  }

  lemma FileAndRing(s: Sys, t: Tid)
    requires Inv(s)
    ensures Proj(s.file, t) + Waiting(s, t) == Of(s.committed, t)
  {
    hide Proj, R.AllFramed, R.HeadsOk, Layout, R.ProdOk, R.ConsOk, R.Seen, R.TailsOk, Payloads;
    assert ThreadOk(s, t);
  }

  /** In every run and for every thread, its events in the file followed by those in
      its ring are the ones it has committed, in order. */
  lemma NothingLost(acts: seq<Act>, t: Tid)
    ensures var s := Run(Start(), acts); Proj(s.file, t) + Waiting(s, t) == Of(s.committed, t)
  {
    hide Run, Proj, Inv, Waiting;
    StartOk();
    RunKeeps(Start(), acts);
    FileAndRing(Run(Start(), acts), t);
  }

  /** A thread that is logging has its ring: it is never freed under its feet. A ring
      that has been freed belonged to a finished thread whose events are all in the file. */
  lemma FreedOnlyWhenWritten(acts: seq<Act>, t: Tid)
    ensures var s := Run(Start(), acts);
            && (t in s.threads && s.threads[t] != Dead ==> t in s.rings)
            && (t in s.threads && t !in s.rings ==> s.threads[t] == Dead && Proj(s.file, t) == Of(s.committed, t))
  {
    hide Step, Run, Proj, R.Inv;
    StartOk();
    RunKeeps(Start(), acts);
    assert ThreadOk(Run(Start(), acts), t);
  }

  lemma CommittedGrows(s: Sys, a: Act, t: Tid)
    requires Inv(s)
    ensures Of(s.committed, t) <= Of(Step(s, a).committed, t)
    ensures Of(s.due, t) <= Of(Step(s, a).due, t)
    ensures a == Begin && s.scan == Between && s.mode != Closed ==> Of(Step(s, a).due, t) == Of(s.committed, t)
  {
    hide R.Inv, Proj, R.Step, Unique, BackStep, RingStep;
    assert ThreadOk(s, t);
    if a.Produce? && Step(s, a) != s {
      RingGrows(s, a.t, a.m, t);
    } else if a.Back? {
      BackGrows(s, t);
    }
  }

  lemma BackGrows(s: Sys, t: Tid)
    requires Inv(s)
    ensures Of(s.committed, t) <= Of(BackStep(s).committed, t) && BackStep(s).due == s.due
  {
    hide R.Inv, Proj, R.Step, Unique, RingStep, Inv, Of, NextMode, NextMove, Without;
    if s.scan.Draining? && s.scan.i < |s.registry| {
      var u := s.registry[s.scan.i];
      if u in s.rings && |s.rings[u].buf| > 0 {
        RingGrows(s, u, NextMove(s.rings[u]), t);
      }
    }
  }

  lemma RingGrows(s: Sys, u: Tid, m: R.Move, t: Tid)
    requires Inv(s) && u in s.rings && |s.rings[u].buf| > 0
    ensures Of(s.committed, t) <= Of(RingStep(s, u, m).committed, t) && RingStep(s, u, m).due == s.due
  {
    hide R.Inv, Proj, R.Step;
    assert ThreadOk(s, u);
    if t == u { RingStepOwn(s, u, m); } else { RingStepOther(s, u, m, t); }
  }

  lemma {:induction false} DueGrows(s: Sys, acts: seq<Act>, t: Tid)
    requires Inv(s)
    ensures Of(s.due, t) <= Of(Run(s, acts).due, t)
    decreases |acts|
  {
    hide Inv, Step;
    if acts != [] {
      var most := acts[..|acts| - 1];
      DueGrows(s, most, t);
      RunKeeps(s, most);
      CommittedGrows(Run(s, most), acts[|acts| - 1], t);
      PrefixTrans(Of(s.due, t), Of(Run(s, most).due, t), Of(Run(s, acts).due, t));
    }
  }

  lemma UnlockedIsCaughtUp(s: Sys, t: Tid)
    requires Inv(s) && Unlocked(s.scan)
    ensures Of(s.due, t) <= Proj(s.file, t)
  {
    hide R.Inv, Proj;
    assert ThreadOk(s, t);
  }

  /** A scan writes everything that was committed before it began: whatever the threads
      do meanwhile, once it is over those events are in the file. */
  lemma ScanWritesWhatWasCommitted(before: seq<Act>, after: seq<Act>, t: Tid)
    requires var s0 := Run(Start(), before); s0.scan == Between && s0.mode != Closed
    requires Unlocked(Run(Step(Run(Start(), before), Begin), after).scan)
    ensures var s0 := Run(Start(), before); var s := Run(Step(s0, Begin), after);
            Of(s0.committed, t) <= Proj(s.file, t)
  {
    hide Inv, Step, Run, Proj;
    StartOk();
    RunKeeps(Start(), before);
    var s0 := Run(Start(), before);
    var s1 := Step(s0, Begin);
    StepKeeps(s0, Begin);
    CommittedGrows(s0, Begin, t);
    RunKeeps(s1, after);
    DueGrows(s1, after, t);
    UnlockedIsCaughtUp(Run(s1, after), t);
    PrefixTrans(Of(s0.committed, t), Of(Run(s1, after).due, t), Proj(Run(s1, after).file, t));
  }

  lemma ClosedIsBetween(s: Sys)
    requires Inv(s)
    ensures s.mode == Closed ==> s.scan == Between
  {
  }

  /** Closing the log: everything committed before its last scan began is in the file,
      and the file holds nothing that was not committed. */
  lemma ClosedLogIsComplete(acts: seq<Act>, t: Tid)
    requires Run(Start(), acts).mode == Closed
    ensures var s := Run(Start(), acts);
            Of(s.due, t) <= Proj(s.file, t) && Proj(s.file, t) <= Of(s.committed, t)
  {
    hide Inv, Step, Run, Proj, Payloads;
    StartOk();
    RunKeeps(Start(), acts);
    ClosedIsBetween(Run(Start(), acts));
    UnlockedIsCaughtUp(Run(Start(), acts), t);
    NothingLost(acts, t);
  }

  /** If no thread has committed anything since the last scan began, the closed log
      holds everything. */
  lemma QuietCloseIsComplete(acts: seq<Act>, t: Tid)
    requires var s := Run(Start(), acts); s.mode == Closed && Of(s.committed, t) == Of(s.due, t)
    ensures var s := Run(Start(), acts); Waiting(s, t) == [] && Proj(s.file, t) == Of(s.committed, t)
  {
    hide Run, Proj, Waiting;
    var s := Run(Start(), acts);
    ClosedLogIsComplete(acts, t);
    NothingLost(acts, t);
    assert |Proj(s.file, t) + Waiting(s, t)| == |Proj(s.file, t)| + |Waiting(s, t)|;
  }

  /** The shutdown cannot overtake `c`: it is committed, and once the last drain is under
      way it is due. */
  ghost predicate Accounted(s: Sys, c: seq<Payload>, t: Tid) {
    && c <= Of(s.committed, t)
    && (s.mode == FinalDrain || s.mode == Closed || (s.mode == LastDrain && s.scan != Between) ==> c <= Of(s.due, t))
  }

  lemma RingStepRest(s: Sys, t: Tid, m: R.Move)
    requires t in s.rings && |s.rings[t].buf| > 0
    ensures var s' := RingStep(s, t, m);
            && s'.mode == s.mode && s'.scan == s.scan
            && s'.shutdown == s.shutdown && s'.due == s.due && s'.registry == s.registry
  {
  }

  /** How a step of the scan moves the mode. */
  lemma BackModes(s: Sys)
    requires ScanOk(s)
    ensures var s' := BackStep(s);
            || (s'.mode == s.mode && (s.scan == Between ==> s'.scan == Between))
            || (s.mode == Running && s'.mode == LastDrain && s'.scan == Between)
            || (s.mode == LastDrain && s.scan != Between)
            || s.mode == FinalDrain
  {
    hide R.Step, RingStep;
    if s.scan.Draining? && s.scan.i < |s.registry| {
      var t := s.registry[s.scan.i];
      if t in s.rings && |s.rings[t].buf| > 0 {
        RingStepRest(s, t, NextMove(s.rings[t]));
      }
    }
  }

  /** How the mode moves. */
  lemma ModeSteps(s: Sys, a: Act)
    requires ScanOk(s)
    ensures var s' := Step(s, a);
            || (s'.mode == s.mode && (s.scan == Between && s'.scan != Between ==> a == Begin && s.mode != Closed))
            || (s.mode == Running && s'.mode == LastDrain && s'.scan == Between)
            || (s.mode == LastDrain && s.scan != Between)
            || s.mode == FinalDrain
  {
    hide R.Step, RingStep, BackStep;
    if a.Back? {
      BackModes(s);
    } else if a.Produce? && Step(s, a) != s {
      RingStepRest(s, a.t, a.m);
    }
  }

  lemma AccountedKeeps(s: Sys, a: Act, c: seq<Payload>, t: Tid)
    requires Inv(s) && Accounted(s, c, t)
    ensures Accounted(Step(s, a), c, t)
  {
    hide ThreadOk, Step, R.Inv, Unique;
    CommittedGrows(s, a, t);
    ModeSteps(s, a);
    var s' := Step(s, a);
    PrefixTrans(c, Of(s.committed, t), Of(s'.committed, t));
    if c <= Of(s.due, t) { PrefixTrans(c, Of(s.due, t), Of(s'.due, t)); }
  }

  lemma {:induction false} AccountedRun(s: Sys, acts: seq<Act>, c: seq<Payload>, t: Tid)
    requires Inv(s) && Accounted(s, c, t)
    ensures Accounted(Run(s, acts), c, t)
    decreases |acts|
  {
    hide Inv, Step, Accounted;
    if acts != [] {
      var most := acts[..|acts| - 1];
      AccountedRun(s, most, c, t);
      RunKeeps(s, most);
      AccountedKeeps(Run(s, most), acts[|acts| - 1], c, t);
    }
  }

  /** Closing the log writes everything that was committed while the backend was still in
      its main loop, whatever the threads and the shutdown do in between. */
  lemma CloseWritesEverything(before: seq<Act>, after: seq<Act>, t: Tid)
    requires var s0 := Run(Start(), before); s0.mode == Running && Run(s0, after).mode == Closed
    ensures var s0 := Run(Start(), before); Of(s0.committed, t) <= Proj(Run(s0, after).file, t)
  {
    hide Inv, Step, Run, Proj;
    StartOk();
    RunKeeps(Start(), before);
    var s0 := Run(Start(), before);
    AccountedRun(s0, after, Of(s0.committed, t), t);
    RunKeeps(s0, after);
    var s := Run(s0, after);
    ClosedIsBetween(s);
    UnlockedIsCaughtUp(s, t);
    PrefixTrans(Of(s0.committed, t), Of(s.due, t), Proj(s.file, t));
  }

  lemma ShutdownStays(s: Sys, a: Act)
    requires ScanOk(s) && (s.mode != Running ==> s.shutdown)
    ensures Step(s, a).mode != Running ==> Step(s, a).shutdown
    ensures s.shutdown ==> Step(s, a).shutdown
    ensures a == Begin || a == Back ==> Step(s, a).shutdown == s.shutdown
  {
    hide R.Step, RingStep, BackStep;
    if a.Back? {
      BackShutdown(s);
    } else if a.Produce? && Step(s, a) != s {
      RingStepRest(s, a.t, a.m);
    }
  }

  lemma BackShutdown(s: Sys)
    ensures BackStep(s).shutdown == s.shutdown
    ensures s.mode == Running && BackStep(s).mode != Running ==> s.shutdown
  {
    hide R.Step, RingStep, NextMode, NextMove;
    if s.scan.Draining? && s.scan.i < |s.registry| {
      var t := s.registry[s.scan.i];
      if t in s.rings && |s.rings[t].buf| > 0 {
        RingStepRest(s, t, NextMove(s.rings[t]));
      }
    }
  }

  /** The backend leaves its main loop only after the shutdown has been requested. */
  lemma {:induction false} OnlyAfterShutdown(acts: seq<Act>)
    ensures Run(Start(), acts).mode != Running ==> Run(Start(), acts).shutdown
    decreases |acts|
  {
    hide Step, ThreadOk, Unique;
    if acts != [] {
      var most := acts[..|acts| - 1];
      OnlyAfterShutdown(most);
      StartOk();
      RunKeeps(Start(), most);
      ShutdownStays(Run(Start(), most), acts[|acts| - 1]);
    }
  }

  /** So a closed log holds everything that was committed before the shutdown was
      requested. */
  lemma CloseWritesBeforeShutdown(before: seq<Act>, after: seq<Act>, t: Tid)
    requires var s0 := Run(Start(), before); !s0.shutdown && Run(s0, after).mode == Closed
    ensures var s0 := Run(Start(), before); Of(s0.committed, t) <= Proj(Run(s0, after).file, t)
  {
    hide Run, Proj;
    OnlyAfterShutdown(before);
    CloseWritesEverything(before, after, t);
  }
}
