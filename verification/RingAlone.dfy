/** The ring with one side moving at a time. A producer that finishes its event
    undisturbed, and a backend that finishes its call, bring about in the step-by-step
    ring what the methods of the ring class promise. With that, the run in which a call
    stops at padding. */
module RingAlone {
  import opened RingLayout
  import opened ThreadRing
  import opened RingProtocol
  import opened Backend

  /** Some sequence of moves leads from `s` to `t`. */
  ghost predicate Leads(s: State, t: State) {
    |s.buf| > 0 && exists moves :: RunFrom(s, moves) == t
  }

  lemma LeadsNowhere(s: State)
    requires Inv(s)
    ensures Leads(s, s)
  {
    hide Inv;
    LayoutSize(s.buf, s.tail, s.head, s.recs) by { InvLayout(s); }
    assert RunFrom(s, []) == s;
  }

  lemma InvLayout(s: State)
    requires Inv(s)
    ensures Layout(s.buf, s.tail, s.head, s.recs)
  {
  }

  lemma LeadsStep(s: State, t: State, m: Move)
    requires Inv(s) && Leads(s, t)
    ensures Inv(t) && |t.buf| == |s.buf| > 0 && Inv(Step(t, m)) && Leads(s, Step(t, m))
  {
    hide Inv, Step;
    var moves :| RunFrom(s, moves) == t;
    RunFromOk(s, moves);
    StepKeeps(t, m);
    var more := moves + [m];
    assert more[..|more| - 1] == moves;
    assert RunFrom(s, more) == Step(t, m);
  }

  /** The counters' current values can be loaded. */
  lemma Current(s: State)
    requires Inv(s)
    ensures s.head in s.heads && s.seenHead <= s.head && s.tail in s.tails && s.seenTail <= s.tail
    ensures |s.buf| > 0 && s.tail <= s.head <= s.tail + |s.buf|
    ensures s.recs == [] <==> s.head == s.tail
  {
    hide AllFramed, ProdOk, ConsOk, Fifo, HeadsOk, Shows, Fits;
    CoversFront(s, s.seenHead);
    FrontTag(s.buf, s.tail, s.head, s.recs);
    LayoutSize(s.buf, s.tail, s.head, s.recs);
  }

  // ------------------------------------------------------------------- the producer

  /** `k` bytes of a payload or of padding are written. */
  lemma {:induction false} Stores(s0: State, s: State, k: nat) returns (t: State)
    requires Inv(s0) && Leads(s0, s)
    requires || (s.prod.Fills? && s.prod.done + k <= |s.prod.payload|)
             || (s.prod.PadsUp? && s.prod.done + k <= s.prod.total)
    ensures Leads(s0, t) && t == s.(buf := t.buf, prod := s.prod.(done := s.prod.done + k)) && |t.buf| == |s.buf|
    decreases k
  {
    hide Leads, Inv;
    t := s;
    if k > 0 {
      LeadsStep(s0, s, Store);
      t := Stores(s0, Step(s, Store), k - 1);
    }
  }

  /** From its tag on, an event is written and published. */
  lemma Finish(s0: State, s: State) returns (t: State)
    requires Inv(s0) && Leads(s0, s) && s.prod.Tags?
    ensures Leads(s0, t)
    ensures t == s.(buf := t.buf, head := s.head + 1 + |s.prod.payload|, heads := t.heads, prod := Idle,
                sent := s.sent + [s.prod.payload], recs := s.recs + [Ev(s.prod.payload)])
  {
    hide Leads, Inv;
    var p := s.prod.payload;
    LeadsStep(s0, s, Store);
    t := Step(s, Store);
    t := Stores(s0, t, |p|);
    LeadsStep(s0, t, Store);
    t := Step(t, Store);
  }

  /** The padding is written and published, and the second look at the tail succeeds. */
  lemma PadUp(s0: State, s: State) returns (t: State)
    requires Inv(s0) && Leads(s0, s) && s.prod.PadsUp? && s.prod.done == 0
    ensures Leads(s0, t)
    ensures t == s.(buf := t.buf, head := s.head + s.prod.total, heads := t.heads, seenTail := s.tail,
                prod := Tags(s.prod.payload, 0), recs := s.recs + Skips(s.prod.total))
  {
    hide Leads, Inv, DecideAgain, Skips;
    t := Publish(s0, s);
    LeadsStep(s0, t, LoadTail(s.tail));
    Current(t);
    RecheckSucceeds(t, s.tail);
    t := Step(t, LoadTail(s.tail));
  }

  lemma Publish(s0: State, s: State) returns (t: State)
    requires Inv(s0) && Leads(s0, s) && s.prod.PadsUp? && s.prod.done == 0
    ensures Leads(s0, t)
    ensures t == s.(buf := t.buf, head := s.head + s.prod.total, heads := s.heads + {s.head + s.prod.total},
                prod := Rechecks(s.prod.payload), recs := s.recs + Skips(s.prod.total))
  {
    hide Leads, Inv, DecideAgain, Skips;
    t := Stores(s0, s, s.prod.total);
    LeadsStep(s0, t, Store);
    t := Step(t, Store);
  }

  lemma DecideCases(cap: nat, head: nat, tail: nat, p: seq<byte>)
    requires cap > 0
    ensures var n := PadFor(cap, head, 1 + |p|);
            Decide(cap, head, tail, p) ==
              if !RoomFor(cap, tail, head, 1 + |p|) then Wants(p)
              else if n > 0 then PadsUp(p, n, 0)
              else Tags(p, head % cap)
  {
    IndexIsBelow(head, cap);
  }

  lemma IndexIsBelow(pos: nat, cap: nat)
    requires cap > 0
    ensures pos % cap < cap && (pos < cap ==> pos % cap == pos)
  {
  }

  lemma NoPadding(recs: seq<Record>)
    ensures recs + Skips(0) == recs
  {
  }

  /** A producer that is not disturbed logs its event exactly if there is room for it,
      behind the padding it needs. This is what `TryLog` promises of the ring class. */
  lemma LogAlone(s0: State, s: State, p: seq<byte>) returns (t: State)
    requires Inv(s0) && Leads(s0, s) && s.prod == Idle && WellFramed(p)
    ensures Leads(s0, t) && |s.buf| > 0 && t.tail == s.tail && t.cons == s.cons && t.seenHead == s.seenHead
    ensures t.out == s.out
    ensures var n := PadFor(|s.buf|, s.head, 1 + |p|);
            if RoomFor(|s.buf|, s.tail, s.head, 1 + |p|) then
              && t.prod == Idle && t.head == s.head + n + 1 + |p| && t.sent == s.sent + [p]
              && t.recs == s.recs + Skips(n) + [Ev(p)]
            else t.prod == Wants(p) && t.head == s.head && t.sent == s.sent && t.recs == s.recs && t.buf == s.buf
  {
    hide Leads, Inv, Decide, DecideAgain, RoomFor, PadFor, Skips, WellFramed;
    t := Begin(s0, s, p);
    DecideCases(|s.buf|, s.head, s.tail, p);
    NoPadding(s.recs);
    if t.prod.PadsUp? { t := PadUp(s0, t); }
    if t.prod.Tags? { t := Finish(s0, t); }
  }

  lemma Begin(s0: State, s: State, p: seq<byte>) returns (t: State)
    requires Inv(s0) && Leads(s0, s) && s.prod == Idle && WellFramed(p)
    ensures Leads(s0, t) && |s.buf| > 0
    ensures t == s.(seenTail := s.tail, prod := Decide(|s.buf|, s.head, s.tail, p))
  {
    hide Leads, Inv, Decide, DecideAgain, WellFramed;
    LeadsStep(s0, s, Start(p));
    Current(s);
    t := Step(s, Start(p));
    LeadsStep(s0, t, LoadTail(s.tail));
    t := Step(t, LoadTail(s.tail));
  }

  // ------------------------------------------------------------------- the backend

  /** `k` bytes of a header or of a payload are read. */
  lemma {:induction false} Reads(s0: State, s: State, k: nat) returns (t: State)
    requires Inv(s0) && Leads(s0, s)
    requires || (s.cons.Header? && |s.cons.hdr| + k <= HEADER)
             || (s.cons.Body? && |s.cons.got| + k <= SizeOf(s.cons.hdr) && FrameCount(s.cons.hdr) <= MAX_FRAMES)
    ensures Leads(s0, t) && t == s.(cons := t.cons)
    ensures if s.cons.Header? then t.cons.Header? && |t.cons.hdr| == |s.cons.hdr| + k
            else t.cons.Body? && t.cons.hdr == s.cons.hdr && |t.cons.got| == |s.cons.got| + k
    decreases k
  {
    hide Leads, Inv, FrameCount, SizeOf;
    t := s;
    if k > 0 {
      LeadsStep(s0, s, Read);
      t := Reads(s0, Step(s, Read), k - 1);
    }
  }

  /** The skip loop loads the current head. */
  lemma LookAt(s0: State, s: State) returns (t: State)
    requires Inv(s0) && Leads(s0, s) && (s.cons == Loop || s.cons == Second)
    ensures Leads(s0, t) && Inv(t) && Inv(s) && (s.recs == [] <==> s.head == s.tail) && s.tail <= s.head
    ensures t == s.(seenHead := s.head,
                cons := if s.head == s.tail then (if s.cons == Loop then Second else Returned(Empty))
                        else if s.cons == Loop then LoopTag else SecondTag(s.seenHead == s.tail))
  {
    hide Leads, Inv;
    LeadsStep(s0, s, LoadHead(s.head));
    Current(s);
    t := Step(s, LoadHead(s.head));
  }

  /** And reads the tag of the front record. */
  lemma ReadTag(s0: State, s: State) returns (t: State)
    requires Inv(s0) && Leads(s0, s) && s.seenHead > s.tail && (s.cons == LoopTag || s.cons.SecondTag?)
    ensures Leads(s0, t) && s.recs != []
    ensures t == s.(cons := if s.cons == LoopTag then (if s.recs[0] == Skip then SkipsOne else Second)
                            else if s.recs[0] == Skip then Returned(OtherTag(TAG_SKIP, s.cons.wasEmpty))
                            else NeedsHeader)
  {
    hide Leads, Inv;
    LeadsStep(s0, s, Read);
    TagIs(s);
    t := Step(s, Read);
  }

  /** The header of the front event is read. */
  lemma ReadHeader(s0: State, s: State) returns (t: State)
    requires Inv(s0) && Leads(s0, s) && s.cons == NeedsHeader
    ensures Leads(s0, t) && Inv(s) && AtEvent(s) && t.cons.NeedsAll? && HeaderOk(t.cons.hdr, s.recs[0].payload)
    ensures t == s.(seenHead := s.head, cons := t.cons)
  {
    hide Leads, Inv, SizeOf, FrameCount, WellFramed;
    LeadsStep(s0, s, LoadHead(s.head));
    Current(s);
    WholeFront(s);
    t := Step(s, LoadHead(s.head));
    t := Reads(s0, t, HEADER);
    LeadsStep(s0, t, Read);
    HeaderIsPrefix(t);
    t := Step(t, Read);
  }

  lemma HeaderIsPrefix(s: State)
    requires Inv(s) && s.cons.Header? && |s.cons.hdr| == HEADER
    ensures AtEvent(s) && HeaderOk(s.cons.hdr, s.recs[0].payload)
  {
    hide Layout, HeadsOk, Payloads, ProdOk, Shows, AllFramed;
    FrontFramed(s);
  }

  /** What is published covers the whole front event. */
  lemma WholeFront(s: State)
    requires Inv(s) && (s.cons == NeedsHeader || s.cons.NeedsAll?)
    ensures AtEvent(s) && s.head - s.tail >= 1 + |s.recs[0].payload| && |s.recs[0].payload| >= HEADER
  {
    hide Layout, HeadsOk, Payloads, ProdOk, Shows, AllFramed;
    Current(s);
    FrontFramed(s);
    LongEnough(s.recs[0].payload);
    CoversFront(s, s.head);
  }

  /** Its payload is read, written out and taken off the ring. */
  lemma ReadBody(s0: State, s: State) returns (t: State)
    requires Inv(s0) && Leads(s0, s) && s.cons.NeedsAll? && AtEvent(s) && HeaderOk(s.cons.hdr, s.recs[0].payload)
    ensures Leads(s0, t)
    ensures var p := s.recs[0].payload;
            t == s.(tail := s.tail + 1 + |p|, tails := t.tails, seenHead := s.head, cons := Returned(Written),
                out := s.out + [p], recs := s.recs[1..])
  {
    hide Leads, Inv, SizeOf, FrameCount, WellFramed;
    var hdr := s.cons.hdr;
    LeadsStep(s0, s, LoadHead(s.head));
    Current(s);
    WholeFront(s);
    t := Step(s, LoadHead(s.head));
    t := Reads(s0, t, SizeOf(hdr));
    LeadsStep(s0, t, Read);
    BodyIsWhole(t);
    t := Step(t, Read);
  }

  lemma BodyIsWhole(s: State)
    requires Inv(s) && s.cons.Body? && AtEvent(s) && |s.cons.got| == |s.recs[0].payload|
    ensures s.cons.got == s.recs[0].payload
  {
    hide Layout, HeadsOk, Payloads, ProdOk, Shows, AllFramed;
  }

  /** A call of the backend that is not disturbed skips the padding in front, and then
      writes out the first event, or finds none. This is what `ProcessOneEvent` promises
      of the ring class. */
  lemma {:induction false} CallAlone(s0: State, s: State) returns (t: State)
    requires Inv(s0) && Leads(s0, s) && s.cons == Loop
    ensures Leads(s0, t) && t.prod == s.prod && t.head == s.head && t.sent == s.sent && t.buf == s.buf
    ensures if Payloads(s.recs) == [] then
              t.cons == Returned(Empty) && t.recs == [] && t.out == s.out && t.tail == t.head
            else
              && t.cons == Returned(Written) && t.out == s.out + [Payloads(s.recs)[0]]
              && Payloads(s.recs) == [Payloads(s.recs)[0]] + Payloads(t.recs)
    ensures t.recs == AfterFront(s.recs)
    decreases |s.recs|
  {
    hide Leads, Inv, Payloads, AfterFront;
    PayloadsOfFront(s.recs);
    t := LookAt(s0, s);
    if s.recs == [] {
      t := LookAt(s0, t);
    } else {
      t := ReadTag(s0, t);
      if s.recs[0] == Skip {
        t := SkipOne(s0, t);
        t := CallAlone(s0, t);
      } else {
        t := LookAt(s0, t);
        t := ReadTag(s0, t);
        t := ReadHeader(s0, t);
        t := ReadBody(s0, t);
      }
    }
  }

  lemma PayloadsOfFront(recs: seq<Record>)
    ensures AfterFront(recs) == if recs == [] then [] else if recs[0] == Skip then AfterFront(recs[1..]) else recs[1..]
    ensures recs == [] ==> Payloads(recs) == []
    ensures recs != [] && recs[0] == Skip ==> Payloads(recs) == Payloads(recs[1..])
    ensures recs != [] && recs[0].Ev? ==> Payloads(recs) == [recs[0].payload] + Payloads(recs[1..])
  {
  }

  lemma SkipOne(s0: State, s: State) returns (t: State)
    requires Inv(s0) && Leads(s0, s) && s.cons == SkipsOne && s.recs != []
    ensures Leads(s0, t)
    ensures t == s.(tail := s.tail + 1, tails := t.tails, cons := Loop, recs := s.recs[1..])
  {
    hide Leads, Inv;
    LeadsStep(s0, s, Read);
    t := Step(s, Read);
  }

  // ----------------------------------------------------------- against the ring class

  /** The object and the state hold the same records at the same positions. */
  ghost predicate Same(r: Ring, s: State)
    reads r
  {
    r.capacity == |s.buf| && r.written == s.head && r.consumed == s.tail && r.recs == s.recs
  }

  lemma TailIs(s: State)
    requires Inv(s)
    ensures s.tail == s.head - |Encode(s.recs)|
  {
  }

  lemma ConsumedIs(r: Ring)
    requires r.Valid()
    ensures r.consumed == r.written - |Encode(r.recs)|
  {
  }

  /** What `TryLog` does to a ring, the producer's steps do to a state that agrees with it. */
  method LogOnBoth(r: Ring, p: seq<byte>, ghost s: State) returns (ok: bool, ghost t: State)
    requires r.Valid() && Inv(s) && Same(r, s) && s.prod == Idle && WellFramed(p)
    modifies r, r.buf
    ensures r.Valid() && Leads(s, t) && Same(r, t)
    ensures ok <==> t.prod == Idle && t.sent == s.sent + [p]
  {
    hide Leads, Inv, Ring.Valid, WellFramed, RoomFor, PadFor, Skips, Encode;
    LeadsNowhere(s);
    t := LogAlone(s, s, p);
    BufferKept(s, t);
    ok := r.TryLog(p);
  }

  lemma BufferKept(s: State, t: State)
    requires Inv(s) && Leads(s, t)
    ensures |t.buf| == |s.buf| && Inv(t)
  {
    hide Inv;
    LeadsStep(s, t, Again);
  }

  /** What `ProcessOneEvent` does to a ring and the file, the backend's steps do to a
      state that agrees with it. */
  method CallOnBoth(d: Drainer, r: Ring, ghost s: State) returns (more: bool, ghost t: State)
    requires r.Valid() && AllFramedIn(r.Queue()) && Inv(s) && Same(r, s) && s.cons == Loop
    modifies d`file, r`tail, r`consumed, r`recs
    ensures r.Valid() && Leads(s, t) && Same(r, t)
    ensures if more then
              t.cons == Returned(Written) && |t.out| == |s.out| + 1 && d.file == old(d.file) + OutputOf(t.out[|s.out|])
            else t.cons == Returned(Empty) && t.out == s.out && d.file == old(d.file)
  {
    hide Leads, Inv, Ring.Valid, Payloads, Encode, Output, Framed;
    LeadsNowhere(s);
    t := CallAlone(s, s);
    BufferKept(s, t);
    FramedFront(r.Queue());
    more := d.ProcessOneEvent(r);
    TailIs(t);
    ConsumedIs(r);
  }

  /** The backend's output for a payload, empty if it is not framed. */
  function OutputOf(p: seq<byte>): string {
    if Framed(p) then Output(p) else ""
  }

  lemma FramedFront(q: seq<seq<byte>>)
    requires AllFramedIn(q)
    ensures q != [] ==> Framed(q[0])
  {
  }

  // ------------------------------------------------- a call that stops at padding

  /** The payload of an event with this many frames, all other fields zero. */
  function Blank(frames: nat): (p: seq<byte>)
    requires frames <= MAX_FRAMES
    ensures |p| == HEADER + 8 * frames && p[34] == frames && p[35] == 0
  {
    seq(HEADER + 8 * frames, i => if i == 34 then frames else 0)
  }

  lemma BlankIsFramed(frames: nat)
    requires frames <= MAX_FRAMES
    ensures WellFramed(Blank(frames))
  {
  }

  /** Both sides are at rest and nothing is unread. */
  ghost predicate Quiet(s: State) {
    s.prod == Idle && s.cons == Loop && s.head == s.tail && s.recs == []
  }

  const SMALL := 1 + HEADER

  /** An event without frames is logged before the end of the buffer and taken. */
  lemma OneSmall(s0: State, s: State) returns (t: State)
    requires Inv(s0) && Leads(s0, s) && Quiet(s) && s.head + SMALL <= |s.buf|
    ensures Leads(s0, t) && Quiet(t) && t.head == s.head + SMALL
  {
    hide Leads, Inv, Skips, Payloads, WellFramed;
    BlankIsFramed(0);
    IndexIsBelow(s.head, |s.buf|);
    t := LogAlone(s0, s, Blank(0));
    NoPadding(s.recs);
    assert t.recs == [Ev(Blank(0))];
    PayloadsOfFront(t.recs);
    PayloadsOfFront(t.recs[1..]);
    t := TakeLast(s0, t);
  }

  lemma TakeLast(s0: State, s: State) returns (t: State)
    requires Inv(s0) && Leads(s0, s) && s.prod == Idle && s.cons == Loop && |s.recs| == 1 && s.recs[0].Ev?
    ensures Leads(s0, t) && Quiet(t) && t.head == s.head
  {
    hide Leads, Inv;
    t := LookAt(s0, s);
    t := ReadTag(s0, t);
    t := LookAt(s0, t);
    t := ReadTag(s0, t);
    t := ReadHeader(s0, t);
    t := ReadBody(s0, t);
    LeadsStep(s0, t, Again);
    Current(t);
    t := Step(t, Again);
  }

  /** After `n` small events, logged and taken one after the other. */
  lemma {:induction false} AfterSmall(s0: State, n: nat) returns (s: State)
    requires Inv(s0) && |s0.buf| > 0 && Quiet(s0) && s0.head == 0 && SMALL * n <= |s0.buf|
    ensures Leads(s0, s) && Quiet(s) && s.head == SMALL * n && |s.buf| == |s0.buf|
  {
    hide Quiet, Inv, Leads;
    if n == 0 {
      s := s0;
      LeadsNowhere(s0);
    } else {
      s := AfterSmall(s0, n - 1);
      s := OneSmall(s0, s);
      LeadsStep(s0, s, Again);
    }
  }

  /** The backend finds the ring empty, and the producer begins an event that does not
      fit before the end of the buffer. */
  lemma PadAfterLook(s0: State, s: State) returns (t: State)
    requires Inv(s0) && Leads(s0, s) && Quiet(s) && s.head < |s.buf|
    requires var need := 1 + HEADER + 8 * MAX_FRAMES; |s.buf| - s.head < need && |s.buf| - s.head + need <= |s.buf|
    ensures Leads(s0, t) && t.cons == Second && t.seenHead == t.tail < t.head && t.recs != [] && t.recs[0] == Skip
  {
    hide Leads, Inv, WellFramed, Skips, Decide;
    var p := Blank(MAX_FRAMES);
    BlankIsFramed(MAX_FRAMES);
    IndexIsBelow(s.head, |s.buf|);
    t := LookAt(s0, s);
    t := Begin(s0, t, p);
    DecideCases(|s.buf|, s.head, s.tail, p);
    t := Publish(s0, t);
    SkipsAre(|s.buf| - s.head);
  }

  lemma {:induction false} SkipsAre(n: nat)
    ensures forall i | 0 <= i < n :: Skips(n)[i] == Skip
  {
    if n > 0 { SkipsAre(n - 1); }
  }

  /** Whatever the configured size of the ring, a call of the backend that finds it empty
      and then meets the padding of the next event ends at its tag, with unread bytes in
      the ring: after small events up to near the end, one with 64 frames. */
  lemma StopsAtPadding(buf: seq<byte>) returns (s: State)
    requires |buf| >= 4096
    ensures exists moves :: Run(buf, moves) == s
    ensures s.cons == Returned(OtherTag(TAG_SKIP, true)) && s.tail < s.head
  {
    hide Inv;
    var s0 := Init(buf);
    InitOk(buf);
    var n := (|buf| - (1 + HEADER + 8 * MAX_FRAMES)) / SMALL + 1;
    s := AfterSmall(s0, n);
    s := PadAfterLook(s0, s);
    s := LookAt(s0, s);
    s := ReadTag(s0, s);
    var moves :| RunFrom(s0, moves) == s;
    assert Run(buf, moves) == s;
  }
}
