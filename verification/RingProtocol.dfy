/** One ring shared by its producer and the backend, step by step. A step is one
    load or store of a counter or of a buffer byte, and a run is any interleaving
    of the two threads' steps. A load of the other side's counter returns any value
    that counter has had, but never an older one than this side has already seen. */
module RingProtocol {
  import opened BitMask
  import opened Locks
  import opened RingLayout
  import opened ThreadRing

  const HEADER := 40
  const MAX_FRAMES := 64
  const FRAME_LIMIT := 256

  /** The 16-bit frame count in an event header. */
  function FrameCount(hdr: seq<byte>): nat {
    if |hdr| < HEADER then 0 else hdr[34] as int + 256 * (hdr[35] as int)
  }

  /** The payload size the backend works out from a header. */
  function SizeOf(hdr: seq<byte>): nat {
    HEADER + 8 * FrameCount(hdr)
  }

  /** What the runtime logs: the size follows from the header, and at most 64 frames. */
  predicate WellFramed(p: seq<byte>) {
    |p| >= HEADER && |p| == SizeOf(p) && FrameCount(p) <= MAX_FRAMES
  }

  // ----------------------------------------------------------------------- state

  datatype Producer =
    | Idle
    | Wants(payload: seq<byte>)                        // about to load the tail
    | PadsUp(payload: seq<byte>, total: nat, done: nat) // writes padding, then publishes it
    | Rechecks(payload: seq<byte>)                     // about to load the tail again
    | Tags(payload: seq<byte>, off: nat)               // about to write the tag
    | Fills(payload: seq<byte>, off: nat, done: nat)   // copies the payload, then publishes it

  /** How one call of the backend ends. `wasEmpty` tells whether its skip loop had
      found the ring empty. */
  datatype Outcome = Empty | OtherTag(tag: byte, wasEmpty: bool) | ShortHeader | ShortFrame | Oversized | Written

  datatype Consumer =
    | Loop                                             // the skip loop loads the head
    | LoopTag                                          // and reads the tag
    | SkipsOne                                         // and stores the tail
    | Second                                           // after the loop, loads the head
    | SecondTag(wasEmpty: bool)                        // and reads the tag
    | NeedsHeader                                      // loads the head for the header
    | Header(hdr: seq<byte>)                           // copies the header
    | NeedsAll(hdr: seq<byte>)                         // loads the head for the payload
    | Body(hdr: seq<byte>, got: seq<byte>)             // copies the payload, then retires it
    | Returned(outcome: Outcome)

  datatype State = State(
    buf: seq<byte>, head: nat, tail: nat,
    heads: set<nat>, tails: set<nat>,   // the values the counters have had
    prod: Producer, seenTail: nat,
    cons: Consumer, seenHead: nat,
    sent: seq<seq<byte>>,               // payloads published so far
    out: seq<seq<byte>>,                // payloads the backend has taken
    recs: seq<Record>)                  // what the unread bytes stand for; no step looks at it

  datatype Move = Start(payload: seq<byte>) | LoadTail(v: nat) | Store | LoadHead(v: nat) | Read | Again

  function Init(buf: seq<byte>): State {
    State(buf, 0, 0, {0}, {0}, Idle, 0, Loop, 0, [], [], [])
  }

  /** A byte of the buffer by index; only ever asked for inside it. */
  function ByteAt(buf: seq<byte>, i: nat): byte {
    if i < |buf| then buf[i] else 0
  }

  function Put(buf: seq<byte>, i: nat, b: byte): seq<byte> {
    if i < |buf| then buf[i := b] else buf
  }

  // ----------------------------------------------------------------------- steps

  /** The first half of `reserve`, with the tail value it has loaded. */
  function Decide(cap: nat, head: nat, tail: nat, p: seq<byte>): Producer
    requires cap > 0
  {
    var need := 1 + |p|;
    var toEnd := cap - head % cap;
    var free := cap - (head - tail);
    if toEnd < need then
      if free < toEnd + need then Wants(p) else PadsUp(p, toEnd, 0)
    else if free < need then Wants(p) else Tags(p, head % cap)
  }

  /** The second half of `reserve`, after the padding. */
  function DecideAgain(cap: nat, head: nat, tail: nat, p: seq<byte>): Producer {
    if cap - (head - tail) < 1 + |p| then Wants(p) else Tags(p, 0)
  }

  function OnLoadTail(s: State, v: nat): State
    requires |s.buf| > 0
  {
    if v !in s.tails || v < s.seenTail then s
    else
      match s.prod
      case Wants(p) => s.(seenTail := v, prod := Decide(|s.buf|, s.head, v, p))
      case Rechecks(p) => s.(seenTail := v, prod := DecideAgain(|s.buf|, s.head, v, p))
      case _ => s
  }

  function OnStore(s: State): State
    requires |s.buf| > 0
  {
    match s.prod
    case PadsUp(p, n, i) =>
      if i < n then s.(buf := Put(s.buf, s.head % |s.buf| + i, TAG_SKIP), prod := PadsUp(p, n, i + 1))
      else s.(head := s.head + n, heads := s.heads + {s.head + n}, prod := Rechecks(p), recs := s.recs + Skips(n))
    case Tags(p, off) => s.(buf := Put(s.buf, off, TAG_EVENT), prod := Fills(p, off, 0))
    case Fills(p, off, i) =>
      if i < |p| then s.(buf := Put(s.buf, off + 1 + i, p[i]), prod := Fills(p, off, i + 1))
      else
        s.(head := s.head + 1 + |p|, heads := s.heads + {s.head + 1 + |p|}, prod := Idle,
          sent := s.sent + [p], recs := s.recs + [Ev(p)])
    case _ => s
  }

  function OnLoadHead(s: State, v: nat): State {
    if v !in s.heads || v < s.seenHead then s
    else
      var readable := v - s.tail;
      match s.cons
      case Loop => s.(seenHead := v, cons := if readable == 0 then Second else LoopTag)
      case Second =>
        s.(seenHead := v, cons := if readable == 0 then Returned(Empty) else SecondTag(s.seenHead == s.tail))
      case NeedsHeader => s.(seenHead := v, cons := if readable < 1 + HEADER then Returned(ShortHeader) else Header([]))
      case NeedsAll(hdr) =>
        s.(seenHead := v, cons := if readable < 1 + SizeOf(hdr) then Returned(ShortFrame) else Body(hdr, []))
      case _ => s
  }

  /** Taking `n` bytes out of the buffer. */
  function Advance(s: State, n: nat): State {
    s.(tail := s.tail + n, tails := s.tails + {s.tail + n}, recs := if s.recs == [] then [] else s.recs[1..])
  }

  function OnRead(s: State): State
    requires |s.buf| > 0
  {
    var cap := |s.buf|;
    var tag := s.buf[s.tail % cap];
    var off := (s.tail + 1) % cap;
    match s.cons
    case LoopTag => s.(cons := if tag == TAG_SKIP then SkipsOne else Second)
    case SkipsOne => Advance(s, 1).(cons := Loop)
    case SecondTag(e) => s.(cons := if tag != TAG_EVENT then Returned(OtherTag(tag, e)) else NeedsHeader)
    case Header(hdr) =>
      s.(cons := if |hdr| < HEADER then Header(hdr + [ByteAt(s.buf, off + |hdr|)]) else NeedsAll(hdr))
    case Body(hdr, got) =>
      if FrameCount(hdr) > FRAME_LIMIT then Advance(s, 1 + SizeOf(hdr)).(cons := Returned(Oversized))
      else if |got| < SizeOf(hdr) then s.(cons := Body(hdr, got + [ByteAt(s.buf, off + |got|)]))
      else Advance(s, 1 + SizeOf(hdr)).(cons := Returned(Written), out := s.out + [got])
    case _ => s
  }

  function Step(s: State, m: Move): State
    requires |s.buf| > 0
  {
    match m
    case Start(p) => if s.prod == Idle && WellFramed(p) then s.(prod := Wants(p)) else s
    case LoadTail(v) => OnLoadTail(s, v)
    case Store => OnStore(s)
    case LoadHead(v) => OnLoadHead(s, v)
    case Read => OnRead(s)
    case Again => if s.cons.Returned? then s.(cons := Loop) else s
  }

  function RunFrom(s: State, moves: seq<Move>): (t: State)
    requires |s.buf| > 0
    ensures |t.buf| == |s.buf|
    decreases |moves|
  {
    if moves == [] then s else Step(RunFrom(s, moves[..|moves| - 1]), moves[|moves| - 1])
  }

  function Run(buf: seq<byte>, moves: seq<Move>): (s: State)
    requires |buf| > 0
    ensures |s.buf| == |buf|
  {
    RunFrom(Init(buf), moves)
  }

  // ------------------------------------------------------------------- invariant

  /** `v` is where a record begins, or where the last one ends. */
  ghost predicate Boundary(tail: nat, recs: seq<Record>, v: nat)
    decreases |recs|
  {
    v == tail || (recs != [] && Boundary(tail + |BytesOf(recs[0])|, recs[1..], v))
  }

  ghost predicate AllFramed(recs: seq<Record>) {
    forall i | 0 <= i < |recs| :: recs[i].Ev? ==> WellFramed(recs[i].payload)
  }

  /** Every value the head has had is behind the tail or a record boundary. */
  ghost predicate HeadsOk(tail: nat, recs: seq<Record>, heads: set<nat>) {
    forall v | v in heads :: v >= tail ==> Boundary(tail, recs, v)
  }

  ghost predicate TailsOk(s: State) {
    && (forall v | v in s.tails :: v <= s.tail)
    && s.seenTail <= s.tail && s.head <= s.seenTail + |s.buf|
    && s.tail in s.tails
  }

  ghost predicate Seen(s: State) {
    s.seenHead >= s.tail && s.seenHead in s.heads && s.head in s.heads
  }

  ghost function Padding(n: nat): (b: seq<byte>)
    ensures |b| == n
  {
    if n == 0 then [] else Padding(n - 1) + [TAG_SKIP]
  }

  /** There is room for `n` more bytes behind the head. */
  ghost predicate Room(s: State, n: nat) {
    s.head + n <= s.seenTail + |s.buf|
  }

  ghost predicate Placed(s: State, p: seq<byte>, off: nat) {
    |s.buf| > 0 && off == s.head % |s.buf| && off + 1 + |p| <= |s.buf| && Room(s, 1 + |p|)
  }

  ghost predicate ProdOk(s: State) {
    && |s.buf| > 0
    && (!s.prod.Idle? ==> WellFramed(s.prod.payload))
    && match s.prod
       case PadsUp(p, n, i) =>
         && i <= n == |s.buf| - s.head % |s.buf| && Room(s, n + 1 + |p|)
         && Shows(s.buf, s.head, Padding(i))
       case Rechecks(p) => s.head % |s.buf| == 0 && Room(s, 1 + |p|)
       case Tags(p, off) => Placed(s, p, off)
       case Fills(p, off, i) => Placed(s, p, off) && i <= |p| && Shows(s.buf, s.head, [TAG_EVENT] + p[..i])
       case _ => true
  }

  /** The front record is an event the consumer has seen published. */
  ghost predicate AtEvent(s: State) {
    s.recs != [] && s.recs[0].Ev? && s.seenHead > s.tail
  }

  ghost predicate ConsOk(s: State) {
    match s.cons
    case LoopTag => s.seenHead > s.tail
    case SkipsOne => s.recs != [] && s.recs[0] == Skip && s.seenHead > s.tail
    case Second => s.seenHead == s.tail || AtEvent(s)
    case SecondTag(e) => s.seenHead > s.tail && s.recs != [] && (e || s.recs[0].Ev?)
    case NeedsHeader => AtEvent(s)
    case Header(hdr) => AtEvent(s) && |hdr| <= HEADER && hdr <= s.recs[0].payload
    case NeedsAll(hdr) => AtEvent(s) && |hdr| == HEADER && hdr <= s.recs[0].payload
    case Body(hdr, got) => AtEvent(s) && |hdr| == HEADER && hdr <= s.recs[0].payload && got <= s.recs[0].payload
    case Returned(o) => o == Empty || o == Written || o == OtherTag(TAG_SKIP, true)
    case _ => true
  }

  ghost predicate Fifo(s: State) {
    s.out + Payloads(s.recs) == s.sent
  }

  ghost predicate Inv(s: State) {
    && Layout(s.buf, s.tail, s.head, s.recs)
    && AllFramed(s.recs) && HeadsOk(s.tail, s.recs, s.heads) && Seen(s)
    && TailsOk(s) && ProdOk(s) && ConsOk(s) && Fifo(s)
  }

  // ------------------------------------------------------------------ boundaries

  lemma {:induction false} BoundaryBounds(tail: nat, recs: seq<Record>, v: nat)
    requires Boundary(tail, recs, v)
    ensures tail <= v <= tail + |Encode(recs)|
    ensures v > tail ==> recs != [] && v >= tail + |BytesOf(recs[0])|
    ensures v > tail ==> Boundary(tail + |BytesOf(recs[0])|, recs[1..], v)
    decreases |recs|
  {
    if v != tail { BoundaryBounds(tail + |BytesOf(recs[0])|, recs[1..], v); }
  }

  lemma {:induction false} BoundaryAppend(tail: nat, recs: seq<Record>, more: seq<Record>, v: nat)
    requires Boundary(tail, recs, v)
    ensures Boundary(tail, recs + more, v)
    decreases |recs|
  {
    if v != tail {
      assert (recs + more)[1..] == recs[1..] + more;
      BoundaryAppend(tail + |BytesOf(recs[0])|, recs[1..], more, v);
    }
  }

  lemma {:induction false} EndIsBoundary(tail: nat, recs: seq<Record>)
    ensures Boundary(tail, recs, tail + |Encode(recs)|)
    decreases |recs|
  {
    if recs != [] { EndIsBoundary(tail + |BytesOf(recs[0])|, recs[1..]); }
  }

  lemma HeadsAppend(tail: nat, recs: seq<Record>, more: seq<Record>, heads: set<nat>)
    requires HeadsOk(tail, recs, heads)
    ensures HeadsOk(tail, recs + more, heads + {tail + |Encode(recs + more)|})
  {
    hide Boundary, Encode;
    EndIsBoundary(tail, recs + more);
    forall v | v in heads && v >= tail ensures Boundary(tail, recs + more, v) { BoundaryAppend(tail, recs, more, v); }
  }

  lemma HeadsRetire(tail: nat, recs: seq<Record>, heads: set<nat>)
    requires HeadsOk(tail, recs, heads) && recs != []
    ensures HeadsOk(tail + |BytesOf(recs[0])|, recs[1..], heads)
  {
    hide Boundary, BytesOf;
    var t := tail + |BytesOf(recs[0])|;
    forall v | v in heads && v >= t ensures Boundary(t, recs[1..], v) { BoundaryBounds(tail, recs, v); }
  }

  /** A published head beyond the tail covers the whole front record. */
  lemma CoversFront(s: State, v: nat)
    requires Layout(s.buf, s.tail, s.head, s.recs) && HeadsOk(s.tail, s.recs, s.heads) && v in s.heads && v >= s.tail
    ensures v <= s.head
    ensures v > s.tail ==> s.recs != [] && v >= s.tail + |BytesOf(s.recs[0])|
  {
    hide Boundary, BytesOf, Shows, Fits, Encode;
    BoundaryBounds(s.tail, s.recs, v);
  }

  // -------------------------------------------------------------- the producer's steps

  lemma StartKeeps(s: State, p: seq<byte>)
    requires Inv(s)
    ensures Inv(Step(s, Start(p)))
  {
    hide Layout, AllFramed, HeadsOk, WellFramed, Payloads;
  }

  lemma TailLoaded(s: State, v: nat)
    requires Inv(s) && v in s.tails && v >= s.seenTail
    ensures TailsOk(s.(seenTail := v)) && v <= s.head <= v + |s.buf|
  {
    hide Shows, Encode, Fits, Payloads, AllFramed, HeadsOk, ConsOk, ProdOk;
  }

  lemma DecideOk(s: State, v: nat, p: seq<byte>)
    requires |s.buf| > 0 && v <= s.head <= v + |s.buf| && WellFramed(p)
    ensures ProdOk(s.(seenTail := v, prod := Decide(|s.buf|, s.head, v, p)))
    ensures s.head % |s.buf| == 0 && s.head + 1 + |p| <= v + |s.buf| ==>
              ProdOk(s.(seenTail := v, prod := DecideAgain(|s.buf|, s.head, v, p)))
  {
    hide WellFramed;
    ShowsNothing(s.buf, s.head);
  }

  lemma LoadTailKeeps(s: State, v: nat)
    requires Inv(s)
    ensures Inv(OnLoadTail(s, v))
  {
    hide Layout, AllFramed, HeadsOk, Payloads, WellFramed, Decide, DecideAgain;
    if v in s.tails && v >= s.seenTail && (s.prod.Wants? || s.prod.Rechecks?) {
      TailLoaded(s, v);
      DecideOk(s, v, s.prod.payload);
    }
  }

  /** The tail can only have moved on since the padding was found to fit, so the
      second look at it never sends the producer back. */
  lemma RecheckSucceeds(s: State, v: nat)
    requires Inv(s) && s.prod.Rechecks? && v in s.tails && v >= s.seenTail
    ensures OnLoadTail(s, v).prod == Tags(s.prod.payload, 0)
  {
    hide Layout, AllFramed, HeadsOk, Payloads, WellFramed, Shows, Fits;
  }

  /** The index the producer is about to write, with the byte. */
  function Writes(s: State): Option<(nat, byte)>
    requires |s.buf| > 0
  {
    match s.prod
    case PadsUp(p, n, i) => if i < n then Some((s.head % |s.buf| + i, TAG_SKIP)) else None
    case Tags(p, off) => Some((off, TAG_EVENT))
    case Fills(p, off, i) => if i < |p| then Some((off + 1 + i, p[i])) else None
    case _ => None
  }

  /** What lies written but unpublished behind the head. */
  ghost function Partial(s: State): seq<byte> {
    match s.prod
    case PadsUp(p, n, i) => Padding(i)
    case Fills(p, off, i) => if i <= |p| then [TAG_EVENT] + p[..i] else []
    case _ => []
  }

  /** A write goes inside the buffer, to the next byte behind what is written, and
      there is free room for it. */
  lemma WritePlace(s: State)
    requires Inv(s) && Writes(s).Some?
    ensures var w, n := Writes(s).value, |Partial(s)|;
            && w.0 < |s.buf| && w.0 == s.head % |s.buf| + n == (s.head + n) % |s.buf|
            && s.head + n < s.tail + |s.buf|
            && Shows(s.buf, s.head, Partial(s))
            && OnStore(s).buf == s.buf[w.0 := w.1]
            && (OnStore(s).prod.PadsUp? || OnStore(s).prod.Fills?) && Partial(OnStore(s)) == Partial(s) + [w.1]
  {
    hide Layout, AllFramed, HeadsOk, Payloads, WellFramed, Shows, ConsOk, Seen, Fifo;
    var n := |Partial(s)|;
    ShowsNothing(s.buf, s.head);
    IndexGrows(s.head, n, |s.buf|);
  }

  lemma BufferWritten(s: State, s': State)
    requires Inv(s) && s' == s.(buf := s'.buf, prod := s'.prod) && |s'.buf| == |s.buf|
    requires Layout(s'.buf, s.tail, s.head, s.recs) && ProdOk(s')
    ensures Inv(s')
  {
    hide Layout, AllFramed, HeadsOk, Payloads, WellFramed, Shows, ProdOk;
  }

  lemma WriteKeeps(s: State)
    requires Inv(s) && Writes(s).Some?
    ensures Inv(OnStore(s))
  {
    hide Layout, AllFramed, HeadsOk, WellFramed, Shows, ConsOk, Seen, TailsOk, Fifo;
    WritePlace(s);
    WriteBehind(s.buf, s.tail, s.head, s.recs, Partial(s), Writes(s).value.1);
    BufferWritten(s, OnStore(s));
  }

  /** No write goes to a byte the backend has not taken yet. */
  lemma WriteMissesUnread(s: State, pos: nat)
    requires Inv(s) && Writes(s).Some? && s.tail <= pos < s.head
    ensures Writes(s).value.0 != pos % |s.buf|
  {
    hide Layout, AllFramed, HeadsOk, Payloads, WellFramed, Shows, ConsOk, Seen, Fifo, ProdOk, Writes, Partial;
    WritePlace(s);
    IndexDiffers(pos, s.head + |Partial(s)|, |s.buf|);
  }

  /** Publishing `n` padding bytes at once. */
  lemma {:induction false} PublishSkips(buf: seq<byte>, tail: nat, head: nat, recs: seq<Record>, n: nat)
    requires Layout(buf, tail, head, recs) && Shows(buf, head, Padding(n)) && head + n <= tail + |buf|
    ensures Layout(buf, tail, head + n, recs + Skips(n)) && Payloads(recs + Skips(n)) == Payloads(recs)
  {
    hide Layout, Shows, Payloads, Encode, Fits;
    NoSkips(recs);
    if n > 0 {
      LayoutSize(buf, tail, head, recs);
      ShowsConcat(buf, head, Padding(n - 1), [TAG_SKIP]);
      PublishSkips(buf, tail, head, recs, n - 1);
      OneMoreSkip(recs, n - 1);
      Publish(buf, tail, head + (n - 1), recs + Skips(n - 1), Skip);
      EncodeAppend(recs + Skips(n - 1), Skip);
    }
  }

  lemma {:induction false} SkipsFramed(recs: seq<Record>, n: nat)
    requires AllFramed(recs)
    ensures AllFramed(recs + Skips(n))
  {
    hide WellFramed;
    NoSkips(recs);
    if n > 0 {
      SkipsFramed(recs, n - 1);
      OneMoreSkip(recs, n - 1);
    }
  }

  lemma EncodeSize(buf: seq<byte>, tail: nat, head: nat, recs: seq<Record>)
    requires Layout(buf, tail, head, recs)
    ensures tail + |Encode(recs)| == head
  {
  }

  /** The producer moves its head over `more` and goes on to `prod`. */
  lemma PublishKeeps(s: State, more: seq<Record>, n: nat, prod: Producer, sent: seq<seq<byte>>)
    requires Inv(s) && Room(s, n) && Layout(s.buf, s.tail, s.head + n, s.recs + more) && AllFramed(s.recs + more)
    requires s.out + Payloads(s.recs + more) == sent
    requires ProdOk(s.(head := s.head + n, prod := prod))
    ensures Inv(s.(head := s.head + n, heads := s.heads + {s.head + n},
                   prod := prod, sent := sent, recs := s.recs + more))
  {
    hide Layout, AllFramed, HeadsOk, Payloads, WellFramed, Shows;
    var s' := s.(head := s.head + n, heads := s.heads + {s.head + n},
                 prod := prod, sent := sent, recs := s.recs + more);
    HeadsAppend(s.tail, s.recs, more, s.heads);
    EncodeSize(s.buf, s.tail, s.head + n, s.recs + more);
  }

  lemma PadPublishKeeps(s: State)
    requires Inv(s) && s.prod.PadsUp? && s.prod.done == s.prod.total
    ensures Inv(OnStore(s))
  {
    hide Layout, AllFramed, HeadsOk, Payloads, WellFramed, Shows, ConsOk, Seen;
    var n := s.prod.total;
    PublishSkips(s.buf, s.tail, s.head, s.recs, n);
    SkipsFramed(s.recs, n);
    IndexWraps(s.head, |s.buf|);
    PublishKeeps(s, Skips(n), n, Rechecks(s.prod.payload), s.sent);
  }

  lemma CommitKeeps(s: State)
    requires Inv(s) && s.prod.Fills? && s.prod.done == |s.prod.payload|
    ensures Inv(OnStore(s))
  {
    hide Layout, HeadsOk, Payloads, WellFramed, Shows, ConsOk, Seen;
    var p := s.prod.payload;
    assert p[..|p|] == p;
    PublishEvent(s.buf, s.tail, s.head, s.recs, p);
    assert s.out + Payloads(s.recs + [Ev(p)]) == s.sent + [p];
    PublishKeeps(s, [Ev(p)], 1 + |p|, Idle, s.sent + [p]);
  }

  lemma StoreKeeps(s: State)
    requires Inv(s)
    ensures Inv(OnStore(s))
  {
    hide Layout, AllFramed, HeadsOk, Payloads, WellFramed, Shows, ConsOk, Seen, Fifo, TailsOk;
    if Writes(s).Some? {
      WriteKeeps(s);
    } else if s.prod.PadsUp? {
      PadPublishKeeps(s);
    } else if s.prod.Fills? {
      CommitKeeps(s);
    }
  }

  // -------------------------------------------------------------- the consumer's steps

  lemma LoadHeadKeeps(s: State, v: nat)
    requires Inv(s)
    ensures Inv(OnLoadHead(s, v))
  {
    hide Layout, AllFramed, HeadsOk, Payloads, Shows, ProdOk, WellFramed;
    if v in s.heads && v >= s.seenHead {
      CoversFront(s, v);
      if AtEvent(s) { FrontFramed(s); }
      ProdFrame(s, OnLoadHead(s, v));
    }
  }

  lemma ProdFrame(s: State, s': State)
    requires ProdOk(s) && s'.buf == s.buf && s'.head == s.head && s'.seenTail == s.seenTail && s'.prod == s.prod
    ensures ProdOk(s')
  {
  }

  lemma FrontFramed(s: State)
    requires AllFramed(s.recs) && AtEvent(s)
    ensures WellFramed(s.recs[0].payload)
    ensures forall hdr :: |hdr| == HEADER && hdr <= s.recs[0].payload ==> HeaderOk(hdr, s.recs[0].payload)
  {
  }

  /** The header tells the size of its payload, and its frame count is allowed. */
  ghost predicate HeaderOk(hdr: seq<byte>, p: seq<byte>) {
    SizeOf(hdr) == |p| && FrameCount(hdr) <= MAX_FRAMES
  }

  /** The tag the consumer reads is that of the front record. */
  lemma TagIs(s: State)
    requires Inv(s) && s.seenHead > s.tail
    ensures s.recs != []
    ensures s.buf[s.tail % |s.buf|] == (if s.recs[0] == Skip then TAG_SKIP else TAG_EVENT)
  {
    hide Layout, AllFramed, HeadsOk, Payloads, Shows, ProdOk, WellFramed, ConsOk;
    CoversFront(s, s.seenHead);
    FrontTag(s.buf, s.tail, s.head, s.recs);
  }

  lemma AdvanceKeeps(s: State, n: nat, cons: Consumer, out: seq<seq<byte>>)
    requires Inv(s) && s.recs != [] && n == |BytesOf(s.recs[0])| && s.seenHead > s.tail
    requires cons == Loop || cons == Returned(Written)
    requires out == s.out + match s.recs[0] case Skip => [] case Ev(p) => [p]
    ensures Inv(Advance(s, n).(cons := cons, out := out))
  {
    hide Layout, HeadsOk, Shows, ProdOk, WellFramed, BytesOf;
    var s' := Advance(s, n).(cons := cons, out := out);
    CoversFront(s, s.seenHead);
    Retire(s.buf, s.tail, s.head, s.recs);
    HeadsRetire(s.tail, s.recs, s.heads);
    ProdFrame(s, s');
  }

  /** A byte of the payload is read inside the buffer, and is the logged one. */
  lemma PayloadByte(s: State, i: nat)
    requires Inv(s) && AtEvent(s) && i < |s.recs[0].payload|
    ensures (s.tail + 1) % |s.buf| + i < |s.buf| && ByteAt(s.buf, (s.tail + 1) % |s.buf| + i) == s.recs[0].payload[i]
  {
    hide Layout, AllFramed, HeadsOk, Payloads, Shows, WellFramed, ConsOk, Fifo, Seen, TailsOk;
    var p, off := s.recs[0].payload, (s.tail + 1) % |s.buf|;
    FrontPayload(s.buf, s.tail, s.head, s.recs, |p|);
    assert s.buf[off..off + |p|][i] == p[..|p|][i];
  }

  lemma TagKeeps(s: State)
    requires Inv(s) && (s.cons.LoopTag? || s.cons.SecondTag?)
    ensures Inv(OnRead(s))
  {
    hide Layout, AllFramed, HeadsOk, Payloads, Shows, ProdOk, WellFramed;
    LayoutSize(s.buf, s.tail, s.head, s.recs);
    TagIs(s);
    ProdFrame(s, OnRead(s));
  }

  lemma OnlyCons(s: State, c: Consumer)
    requires Inv(s) && ConsOk(s.(cons := c))
    ensures Inv(s.(cons := c))
  {
    hide Layout, AllFramed, HeadsOk, Payloads, WellFramed, ConsOk, Shows;
  }

  lemma HeaderKeeps(s: State)
    requires Inv(s) && s.cons.Header?
    ensures Inv(OnRead(s))
  {
    hide Layout, AllFramed, HeadsOk, Shows, ProdOk, WellFramed, SizeOf, FrameCount, TailsOk, Seen, Fifo;
    LayoutSize(s.buf, s.tail, s.head, s.recs);
    FrontFramed(s);
    LongEnough(s.recs[0].payload);
    if |s.cons.hdr| < HEADER { PayloadByte(s, |s.cons.hdr|); }
    OnlyCons(s, OnRead(s).cons);
  }

  lemma LongEnough(p: seq<byte>)
    requires WellFramed(p)
    ensures |p| >= HEADER
  {
  }

  lemma BodyKeeps(s: State)
    requires Inv(s) && s.cons.Body?
    ensures Inv(OnRead(s))
  {
    hide Layout, AllFramed, HeadsOk, Shows, ProdOk, WellFramed, SizeOf, FrameCount, TailsOk, Seen, Fifo;
    var hdr, got := s.cons.hdr, s.cons.got;
    FrontFramed(s);
    LayoutSize(s.buf, s.tail, s.head, s.recs);
    assert HeaderOk(hdr, s.recs[0].payload);
    if |got| < SizeOf(hdr) {
      PayloadByte(s, |got|);
      OnlyCons(s, OnRead(s).cons);
    } else {
      assert got == s.recs[0].payload;
      AdvanceKeeps(s, 1 + SizeOf(hdr), Returned(Written), s.out + [got]);
    }
  }

  lemma ReadKeeps(s: State)
    requires Inv(s)
    ensures Inv(OnRead(s))
  {
    hide Layout, AllFramed, HeadsOk, Payloads, Shows, ProdOk, WellFramed, SizeOf, FrameCount, Fifo, Seen, TailsOk;
    if s.cons.LoopTag? || s.cons.SecondTag? {
      TagKeeps(s);
    } else if s.cons.SkipsOne? {
      AdvanceKeeps(s, 1, Loop, s.out);
    } else if s.cons.Header? {
      HeaderKeeps(s);
    } else if s.cons.Body? {
      BodyKeeps(s);
    }
  }

  // -------------------------------------------------------------------- every run

  lemma InitOk(buf: seq<byte>)
    requires |buf| > 0
    ensures Inv(Init(buf))
  {
  }

  lemma StepKeeps(s: State, m: Move)
    requires Inv(s)
    ensures Inv(Step(s, m))
  {
    hide Layout, AllFramed, HeadsOk, Payloads, Shows, ProdOk, WellFramed, Fifo, Seen, TailsOk;
    match m
    case Start(p) => StartKeeps(s, p);
    case LoadTail(v) => LoadTailKeeps(s, v);
    case Store => StoreKeeps(s);
    case LoadHead(v) => LoadHeadKeeps(s, v);
    case Read => ReadKeeps(s);
    case Again => AgainKeeps(s);
  }

  lemma AgainKeeps(s: State)
    requires Inv(s)
    ensures Inv(Step(s, Again))
  {
    hide Layout, AllFramed, HeadsOk, Payloads, Shows, WellFramed;
  }

  lemma {:induction false} RunFromOk(s: State, moves: seq<Move>)
    requires Inv(s) && |s.buf| > 0
    ensures Inv(RunFrom(s, moves))
    decreases |moves|
  {
    hide Inv, Step;
    if moves != [] {
      RunFromOk(s, moves[..|moves| - 1]);
      StepKeeps(RunFrom(s, moves[..|moves| - 1]), moves[|moves| - 1]);
    }
  }

  lemma RunOk(buf: seq<byte>, moves: seq<Move>)
    requires |buf| > 0
    ensures Inv(Run(buf, moves))
  {
    hide Inv, RunFrom;
    InitOk(buf);
    RunFromOk(Init(buf), moves);
  }

  /** Under every interleaving the payloads the backend has taken, followed by those
      in the unread bytes, are the committed ones in order, byte for byte. */
  lemma QueueIsFifo(buf: seq<byte>, moves: seq<Move>)
    requires |buf| > 0
    ensures var s := Run(buf, moves);
            && s.out + Payloads(s.recs) == s.sent
            && Shows(s.buf, s.tail, Encode(s.recs)) && s.head - s.tail == |Encode(s.recs)| <= |s.buf|
  {
    hide AllFramed, HeadsOk, Payloads, Shows, ProdOk, ConsOk, WellFramed, Seen, TailsOk, Run, Encode, Fits;
    RunOk(buf, moves);
  }

  /** Under every interleaving a write lands inside the buffer, next to what is
      already written, and never on an unread byte. */
  lemma WritesAreSafe(buf: seq<byte>, moves: seq<Move>, pos: nat)
    requires |buf| > 0
    ensures var s := Run(buf, moves);
            Writes(s).Some? ==>
              Writes(s).value.0 < |s.buf| && (s.tail <= pos < s.head ==> Writes(s).value.0 != pos % |s.buf|)
  {
    hide Inv, Run, Writes;
    RunOk(buf, moves);
    var s := Run(buf, moves);
    if Writes(s).Some? {
      WritePlace(s);
      if s.tail <= pos < s.head { WriteMissesUnread(s, pos); }
    }
  }

  /** One call of the backend ends by finding the ring empty or by writing an event,
      or it meets padding published after it had found the ring empty. The branches for
      a short header, a short frame and an oversized frame are never taken. */
  lemma OutcomesAre(buf: seq<byte>, moves: seq<Move>)
    requires |buf| > 0
    ensures var s := Run(buf, moves);
            s.cons.Returned? ==>
              s.cons.outcome == Empty || s.cons.outcome == Written || s.cons.outcome == OtherTag(TAG_SKIP, true)
  {
    hide Layout, AllFramed, HeadsOk, Payloads, Shows, ProdOk, WellFramed, Seen, TailsOk, Fifo, Run;
    RunOk(buf, moves);
  }

  /** The second look at the tag: the call goes on exactly if the front record is an
      event. It stops exactly at padding, and only if its skip loop had found the ring
      empty, so that the padding is newer than that. */
  lemma StopsExactlyAtPaddingAfterEmpty(buf: seq<byte>, moves: seq<Move>)
    requires |buf| > 0 && Run(buf, moves).cons.SecondTag?
    ensures var s := Run(buf, moves); var s' := Step(s, Read);
            && s.recs != []
            && (s'.cons == NeedsHeader <==> s.recs[0].Ev?)
            && (s'.cons == Returned(OtherTag(TAG_SKIP, true)) <==> s.recs[0] == Skip)
            && (s.recs[0] == Skip ==> s.cons.wasEmpty)
  {
    hide Layout, AllFramed, HeadsOk, Payloads, Shows, ProdOk, WellFramed, TailsOk, Fifo, Run;
    RunOk(buf, moves);
    TagIs(Run(buf, moves));
  }

  /** One step of either thread is one step of a queue: it leaves the queue alone,
      adds the producer's payload at its end, or moves its front to the backend. */
  lemma StepIsQueueStep(s: State, m: Move)
    requires Inv(s)
    ensures var s' := Step(s, m);
            var q, q' := Payloads(s.recs), Payloads(s'.recs);
            || (q' == q && s'.sent == s.sent && s'.out == s.out)
            || (s.prod.Fills? && q' == q + [s.prod.payload] && s'.sent == s.sent + [s.prod.payload] && s'.out == s.out)
            || (q != [] && q == [q[0]] + q' && s'.sent == s.sent && s'.out == s.out + [q[0]])
  {
    hide Layout, AllFramed, HeadsOk, Payloads, Shows, ProdOk, ConsOk, WellFramed, Seen, TailsOk, Step;
    LayoutSize(s.buf, s.tail, s.head, s.recs);
    StepKeeps(s, m);
    StepMoves(s, m);
    var s' := Step(s, m);
    var q, q' := Payloads(s.recs), Payloads(s'.recs);
    assert s'.out + q' == s'.sent && s.out + q == s.sent;
    if s'.sent != s.sent {
      assert s.out + q' == s.out + (q + [s.prod.payload]);
      SameTail(s.out, q', q + [s.prod.payload]);
    } else if s'.out != s.out {
      var x := s'.out[|s.out|];
      assert s.out + ([x] + q') == s.out + q;
      SameTail(s.out, [x] + q', q);
    } else {
      SameTail(s.out, q', q);
    }
  }

  lemma SameTail(a: seq<seq<byte>>, b: seq<seq<byte>>, c: seq<seq<byte>>)
    requires a + b == a + c
    ensures b == c
  {
    assert (a + b)[|a|..] == b && (a + c)[|a|..] == c;
  }

  lemma StepMoves(s: State, m: Move)
    requires |s.buf| > 0 && ProdOk(s)
    ensures var s' := Step(s, m);
            || (s'.sent == s.sent && s'.out == s.out)
            || (s.prod.Fills? && s'.sent == s.sent + [s.prod.payload] && s'.out == s.out)
            || (s'.sent == s.sent && exists x :: s'.out == s.out + [x])
  {
    hide Shows, WellFramed, Padding, SizeOf, FrameCount, Skips, Decide, DecideAgain;
  }

  /** Once the tail has caught up with the head, everything committed has been taken. */
  lemma DrainedMeansTaken(buf: seq<byte>, moves: seq<Move>)
    requires |buf| > 0
    ensures var s := Run(buf, moves); s.tail == s.head ==> s.out == s.sent
  {
    hide AllFramed, HeadsOk, Shows, ProdOk, ConsOk, WellFramed, Seen, TailsOk, Run;
    RunOk(buf, moves);
  }

  /** A producer that loads the current tail gets room exactly if there is any; after a
      full drain of a ring of at least 4096 bytes there always is. */
  lemma FreshLoadDecides(buf: seq<byte>, moves: seq<Move>)
    requires |buf| > 0
    ensures var s := Run(buf, moves);
            s.prod.Wants? ==>
              var s' := Step(s, LoadTail(s.tail));
              && (s'.prod != s.prod <==> RoomFor(|buf|, s.tail, s.head, 1 + |s.prod.payload|))
              && (s.tail == s.head && |buf| >= 4096 ==> s'.prod != s.prod)
  {
    hide Layout, AllFramed, HeadsOk, Payloads, Shows, Run, ConsOk, Fifo, Seen, RoomFor, Decide;
    RunOk(buf, moves);
    var s := Run(buf, moves);
    if s.prod.Wants? {
      DecideIsRoom(|buf|, s.head, s.tail, s.prod.payload);
      if |buf| >= 4096 { EveryEventFits(|buf|, s.head, FrameCount(s.prod.payload)); }
    }
  }

  lemma DecideIsRoom(cap: nat, head: nat, tail: nat, p: seq<byte>)
    requires cap > 0
    ensures Decide(cap, head, tail, p) != Wants(p) <==> RoomFor(cap, tail, head, 1 + |p|)
  {
  }

  // ------------------------------------------------------------- wrapped counters

  /** The first half of `reserve` on the 64-bit counters themselves. */
  function DecideWrapped(cap: nat, head: nat, tail: nat, p: seq<byte>): Producer
    requires cap > 0
  {
    var need := 1 + |p|;
    var free := cap - Gap(head, tail);
    var off := And(head, cap - 1);
    var toEnd := cap - off;
    if toEnd < need then
      if free < toEnd + need then Wants(p) else PadsUp(p, if toEnd < 0 then 0 else toEnd, 0)
    else if free < need then Wants(p) else Tags(p, off)
  }

  function DecideAgainWrapped(cap: nat, head: nat, tail: nat, p: seq<byte>): Producer {
    if cap - Gap(head, tail) < 1 + |p| then Wants(p) else Tags(p, 0)
  }

  /** With wrapped counters the producer decides as with unbounded ones, for every tail
      it can have loaded, however stale. */
  lemma WrappedDecides(s: State, v: nat, p: seq<byte>)
    requires Inv(s) && SizeOk(|s.buf|) && v in s.tails && v >= s.seenTail
    ensures var cap := |s.buf|;
            && cap > 0
            && DecideWrapped(cap, Wrap(s.head), Wrap(v), p) == Decide(cap, s.head, v, p)
            && DecideAgainWrapped(cap, Wrap(s.head), Wrap(v), p) == DecideAgain(cap, s.head, v, p)
  {
    hide Inv, And, Wrap, Gap, SizeOk;
    TailLoaded(s, v);
    IndexOf(|s.buf|, s.head);
    DistanceIs(|s.buf|, v, s.head);
  }
}
