/** The per-thread ring buffer: a byte array with two 64-bit counters that wrap
    around, written by one thread and drained by the backend. */
module ThreadRing {
  import opened BitMask
  import opened RingLayout

  /** Whether an event of `need` bytes, tag included, fits behind `head`: where it
      would run past the end of the buffer it goes to the start, after padding. */
  predicate RoomFor(cap: nat, tail: nat, head: nat, need: nat)
    requires cap > 0
  {
    var toEnd := cap - head % cap;
    if toEnd < need then head + toEnd + need <= tail + cap else head + need <= tail + cap
  }

  /** The padding bytes written before an event of `need` bytes. */
  function PadFor(cap: nat, head: nat, need: nat): nat
    requires cap > 0
  {
    var toEnd := cap - head % cap;
    if toEnd < need then toEnd else 0
  }

  function Skips(n: nat): (s: seq<Record>)
    ensures |s| == n
  {
    if n == 0 then [] else Skips(n - 1) + [Skip]
  }

  lemma NoSkips(recs: seq<Record>)
    ensures recs + Skips(0) == recs
  {
  }

  lemma OneMoreSkip(recs: seq<Record>, n: nat)
    ensures (recs + Skips(n)) + [Skip] == recs + Skips(n + 1)
  {
  }

  /** The sizes a buffer can have. */
  ghost predicate SizeOk(cap: nat) {
    exists k: nat | k < 64 :: cap == Pow2(k)
  }

  /** The index of a wrapped counter is the index of the position it stands for. */
  lemma IndexOf(cap: nat, pos: nat)
    requires SizeOk(cap)
    ensures cap > 0 && And(Wrap(pos), cap - 1) == pos % cap
  {
    hide And, Wrap;
    var k: nat :| k < 64 && cap == Pow2(k);
    AndMask(Wrap(pos), k);
    WrapKeepsOffset(pos, k);
  }

  lemma DistanceIs(cap: nat, consumed: nat, written: nat)
    requires SizeOk(cap) && consumed <= written <= consumed + cap
    ensures Gap(Wrap(written), Wrap(consumed)) == written - consumed
  {
    hide Gap, Wrap;
    var k: nat :| k < 64 && cap == Pow2(k);
    PowBelow64(k);
    WrapKeepsDistance(written, consumed);
  }

  class Ring {
    const capacity: nat
    const mask: nat
    const buf: array<byte>
    var head: nat
    var tail: nat
    var pendingPayloadSize: nat
    var producerDead: bool

    // the counters without wrap-around, and what is unread between them
    ghost var written: nat
    ghost var consumed: nat
    ghost var recs: seq<Record>

    ghost predicate Valid()
      reads this, buf
    {
      && SizeOk(capacity)
      && capacity == buf.Length && mask == capacity - 1
      && head == Wrap(written) && tail == Wrap(consumed)
      && Layout(buf[..], consumed, written, recs)
    }

    /** The payloads that wait to be drained. */
    ghost function Queue(): seq<seq<byte>>
      reads this
    {
      Payloads(recs)
    }

    constructor (cap: nat)
      requires IsPow2(cap) && cap < TWO_TO_THE_64
      ensures Valid() && fresh(buf) && capacity == cap && recs == [] && !producerDead && written == consumed == 0
    {
      capacity, mask := cap, cap - 1;
      buf := new byte[cap](i => 0);
      head, tail, pendingPayloadSize, producerDead := 0, 0, 0, false;
      written, consumed, recs := 0, 0, [];
      new;
      SmallPow2(cap);
    }

    /** What the counters say about the positions they stand for. */
    lemma Counters()
      requires Valid()
      ensures capacity > 0 && buf.Length == capacity
      ensures Gap(head, tail) == written - consumed <= capacity
      ensures And(head, mask) == written % capacity && And(tail, mask) == consumed % capacity
    {
      hide Shows, Encode, Fits, Wrap, Gap, And;
      DistanceIs(capacity, consumed, written);
      IndexOf(capacity, written);
      IndexOf(capacity, consumed);
    }

    lemma UnreadBytes()
      requires Valid()
      ensures capacity > 0 && |Encode(recs)| == written - consumed
    {
      hide Shows, Encode, Fits;
    }

    method Readable() returns (n: nat)
      requires Valid()
      ensures n == written - consumed && (n == 0 <==> recs == [])
    {
      hide Layout, Shows, Encode, Fits, Payloads, BytesOf, Wrap, Gap, And, SizeOk, Skips, Cell;
      Counters();
      FrontTag(buf[..], consumed, written, recs);
      n := Gap(head, tail);
    }

    /** Between `Reserve` and `Commit`: the tag is in place and the payload has
        room in one piece behind it. */
    ghost predicate Reserved(p: nat, n: nat)
      reads this, buf
    {
      && Valid() && capacity > 0 && pendingPayloadSize == n
      && p == written % capacity + 1 && p + n <= capacity && written + 1 + n <= consumed + capacity
      && buf[p - 1] == TAG_EVENT
    }

    /** Reserves room for a payload; the result is the index of its first byte, or
        -1 if there is no room, in which case nothing changes. */
    method Reserve(payloadSize: nat) returns (p: int)
      requires Valid()
      modifies this`head, this`pendingPayloadSize, this`written, this`recs, buf
      ensures Valid()
      ensures p >= 0 <==> old(RoomFor(capacity, consumed, written, 1 + payloadSize))
      ensures var free, toEnd := capacity - |Encode(old(recs))|, capacity - old(written) % capacity;
              p < 0 <==> free < (if toEnd < 1 + payloadSize then toEnd else 0) + 1 + payloadSize
      ensures p < 0 ==> written == old(written) && recs == old(recs) && buf[..] == old(buf[..])
      ensures p >= 0 ==>
                && Reserved(p, payloadSize)
                && written == old(written) + PadFor(capacity, old(written), 1 + payloadSize)
                && recs == old(recs) + Skips(PadFor(capacity, old(written), 1 + payloadSize))
                && Queue() == old(Queue())
    {
      hide Layout, Shows, Encode, Fits, Payloads, BytesOf, Wrap, Gap, And, SizeOk, Skips, Cell;
      var need := 1 + payloadSize;
      Counters();
      UnreadBytes();
      var used := Gap(head, tail);
      var freeBytes := capacity - used;
      var off := And(head, mask);
      var toEnd := capacity - off;
      NoSkips(recs);
      if toEnd < need {
        if freeBytes < toEnd + need { return -1; }
        Pad(toEnd);
        IndexWraps(old(written), capacity);
        Counters();
        used := Gap(head, tail);
        freeBytes := capacity - used;
        off := 0;
      }
      if freeBytes < need { return -1; }
      PutTag(off);
      pendingPayloadSize := payloadSize;
      p := off + 1;
    }

    /** Writes `n` padding bytes up to the end of the buffer and publishes them. */
    method Pad(n: nat)
      requires Valid() && capacity > 0 && n == capacity - written % capacity && written + n <= consumed + capacity
      modifies this`head, this`written, this`recs, buf
      ensures Valid() && written == old(written) + n && recs == old(recs) + Skips(n) && Queue() == old(Queue())
    {
      hide Layout, Shows, Encode, Fits, Payloads, BytesOf, Wrap, Gap, And, SizeOk, Skips, Cell;
      ghost var w, r0 := written, recs;
      Counters();
      var off := And(head, mask);
      ghost var now, rs := w, r0;
      NoSkips(r0);
      var i: nat := 0;
      while i < n
        invariant i <= n && now == w + i && rs == r0 + Skips(i) && Payloads(rs) == Payloads(r0)
        invariant Layout(buf[..], consumed, now, rs)
        modifies buf
      {
        IndexGrows(w, i, capacity);
        PublishSkip(buf[..], consumed, now, rs);
        OneMoreSkip(r0, i);
        ghost var before := buf[..];
        buf[off + i] := TAG_SKIP;
        assert buf[..] == before[now % capacity := TAG_SKIP];
        now, rs := now + 1, rs + [Skip];
        i := i + 1;
      }
      WrapAdvance(w, n);
      head := Wrap(head + n);
      written, recs := now, rs;
    }

    method PutTag(off: nat)
      requires Valid() && capacity > 0 && off == written % capacity && written < consumed + capacity
      modifies buf
      ensures Valid() && buf[off] == TAG_EVENT
    {
      hide Layout, Shows, Encode, Fits, Payloads, BytesOf, Wrap, Gap, And, SizeOk, Skips, Cell;
      ghost var before := buf[..];
      ShowsNothing(before, written);
      WriteBehind(before, consumed, written, recs, [], TAG_EVENT);
      buf[off] := TAG_EVENT;
      assert buf[..] == before[written % capacity := TAG_EVENT];
    }

    /** Copies the payload into the reserved room. */
    method Fill(p: nat, payload: seq<byte>)
      requires Reserved(p, |payload|)
      modifies buf
      ensures Reserved(p, |payload|) && buf[p..p + |payload|] == payload
    {
      hide Layout, Shows, Encode, Fits, Payloads, BytesOf, Wrap, Gap, And, SizeOk, Skips, Cell;
      ghost var at := written;
      ghost var done := [TAG_EVENT];
      TagShows(buf[..], at);
      var i: nat := 0;
      while i < |payload|
        invariant i <= |payload| && Reserved(p, |payload|)
        invariant done == [TAG_EVENT] + payload[..i] && Shows(buf[..], at, done)
        modifies buf
      {
        ghost var before := buf[..];
        IndexGrows(at, 1 + i, capacity);
        WriteBehind(before, consumed, at, recs, done, payload[i]);
        buf[p + i] := payload[i];
        assert buf[..] == before[(at + |done|) % capacity := payload[i]];
        done := done + [payload[i]];
        i := i + 1;
      }
      assert payload[..|payload|] == payload;
      PieceIs(buf[..], at, payload);
    }

    /** Publishes the reserved event. */
    method Commit(ghost p: nat)
      requires Reserved(p, pendingPayloadSize)
      modifies this`head, this`pendingPayloadSize, this`written, this`recs
      ensures Valid() && recs == old(recs) + [Ev(buf[p..p + old(pendingPayloadSize)])]
      ensures Queue() == old(Queue()) + [buf[p..p + old(pendingPayloadSize)]]
      ensures written == old(written) + 1 + old(pendingPayloadSize) && pendingPayloadSize == 0
    {
      hide Layout, Shows, Encode, Fits, Payloads, BytesOf, Wrap, Gap, And, SizeOk, Skips, Cell;
      ghost var payload := buf[p..p + pendingPayloadSize];
      PieceShows(buf[..], written, payload);
      PublishEvent(buf[..], consumed, written, recs, payload);
      WrapAdvance(written, 1 + pendingPayloadSize);
      head := Wrap(head + 1 + pendingPayloadSize);
      written, recs := written + 1 + pendingPayloadSize, recs + [Ev(payload)];
      pendingPayloadSize := 0;
    }

    /** One attempt of the producer: the event is queued if there is room for it. */
    method TryLog(payload: seq<byte>) returns (ok: bool)
      requires Valid()
      modifies this, buf
      ensures Valid() && consumed == old(consumed) && producerDead == old(producerDead)
      ensures ok <==> old(RoomFor(capacity, consumed, written, 1 + |payload|))
      ensures Queue() == if ok then old(Queue()) + [payload] else old(Queue())
      ensures !ok ==> written == old(written) && recs == old(recs)
      ensures ok ==> recs == old(recs) + Skips(PadFor(capacity, old(written), 1 + |payload|)) + [Ev(payload)]
      ensures ok ==> written == old(written) + PadFor(capacity, old(written), 1 + |payload|) + 1 + |payload|
    {
      hide Layout, Shows, Encode, Fits, Payloads, BytesOf, Wrap, Gap, And, SizeOk, Skips, Cell;
      var p := Reserve(|payload|);
      if p < 0 { return false; }
      Fill(p, payload);
      Commit(p);
      ok := true;
    }

    method PeekTag() returns (ok: bool, tag: byte)
      requires Valid()
      ensures ok <==> recs != []
      ensures ok ==> tag == BytesOf(recs[0])[0]
    {
      hide Layout, Shows, Encode, Fits, Payloads, BytesOf, Wrap, Gap, And, SizeOk, Skips, Cell;
      var n := Readable();
      if n == 0 { return false, 0; }
      Counters();
      FrontTag(buf[..], consumed, written, recs);
      ok, tag := true, buf[And(tail, mask)];
    }

    method SkipPadding()
      requires Valid() && recs != [] && recs[0] == Skip
      modifies this`tail, this`consumed, this`recs
      ensures Valid() && recs == old(recs)[1..] && Queue() == old(Queue()) && consumed == old(consumed) + 1
    {
      hide Layout, Shows, Encode, Fits, Payloads, BytesOf, Wrap, Gap, And, SizeOk, Skips, Cell;
      RetireSkip(buf[..], consumed, written, recs);
      WrapAdvance(consumed, 1);
      tail := Wrap(tail + 1);
      consumed, recs := consumed + 1, recs[1..];
    }

    /** The first `n` bytes of the payload at the front. */
    method PeekPayload(n: nat) returns (dst: seq<byte>)
      requires Valid() && recs != [] && recs[0].Ev? && n <= |recs[0].payload|
      ensures dst == recs[0].payload[..n]
    {
      hide Layout, Shows, Encode, Fits, Payloads, BytesOf, Wrap, Gap, And, SizeOk, Skips, Cell;
      IndexOf(capacity, consumed + 1);
      FrontPayload(buf[..], consumed, written, recs, n);
      WrapAdvance(consumed, 1);
      var off := And(Wrap(tail + 1), mask);
      dst := buf[off..off + n];
    }

    method ConsumeEvent(payloadSize: nat)
      requires Valid() && recs != [] && recs[0].Ev? && payloadSize == |recs[0].payload|
      modifies this`tail, this`consumed, this`recs
      ensures Valid() && recs == old(recs)[1..] && old(Queue()) == [old(recs)[0].payload] + Queue()
      ensures consumed == old(consumed) + 1 + payloadSize
    {
      hide Layout, Shows, Encode, Fits, Payloads, BytesOf, Wrap, Gap, And, SizeOk, Skips, Cell;
      RetireEvent(buf[..], consumed, written, recs);
      WrapAdvance(consumed, 1 + payloadSize);
      tail := Wrap(tail + 1 + payloadSize);
      consumed, recs := consumed + 1 + payloadSize, recs[1..];
    }
  }

  lemma ShowsNothing(buf: seq<byte>, at: nat)
    requires |buf| > 0
    ensures Shows(buf, at, [])
  {
  }

  lemma TagShows(buf: seq<byte>, at: nat)
    requires |buf| > 0 && buf[at % |buf|] == TAG_EVENT
    ensures Shows(buf, at, [TAG_EVENT])
  {
    ShowsOne(buf, at, TAG_EVENT);
  }

  lemma PieceIs(buf: seq<byte>, at: nat, payload: seq<byte>)
    requires |buf| > 0 && at % |buf| + 1 + |payload| <= |buf|
    requires Shows(buf, at, [TAG_EVENT] + payload)
    ensures var p := at % |buf| + 1; buf[p..p + |payload|] == payload
  {
    hide Shows;
    ShowsConcat(buf, at, [TAG_EVENT], payload);
    ShowsInOnePiece(buf, at, payload, |payload|);
    if payload != [] { IndexGrows(at, 1, |buf|); }
    assert payload[..|payload|] == payload;
  }

  lemma PieceShows(buf: seq<byte>, at: nat, payload: seq<byte>)
    requires |buf| > 0 && at % |buf| + 1 + |payload| <= |buf|
    requires buf[at % |buf|] == TAG_EVENT && buf[at % |buf| + 1..at % |buf| + 1 + |payload|] == payload
    ensures Shows(buf, at, [TAG_EVENT] + payload)
  {
    var bytes := [TAG_EVENT] + payload;
    forall i | 0 <= i < |bytes| ensures Cell(buf, at + i) == bytes[i] {
      IndexGrows(at, i, |buf|);
      if i > 0 { assert bytes[i] == payload[i - 1] == buf[at % |buf| + 1..at % |buf| + 1 + |payload|][i - 1]; }
    }
  }

  lemma {:induction false} PowGrows(a: nat, b: nat)
    requires a <= b
    ensures Pow2(a) <= Pow2(b)
    decreases b - a
  {
    if a < b { PowGrows(a, b - 1); }
  }

  lemma PowBelow64(k: nat)
    requires k < 64
    ensures Pow2(k) < TWO_TO_THE_64
  {
    Pow64();
    PowGrows(k, 63);
  }

  /** A power of two below 2^64 has an exponent below 64. */
  lemma SmallPow2(cap: nat)
    requires IsPow2(cap) && cap < TWO_TO_THE_64
    ensures SizeOk(cap)
  {
    IsPow2Exact(cap);
    var k: nat :| cap == Pow2(k);
    if k >= 64 {
      Pow64();
      PowGrows(64, k);
    }
  }

  // --------------------------------------------------------------------- progress

  /** On a drained ring an event fits exactly if it fits before the end of the
      buffer or, after padding, in what is left of it. */
  lemma DrainedRoom(cap: nat, pos: nat, need: nat)
    requires cap > 0
    ensures RoomFor(cap, pos, pos, need) <==>
              need <= cap - pos % cap || (cap - pos % cap) + need <= cap
  {
  }

  /** An event fits on a drained ring at every position exactly if the buffer is
      at least one byte short of twice its size. */
  lemma AlwaysRoom(cap: nat, need: nat)
    requires cap > 0 && need > 0
    ensures (forall pos: nat :: RoomFor(cap, pos, pos, need)) <==> 2 * need - 1 <= cap
  {
    if 2 * need - 1 > cap {
      var pos := if need <= cap then cap - need + 1 else 0;
      assert !RoomFor(cap, pos, pos, need);
    }
  }

  /** With a configured ring of at least 4096 bytes every event the runtime logs,
      with at most 64 frames, fits once the ring is drained. */
  lemma EveryEventFits(cap: nat, pos: nat, frames: nat)
    requires cap >= 4096 && frames <= 64
    ensures RoomFor(cap, pos, pos, 1 + 40 + 8 * frames)
  {
    AlwaysRoom(cap, 1 + 40 + 8 * frames);
  }
}
