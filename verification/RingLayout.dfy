/** What the bytes of a ring mean. Positions are unbounded counts of bytes; the
    buffer index of a position is its remainder by the capacity. The unread bytes
    are a sequence of records: padding bytes and framed payloads. */
module RingLayout {
  import opened BitMask

  type byte = x: int | 0 <= x < 256

  const TAG_EVENT: byte := 1
  const TAG_SKIP: byte := 2

  /** One unread record: a padding byte, or a tag followed by a payload. */
  datatype Record = Skip | Ev(payload: seq<byte>)

  function BytesOf(r: Record): (b: seq<byte>)
    ensures |b| > 0
  {
    match r
    case Skip => [TAG_SKIP]
    case Ev(p) => [TAG_EVENT] + p
  }

  ghost function Encode(recs: seq<Record>): seq<byte> {
    if recs == [] then [] else BytesOf(recs[0]) + Encode(recs[1..])
  }

  ghost function Payloads(recs: seq<Record>): seq<seq<byte>> {
    if recs == [] then []
    else (match recs[0] case Skip => [] case Ev(p) => [p]) + Payloads(recs[1..])
  }

  /** What is left once the padding in front and the first event are gone. */
  ghost function AfterFront(recs: seq<Record>): seq<Record> {
    if recs == [] then [] else if recs[0] == Skip then AfterFront(recs[1..]) else recs[1..]
  }

  /** The record does not run past the end of the buffer. */
  ghost predicate FitsAt(cap: nat, pos: nat, r: Record)
    requires cap > 0
  {
    pos % cap + |BytesOf(r)| <= cap
  }

  ghost predicate Fits(cap: nat, pos: nat, recs: seq<Record>)
    requires cap > 0
    decreases |recs|
  {
    recs != [] ==> FitsAt(cap, pos, recs[0]) && Fits(cap, pos + |BytesOf(recs[0])|, recs[1..])
  }

  /** The byte at a position. */
  function Cell(buf: seq<byte>, pos: nat): byte
    requires |buf| > 0
  {
    buf[pos % |buf|]
  }

  /** The buffer holds these bytes from position `pos` on. */
  ghost predicate Shows(buf: seq<byte>, pos: nat, bytes: seq<byte>) {
    |buf| > 0 && forall i | 0 <= i < |bytes| :: Cell(buf, pos + i) == bytes[i]
  }

  /** The bytes from `tail` to `head` are the records `recs`. */
  ghost predicate Layout(buf: seq<byte>, tail: nat, head: nat, recs: seq<Record>) {
    && |buf| > 0
    && head == tail + |Encode(recs)| && head <= tail + |buf|
    && Shows(buf, tail, Encode(recs))
    && Fits(|buf|, tail, recs)
  }

  // -------------------------------------------------------------------- positions

  /** Positions less than a capacity apart have different indices. */
  lemma IndexDiffers(a: nat, b: nat, c: nat)
    requires a < b < a + c
    ensures a % c != b % c
  {
    DivModIs(a, c);
    DivModIs(b, c);
    var d := b / c - a / c;
    assert d * c == (b / c) * c - (a / c) * c;
    MulAtLeast(d, c);
  }

  /** Up to the end of the buffer the index grows with the position. */
  lemma IndexGrows(pos: nat, i: nat, c: nat)
    requires c > 0 && pos % c + i < c
    ensures (pos + i) % c == pos % c + i
  {
    DivModIs(pos, c);
    RemainderIs(pos + i, pos / c, pos % c + i, c);
  }

  /** Filling up to the end of the buffer leads to index 0. */
  lemma IndexWraps(pos: nat, c: nat)
    requires c > 0
    ensures (pos + (c - pos % c)) % c == 0
  {
    DivModIs(pos, c);
    MulAdd(pos / c, 1, c);
    RemainderIs(pos + (c - pos % c), pos / c + 1, 0, c);
  }

  // --------------------------------------------------------------------- records

  lemma EncodeAppend(recs: seq<Record>, r: Record)
    ensures Encode(recs + [r]) == Encode(recs) + BytesOf(r)
    ensures Payloads(recs + [r]) == Payloads(recs) + match r case Skip => [] case Ev(p) => [p]
  {
    EncodeSnoc(recs, r);
    PayloadsSnoc(recs, r);
  }

  lemma {:induction false} EncodeSnoc(recs: seq<Record>, r: Record)
    ensures Encode(recs + [r]) == Encode(recs) + BytesOf(r)
  {
    hide BytesOf;
    if recs != [] {
      assert (recs + [r])[1..] == recs[1..] + [r];
      EncodeSnoc(recs[1..], r);
    } else {
      assert ([r])[1..] == [];
    }
  }

  lemma {:induction false} PayloadsSnoc(recs: seq<Record>, r: Record)
    ensures Payloads(recs + [r]) == Payloads(recs) + match r case Skip => [] case Ev(p) => [p]
  {
    if recs != [] {
      assert (recs + [r])[1..] == recs[1..] + [r];
      PayloadsSnoc(recs[1..], r);
    } else {
      assert ([r])[1..] == [];
    }
  }

  lemma {:induction false} FitsAppend(cap: nat, pos: nat, recs: seq<Record>, r: Record)
    requires cap > 0
    ensures Fits(cap, pos, recs + [r]) <==> Fits(cap, pos, recs) && FitsAt(cap, pos + |Encode(recs)|, r)
    decreases |recs|
  {
    if recs != [] {
      assert (recs + [r])[1..] == recs[1..] + [r];
      FitsAppend(cap, pos + |BytesOf(recs[0])|, recs[1..], r);
    } else {
      assert ([r])[1..] == [];
    }
  }

  // ------------------------------------------------------------------ what steps do

  lemma ShowsConcat(buf: seq<byte>, pos: nat, a: seq<byte>, b: seq<byte>)
    requires |buf| > 0
    ensures Shows(buf, pos, a + b) <==> Shows(buf, pos, a) && Shows(buf, pos + |a|, b)
  {
    hide Cell;
    var c := a + b;
    if Shows(buf, pos, c) {
      forall i | 0 <= i < |a| ensures Cell(buf, pos + i) == a[i] { assert c[i] == a[i]; }
      forall i | 0 <= i < |b| ensures Cell(buf, pos + |a| + i) == b[i] { assert c[|a| + i] == b[i]; }
    }
    if Shows(buf, pos, a) && Shows(buf, pos + |a|, b) {
      forall i | 0 <= i < |c| ensures Cell(buf, pos + i) == c[i] {
        if i >= |a| { assert pos + i == pos + |a| + (i - |a|); }
      }
    }
  }

  lemma CellAfterWrite(buf: seq<byte>, p: nat, b: byte, q: nat)
    requires |buf| > 0
    ensures Cell(buf[p % |buf| := b], p) == b
    ensures q != p && q < p + |buf| && p < q + |buf| ==> Cell(buf[p % |buf| := b], q) == Cell(buf, q)
  {
    if q < p < q + |buf| { IndexDiffers(q, p, |buf|); }
    if p < q < p + |buf| { IndexDiffers(p, q, |buf|); }
  }

  /** A write outside a stretch of bytes leaves it alone. */
  lemma ShowsAfterWrite(buf: seq<byte>, pos: nat, bytes: seq<byte>, p: nat, b: byte)
    requires Shows(buf, pos, bytes) && pos + |bytes| <= p < pos + |buf|
    ensures Shows(buf[p % |buf| := b], pos, bytes)
  {
    hide Cell;
    forall i | 0 <= i < |bytes| ensures Cell(buf[p % |buf| := b], pos + i) == bytes[i] {
      CellAfterWrite(buf, p, b, pos + i);
    }
  }

  lemma ShowsOne(buf: seq<byte>, pos: nat, b: byte)
    requires |buf| > 0 && Cell(buf, pos) == b
    ensures Shows(buf, pos, [b])
  {
  }

  /** A byte written behind the unread ones, inside the free room, extends what is
      being written and leaves the unread bytes alone. */
  lemma WriteBehind(buf: seq<byte>, tail: nat, head: nat, recs: seq<Record>, partial: seq<byte>, b: byte)
    requires Layout(buf, tail, head, recs) && Shows(buf, head, partial) && head + |partial| < tail + |buf|
    ensures var buf' := buf[(head + |partial|) % |buf| := b];
            Layout(buf', tail, head, recs) && Shows(buf', head, partial + [b])
  {
    hide Cell, Shows, Encode, Fits;
    var p := head + |partial|;
    ShowsAfterWrite(buf, tail, Encode(recs), p, b);
    ShowsAfterWrite(buf, head, partial, p, b);
    CellAfterWrite(buf, p, b, p);
    ShowsOne(buf[p % |buf| := b], p, b);
    ShowsConcat(buf[p % |buf| := b], head, partial, [b]);
  }

  /** Moving `head` past a completely written record publishes it. */
  lemma Publish(buf: seq<byte>, tail: nat, head: nat, recs: seq<Record>, r: Record)
    requires Layout(buf, tail, head, recs) && Shows(buf, head, BytesOf(r))
    requires FitsAt(|buf|, head, r) && head + |BytesOf(r)| <= tail + |buf|
    ensures Layout(buf, tail, head + |BytesOf(r)|, recs + [r])
  {
    hide Cell, Shows, Encode, Fits, FitsAt;
    EncodeAppend(recs, r);
    FitsAppend(|buf|, tail, recs, r);
    ShowsConcat(buf, tail, Encode(recs), BytesOf(r));
  }

  /** Moving `tail` past the first record takes it out. */
  lemma Retire(buf: seq<byte>, tail: nat, head: nat, recs: seq<Record>)
    requires Layout(buf, tail, head, recs) && recs != []
    ensures Layout(buf, tail + |BytesOf(recs[0])|, head, recs[1..])
    ensures |BytesOf(recs[0])| <= head - tail
  {
    hide Cell, Shows, FitsAt, BytesOf;
    ShowsConcat(buf, tail, BytesOf(recs[0]), Encode(recs[1..]));
  }

  /** The byte at `tail` is the tag of the first record. */
  lemma FrontTag(buf: seq<byte>, tail: nat, head: nat, recs: seq<Record>)
    requires Layout(buf, tail, head, recs)
    ensures recs == [] <==> head == tail
    ensures recs != [] ==> buf[tail % |buf|] == BytesOf(recs[0])[0]
  {
    if recs != [] {
      assert Encode(recs)[0] == BytesOf(recs[0])[0];
      assert Cell(buf, tail + 0) == Encode(recs)[0];
    }
  }

  /** Taking out a padding byte. */
  lemma RetireSkip(buf: seq<byte>, tail: nat, head: nat, recs: seq<Record>)
    requires Layout(buf, tail, head, recs) && recs != [] && recs[0] == Skip
    ensures Layout(buf, tail + 1, head, recs[1..]) && Payloads(recs[1..]) == Payloads(recs) && tail < head
  {
    hide Layout, Encode, Fits, Shows;
    Retire(buf, tail, head, recs);
  }

  /** Taking out an event. */
  lemma RetireEvent(buf: seq<byte>, tail: nat, head: nat, recs: seq<Record>)
    requires Layout(buf, tail, head, recs) && recs != [] && recs[0].Ev?
    ensures var n := 1 + |recs[0].payload|;
            tail + n <= head && Layout(buf, tail + n, head, recs[1..])
    ensures Payloads(recs) == [recs[0].payload] + Payloads(recs[1..])
  {
    hide Layout, Encode, Fits, Shows;
    Retire(buf, tail, head, recs);
  }

  /** A complete event behind `head` is published by moving `head` past it. */
  lemma PublishEvent(buf: seq<byte>, tail: nat, head: nat, recs: seq<Record>, payload: seq<byte>)
    requires Layout(buf, tail, head, recs) && Shows(buf, head, [TAG_EVENT] + payload)
    requires head % |buf| + 1 + |payload| <= |buf| && head + 1 + |payload| <= tail + |buf|
    ensures Layout(buf, tail, head + 1 + |payload|, recs + [Ev(payload)])
    ensures Payloads(recs + [Ev(payload)]) == Payloads(recs) + [payload]
  {
    hide Layout, Encode, Fits, Shows, Payloads;
    Publish(buf, tail, head, recs, Ev(payload));
    EncodeAppend(recs, Ev(payload));
  }

  /** One more padding byte behind `head`. */
  lemma PublishSkip(buf: seq<byte>, tail: nat, head: nat, recs: seq<Record>)
    requires Layout(buf, tail, head, recs) && head < tail + |buf|
    ensures Layout(buf[head % |buf| := TAG_SKIP], tail, head + 1, recs + [Skip])
    ensures Payloads(recs + [Skip]) == Payloads(recs)
  {
    hide Layout, Encode, Fits, Payloads;
    LayoutSize(buf, tail, head, recs);
    WriteBehind(buf, tail, head, recs, [], TAG_SKIP);
    Publish(buf[head % |buf| := TAG_SKIP], tail, head, recs, Skip);
    EncodeAppend(recs, Skip);
  }

  lemma LayoutSize(buf: seq<byte>, tail: nat, head: nat, recs: seq<Record>)
    requires Layout(buf, tail, head, recs)
    ensures |buf| > 0 && tail <= head <= tail + |buf|
  {
  }

  /** The payload of the first record lies in one piece behind its tag. */
  lemma FrontPayload(buf: seq<byte>, tail: nat, head: nat, recs: seq<Record>, n: nat)
    requires Layout(buf, tail, head, recs) && recs != [] && recs[0].Ev? && n <= |recs[0].payload|
    ensures head - tail >= 1 + |recs[0].payload|
    ensures var off := (tail + 1) % |buf|; off + n <= |buf| && buf[off..off + n] == recs[0].payload[..n]
  {
    hide Layout, Shows, Fits, Encode;
    var p := recs[0].payload;
    FrontIs(buf, tail, head, recs);
    ShowsConcat(buf, tail, [TAG_EVENT] + p, Encode(recs[1..]));
    ShowsConcat(buf, tail, [TAG_EVENT], p);
    ShowsInOnePiece(buf, tail, p, n);
  }

  lemma FrontIs(buf: seq<byte>, tail: nat, head: nat, recs: seq<Record>)
    requires Layout(buf, tail, head, recs) && recs != [] && recs[0].Ev?
    ensures var p := recs[0].payload;
            && head - tail >= 1 + |p| && |buf| > 0 && tail % |buf| + 1 + |p| <= |buf|
            && Shows(buf, tail, ([TAG_EVENT] + p) + Encode(recs[1..]))
  {
    hide Shows;
  }

  lemma ShowsInOnePiece(buf: seq<byte>, tail: nat, p: seq<byte>, n: nat)
    requires Shows(buf, tail + 1, p) && tail % |buf| + 1 + |p| <= |buf| && n <= |p|
    ensures var off := (tail + 1) % |buf|; off + n <= |buf| && buf[off..off + n] == p[..n]
  {
    if n > 0 {
      IndexGrows(tail, 1, |buf|);
      var off := (tail + 1) % |buf|;
      forall i | 0 <= i < n ensures buf[off + i] == p[i] {
        IndexGrows(tail + 1, i, |buf|);
        assert Cell(buf, tail + 1 + i) == p[i];
      }
    }
  }
}
