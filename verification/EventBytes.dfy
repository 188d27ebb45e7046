/** The binary form of an event in a ring: the 40-byte header, little-endian, followed
    by one 8-byte word per frame. */
module EventBytes {
  import opened BitMask
  import opened Digits
  import opened RingLayout
  import opened RingProtocol

  const TWO_TO_THE_63 := 0x8000_0000_0000_0000

  /** An event as the runtime fills it in; `rc` is signed. */
  datatype Raw = Raw(ts: nat, tid: nat, op: nat, kind: nat, addr: nat, rc: int, pcs: seq<nat>)

  predicate WordsFit(pcs: seq<nat>) {
    forall i | 0 <= i < |pcs| :: pcs[i] < TWO_TO_THE_64
  }

  /** The fields fit their widths. */
  predicate FieldsFit(e: Raw) {
    && e.ts < TWO_TO_THE_64 && e.tid < TWO_TO_THE_64 && e.addr < TWO_TO_THE_64
    && e.op < 256 && e.kind < 256 && -TWO_TO_THE_63 <= e.rc < TWO_TO_THE_63
    && |e.pcs| < 0x1_0000 && WordsFit(e.pcs)
  }

  /** `n` in `k` bytes, the lowest first. */
  function Le(n: nat, k: nat): (b: seq<byte>)
    ensures |b| == k
  {
    if k == 0 then [] else [n % 256] + Le(n / 256, k - 1)
  }

  function FromLe(b: seq<byte>): nat {
    if b == [] then 0 else b[0] + 256 * FromLe(b[1..])
  }

  function Words(pcs: seq<nat>): (b: seq<byte>)
    ensures |b| == 8 * |pcs|
  {
    if pcs == [] then [] else Le(pcs[0], 8) + Words(pcs[1..])
  }

  function FromWords(b: seq<byte>): seq<nat> {
    if |b| < 8 then [] else [FromLe(b[..8])] + FromWords(b[8..])
  }

  /** Two's complement. */
  function Unsigned(i: int): nat {
    i % TWO_TO_THE_64
  }

  function Signed(n: nat): int {
    if n >= TWO_TO_THE_63 then n - TWO_TO_THE_64 else n
  }

  function HeaderBytes(e: Raw): (b: seq<byte>)
    requires FieldsFit(e)
    ensures |b| == HEADER
  {
    Le(e.ts, 8) + Le(e.tid, 8) + Le(e.addr, 8) + Le(Unsigned(e.rc), 8) + [e.op, e.kind] + Le(|e.pcs|, 2) + Le(0, 4)
  }

  function PayloadOf(e: Raw): seq<byte>
    requires FieldsFit(e)
  {
    HeaderBytes(e) + Words(e.pcs)
  }

  /** What the backend reads out of a payload. */
  function Decode(p: seq<byte>): Raw
    requires |p| >= HEADER
  {
    Raw(FromLe(p[0..8]), FromLe(p[8..16]), p[32], p[33],
        FromLe(p[16..24]), Signed(FromLe(p[24..32])), FromWords(p[40..]))
  }

  lemma {:induction false} LeRoundTrip(n: nat, k: nat)
    requires n < Power(256, k)
    ensures FromLe(Le(n, k)) == n
  {
    if k > 0 {
      LeRoundTrip(n / 256, k - 1);
      assert Le(n, k)[1..] == Le(n / 256, k - 1);
    }
  }

  lemma Power256Is()
    ensures Power(256, 8) == TWO_TO_THE_64 && Power(256, 2) == 0x1_0000
  {
    assert Power(256, 2) == 0x1_0000;
    assert Power(256, 4) == 0x1_0000_0000;
    assert Power(256, 6) == 0x1_0000_0000_0000;
  }

  lemma WordRoundTrip(n: nat)
    requires n < TWO_TO_THE_64
    ensures FromLe(Le(n, 8)) == n
  {
    hide Le, FromLe, Power;
    Power256Is();
    LeRoundTrip(n, 8);
  }

  lemma {:induction false} WordsRoundTrip(pcs: seq<nat>)
    requires WordsFit(pcs)
    ensures FromWords(Words(pcs)) == pcs
  {
    hide Le, FromLe;
    if pcs != [] {
      var b := Words(pcs);
      WordRoundTrip(pcs[0]);
      WordsRoundTrip(pcs[1..]);
      assert b[..8] == Le(pcs[0], 8) && b[8..] == Words(pcs[1..]);
    }
  }

  lemma SignedRoundTrip(i: int)
    requires -TWO_TO_THE_63 <= i < TWO_TO_THE_63
    ensures Signed(Unsigned(i)) == i && Unsigned(i) < TWO_TO_THE_64
  {
  }

  /** The backend reads back exactly what the runtime filled in. */
  lemma DecodePayload(e: Raw)
    requires FieldsFit(e)
    ensures |PayloadOf(e)| >= HEADER && Decode(PayloadOf(e)) == e
  {
    hide Le, FromLe, Words, FromWords, Signed, Unsigned, WordsFit;
    var p := PayloadOf(e);
    WordRoundTrip(e.ts);
    WordRoundTrip(e.tid);
    WordRoundTrip(e.addr);
    SignedRoundTrip(e.rc);
    WordRoundTrip(Unsigned(e.rc));
    WordsRoundTrip(e.pcs);
    assert p[0..8] == Le(e.ts, 8);
    assert p[8..16] == Le(e.tid, 8);
    assert p[16..24] == Le(e.addr, 8);
    assert p[24..32] == Le(Unsigned(e.rc), 8);
    assert p[40..] == Words(e.pcs);
  }

  /** The frame count in the header tells the size of the payload. */
  lemma PayloadIsFramed(e: Raw)
    requires FieldsFit(e)
    ensures FrameCount(PayloadOf(e)) == |e.pcs| && |PayloadOf(e)| == SizeOf(PayloadOf(e))
    ensures WellFramed(PayloadOf(e)) <==> |e.pcs| <= MAX_FRAMES
  {
    hide Words, Signed, Unsigned, WordsFit, FromLe;
    var p := PayloadOf(e);
    CountBytes(|e.pcs|);
    assert p[34] == Le(|e.pcs|, 2)[0] && p[35] == Le(|e.pcs|, 2)[1];
  }

  lemma CountBytes(n: nat)
    requires n < 0x1_0000
    ensures Le(n, 2)[0] as int + 256 * (Le(n, 2)[1] as int) == n
  {
    assert Le(n, 2)[1] == Le(n / 256, 1)[0];
  }
}
