/** Numbers as text: what `printf` writes for %lu, %ld and %lx, and what Python's
    `int` reads. */
module Digits {
  import opened Locks

  type Base = b: int | 2 <= b <= 16 witness 10

  /** The value of an ASCII digit, or 16 for anything else. */
  function DigitValue(c: char): nat {
    if '0' <= c <= '9' then c as nat - '0' as nat
    else if 'a' <= c <= 'f' then c as nat - 'a' as nat + 10
    else if 'A' <= c <= 'F' then c as nat - 'A' as nat + 10
    else 16
  }

  function DigitChar(d: nat): (c: char)
    requires d < 16
    ensures DigitValue(c) == d && c != '_' && !IsSpace(c) && c != '+' && c != '-' && c != 'x' && c != 'X'
  {
    if d < 10 then ('0' as nat + d) as char else ('a' as nat + (d - 10)) as char
  }

  function NatText(n: nat, base: Base): (s: string)
    ensures s != ""
  {
    if n < base then [DigitChar(n)] else NatText(n / base, base) + [DigitChar(n % base)]
  }

  function IntText(i: int): string {
    if i < 0 then "-" + NatText(-i, 10) else NatText(i, 10)
  }

  function HexText(n: nat): string {
    "0x" + NatText(n, 16)
  }

  // ------------------------------------------------------------------- reading

  /** The ASCII characters that `str.strip` removes. */
  predicate IsSpace(c: char) {
    '\t' <= c <= '\r' || c == ' ' || 28 as char <= c <= 31 as char
  }

  function TrimLeft(s: string): string {
    if s != "" && IsSpace(s[0]) then TrimLeft(s[1..]) else s
  }

  function TrimRight(s: string): string {
    if s != "" && IsSpace(s[|s| - 1]) then TrimRight(s[..|s| - 1]) else s
  }

  /** One more digit at the end of a number. */
  function Shift(acc: nat, base: Base, d: nat): nat {
    acc * base + d
  }

  /** Digits with single underscores between them; `ready` tells that a digit has just
      been read. */
  function ReadDigits(s: string, base: Base, acc: nat, ready: bool): Option<nat>
    decreases |s|
  {
    if s == "" then if ready then Some(acc) else None
    else if s[0] == '_' then if ready then ReadDigits(s[1..], base, acc, false) else None
    else if DigitValue(s[0]) < base then ReadDigits(s[1..], base, Shift(acc, base, DigitValue(s[0])), true)
    else None
  }

  function ReadUnsigned(s: string, base: Base): Option<nat> {
    if base == 16 && |s| >= 2 && s[0] == '0' && (s[1] == 'x' || s[1] == 'X') then
      var rest := s[2..];
      ReadDigits(if rest != "" && rest[0] == '_' then rest[1..] else rest, base, 0, false)
    else ReadDigits(s, base, 0, false)
  }

  /** Python's `int(s, base)` on ASCII text; None stands for ValueError. */
  function PyInt(s: string, base: Base): Option<int> {
    var t := TrimRight(TrimLeft(s));
    if t == "" then None
    else if t[0] == '-' then
      match ReadUnsigned(t[1..], base)
      case None => None
      case Some(n) => Some(-(n as int))
    else if t[0] == '+' then
      match ReadUnsigned(t[1..], base)
      case None => None
      case Some(n) => Some(n)
    else
      match ReadUnsigned(t, base)
      case None => None
      case Some(n) => Some(n)
  }

  function ParseHex(s: string): Option<int> {
    if s == "" then None else PyInt(s, 16)
  }

  // ---------------------------------------------------------------- what is printed

  /** Every character is a digit of the base as `printf` writes it. */
  ghost predicate AllDigits(s: string, base: Base) {
    forall i | 0 <= i < |s| :: exists d: nat | d < base :: s[i] == DigitChar(d)
  }

  lemma {:induction false} NatTextDigits(n: nat, base: Base)
    ensures AllDigits(NatText(n, base), base)
    decreases n
  {
    hide DigitChar;
    if n < base {
      assert [DigitChar(n)][0] == DigitChar(n);
    } else {
      NatTextDigits(n / base, base);
      var a, c := NatText(n / base, base), DigitChar(n % base);
      forall i | 0 <= i < |a + [c]| ensures exists d: nat | d < base :: (a + [c])[i] == DigitChar(d) {
        if i < |a| { assert (a + [c])[i] == a[i]; }
      }
    }
  }

  /** `n` without its last `i` digits. */
  function Cut(n: nat, base: Base, i: nat): nat {
    if i == 0 then n else Cut(n / base, base, i - 1)
  }

  /** The characters by their ASCII codes: the digit at each place, counted from the end,
      `0` to `9` from 48 on and `a` to `f` from 97 on. */
  lemma {:induction false} NatTextCodes(n: nat, base: Base, i: nat)
    requires i < |NatText(n, base)|
    ensures var d := Cut(n, base, i) % base;
            NatText(n, base)[|NatText(n, base)| - 1 - i] as int == if d < 10 then 48 + d else 97 + (d - 10)
    decreases i
  {
    hide NatText, DigitChar;
    LastDigit(n, base);
    var front := if n < base then "" else NatText(n / base, base);
    PlaceFromEnd(front, DigitChar(n % base), i);
    if i > 0 { NatTextCodes(n / base, base, i - 1); }
  }

  lemma PlaceFromEnd(front: string, c: char, i: nat)
    requires i <= |front|
    ensures (front + [c])[|front + [c]| - 1 - i] == if i == 0 then c else front[|front| - 1 - (i - 1)]
  {
  }

  /** No number but 0 begins with a zero. */
  lemma {:induction false} NoLeadingZero(n: nat, base: Base)
    requires n > 0
    ensures NatText(n, base)[0] as int != 48
    decreases n
  {
    hide NatText, DigitChar;
    TextUnfolds(n, base);
    if n < base {
      DigitCode(n);
    } else {
      var q := Quotient(n, base);
      NoLeadingZero(q, base);
    }
  }

  lemma Quotient(n: nat, base: nat) returns (q: nat)
    requires 2 <= base <= n
    ensures q == n / base && 0 < q < n
  {
    q := n / base;
  }

  lemma LastDigit(n: nat, base: Base)
    ensures var d := n % base;
            && NatText(n, base) == (if n < base then "" else NatText(n / base, base)) + [DigitChar(d)]
            && DigitChar(d) as int == (if d < 10 then 48 + d else 97 + (d - 10))
  {
    hide NatText, DigitChar;
    TextUnfolds(n, base);
    DigitCode(n % base);
    if n < base { SmallRemainder(n, base); }
  }

  lemma TextUnfolds(n: nat, base: Base)
    ensures NatText(n, base) == if n < base then [DigitChar(n)] else NatText(n / base, base) + [DigitChar(n % base)]
  {
  }

  lemma DigitCode(d: nat)
    requires d < 16
    ensures DigitChar(d) as int == if d < 10 then 48 + d else 97 + (d - 10)
  {
  }

  lemma SmallRemainder(n: nat, base: nat)
    requires n < base
    ensures n % base == n
  {
  }

  ghost function Power(base: nat, k: nat): nat {
    if k == 0 then 1 else base * Power(base, k - 1)
  }

  lemma QuotientBelow(n: nat, base: nat, p: nat)
    requires base > 0 && n < base * p
    ensures n / base < p
  {
    MulMonotone(base, p, n / base);
  }

  lemma MulMonotone(b: nat, p: nat, q: nat)
    ensures p <= q ==> b * p <= b * q
  {
  }

  /** A number below base^k has at most k digits. */
  lemma {:induction false} NatTextLength(n: nat, base: Base, k: nat)
    requires k > 0 && n < Power(base, k)
    ensures |NatText(n, base)| <= k
    decreases k
  {
    hide Power, DigitChar, NatText;
    TextSize(n, base);
    if n >= base {
      PowerStep(base, k);
      if k > 1 {
        QuotientBelow(n, base, Power(base, k - 1));
        NatTextLength(n / base, base, k - 1);
      }
    }
  }

  lemma TextSize(n: nat, base: Base)
    ensures |NatText(n, base)| == if n < base then 1 else |NatText(n / base, base)| + 1
  {
  }

  lemma PowerStep(base: nat, k: nat)
    requires k > 0
    ensures Power(base, k) == base * Power(base, k - 1) && (k == 1 ==> Power(base, k) == base)
  {
    assert Power(base, 0) == 1;
  }

  lemma {:induction false} ReadDigitsSnoc(s: string, d: nat, base: Base, acc: nat, ready: bool)
    requires d < base
    ensures ReadDigits(s, base, acc, ready).Some? && (ready || s != "") ==>
              ReadDigits(s + [DigitChar(d)], base, acc, ready)
              == Some(Shift(ReadDigits(s, base, acc, ready).value, base, d))
    ensures s == "" ==> ReadDigits(s + [DigitChar(d)], base, acc, ready) == Some(Shift(acc, base, d))
    decreases |s|
  {
    hide DigitChar, Shift, DigitValue;
    var t := s + [DigitChar(d)];
    if s == "" {
      assert t == [DigitChar(d)] && t[1..] == "";
    } else {
      assert t[1..] == s[1..] + [DigitChar(d)] && t[0] == s[0];
      if s[0] == '_' {
        ReadDigitsSnoc(s[1..], d, base, acc, false);
      } else if DigitValue(s[0]) < base {
        ReadDigitsSnoc(s[1..], d, base, Shift(acc, base, DigitValue(s[0])), true);
      }
    }
  }

  lemma {:induction false} ReadNatText(n: nat, base: Base)
    ensures ReadDigits(NatText(n, base), base, 0, false) == Some(n)
    decreases n
  {
    hide DigitChar, Shift;
    if n < base {
      ReadDigitsSnoc("", n, base, 0, false);
      assert "" + [DigitChar(n)] == [DigitChar(n)];
      ShiftIs(0, base, n);
    } else {
      ReadNatText(n / base, base);
      ReadDigitsSnoc(NatText(n / base, base), n % base, base, 0, false);
      ShiftIs(n / base, base, n % base);
    }
  }

  lemma ShiftIs(q: nat, base: Base, r: nat)
    ensures q == 0 ==> Shift(q, base, r) == r
    ensures forall n: nat :: q == n / base && r == n % base ==> Shift(q, base, r) == n
  {
  }

  // -------------------------------------------------------------------- round trips

  /** Text between spaces is left alone by stripping. */
  lemma TrimNothing(s: string)
    requires s != "" && !IsSpace(s[0]) && !IsSpace(s[|s| - 1])
    ensures TrimRight(TrimLeft(s)) == s
  {
  }

  lemma Ends(n: nat, base: Base)
    ensures var s := NatText(n, base);
            && s != "" && !IsSpace(s[0]) && !IsSpace(s[|s| - 1]) && s[0] != '-' && s[0] != '+'
            && (|s| >= 2 ==> s[1] != 'x' && s[1] != 'X')
  {
    hide DigitChar, IsSpace;
    NatTextDigits(n, base);
    var s := NatText(n, base);
    assert exists d: nat | d < base :: s[0] == DigitChar(d);
    assert exists d: nat | d < base :: s[|s| - 1] == DigitChar(d);
    if |s| >= 2 { assert exists d: nat | d < base :: s[1] == DigitChar(d); }
  }

  lemma UnsignedText(n: nat, base: Base)
    ensures ReadUnsigned(NatText(n, base), base) == Some(n)
  {
    hide NatText, DigitChar, ReadDigits, IsSpace;
    Ends(n, base);
    ReadNatText(n, base);
  }

  /** What %lu writes is read back. */
  lemma NatRoundTrip(n: nat)
    ensures PyInt(NatText(n, 10), 10) == Some(n)
  {
    hide NatText, ReadUnsigned, IsSpace;
    Ends(n, 10);
    TrimNothing(NatText(n, 10));
    UnsignedText(n, 10);
  }

  /** What %ld writes is read back. */
  lemma IntRoundTrip(i: int)
    ensures PyInt(IntText(i), 10) == Some(i)
  {
    hide NatText, ReadUnsigned, IsSpace, TrimLeft, TrimRight;
    if i >= 0 {
      NatRoundTrip(i);
    } else {
      var s := IntText(i);
      Ends(-i, 10);
      UnsignedText(-i, 10);
      assert s[1..] == NatText(-i, 10) && s[|s| - 1] == NatText(-i, 10)[|s| - 2];
      MinusIsNoSpace();
      TrimNothing(s);
    }
  }

  lemma MinusIsNoSpace()
    ensures !IsSpace('-') && !IsSpace('0')
  {
  }

  /** What 0x%lx writes is read back. */
  lemma HexRoundTrip(n: nat)
    ensures ParseHex(HexText(n)) == Some(n)
  {
    hide NatText, ReadDigits, IsSpace, TrimLeft, TrimRight, DigitChar;
    var s := HexText(n);
    Ends(n, 16);
    ReadNatText(n, 16);
    NatTextDigits(n, 16);
    assert exists d: nat | d < 16 :: NatText(n, 16)[0] == DigitChar(d);
    assert s[2..] == NatText(n, 16) && s[|s| - 1] == NatText(n, 16)[|s| - 3];
    MinusIsNoSpace();
    TrimNothing(s);
  }
}
