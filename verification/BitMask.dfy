/** The ring's position arithmetic: masks of powers of two and counters that wrap
    around at 64 bits. */
module BitMask {

  const TWO_TO_THE_64 := 0x1_0000_0000_0000_0000

  function Pow2(k: nat): (p: nat)
    ensures p > 0
  {
    if k == 0 then 1 else 2 * Pow2(k - 1)
  }

  /** Bitwise "and" of two natural numbers. */
  function And(a: nat, b: nat): nat {
    if a == 0 || b == 0 then 0
    else (if a % 2 == 1 && b % 2 == 1 then 1 else 0) + 2 * And(a / 2, b / 2)
  }

  /** The test for powers of two that guards the ring size setting. */
  predicate IsPow2(v: int) {
    v > 0 && And(v, v - 1) == 0
  }

  lemma MulAtLeast(d: int, c: int)
    requires c >= 0
    ensures d >= 1 ==> d * c >= c
    ensures d <= -1 ==> d * c <= -c
  {
  }

  lemma DivModUnique(a: nat, q: nat, r: nat, c: nat)
    requires c > 0 && a == q * c + r && r < c
    ensures a / c == q && a % c == r
  {
    var d := a / c - q;
    assert a == (a / c) * c + a % c;
    assert d * c == (a / c) * c - q * c;
    MulAtLeast(d, c);
  }

  /** The remainder by twice a number, by halving. */
  lemma DoubleMod(x: nat, p: nat)
    requires p > 0
    ensures x % (2 * p) == 2 * ((x / 2) % p) + x % 2
  {
    var h, q, r := x / 2, (x / 2) / p, (x / 2) % p;
    assert h == q * p + r;
    assert q * (2 * p) == 2 * (q * p);
    DivModUnique(x, q, 2 * r + x % 2, 2 * p);
  }

  lemma DivModIs(a: nat, c: nat)
    requires c > 0
    ensures a == (a / c) * c + a % c && a % c < c
  {
  }

  lemma Regroup(q: int, m: int, c: int, s: int)
    ensures q * (m * c) + s * c == (q * m + s) * c
  {
    MulAssoc(q, m, c);
    MulAdd(q * m, s, c);
  }

  lemma Combine(x: int, q: int, m: int, c: int, s: int, t: int, r: int)
    requires x == q * (m * c) + r && r == s * c + t
    ensures x == (q * m + s) * c + t
  {
    Regroup(q, m, c, s);
  }

  /** Remainder of a remainder. */
  lemma ModMod(x: nat, m: nat, c: nat, w: nat, q: nat, r: nat)
    requires c > 0 && w == m * c && x == q * w + r
    ensures r % c == x % c
  {
    DivModIs(r, c);
    Combine(x, q, m, c, r / c, r % c, r);
    RemainderIs(x, q * m + r / c, r % c, c);
  }

  lemma RemainderIs(a: nat, q: nat, r: nat, c: nat)
    requires c > 0 && a == q * c + r && r < c
    ensures a % c == r
  {
    DivModUnique(a, q, r, c);
  }

  lemma MulAssoc(a: int, b: int, c: int)
    ensures a * (b * c) == (a * b) * c
  {
  }

  lemma MulAdd(a: int, b: int, c: int)
    ensures a * c + b * c == (a + b) * c
  {
  }

  lemma {:induction false} AndSelf(a: nat)
    ensures And(a, a) == a
  {
    if a > 0 { AndSelf(a / 2); }
  }

  /** Masking with one less than a power of two is the remainder. */
  lemma {:induction false} AndMask(x: nat, k: nat)
    ensures And(x, Pow2(k) - 1) == x % Pow2(k)
  {
    hide And, Pow2;
    Pow2Step(k);
    if k == 0 {
      AndZero(x);
    } else {
      var p := Pow2(k - 1);
      AndMask(x / 2, k - 1);
      DoubleMod(x, p);
      AndOdd(x, p);
    }
  }

  lemma AndZero(x: nat)
    ensures And(x, 0) == 0
  {
  }

  /** The lowest bit of a mask of ones. */
  lemma AndOdd(x: nat, p: nat)
    requires p > 0
    ensures And(x, 2 * p - 1) == x % 2 + 2 * And(x / 2, p - 1)
  {
    assert (2 * p - 1) / 2 == p - 1 && (2 * p - 1) % 2 == 1;
    AndZero(x / 2);
    ZeroAnd(p - 1);
  }

  lemma ZeroAnd(x: nat)
    ensures And(0, x) == 0
  {
  }

  /** One step of the test for powers of two. */
  lemma Pow2TestStep(v: nat)
    requires v > 1
    ensures IsPow2(v) <==> v % 2 == 0 && IsPow2(v / 2)
  {
    var h := v / 2;
    if v % 2 == 1 {
      assert (v - 1) / 2 == h;
      AndSelf(h);
    } else {
      assert (v - 1) / 2 == h - 1;
    }
  }

  /** Some power of two is `v`. */
  ghost predicate IsSomePow2(v: int) {
    exists k: nat :: v == Pow2(k)
  }

  lemma SomePow2Step(v: nat)
    requires v > 1
    ensures IsSomePow2(v) <==> v % 2 == 0 && IsSomePow2(v / 2)
  {
    if IsSomePow2(v) {
      var k: nat :| v == Pow2(k);
      assert k > 0 && v == 2 * Pow2(k - 1);
    }
    if v % 2 == 0 && IsSomePow2(v / 2) {
      var k: nat :| v / 2 == Pow2(k);
      assert Pow2(k + 1) == 2 * Pow2(k);
    }
  }

  /** The guard accepts exactly the powers of two. */
  lemma {:induction false} IsPow2Exact(v: nat)
    ensures IsPow2(v) <==> IsSomePow2(v)
    decreases v
  {
    hide IsPow2;
    Pow2Zero();
    if v == 1 {
      assert v == Pow2(0);
    } else if v > 1 {
      hide IsSomePow2;
      Pow2TestStep(v);
      SomePow2Step(v);
      IsPow2Exact(v / 2);
    }
  }

  lemma Pow2Zero()
    ensures !IsPow2(0) && IsPow2(1)
  {
  }

  lemma {:induction false} PowSplit(a: nat, b: nat)
    ensures Pow2(a + b) == Pow2(a) * Pow2(b)
  {
    hide Pow2;
    Pow2Step(a);
    if a > 0 {
      Pow2Step(a + b);
      PowSplit(a - 1, b);
      MulAssoc(2, Pow2(a - 1), Pow2(b));
    }
  }

  lemma Pow2Step(k: nat)
    ensures Pow2(k) == if k == 0 then 1 else 2 * Pow2(k - 1)
  {
  }

  lemma Pow64()
    ensures Pow2(64) == TWO_TO_THE_64
  {
    hide Pow2;
    assert Pow2(8) == 256 by { Pow8(); }
    assert Pow2(16) == 0x1_0000 by { PowSplit(8, 8); }
    assert Pow2(32) == 0x1_0000_0000 by { PowSplit(16, 16); }
    PowSplit(32, 32);
  }

  lemma Pow8()
    ensures Pow2(8) == 256
  {
    assert Pow2(2) == 4;
    assert Pow2(4) == 16;
    assert Pow2(6) == 64;
  }

  /** A position in the buffer does not change when the counter wraps around. */
  lemma WrapKeepsOffset(x: nat, k: nat)
    requires k <= 64
    ensures Wrap(x) % Pow2(k) == x % Pow2(k)
  {
    Pow64();
    PowSplit(64 - k, k);
    DivModIs(x, TWO_TO_THE_64);
    ModMod(x, Pow2(64 - k), Pow2(k), TWO_TO_THE_64, x / TWO_TO_THE_64, x % TWO_TO_THE_64);
  }

  /** What a 64-bit counter holds after counting to `x`. */
  function Wrap(x: nat): nat {
    x % TWO_TO_THE_64
  }

  /** Unsigned 64-bit difference of two counters. */
  function Gap(head: nat, tail: nat): nat {
    (head - tail) % TWO_TO_THE_64
  }

  /** The distance of two counters survives wrapping while it is below 2^64. */
  lemma WrapKeepsDistance(head: nat, tail: nat)
    requires tail <= head < tail + TWO_TO_THE_64
    ensures Gap(Wrap(head), Wrap(tail)) == head - tail
  {
  }

  /** Counting on from a wrapped counter. */
  lemma WrapAdvance(x: nat, n: nat)
    ensures Wrap(Wrap(x) + n) == Wrap(x + n)
  {
  }
}
