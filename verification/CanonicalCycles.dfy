/** The normal form of a cycle, the order in which cycles are reported, and the
    removal of duplicates. */
module CanonicalCycles {
  import opened Locks
  import opened CycleSearch

  // ------------------------------------------------------------------- rotation

  /** The order of locks in a report: by address, then by generation. */
  predicate IdLess(a: LockId, b: LockId) {
    a.addr < b.addr || (a.addr == b.addr && a.gen < b.gen)
  }

  function Rotate<T>(s: seq<T>, k: nat): (r: seq<T>)
    requires k <= |s|
    ensures |r| == |s|
    ensures forall i | 0 <= i < |s| :: r[i] == s[if i + k < |s| then i + k else i + k - |s|]
  {
    s[k..] + s[..k]
  }

  /** `m` is the first position of the least node. */
  ghost predicate LeastAt(c: seq<LockId>, m: nat) {
    && m < |c|
    && (forall i | 0 <= i < m :: IdLess(c[m], c[i]))
    && (forall i | m < i < |c| :: !IdLess(c[i], c[m]))
  }

  /** The cycle is written from its least node on. */
  ghost predicate IsCanonical(c: seq<LockId>) {
    c != [] && forall i | 0 < i < |c| :: IdLess(c[0], c[i])
  }

  ghost function Starts(cy: Cycle): (c: seq<LockId>)
    ensures |c| == |cy| && forall i | 0 <= i < |c| :: c[i] == cy[i].frm
  {
    seq(|cy|, i requires 0 <= i < |cy| => cy[i].frm)
  }

  method Canon(cy: Cycle) returns (r: Cycle, ghost m: nat)
    ensures cy == [] ==> r == []
    ensures cy != [] ==> LeastAt(Starts(cy), m) && r == Rotate(cy, m)
    ensures cy != [] ==>
              |r| == |cy| && forall i | 0 <= i < |cy| ::
                var a, b := r[0].frm, cy[i].frm;
                a.addr < b.addr || (a.addr == b.addr && a.gen <= b.gen)
  {
    hide LeastAt, IdLess;
    if cy == [] { return cy, 0; }
    var mi: nat := 0;
    var best := cy[0].frm;
    var i: nat := 1;
    LeastOfOne(Starts(cy));
    while i < |cy|
      invariant 0 < i <= |cy| && mi < i && best == cy[mi].frm && LeastAt(Starts(cy)[..i], mi)
    {
      var cur := cy[i].frm;
      LeastStep(Starts(cy), i, mi);
      if IdLess(cur, best) {
        best := cur;
        mi := i;
      }
      i := i + 1;
    }
    assert Starts(cy)[..|cy|] == Starts(cy);
    r, m := cy, mi;
    if mi != 0 { r := cy[mi..] + cy[..mi]; }
    NoRotation(cy);
    LeastIsBelow(Starts(cy), m);
    assert r[0] == cy[m];
  }

  lemma LeastIsBelow(c: seq<LockId>, m: nat)
    requires LeastAt(c, m)
    ensures forall i | 0 <= i < |c| :: c[m].addr < c[i].addr || (c[m].addr == c[i].addr && c[m].gen <= c[i].gen)
  {
  }

  lemma LeastOfOne(c: seq<LockId>)
    requires c != []
    ensures LeastAt(c[..1], 0)
  {
  }

  lemma NoRotation(cy: Cycle)
    ensures Rotate(cy, 0) == cy
  {
  }

  /** The first least position of one more node. */
  lemma LeastStep(c: seq<LockId>, i: nat, m: nat)
    requires 0 < i < |c| && LeastAt(c[..i], m)
    ensures LeastAt(c[..i + 1], if IdLess(c[i], c[m]) then i else m)
  {
    var longer := c[..i + 1];
    forall j | 0 <= j < i ensures longer[j] == c[..i][j] { }
    if IdLess(c[i], c[m]) {
      forall j | 0 <= j < i ensures IdLess(longer[i], longer[j]) {
        assert j < m ==> IdLess(c[..i][m], c[..i][j]);
        assert j > m ==> !IdLess(c[..i][j], c[..i][m]);
      }
    }
  }

  lemma RotateIsCanonical(c: seq<LockId>, m: nat)
    requires Distinct(c) && LeastAt(c, m)
    ensures IsCanonical(Rotate(c, m)) && Distinct(Rotate(c, m))
  {
    var r := Rotate(c, m);
    forall i | 0 < i < |r| ensures IdLess(r[0], r[i]) {
      var j := if i + m < |c| then i + m else i + m - |c|;
      assert r[i] == c[j] && j != m && c[j] != c[m];
    }
    forall i, j | 0 <= i < j < |r| ensures r[i] != r[j] {
      assert r[i] == c[if i + m < |c| then i + m else i + m - |c|];
      assert r[j] == c[if j + m < |c| then j + m else j + m - |c|];
    }
  }

  /** A cycle has one canonical rotation only. */
  lemma CanonicalRotationUnique(c: seq<LockId>, m: nat, n: nat)
    requires m < |c| && n < |c| && IsCanonical(Rotate(c, m)) && IsCanonical(Rotate(c, n))
    ensures m == n
  {
    var a, b := Rotate(c, m), Rotate(c, n);
    var i := if n >= m then n - m else n - m + |c|;
    var j := if m >= n then m - n else m - n + |c|;
    assert a[0] == c[m] && a[i] == c[n] && b[0] == c[n] && b[j] == c[m];
  }

  lemma LeastExists(c: seq<LockId>) returns (m: nat)
    requires c != []
    ensures LeastAt(c, m)
  {
    m := 0;
    var i: nat := 1;
    while i < |c|
      invariant i <= |c| && LeastAt(c[..i], m)
    {
      if i > 0 { LeastStep(c, i, m); }
      if IdLess(c[i], c[m]) { m := i; }
      i := i + 1;
    }
    assert c[..|c|] == c;
  }

  /** Rotating a cycle rotates its edges. */
  lemma RotateCycle(edges: Edges, c: seq<LockId>, m: nat)
    requires m < |c|
    ensures Rotate(CycleOf(edges, c), m) == CycleOf(edges, Rotate(c, m))
    ensures Starts(CycleOf(edges, c)) == c
    ensures AllEdges(edges, c) ==> AllEdges(edges, Rotate(c, m))
  {
    var r := Rotate(c, m);
    forall i: nat | i < |c|
      ensures var j := if i + m < |c| then i + m else i + m - |c|; NextNode(r, i) == NextNode(c, j) {
    }
  }

  // ------------------------------------------------------------------ the order

  /** Lexicographic order on tuples of numbers. */
  predicate LexLess(a: seq<int>, b: seq<int>) {
    if b == [] then false
    else if a == [] then true
    else if a[0] != b[0] then a[0] < b[0]
    else LexLess(a[1..], b[1..])
  }

  lemma {:induction false} LexTotal(a: seq<int>, b: seq<int>)
    ensures LexLess(a, b) || LexLess(b, a) || a == b
    ensures !(LexLess(a, b) && LexLess(b, a))
  {
    if a != [] && b != [] && a[0] == b[0] {
      LexTotal(a[1..], b[1..]);
      assert a == [a[0]] + a[1..] && b == [b[0]] + b[1..];
    }
  }

  lemma {:induction false} LexTransitive(a: seq<int>, b: seq<int>, c: seq<int>)
    requires LexLess(a, b) && LexLess(b, c)
    ensures LexLess(a, c)
  {
    if a != [] && a[0] == b[0] == c[0] { LexTransitive(a[1..], b[1..], c[1..]); }
  }

  function EdgeNumbers(cy: Cycle): (k: seq<int>)
    ensures |k| == 4 * |cy|
  {
    if cy == [] then []
    else
      var e := cy[|cy| - 1];
      EdgeNumbers(cy[..|cy| - 1]) + [e.frm.addr, e.frm.gen, e.to.addr, e.to.gen]
  }

  lemma {:induction false} NumbersAt(cy: Cycle, i: nat)
    requires i < |cy|
    ensures var k := EdgeNumbers(cy);
            && k[4 * i] == cy[i].frm.addr && k[4 * i + 1] == cy[i].frm.gen
            && k[4 * i + 2] == cy[i].to.addr && k[4 * i + 3] == cy[i].to.gen
  {
    if i < |cy| - 1 { NumbersAt(cy[..|cy| - 1], i); }
  }

  /** Cycles are ordered by length, then by the numbers of their edges. */
  function KeyOf(cy: Cycle): seq<int> {
    [|cy|] + EdgeNumbers(cy)
  }

  /** Shorter cycles come first in the report. */
  lemma ShorterFirst(x: Cycle, y: Cycle)
    requires |x| < |y|
    ensures LexLess(KeyOf(x), KeyOf(y))
  {
  }

  /** One edge comes before another: by address and generation of the lock it leads from,
      then of the lock it leads to. */
  predicate EdgeBefore(d: CycleEdge, e: CycleEdge) {
    || d.frm.addr < e.frm.addr
    || (d.frm.addr == e.frm.addr && d.frm.gen < e.frm.gen)
    || (d.frm == e.frm && d.to.addr < e.to.addr)
    || (d.frm == e.frm && d.to.addr == e.to.addr && d.to.gen < e.to.gen)
  }

  /** Equally long cycles are ordered by the first edge in which they differ. */
  lemma FirstDifferenceDecides(x: Cycle, y: Cycle, k: nat)
    requires |x| == |y| && k < |x| && EdgeBefore(x[k], y[k])
    requires forall j | 0 <= j < k :: x[j].frm == y[j].frm && x[j].to == y[j].to
    ensures LexLess(KeyOf(x), KeyOf(y))
  {
    hide EdgeNumbers, LexLess;
    var a, b := EdgeNumbers(x), EdgeNumbers(y);
    forall i: nat | i < 4 * k ensures a[i] == b[i] { SameNumber(x, y, i / 4, i % 4); }
    var n := if x[k].frm.addr != y[k].frm.addr then 0
             else if x[k].frm.gen != y[k].frm.gen then 1
             else if x[k].to.addr != y[k].to.addr then 2
             else 3;
    NumbersAt(x, k);
    NumbersAt(y, k);
    LexAt(a, b, 4 * k + n);
    LexSameFirst(|x|, a, b);
  }

  lemma SameNumber(x: Cycle, y: Cycle, j: nat, n: nat)
    requires |x| == |y| && j < |x| && x[j].frm == y[j].frm && x[j].to == y[j].to && n < 4
    ensures EdgeNumbers(x)[4 * j + n] == EdgeNumbers(y)[4 * j + n]
  {
    hide EdgeNumbers;
    NumbersAt(x, j);
    NumbersAt(y, j);
  }

  lemma LexSameFirst(n: int, a: seq<int>, b: seq<int>)
    requires LexLess(a, b)
    ensures LexLess([n] + a, [n] + b)
  {
    assert ([n] + a)[1..] == a && ([n] + b)[1..] == b;
  }

  lemma {:induction false} LexAt(a: seq<int>, b: seq<int>, n: nat)
    requires n < |a| && n < |b| && a[n] < b[n] && forall i | 0 <= i < n :: a[i] == b[i]
    ensures LexLess(a, b)
  {
    if n > 0 {
      assert a[0] == b[0];
      LexAt(a[1..], b[1..], n - 1);
    }
  }

  /** Equal keys mean equal cycles. */
  lemma KeyDetermines(edges: Edges, c: seq<LockId>, d: seq<LockId>)
    requires KeyOf(CycleOf(edges, c)) == KeyOf(CycleOf(edges, d))
    ensures c == d
  {
    var x, y := CycleOf(edges, c), CycleOf(edges, d);
    assert |c| == |x| == KeyOf(x)[0] == KeyOf(y)[0] == |y| == |d|;
    assert EdgeNumbers(x) == KeyOf(x)[1..] == KeyOf(y)[1..] == EdgeNumbers(y);
    forall i | 0 <= i < |c| ensures c[i] == d[i] {
      NumbersAt(x, i);
      NumbersAt(y, i);
    }
  }

  ghost predicate Sorted(cs: seq<Cycle>) {
    forall i, j | 0 <= i < j < |cs| :: !LexLess(KeyOf(cs[j]), KeyOf(cs[i]))
  }

  ghost predicate StrictlySorted(cs: seq<Cycle>) {
    forall i, j | 0 <= i < j < |cs| :: LexLess(KeyOf(cs[i]), KeyOf(cs[j]))
  }

  lemma NotLessThanLast(cs: seq<Cycle>, cy: Cycle, j: nat)
    requires Sorted(cs) && j < |cs| && !LexLess(KeyOf(cy), KeyOf(cs[|cs| - 1]))
    ensures !LexLess(KeyOf(cy), KeyOf(cs[j]))
  {
    var last := KeyOf(cs[|cs| - 1]);
    if j < |cs| - 1 && LexLess(KeyOf(cy), KeyOf(cs[j])) {
      LexTotal(KeyOf(cs[j]), last);
      if KeyOf(cs[j]) != last { LexTransitive(KeyOf(cy), KeyOf(cs[j]), last); }
    }
  }

  lemma InsertSorted(a: seq<Cycle>, cy: Cycle, b: seq<Cycle>)
    requires Sorted(a + b)
    requires forall j | 0 <= j < |a| :: !LexLess(KeyOf(cy), KeyOf(a[j]))
    requires forall j | 0 <= j < |b| :: LexLess(KeyOf(cy), KeyOf(b[j]))
    ensures Sorted(a + [cy] + b)
  {
    hide LexLess, KeyOf;
    var cs, r := a + b, a + [cy] + b;
    forall i, j | 0 <= i < j < |r| ensures !LexLess(KeyOf(r[j]), KeyOf(r[i])) {
      var x := if i < |a| then i else i - 1;
      var y := if j < |a| then j else j - 1;
      if i == |a| {
        LexTotal(KeyOf(cy), KeyOf(b[j - |a| - 1]));
      } else if j != |a| {
        assert r[i] == cs[x] && r[j] == cs[y];
      }
    }
  }

  method Insert(cs: seq<Cycle>, cy: Cycle) returns (r: seq<Cycle>)
    requires Sorted(cs)
    ensures Sorted(r) && multiset(r) == multiset(cs) + multiset{cy}
  {
    hide LexLess, KeyOf;
    var i: nat := |cs|;
    while i > 0 && LexLess(KeyOf(cy), KeyOf(cs[i - 1]))
      invariant i <= |cs| && forall j | i <= j < |cs| :: LexLess(KeyOf(cy), KeyOf(cs[j]))
    {
      i := i - 1;
    }
    r := cs[..i] + [cy] + cs[i..];
    assert cs == cs[..i] + cs[i..];
    forall j | 0 <= j < i ensures !LexLess(KeyOf(cy), KeyOf(cs[..i][j])) { NotLessThanLast(cs[..i], cy, j); }
    InsertSorted(cs[..i], cy, cs[i..]);
  }

  /** The library's sort: an ordered rearrangement. */
  method Sort(cs: seq<Cycle>) returns (r: seq<Cycle>)
    ensures Sorted(r) && multiset(r) == multiset(cs)
  {
    r := [];
    var i: nat := 0;
    while i < |cs|
      invariant i <= |cs| && Sorted(r) && multiset(r) == multiset(cs[..i])
    {
      r := Insert(r, cs[i]);
      assert cs[..i + 1] == cs[..i] + [cs[i]];
      i := i + 1;
    }
    assert cs[..|cs|] == cs;
  }

  ghost predicate HasKey(cs: seq<Cycle>, k: seq<int>) {
    exists cy | cy in cs :: KeyOf(cy) == k
  }

  lemma HasKeyGrows(cs: seq<Cycle>, cy: Cycle, k: seq<int>)
    requires HasKey(cs, k) || KeyOf(cy) == k
    ensures HasKey(cs + [cy], k)
  {
    hide KeyOf;
    if HasKey(cs, k) {
      var d :| d in cs && KeyOf(d) == k;
      assert d in cs + [cy];
    } else {
      assert cy in cs + [cy];
    }
  }

  lemma DedupStep(cs: seq<Cycle>, i: nat, r: seq<Cycle>)
    requires Sorted(cs) && i < |cs| && StrictlySorted(r) && r != [] && r[|r| - 1] in cs[..i]
    requires KeyOf(r[|r| - 1]) != KeyOf(cs[i])
    ensures StrictlySorted(r + [cs[i]])
  {
    hide LexLess, KeyOf;
    var last, k := KeyOf(r[|r| - 1]), KeyOf(cs[i]);
    LexTotal(last, k);
    forall j | 0 <= j < |r| ensures LexLess(KeyOf(r[j]), k) {
      if j < |r| - 1 { LexTransitive(KeyOf(r[j]), last, k); }
    }
  }

  /** Drops every cycle whose key is that of the cycle before it. */
  method Dedup(cs: seq<Cycle>) returns (r: seq<Cycle>)
    requires Sorted(cs)
    ensures StrictlySorted(r)
    ensures forall cy | cy in r :: cy in cs
    ensures forall cy | cy in cs :: HasKey(r, KeyOf(cy))
  {
    hide LexLess, KeyOf;
    r := [];
    var lastKey: Option<seq<int>> := None;
    var i: nat := 0;
    while i < |cs|
      invariant i <= |cs| && StrictlySorted(r) && (forall cy | cy in r :: cy in cs[..i])
      invariant lastKey == if r == [] then None else Some(KeyOf(r[|r| - 1]))
      invariant forall j | 0 <= j < i :: HasKey(r, KeyOf(cs[j]))
    {
      var k := KeyOf(cs[i]);
      if lastKey == Some(k) {
        assert r[|r| - 1] in r;
        assert HasKey(r, k);
      } else {
        if r != [] { DedupStep(cs, i, r); }
        forall j | 0 <= j <= i ensures HasKey(r + [cs[i]], KeyOf(cs[j])) { HasKeyGrows(r, cs[i], KeyOf(cs[j])); }
        r := r + [cs[i]];
        lastKey := Some(k);
      }
      i := i + 1;
    }
  }
}
