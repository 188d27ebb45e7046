/** Reading a trace back: the line loop of the analyzer. */
module TraceReader {
  import opened Locks
  import opened Events
  import opened Digits
  import opened TraceText

  datatype Trace = Trace(pid: int, modules: seq<Module>, events: seq<Event>)

  // --------------------------------------------------------------------- one line

  const OPS: seq<EvOp> :=
    [INIT, DESTROY, LOCK_PRE, LOCK_POST, TRYLOCK_PRE, TRYLOCK_POST, TIMEDLOCK_PRE, TIMEDLOCK_POST, UNLOCK,
     RDLOCK_PRE, RDLOCK_POST, TRYRDLOCK_PRE, TRYRDLOCK_POST, TIMEDRDLOCK_PRE, TIMEDRDLOCK_POST,
     WRLOCK_PRE, WRLOCK_POST, TRYWRLOCK_PRE, TRYWRLOCK_POST, TIMEDWRLOCK_PRE, TIMEDWRLOCK_POST,
     COND_WAIT_PRE, COND_WAIT_POST, COND_TIMEDWAIT_PRE, COND_TIMEDWAIT_POST]

  const KINDS: seq<EvKind> := [MUTEX, RWLOCK, SPIN, COND]

  /** The operation codes count from 1. */
  function OpOf(n: int): Option<EvOp> {
    if 1 <= n <= |OPS| then Some(OPS[n - 1]) else None
  }

  function KindOf(n: int): Option<EvKind> {
    if 1 <= n <= |KINDS| then Some(KINDS[n - 1]) else None
  }

  predicate Blank(s: string) {
    forall i | 0 <= i < |s| :: IsSpace(s[i])
  }

  /** What one line of the body means: a module, an event with the number of frame
      lines that belong to it, or nothing. */
  datatype Item = Nothing | Mod(m: Module) | Ev(e: Event, frames: int)

  function ModuleItem(p: seq<string>): Item {
    if |p| < 6 then Nothing
    else
      match (PyInt(p[1], 10), ParseHex(p[2]), ParseHex(p[3]))
      case (Some(idx), Some(base), Some(size)) => Mod(Module(idx, base, size, p[4], p[5]))
      case _ => Nothing
  }

  function ReadOp(s: string): Option<EvOp> {
    match PyInt(s, 10)
    case None => None
    case Some(n) => OpOf(n)
  }

  function ReadKind(s: string): Option<EvKind> {
    match PyInt(s, 10)
    case None => None
    case Some(n) => KindOf(n)
  }

  function EventItem(p: seq<string>): Item {
    if |p| < 8 then Nothing
    else
      var rc := match PyInt(p[6], 10) case None => 0 case Some(n) => n;
      match (PyInt(p[1], 10), PyInt(p[2], 10), ReadOp(p[3]))
      case (Some(ts), Some(tid), Some(op)) =>
        (match (ReadKind(p[4]), ParseHex(p[5]), PyInt(p[7], 10))
         case (Some(kind), Some(addr), Some(nf)) => Ev(Event(ts, tid, op, kind, addr, rc, []), nf)
         case _ => Nothing)
      case _ => Nothing
  }

  function ItemOf(line: string): Item {
    if Blank(line) then Nothing
    else
      var p := Split(Chomp(line));
      if p[0] == "M" then ModuleItem(p) else if p[0] == "E" then EventItem(p) else Nothing
  }

  /** The program counter on a frame line: nothing if it is not one, and no counter if
      it is damaged. */
  function FrameOf(line: string): Option<Option<int>> {
    var p := Split(Chomp(line));
    if |p| < 2 || p[0] != "F" then None else Some(ParseHex(p[1]))
  }

  // --------------------------------------------------------------------- the lines

  /** Reads up to `n` frame lines; a line that is not one ends the list and is used up. */
  function ReadFrames(lines: seq<string>, n: int): (r: (Bt, nat))
    ensures r.1 <= |lines|
    decreases |lines|
  {
    if n <= 0 || lines == [] then ([], 0)
    else
      match FrameOf(lines[0])
      case None => ([], 1)
      case Some(pc) =>
        var rest := ReadFrames(lines[1..], n - 1);
        ((match pc case None => [] case Some(x) => [x]) + rest.0, rest.1 + 1)
  }

  /** A line with the tag of a frame and at least one more field. */
  predicate IsFrameLine(line: string) {
    var p := Split(Chomp(line));
    |p| >= 2 && p[0] == "F"
  }

  /** The address on a frame line, if it can be read as one. */
  function AddressOf(line: string): Bt
    requires IsFrameLine(line)
  {
    match ParseHex(Split(Chomp(line))[1])
    case None => []
    case Some(pc) => [pc]
  }

  /** The addresses on frame lines; a damaged one is passed over. */
  function Addresses(lines: seq<string>): Bt
    requires forall i | 0 <= i < |lines| :: IsFrameLine(lines[i])
  {
    if lines == [] then []
    else
      assert IsFrameLine(lines[0]);
      AddressOf(lines[0]) + Addresses(lines[1..])
  }

  /** An event gets the addresses on the frame lines right behind it, `n` at most; if
      another line comes too early, it is used up. */
  lemma {:induction false} FramesAre(lines: seq<string>, n: nat, k: nat)
    requires k <= n && k <= |lines| && forall i | 0 <= i < k :: IsFrameLine(lines[i])
    requires k < n && k < |lines| ==> !IsFrameLine(lines[k])
    ensures ReadFrames(lines, n) == (Addresses(lines[..k]), if k == n || k == |lines| then k else k + 1)
    decreases k
  {
    hide Chomp, Split, ParseHex;
    if k > 0 {
      FramesAre(lines[1..], n - 1, k - 1);
      assert lines[1..][..k - 1] == lines[..k][1..];
      assert IsFrameLine(lines[0]);
    }
  }

  function ReadBody(lines: seq<string>): (seq<Module>, seq<Event>)
    decreases |lines|
  {
    if lines == [] then ([], [])
    else
      match ItemOf(lines[0])
      case Nothing => ReadBody(lines[1..])
      case Mod(m) => var rest := ReadBody(lines[1..]); ([m] + rest.0, rest.1)
      case Ev(e, n) =>
        var frames := ReadFrames(lines[1..], n);
        var rest := ReadBody(lines[1..][frames.1..]);
        (rest.0, [e.(bt := frames.0)] + rest.1)
  }

  predicate StartsWith(s: string, prefix: string) {
    |prefix| <= |s| && s[..|prefix|] == prefix
  }

  function PidOf(parts: seq<string>): int {
    if parts == [] then 0
    else if StartsWith(parts[0], "pid=") then
      match PyInt(parts[0][4..], 10)
      case None => 0
      case Some(n) => n
    else PidOf(parts[1..])
  }

  predicate HeaderOk(parts: seq<string>) {
    |parts| >= 3 && parts[0] == "HEADER" && parts[1] == "DEADLOCK_EVENTS" && parts[2] == "v3"
  }

  /** What the analyzer makes of the lines of a file. */
  function ParseLines(lines: seq<string>): Option<Trace> {
    if lines == [] then None
    else
      var parts := Split(Chomp(lines[0]));
      if !HeaderOk(parts) then None
      else
        var body := ReadBody(lines[1..]);
        Some(Trace(PidOf(parts), SortByBase(body.0), body.1))
  }

  /** The beginning of a header: the first two fields, and `rest` behind them. */
  function HeaderText(rest: string): string {
    "HEADER" + "\t" + ("DEADLOCK_EVENTS" + "\t" + rest)
  }

  /** A file is accepted exactly if its first line, line end aside, is the v3 header or goes
      on behind it with a tab. */
  lemma AcceptsExactlyV3(lines: seq<string>)
    ensures ParseLines(lines).Some? <==> lines != [] && IsV3(Chomp(lines[0]))
  {
    hide Chomp, HeaderOk, IsV3, ReadBody, SortByBase, PidOf;
    if lines != [] { HeaderIsText(Chomp(lines[0])); }
  }

  ghost predicate IsV3(s: string) {
    s == HeaderText("v3") || exists rest :: s == HeaderText("v3" + "\t" + rest)
  }

  lemma HeaderIsText(s: string)
    ensures HeaderOk(Split(s)) <==> IsV3(s)
  {
    hide Split, Join, HeaderOk, HeaderText;
    if HeaderOk(Split(s)) {
      JoinSplit(s);
      JoinOfHeader(Split(s));
    }
    if s == HeaderText("v3") {
      SplitOfHeader("v3");
      SplitOne("v3");
      HeaderFieldsOk([]);
    } else if exists rest :: s == HeaderText("v3" + "\t" + rest) {
      var rest :| s == HeaderText("v3" + "\t" + rest);
      SplitOfHeader("v3" + "\t" + rest);
      SplitFirst("v3", rest);
      HeaderFieldsOk(Split(rest));
    }
  }

  lemma HeaderFieldsOk(more: seq<string>)
    ensures HeaderOk(["HEADER", "DEADLOCK_EVENTS"] + (["v3"] + more))
    ensures HeaderOk(["HEADER", "DEADLOCK_EVENTS"] + ["v3"])
  {
  }

  lemma SplitOfHeader(rest: string)
    ensures Split(HeaderText(rest)) == ["HEADER", "DEADLOCK_EVENTS"] + Split(rest)
  {
    hide Split;
    SplitFirst("HEADER", "DEADLOCK_EVENTS" + "\t" + rest);
    SplitFirst("DEADLOCK_EVENTS", rest);
  }

  lemma JoinOfHeader(parts: seq<string>)
    requires HeaderOk(parts)
    ensures IsV3(Join(parts))
  {
    hide Join;
    JoinTwoMore(parts[0], parts[1], parts[2..]);
    assert parts == [parts[0], parts[1]] + parts[2..];
    JoinHead(parts[2..]);
    if |parts| == 3 {
      assert Join(parts) == HeaderText("v3");
    } else {
      assert Join(parts) == HeaderText("v3" + "\t" + Join(parts[2..][1..]));
    }
  }

  lemma JoinHead(f: seq<string>)
    requires f != []
    ensures Join(f) == if |f| == 1 then f[0] else f[0] + "\t" + Join(f[1..])
  {
  }

  // ------------------------------------------------------------------- the sorting

  /** Puts a module behind those with a base that is not larger. */
  function InsertByBase(ms: seq<Module>, m: Module): seq<Module> {
    if ms != [] && ms[|ms| - 1].base > m.base then InsertByBase(ms[..|ms| - 1], m) + [ms[|ms| - 1]] else ms + [m]
  }

  function SortByBase(ms: seq<Module>): seq<Module> {
    if ms == [] then [] else InsertByBase(SortByBase(ms[..|ms| - 1]), ms[|ms| - 1])
  }

  ghost predicate Ascending(ms: seq<Module>) {
    forall i, j | 0 <= i < j < |ms| :: ms[i].base <= ms[j].base
  }

  /** The modules with a given base, in order. */
  ghost function WithBase(ms: seq<Module>, b: int): seq<Module> {
    if ms == [] then [] else WithBase(ms[..|ms| - 1], b) + if ms[|ms| - 1].base == b then [ms[|ms| - 1]] else []
  }

  lemma {:induction false} InsertKeeps(ms: seq<Module>, m: Module, b: int)
    requires Ascending(ms)
    ensures var r := InsertByBase(ms, m);
            && Ascending(r) && |r| == |ms| + 1
            && (forall i | 0 <= i < |r| :: r[i].base <= m.base || (ms != [] && r[i].base <= ms[|ms| - 1].base))
            && WithBase(r, b) == WithBase(ms, b) + if m.base == b then [m] else []
  {
    hide InsertByBase, WithBase;
    InsertIs(ms, m);
    if ms != [] && ms[|ms| - 1].base > m.base {
      var front, last := ms[..|ms| - 1], ms[|ms| - 1];
      InsertKeeps(front, m, b);
      WithBaseSnoc(InsertByBase(front, m), last, b);
      WithBaseSnoc(front, last, b);
      assert front + [last] == ms;
    } else {
      WithBaseSnoc(ms, m, b);
    }
  }

  lemma InsertIs(ms: seq<Module>, m: Module)
    ensures InsertByBase(ms, m) ==
              if ms != [] && ms[|ms| - 1].base > m.base then InsertByBase(ms[..|ms| - 1], m) + [ms[|ms| - 1]]
              else ms + [m]
  {
  }

  lemma WithBaseSnoc(ms: seq<Module>, m: Module, b: int)
    ensures WithBase(ms + [m], b) == WithBase(ms, b) + if m.base == b then [m] else []
  {
    assert (ms + [m])[..|ms|] == ms;
  }

  /** The sort is ascending and stable, and it keeps every module. */
  lemma {:induction false} SortIsStable(ms: seq<Module>, b: int)
    ensures Ascending(SortByBase(ms)) && |SortByBase(ms)| == |ms| && WithBase(SortByBase(ms), b) == WithBase(ms, b)
  {
    if ms != [] {
      SortIsStable(ms[..|ms| - 1], b);
      InsertKeeps(SortByBase(ms[..|ms| - 1]), ms[|ms| - 1], b);
    }
  }

  // --------------------------------------------------------------------- the loop

  /** `readline`: the next line, or the empty text at the end of the file. */
  function NextLine(lines: seq<string>, pos: nat): (r: (string, nat))
    requires pos <= |lines|
    ensures pos <= r.1 <= |lines|
  {
    if pos < |lines| then (lines[pos], pos + 1) else ("", pos)
  }

  lemma FramesAt(lines: seq<string>, pos: nat, n: int)
    requires pos < |lines| && n > 0
    ensures var rest := ReadFrames(lines[pos + 1..], n - 1);
            ReadFrames(lines[pos..], n) ==
              match FrameOf(lines[pos])
              case None => ([], 1)
              case Some(pc) => ((match pc case None => [] case Some(x) => [x]) + rest.0, rest.1 + 1)
  {
    hide FrameOf;
    assert lines[pos..][1..] == lines[pos + 1..] && lines[pos..][0] == lines[pos];
  }

  /** The frame lines of one event, from a position in the file on. */
  method ReadFrameLines(lines: seq<string>, start: nat, n: int) returns (bt: Bt, pos: nat)
    requires start <= |lines| && forall i | 0 <= i < |lines| :: lines[i] != ""
    ensures start <= pos <= |lines| && ReadFrames(lines[start..], n).0 == bt
    ensures ReadFrames(lines[start..], n).1 == pos - start
  {
    hide ReadFrames, FrameOf;
    bt, pos := [], start;
    ghost var whole := ReadFrames(lines[start..], n);
    var k := 0;
    while k < n
      invariant 0 <= k && start <= pos <= |lines|
      invariant k <= n || k == 0
      invariant var rest := ReadFrames(lines[pos..], n - k);
                whole.0 == bt + rest.0 && whole.1 == pos - start + rest.1
    {
      var next := NextLine(lines, pos);
      NoFrames(lines[pos..], n - k);
      if next.0 == "" { return; }
      FramesAt(lines, pos, n - k);
      var frame := FrameOf(next.0);
      pos := next.1;
      if frame == None { return; }
      if frame.value.Some? { bt := bt + [frame.value.value]; }
      k := k + 1;
    }
    NoFrames(lines[pos..], n - k);
  }

  lemma NoFrames(lines: seq<string>, n: int)
    ensures n <= 0 || lines == [] ==> ReadFrames(lines, n) == ([], 0)
  {
  }

  method FindPid(parts: seq<string>) returns (pid: int)
    ensures pid == PidOf(parts)
  {
    pid := 0;
    assert parts[0..] == parts;
    for i := 0 to |parts|
      invariant pid == 0 && PidOf(parts) == PidOf(parts[i..])
    {
      assert parts[i..][1..] == parts[i + 1..];
      if StartsWith(parts[i], "pid=") {
        var n := PyInt(parts[i][4..], 10);
        return if n.Some? then n.value else 0;
      }
    }
  }

  lemma BodyAt(lines: seq<string>, pos: nat)
    requires pos < |lines|
    ensures ReadBody(lines[pos..]) ==
            match ItemOf(lines[pos])
            case Nothing => ReadBody(lines[pos + 1..])
            case Mod(m) => var rest := ReadBody(lines[pos + 1..]); ([m] + rest.0, rest.1)
            case Ev(e, n) =>
              var frames := ReadFrames(lines[pos + 1..], n);
              var rest := ReadBody(lines[pos + 1 + frames.1..]);
              (rest.0, [e.(bt := frames.0)] + rest.1)
  {
    hide ItemOf, ReadFrames;
    assert lines[pos..][1..] == lines[pos + 1..] && lines[pos..][0] == lines[pos];
    if ItemOf(lines[pos]).Ev? {
      var frames := ReadFrames(lines[pos + 1..], ItemOf(lines[pos]).frames);
      assert lines[pos + 1..][frames.1..] == lines[pos + 1 + frames.1..];
    }
  }

  /** The analyzer's reading loop. */
  method ReadTrace(lines: seq<string>) returns (r: Option<Trace>)
    requires forall i | 0 <= i < |lines| :: lines[i] != ""
    ensures r == ParseLines(lines)
  {
    hide ReadBody, ReadFrames, ItemOf, HeaderOk, SortByBase, Chomp, Split, PidOf;
    var next := NextLine(lines, 0);
    if next.0 == "" { return None; }
    var parts := Split(Chomp(next.0));
    if !HeaderOk(parts) { return None; }
    var pid := FindPid(parts);
    var modules: seq<Module>, events: seq<Event> := [], [];
    var from := next.1;
    ghost var whole := ReadBody(lines[1..]);
    next := NextLine(lines, from);
    while next.0 != ""
      invariant from <= |lines| && next == NextLine(lines, from)
      invariant var rest := ReadBody(lines[from..]); whole.0 == modules + rest.0 && whole.1 == events + rest.1
      decreases |lines| - from
    {
      BodyAt(lines, from);
      from := next.1;
      match ItemOf(next.0) {
        case Nothing =>
        case Mod(m) => modules := modules + [m];
        case Ev(e, n) =>
          var bt;
          bt, from := ReadFrameLines(lines, from, n);
          events := events + [e.(bt := bt)];
      }
      next := NextLine(lines, from);
    }
    NoBody(lines[from..]);
    assert whole.0 == modules && whole.1 == events;
    r := Some(Trace(pid, SortByBase(modules), events));
  }

  lemma NoBody(lines: seq<string>)
    ensures lines == [] ==> ReadBody(lines) == ([], [])
  {
  }
}
