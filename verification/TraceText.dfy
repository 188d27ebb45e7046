/** The text of a trace: lines, tab-separated fields, and what the runtime prints. */
module TraceText {
  import opened BitMask
  import opened Digits
  import opened EventBytes

  // ------------------------------------------------------------- lines and fields

  /** A text without a line break or a tab. */
  predicate IsField(s: string) {
    forall i | 0 <= i < |s| :: s[i] != '\t' && s[i] != '\n' && s[i] != '\r'
  }

  predicate HasNoBreak(s: string) {
    forall i | 0 <= i < |s| :: s[i] != '\n' && s[i] != '\r'
  }

  /** The lines `readline` returns one after the other, each with its line end. */
  function Lines(text: string): seq<string> {
    if text == "" then [] else [FirstLine(text)] + Lines(text[|FirstLine(text)|..])
  }

  function FirstLine(text: string): (l: string)
    requires text != ""
    ensures 0 < |l| <= |text|
  {
    if text[0] == '\n' || |text| == 1 then text[..1] else [text[0]] + FirstLine(text[1..])
  }

  /** `rstrip("\r\n")` */
  function Chomp(s: string): string {
    if s != "" && (s[|s| - 1] == '\n' || s[|s| - 1] == '\r') then Chomp(s[..|s| - 1]) else s
  }

  /** `split("\t")` */
  function Split(s: string): (f: seq<string>)
    ensures f != []
  {
    if s == "" then [""]
    else if s[0] == '\t' then [""] + Split(s[1..])
    else var rest := Split(s[1..]); [[s[0]] + rest[0]] + rest[1..]
  }

  function Join(fields: seq<string>): string
    requires fields != []
  {
    if |fields| == 1 then fields[0] else fields[0] + "\t" + Join(fields[1..])
  }

  ghost predicate AllFields(fields: seq<string>) {
    forall i | 0 <= i < |fields| :: IsField(fields[i])
  }

  /** A line made of fields. */
  function Line(fields: seq<string>): string
    requires fields != []
  {
    Join(fields) + "\n"
  }

  lemma {:induction false} SplitOne(s: string)
    requires IsField(s)
    ensures Split(s) == [s]
  {
    if s != "" {
      SplitOne(s[1..]);
      assert [s[0]] + s[1..] == s;
    }
  }

  lemma {:induction false} SplitFirst(a: string, b: string)
    requires IsField(a)
    ensures Split(a + "\t" + b) == [a] + Split(b)
  {
    var s := a + "\t" + b;
    if a == "" {
      assert s[0] == '\t' && s[1..] == b;
    } else {
      SplitFirst(a[1..], b);
      assert s[1..] == a[1..] + "\t" + b && s[0] == a[0];
      assert [a[0]] + a[1..] == a;
    }
  }

  /** Joining what was split gives back the text. */
  lemma {:induction false} JoinSplit(s: string)
    ensures Join(Split(s)) == s
  {
    if s != "" {
      var rest := Split(s[1..]);
      JoinSplit(s[1..]);
      assert s == [s[0]] + s[1..];
      if s[0] == '\t' {
        assert ([""] + rest)[1..] == rest;
      } else {
        JoinGrows(s[0], rest);
      }
    }
  }

  lemma JoinGrows(c: char, f: seq<string>)
    requires f != []
    ensures Join([[c] + f[0]] + f[1..]) == [c] + Join(f)
  {
    var g := [[c] + f[0]] + f[1..];
    if |f| > 1 {
      assert g[1..] == f[1..];
      assert ([c] + f[0]) + "\t" + Join(f[1..]) == [c] + (f[0] + "\t" + Join(f[1..]));
    }
  }

  lemma {:induction false} SplitJoin(fields: seq<string>)
    requires fields != [] && AllFields(fields)
    ensures Split(Join(fields)) == fields
  {
    hide Split, IsField;
    if |fields| == 1 {
      SplitOne(fields[0]);
    } else {
      SplitFirst(fields[0], Join(fields[1..]));
      SplitJoin(fields[1..]);
    }
  }

  lemma {:induction false} JoinHasNoBreak(fields: seq<string>)
    requires fields != [] && AllFields(fields)
    ensures HasNoBreak(Join(fields))
  {
    if |fields| > 1 { JoinHasNoBreak(fields[1..]); }
  }

  lemma ChompLine(s: string)
    requires HasNoBreak(s)
    ensures Chomp(s + "\n") == s
  {
    var t := s + "\n";
    assert t[..|t| - 1] == s;
  }

  lemma {:induction false} FirstLineIs(s: string, rest: string)
    requires HasNoBreak(s)
    ensures FirstLine(s + "\n" + rest) == s + "\n"
  {
    var t := s + "\n" + rest;
    if s == "" {
      assert t[..1] == "\n";
    } else {
      assert t[1..] == s[1..] + "\n" + rest;
      FirstLineIs(s[1..], rest);
    }
  }

  lemma LinesOfLine(fields: seq<string>, rest: string)
    requires fields != [] && AllFields(fields)
    ensures Lines(Line(fields) + rest) == [Line(fields)] + Lines(rest)
  {
    hide Join, AllFields;
    JoinHasNoBreak(fields);
    var t := Line(fields) + rest;
    FirstLineIs(Join(fields), rest);
    assert t == Join(fields) + "\n" + rest;
    assert t[|Line(fields)|..] == rest;
  }

  /** A printed line gives back its fields. */
  lemma FieldsOfLine(fields: seq<string>)
    requires fields != [] && AllFields(fields)
    ensures Split(Chomp(Line(fields))) == fields
  {
    hide Join, AllFields, Chomp, Split;
    JoinHasNoBreak(fields);
    ChompLine(Join(fields));
    SplitJoin(fields);
  }

  // ------------------------------------------------------------------- printing

  /** `snprintf` into a buffer of `n` bytes, one of them for the terminator. */
  function Printf(n: nat, text: string): string
    requires n > 0
  {
    if |text| < n then text else text[..n - 1]
  }

  const LINE_BUFFER := 128

  function EventFields(e: Raw): (f: seq<string>)
    ensures |f| == 8
  {
    ["E", NatText(e.ts, 10), NatText(e.tid, 10), NatText(e.op, 10), NatText(e.kind, 10), HexText(e.addr), IntText(e.rc),
     NatText(|e.pcs|, 10)]
  }

  function FrameFields(pc: nat): (f: seq<string>)
    ensures |f| == 2
  {
    ["F", HexText(pc)]
  }

  function FrameLines(pcs: seq<nat>): string {
    if pcs == [] then "" else Printf(LINE_BUFFER, Line(FrameFields(pcs[0]))) + FrameLines(pcs[1..])
  }

  /** What the backend writes for one event. */
  function EventText(e: Raw): string {
    Printf(LINE_BUFFER, Line(EventFields(e))) + FrameLines(e.pcs)
  }

  function EventTexts(es: seq<Raw>): string {
    if es == [] then "" else EventText(es[0]) + EventTexts(es[1..])
  }

  /** A loaded module; an empty path is written as a dash. */
  datatype Module = Module(idx: int, base: int, size: int, buildId: string, path: string)

  predicate ModuleFits(m: Module) {
    0 <= m.base && 0 <= m.size && IsField(m.buildId) && IsField(m.path)
  }

  function Shown(path: string): string {
    if path == "" then "-" else path
  }

  function ModuleFields(m: Module): (f: seq<string>)
    requires ModuleFits(m)
    ensures |f| == 6
  {
    ["M", IntText(m.idx), HexText(m.base), HexText(m.size), m.buildId, Shown(m.path)]
  }

  predicate ModulesFit(ms: seq<Module>) {
    forall i | 0 <= i < |ms| :: ModuleFits(ms[i])
  }

  function ModuleLines(ms: seq<Module>): string
    requires ModulesFit(ms)
  {
    if ms == [] then "" else Line(ModuleFields(ms[0])) + ModuleLines(ms[1..])
  }

  function HeaderFields(pid: int): (f: seq<string>)
    ensures |f| == 4
  {
    ["HEADER", "DEADLOCK_EVENTS", "v3", "pid=" + IntText(pid)]
  }

  /** The whole trace. */
  function TraceOf(pid: int, ms: seq<Module>, es: seq<Raw>): string
    requires ModulesFit(ms)
  {
    Line(HeaderFields(pid)) + ModuleLines(ms) + EventTexts(es)
  }

  // ---------------------------------------------------------------- printed fields

  lemma NatTextIsField(n: nat, base: Base)
    ensures IsField(NatText(n, base))
  {
    hide DigitChar, NatText;
    NatTextDigits(n, base);
    var s := NatText(n, base);
    forall i | 0 <= i < |s| ensures s[i] != '\t' && s[i] != '\n' && s[i] != '\r' {
      assert exists d: nat | d < base :: s[i] == DigitChar(d);
    }
  }

  lemma NumbersAreFields(n: nat, i: int)
    ensures IsField(NatText(n, 10)) && IsField(HexText(n)) && IsField(IntText(i))
  {
    hide NatText;
    NatTextIsField(n, 10);
    NatTextIsField(n, 16);
    if i < 0 { NatTextIsField(-i, 10); } else { NatTextIsField(i, 10); }
  }

  lemma EventFieldsAreFields(e: Raw)
    ensures AllFields(EventFields(e))
  {
    hide NatText, HexText, IntText, IsField;
    NumbersAreFields(e.ts, e.rc);
    NumbersAreFields(e.tid, 0);
    NumbersAreFields(e.op, 0);
    NumbersAreFields(e.kind, 0);
    NumbersAreFields(e.addr, 0);
    NumbersAreFields(|e.pcs|, 0);
    LettersAreFields();
  }

  lemma LettersAreFields()
    ensures IsField("E") && IsField("F") && IsField("M") && IsField("HEADER") && IsField("DEADLOCK_EVENTS")
    ensures IsField("v3")
  {
  }

  lemma FrameFieldsAreFields(pc: nat)
    ensures AllFields(FrameFields(pc))
  {
    hide NatText, HexText, IntText, IsField;
    NumbersAreFields(pc, 0);
    LettersAreFields();
  }

  lemma ModuleFieldsAreFields(m: Module)
    requires ModuleFits(m)
    ensures AllFields(ModuleFields(m))
  {
    hide NatText, HexText, IntText;
    NumbersAreFields(m.base, m.idx);
    NumbersAreFields(m.size, 0);
  }

  lemma HeaderFieldsAreFields(pid: int)
    ensures AllFields(HeaderFields(pid))
  {
    hide NatText, HexText, IntText;
    NumbersAreFields(0, pid);
    LettersAreFields();
  }

  // ---------------------------------------------------------- the lines, spelt out

  lemma JoinTwo(a: string, b: string)
    ensures Join([a, b]) == a + "\t" + b
  {
    assert [a, b][1..] == [b];
  }

  lemma JoinFour(a: string, b: string, c: string, d: string)
    ensures Join([a, b, c, d]) == a + "\t" + (b + "\t" + (c + "\t" + d))
  {
    hide Join;
    JoinTwo(c, d);
    JoinTwoMore(a, b, [c, d]);
    assert [a, b, c, d] == [a, b] + [c, d];
  }

  lemma JoinTwoMore(a: string, b: string, rest: seq<string>)
    requires rest != []
    ensures Join([a, b] + rest) == a + "\t" + (b + "\t" + Join(rest))
  {
    var f := [a, b] + rest;
    assert f[1..] == [b] + rest && f[1..][1..] == rest;
  }

  /** An event's line and those of its frames. */
  lemma EventLineIs(e: Raw, pc: nat)
    ensures Line(EventFields(e)) ==
              "E\t" + (NatText(e.ts, 10) + "\t" + (NatText(e.tid, 10) + "\t" + (NatText(e.op, 10) + "\t" +
              (NatText(e.kind, 10) + "\t" + ("0x" + NatText(e.addr, 16) + "\t" + (IntText(e.rc) + "\t" +
              NatText(|e.pcs|, 10))))))) + "\n"
    ensures Line(FrameFields(pc)) == "F\t" + ("0x" + NatText(pc, 16)) + "\n"
  {
    hide Join, NatText, IntText;
    var f := EventFields(e);
    JoinFour(f[4], f[5], f[6], f[7]);
    JoinTwoMore(f[2], f[3], [f[4], f[5], f[6], f[7]]);
    JoinTwoMore(f[0], f[1], [f[2], f[3]] + [f[4], f[5], f[6], f[7]]);
    assert f == [f[0], f[1]] + ([f[2], f[3]] + [f[4], f[5], f[6], f[7]]);
    JoinTwo("F", HexText(pc));
  }

  /** A module's line and the header. */
  lemma ModuleLineIs(m: Module, pid: int)
    requires ModuleFits(m)
    ensures Line(ModuleFields(m)) ==
              "M\t" + (IntText(m.idx) + "\t" + ("0x" + NatText(m.base, 16) + "\t" + ("0x" + NatText(m.size, 16) + "\t" +
              (m.buildId + "\t" + if m.path == "" then "-" else m.path)))) + "\n"
    ensures Line(HeaderFields(pid)) == "HEADER\t" + ("DEADLOCK_EVENTS\t" + ("v3\t" + ("pid=" + IntText(pid)))) + "\n"
  {
    hide Join, NatText, IntText, ModuleFits;
    var f, g := ModuleFields(m), HeaderFields(pid);
    JoinFour(f[2], f[3], f[4], f[5]);
    JoinTwoMore(f[0], f[1], [f[2], f[3], f[4], f[5]]);
    assert f == [f[0], f[1]] + [f[2], f[3], f[4], f[5]];
    JoinFour(g[0], g[1], g[2], g[3]);
  }

  // -------------------------------------------------------------- no line is cut off

  lemma WordLength(n: nat)
    requires n < TWO_TO_THE_64
    ensures |NatText(n, 10)| <= 20 && |HexText(n)| <= 18
  {
    hide NatText;
    PowersAre();
    NatTextLength(n, 10, 20);
    NatTextLength(n, 16, 16);
  }

  lemma PowersAre()
    ensures Power(10, 20) == 100_000_000_000_000_000_000 && Power(16, 16) == TWO_TO_THE_64
    ensures Power(10, 3) == 1000 && Power(10, 5) == 100_000 && Power(10, 19) == 10_000_000_000_000_000_000
  {
    assert Power(10, 4) == 10_000;
    assert Power(10, 8) == 100_000_000;
    assert Power(10, 12) == 1_000_000_000_000;
    assert Power(10, 16) == 10_000_000_000_000_000;
    assert Power(10, 19) == 10_000_000_000_000_000_000;
    assert Power(16, 4) == 0x1_0000;
    assert Power(16, 8) == 0x1_0000_0000;
    assert Power(16, 12) == 0x1_0000_0000_0000;
  }

  lemma SmallLength(n: nat)
    ensures n < 256 ==> |NatText(n, 10)| <= 3
    ensures n < 0x1_0000 ==> |NatText(n, 10)| <= 5
  {
    hide NatText;
    PowersAre();
    if n < 256 { NatTextLength(n, 10, 3); }
    if n < 0x1_0000 { NatTextLength(n, 10, 5); }
  }

  lemma SignedLength(i: int)
    requires -TWO_TO_THE_63 <= i < TWO_TO_THE_63
    ensures |IntText(i)| <= 20
  {
    hide NatText;
    PowersAre();
    if i < 0 { NatTextLength(-i, 10, 19); } else { NatTextLength(i, 10, 19); }
  }

  lemma JoinTail(fields: seq<string>, k: nat)
    requires k < |fields|
    ensures |Join(fields[k..])| == |fields[k]| + if k + 1 == |fields| then 0 else 1 + |Join(fields[k + 1..])|
  {
    assert k + 1 < |fields| ==> fields[k..][1..] == fields[k + 1..];
  }

  /** No E line and no F line is longer than the buffer it is formatted in. */
  lemma NoLineIsCut(e: Raw)
    requires FieldsFit(e)
    ensures |Line(EventFields(e))| <= 98 < LINE_BUFFER
    ensures Printf(LINE_BUFFER, Line(EventFields(e))) == Line(EventFields(e))
    ensures forall i | 0 <= i < |e.pcs| ::
              Printf(LINE_BUFFER, Line(FrameFields(e.pcs[i]))) == Line(FrameFields(e.pcs[i]))
  {
    hide NatText, HexText, IntText, Join;
    var f := EventFields(e);
    WordLength(e.ts);
    WordLength(e.tid);
    WordLength(e.addr);
    SmallLength(e.op);
    SmallLength(e.kind);
    SmallLength(|e.pcs|);
    SignedLength(e.rc);
    assert f[0..] == f;
    JoinTail(f, 0);
    JoinTail(f, 1);
    JoinTail(f, 2);
    JoinTail(f, 3);
    JoinTail(f, 4);
    JoinTail(f, 5);
    JoinTail(f, 6);
    JoinTail(f, 7);
    forall i | 0 <= i < |e.pcs|
      ensures Printf(LINE_BUFFER, Line(FrameFields(e.pcs[i]))) == Line(FrameFields(e.pcs[i]))
    {
      FrameLineLength(e.pcs[i]);
    }
  }

  lemma FrameLineLength(pc: nat)
    requires pc < TWO_TO_THE_64
    ensures |Line(FrameFields(pc))| <= 21
  {
    hide NatText, HexText, IntText;
    WordLength(pc);
    var f := FrameFields(pc);
    assert f[0..] == f;
    JoinTail(f, 0);
    JoinTail(f, 1);
  }
}
