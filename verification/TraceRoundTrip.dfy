/** What the runtime prints, the analyzer reads back; and what it makes of a trace
    that stops early. */
module TraceRoundTrip {
  import opened Locks
  import opened BitMask
  import opened Events
  import opened Digits
  import opened EventBytes
  import opened TraceText
  import opened TraceReader
  import Replay
  import opened HeldLocks
  import opened Stamps

  /** The event carries codes the analyzer knows and fields of the right widths. */
  predicate Known(e: Raw) {
    FieldsFit(e) && OpOf(e.op).Some? && TraceReader.KindOf(e.kind).Some?
  }

  predicate AllKnown(es: seq<Raw>) {
    forall i | 0 <= i < |es| :: Known(es[i])
  }

  /** The event the analyzer is to see. */
  function EventOf(e: Raw): Event
    requires Known(e)
  {
    Event(e.ts, e.tid, OpOf(e.op).value, TraceReader.KindOf(e.kind).value, e.addr, e.rc, e.pcs)
  }

  function EventsOf(es: seq<Raw>): (r: seq<Event>)
    requires AllKnown(es)
    ensures |r| == |es| && forall i | 0 <= i < |es| :: r[i] == EventOf(es[i])
  {
    if es == [] then [] else [EventOf(es[0])] + EventsOf(es[1..])
  }

  // ------------------------------------------------------------------ typed events

  /** The analyzer takes a number for an operation exactly if the runtime uses it for this
      operation, and likewise for the kinds. */
  lemma CodesAgree(n: int, op: EvOp, k: EvKind)
    ensures OpOf(n) == Some(op) <==> n == OpCode(op)
    ensures TraceReader.KindOf(n) == Some(k) <==> n == KindCode(k)
  {
    hide OpOf, OpCode;
    OpCodeIsRead(op);
    ReadOpIsCode(n);
  }

  lemma OpCodeIsRead(op: EvOp)
    ensures OpOf(OpCode(op)) == Some(op)
  {
    match op {
      case INIT | DESTROY =>
      case LOCK_PRE | LOCK_POST | TRYLOCK_PRE | TRYLOCK_POST | TIMEDLOCK_PRE | TIMEDLOCK_POST | UNLOCK =>
      case RDLOCK_PRE | RDLOCK_POST | TRYRDLOCK_PRE | TRYRDLOCK_POST | TIMEDRDLOCK_PRE | TIMEDRDLOCK_POST =>
      case WRLOCK_PRE | WRLOCK_POST | TRYWRLOCK_PRE | TRYWRLOCK_POST | TIMEDWRLOCK_PRE | TIMEDWRLOCK_POST =>
      case _ =>
    }
  }

  lemma ReadOpIsCode(n: int)
    ensures OpOf(n).Some? ==> OpCode(OpOf(n).value) == n
  {
  }

  /** The event's values fit the fields they are logged in. */
  predicate Loggable(e: Event) {
    && 0 <= e.ts < TWO_TO_THE_64 && 0 <= e.tid < TWO_TO_THE_64 && 0 <= e.addr < TWO_TO_THE_64
    && -TWO_TO_THE_63 <= e.rc < TWO_TO_THE_63
    && |e.bt| < 0x1_0000 && forall i | 0 <= i < |e.bt| :: 0 <= e.bt[i] < TWO_TO_THE_64
  }

  predicate AllLoggable(es: seq<Event>) {
    forall i | 0 <= i < |es| :: Loggable(es[i])
  }

  /** How the runtime logs an event. */
  function RawOf(e: Event): Raw
    requires Loggable(e)
  {
    Raw(e.ts, e.tid, OpCode(e.op), KindCode(e.kind), e.addr, e.rc, e.bt)
  }

  function RawsOf(es: seq<Event>): (r: seq<Raw>)
    requires AllLoggable(es)
    ensures |r| == |es| && forall i | 0 <= i < |es| :: r[i] == RawOf(es[i])
  {
    if es == [] then [] else [RawOf(es[0])] + RawsOf(es[1..])
  }

  /** An event is seen as it was logged. */
  lemma LoggedIsSeen(e: Event)
    requires Loggable(e)
    ensures Known(RawOf(e)) && EventOf(RawOf(e)) == e
  {
    hide OpOf, TraceReader.KindOf, OpCode, KindCode;
    CodesAgree(OpCode(e.op), e.op, e.kind);
    CodesAgree(KindCode(e.kind), e.op, e.kind);
  }

  /** What the analyzer accepts is an event as the runtime logs it. */
  lemma SeenIsLogged(e: Raw)
    requires Known(e)
    ensures Loggable(EventOf(e)) && RawOf(EventOf(e)) == e
  {
    hide OpOf, TraceReader.KindOf, OpCode, KindCode;
    CodesAgree(e.op, EventOf(e).op, EventOf(e).kind);
    CodesAgree(e.kind, EventOf(e).op, EventOf(e).kind);
  }

  // --------------------------------------------------------------- the printed lines

  function FrameLineList(pcs: seq<nat>): (l: seq<string>)
    ensures |l| == |pcs|
  {
    if pcs == [] then [] else [Line(FrameFields(pcs[0]))] + FrameLineList(pcs[1..])
  }

  function EventLineList(es: seq<Raw>): seq<string> {
    if es == [] then [] else [Line(EventFields(es[0]))] + FrameLineList(es[0].pcs) + EventLineList(es[1..])
  }

  function ModuleLineList(ms: seq<Module>): seq<string>
    requires ModulesFit(ms)
  {
    if ms == [] then [] else [Line(ModuleFields(ms[0]))] + ModuleLineList(ms[1..])
  }

  lemma {:induction false} LinesOfFrames(pcs: seq<nat>, rest: string)
    requires WordsFit(pcs)
    ensures Lines(FrameLines(pcs) + rest) == FrameLineList(pcs) + Lines(rest)
  {
    hide Lines, Line, FrameFields, IsField;
    if pcs == [] {
      assert FrameLines(pcs) + rest == rest;
    } else {
      var l := Line(FrameFields(pcs[0]));
      FrameLineLength(pcs[0]);
      FrameFieldsAreFields(pcs[0]);
      LinesOfFrames(pcs[1..], rest);
      LinesOfLine(FrameFields(pcs[0]), FrameLines(pcs[1..]) + rest);
      assert FrameLines(pcs) + rest == l + (FrameLines(pcs[1..]) + rest);
    }
  }

  lemma {:induction false} LinesOfEvents(es: seq<Raw>)
    requires AllKnown(es)
    ensures Lines(EventTexts(es)) == EventLineList(es)
  {
    hide Lines, Line, EventFields, FrameLines, FrameLineList, IsField, OpOf, TraceReader.KindOf;
    if es == [] {
      NoLines();
    } else {
      var e := es[0];
      NoLineIsCut(e);
      EventFieldsAreFields(e);
      LinesOfEvents(es[1..]);
      LinesOfFrames(e.pcs, EventTexts(es[1..]));
      LinesOfLine(EventFields(e), FrameLines(e.pcs) + EventTexts(es[1..]));
      assert EventTexts(es) == Line(EventFields(e)) + (FrameLines(e.pcs) + EventTexts(es[1..]));
    }
  }

  lemma NoLines()
    ensures Lines("") == []
  {
  }

  lemma {:induction false} LinesOfModules(ms: seq<Module>, rest: string)
    requires ModulesFit(ms)
    ensures Lines(ModuleLines(ms) + rest) == ModuleLineList(ms) + Lines(rest)
  {
    hide Lines, Line, ModuleFields, IsField;
    if ms == [] {
      assert ModuleLines(ms) + rest == rest;
    } else {
      ModuleFieldsAreFields(ms[0]);
      LinesOfModules(ms[1..], rest);
      LinesOfLine(ModuleFields(ms[0]), ModuleLines(ms[1..]) + rest);
      assert ModuleLines(ms) + rest == Line(ModuleFields(ms[0])) + (ModuleLines(ms[1..]) + rest);
    }
  }

  /** The lines of a whole trace. */
  function TraceLines(pid: int, ms: seq<Module>, es: seq<Raw>): seq<string>
    requires ModulesFit(ms)
  {
    [Line(HeaderFields(pid))] + ModuleLineList(ms) + EventLineList(es)
  }

  lemma LinesOfTrace(pid: int, ms: seq<Module>, es: seq<Raw>)
    requires ModulesFit(ms) && AllKnown(es)
    ensures Lines(TraceOf(pid, ms, es)) == TraceLines(pid, ms, es)
  {
    hide Lines, Line, HeaderFields, ModuleLines, EventTexts, ModuleFits, Known, ModuleLineList, EventLineList;
    HeaderFieldsAreFields(pid);
    LinesOfEvents(es);
    LinesOfModules(ms, EventTexts(es));
    LinesOfLine(HeaderFields(pid), ModuleLines(ms) + EventTexts(es));
    assert TraceOf(pid, ms, es) == Line(HeaderFields(pid)) + (ModuleLines(ms) + EventTexts(es));
    assert TraceLines(pid, ms, es) == [Line(HeaderFields(pid))] + (ModuleLineList(ms) + EventLineList(es));
  }

  // ------------------------------------------------------------ reading printed lines

  lemma NotBlank(fields: seq<string>)
    requires fields != [] && fields[0] != "" && !IsSpace(fields[0][0])
    ensures !Blank(Line(fields))
  {
    assert Line(fields)[0] == fields[0][0];
  }

  lemma LetterIsNoSpace(c: char)
    requires 'A' <= c <= 'Z'
    ensures !IsSpace(c)
  {
  }

  lemma ReadEventLine(e: Raw)
    requires Known(e)
    ensures ItemOf(Line(EventFields(e))) == Ev(EventOf(e).(bt := []), |e.pcs|)
  {
    hide NatText, HexText, IntText, PyInt, ParseHex, Chomp, Split, Line, IsSpace, Blank, OpOf, TraceReader.KindOf;
    EventFieldsAreFields(e);
    FieldsOfLine(EventFields(e));
    LetterIsNoSpace('E');
    NotBlank(EventFields(e));
    NatRoundTrip(e.ts);
    NatRoundTrip(e.tid);
    NatRoundTrip(e.op);
    NatRoundTrip(e.kind);
    HexRoundTrip(e.addr);
    IntRoundTrip(e.rc);
    NatRoundTrip(|e.pcs|);
  }

  lemma ReadFrameLine(pc: nat)
    ensures FrameOf(Line(FrameFields(pc))) == Some(Some(pc))
  {
    hide NatText, HexText, ParseHex, Chomp, Split, Line;
    FrameFieldsAreFields(pc);
    FieldsOfLine(FrameFields(pc));
    HexRoundTrip(pc);
  }

  /** The module as it is read back: an empty path has become a dash. */
  function ReadBack(m: Module): Module {
    m.(path := Shown(m.path))
  }

  function AllReadBack(ms: seq<Module>): seq<Module> {
    if ms == [] then [] else [ReadBack(ms[0])] + AllReadBack(ms[1..])
  }

  lemma ReadModuleLine(m: Module)
    requires ModuleFits(m)
    ensures ItemOf(Line(ModuleFields(m))) == Mod(ReadBack(m))
  {
    hide NatText, HexText, IntText, PyInt, ParseHex, Chomp, Split, Line, IsSpace, Blank, IsField;
    ModuleFieldsAreFields(m);
    FieldsOfLine(ModuleFields(m));
    LetterIsNoSpace('M');
    NotBlank(ModuleFields(m));
    IntRoundTrip(m.idx);
    HexRoundTrip(m.base);
    HexRoundTrip(m.size);
  }

  /** The header is accepted and gives the process id. */
  lemma ReadHeader(pid: int)
    ensures var parts := Split(Chomp(Line(HeaderFields(pid)))); TraceReader.HeaderOk(parts) && PidOf(parts) == pid
  {
    hide NatText, IntText, PyInt, Chomp, Split, Line;
    var f := HeaderFields(pid);
    HeaderFieldsAreFields(pid);
    FieldsOfLine(f);
    IntRoundTrip(pid);
    PidStep(f);
    PidStep(f[1..]);
    PidStep(f[2..]);
    PidStep(f[3..]);
    assert f[1..][1..] == f[2..] && f[2..][1..] == f[3..];
    assert f[3][4..] == IntText(pid) && f[3][..4] == "pid=";
    assert f[0][..4] == "HEAD" && f[1][..4] == "DEAD";
  }

  lemma PidStep(parts: seq<string>)
    requires parts != []
    ensures PidOf(parts) ==
              if StartsWith(parts[0], "pid=") then
                match PyInt(parts[0][4..], 10)
                case None => 0
                case Some(n) => n
              else PidOf(parts[1..])
  {
  }

  lemma {:induction false} ReadFrameList(pcs: seq<nat>, rest: seq<string>)
    ensures var r := ReadFrames(FrameLineList(pcs) + rest, |pcs|); r.0 == pcs && r.1 == |pcs|
  {
    hide Line, FrameFields, FrameOf, ReadFrames;
    if pcs == [] {
      NoFrames(rest, 0);
      assert FrameLineList(pcs) + rest == rest;
    } else {
      var l, more := Line(FrameFields(pcs[0])), FrameLineList(pcs[1..]) + rest;
      ReadFrameLine(pcs[0]);
      ReadFrameList(pcs[1..], rest);
      FrameStep(l, more, |pcs|, pcs[0]);
      assert FrameLineList(pcs) + rest == [l] + more;
      assert [pcs[0]] + pcs[1..] == pcs;
    }
  }

  /** A good frame line in front. */
  lemma FrameStep(line: string, rest: seq<string>, n: nat, pc: int)
    requires n > 0 && FrameOf(line) == Some(Some(pc))
    ensures ReadFrames([line] + rest, n).0 == [pc] + ReadFrames(rest, n - 1).0
    ensures ReadFrames([line] + rest, n).1 == 1 + ReadFrames(rest, n - 1).1
  {
    hide FrameOf;
    assert ([line] + rest)[1..] == rest;
  }

  // ------------------------------------------------------------------ the whole trace

  lemma BodyStep(line: string, rest: seq<string>)
    ensures ItemOf(line).Mod? ==>
              && ReadBody([line] + rest).0 == [ItemOf(line).m] + ReadBody(rest).0
              && ReadBody([line] + rest).1 == ReadBody(rest).1
    ensures ItemOf(line).Ev? ==>
              var frames := ReadFrames(rest, ItemOf(line).frames);
              && ReadBody([line] + rest).0 == ReadBody(rest[frames.1..]).0
              && ReadBody([line] + rest).1 == [ItemOf(line).e.(bt := frames.0)] + ReadBody(rest[frames.1..]).1
  {
    hide ItemOf, ReadFrames;
    assert ([line] + rest)[1..] == rest;
  }

  lemma {:induction false} ReadModules(ms: seq<Module>, rest: seq<string>)
    requires ModulesFit(ms)
    ensures var r := ReadBody(ModuleLineList(ms) + rest);
            r.0 == AllReadBack(ms) + ReadBody(rest).0 && r.1 == ReadBody(rest).1
  {
    hide ItemOf, ReadBody, Line, ModuleFields, ReadBack, ModuleFits;
    if ms == [] {
      assert ModuleLineList(ms) + rest == rest;
    } else {
      var l := Line(ModuleFields(ms[0]));
      ReadModuleLine(ms[0]);
      ReadModules(ms[1..], rest);
      BodyStep(l, ModuleLineList(ms[1..]) + rest);
      assert ModuleLineList(ms) + rest == [l] + (ModuleLineList(ms[1..]) + rest);
    }
  }

  /** An event's lines, followed by others. */
  lemma ReadOneEvent(e: Raw, rest: seq<string>)
    requires Known(e)
    ensures var r := ReadBody([Line(EventFields(e))] + (FrameLineList(e.pcs) + rest));
            r.0 == ReadBody(rest).0 && r.1 == [EventOf(e)] + ReadBody(rest).1
  {
    hide ItemOf, ReadBody, Line, EventFields, ReadFrames, FrameLineList, OpOf, TraceReader.KindOf, FieldsFit;
    ReadEventLine(e);
    ReadFrameList(e.pcs, rest);
    var lines := FrameLineList(e.pcs) + rest;
    BodyStep(Line(EventFields(e)), lines);
    assert lines[|e.pcs|..] == rest;
  }

  /** Frame lines that end too early: the line behind them is used up. */
  lemma {:induction false} FramesCutShort(pcs: seq<nat>, n: nat, line: string, rest: seq<string>)
    requires n > |pcs| && FrameOf(line) == None
    ensures ReadFrames(FrameLineList(pcs) + [line] + rest, n) == (pcs, |pcs| + 1)
  {
    hide Line, FrameFields, FrameOf, ReadFrames;
    if pcs == [] {
      NoFrameLine(line, rest, n);
      assert FrameLineList(pcs) + [line] + rest == [line] + rest;
    } else {
      var more := FrameLineList(pcs[1..]) + [line] + rest;
      ReadFrameLine(pcs[0]);
      FramesCutShort(pcs[1..], n - 1, line, rest);
      FrameStep(Line(FrameFields(pcs[0])), more, n, pcs[0]);
      assert FrameLineList(pcs) + [line] + rest == [Line(FrameFields(pcs[0]))] + more;
      assert [pcs[0]] + pcs[1..] == pcs;
    }
  }

  lemma NoFrameLine(line: string, rest: seq<string>, n: nat)
    requires n > 0 && FrameOf(line) == None
    ensures ReadFrames([line] + rest, n) == ([], 1)
  {
  }

  lemma EventLineIsNoFrame(e: Raw)
    ensures FrameOf(Line(EventFields(e))) == None
  {
    hide NatText, HexText, IntText, ParseHex, Chomp, Split, Line;
    EventFieldsAreFields(e);
    FieldsOfLine(EventFields(e));
  }

  /** If an event announces more frames than follow it, the next event is not read: its
      line is taken for the missing frame. */
  lemma EventBehindShortFramesIsLost(e: Raw, k: nat, next: Raw, rest: seq<string>)
    requires Known(e) && k < |e.pcs|
    ensures var lines := FrameLineList(e.pcs[..k]) + [Line(EventFields(next))] + rest;
            ReadBody([Line(EventFields(e))] + lines).1 == [EventOf(e).(bt := e.pcs[..k])] + ReadBody(rest).1
  {
    hide ItemOf, ReadBody, Line, EventFields, ReadFrames, FrameLineList, OpOf, TraceReader.KindOf, FieldsFit, FrameOf;
    var lines := FrameLineList(e.pcs[..k]) + [Line(EventFields(next))] + rest;
    ReadEventLine(e);
    EventLineIsNoFrame(next);
    FramesCutShort(e.pcs[..k], |e.pcs|, Line(EventFields(next)), rest);
    BodyStep(Line(EventFields(e)), lines);
    assert lines[k + 1..] == rest;
  }

  lemma {:induction false} ReadEvents(es: seq<Raw>)
    requires AllKnown(es)
    ensures ReadBody(EventLineList(es)).0 == [] && ReadBody(EventLineList(es)).1 == EventsOf(es)
  {
    hide ReadBody, Line, EventFields, FrameLineList, EventOf, Known;
    if es == [] {
      NoBody([]);
    } else {
      var e := es[0];
      ReadOneEvent(e, EventLineList(es[1..]));
      ReadEvents(es[1..]);
      assert EventLineList(es) == [Line(EventFields(e))] + (FrameLineList(e.pcs) + EventLineList(es[1..]));
    }
  }

  /** Round trip: the analyzer reads back the process id, the modules sorted by base,
      and the events with their frames in the order in which they were printed. */
  lemma RoundTrip(pid: int, ms: seq<Module>, es: seq<Raw>)
    requires ModulesFit(ms) && AllKnown(es)
    ensures ParseLines(Lines(TraceOf(pid, ms, es))) == Some(Trace(pid, SortByBase(AllReadBack(ms)), EventsOf(es)))
  {
    hide ReadBody, Line, HeaderFields, EventLineList, ModuleLineList, TraceReader.HeaderOk, PidOf, Lines, TraceOf,
         ModuleFits, Known,
      SortByBase, Chomp, Split, EventsOf, AllReadBack;
    LinesOfTrace(pid, ms, es);
    ReadHeader(pid);
    ReadModules(ms, EventLineList(es));
    ReadEvents(es);
    var lines := TraceLines(pid, ms, es);
    assert lines[1..] == ModuleLineList(ms) + EventLineList(es);
    assert AllReadBack(ms) + [] == AllReadBack(ms);
  }

  /** The address of a condition wait's mutex survives the signed field, the printed
      decimal and the analyzer's mask. */
  lemma CondAddressSurvives(e: Raw, addr: nat)
    requires Known(e) && addr < TWO_TO_THE_64 && e.rc == Signed(addr)
    requires EventOf(e).op == COND_WAIT_POST || EventOf(e).op == COND_TIMEDWAIT_POST
    ensures PyInt(IntText(e.rc), 10) == Some(EventOf(e).rc)
    ensures ActionOf(EventOf(e)) == if addr == 0 then Ignore else CondPost(addr)
  {
    hide NatText, IntText, PyInt, FieldsFit;
    IntRoundTrip(e.rc);
  }

  /** The same for events as the program means them: operations, kinds, addresses, return
      codes and frames are read back as they were logged. */
  lemma EventsRoundTrip(pid: int, ms: seq<Module>, es: seq<Event>)
    requires ModulesFit(ms) && AllLoggable(es)
    ensures ParseLines(Lines(TraceOf(pid, ms, RawsOf(es)))) == Some(Trace(pid, SortByBase(AllReadBack(ms)), es))
  {
    hide Loggable, Known, RawOf, EventOf, SortByBase, AllReadBack, ParseLines, Lines, TraceOf, ModuleFits;
    forall i | 0 <= i < |es| ensures Known(RawsOf(es)[i]) && EventOf(RawsOf(es)[i]) == es[i] { LoggedIsSeen(es[i]); }
    RoundTrip(pid, ms, RawsOf(es));
    assert EventsOf(RawsOf(es)) == es;
  }

  // ------------------------------------------------------------------ truncated traces

  /** `t` is a prefix of `full`, except that its last event may lack some frames. */
  ghost predicate CutOf(t: seq<Event>, full: seq<Event>) {
    && |t| <= |full|
    && (forall i | 0 <= i < |t| - 1 :: t[i] == full[i])
    && (t != [] ==> var k := |t| - 1; t[k] == full[k].(bt := t[k].bt) && t[k].bt <= full[k].bt)
  }

  lemma {:induction false} ReadCutFrames(pcs: seq<nat>, k: nat)
    requires k <= |pcs|
    ensures var r := ReadFrames(FrameLineList(pcs)[..k], |pcs|); r.0 == pcs[..k] && r.1 == k
  {
    hide Line, FrameFields, FrameOf, ReadFrames;
    var lines := FrameLineList(pcs)[..k];
    if k == 0 {
      NoFrames(lines, |pcs|);
    } else {
      var l, more := Line(FrameFields(pcs[0])), FrameLineList(pcs[1..])[..k - 1];
      ReadFrameLine(pcs[0]);
      ReadCutFrames(pcs[1..], k - 1);
      FrameStep(l, more, |pcs|, pcs[0]);
      assert lines == [l] + more;
      assert [pcs[0]] + pcs[1..][..k - 1] == pcs[..k];
    }
  }

  lemma CutCons(e: Event, t: seq<Event>, full: seq<Event>)
    requires CutOf(t, full)
    ensures CutOf([e] + t, [e] + full)
  {
    var a, b := [e] + t, [e] + full;
    forall i | 0 <= i < |a| - 1 ensures a[i] == b[i] {
      if i > 0 { assert t[i - 1] == full[i - 1]; }
    }
    if t != [] { assert a[|a| - 1] == t[|t| - 1] && b[|a| - 1] == full[|t| - 1]; }
  }

  /** The cut falls among the lines of the first event. */
  lemma CutFirstEvent(e: Raw, k: nat, full: seq<Event>)
    requires Known(e) && k <= |e.pcs|
    ensures var r := ReadBody([Line(EventFields(e))] + FrameLineList(e.pcs)[..k]);
            r.0 == [] && CutOf(r.1, [EventOf(e)] + full)
  {
    hide ItemOf, ReadBody, Line, EventFields, ReadFrames, FrameLineList, OpOf, TraceReader.KindOf, FieldsFit;
    ReadEventLine(e);
    ReadCutFrames(e.pcs, k);
    var lines := FrameLineList(e.pcs)[..k];
    BodyStep(Line(EventFields(e)), lines);
    NoBody(lines[k..]);
  }

  lemma {:induction false} CutEvents(es: seq<Raw>, k: nat)
    requires AllKnown(es) && k <= |EventLineList(es)|
    ensures var r := ReadBody(EventLineList(es)[..k]); r.0 == [] && CutOf(r.1, EventsOf(es))
  {
    hide ReadBody, Line, EventFields, FrameLineList, EventOf, Known, CutOf;
    if k == 0 {
      NoBody([]);
      CutNothing(EventsOf(es));
    } else {
      var e := es[0];
      var l, fs, rest := Line(EventFields(e)), FrameLineList(e.pcs), EventLineList(es[1..]);
      if k <= 1 + |e.pcs| {
        CutFirstEvent(e, k - 1, EventsOf(es[1..]));
        assert EventLineList(es)[..k] == [l] + fs[..k - 1];
      } else {
        var j := k - 1 - |e.pcs|;
        CutEvents(es[1..], j);
        ReadOneEvent(e, rest[..j]);
        CutCons(EventOf(e), ReadBody(rest[..j]).1, EventsOf(es[1..]));
        assert EventLineList(es)[..k] == [l] + (fs + rest[..j]);
      }
    }
  }

  lemma CutNothing(full: seq<Event>)
    ensures CutOf([], full)
  {
  }

  lemma {:induction false} CutModules(ms: seq<Module>, k: nat)
    requires ModulesFit(ms) && k <= |ms|
    ensures |ModuleLineList(ms)| == |ms| && ModuleLineList(ms)[..k] == ModuleLineList(ms[..k])
  {
    hide Line, ModuleFields, ModuleFits;
    if ms != [] {
      CutModules(ms[1..], if k == 0 then 0 else k - 1);
      if k > 0 { assert ms[..k][1..] == ms[1..][..k - 1]; }
    }
  }

  /** A trace cut off after any number of lines, the header among them, is read as a
      prefix of the events, of which only the last may have lost frames. */
  lemma Truncation(pid: int, ms: seq<Module>, es: seq<Raw>, k: nat)
    requires ModulesFit(ms) && AllKnown(es) && 1 <= k <= |TraceLines(pid, ms, es)|
    ensures var r := ParseLines(TraceLines(pid, ms, es)[..k]);
            r.Some? && r.value.pid == pid && CutOf(r.value.events, EventsOf(es))
  {
    hide ReadBody, Line, HeaderFields, EventLineList, ModuleLineList, TraceReader.HeaderOk, PidOf, ModuleFits, Known,
      SortByBase, Chomp, Split, EventsOf, AllReadBack, CutOf;
    var m, v, lines := ModuleLineList(ms), EventLineList(es), TraceLines(pid, ms, es);
    ReadHeader(pid);
    CutModules(ms, if k - 1 <= |ms| then k - 1 else |ms|);
    if k - 1 <= |ms| {
      var some := ms[..k - 1];
      ReadModules(some, []);
      NoBody([]);
      CutBefore([lines[0]], m, v, k - 1);
      assert ModuleLineList(some) + [] == ModuleLineList(some);
      CutNothing(EventsOf(es));
    } else {
      var j := k - 1 - |ms|;
      CutEvents(es, j);
      ReadModules(ms, v[..j]);
      CutBehind([lines[0]], m, v, j);
    }
  }

  /** Where a cut falls in the lines of a trace. */
  lemma CutBefore(h: seq<string>, m: seq<string>, v: seq<string>, k: nat)
    requires |h| == 1 && k <= |m|
    ensures (h + m + v)[..k + 1][1..] == m[..k] && (h + m + v)[..k + 1][0] == h[0]
  {
  }

  lemma CutBehind(h: seq<string>, m: seq<string>, v: seq<string>, j: nat)
    requires |h| == 1 && j <= |v|
    ensures (h + m + v)[..1 + |m| + j][1..] == m + v[..j] && (h + m + v)[..1 + |m| + j][0] == h[0]
  {
  }

  /** Cutting a text at a line boundary cuts its list of lines. */
  function Concat(lines: seq<string>): string {
    if lines == [] then "" else lines[0] + Concat(lines[1..])
  }

  lemma {:induction false} FirstLineOfPrefix(text: string, n: nat)
    requires text != "" && |FirstLine(text)| <= n <= |text|
    ensures FirstLine(text[..n]) == FirstLine(text) && text[..|FirstLine(text)|] == FirstLine(text)
  {
    if text[0] != '\n' && |text| > 1 {
      FirstLineOfPrefix(text[1..], n - 1);
      assert text[..n][1..] == text[1..][..n - 1];
    }
  }

  lemma {:induction false} LinesOfPrefix(text: string, k: nat)
    requires k <= |Lines(text)|
    ensures Lines(Concat(Lines(text)[..k])) == Lines(text)[..k]
    ensures Concat(Lines(text)[..k]) <= text
    decreases |text|
  {
    hide FirstLine, Lines, Concat;
    LinesStep(text);
    LinesStep("");
    ConcatNone();
    assert Lines(text)[..0] == [];
    if k > 0 {
      var l := FirstLine(text);
      var rest := text[|l|..];
      LinesOfPrefix(rest, k - 1);
      var c := Concat(Lines(rest)[..k - 1]);
      FirstLineOfPrefix(text, |text|);
      assert text == l + rest;
      ConcatStep(l, Lines(rest)[..k - 1]);
      assert Lines(text)[..k] == [l] + Lines(rest)[..k - 1];
      assert text[..|l + c|] == l + c;
      FirstLineOfPrefix(text, |l + c|);
      assert (l + c)[|l|..] == c;
      LinesStep(l + c);
    }
  }

  lemma LinesStep(text: string)
    ensures text == "" ==> Lines(text) == []
    ensures text != "" ==> Lines(text) == [FirstLine(text)] + Lines(text[|FirstLine(text)|..])
  {
  }

  lemma ConcatNone()
    ensures Concat([]) == ""
  {
  }

  lemma ConcatStep(l: string, ls: seq<string>)
    ensures Concat([l] + ls) == l + Concat(ls)
  {
    assert ([l] + ls)[1..] == ls;
  }

  // -------------------------------------------------- generations of truncated traces

  /** The events agree but for their frames. */
  ghost predicate SameButFrames(a: seq<Event>, b: seq<Event>) {
    |a| == |b| && forall i | 0 <= i < |a| :: a[i] == b[i].(bt := a[i].bt)
  }

  lemma SameGenerations(a: seq<Event>, b: seq<Event>)
    requires SameButFrames(a, b)
    ensures Replay.Run(Replay.Empty, a).addrGen == Replay.Run(Replay.Empty, b).addrGen
  {
    hide Replay.Run;
    assert BareAll(a) == BareAll(b);
    StampsDoNotMatter(a, b);
  }

  lemma {:induction false} GenerationsGrow(es: seq<Event>, k: nat, a: int)
    requires k <= |es| && a in Replay.Run(Replay.Empty, es[..k]).addrGen
    ensures a in Replay.Run(Replay.Empty, es).addrGen
    ensures Replay.Run(Replay.Empty, es[..k]).addrGen[a] <= Replay.Run(Replay.Empty, es).addrGen[a]
  {
    hide Replay.Step;
    if k == |es| {
      assert es[..k] == es;
    } else {
      var n := |es| - 1;
      assert es[..n][..k] == es[..k];
      GenerationsGrow(es[..n], k, a);
      var s := Replay.Run(Replay.Empty, es[..n]);
      StepGen(s, es[n], a);
    }
  }

  /** A truncated trace replays to no later generation of any address than the whole. */
  lemma TruncatedGenerations(t: seq<Event>, full: seq<Event>, a: int)
    requires CutOf(t, full) && a in Replay.Run(Replay.Empty, t).addrGen
    ensures a in Replay.Run(Replay.Empty, full).addrGen
    ensures Replay.Run(Replay.Empty, t).addrGen[a] <= Replay.Run(Replay.Empty, full).addrGen[a]
  {
    hide Replay.Run;
    var k := |t|;
    assert SameButFrames(t, full[..k]);
    SameGenerations(t, full[..k]);
    GenerationsGrow(full, k, a);
  }
}
