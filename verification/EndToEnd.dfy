/** From the threads to the verdict: what the threads logged, through rings, file and
    parser, to what the analyzer reports. */
module EndToEnd {
  import opened Locks
  import opened Events
  import opened RingLayout
  import opened RingProtocol
  import opened EventBytes
  import opened TraceText
  import opened TraceReader
  import Printed = TraceRoundTrip
  import B = Backend
  import P = Pipeline
  import Replay
  import Schedule
  import opened Stamps
  import FindCycles
  import CycleSearch

  /** The payload is an event of this thread as the runtime logs it. */
  ghost predicate Logged(t: P.Tid, p: seq<byte>) {
    WellFramed(p) && Printed.Known(Decode(p)) && Decode(p).tid == t && PayloadOf(Decode(p)) == p
  }

  /** What the runtime commits for an event is logged, and the analyzer sees that event. */
  lemma CommitIsSeen(e: Event)
    requires Printed.Loggable(e) && |e.bt| <= MAX_FRAMES
    ensures Logged(e.tid, PayloadOf(Printed.RawOf(e))) && Seen(PayloadOf(Printed.RawOf(e))) == e
  {
    hide PayloadOf, Decode, Printed.RawOf, Printed.EventOf, WellFramed;
    var r := Printed.RawOf(e);
    Printed.LoggedIsSeen(e);
    RawFields(e);
    DecodePayload(r);
    PayloadIsFramed(r);
  }

  lemma RawFields(e: Event)
    requires Printed.Loggable(e)
    ensures Printed.RawOf(e).tid == e.tid && |Printed.RawOf(e).pcs| == |e.bt| && FieldsFit(Printed.RawOf(e))
  {
  }

  ghost predicate AllLogged(file: seq<(P.Tid, seq<byte>)>) {
    forall i | 0 <= i < |file| :: Logged(file[i].0, file[i].1)
  }

  /** Each thread has committed nothing but events of its own. */
  ghost predicate CommitsLogged(s: P.Sys) {
    forall t: P.Tid, p {:trigger p in P.Of(s.committed, t)} :: p in P.Of(s.committed, t) ==> Logged(t, p)
  }

  /** The event in a payload; one shorter than a header, which no run writes, counts as
      an event without content. */
  function EntryOf(p: seq<byte>): Raw {
    if |p| >= HEADER then Decode(p) else Raw(0, 0, 0, 0, 0, 0, [])
  }

  /** The events behind the entries of the file, as the backend prints them. */
  function Raws(file: seq<(P.Tid, seq<byte>)>): (r: seq<Raw>)
    ensures |r| == |file| && forall i | 0 <= i < |file| :: r[i] == EntryOf(file[i].1)
  {
    if file == [] then [] else [EntryOf(file[0].1)] + Raws(file[1..])
  }

  /** The event the analyzer is to see for a payload. */
  ghost function Seen(p: seq<byte>): Event {
    if |p| >= HEADER && Printed.Known(Decode(p)) then Printed.EventOf(Decode(p)) else Event(0, 0, INIT, MUTEX, 0, 0, [])
  }

  ghost function SeenAll(ps: seq<seq<byte>>): (r: seq<Event>)
    ensures |r| == |ps| && forall i | 0 <= i < |ps| :: r[i] == Seen(ps[i])
  {
    if ps == [] then [] else SeenAll(ps[..|ps| - 1]) + [Seen(ps[|ps| - 1])]
  }

  ghost function SeenFile(file: seq<(P.Tid, seq<byte>)>): (r: seq<Event>)
    ensures |r| == |file| && forall i | 0 <= i < |file| :: r[i] == Seen(file[i].1)
  {
    if file == [] then [] else SeenFile(file[..|file| - 1]) + [Seen(file[|file| - 1].1)]
  }

  /** The text of the trace file. */
  function FileText(pid: int, ms: seq<Module>, file: seq<(P.Tid, seq<byte>)>): string
    requires ModulesFit(ms)
  {
    TraceOf(pid, ms, Raws(file))
  }

  function Entries(file: seq<(P.Tid, seq<byte>)>): (ps: seq<seq<byte>>)
    ensures |ps| == |file| && forall i | 0 <= i < |file| :: ps[i] == file[i].1
  {
    if file == [] then [] else [file[0].1] + Entries(file[1..])
  }

  /** The text behind the header and the modules is what the backend's drain writes for
      these payloads, one after the other. */
  lemma {:induction false} TextIsWritten(file: seq<(P.Tid, seq<byte>)>)
    requires AllLogged(file)
    ensures B.AllFramedIn(Entries(file)) && EventTexts(Raws(file)) == B.Outputs(Entries(file))
  {
    hide EventText, Decode, Printed.Known, PayloadOf, SizeOf, FrameCount;
    if file != [] { TextIsWritten(file[1..]); }
  }

  /** The analyzer reads back the logged events in the order of the file. */
  lemma FileIsRead(pid: int, ms: seq<Module>, file: seq<(P.Tid, seq<byte>)>)
    requires ModulesFit(ms) && AllLogged(file)
    ensures ParseLines(Lines(FileText(pid, ms, file))) ==
              Some(Trace(pid, SortByBase(Printed.AllReadBack(ms)), SeenFile(file)))
  {
    hide Lines, TraceOf, ParseLines, SortByBase, Printed.AllReadBack, Decode, Printed.Known, Printed.EventOf,
         ModulesFit,
      PayloadOf, SizeOf, FrameCount, Printed.EventsOf;
    Printed.RoundTrip(pid, ms, Raws(file));
    assert Printed.EventsOf(Raws(file)) == SeenFile(file);
  }

  /** A thread's events in the trace are those of its entries in the file. */
  lemma {:induction false} ThreadOfFile(file: seq<(P.Tid, seq<byte>)>, t: P.Tid)
    requires AllLogged(file)
    ensures Schedule.OfThread(SeenFile(file), t) == SeenAll(P.Proj(file, t))
  {
    hide Decode, Printed.Known, PayloadOf;
    if file != [] {
      var front, last := file[..|file| - 1], file[|file| - 1];
      ThreadOfFile(front, t);
      assert SeenFile(file)[..|file| - 1] == SeenFile(front);
      assert Seen(last.1).tid == last.0;
      if last.0 == t {
        var ps := P.Proj(file, t);
        assert ps[..|ps| - 1] == P.Proj(front, t);
      }
    }
  }

  lemma {:induction false} EntryIsProjected(file: seq<(P.Tid, seq<byte>)>, i: nat)
    requires i < |file|
    ensures file[i].1 in P.Proj(file, file[i].0)
  {
    if i < |file| - 1 { EntryIsProjected(file[..|file| - 1], i); }
  }

  /** In every run the file holds nothing but logged events. */
  lemma FileIsLogged(acts: seq<P.Act>)
    requires CommitsLogged(P.Run(P.Start(), acts))
    ensures AllLogged(P.Run(P.Start(), acts).file)
  {
    hide Logged, P.Proj, P.Run;
    var s := P.Run(P.Start(), acts);
    forall i | 0 <= i < |s.file| ensures Logged(s.file[i].0, s.file[i].1) {
      var t := s.file[i].0;
      EntryIsProjected(s.file, i);
      P.NothingLost(acts, t);
      var k :| 0 <= k < |P.Proj(s.file, t)| && P.Proj(s.file, t)[k] == s.file[i].1;
      assert P.Of(s.committed, t)[k] == s.file[i].1;
      assert s.file[i].1 in P.Of(s.committed, t);
    }
  }

  /** The run has written all that was committed. */
  ghost predicate Complete(s: P.Sys) {
    forall t: P.Tid {:trigger P.Waiting(s, t)} :: P.Waiting(s, t) == []
  }

  /** What a thread has committed, as the analyzer is to see it. */
  ghost function Stream(s: P.Sys, t: P.Tid): seq<Event> {
    SeenAll(P.Of(s.committed, t))
  }

  /** The threads committed the same operations with the same results in the same order,
      at whatever times and from whatever call chains. */
  ghost predicate SameCommits(a: P.Sys, b: P.Sys) {
    forall t: P.Tid {:trigger Stream(a, t)} {:trigger Stream(b, t)} :: BareAll(Stream(a, t)) == BareAll(Stream(b, t))
  }

  ghost predicate CommitsNoInit(s: P.Sys) {
    forall t: P.Tid {:trigger Stream(s, t)} :: Schedule.NoInit(Stream(s, t))
  }

  /** A thread's last word on an edge: whether it built it or destroyed an end of it. */
  ghost function Word(s: P.Sys, t: P.Tid, key: EdgeKey): Schedule.Fate {
    Schedule.LocalFate(Replay.Empty, [], BareAll(Stream(s, t)), key)
  }

  ghost predicate CommitsUncontested(s: P.Sys) {
    forall key, u: P.Tid, t: P.Tid :: !(Word(s, u, key) == Schedule.Built && Word(s, t, key) == Schedule.Killed)
  }

  lemma CompleteStream(acts: seq<P.Act>, t: P.Tid)
    requires var s := P.Run(P.Start(), acts); Complete(s) && CommitsLogged(s)
    ensures var s := P.Run(P.Start(), acts); Schedule.OfThread(SeenFile(s.file), t) == Stream(s, t)
  {
    hide Logged, P.Proj, P.Run, P.Waiting, Schedule.OfThread, AllLogged, SeenFile, SeenAll;
    var s := P.Run(P.Start(), acts);
    FileIsLogged(acts);
    ThreadOfFile(s.file, t);
    P.NothingLost(acts, t);
    assert P.Waiting(s, t) == [];
  }

  /** Negative thread ids occur in neither stream. */
  lemma {:induction false} NoNegativeThread(file: seq<(P.Tid, seq<byte>)>, tid: int)
    requires AllLogged(file) && tid < 0
    ensures Schedule.OfThread(SeenFile(file), tid) == []
  {
    hide Decode, Printed.Known, PayloadOf;
    if file != [] {
      NoNegativeThread(file[..|file| - 1], tid);
      assert SeenFile(file)[..|file| - 1] == SeenFile(file[..|file| - 1]);
      assert Seen(file[|file| - 1].1).tid == file[|file| - 1].0;
    }
  }

  /** The stream of a thread in the trace, stamps aside. */
  lemma BareStream(acts: seq<P.Act>, tid: int)
    requires var s := P.Run(P.Start(), acts); Complete(s) && CommitsLogged(s)
    ensures var s := P.Run(P.Start(), acts);
            Schedule.OfThread(BareAll(SeenFile(s.file)), tid) == if tid < 0 then [] else BareAll(Stream(s, tid))
  {
    hide Complete, CommitsLogged, SeenAll, SeenFile, Schedule.OfThread, AllLogged, P.Run, Stream;
    var s := P.Run(P.Start(), acts);
    BareOfThread(SeenFile(s.file), tid);
    if tid < 0 {
      FileIsLogged(acts);
      NoNegativeThread(s.file, tid);
    } else {
      CompleteStream(acts, tid);
    }
  }

  /** Two runs of the pipeline in which the threads committed the same operations, each
      written out in full: however the threads and the backend were interleaved, the
      two trace files are read as merges of the same streams, stamps aside. */
  lemma SameStreamsRead(a: seq<P.Act>, b: seq<P.Act>)
    requires var s, s' := P.Run(P.Start(), a), P.Run(P.Start(), b);
             Complete(s) && Complete(s') && SameCommits(s, s') && CommitsLogged(s) && CommitsLogged(s')
    ensures Schedule.SameStreams(
              BareAll(SeenFile(P.Run(P.Start(), a).file)), BareAll(SeenFile(P.Run(P.Start(), b).file)))
  {
    hide Complete, CommitsLogged, SeenFile, Schedule.OfThread, P.Run, Stream, BareAll;
    var s, s' := P.Run(P.Start(), a), P.Run(P.Start(), b);
    forall tid: int
      ensures Schedule.OfThread(BareAll(SeenFile(s.file)), tid) == Schedule.OfThread(BareAll(SeenFile(s'.file)), tid)
    {
      BareStream(a, tid);
      BareStream(b, tid);
      if tid >= 0 { assert BareAll(Stream(s, tid)) == BareAll(Stream(s', tid)); }
    }
  }

  lemma FileNoInit(acts: seq<P.Act>)
    requires var s := P.Run(P.Start(), acts); Complete(s) && CommitsLogged(s) && CommitsNoInit(s)
    ensures Schedule.NoInit(BareAll(SeenFile(P.Run(P.Start(), acts).file)))
  {
    hide Complete, CommitsLogged, SeenFile, Schedule.OfThread, P.Run, Stream, ActionOf, AllLogged;
    var s := P.Run(P.Start(), acts);
    var es := SeenFile(s.file);
    FileIsLogged(acts);
    forall i | 0 <= i < |es| ensures !ActionOf(BareAll(es)[i]).Init? {
      BareAction(es[i]);
      Schedule.EventOfThread(es, i);
      if es[i].tid < 0 {
        NoNegativeThread(s.file, es[i].tid);
      } else {
        CompleteStream(acts, es[i].tid);
        assert Schedule.NoInit(Stream(s, es[i].tid));
      }
    }
  }

  lemma NoWordOnNothing(key: EdgeKey)
    ensures Schedule.LocalFate(Replay.Empty, [], [], key) == Schedule.Open && Replay.StackOf(Replay.Empty, 0) == []
    ensures forall t :: Replay.StackOf(Replay.Empty, t) == []
  {
  }

  lemma WordIsLast(acts: seq<P.Act>, tid: int, key: EdgeKey)
    requires var s := P.Run(P.Start(), acts); Complete(s) && CommitsLogged(s)
    ensures var s := P.Run(P.Start(), acts);
            Schedule.LastWord(Replay.Empty, BareAll(SeenFile(s.file)), key, tid) ==
              if tid < 0 then Schedule.Open else Word(s, tid, key)
  {
    hide Complete, CommitsLogged, SeenFile, Schedule.OfThread, P.Run, Stream, BareAll, Schedule.LocalFate,
         Replay.StackOf;
    NoWordOnNothing(key);
    BareStream(acts, tid);
  }

  /** An edge is found exactly if it is the last word of some thread to build it. */
  lemma EdgeOfCommits(acts: seq<P.Act>, key: EdgeKey)
    requires var s := P.Run(P.Start(), acts);
             Complete(s) && CommitsLogged(s) && CommitsNoInit(s) && CommitsUncontested(s)
    ensures var s := P.Run(P.Start(), acts);
            key in Replay.Run(Replay.Empty, SeenFile(s.file)).edges <==>
              exists t: P.Tid :: Word(s, t, key) == Schedule.Built
  {
    hide Complete, CommitsLogged, CommitsNoInit, SeenFile, Schedule.NoInit, Schedule.LastWord, Word, P.Run, Replay.Run,
         BareAll;
    var s := P.Run(P.Start(), acts);
    var bare := BareAll(SeenFile(s.file));
    FileNoInit(acts);
    BareEdges(SeenFile(s.file));
    forall tid: int
      ensures Schedule.LastWord(Replay.Empty, bare, key, tid) == if tid < 0 then Schedule.Open else Word(s, tid, key)
    {
      WordIsLast(acts, tid, key);
    }
    Schedule.EdgeByStreams(bare, key);
    if exists u :: Schedule.LastWord(Replay.Empty, bare, key, u) == Schedule.Built {
      var u :| Schedule.LastWord(Replay.Empty, bare, key, u) == Schedule.Built;
      assert Word(s, u, key) == Schedule.Built;
    }
    if exists t: P.Tid :: Word(s, t, key) == Schedule.Built {
      var t: P.Tid :| Word(s, t, key) == Schedule.Built;
      assert Schedule.LastWord(Replay.Empty, bare, key, t) == Schedule.Built;
    }
  }

  /** Locks requested in a ring, said of what the threads committed: for each of them it
      is some thread's last word to have asked for the next one while holding it. */
  ghost predicate CommittedRing(s: P.Sys, c: seq<LockId>) {
    && |c| >= 2 && Distinct(c)
    && forall i: nat | i < |c| :: SomeoneBuilds(s, EdgeKey(c[i], CycleSearch.NextNode(c, i)))
  }

  ghost predicate SomeoneBuilds(s: P.Sys, key: EdgeKey) {
    exists t: P.Tid :: Word(s, t, key) == Schedule.Built
  }

  /** The verdict on the trace file of a complete run, in terms of what the threads
      committed: a cycle is reported exactly if they requested locks in a ring. */
  lemma VerdictOfCommits(acts: seq<P.Act>, pid: int, ms: seq<Module>, cap: int, r: seq<CycleSearch.Cycle>)
    requires var s := P.Run(P.Start(), acts);
             Complete(s) && CommitsLogged(s) && CommitsNoInit(s) && CommitsUncontested(s)
    requires ModulesFit(ms) && cap > 0
    ensures var s := P.Run(P.Start(), acts);
            var trace := ParseLines(Lines(FileText(pid, ms, s.file)));
            && trace.Some?
            && (FindCycles.Verdict(Replay.Run(Replay.Empty, trace.value.events).edges, cap, r)
                ==> (r != [] <==> exists c :: CommittedRing(s, c)))
  {
    hide Complete, CommitsLogged, CommitsNoInit, CommitsUncontested, SeenFile, ModulesFit, AllLogged, P.Run, Word,
      ParseLines, Lines, FileText, Replay.Run;
    var s := P.Run(P.Start(), acts);
    FileIsLogged(acts);
    FileIsRead(pid, ms, s.file);
    var edges := Replay.Run(Replay.Empty, SeenFile(s.file)).edges;
    forall key ensures key in edges <==> SomeoneBuilds(s, key) { EdgeOfCommits(acts, key); }
    forall c ensures FindCycles.IsCycle(edges, c) <==> CommittedRing(s, c) { RingIsCycle(edges, s, c); }
  }

  lemma RingIsCycle(edges: Edges, s: P.Sys, c: seq<LockId>)
    requires forall key :: key in edges <==> SomeoneBuilds(s, key)
    ensures FindCycles.IsCycle(edges, c) <==> CommittedRing(s, c)
  {
    hide SomeoneBuilds, Distinct;
    if FindCycles.IsCycle(edges, c) || CommittedRing(s, c) {
      forall i: nat | i < |c|
        ensures EdgeKey(c[i], CycleSearch.NextNode(c, i)) in edges <==>
                  SomeoneBuilds(s, EdgeKey(c[i], CycleSearch.NextNode(c, i)))
      {
      }
    }
  }

  lemma SameWords(a: P.Sys, b: P.Sys)
    requires SameCommits(a, b)
    ensures CommitsNoInit(a) <==> CommitsNoInit(b)
    ensures CommitsUncontested(a) <==> CommitsUncontested(b)
    ensures forall c :: CommittedRing(a, c) <==> CommittedRing(b, c)
  {
    hide Stream, Schedule.LocalFate, BareAll;
    forall t: P.Tid, key ensures Word(a, t, key) == Word(b, t, key) {
      assert BareAll(Stream(a, t)) == BareAll(Stream(b, t));
    }
    forall t: P.Tid ensures Schedule.NoInit(Stream(a, t)) <==> Schedule.NoInit(Stream(b, t)) {
      assert BareAll(Stream(a, t)) == BareAll(Stream(b, t));
      BareNoInit(Stream(a, t));
      BareNoInit(Stream(b, t));
    }
    SameRings(a, b);
  }

  lemma SameRings(a: P.Sys, b: P.Sys)
    requires forall t: P.Tid, key :: Word(a, t, key) == Word(b, t, key)
    ensures forall c :: CommittedRing(a, c) <==> CommittedRing(b, c)
  {
    hide Word, Distinct;
    forall key ensures SomeoneBuilds(a, key) <==> SomeoneBuilds(b, key) { }
  }

  lemma BareNoInit(es: seq<Event>)
    ensures Schedule.NoInit(BareAll(es)) <==> Schedule.NoInit(es)
  {
    hide ActionOf;
    forall i | 0 <= i < |es| ensures ActionOf(BareAll(es)[i]) == ActionOf(es[i]) { BareAction(es[i]); }
  }

  /** Two complete runs in which the threads committed the same operations: however
      threads and backend were interleaved, and whatever the times and call chains, the
      verdicts on the two trace files agree. */
  lemma InterleavingDoesNotMatter(
      a: seq<P.Act>, b: seq<P.Act>, pidA: int, pidB: int, msA: seq<Module>, msB: seq<Module>,
      capA: int, capB: int, ra: seq<CycleSearch.Cycle>, rb: seq<CycleSearch.Cycle>)
    requires var s, s' := P.Run(P.Start(), a), P.Run(P.Start(), b);
             && Complete(s) && Complete(s') && SameCommits(s, s') && CommitsLogged(s) && CommitsLogged(s')
             && CommitsNoInit(s) && CommitsUncontested(s)
    requires ModulesFit(msA) && ModulesFit(msB) && capA > 0 && capB > 0
    ensures var ta := ParseLines(Lines(FileText(pidA, msA, P.Run(P.Start(), a).file)));
            var tb := ParseLines(Lines(FileText(pidB, msB, P.Run(P.Start(), b).file)));
            && ta.Some? && tb.Some?
            && (FindCycles.Verdict(Replay.Run(Replay.Empty, ta.value.events).edges, capA, ra)
                && FindCycles.Verdict(Replay.Run(Replay.Empty, tb.value.events).edges, capB, rb)
                ==> (ra != [] <==> rb != []))
  {
    hide *;
    SameWords(P.Run(P.Start(), a), P.Run(P.Start(), b));
    VerdictOfCommits(a, pidA, msA, capA, ra);
    VerdictOfCommits(b, pidB, msB, capB, rb);
  }
}
