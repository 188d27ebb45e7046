/** The backend's drain as it runs on the ring objects while their threads are at rest:
    one event, one scan of the registry with its unlinking of finished rings, and the
    drain at the end. What happens while the threads go on is the subject of
    RingProtocol and Pipeline. */
module Backend {
  import opened BitMask
  import opened RingLayout
  import opened ThreadRing
  import opened RingProtocol
  import opened EventBytes
  import opened TraceText

  /** A payload as the runtime frames it, with any frame count. */
  predicate Framed(p: seq<byte>) {
    |p| >= HEADER && |p| == SizeOf(p)
  }

  /** What one payload adds to the file; a frame count beyond the limit makes it skipped. */
  function Output(p: seq<byte>): string
    requires Framed(p)
  {
    if FrameCount(p) > FRAME_LIMIT then "" else EventText(Decode(p))
  }

  predicate AllFramedIn(q: seq<seq<byte>>) {
    forall i | 0 <= i < |q| :: Framed(q[i])
  }

  function Outputs(q: seq<seq<byte>>): string
    requires AllFramedIn(q)
  {
    if q == [] then "" else Output(q[0]) + Outputs(q[1..])
  }

  lemma {:induction false} OutputsConcat(a: seq<seq<byte>>, b: seq<seq<byte>>)
    requires AllFramedIn(a) && AllFramedIn(b)
    ensures Outputs(a + b) == Outputs(a) + Outputs(b)
  {
    hide Output, Framed;
    if a == [] {
      assert a + b == b;
    } else {
      OutputsConcat(a[1..], b);
      assert (a + b)[1..] == a[1..] + b && (a + b)[0] == a[0];
    }
  }

  /** The payloads of several queues, one queue after the other. */
  function Flat(qs: seq<seq<seq<byte>>>): seq<seq<byte>> {
    if qs == [] then [] else Flat(qs[..|qs| - 1]) + qs[|qs| - 1]
  }

  /** What the rings hold. */
  ghost function Queues(rs: seq<Ring>): (qs: seq<seq<seq<byte>>>)
    reads rs
    ensures |qs| == |rs| && forall i | 0 <= i < |rs| :: qs[i] == rs[i].Queue()
  {
    if rs == [] then [] else Queues(rs[..|rs| - 1]) + [rs[|rs| - 1].Queue()]
  }

  /** The rings whose threads have not finished. */
  function Living(rs: seq<Ring>): seq<Ring>
    reads rs`producerDead
  {
    if rs == [] then []
    else Living(rs[..|rs| - 1]) + if rs[|rs| - 1].producerDead then [] else [rs[|rs| - 1]]
  }

  class Drainer {
    var registry: seq<Ring>
    var file: string

    constructor ()
      ensures registry == [] && file == ""
    {
      registry, file := [], "";
    }

    /** Takes one event out of the ring and writes its lines. */
    method ProcessOneEvent(r: Ring) returns (more: bool)
      requires r.Valid() && AllFramedIn(r.Queue())
      modifies this`file, r`tail, r`consumed, r`recs
      ensures r.Valid()
      ensures more <==> old(r.Queue()) != []
      ensures more ==> old(r.Queue()) == [old(r.Queue())[0]] + r.Queue()
      ensures more ==> file == old(file) + Output(old(r.Queue())[0])
      ensures !more ==> r.recs == [] && file == old(file)
      ensures r.recs == AfterFront(old(r.recs)) && r.written == old(r.written)
    {
      hide Layout, Payloads, BytesOf, Output, EventText, Decode, SizeOf, FrameCount, AfterFront;
      ghost var q := r.Queue();
      var ok, tag := r.PeekTag();
      FrontRecord(r.recs);
      while ok && tag == TAG_SKIP
        invariant r.Valid() && r.Queue() == q && file == old(file) && AfterFront(r.recs) == AfterFront(old(r.recs))
        invariant ok <==> r.recs != []
        invariant ok ==> tag == BytesOf(r.recs[0])[0]
        decreases |r.recs|
      {
        FrontRecord(r.recs);
        r.SkipPadding();
        ok, tag := r.PeekTag();
      }
      FrontRecord(r.recs);
      ok, tag := r.PeekTag();
      if !ok { return false; }
      if tag != TAG_EVENT { return false; }
      var n := r.Readable();
      HoldsFront(r.buf[..], r.consumed, r.written, r.recs);
      if n < 1 + HEADER { return false; }
      var hdr := r.PeekPayload(HEADER);
      HeaderTells(hdr, q[0]);
      var size := SizeOf(hdr);
      n := r.Readable();
      if n < 1 + size { return false; }
      if FrameCount(hdr) > FRAME_LIMIT {
        OutputIs(q[0]);
        r.ConsumeEvent(size);
        return true;
      }
      var payload := r.PeekPayload(size);
      assert payload == q[0];
      r.ConsumeEvent(size);
      OutputIs(q[0]);
      file := file + EventText(Decode(payload));
      more := true;
    }

    /** Takes events out of the ring until there are none. */
    method DrainRing(r: Ring) returns (worked: bool)
      requires r.Valid() && AllFramedIn(r.Queue())
      modifies this`file, r`tail, r`consumed, r`recs
      ensures r.Valid() && r.recs == []
      ensures file == old(file) + Outputs(old(r.Queue())) && (worked <==> old(r.Queue()) != [])
    {
      hide Layout, Payloads, Output, Framed, Outputs, AllFramedIn, Ring.Valid;
      ghost var all, done: seq<seq<byte>> := r.Queue(), [];
      NoOutput();
      assert [] + all == all;
      worked := false;
      var more := true;
      while more
        invariant r.Valid() && all == done + r.Queue() && AllFramedIn(done) && AllFramedIn(r.Queue())
        invariant file == old(file) + Outputs(done) && (worked <==> done != [])
        invariant !more ==> r.recs == []
        decreases |r.Queue()|, more
      {
        ghost var q := r.Queue();
        more := ProcessOneEvent(r);
        EmptyQueue(r.recs);
        if more {
          worked := true;
          FirstOff(q, r.Queue());
          OneMoreOutput(done, q[0]);
          assert done + ([q[0]] + r.Queue()) == (done + [q[0]]) + r.Queue();
          done := done + [q[0]];
        }
      }
      EmptyQueue(r.recs);
      assert done == all;
    }

    /** One ring's turn in a scan: it is emptied, and if its thread has finished it is
        to be unlinked. */
    method Visit(r: Ring, ghost all: seq<Ring>, ghost qs: seq<seq<seq<byte>>>, ghost k: nat)
      returns (worked: bool, gone: bool)
      requires Apart(all) && Emptied(all, qs, k) && k < |all| && r == all[k]
      modifies this`file, r`tail, r`consumed, r`recs
      ensures Emptied(all, qs, k + 1) && AllFramedIn(qs[k])
      ensures file == old(file) + Outputs(qs[k]) && (worked <==> qs[k] != [])
      ensures gone == r.producerDead
    {
      hide Layout, Payloads, Output, Framed, Outputs, AllFramedIn, Ring.Valid;
      worked := DrainRing(r);
      var unread := r.Readable();
      gone := r.producerDead && unread == 0;
    }

    /** The rings are in order and apart from each other. */
    ghost predicate Valid()
      reads this, registry, set r | r in registry :: r.buf
    {
      && (forall i | 0 <= i < |registry| :: registry[i].Valid() && AllFramedIn(registry[i].Queue()))
      && Apart(registry)
    }

    /** One scan: every ring is emptied into the file, in the registry's order, and the
        rings of finished threads are unlinked. */
    method ScanAllRingsOnce() returns (didWork: bool)
      requires Valid()
      modifies this, registry`tail, registry`consumed, registry`recs
      ensures Valid() && registry == Living(old(registry))
      ensures forall i | 0 <= i < |old(registry)| :: old(registry)[i].Valid() && old(registry)[i].recs == []
      ensures AllFramedIn(old(Flat(Queues(registry)))) && file == old(file) + Outputs(old(Flat(Queues(registry))))
      ensures didWork <==> old(Flat(Queues(registry))) != []
    {
      hide Layout, Payloads, Output, Framed, Outputs, Flat, AllFramedIn, Ring.Valid, Living, Queues, Emptied, Apart;
      ghost var all, qs, k, alive := registry, Queues(registry), 0, Living([]);
      ghost var text := "";
      StartScan(all, qs);
      NothingFlat(qs);
      NoneLiving(all);
      didWork := false;
      var i := 0;
      while i < |registry|
        invariant k <= |all| && i <= |registry| && registry[i..] == all[k..] && registry[..i] == alive
        invariant alive == Living(all[..k])
        invariant Emptied(all, qs, k)
        invariant AllFramedIn(Flat(qs[..k])) && text == Outputs(Flat(qs[..k])) && file == old(file) + text
        invariant didWork <==> Flat(qs[..k]) != []
        decreases |all| - k
      {
        var r := registry[i];
        NextRing(registry, all, i, k);
        var worked, gone := Visit(r, all, qs, k);
        didWork := didWork || worked;
        FlatStep(qs, k);
        LivingStep(all, k);
        text := text + Outputs(qs[k]);
        if gone {
          registry := registry[..i] + registry[i + 1..];
        } else {
          i := i + 1;
          alive := alive + [r];
        }
        k := k + 1;
      }
      assert k == |all| && all[..k] == all && registry[..i] == registry;
      LivingApart(all);
      AllEmptied(all, qs, registry);
    }

    /** A new ring goes to the front of the registry. */
    method RegisterRing(r: Ring)
      requires Valid() && r.Valid() && AllFramedIn(r.Queue()) && r !in registry
      modifies this`registry
      ensures Valid() && registry == [r] + old(registry)
    {
      hide Framed;
      registry := [r] + registry;
    }

    /** The drain at the end: scans until one finds nothing. */
    method FinalDrain()
      requires Valid()
      modifies this, registry`tail, registry`consumed, registry`recs
      ensures Valid() && registry == Living(old(registry))
      ensures forall i | 0 <= i < |old(registry)| :: old(registry)[i].recs == []
      ensures AllFramedIn(old(Flat(Queues(registry)))) && file == old(file) + Outputs(old(Flat(Queues(registry))))
    {
      hide Layout, Payloads, Output, Framed, Outputs, Flat, AllFramedIn, Ring.Valid, Living, Queues, Apart;
      ghost var all := registry;
      LivingTwice(all);
      var did := ScanAllRingsOnce();
      ghost var text := file;
      while did
        invariant Valid() && registry == Living(all) && file == text
        invariant forall i | 0 <= i < |all| :: all[i].recs == []
        decreases did
      {
        NothingQueued(registry);
        did := ScanAllRingsOnce();
      }
    }
  }

  /** The first `k` rings are empty, the others hold what they held. */
  ghost predicate Emptied(all: seq<Ring>, qs: seq<seq<seq<byte>>>, k: nat)
    reads all, set r | r in all :: r.buf
  {
    && k <= |all| == |qs|
    && (forall j | 0 <= j < |all| :: all[j].Valid() && AllFramedIn(qs[j]))
    && (forall j | 0 <= j < k :: all[j].recs == [])
    && (forall j | k <= j < |all| :: all[j].Queue() == qs[j])
  }

  ghost predicate Apart(rs: seq<Ring>) {
    forall i, j | 0 <= i < j < |rs| :: rs[i] != rs[j]
  }

  /** The scan's next ring, and the registry with it kept or unlinked. */
  lemma NextRing(registry: seq<Ring>, all: seq<Ring>, i: nat, k: nat)
    requires i < |registry| && k <= |all| && registry[i..] == all[k..]
    ensures k < |all| && registry[i] == all[k] && registry[i + 1..] == all[k + 1..]
    ensures registry[..i + 1] == registry[..i] + [all[k]]
    ensures (registry[..i] + registry[i + 1..])[i..] == all[k + 1..]
    ensures (registry[..i] + registry[i + 1..])[..i] == registry[..i]
  {
    assert registry[i..][0] == all[k..][0];
    assert registry[i..][1..] == registry[i + 1..] && all[k..][1..] == all[k + 1..];
  }

  lemma NoneLiving(all: seq<Ring>)
    ensures Living([]) == [] && all[..0] == []
  {
  }

  lemma {:induction false} LivingApart(rs: seq<Ring>)
    requires Apart(rs)
    ensures Apart(Living(rs)) && forall i | 0 <= i < |Living(rs)| :: Living(rs)[i] in rs
  {
    if rs != [] {
      LivingApart(rs[..|rs| - 1]);
    }
  }

  lemma {:induction false} LivingTwice(rs: seq<Ring>)
    ensures Living(Living(rs)) == Living(rs) && forall i | 0 <= i < |Living(rs)| :: Living(rs)[i] in rs
  {
    if rs != [] {
      var front := rs[..|rs| - 1];
      LivingTwice(front);
      if !rs[|rs| - 1].producerDead {
        var l := Living(rs);
        assert l[..|l| - 1] == Living(front) && l[|l| - 1] == rs[|rs| - 1];
      } else {
        assert Living(rs) == Living(front);
      }
    }
  }

  lemma {:induction false} NothingQueued(rs: seq<Ring>)
    requires forall i | 0 <= i < |rs| :: rs[i].recs == []
    ensures Flat(Queues(rs)) == [] && AllFramedIn([]) && Outputs([]) == ""
  {
    if rs != [] { NothingQueued(rs[..|rs| - 1]); }
  }

  lemma AllEmptied(all: seq<Ring>, qs: seq<seq<seq<byte>>>, rs: seq<Ring>)
    requires Emptied(all, qs, |all|) && forall i | 0 <= i < |rs| :: rs[i] in all
    ensures forall i | 0 <= i < |rs| :: rs[i].Valid() && AllFramedIn(rs[i].Queue())
    ensures forall i | 0 <= i < |all| :: all[i].Valid() && all[i].recs == []
  {
    hide Ring.Valid;
  }

  lemma StartScan(all: seq<Ring>, qs: seq<seq<seq<byte>>>)
    requires |qs| == |all|
    requires forall i | 0 <= i < |all| :: all[i].Valid() && AllFramedIn(all[i].Queue()) && qs[i] == all[i].Queue()
    ensures Emptied(all, qs, 0) && AllFramedIn(Flat(qs))
  {
    hide Ring.Valid, Flat, AllFramedIn;
    FlatFramed(qs);
  }

  /** What the first record says about the queue. */
  lemma FrontRecord(recs: seq<Record>)
    ensures AfterFront(recs) == if recs == [] then [] else if recs[0] == Skip then AfterFront(recs[1..]) else recs[1..]
    ensures recs == [] ==> Payloads(recs) == []
    ensures recs != [] ==> (recs[0] == Skip <==> BytesOf(recs[0])[0] == TAG_SKIP)
    ensures recs != [] && recs[0].Ev? ==> BytesOf(recs[0])[0] == TAG_EVENT
    ensures recs != [] && recs[0].Ev? ==> Payloads(recs) != [] && Payloads(recs)[0] == recs[0].payload
  {
  }

  /** The ring holds the whole of the front record. */
  lemma HoldsFront(buf: seq<byte>, tail: nat, head: nat, recs: seq<Record>)
    requires Layout(buf, tail, head, recs)
    ensures recs != [] && recs[0].Ev? ==> head - tail >= 1 + |recs[0].payload|
  {
  }

  lemma HeaderTells(hdr: seq<byte>, p: seq<byte>)
    requires Framed(p) && hdr == p[..HEADER]
    ensures SizeOf(hdr) == |p| && FrameCount(hdr) == FrameCount(p)
  {
  }

  lemma FirstOff(q: seq<seq<byte>>, rest: seq<seq<byte>>)
    requires AllFramedIn(q) && q != [] && q == [q[0]] + rest
    ensures Framed(q[0]) && AllFramedIn(rest) && |rest| == |q| - 1
  {
    assert rest == q[1..];
  }

  lemma {:induction false} FlatFramed(qs: seq<seq<seq<byte>>>)
    requires forall i | 0 <= i < |qs| :: AllFramedIn(qs[i])
    ensures AllFramedIn(Flat(qs))
  {
    hide Framed;
    if qs != [] { FlatFramed(qs[..|qs| - 1]); }
  }

  lemma NothingFlat(qs: seq<seq<seq<byte>>>)
    ensures Flat(qs[..0]) == [] && AllFramedIn([]) && Outputs(Flat(qs[..0])) == "" && Flat(qs[..|qs|]) == Flat(qs)
  {
    assert qs[..|qs|] == qs;
  }

  lemma FlatStep(qs: seq<seq<seq<byte>>>, k: nat)
    requires k < |qs| && AllFramedIn(qs[k]) && AllFramedIn(Flat(qs[..k]))
    ensures Flat(qs[..k + 1]) == Flat(qs[..k]) + qs[k]
    ensures AllFramedIn(Flat(qs[..k + 1]))
    ensures Outputs(Flat(qs[..k + 1])) == Outputs(Flat(qs[..k])) + Outputs(qs[k])
  {
    hide Framed, Outputs;
    assert qs[..k + 1][..k] == qs[..k];
    OutputsConcat(Flat(qs[..k]), qs[k]);
  }

  lemma LivingStep(all: seq<Ring>, k: nat)
    requires k < |all|
    ensures Living(all[..k + 1]) == Living(all[..k]) + if all[k].producerDead then [] else [all[k]]
  {
    assert all[..k + 1][..k] == all[..k];
  }

  lemma NoOutput()
    ensures AllFramedIn([]) && Outputs([]) == ""
  {
  }

  lemma EmptyQueue(recs: seq<Record>)
    ensures recs == [] ==> Payloads(recs) == []
  {
  }

  lemma OneMoreOutput(done: seq<seq<byte>>, p: seq<byte>)
    requires AllFramedIn(done) && Framed(p)
    ensures AllFramedIn(done + [p]) && Outputs(done + [p]) == Outputs(done) + Output(p)
  {
    OutputsConcat(done, [p]);
    assert Outputs([p]) == Output(p) + Outputs([]);
  }

  lemma OutputIs(p: seq<byte>)
    requires Framed(p)
    ensures Output(p) == if FrameCount(p) > FRAME_LIMIT then "" else EventText(Decode(p))
  {
  }
}
