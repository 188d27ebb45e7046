/** Walking the frame pointers of the current stack: the loop that writes return
    addresses into an array, against the chain of frames it follows. In a frame the
    word at the frame pointer is the caller's frame pointer and the next word is the
    return address (section 3.2.2 of the System V AMD64 ABI). */
module FrameWalk {

  /** The two words of the frame lie inside the stack. */
  predicate InStack(lo: nat, hi: nat, fp: nat) {
    hi != 0 && lo <= fp && fp + 16 <= hi
  }

  /** A word of the stack; asking for one outside it is not allowed. */
  function Load(mem: nat -> nat, lo: nat, hi: nat, addr: nat): nat
    requires lo <= addr && addr + 8 <= hi
  {
    mem(addr)
  }

  datatype Frame = Frame(fp: nat, ra: nat)

  /** The frame at a frame pointer is there and not the outermost one. */
  predicate IsFrame(mem: nat -> nat, lo: nat, hi: nat, fp: nat) {
    fp % 8 == 0 && InStack(lo, hi, fp) && Load(mem, lo, hi, fp + 8) != 0
  }

  /** The chain of frames from a frame pointer on. It ends where a frame pointer is
      not aligned or outside the stack, where the return address is zero, or where the
      caller's frame is not further up. */
  function Chain(mem: nat -> nat, lo: nat, hi: nat, fp: nat): seq<Frame>
    decreases if fp < hi then hi - fp else 0
  {
    if !IsFrame(mem, lo, hi, fp) then []
    else
      var next := Load(mem, lo, hi, fp);
      [Frame(fp, Load(mem, lo, hi, fp + 8))] + if next <= fp then [] else Chain(mem, lo, hi, next)
  }

  function Returns(frames: seq<Frame>): (r: seq<nat>)
    ensures |r| == |frames| && forall i | 0 <= i < |r| :: r[i] == frames[i].ra
  {
    if frames == [] then [] else [frames[0].ra] + Returns(frames[1..])
  }

  function Min(a: int, b: int): int {
    if a < b then a else b
  }

  function AtLeast0(a: int): nat {
    if a < 0 then 0 else a
  }

  /** `s` without its first `n` elements. */
  function Behind<T>(s: seq<T>, n: nat): seq<T> {
    if n <= |s| then s[n..] else []
  }

  function Upto<T>(s: seq<T>, n: nat): seq<T> {
    if n <= |s| then s[..n] else s
  }

  /** How many addresses are kept at most: the depth, shortened by a negative skip, and
      the room in the array. */
  function Kept(skip: int, maxDepth: int, outCap: nat): nat {
    AtLeast0(Min(Min(maxDepth, if skip < 0 then skip + maxDepth else maxDepth), outCap))
  }

  /** The return addresses a walk is to deliver. */
  function Wanted(mem: nat -> nat, lo: nat, hi: nat, fp: nat, skip: int, maxDepth: int, outCap: nat): seq<nat> {
    Upto(Behind(Returns(Chain(mem, lo, hi, fp)), AtLeast0(skip)), Kept(skip, maxDepth, outCap))
  }

  /** The frame pointers of a chain strictly increase, are aligned and lie in the stack;
      each frame's words say where the next one is and where it returns to. */
  lemma {:induction false} ChainIsSound(mem: nat -> nat, lo: nat, hi: nat, fp: nat, i: nat)
    requires i < |Chain(mem, lo, hi, fp)|
    ensures var c := Chain(mem, lo, hi, fp);
            && c[i].fp % 8 == 0 && lo <= c[i].fp && c[i].fp + 16 <= hi
            && c[i].ra == mem(c[i].fp + 8) != 0
            && c[0].fp == fp && (i > 0 ==> c[i].fp == mem(c[i - 1].fp) > c[i - 1].fp)
    decreases i
  {
    var next := Load(mem, lo, hi, fp);
    if i > 0 {
      assert Chain(mem, lo, hi, fp)[1..] == Chain(mem, lo, hi, next);
      ChainIsSound(mem, lo, hi, next, i - 1);
    }
  }

  /** There is nothing to walk on to: the pointer is not aligned, its two words do not lie
      in the stack, or the return address is zero. */
  predicate NoFrame(mem: nat -> nat, lo: nat, hi: nat, fp: nat) {
    fp % 8 != 0 || hi == 0 || fp < lo || fp + 16 > hi || mem(fp + 8) == 0
  }

  /** The chain is as long as it can be: behind its last frame there is no further one. */
  lemma {:induction false} ChainIsMaximal(mem: nat -> nat, lo: nat, hi: nat, fp: nat)
    ensures var c := Chain(mem, lo, hi, fp);
            if c == [] then NoFrame(mem, lo, hi, fp)
            else var last := c[|c| - 1].fp; mem(last) <= last || NoFrame(mem, lo, hi, mem(last))
    decreases if fp < hi then hi - fp else 0
  {
    if IsFrame(mem, lo, hi, fp) {
      var next := Load(mem, lo, hi, fp);
      if next > fp { ChainIsMaximal(mem, lo, hi, next); }
    }
  }

  /** The first `n` cells hold the addresses from position `from` of the chain on; the
      others are as before. */
  ghost predicate Copied(cells: seq<nat>, before: seq<nat>, n: nat, chain: seq<nat>, from: nat) {
    && n <= |cells| == |before| && (n > 0 ==> from + n <= |chain|)
    && (forall i | 0 <= i < n :: cells[i] == chain[from + i])
    && (forall i | n <= i < |cells| :: cells[i] == before[i])
  }

  lemma CopyNone(before: seq<nat>, chain: seq<nat>, from: nat)
    ensures Copied(before, before, 0, chain, from)
  {
  }

  lemma CopyOne(cells: seq<nat>, before: seq<nat>, n: nat, chain: seq<nat>, from: nat)
    requires Copied(cells, before, n, chain, from) && n < |cells| && from + n < |chain|
    ensures Copied(cells[n := chain[from + n]], before, n + 1, chain, from)
  {
  }

  /** Nothing more is to be copied: the limit is reached, or the chain has ended. */
  ghost predicate Finished(n: nat, length: nat, from: nat, kept: nat) {
    n == kept || (n < kept && n == AtLeast0(length - from))
  }

  lemma WalkIsWanted(cells: seq<nat>, before: seq<nat>, n: nat, chain: seq<nat>, from: nat, kept: nat)
    requires Copied(cells, before, n, chain, from) && Finished(n, |chain|, from, kept)
    ensures cells[..n] == Upto(Behind(chain, from), kept) && cells[n..] == before[n..]
  {
  }

  /** `got` are return addresses of the frames `c` in order, from number `skip` on: as many
      as there are, as `maxDepth` asks for and as there is room for. A negative `skip`
      drops nothing and lowers the limit. */
  predicate Delivered(got: seq<nat>, c: seq<Frame>, skip: int, maxDepth: int, outCap: nat) {
    var n := |got|;
    if maxDepth <= 0 || skip + maxDepth <= 0 then n == 0
    else if skip >= 0 then
      && n <= maxDepth && n <= outCap && (n > 0 ==> skip + n <= |c|)
      && (n == maxDepth || n == outCap || skip + n >= |c|)
      && forall i | 0 <= i < n :: got[i] == c[skip + i].ra
    else
      && n <= skip + maxDepth && n <= outCap && n <= |c|
      && (n == skip + maxDepth || n == outCap || n == |c|)
      && forall i | 0 <= i < n :: got[i] == c[i].ra
  }

  lemma WantedIsDelivered(mem: nat -> nat, lo: nat, hi: nat, fp: nat, skip: int, maxDepth: int, outCap: nat)
    ensures Delivered(Wanted(mem, lo, hi, fp, skip, maxDepth, outCap), Chain(mem, lo, hi, fp), skip, maxDepth, outCap)
  {
    hide Chain, Returns;
  }

  /** Writes the return addresses of the walk into `out` and returns how many. */
  method CaptureFast(mem: nat -> nat, lo: nat, hi: nat, start: nat, skip: int, maxDepth: int, out: array<nat>,
                     outCap: nat)
    returns (produced: nat)
    requires outCap <= out.Length
    modifies out
    ensures produced <= outCap
    ensures out[..produced] == Wanted(mem, lo, hi, start, skip, maxDepth, outCap)
    ensures out[produced..] == old(out[produced..])
    ensures Delivered(out[..produced], Chain(mem, lo, hi, start), skip, maxDepth, outCap)
  {
    hide Chain, IsFrame, Returns, Upto, Behind, Load, Copied;
    ghost var chain := Returns(Chain(mem, lo, hi, start));
    ghost var before := out[..];
    ghost var from, kept := AtLeast0(skip), Kept(skip, maxDepth, outCap);
    produced := 0;
    CopyNone(before, chain, from);
    WantedIsDelivered(mem, lo, hi, start, skip, maxDepth, outCap);
    if maxDepth <= 0 || outCap == 0 {
      WalkIsWanted(out[..], before, 0, chain, from, kept);
      return;
    }
    var fp := start;
    var idx := 0;
    var want := skip + maxDepth;
    while idx < want
      invariant 0 <= idx && (idx <= want || idx == 0)
      invariant idx <= |chain| && Returns(Chain(mem, lo, hi, fp)) == chain[idx..]
      invariant produced == AtLeast0(idx - from) && produced < outCap && produced < maxDepth
      invariant Copied(out[..], before, produced, chain, from)
    {
      ChainStep(mem, lo, hi, fp, chain, idx);
      if fp % 8 != 0 { break; }
      if !InStack(lo, hi, fp) { break; }
      var next := Load(mem, lo, hi, fp);
      var ra := Load(mem, lo, hi, fp + 8);
      if ra == 0 { break; }
      if idx >= skip {
        CopyOne(out[..], before, produced, chain, from);
        ghost var cells := out[..];
        out[produced] := ra;
        assert out[..] == cells[produced := ra];
        produced := produced + 1;
        if produced >= maxDepth || produced >= outCap { break; }
      }
      if next <= fp { break; }
      fp := next;
      idx := idx + 1;
    }
    WalkIsWanted(out[..], before, produced, chain, from, kept);
  }

  /** What one round of the loop finds out about the chain. */
  lemma ChainStep(mem: nat -> nat, lo: nat, hi: nat, fp: nat, chain: seq<nat>, idx: nat)
    requires idx <= |chain| && Returns(Chain(mem, lo, hi, fp)) == chain[idx..]
    ensures if fp % 8 != 0 || !InStack(lo, hi, fp) || Load(mem, lo, hi, fp + 8) == 0 then idx == |chain|
            else
              && idx < |chain| && chain[idx] == Load(mem, lo, hi, fp + 8)
              && (if Load(mem, lo, hi, fp) <= fp then |chain| == idx + 1
                  else Returns(Chain(mem, lo, hi, Load(mem, lo, hi, fp))) == chain[idx + 1..])
  {
    var c := Chain(mem, lo, hi, fp);
    if idx < |chain| {
      assert chain[idx..][0] == chain[idx];
      assert chain[idx + 1..] == chain[idx..][1..];
    }
    if c != [] { assert Returns(c) == [c[0].ra] + Returns(c[1..]); }
  }
}
