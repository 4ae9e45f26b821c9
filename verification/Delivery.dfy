/**
  What the parser delivers over whole runs: which frames, when, and in which states it is stuck.
 */
module Delivery {
  import opened Bits
  import opened Wire
  import opened Frame
  import opened FrameProperties
  import opened Stream

  // ---------- streams of frames, possibly after junk ----------

  /** No magic begins in `x`. */
  ghost predicate MagicFree(x: seq<byte>) {
    forall i :: 0 <= i <= |x| ==> !HasMagic(x[i..])
  }

  /** How many of the frames have arrived in full after `n` bytes of them. */
  function Whole(n: int, frames: seq<seq<byte>>): (k: nat)
    ensures k <= |frames|
    decreases |frames|
  {
    if frames == [] || n < |frames[0]| then 0 else 1 + Whole(n - |frames[0]|, frames[1..])
  }

  lemma {:induction false} ConcatSplit(frames: seq<seq<byte>>, k: nat)
    requires k <= |frames|
    ensures Concat(frames) == Concat(frames[..k]) + Concat(frames[k..])
  {
    if k > 0 {
      ConcatSplit(frames[1..], k - 1);
      assert frames[..k][1..] == frames[1..][..k - 1];
      assert frames[1..][k - 1..] == frames[k..];
    } else {
      assert frames[0..] == frames;
    }
  }

  /** `Whole` counts exactly: so many frames fit in `n` bytes, and one more does not. */
  lemma {:induction false} WholeFits(n: nat, frames: seq<seq<byte>>)
    requires n <= |Concat(frames)|
    ensures var k := Whole(n, frames);
      |Concat(frames[..k])| <= n && (k < |frames| ==> n < |Concat(frames[..k + 1])|)
    decreases |frames|
  {
    if frames != [] && n >= |frames[0]| {
      WholeFits(n - |frames[0]|, frames[1..]);
      var k := Whole(n, frames);
      assert frames[..k][1..] == frames[1..][..k - 1];
      if k < |frames| {
        assert frames[..k + 1][1..] == frames[1..][..k];
      }
    } else if frames != [] {
      assert frames[..1] == [frames[0]];
      assert Concat(frames[..1]) == frames[0] + Concat([]);
    }
  }

  lemma FrameStart(p: seq<byte>, frames: seq<seq<byte>>)
    requires AllExact(frames) && p <= Concat(frames)
    ensures |p| >= 4 ==> HasMagic(p)
    ensures |p| > 0 ==> p[0] == 0x42
  {
    hide FrameLen, DeclaredLen;
    if p != [] {
      assert IsExact(frames[0]);
      assert frames[0][..4] == FRAME_MAGIC;
      assert Concat(frames)[..4] == FRAME_MAGIC;
      if |p| >= 4 {
        assert p[..4] == Concat(frames)[..4];
      }
    }
  }

  lemma JunkHidesNothing(junk: seq<byte>, p: seq<byte>)
    requires MagicFree(junk) && junk != []
    requires |p| > 0 ==> p[0] == 0x42
    ensures !HasMagic(junk + p)
  {
    var x := junk + p;
    if |junk| >= 4 {
      assert junk[0..][..4] == x[..4];
      assert !HasMagic(junk[0..]);
    } else if |x| >= 4 {
      assert x[..4][|junk|] == p[0];
    }
  }

  /** The magic does not overlap itself, so junk without a magic cannot hide the start of a frame. */
  lemma {:induction false} AlignSkipsJunk(junk: seq<byte>, p: seq<byte>) returns (kept: seq<byte>)
    requires MagicFree(junk)
    requires |p| >= 4 ==> HasMagic(p)
    requires |p| > 0 ==> p[0] == 0x42
    ensures Align(junk + p) == kept + p
    ensures MagicFree(kept) && |kept| <= |junk| && kept == junk[|junk| - |kept|..]
    ensures |p| >= 4 || junk == [] ==> kept == []
    ensures |p| < 4 ==> |kept + p| <= 3
  {
    var x := junk + p;
    if junk == [] {
      assert x == p;
      kept := [];
    } else if |x| < 4 {
      kept := junk;
    } else {
      JunkHidesNothing(junk, p);
      assert x[1..] == junk[1..] + p;
      SuffixMagicFree(junk, 1);
      kept := AlignSkipsJunk(junk[1..], p);
    }
  }

  lemma SuffixMagicFree(x: seq<byte>, k: nat)
    requires MagicFree(x) && k <= |x|
    ensures MagicFree(x[k..])
  {
    hide HasMagic;
    forall i | 0 <= i <= |x| - k
      ensures !HasMagic(x[k..][i..])
    {
      assert x[k..][i..] == x[k + i..];
    }
  }

  /** How many frames a parser takes before the first one that it refuses; a tolerant one refuses none. */
  function Readable(frames: seq<seq<byte>>, tolerant: bool): (k: nat)
    ensures k <= |frames| && (tolerant ==> k == |frames|)
  {
    if frames == [] || (!tolerant && Interpret(frames[0]).Failed?) then 0 else 1 + Readable(frames[1..], tolerant)
  }

  /** `Readable` finds the first bad frame of a strict parser. */
  lemma {:induction false} ReadableFirst(frames: seq<seq<byte>>)
    ensures var k := Readable(frames, false);
      && (forall i :: 0 <= i < k ==> Interpret(frames[i]).Decoded?)
      && (k < |frames| ==> Interpret(frames[k]).Failed?)
  {
    hide Interpret;
    if frames != [] && Interpret(frames[0]).Decoded? {
      var rest := frames[1..];
      ReadableFirst(rest);
      forall i | 0 <= i < Readable(frames, false)
        ensures Interpret(frames[i]).Decoded?
      {
        assert i > 0 ==> frames[i] == rest[i - 1];
      }
    }
  }

  /** How many frames have been taken after `n` bytes of them. */
  function Taken(n: int, frames: seq<seq<byte>>, tolerant: bool): (k: nat)
    ensures k <= |frames|
  {
    if Readable(frames, tolerant) < Whole(n, frames) then Readable(frames, tolerant) else Whole(n, frames)
  }

  lemma DrainFirst(f: seq<byte>, y: seq<byte>, tolerant: bool)
    requires IsExact(f) && (tolerant || Interpret(f).Decoded?)
    ensures var d := Drain(y, tolerant);
      Drain(f + y, tolerant) == Drained([Interpret(f)] + d.events, d.rest, d.thrown)
  {
    hide Interpret, IsExact, HasMagic, FrameLen, TrySliceOneFrame, Align;
    SliceOfExact(f, y);
  }

  /** Splitting the first frame off a stream. */
  lemma WholeStep(p: seq<byte>, frames: seq<seq<byte>>, k: nat)
    requires frames != [] && |p| >= |frames[0]| && p <= Concat(frames) && 1 <= k <= |frames|
    ensures var f := frames[0]; var q := p[|f|..]; var c := Concat(frames[1..][..k - 1]);
      && p == f + q && q <= Concat(frames[1..])
      && Whole(|p|, frames) == 1 + Whole(|q|, frames[1..])
      && InterpretAll(frames[..k]) == [Interpret(f)] + InterpretAll(frames[1..][..k - 1])
      && Concat(frames[..k]) == f + c
      && (|c| <= |q| ==> p[|Concat(frames[..k])|..] == q[|c|..])
  {
    hide Interpret;
    var f := frames[0];
    assert f == Concat(frames)[..|f|] && Concat(frames)[|f|..] == Concat(frames[1..]);
    assert frames[..k][1..] == frames[1..][..k - 1] && frames[..k][0] == f;
  }

  /** Why a strict parser stops. */
  function Refusal(n: int, frames: seq<seq<byte>>, tolerant: bool): Option<ErrorCode> {
    var k := Readable(frames, tolerant);
    if k < Whole(n, frames) && Interpret(frames[k]).Failed? then Some(Interpret(frames[k]).code) else None
  }

  /** Draining a part of a stream of frames takes the whole good ones and leaves the bad or the cut one. */
  lemma {:induction false} DrainFramesAndTail(p: seq<byte>, frames: seq<seq<byte>>, tolerant: bool)
    requires AllExact(frames) && p <= Concat(frames)
    ensures var k := Taken(|p|, frames, tolerant);
      && |Concat(frames[..k])| <= |p|
      && Drain(p, tolerant)
         == Drained(InterpretAll(frames[..k]), p[|Concat(frames[..k])|..], Refusal(|p|, frames, tolerant))
    decreases |frames|
  {
    hide Interpret, IsExact, HasMagic, FrameLen, TrySliceOneFrame, Align, Drain;
    assert p[0..] == p;
    if frames == [] || |p| < |frames[0]| {
      CutFrameWaits(p, frames);
      CutDrains(p, tolerant);
    } else {
      var f := frames[0];
      var q := p[|f|..];
      assert IsExact(f);
      WholeStep(p, frames, 1);
      if Interpret(f).Failed? && !tolerant {
        DrainRefuses(f, q);
      } else {
        DrainFirst(f, q, tolerant);
        DrainFramesAndTail(q, frames[1..], tolerant);
        TakenStep(p, frames, tolerant);
        WholeStep(p, frames, Taken(|p|, frames, tolerant));
        hide Taken, Refusal, Concat, InterpretAll;
      }
    }
  }

  lemma TakenStep(p: seq<byte>, frames: seq<seq<byte>>, tolerant: bool)
    requires frames != [] && |p| >= |frames[0]| && (tolerant || Interpret(frames[0]).Decoded?)
    ensures var n := |p| - |frames[0]|;
      && Taken(|p|, frames, tolerant) == 1 + Taken(n, frames[1..], tolerant)
      && Refusal(|p|, frames, tolerant) == Refusal(n, frames[1..], tolerant)
  {
    hide Interpret;
  }

  lemma DrainRefuses(f: seq<byte>, y: seq<byte>)
    requires IsExact(f) && Interpret(f).Failed?
    ensures Drain(f + y, false) == Drained([], f + y, Some(Interpret(f).code))
  {
    hide Interpret, IsExact, HasMagic, FrameLen, TrySliceOneFrame, Align;
    SliceOfExact(f, y);
  }

  lemma CutFrameWaits(p: seq<byte>, frames: seq<seq<byte>>)
    requires AllExact(frames) && p <= Concat(frames)
    requires frames == [] || |p| < |frames[0]|
    ensures TrySliceOneFrame(p) == None && Align(p) == p
  {
    hide FromLE;
    FrameStart(p, frames);
    if |p| >= FRAME_HEADER_SIZE {
      assert IsExact(frames[0]);
      assert p[16..18] == Concat(frames)[16..18] == frames[0][16..18];
    }
  }

  /** Draining more of the stream goes on where draining less of it stopped. */
  lemma {:induction false} DrainContinues(p: seq<byte>, c: seq<byte>, frames: seq<seq<byte>>, tolerant: bool)
    requires AllExact(frames) && p + c <= Concat(frames)
    ensures var d := Drain(p, tolerant);
      && Align(d.rest + c) == d.rest + c
      && Drain(p + c, tolerant) == Drained(
           d.events + Drain(d.rest + c, tolerant).events,
           Drain(d.rest + c, tolerant).rest,
           Drain(d.rest + c, tolerant).thrown)
    decreases |frames|
  {
    hide Interpret, IsExact, HasMagic, FrameLen, TrySliceOneFrame, Align, Drain;
    assert p <= Concat(frames) by {
      assert p == (p + c)[..|p|];
    }
    if frames == [] || |p| < |frames[0]| {
      CutFrameWaits(p, frames);
      CutDrains(p, tolerant);
      PartAligned(p + c, frames);
    } else {
      var f := frames[0];
      var q := p[|f|..];
      assert IsExact(f);
      assert p == f + q && p + c == f + (q + c);
      if Interpret(f).Failed? && !tolerant {
        DrainRefuses(f, q);
        PartAligned(p + c, frames);
        return;
      }
      DrainFirst(f, q, tolerant);
      DrainFirst(f, q + c, tolerant);
      assert Concat(frames)[|f|..] == Concat(frames[1..]);
      DrainContinues(q, c, frames[1..], tolerant);
      var d := Drain(q, tolerant);
      assert [Interpret(f)] + (d.events + Drain(d.rest + c, tolerant).events)
          == ([Interpret(f)] + d.events) + Drain(d.rest + c, tolerant).events;
    }
  }

  lemma CutDrains(p: seq<byte>, tolerant: bool)
    requires TrySliceOneFrame(p) == None && Align(p) == p
    ensures Drain(p, tolerant) == Drained([], p, None)
  {
    hide Align, TrySliceOneFrame;
  }

  lemma PartAligned(p: seq<byte>, frames: seq<seq<byte>>)
    requires AllExact(frames) && p <= Concat(frames)
    ensures Align(p) == p
  {
    FrameStart(p, frames);
  }

  lemma ShortDrains(b: seq<byte>, tolerant: bool)
    requires |b| <= 3
    ensures Drain(b, tolerant) == Drained([], b, None)
  {}

  /** Where a parser stands after receiving the part `x` of a stream of junk and frames. */
  function Standing(x: seq<byte>, junkLen: nat, tolerant: bool): Parsed {
    if |x| < junkLen + 4 then Parsed([], Align(x))
    else var d := Drain(x[junkLen..], tolerant); Parsed(d.events, d.rest)
  }

  /** Receiving a part of the junk and at most three bytes of the frames leaves at most three bytes. */
  lemma JunkStanding(x: seq<byte>, junk: seq<byte>, frames: seq<seq<byte>>)
    requires MagicFree(junk) && AllExact(frames) && x <= junk + Concat(frames) && |x| < |junk| + 4
    ensures |Align(x)| <= 3
  {
    hide IsExact, HasMagic, Align;
    if |x| <= |junk| {
      PrefixMagicFree(junk, |x|);
      assert x == junk[..|x|] + [];
      var kept := AlignSkipsJunk(junk[..|x|], []);
    } else {
      var p := x[|junk|..];
      assert x == junk + p && p <= Concat(frames);
      FrameStart(p, frames);
      var kept := AlignSkipsJunk(junk, p);
    }
  }

  /** Once four bytes of the frames are there, alignment has dropped exactly the junk. */
  lemma FramesStanding(x: seq<byte>, junk: seq<byte>, frames: seq<seq<byte>>)
    requires MagicFree(junk) && AllExact(frames) && x <= junk + Concat(frames) && |x| >= |junk| + 4
    ensures Align(x) == x[|junk|..] && x[|junk|..] <= Concat(frames)
  {
    hide IsExact, HasMagic, Align;
    var p := x[|junk|..];
    assert x == junk + p && p <= Concat(frames);
    FrameStart(p, frames);
    var kept := AlignSkipsJunk(junk, p);
    assert kept + p == p;
  }

  /** One push moves the parser from one standing to the next. */
  lemma PushKeepsStanding(x: seq<byte>, c: seq<byte>, junk: seq<byte>, frames: seq<seq<byte>>, tolerant: bool)
    requires MagicFree(junk) && AllExact(frames)
    requires x + c <= junk + Concat(frames)
    ensures var st := Standing(x, |junk|, tolerant); var d := Push(st.rest, c, tolerant);
      Standing(x + c, |junk|, tolerant) == Parsed(st.events + d.events, d.rest)
  {
    hide Interpret, IsExact, HasMagic, FrameLen, TrySliceOneFrame, Align, Drain;
    var y := x + c;
    if |x| < |junk| + 4 {
      AlignLaw(x, c);
      if |y| < |junk| + 4 {
        JunkStanding(y, junk, frames);
        ShortDrains(Align(y), tolerant);
      } else {
        FramesStanding(y, junk, frames);
      }
    } else {
      assert x <= junk + Concat(frames) by {
        assert x == y[..|x|];
      }
      FramesStanding(y, junk, frames);
      assert y[|junk|..] == x[|junk|..] + c;
      DrainContinues(x[|junk|..], c, frames, tolerant);
    }
  }

  lemma {:induction false} ConcatLast(chunks: seq<seq<byte>>, c: seq<byte>)
    ensures Concat(chunks + [c]) == Concat(chunks) + c
  {
    ConcatSplit(chunks + [c], |chunks|);
    assert (chunks + [c])[..|chunks|] == chunks;
    assert (chunks + [c])[|chunks|..] == [c];
    assert Concat([c]) == c + Concat([]);
  }

  /** The standing after any run is decided by the bytes received, not by how they were cut. */
  lemma {:induction false} RunStanding(chunks: seq<seq<byte>>, junk: seq<byte>, frames: seq<seq<byte>>, tolerant: bool)
    requires MagicFree(junk) && AllExact(frames)
    requires Concat(chunks) <= junk + Concat(frames)
    ensures Run([], chunks, tolerant) == Standing(Concat(chunks), |junk|, tolerant)
    decreases |chunks|
  {
    hide AllExact, MagicFree, Standing, Push;
    if chunks == [] {
      EmptyStanding(|junk|, tolerant);
    } else {
      var n := |chunks| - 1;
      var cs, c := chunks[..n], chunks[n];
      assert chunks == cs + [c];
      ConcatLast(cs, c);
      assert Concat(cs) == Concat(chunks)[..|Concat(cs)|];
      RunStanding(cs, junk, frames, tolerant);
      RunLast([], cs, c, tolerant);
      PushKeepsStanding(Concat(cs), c, junk, frames, tolerant);
    }
  }

  lemma EmptyStanding(junkLen: nat, tolerant: bool)
    ensures Standing([], junkLen, tolerant) == Parsed([], [])
  {}

  /** What a parser keeps: the bytes of a cut frame, or everything from the first refused frame on. */
  ghost predicate Keeps(rest: seq<byte>, n: int, frames: seq<seq<byte>>, tolerant: bool) {
    var k := Readable(frames, tolerant);
    if k < Whole(n, frames) then frames[k] <= rest
    else |rest| <= 2069 && Parse(rest).events == []
  }

  /**
    Exact delivery. Of a stream of frames, optionally after junk without a magic and however it is
    cut, the parser has delivered exactly the frames received in full, in order and at once; a
    strict parser those before the first bad one. It keeps the bytes of the cut frame or everything
    from the bad one on, or at most three bytes while the junk is not past.
   */
  lemma ExactDelivery(chunks: seq<seq<byte>>, junk: seq<byte>, frames: seq<seq<byte>>, tolerant: bool)
    requires MagicFree(junk) && AllExact(frames)
    requires Concat(chunks) <= junk + Concat(frames)
    ensures var r := Run([], chunks, tolerant);
      var n := |Concat(chunks)| - |junk|; var k := Taken(n, frames, tolerant);
      && r.events == InterpretAll(frames[..k])
      && (junk == [] || n >= 4 ==> junk + Concat(frames[..k]) + r.rest == Concat(chunks))
      && (n < 4 ==> |r.rest| <= 3)
      && Keeps(r.rest, n, frames, tolerant)
  {
    hide *;
    RunStanding(chunks, junk, frames, tolerant);
    if |Concat(chunks)| - |junk| < 4 {
      DeliveredWithJunk(Concat(chunks), junk, frames, tolerant);
    } else {
      DeliveredPastJunk(Concat(chunks), junk, frames, tolerant);
    }
  }

  lemma DeliveredWithJunk(x: seq<byte>, junk: seq<byte>, frames: seq<seq<byte>>, tolerant: bool)
    requires MagicFree(junk) && AllExact(frames) && x <= junk + Concat(frames) && |x| < |junk| + 4
    ensures var r := Standing(x, |junk|, tolerant); var n := |x| - |junk|;
      && Taken(n, frames, tolerant) == 0 && r.events == [] && |r.rest| <= 3 && Keeps(r.rest, n, frames, tolerant)
      && (junk == [] ==> junk + Concat(frames[..0]) + r.rest == x)
  {
    hide IsExact, HasMagic, Align, Parse;
    JunkStanding(x, junk, frames);
    NoneWhole(|x| - |junk|, frames);
    ShortParses(Align(x));
    if junk == [] {
      PartAligned(x, frames);
    }
  }

  lemma DeliveredPastJunk(x: seq<byte>, junk: seq<byte>, frames: seq<seq<byte>>, tolerant: bool)
    requires MagicFree(junk) && AllExact(frames)
    requires x <= junk + Concat(frames) && |x| >= |junk| + 4
    ensures var r := Standing(x, |junk|, tolerant); var n := |x| - |junk|; var k := Taken(n, frames, tolerant);
      && r.events == InterpretAll(frames[..k])
      && junk + Concat(frames[..k]) + r.rest == x
      && Keeps(r.rest, n, frames, tolerant)
  {
    hide Interpret, IsExact, HasMagic, FrameLen, TrySliceOneFrame, Align, Drain, Parse, AllExact, Readable, Whole;
    FramesStanding(x, junk, frames);
    var p := x[|junk|..];
    DrainFramesAndTail(p, frames, tolerant);
    KeptTail(p, frames, tolerant);
    var k := Taken(|p|, frames, tolerant);
    var c := Concat(frames[..k]);
    ConcatSplit(frames, k);
    assert p[..|c|] == c;
    assert junk + c + p[|c|..] == x;
  }

  /** The bytes behind the frames taken from `p` are kept as they should be. */
  lemma KeptTail(p: seq<byte>, frames: seq<seq<byte>>, tolerant: bool)
    requires AllExact(frames) && p <= Concat(frames)
    ensures var k := Taken(|p|, frames, tolerant); var c := Concat(frames[..k]);
      |c| <= |p| && Keeps(p[|c|..], |p|, frames, tolerant)
  {
    hide Readable, Whole, Parse, AllExact, InterpretAll, Drain, Interpret;
    var k := Readable(frames, tolerant);
    var w := Whole(|p|, frames);
    DrainFramesAndTail(p, frames, tolerant);
    if w <= k {
      CutTail(p, frames);
    } else {
      WholeFits(|p|, frames);
      WholeHoldsFirst(p, frames, k);
    }
  }

  /** Behind the first `k` frames lies the next one, if more than `k` are whole. */
  lemma WholeHoldsFirst(p: seq<byte>, frames: seq<seq<byte>>, k: nat)
    requires k < Whole(|p|, frames) && p <= Concat(frames) && |Concat(frames[..k])| <= |p|
    requires |Concat(frames[..Whole(|p|, frames)])| <= |p|
    ensures frames[k] <= p[|Concat(frames[..k])|..]
  {
    hide Whole;
    var w := Whole(|p|, frames);
    var a := frames[..w];
    ConcatSplit(frames, w);
    ConcatSplit(a, k);
    assert a[..k] == frames[..k];
    assert a[k..][0] == frames[k];
    var c := Concat(frames[..k]);
    assert Concat(a) == p[..|Concat(a)|];
    assert c + frames[k] <= Concat(a);
    assert frames[k] == p[|c|..][..|frames[k]|];
  }

  lemma ShortParses(b: seq<byte>)
    requires |b| <= 3
    ensures Parse(b).events == []
  {}

  lemma NoneWhole(n: int, frames: seq<seq<byte>>)
    requires AllExact(frames) && n < 4
    ensures Whole(n, frames) == 0
  {
    if frames != [] {
      assert IsExact(frames[0]);
    }
  }

  /** The bytes left after the whole frames of `p` are the beginning of the next frame. */
  lemma {:induction false} CutTail(p: seq<byte>, frames: seq<seq<byte>>)
    requires AllExact(frames) && p <= Concat(frames)
    ensures var c := Concat(frames[..Whole(|p|, frames)]);
      |c| <= |p| && |p[|c|..]| <= 2069 && Parse(p[|c|..]).events == []
    decreases |frames|
  {
    hide IsExact, HasMagic, FrameLen, TrySliceOneFrame, Align;
    if frames == [] || |p| < |frames[0]| {
      CutFrameWaits(p, frames);
      assert p[0..] == p;
      if frames != [] {
        ExactSize(frames[0]);
      }
    } else {
      WholeStep(p, frames, Whole(|p|, frames));
      CutTail(p[|frames[0]|..], frames[1..]);
      hide Whole, Concat, InterpretAll;
    }
  }

  lemma ExactSize(f: seq<byte>)
    requires IsExact(f)
    ensures |f| <= 2070
  {}

  lemma PrefixMagicFree(x: seq<byte>, k: nat)
    requires MagicFree(x) && k <= |x|
    ensures MagicFree(x[..k])
  {
    forall i | 0 <= i <= k
      ensures !HasMagic(x[..k][i..])
    {
      if k - i >= 4 {
        assert x[..k][i..][..4] == x[i..][..4];
        assert !HasMagic(x[i..]);
      }
    }
  }
}
