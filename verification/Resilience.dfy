/**
  How the parser behaves when the stream is damaged, when it lags behind, and when it is stuck.
 */
module Resilience {
  import opened Bits
  import opened Crc32
  import opened Wire
  import opened Frame
  import opened FrameProperties
  import opened Stream
  import opened Delivery

  // ---------- damage ----------

  /** `g` is `f` altered anywhere except in the magic and the length. */
  ghost predicate Damaged(f: seq<byte>, g: seq<byte>) {
    |f| == |g| && |f| >= 18 && f[..4] == g[..4] && f[16..18] == g[16..18]
  }

  ghost predicate AllDamaged(fs: seq<seq<byte>>, gs: seq<seq<byte>>) {
    |fs| == |gs| && forall i :: 0 <= i < |fs| ==> Damaged(fs[i], gs[i])
  }

  lemma DamagedIsExact(f: seq<byte>, g: seq<byte>)
    requires IsExact(f) && Damaged(f, g)
    ensures IsExact(g)
  {
    hide FromLE;
  }

  lemma {:induction false} InterpretAllAt(frames: seq<seq<byte>>, i: nat)
    requires i < |frames|
    ensures InterpretAll(frames)[i] == Interpret(frames[i])
  {
    hide Interpret;
    if i > 0 {
      InterpretAllAt(frames[1..], i - 1);
    }
  }

  lemma {:induction false} AllWhole(frames: seq<seq<byte>>)
    ensures Whole(|Concat(frames)|, frames) == |frames|
  {
    if frames != [] {
      AllWhole(frames[1..]);
    }
  }

  /** A whole stream of exact frames gives one event for each. */
  lemma WholeStreamDelivered(chunks: seq<seq<byte>>, frames: seq<seq<byte>>)
    requires AllExact(frames) && Concat(chunks) == Concat(frames)
    ensures Run([], chunks, true).events == InterpretAll(frames)
  {
    hide Run, InterpretAll, IsExact;
    assert Concat(chunks) <= [] + Concat(frames);
    assert MagicFree([]);
    ExactDelivery(chunks, [], frames, true);
    AllWhole(frames);
    assert frames[..|frames|] == frames;
  }

  /**
    Damage stays local: when any of the frames are altered outside magic and length, every frame
    still gives exactly one event, its own, however the stream is cut.
   */
  lemma DamageStaysLocal(chunks: seq<seq<byte>>, fs: seq<seq<byte>>, gs: seq<seq<byte>>)
    requires AllExact(fs) && AllDamaged(fs, gs) && Concat(chunks) == Concat(gs)
    ensures var events := Run([], chunks, true).events;
      && |events| == |fs|
      && (forall i :: 0 <= i < |fs| ==> events[i] == Interpret(gs[i]))
      && (forall i :: 0 <= i < |fs| && gs[i] == fs[i] ==> events[i] == Interpret(fs[i]))
  {
    hide Run, Interpret, IsExact, Damaged;
    forall i | 0 <= i < |gs|
      ensures IsExact(gs[i])
    {
      DamagedIsExact(fs[i], gs[i]);
    }
    WholeStreamDelivered(chunks, gs);
    forall i | 0 <= i < |gs|
      ensures InterpretAll(gs)[i] == Interpret(gs[i])
    {
      InterpretAllAt(gs, i);
    }
  }

  /** `g` is `f` hit by one burst of at most 32 bits that spares magic and length. */
  ghost predicate Burst(f: seq<byte>, g: seq<byte>) {
    Damaged(f, g) && f != g
    && exists lo: nat, hi: nat ::
         lo <= hi <= 8 * |f| && hi - lo <= 32 && AgreeOutside(BitString(f), BitString(g), lo, hi)
  }

  /** What should be said of the frame `g` on the wire: that it arrived as sent, or what hit it. */
  ghost predicate Told(input: EncodeFrameInput, g: seq<byte>, e: Event)
    requires Encoded(input).Ok? && Received(input).Ok?
  {
    if g == Encoded(input).value then e == Decoded(Received(input).value)
    else |g| >= 22 && e == Failed(if g[4] != 1 then VERSION else CRC)
  }

  /**
    Bursts on the wire: of encoded frames, each intact or hit by one burst, the intact ones are
    delivered as the receiver should see them and every other one is reported with its code.
   */
  lemma BurstsReported(chunks: seq<seq<byte>>, inputs: seq<EncodeFrameInput>, gs: seq<seq<byte>>)
    requires |gs| == |inputs|
    requires forall i :: 0 <= i < |gs| ==> Encoded(inputs[i]).Ok? && Received(inputs[i]).Ok?
    requires forall i :: 0 <= i < |gs| ==>
      gs[i] == Encoded(inputs[i]).value || Burst(Encoded(inputs[i]).value, gs[i])
    requires Concat(chunks) == Concat(gs)
    ensures var events := Run([], chunks, true).events;
      && |events| == |gs|
      && forall i :: 0 <= i < |gs| ==> Told(inputs[i], gs[i], events[i])
  {
    hide Run, IsExact, Encoded, Received, DecodeFrame, Burst, Told;
    forall i | 0 <= i < |gs|
      ensures IsExact(gs[i]) && Told(inputs[i], gs[i], Interpret(gs[i]))
    {
      FrameOrBurst(inputs[i], gs[i]);
    }
    WholeStreamDelivered(chunks, gs);
    forall i | 0 <= i < |gs|
      ensures InterpretAll(gs)[i] == Interpret(gs[i])
    {
      InterpretAllAt(gs, i);
    }
  }

  lemma FrameOrBurst(input: EncodeFrameInput, g: seq<byte>)
    requires Encoded(input).Ok? && Received(input).Ok?
    requires g == Encoded(input).value || Burst(Encoded(input).value, g)
    ensures IsExact(g) && Told(input, g, Interpret(g))
  {
    hide IsExact, Encoded, Received, DecodeFrame, FromLE, BitString, ChecksumHolds, DamageCode, HasMagic;
    var f := Encoded(input).value;
    SendableExactly(input);
    EncodedParts(input);
    if g == f {
      DecodeOfEncoded(input);
    } else {
      DamagedIsExact(f, g);
      var lo: nat, hi: nat :|
        lo <= hi <= 8 * |f| && hi - lo <= 32 && AgreeOutside(BitString(f), BitString(g), lo, hi);
      BurstDetected(f, g, lo, hi);
      SparedCode(g);
    }
  }

  /** The code of damage that spares magic and length. */
  lemma SparedCode(g: seq<byte>)
    requires IsExact(g)
    ensures |g| >= 22 && DamageCode(g, DeclaredLen(g)) == if g[4] != 1 then VERSION else CRC
  {
    hide FromLE;
  }

  // ---------- lag ----------

  /** While the buffer holds a frame, the next push delivers one, whatever it brings. */
  lemma NextPushProgresses(b: seq<byte>, chunk: seq<byte>)
    requires Align(b) == b && Parse(b).events != []
    ensures Push(b, chunk, true).events != []
    ensures Push(b, chunk, true).events[0] == Parse(b).events[0]
  {
    hide Interpret, TrySliceOneFrame, Align, HasMagic, FrameLen;
    assert TrySliceOneFrame(b).Some?;
    SliceExtends(b, chunk);
  }

  /** What lies behind the frames that are back to back at the front. */
  function Behind(b: seq<byte>): seq<byte>
    decreases |b|
  {
    match TrySliceOneFrame(b)
    case None => b
    case Some(s) => Behind(s.rest)
  }

  lemma {:induction false} DrainStopsBehind(b: seq<byte>)
    ensures Drain(b, true).rest == Align(Behind(b))
    decreases |b|
  {
    hide Interpret, TrySliceOneFrame, Align;
    if TrySliceOneFrame(b).Some? {
      DrainStopsBehind(TrySliceOneFrame(b).value.rest);
    }
  }

  lemma WaitingExactly(b: seq<byte>)
    requires Align(b) == b
    ensures Parse(b).events == [] <==> TrySliceOneFrame(b).None?
  {
    hide Align, TrySliceOneFrame, Interpret;
  }

  /**
    When a push lags: it delivers every frame that has arrived if and only if the bytes behind the
    frames at the front, once aligned, do not start with a whole frame.
   */
  lemma NoLagExactly(b: seq<byte>, chunk: seq<byte>)
    ensures Push(b, chunk, true).events == Parse(b + chunk).events
       <==> TrySliceOneFrame(Align(Behind(Align(b + chunk)))).None?
  {
    hide Align, Drain, Parse, TrySliceOneFrame, Behind;
    var a := Align(b + chunk);
    PushLags(b, chunk);
    DrainStopsBehind(a);
    AlignAgain(Behind(a));
    WaitingExactly(Align(Behind(a)));
  }

  function EmptyChunks(n: nat): seq<seq<byte>> {
    seq(n, i => [])
  }

  /** So many empty pushes as there are frames waiting deliver them all. */
  lemma {:induction false} CatchesUp(b: seq<byte>, n: nat)
    requires Align(b) == b && n >= |Parse(b).events|
    ensures Run(b, EmptyChunks(n), true) == Parse(b)
    decreases n
  {
    hide Parse, Push, Align;
    if n == 0 {
      NothingWaiting(b);
    } else {
      var cs := EmptyChunks(n);
      assert cs[1..] == EmptyChunks(n - 1);
      var d := Push(b, [], true);
      assert b + [] == b;
      PushLags(b, []);
      PushLeavesAligned(b, []);
      if Parse(b).events != [] {
        NextPushProgresses(b, []);
      }
      CatchesUp(d.rest, n - 1);
    }
  }

  lemma NothingWaiting(b: seq<byte>)
    requires Align(b) == b && Parse(b).events == []
    ensures Parse(b) == Parsed([], b)
  {
    hide Align, TrySliceOneFrame;
  }

  lemma PushLeavesAligned(b: seq<byte>, chunk: seq<byte>)
    ensures forall tolerant :: Align(Push(b, chunk, tolerant).rest) == Push(b, chunk, tolerant).rest
  {
    hide Align, Drain;
    DrainedIsAligned(Align(b + chunk), true);
    DrainedIsAligned(Align(b + chunk), false);
  }

  lemma ParseFirst(f: seq<byte>, y: seq<byte>)
    requires IsExact(f)
    ensures var p := Parse(y); Parse(f + y) == Parsed([Interpret(f)] + p.events, p.rest)
  {
    hide Interpret, TrySliceOneFrame, IsExact, HasMagic, FrameLen, Align;
    SliceOfExact(f, []);
    assert f + [] == f;
    SliceExtends(f, y);
    SliceOfExact(f, y);
  }

  lemma JunkInFront(junk: seq<byte>, g: seq<byte>)
    requires MagicFree(junk) && junk != [] && IsExact(g)
    ensures Align(junk + g) == g && TrySliceOneFrame(junk + g) == None
  {
    hide FrameLen, DeclaredLen, Align;
    assert g[..4] == FRAME_MAGIC;
    JunkHidesNothing(junk, g);
    var kept := AlignSkipsJunk(junk, g);
    assert kept + g == g;
  }

  /** The lag is real: a frame behind junk waits for a later push although it has arrived. */
  lemma FrameBehindJunkWaits(f: seq<byte>, junk: seq<byte>, g: seq<byte>)
    requires IsExact(f) && MagicFree(junk) && junk != [] && IsExact(g)
    ensures Push([], f + junk + g, true) == Drained([Interpret(f)], g, None)
    ensures Parse(f + junk + g) == Parsed([Interpret(f), Interpret(g)], [])
  {
    hide Interpret, FrameLen, TrySliceOneFrame, IsExact, Align, HasMagic, Parse, Drain, MagicFree;
    var y := junk + g;
    assert f + junk + g == f + y == [] + (f + junk + g);
    JunkInFront(junk, g);
    DrainNothing(y);
    DrainFirst(f, y, true);
    SliceOfExact(f, []);
    assert f + [] == f;
    SliceExtends(f, y);
    SliceOfExact(g, []);
    assert g + [] == g;
    SliceExtends(g, []);
    ParseAligned(y, g);
    ParseFirst(g, []);
    ParseFirst(f, y);
    ShortParse();
    assert [Interpret(f)] + [] == [Interpret(f)];
    assert [Interpret(g)] + [] == [Interpret(g)];
  }

  lemma DrainNothing(b: seq<byte>)
    requires TrySliceOneFrame(b) == None
    ensures Drain(b, true) == Drained([], Align(b), None)
  {
    hide Align, TrySliceOneFrame;
  }

  lemma ShortParse()
    ensures Parse([]) == Parsed([], [])
  {}

  // ---------- resynchronisation ----------

  /** Junk and frames in turn. */
  function Mixed(junks: seq<seq<byte>>, frames: seq<seq<byte>>): seq<byte>
    requires |junks| == |frames|
  {
    if frames == [] then [] else junks[0] + (frames[0] + Mixed(junks[1..], frames[1..]))
  }

  ghost predicate AllMagicFree(junks: seq<seq<byte>>) {
    forall i :: 0 <= i < |junks| ==> MagicFree(junks[i])
  }

  lemma ParsePastJunk(junk: seq<byte>, f: seq<byte>, y: seq<byte>)
    requires MagicFree(junk) && IsExact(f)
    ensures var p := Parse(y); Parse(junk + (f + y)) == Parsed([Interpret(f)] + p.events, p.rest)
  {
    hide Interpret, Parse, FrameLen, DeclaredLen, Align;
    assert (f + y)[..4] == f[..4] == FRAME_MAGIC;
    var kept := AlignSkipsJunk(junk, f + y);
    assert kept + (f + y) == f + y == [] + (f + y);
    var none := AlignSkipsJunk([], f + y);
    assert MagicFree([]);
    assert Align(f + y) == f + y;
    ParseAligned(junk + (f + y), f + y);
    ParseFirst(f, y);
  }

  /** Junk without a magic between the frames costs no frame and adds none, whatever follows. */
  lemma {:induction false} ParseResynchronises(junks: seq<seq<byte>>, frames: seq<seq<byte>>, y: seq<byte>)
    requires |junks| == |frames| && AllMagicFree(junks) && AllExact(frames)
    ensures var p := Parse(y); Parse(Mixed(junks, frames) + y) == Parsed(InterpretAll(frames) + p.events, p.rest)
    decreases |frames|
  {
    hide Interpret, Parse, IsExact, MagicFree, HasMagic, Align, TrySliceOneFrame;
    var p := Parse(y);
    if frames == [] {
      assert [] + y == y;
      assert [] + p.events == p.events;
    } else {
      var more := Mixed(junks[1..], frames[1..]);
      var e, events := Interpret(frames[0]), InterpretAll(frames[1..]);
      assert MagicFree(junks[0]) && IsExact(frames[0]);
      assert Mixed(junks, frames) == junks[0] + (frames[0] + more);
      assert InterpretAll(frames) == [e] + events;
      ParseResynchronises(junks[1..], frames[1..], y);
      hide Mixed, InterpretAll, AllMagicFree, AllExact;
      ParsePastJunk(junks[0], frames[0], more + y);
      assert (junks[0] + (frames[0] + more)) + y == junks[0] + (frames[0] + (more + y));
      assert [e] + (events + p.events) == ([e] + events) + p.events;
    }
  }

  /**
    However a stream of junk and frames is cut, the events made and those still waiting are exactly
    one for each frame, in order.
   */
  lemma RunResynchronises(junks: seq<seq<byte>>, frames: seq<seq<byte>>, last: seq<byte>, chunks: seq<seq<byte>>)
    requires |junks| == |frames| && AllMagicFree(junks) && AllExact(frames) && MagicFree(last)
    requires Concat(chunks) == Mixed(junks, frames) + last
    ensures var r := Run([], chunks, true); r.events + Parse(r.rest).events == InterpretAll(frames)
  {
    hide Run, Parse, MagicFree, Mixed, InterpretAll, AllExact, AllMagicFree;
    RunLags([], chunks);
    assert [] + Concat(chunks) == Concat(chunks);
    ParseResynchronises(junks, frames, last);
    JunkParses(last);
    assert InterpretAll(frames) + [] == InterpretAll(frames);
  }

  lemma JunkParses(junk: seq<byte>)
    requires MagicFree(junk)
    ensures Parse(junk).events == []
  {
    hide MagicFree, HasMagic, Align, Parse;
    var kept := AlignSkipsJunk(junk, []);
    assert junk + [] == junk;
    ShortParses(kept + []);
    AlignAgain(junk);
    ParseAligned(junk, Align(junk));
  }

  // ---------- a parser without an error handler ----------

  /** A bad frame in front of the buffer. */
  predicate Jammed(b: seq<byte>, code: ErrorCode) {
    TrySliceOneFrame(b).Some? && Interpret(TrySliceOneFrame(b).value.frame) == Failed(code)
  }

  lemma {:induction false} DrainJams(b: seq<byte>)
    ensures var d := Drain(b, false); d.thrown.Some? ==> Jammed(d.rest, d.thrown.value)
    decreases |b|
  {
    hide Interpret, TrySliceOneFrame, Align;
    if TrySliceOneFrame(b).Some? {
      DrainJams(TrySliceOneFrame(b).value.rest);
    }
  }

  /** From a jam on, every push throws the same code, delivers nothing and only makes the buffer longer. */
  lemma JamIsKept(b: seq<byte>, code: ErrorCode, chunk: seq<byte>)
    requires Jammed(b, code)
    ensures Push(b, chunk, false) == Drained([], b + chunk, Some(code))
    ensures Jammed(b + chunk, code)
  {
    hide Interpret, TrySliceOneFrame, Align, HasMagic, FrameLen;
    SliceExtends(b, chunk);
  }

  /**
    Without an error handler, a push that throws is the last one to deliver anything: for all
    later chunks, every push throws the same code.
   */
  lemma {:induction false} ThrowIsFinal(b: seq<byte>, chunk: seq<byte>, later: seq<seq<byte>>, last: seq<byte>)
    requires Push(b, chunk, false).thrown.Some?
    ensures var d := Push(b, chunk, false); var r := Run(d.rest, later, false);
      && r == Parsed([], d.rest + Concat(later))
      && Push(r.rest, last, false) == Drained([], r.rest + last, d.thrown)
  {
    hide Drain, Align, Jammed, Run;
    var d := Push(b, chunk, false);
    DrainJams(Align(b + chunk));
    JamRuns(d.rest, d.thrown.value, later);
    JamIsKept(d.rest + Concat(later), d.thrown.value, last);
  }

  lemma {:induction false} JamRuns(b: seq<byte>, code: ErrorCode, chunks: seq<seq<byte>>)
    requires Jammed(b, code)
    ensures Run(b, chunks, false) == Parsed([], b + Concat(chunks)) && Jammed(b + Concat(chunks), code)
    decreases |chunks|
  {
    hide Jammed, Push;
    if chunks == [] {
      assert b + Concat(chunks) == b;
    } else {
      JamIsKept(b, code, chunks[0]);
      JamRuns(b + chunks[0], code, chunks[1..]);
      assert b + chunks[0] + Concat(chunks[1..]) == b + Concat(chunks);
    }
  }

  /** The events before the first bad frame. */
  function UpToFirstFailure(events: seq<Event>): seq<Event> {
    if events == [] || events[0].Failed? then [] else [events[0]] + UpToFirstFailure(events[1..])
  }

  /** Whether every frame so far was good. */
  predicate NoFailure(events: seq<Event>) {
    forall i :: 0 <= i < |events| ==> events[i].Decoded?
  }

  /** `UpToFirstFailure` keeps good frames only, and stops at a bad one if it stops early. */
  lemma {:induction false} FirstFailure(events: seq<Event>)
    ensures var u := UpToFirstFailure(events);
      && u <= events && NoFailure(u)
      && (u == events <==> NoFailure(events))
      && (u != events ==> events[|u|].Failed?)
  {
    if events != [] && events[0].Decoded? {
      FirstFailure(events[1..]);
      assert events == [events[0]] + events[1..];
      assert UpToFirstFailure(events)[1..] == UpToFirstFailure(events[1..]);
    }
  }

  lemma NoFailureFirst(a: seq<Event>)
    requires a != []
    ensures NoFailure(a) <==> a[0].Decoded? && NoFailure(a[1..])
  {
    assert a == [a[0]] + a[1..];
  }

  lemma {:induction false} UpToAppend(a: seq<Event>, b: seq<Event>)
    ensures UpToFirstFailure(a + b) == if NoFailure(a) then a + UpToFirstFailure(b) else UpToFirstFailure(a)
  {
    if a == [] {
      assert a + b == b;
    } else {
      NoFailureFirst(a);
      hide NoFailure;
      assert (a + b)[1..] == a[1..] + b;
      UpToAppend(a[1..], b);
    }
  }

  /** A strict drain is the tolerant one up to the first bad frame, whose error it throws. */
  lemma {:induction false} StrictDrain(b: seq<byte>)
    ensures var d := Drain(b, false); var t := Drain(b, true);
      && d.events == UpToFirstFailure(t.events)
      && (NoFailure(t.events) ==> d == t && d.thrown == None)
      && (!NoFailure(t.events) ==> |d.events| < |t.events| && d.thrown.Some?
                                   && t.events[|d.events|] == Failed(d.thrown.value))
    decreases |b|
  {
    hide Interpret, TrySliceOneFrame, Align, FrameLen;
    DrainLags(b);
    if TrySliceOneFrame(b).Some? {
      var s := TrySliceOneFrame(b).value;
      StrictDrain(s.rest);
      var t, u := Drain(b, true), Drain(s.rest, true);
      assert t.events == [Interpret(s.frame)] + u.events;
      assert t.events[1..] == u.events;
    }
  }

  lemma StrictPush(b: seq<byte>, chunk: seq<byte>)
    ensures var d := Push(b, chunk, false); var t := Push(b, chunk, true);
      && d.events == UpToFirstFailure(t.events)
      && (NoFailure(t.events) ==> d == t && d.thrown == None)
      && (!NoFailure(t.events) ==> d.thrown.Some? && Jammed(d.rest, d.thrown.value))
  {
    hide Drain, Align, Jammed, NoFailure, UpToFirstFailure;
    StrictDrain(Align(b + chunk));
    DrainJams(Align(b + chunk));
  }

  /**
    A strict run is the tolerant run up to the first bad frame: it delivers the frames before it,
    then nothing, and without a bad frame the two runs are the same.
   */
  lemma {:induction false} StrictRunStops(b: seq<byte>, chunks: seq<seq<byte>>)
    ensures Run(b, chunks, false).events == UpToFirstFailure(Run(b, chunks, true).events)
    ensures NoFailure(Run(b, chunks, true).events) ==> Run(b, chunks, false) == Run(b, chunks, true)
    decreases |chunks|
  {
    hide Push, Jammed, NoFailure, UpToFirstFailure;
    if chunks == [] {
      FirstFailure([]);
    } else {
      var c, cs := chunks[0], chunks[1..];
      var d, t := Push(b, c, false), Push(b, c, true);
      var more := Run(t.rest, cs, true).events;
      StrictPush(b, c);
      UpToAppend(t.events, more);
      FirstFailure(t.events + more);
      FirstFailure(t.events);
      if NoFailure(t.events) {
        StrictRunStops(t.rest, cs);
        FirstFailure(more);
      } else {
        JamRuns(d.rest, d.thrown.value, cs);
        assert d.events + [] == d.events;
      }
    }
  }

  // ---------- a header that announces too much ----------

  /** A front header whose announced payload is over the limit. */
  predicate Stuck(b: seq<byte>) {
    |b| >= FRAME_HEADER_SIZE && HasMagic(b) && DeclaredLen(b) > MAX_PAYLOAD_LEN
  }

  lemma StuckIsKept(b: seq<byte>, chunk: seq<byte>, tolerant: bool)
    requires Stuck(b)
    ensures Push(b, chunk, tolerant) == Drained([], b + chunk, None) && Stuck(b + chunk)
  {
    hide FromLE;
    assert (b + chunk)[..4] == b[..4];
    assert (b + chunk)[16..18] == b[16..18];
  }

  /** Nothing that arrives later gets past such a header. */
  lemma {:induction false} StuckRuns(b: seq<byte>, chunks: seq<seq<byte>>, tolerant: bool)
    requires Stuck(b)
    ensures Run(b, chunks, tolerant) == Parsed([], b + Concat(chunks))
    decreases |chunks|
  {
    hide Stuck, Push;
    if chunks == [] {
      assert b + Concat(chunks) == b;
    } else {
      StuckIsKept(b, chunks[0], tolerant);
      StuckRuns(b + chunks[0], chunks[1..], tolerant);
      assert b + chunks[0] + Concat(chunks[1..]) == b + Concat(chunks);
    }
  }

  /**
    Every other header is dealt with as soon as the announced bytes are there: the push delivers
    the frame first, or reports it, or, without an error handler, throws and keeps everything.
   */
  lemma FrontIsConsumed(b: seq<byte>, y: seq<byte>, tolerant: bool)
    requires |b| >= FRAME_HEADER_SIZE && HasMagic(b) && !Stuck(b)
    requires |b| + |y| >= FrameLen(b)
    ensures var d := Push(b, y, tolerant); var e := Interpret((b + y)[..FrameLen(b)]);
      if e.Failed? && !tolerant then d == Drained([], b + y, Some(e.code))
      else d.events != [] && d.events[0] == e
  {
    hide FromLE, Interpret;
    assert (b + y)[..4] == b[..4];
    assert (b + y)[16..18] == b[16..18];
  }

  /** A push that shows the parser's owner something. */
  predicate Speaks(d: Drained) {
    d.events != [] || d.thrown.Some?
  }

  /** A parser is silent for good exactly when an oversize header is in front of its buffer. */
  lemma StuckExactly(b: seq<byte>, tolerant: bool)
    requires Align(b) == b
    ensures Stuck(b) <==> forall y :: !Speaks(Push(b, y, tolerant))
  {
    hide Push, Stuck;
    if Stuck(b) {
      forall y
        ensures !Speaks(Push(b, y, tolerant))
      {
        StuckIsKept(b, y, tolerant);
      }
    } else {
      var y := Unblock(b, tolerant);
      assert Speaks(Push(b, y, tolerant));
    }
  }

  /** Bytes that make a parser deliver something or throw. */
  lemma Unblock(b: seq<byte>, tolerant: bool) returns (y: seq<byte>)
    requires Align(b) == b && !Stuck(b)
    ensures Speaks(Push(b, y, tolerant))
  {
    hide FromLE, Interpret;
    if HasMagic(b) && |b| >= FRAME_HEADER_SIZE {
      y := Zeros(FrameLen(b));
      FrontIsConsumed(b, y, tolerant);
    } else if HasMagic(b) {
      y := Zeros(300);
      ShortHeader(b, y, tolerant);
    } else {
      y := FRAME_MAGIC + Zeros(18);
      ShortBuffer(b, y, tolerant);
    }
  }

  lemma ShortBuffer(b: seq<byte>, y: seq<byte>, tolerant: bool)
    requires Align(b) == b && !HasMagic(b) && y == FRAME_MAGIC + Zeros(18)
    ensures Speaks(Push(b, y, tolerant))
  {
    hide FromLE, Interpret, Align;
    assert y[..4] == FRAME_MAGIC;
    assert y[16..18] == [0, 0];
    ZeroLength();
    AlignedShape(b);
    forall i | 0 <= i <= |b|
      ensures !HasMagic(b[i..])
    {}
    var kept := AlignSkipsJunk(b, y);
    assert kept + y == y;
    assert TrySliceOneFrame(y).Some?;
  }

  lemma ZeroLength()
    ensures FromLE([0, 0]) == 0
  {
    assert FromLE([0]) == 0;
  }

  lemma ShortHeader(b: seq<byte>, y: seq<byte>, tolerant: bool)
    requires HasMagic(b) && |b| < FRAME_HEADER_SIZE && y == Zeros(300)
    ensures Speaks(Push(b, y, tolerant))
  {
    hide FromLE, Interpret;
    var x := b + y;
    assert x[..4] == b[..4];
    var f := x[16..18];
    assert f[1] == 0;
    SmallField(f);
  }

  lemma SmallField(f: seq<byte>)
    requires |f| == 2 && f[1] == 0
    ensures FromLE(f) < 256
  {
    assert f[1..] == [f[1]];
    assert FromLE([f[1]]) == 0;
  }

  // ---------- how much a parser keeps ----------

  lemma {:induction false} RunLeavesAligned(b: seq<byte>, chunks: seq<seq<byte>>, tolerant: bool)
    requires Align(b) == b
    ensures Align(Run(b, chunks, tolerant).rest) == Run(b, chunks, tolerant).rest
    decreases |chunks|
  {
    hide Align, Push;
    if chunks != [] {
      PushLeavesAligned(b, chunks[0]);
      RunLeavesAligned(Push(b, chunks[0], tolerant).rest, chunks[1..], tolerant);
    }
  }

  /** An aligned buffer without a whole frame and without an oversize header is a part of one frame. */
  lemma BufferIsBounded(b: seq<byte>)
    requires Align(b) == b && Parse(b).events == [] && !Stuck(b)
    ensures |b| <= 2069
  {
    hide FromLE, Align, Parse;
    WaitingExactly(b);
    AlignedShape(b);
  }

  /** After any run, a parser keeps at most 2069 bytes unless it lags or is stuck. */
  lemma MemoryIsBounded(chunks: seq<seq<byte>>, tolerant: bool)
    ensures var b := Run([], chunks, tolerant).rest; |b| <= 2069 || Parse(b).events != [] || Stuck(b)
  {
    hide Align, Parse, Run, Stuck;
    assert Align([]) == [] by { EmptyAligned(); }
    RunLeavesAligned([], chunks, tolerant);
    var b := Run([], chunks, tolerant).rest;
    if Parse(b).events == [] && !Stuck(b) {
      BufferIsBounded(b);
    }
  }

  lemma EmptyAligned()
    ensures Align([]) == []
  {}

  // ---------- streams without gaps ----------

  /** In every part of `x`, what lies behind the frames at the front is aligned already. */
  ghost predicate Gapless(x: seq<byte>) {
    forall k :: 0 <= k <= |x| ==> Align(Behind(x[..k])) == Behind(x[..k])
  }

  /** Then draining more goes on where draining less stopped. */
  lemma {:induction false} DrainGoesOn(p: seq<byte>, c: seq<byte>, tolerant: bool)
    requires Align(Behind(p)) == Behind(p) && Align(Behind(p + c)) == Behind(p + c)
    ensures var d := Drain(p, tolerant); var e := Drain(d.rest + c, tolerant);
      && Align(d.rest + c) == d.rest + c
      && Drain(p + c, tolerant) == Drained(d.events + e.events, e.rest, e.thrown)
    decreases |p|
  {
    hide Interpret, HasMagic, FrameLen, TrySliceOneFrame, Align;
    if TrySliceOneFrame(p).None? {
      if TrySliceOneFrame(p + c).Some? {
        SliceExtends(p + c, []);
      }
      assert Drain(p, tolerant) == Drained([], p, None);
    } else {
      var s := TrySliceOneFrame(p).value;
      SliceExtends(p, c);
      var e := Interpret(s.frame);
      if e.Decoded? || tolerant {
        DrainGoesOn(s.rest, c, tolerant);
        var d := Drain(s.rest, tolerant);
        assert [e] + (d.events + Drain(d.rest + c, tolerant).events)
            == ([e] + d.events) + Drain(d.rest + c, tolerant).events;
      }
    }
  }

  /** A stream without gaps has no lag: a run over any chunks does what one drain of all bytes does. */
  lemma {:induction false} GaplessRun(chunks: seq<seq<byte>>, tolerant: bool)
    requires Gapless(Concat(chunks))
    ensures var d := Drain(Concat(chunks), tolerant); Run([], chunks, tolerant) == Parsed(d.events, d.rest)
    decreases |chunks|
  {
    hide Align, Behind, Drain, Run;
    if chunks == [] {
      EmptyDrains(tolerant);
      StayPut(tolerant);
    } else {
      var n := |chunks| - 1;
      var cs, c := chunks[..n], chunks[n];
      assert chunks == cs + [c];
      ConcatLast(cs, c);
      var x := Concat(cs);
      GaplessPart(x, c);
      GaplessRun(cs, tolerant);
      RunLast([], cs, c, tolerant);
      DrainGoesOn(x, c, tolerant);
    }
  }

  lemma StayPut(tolerant: bool)
    ensures Run([], [], tolerant) == Parsed([], [])
  {}

  lemma GaplessPart(x: seq<byte>, c: seq<byte>)
    requires Gapless(x + c)
    ensures Gapless(x) && Align(Behind(x)) == Behind(x) && Align(Behind(x + c)) == Behind(x + c)
  {
    hide Align, Behind;
    assert (x + c)[..|x|] == x && (x + c)[..|x + c|] == x + c;
    forall k | 0 <= k <= |x|
      ensures Align(Behind(x[..k])) == Behind(x[..k])
    {
      assert x[..k] == (x + c)[..k];
    }
  }

  lemma BehindNothing(p: seq<byte>)
    requires TrySliceOneFrame(p) == None
    ensures Behind(p) == p
  {}

  lemma BehindFirst(f: seq<byte>, q: seq<byte>)
    requires IsExact(f)
    ensures Behind(f + q) == Behind(q)
  {
    hide IsExact, TrySliceOneFrame;
    SliceOfExact(f, q);
  }

  lemma PartOfStuck(p: seq<byte>, tail: seq<byte>)
    requires Stuck(tail) && p <= tail
    ensures TrySliceOneFrame(p) == None && Align(p) == p
  {
    hide FromLE;
    if |p| >= 4 {
      assert p[..4] == tail[..4];
    }
    if |p| >= FRAME_HEADER_SIZE {
      assert p[16..18] == tail[16..18];
    }
  }

  /** Frames followed by an oversize header have no gaps. */
  lemma {:induction false} PartIsAligned(p: seq<byte>, frames: seq<seq<byte>>, tail: seq<byte>)
    requires AllExact(frames) && Stuck(tail) && p <= Concat(frames) + tail
    ensures Align(Behind(p)) == Behind(p)
    decreases |frames|
  {
    hide IsExact, Stuck, TrySliceOneFrame, Align, Behind;
    if frames == [] {
      assert Concat(frames) + tail == tail;
      PartOfStuck(p, tail);
      BehindNothing(p);
    } else if |p| < |frames[0]| {
      assert p <= Concat(frames) by {
        assert p == (Concat(frames) + tail)[..|p|] == Concat(frames)[..|p|];
      }
      CutFrameWaits(p, frames);
      BehindNothing(p);
    } else {
      var f := frames[0];
      var q := p[|f|..];
      assert Concat(frames) + tail == f + (Concat(frames[1..]) + tail);
      assert f == (Concat(frames) + tail)[..|f|] == p[..|f|];
      assert p == f + q;
      assert q <= Concat(frames[1..]) + tail;
      assert IsExact(f);
      BehindFirst(f, q);
      PartIsAligned(q, frames[1..], tail);
    }
  }

  lemma {:induction false} DrainUpToStuck(frames: seq<seq<byte>>, tail: seq<byte>, tolerant: bool)
    requires AllExact(frames) && Readable(frames, tolerant) == |frames| && Stuck(tail)
    ensures Drain(Concat(frames) + tail, tolerant) == Drained(InterpretAll(frames), tail, None)
    decreases |frames|
  {
    hide IsExact, Stuck, Align, TrySliceOneFrame, Interpret, Drain;
    if frames == [] {
      assert Concat(frames) + tail == tail;
      PartOfStuck(tail, tail);
      CutDrains(tail, tolerant);
    } else {
      var f := frames[0];
      assert IsExact(f);
      assert Concat(frames) + tail == f + (Concat(frames[1..]) + tail);
      DrainFirst(f, Concat(frames[1..]) + tail, tolerant);
      DrainUpToStuck(frames[1..], tail, tolerant);
    }
  }

  /**
    An oversize header behind any frames: however the stream is cut, the parser delivers those frames
    and then nothing more, and keeps the header and all that follows.
   */
  lemma OversizeBehindFrames(chunks: seq<seq<byte>>, frames: seq<seq<byte>>, tail: seq<byte>, tolerant: bool)
    requires AllExact(frames) && Readable(frames, tolerant) == |frames| && Stuck(tail)
    requires Concat(chunks) == Concat(frames) + tail
    ensures Run([], chunks, tolerant) == Parsed(InterpretAll(frames), tail)
  {
    hide AllExact, Stuck, Run, Drain, Align, Behind, InterpretAll, Concat, Readable;
    var x := Concat(frames) + tail;
    forall k | 0 <= k <= |x|
      ensures Align(Behind(x[..k])) == Behind(x[..k])
    {
      PartIsAligned(x[..k], frames, tail);
    }
    GaplessRun(chunks, tolerant);
    DrainUpToStuck(frames, tail, tolerant);
  }

  // ---------- such states are reached ----------

  /** A header that announces 65535 bytes. */
  const OVERSIZE_HEADER: seq<byte> := FRAME_MAGIC + Zeros(12) + [0xff, 0xff]

  /** An oversize header on the wire silences a new parser for good and is kept with all that follows. */
  lemma OversizeSilences(later: seq<seq<byte>>, tolerant: bool)
    ensures Run([], [OVERSIZE_HEADER] + later, tolerant) == Parsed([], OVERSIZE_HEADER + Concat(later))
    ensures Stuck(Run([], [OVERSIZE_HEADER], tolerant).rest)
  {
    hide Stuck;
    var h := OVERSIZE_HEADER;
    OversizeIsStuck();
    assert [] + h == h && h + [] == h;
    EmptyPush(h, tolerant);
    StuckRuns(h, later, tolerant);
    StuckRuns(h, [], tolerant);
    assert ([h] + later)[1..] == later && [h][1..] == [];
  }

  lemma OversizeIsStuck()
    ensures Stuck(OVERSIZE_HEADER)
  {
    var h := OVERSIZE_HEADER;
    assert h[..4] == FRAME_MAGIC;
    assert h[16..18] == [0xff, 0xff];
    assert [0xff, 0xff][1..] == [0xff as byte];
    assert FromLE([0xff]) == 255;
  }

  lemma EmptyPush(h: seq<byte>, tolerant: bool)
    requires Stuck(h)
    ensures Push([], h, tolerant) == Drained([], h, None)
  {
    hide FromLE;
    assert [] + h == h;
  }

  /** A frame of another protocol version makes a new parser without an error handler throw. */
  lemma StrictPushThrows(input: EncodeFrameInput)
    requires Sendable(input) && InputVersion(input) % 256 != PROTOCOL_VERSION
    ensures var f := Encoded(input).value; Push([], f, false) == Drained([], f, Some(VERSION))
  {
    hide DecodeFrame, Encoded, IsExact, Align, TrySliceOneFrame;
    EncodedParts(input);
    DecodeOfEncoded(input);
    var f := Encoded(input).value;
    assert [] + f == f && f + [] == f;
    SliceOfExact(f, []);
    SliceExtends(f, []);
    DrainRefuses(f, []);
  }
}
