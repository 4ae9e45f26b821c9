/**
  What the incremental parser should do with a byte stream, as functions on byte strings.

  `Parse` is the reference: it parses a whole stream eagerly. `Push` is what one call of the
  parser does to its buffer: align once, take the frames that lie back to back at the front,
  align once more. The two differ, because a push stops at the first junk after a frame.
 */
module Stream {
  import opened Bits
  import opened Wire
  import opened Frame
  import opened FrameProperties

  /** One callback of the parser: `onFrame` or `onDecodeError`. */
  datatype Event = Decoded(frame: DecodedFrame) | Failed(code: ErrorCode)

  function Interpret(frame: seq<byte>): Event {
    match DecodeFrame(frame)
    case Ok(f) => Decoded(f)
    case Err(code) => Failed(code)
  }

  function InterpretAll(frames: seq<seq<byte>>): (s: seq<Event>)
    ensures |s| == |frames|
  {
    if frames == [] then [] else [Interpret(frames[0])] + InterpretAll(frames[1..])
  }

  /** Drop bytes until the magic is in front or only three bytes are left. */
  function Align(x: seq<byte>): (r: seq<byte>)
    ensures |r| <= |x|
  {
    if |x| < 4 || HasMagic(x) then x else Align(x[1..])
  }

  datatype Parsed = Parsed(events: seq<Event>, rest: seq<byte>)

  /** The reference parser: align, take a frame, and start over, until no frame is left. */
  function Parse(x: seq<byte>): Parsed
    decreases |x|
  {
    var a := Align(x);
    match TrySliceOneFrame(a)
    case None => Parsed([], a)
    case Some(s) =>
      var p := Parse(s.rest);
      Parsed([Interpret(s.frame)] + p.events, p.rest)
  }

  datatype Drained = Drained(events: seq<Event>, rest: seq<byte>, thrown: Option<ErrorCode>)

  /**
    The drain loop. A parser without an error handler (`tolerant` false) throws at a bad frame and
    leaves it in front.
   */
  function Drain(b: seq<byte>, tolerant: bool): Drained
    decreases |b|
  {
    match TrySliceOneFrame(b)
    case None => Drained([], Align(b), None)
    case Some(s) =>
      var e := Interpret(s.frame);
      if e.Failed? && !tolerant then Drained([], b, Some(e.code))
      else
        var d := Drain(s.rest, tolerant);
        Drained([e] + d.events, d.rest, d.thrown)
  }

  /** One push of `chunk` onto the buffer `b`. */
  function Push(b: seq<byte>, chunk: seq<byte>, tolerant: bool): Drained {
    Drain(Align(b + chunk), tolerant)
  }

  /** Pushing the chunks one after the other. */
  function Run(b: seq<byte>, chunks: seq<seq<byte>>, tolerant: bool): Parsed
    decreases |chunks|
  {
    if chunks == [] then Parsed([], b)
    else
      var d := Push(b, chunks[0], tolerant);
      var r := Run(d.rest, chunks[1..], tolerant);
      Parsed(d.events + r.events, r.rest)
  }

  // ---------- alignment ----------

  /** Aligning early loses nothing: three kept bytes are enough for a magic that is cut in two. */
  lemma {:induction false} AlignLaw(x: seq<byte>, y: seq<byte>)
    ensures Align(Align(x) + y) == Align(x + y)
  {
    if |x| < 4 || HasMagic(x) {
    } else {
      assert (x + y)[..4] == x[..4];
      assert (x + y)[1..] == x[1..] + y;
      AlignLaw(x[1..], y);
    }
  }

  /** An aligned buffer is the end of the bytes, and has the magic in front or fewer than four bytes. */
  lemma {:induction false} AlignedShape(x: seq<byte>)
    ensures Align(x) == x[|x| - |Align(x)|..]
    ensures |Align(x)| < 4 || HasMagic(Align(x))
  {
    if |x| >= 4 && !HasMagic(x) {
      AlignedShape(x[1..]);
    }
  }

  lemma AlignAgain(x: seq<byte>)
    ensures Align(Align(x)) == Align(x)
  {
    AlignedShape(x);
  }

  /** Alignment finds the first magic, or keeps the last three bytes when there is none. */
  lemma {:induction false} AlignFindsFirst(x: seq<byte>)
    ensures forall i :: 0 <= i < |x| - |Align(x)| ==> !HasMagic(x[i..])
    ensures |Align(x)| < 4 && |x| >= 3 ==> |Align(x)| == 3
  {
    if |x| >= 4 && !HasMagic(x) {
      AlignFindsFirst(x[1..]);
      forall i | 0 <= i < |x| - |Align(x)|
        ensures !HasMagic(x[i..])
      {
        if i > 0 {
          assert x[i..] == x[1..][i - 1..];
        } else {
          assert x[0..] == x;
        }
      }
    }
  }

  // ---------- slicing ----------

  lemma MagicInFront(b: seq<byte>, y: seq<byte>)
    requires HasMagic(b)
    ensures Align(b) == b && Align(b + y) == b + y
  {
    assert (b + y)[..4] == b[..4];
  }

  lemma SliceHasMagic(b: seq<byte>)
    requires TrySliceOneFrame(b).Some?
    ensures HasMagic(b)
  {
    hide DeclaredLen, HasMagic;
  }

  lemma SliceExtends(b: seq<byte>, y: seq<byte>)
    requires TrySliceOneFrame(b).Some?
    ensures Align(b) == b && Align(b + y) == b + y
    ensures var s := TrySliceOneFrame(b).value;
      TrySliceOneFrame(b + y) == Some(Sliced(s.frame, s.rest + y))
  {
    hide TrySliceOneFrame, HasMagic, Align, FrameLen, IsExact;
    var s := TrySliceOneFrame(b).value;
    SliceHasMagic(b);
    SliceParts(b);
    MagicInFront(b, y);
    SliceIsExact(b);
    SliceOfExact(s.frame, s.rest + y);
    assert b + y == s.frame + (s.rest + y);
  }

  lemma ParseAligned(x: seq<byte>, y: seq<byte>)
    requires Align(x) == Align(y)
    ensures Parse(x) == Parse(y)
  {}

  // ---------- the reference parser does not depend on chunking ----------

  /** Parsing a stream is parsing a first part, then what that left together with the second part. */
  lemma {:induction false} ParseComposes(x: seq<byte>, y: seq<byte>)
    ensures var p := Parse(x); var q := Parse(p.rest + y);
      Parse(x + y) == Parsed(p.events + q.events, q.rest)
    decreases |x|
  {
    hide TrySliceOneFrame, Interpret, Align, HasMagic, FrameLen;
    var a := Align(x);
    AlignLaw(x, y);
    ParseAligned(x + y, a + y);
    if TrySliceOneFrame(a).Some? {
      var s := TrySliceOneFrame(a).value;
      SliceExtends(a, y);
      ParseComposes(s.rest, y);
      var p := Parse(s.rest);
      var q := Parse(p.rest + y);
      assert Parse(a + y).events == [Interpret(s.frame)] + (p.events + q.events);
    }
  }

  /** What the drain loop emits, followed by what its buffer still holds, is what the bytes hold. */
  lemma {:induction false} DrainLags(b: seq<byte>)
    ensures Drain(b, true).thrown == None
    ensures var d := Drain(b, true); var p := Parse(d.rest);
      Parse(b) == Parsed(d.events + p.events, p.rest)
    decreases |b|
  {
    hide Interpret, TrySliceOneFrame, Align, HasMagic, FrameLen;
    if TrySliceOneFrame(b).Some? {
      var s := TrySliceOneFrame(b).value;
      SliceExtends(b, []);
      DrainLags(s.rest);
      var d := Drain(s.rest, true);
      assert [Interpret(s.frame)] + (d.events + Parse(d.rest).events)
          == ([Interpret(s.frame)] + d.events) + Parse(d.rest).events;
    } else {
      AlignAgain(b);
      ParseAligned(b, Align(b));
    }
  }

  /** One push of a tolerant parser keeps the account. */
  lemma PushLags(b: seq<byte>, chunk: seq<byte>)
    ensures var d := Push(b, chunk, true); var p := Parse(d.rest);
      Parse(b + chunk) == Parsed(d.events + p.events, p.rest)
  {
    hide Align;
    DrainLags(Align(b + chunk));
    AlignAgain(b + chunk);
    ParseAligned(b + chunk, Align(b + chunk));
  }

  /**
    The refinement: however a stream is cut, what a tolerant parser has emitted, followed by what
    its buffer still holds, is what the whole stream holds, and both leave the same rest.
   */
  lemma {:induction false} RunLags(b: seq<byte>, chunks: seq<seq<byte>>)
    ensures var r := Run(b, chunks, true); var p := Parse(r.rest);
      Parse(b + Concat(chunks)) == Parsed(r.events + p.events, p.rest)
    decreases |chunks|
  {
    hide Push, Parse;
    if chunks == [] {
      assert b + Concat(chunks) == b;
    } else {
      var c, cs := chunks[0], chunks[1..];
      var d := Push(b, c, true);
      var r := Run(d.rest, cs, true);
      PushLags(b, c);
      RunLags(d.rest, cs);
      ParseComposes(b + c, Concat(cs));
      ParseComposes(d.rest, Concat(cs));
      assert b + Concat(chunks) == (b + c) + Concat(cs);
      var q := Parse(Parse(d.rest).rest + Concat(cs));
      assert (d.events + Parse(d.rest).events) + q.events == d.events + (Parse(d.rest).events + q.events);
      assert (d.events + r.events) + Parse(r.rest).events == d.events + (r.events + Parse(r.rest).events);
    }
  }

  // ---------- pushes one after the other ----------

  lemma EmptyDrains(tolerant: bool)
    ensures Drain([], tolerant) == Drained([], [], None)
  {}

  /** A buffer is aligned again once it has been drained. */
  lemma {:induction false} DrainedIsAligned(b: seq<byte>, tolerant: bool)
    ensures Align(Drain(b, tolerant).rest) == Drain(b, tolerant).rest
    decreases |b|
  {
    hide Interpret, Align, TrySliceOneFrame, HasMagic, FrameLen;
    if TrySliceOneFrame(b).None? {
      AlignAgain(b);
    } else {
      SliceExtends(b, []);
      DrainedIsAligned(TrySliceOneFrame(b).value.rest, tolerant);
    }
  }

  lemma {:induction false} RunLast(b: seq<byte>, chunks: seq<seq<byte>>, c: seq<byte>, tolerant: bool)
    ensures var r := Run(b, chunks, tolerant); var d := Push(r.rest, c, tolerant);
      Run(b, chunks + [c], tolerant) == Parsed(r.events + d.events, d.rest)
    decreases |chunks|
  {
    hide Push;
    if chunks == [] {
      assert [c][1..] == [];
    } else {
      assert (chunks + [c])[1..] == chunks[1..] + [c];
      RunLast(Push(b, chunks[0], tolerant).rest, chunks[1..], c, tolerant);
    }
  }
}
