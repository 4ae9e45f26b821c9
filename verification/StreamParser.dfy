/** The incremental parser: a growable buffer, realigned and drained in place. */
module StreamParser {
  import opened Bits
  import opened Wire
  import opened Frame
  import opened FrameProperties
  import opened Stream

  /** `buf.copyWithin(0, from, end)`: the two ranges may overlap. */
  method CopyToFront(buf: array<byte>, from: nat, end: nat)
    requires from <= end <= buf.Length
    modifies buf
    ensures buf[..end - from] == old(buf[from..end])
  {
    for k := 0 to end - from
      invariant forall j :: 0 <= j < k ==> buf[j] == old(buf[from + j])
      invariant forall j :: k <= j < buf.Length ==> buf[j] == old(buf[j])
    {
      buf[k] := buf[from + k];
    }
  }

  /** The four comparisons against the magic. */
  predicate MagicAt(buf: array<byte>, i: nat): (r: bool)
    requires i + 4 <= buf.Length
    reads buf
    ensures r == (buf[i..i + 4] == FRAME_MAGIC)
  {
    buf[i] == FRAME_MAGIC[0] && buf[i + 1] == FRAME_MAGIC[1] && buf[i + 2] == FRAME_MAGIC[2]
    && buf[i + 3] == FRAME_MAGIC[3]
  }

  lemma AlignAt(x: seq<byte>, i: nat)
    requires i + 4 <= |x|
    ensures x[i..i + 4] == FRAME_MAGIC ==> Align(x[i..]) == x[i..]
    ensures x[i..i + 4] != FRAME_MAGIC ==> Align(x[i..]) == Align(x[i + 1..])
  {
    assert x[i..][..4] == x[i..i + 4];
    assert x[i..][1..] == x[i + 1..];
  }

  lemma AlignShort(x: seq<byte>)
    requires |x| < 4
    ensures Align(x) == x
  {}

  /** Move bytes so that the magic is in front; returns the new used length. */
  method AlignMagicFront(buf: array<byte>, len: nat) returns (n: nat)
    requires len <= buf.Length
    modifies buf
    ensures n <= len
    ensures buf[..n] == Align(old(buf[..len]))
  {
    hide Align, HasMagic, MagicAt;
    ghost var x := buf[..len];
    if len < 4 {
      AlignShort(x);
      return len;
    }
    assert x[0..] == x;
    for i := 0 to len - 3
      invariant buf[..len] == x
      invariant Align(x[i..]) == Align(x)
    {
      assert x[i..i + 4] == buf[i..i + 4];
      AlignAt(x, i);
      if MagicAt(buf, i) {
        if i > 0 {
          CopyToFront(buf, i, len);
        }
        assert buf[..len - i] == x[i..];
        return len - i;
      }
    }
    CopyToFront(buf, len - 3, len);
    assert buf[..3] == x[len - 3..];
    AlignShort(x[len - 3..]);
    n := 3;
  }

  /** The magic is in front, or fewer than four bytes are left. */
  ghost predicate Aligned(b: seq<byte>) {
    Align(b) == b
  }

  class FrameParser {
    var buf: array<byte>
    var len: nat
    /** Whether the owner passed an error handler. */
    const tolerant: bool

    /** All chunks pushed, and all callbacks made, since the last reset. */
    ghost var chunks: seq<seq<byte>>
    ghost var emitted: seq<Event>

    /** The bytes waiting in the buffer. */
    ghost function Contents(): seq<byte>
      requires len <= buf.Length
      reads this, buf
    {
      buf[..len]
    }

    /**
      What holds between calls: the buffer is aligned, and the buffer and the callbacks made are
      those of a run over the chunks, so that what is proved about runs holds of this object.
     */
    ghost predicate Valid()
      reads this, buf
    {
      && len <= buf.Length
      && Aligned(Contents())
      && Run([], chunks, tolerant) == Parsed(emitted, Contents())
    }

    constructor (tolerant: bool)
      ensures Valid() && fresh(buf) && this.tolerant == tolerant
      ensures Contents() == [] && chunks == [] && emitted == []
    {
      hide Aligned, Run;
      FreshRun(tolerant);
      this.tolerant := tolerant;
      buf := new byte[0];
      len := 0;
      chunks, emitted := [], [];
    }

    method Push(chunk: seq<byte>) returns (events: seq<Event>, thrown: Option<ErrorCode>)
      requires Valid()
      modifies this, buf
      ensures Valid() && (buf == old(buf) || fresh(buf))
      ensures var d := Stream.Push(old(Contents()), chunk, tolerant);
        events == d.events && Contents() == d.rest && thrown == d.thrown
      ensures chunks == old(chunks) + [chunk] && emitted == old(emitted) + events
    {
      hide Aligned, Run, Stream.Push;
      PushStep(Contents(), chunk, tolerant, chunks, emitted);
      events, thrown := Absorb(chunk);
      chunks := chunks + [chunk];
      emitted := emitted + events;
    }

    /** The work of `Push`: append, align, drain. */
    method Absorb(chunk: seq<byte>) returns (events: seq<Event>, thrown: Option<ErrorCode>)
      requires len <= buf.Length
      modifies this`buf, this`len, buf
      ensures len <= buf.Length && (buf == old(buf) || fresh(buf))
      ensures var d := Stream.Push(old(Contents()), chunk, tolerant);
        events == d.events && Contents() == d.rest && thrown == d.thrown
    {
      hide Align, Drain;
      Append(chunk);
      len := AlignMagicFront(buf, len);
      events, thrown := DrainFrames();
    }

    /** Make room for the chunk and put it behind the waiting bytes. */
    method Append(chunk: seq<byte>)
      requires len <= buf.Length
      modifies this`buf, this`len, buf
      ensures len <= buf.Length && (buf == old(buf) || fresh(buf))
      ensures Contents() == old(Contents()) + chunk
    {
      ghost var before := Contents();
      var need := len + |chunk|;
      Grow(need);
      forall k | 0 <= k < |chunk| {
        buf[len + k] := chunk[k];
      }
      len := need;
      assert Contents() == before + chunk;
    }

    /** The drain loop. */
    method DrainFrames() returns (events: seq<Event>, thrown: Option<ErrorCode>)
      requires len <= buf.Length
      modifies this`len, buf
      ensures len <= buf.Length
      ensures var d := Drain(old(Contents()), tolerant);
        events == d.events && Contents() == d.rest && thrown == d.thrown
    {
      hide Align, HasMagic, Interpret, TrySliceOneFrame, FrameLen, Drain;
      ghost var total := Drain(Contents(), tolerant);
      events, thrown := [], None;
      while len > 0
        invariant len <= buf.Length
        invariant var d := Drain(Contents(), tolerant);
          total.events == events + d.events && total.rest == d.rest && total.thrown == d.thrown
      {
        var window := buf[..len];
        DrainOnce(window, tolerant);
        var sliced := TrySliceOneFrame(window);
        if sliced.None? {
          len := AlignMagicFront(buf, len);
          return;
        }
        SliceParts(window);
        var frameLen := |sliced.value.frame|;
        var event := Interpret(sliced.value.frame);
        if event.Failed? && !tolerant {
          thrown := Some(event.code);
          return;
        }
        ghost var d := Drain(sliced.value.rest, tolerant);
        assert events + ([event] + d.events) == (events + [event]) + d.events;
        events := events + [event];
        assert window[frameLen..len] == sliced.value.rest;
        CopyToFront(buf, frameLen, len);
        len := len - frameLen;
      }
      EmptyDrains(tolerant);
    }

    /** Double the capacity until `need` bytes fit. */
    method Grow(need: nat)
      requires len <= buf.Length && len <= need
      modifies this`buf
      ensures need <= buf.Length && len <= buf.Length
      ensures buf == old(buf) || fresh(buf)
      ensures Contents() == old(Contents())
      ensures buf == old(buf) <==> need <= old(buf.Length)
      ensures buf == old(buf) || buf.Length == 64 || buf.Length < 2 * need
    {
      if need > buf.Length {
        var cap := if buf.Length == 0 then 64 else buf.Length;
        while cap < need
          invariant cap > 0 && cap >= buf.Length
          invariant cap == 64 || cap == buf.Length || cap < 2 * need
          decreases need - cap
        {
          cap := cap * 2;
        }
        var next := new byte[cap](_ => 0);
        forall k | 0 <= k < len {
          next[k] := buf[k];
        }
        buf := next;
      }
    }

    method Reset()
      modifies this
      ensures Valid() && fresh(buf)
      ensures Contents() == [] && chunks == [] && emitted == []
    {
      hide Aligned, Run;
      FreshRun(tolerant);
      buf := new byte[0];
      len := 0;
      chunks, emitted := [], [];
    }

    /**
      The account of a tolerant parser: the callbacks made and the frames still waiting are
      together the frames of everything received.
     */
    lemma Account()
      requires Valid() && tolerant
      ensures var p := Parse(Contents());
        Parse(Concat(chunks)) == Parsed(emitted + p.events, p.rest)
    {
      hide Parse, Run, Align;
      RunLags([], chunks);
      assert [] + Concat(chunks) == Concat(chunks);
    }

    /** Bytes waiting for a complete frame. */
    method PendingLength() returns (n: nat)
      requires Valid()
      ensures n == |Contents()|
    {
      n := len;
    }
  }

  lemma DrainOnce(b: seq<byte>, tolerant: bool)
    ensures TrySliceOneFrame(b).None? ==> Drain(b, tolerant) == Drained([], Align(b), None)
    ensures TrySliceOneFrame(b).Some? ==>
      var s := TrySliceOneFrame(b).value; var d := Drain(s.rest, tolerant); var e := Interpret(s.frame);
      Drain(b, tolerant) == if e.Failed? && !tolerant then Drained([], b, Some(e.code))
                            else Drained([e] + d.events, d.rest, d.thrown)
  {
    hide Align, HasMagic, Interpret, TrySliceOneFrame, FrameLen;
  }

  lemma FreshRun(tolerant: bool)
    ensures Aligned([]) && Run([], [], tolerant) == Parsed([], [])
  {}

  /** What a push means for a run of pushes. */
  lemma PushStep(b: seq<byte>, chunk: seq<byte>, tolerant: bool, chunks: seq<seq<byte>>, emitted: seq<Event>)
    requires Run([], chunks, tolerant) == Parsed(emitted, b)
    ensures var d := Stream.Push(b, chunk, tolerant);
      && Aligned(d.rest)
      && Run([], chunks + [chunk], tolerant) == Parsed(emitted + d.events, d.rest)
  {
    hide Align, Drain, Run;
    DrainedIsAligned(Align(b + chunk), tolerant);
    RunLast([], chunks, chunk, tolerant);
  }
}
