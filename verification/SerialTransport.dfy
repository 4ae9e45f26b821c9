/** The serial transport: a parser of its own that hands decoded frames to a hub. */
module SerialTransport {
  import opened Bits
  import opened Wire
  import opened Stream
  import opened StreamParser
  import opened FleetHub

  class SerialPortTransport {
    const hub: FleetHub
    const parser: FrameParser

    ghost predicate Valid()
      reads this, hub, hub.parser, hub.parser.buf, parser, parser.buf
    {
      && hub.Valid() && parser.Valid()
      && parser.tolerant == hub.tolerant
      && parser != hub.parser && parser.buf != hub.parser.buf
    }

    constructor (hub: FleetHub)
      requires hub.Valid()
      ensures Valid() && this.hub == hub && fresh(parser) && fresh(parser.buf) && parser.Contents() == []
    {
      hide FrameParser.Valid, FleetHub.Valid;
      var own := hub.CreateStreamParser();
      this.hub := hub;
      parser := own;
    }

    /** The listener of the port's data event. */
    method OnData(chunk: seq<byte>, clock: nat -> int) returns (thrown: Option<ErrorCode>)
      requires Valid()
      modifies hub, parser, parser.buf
      ensures Valid() && (parser.buf == old(parser.buf) || fresh(parser.buf))
      ensures var d := Stream.Push(old(parser.Contents()), chunk, hub.tolerant);
        && thrown == d.thrown && parser.Contents() == d.rest
        && hub.trace == old(hub.trace) + Happenings(d.events, clock, 0)
    {
      hide FrameParser.Valid, After, Stream.Push;
      var events;
      events, thrown := parser.Push(chunk);
      hub.HandleEvents(events, clock);
    }

    /** One chunk after the other; `clocks(i)` gives the times read during chunk `i`. */
    method ReceiveAll(chunks: seq<seq<byte>>, clocks: nat -> nat -> int)
      requires Valid()
      modifies hub, parser, parser.buf
      ensures Valid()
      ensures parser.Contents() == Run(old(parser.Contents()), chunks, hub.tolerant).rest
      ensures hub.trace == old(hub.trace) + StreamTrace(old(parser.Contents()), chunks, hub.tolerant, clocks, 0)
    {
      hide Run, Stream.Push, Happenings, StreamTrace, Align, FleetHub.Valid;
      ghost var all := StreamTrace(parser.Contents(), chunks, hub.tolerant, clocks, 0);
      ghost var rest := Run(parser.Contents(), chunks, hub.tolerant).rest;
      assert chunks[0..] == chunks;
      for i := 0 to |chunks|
        invariant Valid() && (parser.buf == old(parser.buf) || fresh(parser.buf))
        invariant hub.trace + StreamTrace(parser.Contents(), chunks[i..], hub.tolerant, clocks, i)
          == old(hub.trace) + all
        invariant Run(parser.Contents(), chunks[i..], hub.tolerant).rest == rest
      {
        StreamStep(parser.Contents(), chunks, i, hub.tolerant, clocks);
        var thrown := OnData(chunks[i], clocks(i));
      }
      assert chunks[|chunks|..] == [];
      StreamEnd(parser.Contents(), hub.tolerant, clocks, |chunks|);
      assert hub.trace + [] == hub.trace;
    }
  }

  /** What a hub goes through when the chunks arrive one after the other behind the bytes `b`. */
  function StreamTrace(
    b: seq<byte>, chunks: seq<seq<byte>>, tolerant: bool, clocks: nat -> nat -> int, i: nat): seq<Happening>
    decreases |chunks|
  {
    if chunks == [] then []
    else
      var d := Stream.Push(b, chunks[0], tolerant);
      Happenings(d.events, clocks(i), 0) + StreamTrace(d.rest, chunks[1..], tolerant, clocks, i + 1)
  }

  /** One more chunk adds what its push does, at the times read during that chunk. */
  lemma {:induction false} StreamTraceLast(
    b: seq<byte>, chunks: seq<seq<byte>>, c: seq<byte>, tolerant: bool, clocks: nat -> nat -> int, i: nat)
    ensures var d := Stream.Push(Run(b, chunks, tolerant).rest, c, tolerant);
      StreamTrace(b, chunks + [c], tolerant, clocks, i)
      == StreamTrace(b, chunks, tolerant, clocks, i) + Happenings(d.events, clocks(i + |chunks|), 0)
    decreases |chunks|
  {
    hide Stream.Push, Happenings;
    if chunks == [] {
      assert [] + [c] == [c] && [c][1..] == [];
      var d := Stream.Push(b, c, tolerant);
      assert Happenings(d.events, clocks(i), 0) + [] == [] + Happenings(d.events, clocks(i), 0);
    } else {
      assert (chunks + [c])[1..] == chunks[1..] + [c];
      StreamTraceLast(Stream.Push(b, chunks[0], tolerant).rest, chunks[1..], c, tolerant, clocks, i + 1);
    }
  }

  lemma StreamStep(b: seq<byte>, chunks: seq<seq<byte>>, i: nat, tolerant: bool, clocks: nat -> nat -> int)
    requires i < |chunks|
    ensures var d := Stream.Push(b, chunks[i], tolerant);
      && Run(b, chunks[i..], tolerant).rest == Run(d.rest, chunks[i + 1..], tolerant).rest
      && StreamTrace(b, chunks[i..], tolerant, clocks, i)
         == Happenings(d.events, clocks(i), 0) + StreamTrace(d.rest, chunks[i + 1..], tolerant, clocks, i + 1)
  {
    hide Stream.Push, Happenings;
    assert chunks[i..][1..] == chunks[i + 1..];
  }

  lemma StreamEnd(b: seq<byte>, tolerant: bool, clocks: nat -> nat -> int, i: nat)
    ensures Run(b, [], tolerant).rest == b && StreamTrace(b, [], tolerant, clocks, i) == []
  {}
}
