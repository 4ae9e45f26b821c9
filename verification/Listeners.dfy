/** What a hub's listeners hear of whole streams and of many connections, and what its maps then hold. */
module Listeners {
  import opened Wire
  import opened Bits
  import opened Frame
  import opened Stream
  import opened FleetHub
  import opened Connections
  import opened SerialTransport

  /** The frames among some events. */
  function FramesIn(events: seq<Event>): seq<DecodedFrame> {
    if events == [] then []
    else (if events[0].Decoded? then [events[0].frame] else []) + FramesIn(events[1..])
  }

  /** The errors among some events. */
  function FailuresIn(events: seq<Event>): seq<ErrorCode> {
    if events == [] then []
    else (if events[0].Failed? then [events[0].code] else []) + FailuresIn(events[1..])
  }

  lemma {:induction false} FramesInAppend(a: seq<Event>, b: seq<Event>)
    ensures FramesIn(a + b) == FramesIn(a) + FramesIn(b)
  {
    if a == [] {
      assert a + b == b;
    } else {
      assert (a + b)[1..] == a[1..] + b;
      FramesInAppend(a[1..], b);
      var first := if a[0].Decoded? then [a[0].frame] else [];
      assert FramesIn(a + b) == first + FramesIn(a[1..] + b);
      assert FramesIn(a) == first + FramesIn(a[1..]);
      hide FramesIn;
      assert first + (FramesIn(a[1..]) + FramesIn(b)) == (first + FramesIn(a[1..])) + FramesIn(b);
    }
  }

  lemma {:induction false} FailuresInAppend(a: seq<Event>, b: seq<Event>)
    ensures FailuresIn(a + b) == FailuresIn(a) + FailuresIn(b)
  {
    if a == [] {
      assert a + b == b;
    } else {
      assert (a + b)[1..] == a[1..] + b;
      FailuresInAppend(a[1..], b);
      var first := if a[0].Failed? then [a[0].code] else [];
      assert FailuresIn(a + b) == first + FailuresIn(a[1..] + b);
      assert FailuresIn(a) == first + FailuresIn(a[1..]);
      hide FailuresIn;
      assert first + (FailuresIn(a[1..]) + FailuresIn(b)) == (first + FailuresIn(a[1..])) + FailuresIn(b);
    }
  }

  // ---------- frames and errors in one order ----------

  /** The step that an event makes the hub take. */
  function StepOf(e: Event, time: int): Happening {
    match e
    case Decoded(f) => Sent(f, time)
    case Failed(code) => Refused(code)
  }

  lemma EventIsWitnessed(before: seq<Happening>, e: Event, time: int, l: ListenerId)
    requires Subscribed(before, l)
    ensures var trace := before + [StepOf(e, time)];
      Subscribed(trace, l) && Witnessed(After(trace).calls, l) == Witnessed(After(before).calls, l) + [e]
  {
    hide After, Witnessed;
    assert (before + [StepOf(e, time)])[..|before|] == before;
    CallsInOrder(before, l);
    CallsInOrder(before + [StepOf(e, time)], l);
  }

  lemma FirstHappening(events: seq<Event>, clock: nat -> int, i: nat)
    requires events != []
    ensures var e := events[0]; var j := if e.Decoded? then i + 1 else i;
      Happenings(events, clock, i) == [StepOf(e, clock(i))] + Happenings(events[1..], clock, j)
  {}

  /** The events of one push reach a subscribed listener and the error handler in their order. */
  lemma {:induction false} EventsAreWitnessed(
    before: seq<Happening>, events: seq<Event>, clock: nat -> int, i: nat, l: ListenerId)
    requires Subscribed(before, l)
    ensures var trace := before + Happenings(events, clock, i);
      Subscribed(trace, l) && Witnessed(After(trace).calls, l) == Witnessed(After(before).calls, l) + events
    decreases |events|
  {
    hide After, Witnessed, Subscribed;
    var seen := Witnessed(After(before).calls, l);
    if events == [] {
      assert before + [] == before;
      assert seen + [] == seen;
    } else {
      var e, rest := events[0], events[1..];
      var j := if e.Decoded? then i + 1 else i;
      var h := StepOf(e, clock(i));
      FirstHappening(events, clock, i);
      hide Happenings;
      assert before + Happenings(events, clock, i) == (before + [h]) + Happenings(rest, clock, j);
      EventIsWitnessed(before, e, clock(i), l);
      EventsAreWitnessed(before + [h], rest, clock, j, l);
      assert (seen + [e]) + rest == seen + events;
    }
  }

  /** Over a whole stream, they are the events of the parser's run. */
  lemma {:induction false} StreamIsWitnessed(
    before: seq<Happening>, b: seq<byte>, chunks: seq<seq<byte>>, tolerant: bool, clocks: nat -> nat -> int, i: nat,
    l: ListenerId)
    requires Subscribed(before, l)
    ensures var trace := before + StreamTrace(b, chunks, tolerant, clocks, i);
      && Subscribed(trace, l)
      && Witnessed(After(trace).calls, l) == Witnessed(After(before).calls, l) + Run(b, chunks, tolerant).events
    decreases |chunks|
  {
    hide After, Witnessed, Subscribed, Push, Happenings;
    var seen := Witnessed(After(before).calls, l);
    if chunks == [] {
      assert before + [] == before;
      assert seen + [] == seen;
    } else {
      var d := Push(b, chunks[0], tolerant);
      var more := StreamTrace(d.rest, chunks[1..], tolerant, clocks, i + 1);
      var now := before + Happenings(d.events, clocks(i), 0);
      assert before + StreamTrace(b, chunks, tolerant, clocks, i) == now + more;
      EventsAreWitnessed(before, d.events, clocks(i), 0, l);
      StreamIsWitnessed(now, d.rest, chunks[1..], tolerant, clocks, i + 1, l);
      var later := Run(d.rest, chunks[1..], tolerant).events;
      assert (seen + d.events) + later == seen + (d.events + later);
    }
  }

  // ---------- frames alone, errors alone ----------

  /** Frames alone are the listener's log. */
  lemma {:induction false} LogIsFrames(calls: seq<Call>, l: ListenerId)
    ensures LogOf(calls, l) == FramesIn(Witnessed(calls, l))
  {
    if calls != [] {
      LogIsFrames(calls[1..], l);
      match calls[0]
      case Heard(k, f) =>
        if k == l {
          FramesInAppend([Decoded(f)], Witnessed(calls[1..], l));
          assert FramesIn([Decoded(f)]) == [f] + FramesIn([]);
        } else {
          assert Witnessed(calls, l) == Witnessed(calls[1..], l);
        }
      case Reported(code) =>
        FramesInAppend([Failed(code)], Witnessed(calls[1..], l));
        assert FramesIn([Failed(code)]) == [] + FramesIn([]);
    }
  }

  lemma FramesWitnessed(before: seq<Call>, after: seq<Call>, events: seq<Event>, l: ListenerId)
    requires Witnessed(after, l) == Witnessed(before, l) + events
    ensures LogOf(after, l) == LogOf(before, l) + FramesIn(events)
  {
    hide Witnessed, LogOf, FramesIn;
    LogIsFrames(before, l);
    LogIsFrames(after, l);
    FramesInAppend(Witnessed(before, l), events);
  }

  /** A listener that stays subscribed during a push hears exactly the frames of the push. */
  lemma ListenerHearsEvents(
    before: seq<Happening>, events: seq<Event>, clock: nat -> int, i: nat, l: ListenerId)
    requires Subscribed(before, l)
    ensures Subscribed(before + Happenings(events, clock, i), l)
    ensures LogOf(After(before + Happenings(events, clock, i)).calls, l)
         == LogOf(After(before).calls, l) + FramesIn(events)
  {
    hide After, LogOf, Subscribed, Witnessed, FramesIn, Happenings;
    EventsAreWitnessed(before, events, clock, i, l);
    FramesWitnessed(After(before).calls, After(before + Happenings(events, clock, i)).calls, events, l);
  }

  /** Over a whole stream, a subscribed listener hears exactly the frames that its parser delivers. */
  lemma ListenerHearsStream(
    before: seq<Happening>, b: seq<byte>, chunks: seq<seq<byte>>, tolerant: bool, clocks: nat -> nat -> int, i: nat,
    l: ListenerId)
    requires Subscribed(before, l)
    ensures var trace := before + StreamTrace(b, chunks, tolerant, clocks, i);
      && Subscribed(trace, l)
      && LogOf(After(trace).calls, l) == LogOf(After(before).calls, l) + FramesIn(Run(b, chunks, tolerant).events)
  {
    hide After, LogOf, Subscribed, Witnessed, FramesIn, StreamTrace, Run;
    var trace := before + StreamTrace(b, chunks, tolerant, clocks, i);
    StreamIsWitnessed(before, b, chunks, tolerant, clocks, i, l);
    FramesWitnessed(After(before).calls, After(trace).calls, Run(b, chunks, tolerant).events, l);
  }

  lemma RefusedStep(before: seq<Happening>, e: Event, time: int)
    ensures RefusedIn(before + [StepOf(e, time)])
         == if e.Failed? then RefusedIn(before) + [e.code] else RefusedIn(before)
  {
    assert (before + [StepOf(e, time)])[..|before|] == before;
  }

  lemma FailuresFirst(events: seq<Event>)
    requires events != []
    ensures FailuresIn(events) == (if events[0].Failed? then [events[0].code] else []) + FailuresIn(events[1..])
  {}

  lemma {:induction false} EventsRefused(before: seq<Happening>, events: seq<Event>, clock: nat -> int, i: nat)
    ensures RefusedIn(before + Happenings(events, clock, i)) == RefusedIn(before) + FailuresIn(events)
    decreases |events|
  {
    hide RefusedIn;
    var errors := RefusedIn(before);
    if events == [] {
      assert before + [] == before;
      assert errors + [] == errors;
    } else {
      var e, rest := events[0], events[1..];
      var j := if e.Decoded? then i + 1 else i;
      var h := StepOf(e, clock(i));
      FirstHappening(events, clock, i);
      FailuresFirst(events);
      hide Happenings, FailuresIn;
      assert before + Happenings(events, clock, i) == (before + [h]) + Happenings(rest, clock, j);
      RefusedStep(before, e, clock(i));
      EventsRefused(before + [h], rest, clock, j);
      assert e.Failed? ==> (errors + [e.code]) + FailuresIn(rest) == errors + ([e.code] + FailuresIn(rest));
      assert [] + FailuresIn(rest) == FailuresIn(rest);
    }
  }

  lemma {:induction false} StreamRefused(
    before: seq<Happening>, b: seq<byte>, chunks: seq<seq<byte>>, tolerant: bool, clocks: nat -> nat -> int, i: nat)
    ensures RefusedIn(before + StreamTrace(b, chunks, tolerant, clocks, i))
         == RefusedIn(before) + FailuresIn(Run(b, chunks, tolerant).events)
    decreases |chunks|
  {
    hide RefusedIn, Push, Happenings;
    var errors := RefusedIn(before);
    if chunks == [] {
      assert before + [] == before;
      assert errors + [] == errors;
    } else {
      var d := Push(b, chunks[0], tolerant);
      var more := StreamTrace(d.rest, chunks[1..], tolerant, clocks, i + 1);
      var now := before + Happenings(d.events, clocks(i), 0);
      assert before + StreamTrace(b, chunks, tolerant, clocks, i) == now + more;
      EventsRefused(before, d.events, clocks(i), 0);
      StreamRefused(now, d.rest, chunks[1..], tolerant, clocks, i + 1);
      var later := Run(d.rest, chunks[1..], tolerant).events;
      FailuresInAppend(d.events, later);
      hide FailuresIn;
      assert (errors + FailuresIn(d.events)) + FailuresIn(later) == errors + FailuresIn(d.events + later);
    }
  }

  /** Over a whole stream, the error handler is called with exactly the codes of the bad frames, in order. */
  lemma HandlerHearsStream(
    before: seq<Happening>, b: seq<byte>, chunks: seq<seq<byte>>, tolerant: bool, clocks: nat -> nat -> int, i: nat)
    ensures ReportsIn(After(before + StreamTrace(b, chunks, tolerant, clocks, i)).calls)
         == ReportsIn(After(before).calls) + FailuresIn(Run(b, chunks, tolerant).events)
  {
    hide After, ReportsIn, RefusedIn, StreamTrace, Run, FailuresIn;
    HandlerHearsErrors(before);
    HandlerHearsErrors(before + StreamTrace(b, chunks, tolerant, clocks, i));
    StreamRefused(before, b, chunks, tolerant, clocks, i);
  }

  // ---------- the latest frames ----------

  lemma {:induction false} LatestFrameAppend(a: seq<Event>, b: seq<Event>, boatId: nat)
    ensures LatestFrame(a + b, boatId)
         == if LatestFrame(b, boatId).Some? then LatestFrame(b, boatId) else LatestFrame(a, boatId)
    decreases |b|
  {
    if b == [] {
      assert a + b == a;
    } else {
      var c, e := b[..|b| - 1], b[|b| - 1];
      assert a + b == (a + c) + [e];
      LatestFrameAppend(a, c, boatId);
      LatestFrameLast(a + c, e, boatId);
    }
  }

  /** `after` knows of the boat what `events` say last, or else what `before` knew. */
  ghost predicate Updated(before: seq<Happening>, after: seq<Happening>, events: seq<Event>, boatId: nat) {
    match LatestFrame(events, boatId)
    case None => Latest(after, boatId) == Latest(before, boatId)
    case Some(f) => Latest(after, boatId).Some? && Latest(after, boatId).value.frame == f
  }

  lemma {:induction false} EventsUpdate(
    before: seq<Happening>, events: seq<Event>, clock: nat -> int, i: nat, boatId: nat)
    ensures Updated(before, before + Happenings(events, clock, i), events, boatId)
    decreases |events|
  {
    hide Latest;
    if events == [] {
      assert before + [] == before;
    } else {
      var h := match events[0] case Decoded(f) => Sent(f, clock(i)) case Failed(code) => Refused(code);
      var j := if events[0].Decoded? then i + 1 else i;
      assert Happenings(events, clock, i) == [h] + Happenings(events[1..], clock, j);
      assert before + Happenings(events, clock, i) == (before + [h]) + Happenings(events[1..], clock, j);
      EventsUpdate(before + [h], events[1..], clock, j, boatId);
      LatestLast(before, h, boatId);
      assert [events[0]] + events[1..] == events;
      LatestFrameAppend([events[0]], events[1..], boatId);
      LatestFrameLast([], events[0], boatId);
      assert [] + [events[0]] == [events[0]];
    }
  }

  /** Over a whole stream, the hub keeps the last frame of every boat that its parser delivers. */
  lemma {:induction false} StreamUpdates(
    before: seq<Happening>, b: seq<byte>, chunks: seq<seq<byte>>, tolerant: bool, clocks: nat -> nat -> int, i: nat,
    boatId: nat)
    ensures Updated(
      before, before + StreamTrace(b, chunks, tolerant, clocks, i), Run(b, chunks, tolerant).events, boatId)
    decreases |chunks|
  {
    hide Latest, Push, Happenings, LatestFrame;
    if chunks == [] {
      assert before + [] == before;
      LatestFrameNone(boatId);
    } else {
      var d := Push(b, chunks[0], tolerant);
      var more := StreamTrace(d.rest, chunks[1..], tolerant, clocks, i + 1);
      var now := before + Happenings(d.events, clocks(i), 0);
      assert before + StreamTrace(b, chunks, tolerant, clocks, i) == now + more;
      EventsUpdate(before, d.events, clocks(i), 0, boatId);
      StreamUpdates(now, d.rest, chunks[1..], tolerant, clocks, i + 1, boatId);
      LatestFrameAppend(d.events, Run(d.rest, chunks[1..], tolerant).events, boatId);
    }
  }

  lemma LatestFrameNone(boatId: nat)
    ensures LatestFrame([], boatId) == None
  {}

  // ---------- many connections ----------

  /** The events of all connections in the order in which they reach the hub. */
  function Untagged(log: seq<Tagged>): seq<Event> {
    if log == [] then [] else Untagged(log[..|log| - 1]) + [log[|log| - 1].event]
  }

  lemma FramesInLast(events: seq<Event>, e: Event)
    ensures FramesIn(events + [e]) == if e.Decoded? then FramesIn(events) + [e.frame] else FramesIn(events)
  {
    FramesInAppend(events, [e]);
    assert [e][1..] == [];
    assert FramesIn([e]) == (if e.Decoded? then [e.frame] else []) + FramesIn([]);
  }

  /** The events of all connections reach a subscribed listener and the error handler in that order. */
  lemma {:induction false} LogIsWitnessed(before: seq<Happening>, log: seq<Tagged>, clock: nat -> int, l: ListenerId)
    requires Subscribed(before, l)
    ensures var trace := before + LogTrace(log, clock);
      && Subscribed(trace, l)
      && Witnessed(After(trace).calls, l) == Witnessed(After(before).calls, l) + Untagged(log)
    decreases |log|
  {
    hide After, Witnessed, Subscribed;
    var seen := Witnessed(After(before).calls, l);
    if log == [] {
      assert before + [] == before;
      assert seen + [] == seen;
    } else {
      var pre, e := log[..|log| - 1], log[|log| - 1].event;
      LogIsWitnessed(before, pre, clock, l);
      EventIsWitnessed(before + LogTrace(pre, clock), e, clock(|log|), l);
      assert before + LogTrace(log, clock) == (before + LogTrace(pre, clock)) + [StepOf(e, clock(|log|))];
      assert seen + Untagged(log) == (seen + Untagged(pre)) + [e];
    }
  }

  /** In particular, the listener hears the frames of all connections in that order. */
  lemma ListenerHearsLog(before: seq<Happening>, log: seq<Tagged>, clock: nat -> int, l: ListenerId)
    requires Subscribed(before, l)
    ensures var trace := before + LogTrace(log, clock);
      && Subscribed(trace, l)
      && LogOf(After(trace).calls, l) == LogOf(After(before).calls, l) + FramesIn(Untagged(log))
  {
    hide After, LogOf, Subscribed, Witnessed, FramesIn, LogTrace, Untagged;
    LogIsWitnessed(before, log, clock, l);
    FramesWitnessed(After(before).calls, After(before + LogTrace(log, clock)).calls, Untagged(log), l);
  }

  /** And the error handler is called with the errors of all connections in that order. */
  lemma {:induction false} HandlerHearsLog(before: seq<Happening>, log: seq<Tagged>, clock: nat -> int)
    ensures ReportsIn(After(before + LogTrace(log, clock)).calls)
         == ReportsIn(After(before).calls) + FailuresIn(Untagged(log))
  {
    hide After, ReportsIn, RefusedIn, LogTrace, FailuresIn, Untagged;
    HandlerHearsErrors(before);
    HandlerHearsErrors(before + LogTrace(log, clock));
    LogRefused(before, log, clock);
  }

  lemma {:induction false} LogRefused(before: seq<Happening>, log: seq<Tagged>, clock: nat -> int)
    ensures RefusedIn(before + LogTrace(log, clock)) == RefusedIn(before) + FailuresIn(Untagged(log))
    decreases |log|
  {
    hide RefusedIn, FailuresIn;
    var errors := RefusedIn(before);
    if log == [] {
      assert before + [] == before;
      NoFailures();
      assert errors + [] == errors;
    } else {
      var pre, e := log[..|log| - 1], log[|log| - 1].event;
      LogRefused(before, pre, clock);
      RefusedStep(before + LogTrace(pre, clock), e, clock(|log|));
      assert before + LogTrace(log, clock) == (before + LogTrace(pre, clock)) + [StepOf(e, clock(|log|))];
      FailuresInAppend(Untagged(pre), [e]);
      OneFailure(e);
    }
  }

  lemma NoFailures()
    ensures FailuresIn([]) == []
  {}

  lemma OneFailure(e: Event)
    ensures FailuresIn([e]) == if e.Failed? then [e.code] else []
  {
    assert FailuresIn([e]) == (if e.Failed? then [e.code] else []) + FailuresIn([]);
  }

  /**
    In every interleaving, a listener and the error handler hear one merge of the connections' events:
    the log they hear has, connection by connection, that connection's events, parsed alone and in order.
   */
  lemma ConnectionsAreHeard(
    before: seq<Happening>, s: seq<Arrival>, tolerant: bool, clock: nat -> int, l: ListenerId)
    requires Subscribed(before, l)
    ensures var log := Serve(s, tolerant).log; var trace := before + LogTrace(log, clock);
      && Witnessed(After(trace).calls, l) == Witnessed(After(before).calls, l) + Untagged(log)
      && LogOf(After(trace).calls, l) == LogOf(After(before).calls, l) + FramesIn(Untagged(log))
      && forall c :: EventsOf(log, c) == Run([], ChunksOf(s, c), tolerant).events
  {
    hide After, LogOf, Witnessed, Subscribed, FramesIn, Serve, Run, EventsOf, ChunksOf, LogTrace, Untagged;
    var log := Serve(s, tolerant).log;
    LogIsWitnessed(before, log, clock, l);
    ListenerHearsLog(before, log, clock, l);
    forall c
      ensures EventsOf(log, c) == Run([], ChunksOf(s, c), tolerant).events
    {
      ConnectionIsAlone(s, c, tolerant);
    }
  }

  // ---------- one boat ----------

  /** The frames of one boat. */
  function FramesOfBoat(frames: seq<DecodedFrame>, boatId: nat): seq<DecodedFrame> {
    if frames == [] then []
    else
      var f := frames[|frames| - 1];
      var before := FramesOfBoat(frames[..|frames| - 1], boatId);
      if f.boatId == boatId then before + [f] else before
  }

  lemma FramesOfBoatLast(frames: seq<DecodedFrame>, f: DecodedFrame, boatId: nat)
    ensures FramesOfBoat(frames + [f], boatId)
         == if f.boatId == boatId then FramesOfBoat(frames, boatId) + [f] else FramesOfBoat(frames, boatId)
  {
    assert (frames + [f])[..|frames|] == frames;
  }

  /** Among all frames in a log, those of a boat are the ones that its own connection carried. */
  lemma {:induction false} BoatInLog(log: seq<Tagged>, owner: nat -> ConnectionId, boatId: nat)
    requires Owned(log, owner)
    ensures FramesOfBoat(FramesIn(Untagged(log)), boatId)
         == FramesOfBoat(FramesIn(EventsOf(log, owner(boatId))), boatId)
    decreases |log|
  {
    hide FramesIn, FramesOfBoat, EventsOf;
    if log == [] {
      NothingLatest(boatId);
      assert EventsOf([], owner(boatId)) == [] by { NoEvents([], owner(boatId)); }
    } else {
      var pre, t := log[..|log| - 1], log[|log| - 1];
      var c := owner(boatId);
      BoatInLog(pre, owner, boatId);
      EventsOfLast(log, c);
      FramesInLast(Untagged(pre), t.event);
      FramesInLast(EventsOf(pre, c), t.event);
      assert EventsOf(pre, c) + [] == EventsOf(pre, c);
      if t.event.Decoded? {
        assert owner(t.event.frame.boatId) == t.conn;
        FramesOfBoatLast(FramesIn(Untagged(pre)), t.event.frame, boatId);
        FramesOfBoatLast(FramesIn(EventsOf(pre, c)), t.event.frame, boatId);
      }
    }
  }

  /**
    When every boat speaks over one connection, a listener hears each boat's frames exactly as that
    connection alone delivers them, however the connections interleave.
   */
  lemma BoatIsHeardInOrder(
    before: seq<Happening>, s: seq<Arrival>, tolerant: bool, clock: nat -> int, l: ListenerId,
    owner: nat -> ConnectionId, boatId: nat)
    returns (heard: seq<DecodedFrame>)
    requires Subscribed(before, l) && Owned(Serve(s, tolerant).log, owner)
    ensures LogOf(After(before + LogTrace(Serve(s, tolerant).log, clock)).calls, l)
         == LogOf(After(before).calls, l) + heard
    ensures FramesOfBoat(heard, boatId)
         == FramesOfBoat(FramesIn(Run([], ChunksOf(s, owner(boatId)), tolerant).events), boatId)
  {
    hide After, LogOf, Subscribed, FramesIn, Serve, Run, EventsOf, ChunksOf, LogTrace, Untagged, FramesOfBoat, Owned;
    var log := Serve(s, tolerant).log;
    heard := FramesIn(Untagged(log));
    ConnectionsAreHeard(before, s, tolerant, clock, l);
    BoatInLog(log, owner, boatId);
  }
}
