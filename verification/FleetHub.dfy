/** The fleet multiplexer, and what its maps and its listeners' logs mean over whole runs. */
module FleetHub {
  import opened Bits
  import opened Wire
  import opened Frame
  import opened FrameProperties
  import opened Stream
  import opened StreamParser

  /** The identity of a callback. */
  type ListenerId = nat

  /** One call of a callback: a listener with a frame, or the error handler with a code. */
  datatype Call = Heard(listener: ListenerId, frame: DecodedFrame) | Reported(code: ErrorCode)

  /** What happens to a hub, one step at a time. */
  datatype Happening =
    | Sent(frame: DecodedFrame, time: int)
    | Refused(code: ErrorCode)
    | Forgot(boatId: nat)
    | ForgotAll
    | Joined(listener: ListenerId)
    | Left(listener: ListenerId)

  /** The hub's collections, and all calls it has made. */
  datatype View = View(
    lastByBoat: map<nat, DecodedFrame>, lastSeenMs: map<nat, int>, listeners: seq<ListenerId>, calls: seq<Call>)

  const NOTHING := View(map[], map[], [], [])

  function CallAll(listeners: seq<ListenerId>, frame: DecodedFrame): seq<Call> {
    if listeners == [] then [] else [Heard(listeners[0], frame)] + CallAll(listeners[1..], frame)
  }

  lemma CallNext(listeners: seq<ListenerId>, i: nat, frame: DecodedFrame)
    requires i < |listeners|
    ensures CallAll(listeners[i..], frame) == [Heard(listeners[i], frame)] + CallAll(listeners[i + 1..], frame)
  {
    assert listeners[i..][1..] == listeners[i + 1..];
  }

  lemma CallNone(frame: DecodedFrame)
    ensures CallAll([], frame) == []
  {}

  function Without(listeners: seq<ListenerId>, l: ListenerId): (r: seq<ListenerId>)
    ensures forall k :: k in r <==> k in listeners && k != l
  {
    if listeners == [] then []
    else (if listeners[0] == l then [] else [listeners[0]]) + Without(listeners[1..], l)
  }

  /** The effect of one step. */
  function Apply(v: View, h: Happening): View {
    match h
    case Sent(f, t) =>
      View(v.lastByBoat[f.boatId := f], v.lastSeenMs[f.boatId := t], v.listeners, v.calls + CallAll(v.listeners, f))
    case Refused(code) => v.(calls := v.calls + [Reported(code)])
    case Forgot(b) => v.(lastByBoat := v.lastByBoat - {b}, lastSeenMs := v.lastSeenMs - {b})
    case ForgotAll => v.(lastByBoat := map[], lastSeenMs := map[])
    case Joined(l) => if l in v.listeners then v else v.(listeners := v.listeners + [l])
    case Left(l) => v.(listeners := Without(v.listeners, l))
  }

  /** The effect of a whole history. */
  function After(trace: seq<Happening>): View {
    if trace == [] then NOTHING else Apply(After(trace[..|trace| - 1]), trace[|trace| - 1])
  }

  lemma AfterLast(trace: seq<Happening>, h: Happening)
    ensures After(trace + [h]) == Apply(After(trace), h)
  {
    assert (trace + [h])[..|trace|] == trace;
  }

  /** What the events of one push do to the hub; `clock(i)` is the time read at dispatch `i`. */
  function Happenings(events: seq<Event>, clock: nat -> int, i: nat): seq<Happening>
    decreases |events|
  {
    if events == [] then []
    else match events[0]
      case Decoded(f) => [Sent(f, clock(i))] + Happenings(events[1..], clock, i + 1)
      case Failed(code) => [Refused(code)] + Happenings(events[1..], clock, i)
  }

  // ---------- the class ----------

  class FleetHub {
    const parser: FrameParser
    /** Whether the owner passed an error handler. */
    const tolerant: bool
    /** The listener set, in insertion order. */
    var listeners: seq<ListenerId>
    var lastByBoat: map<nat, DecodedFrame>
    var lastSeenMs: map<nat, int>
    /** All callbacks made, in order. */
    var calls: seq<Call>
    ghost var trace: seq<Happening>

    ghost function Contents(): View
      reads this
    {
      View(lastByBoat, lastSeenMs, listeners, calls)
    }

    /** The collections are the effect of the history. */
    ghost predicate Valid()
      reads this, parser, parser.buf
    {
      parser.Valid() && parser.tolerant == tolerant && Contents() == After(trace)
    }

    constructor (tolerant: bool)
      ensures Valid() && fresh(parser) && fresh(parser.buf)
      ensures this.tolerant == tolerant && trace == [] && parser.Contents() == []
    {
      hide FrameParser.Valid;
      this.tolerant := tolerant;
      parser := new FrameParser(tolerant);
      listeners := [];
      lastByBoat, lastSeenMs := map[], map[];
      calls := [];
      trace := [];
    }

    method CreateStreamParser() returns (p: FrameParser)
      ensures p.Valid() && fresh(p) && fresh(p.buf) && p.tolerant == tolerant && p.Contents() == []
    {
      p := new FrameParser(tolerant);
    }

    method FeedStream(chunk: seq<byte>, clock: nat -> int) returns (thrown: Option<ErrorCode>)
      requires Valid()
      modifies this, parser, parser.buf
      ensures Valid() && (parser.buf == old(parser.buf) || fresh(parser.buf))
      ensures var d := Stream.Push(old(parser.Contents()), chunk, tolerant);
        && thrown == d.thrown && parser.Contents() == d.rest
        && trace == old(trace) + Happenings(d.events, clock, 0)
    {
      hide Stream.Push, After, FrameParser.Valid;
      var events;
      events, thrown := parser.Push(chunk);
      HandleEvents(events, clock);
    }

    /** The callbacks that the parser makes during one push. */
    method HandleEvents(events: seq<Event>, clock: nat -> int)
      requires Contents() == After(trace)
      modifies this
      ensures Contents() == After(trace)
      ensures trace == old(trace) + Happenings(events, clock, 0)
    {
      hide After, FrameParser.Valid;
      var dispatched: nat := 0;
      assert events[0..] == events;
      for i := 0 to |events|
        invariant Contents() == After(trace)
        invariant trace + Happenings(events[i..], clock, dispatched) == old(trace) + Happenings(events, clock, 0)
      {
        assert events[i..][1..] == events[i + 1..];
        match events[i] {
          case Decoded(f) =>
            Dispatch(f, clock(dispatched));
            dispatched := dispatched + 1;
          case Failed(code) =>
            Report(code);
        }
      }
    }

    method FeedDatagram(datagram: seq<byte>, now: int) returns (thrown: Option<ErrorCode>)
      requires Valid()
      modifies this
      ensures Valid()
      ensures trace == old(trace) + DatagramHappenings(datagram, now, tolerant)
      ensures thrown == DatagramThrown(datagram, tolerant)
    {
      hide After, DecodeFrame, FrameParser.Valid;
      thrown := None;
      match DecodeFrame(datagram) {
        case Ok(f) =>
          Dispatch(f, now);
        case Err(code) =>
          if tolerant {
            Report(code);
          } else {
            thrown := Some(code);
          }
      }
    }

    method IngestDecoded(frame: DecodedFrame, now: int)
      requires Valid()
      modifies this
      ensures Valid() && trace == old(trace) + [Sent(frame, now)]
    {
      hide After, FrameParser.Valid;
      Dispatch(frame, now);
    }

    method Dispatch(frame: DecodedFrame, now: int)
      requires Contents() == After(trace)
      modifies this
      ensures Contents() == After(trace) && trace == old(trace) + [Sent(frame, now)]
    {
      AfterLast(trace, Sent(frame, now));
      hide After, FrameParser.Valid, CallAll;
      lastByBoat := lastByBoat[frame.boatId := frame];
      lastSeenMs := lastSeenMs[frame.boatId := now];
      assert listeners[0..] == listeners;
      for i := 0 to |listeners|
        invariant lastByBoat == old(lastByBoat)[frame.boatId := frame]
        invariant lastSeenMs == old(lastSeenMs)[frame.boatId := now]
        invariant listeners == old(listeners) && trace == old(trace)
        invariant calls + CallAll(listeners[i..], frame) == old(calls) + CallAll(listeners, frame)
      {
        CallNext(listeners, i, frame);
        calls := calls + [Heard(listeners[i], frame)];
      }
      assert listeners[|listeners|..] == [];
      CallNone(frame);
      assert calls + [] == calls;
      trace := trace + [Sent(frame, now)];
    }

    /** A call of the error handler. */
    method Report(code: ErrorCode)
      requires Contents() == After(trace)
      modifies this
      ensures Contents() == After(trace) && trace == old(trace) + [Refused(code)]
    {
      AfterLast(trace, Refused(code));
      calls := calls + [Reported(code)];
      trace := trace + [Refused(code)];
    }

    method Subscribe(l: ListenerId)
      requires Valid()
      modifies this
      ensures Valid() && trace == old(trace) + [Joined(l)]
    {
      hide After, FrameParser.Valid;
      AfterLast(trace, Joined(l));
      if l !in listeners {
        listeners := listeners + [l];
      }
      trace := trace + [Joined(l)];
    }

    /** The closure that `Subscribe` hands out. */
    method Unsubscribe(l: ListenerId)
      requires Valid()
      modifies this
      ensures Valid() && trace == old(trace) + [Left(l)]
    {
      hide After, FrameParser.Valid;
      AfterLast(trace, Left(l));
      listeners := Without(listeners, l);
      trace := trace + [Left(l)];
    }

    method ClearBoat(boatId: nat)
      requires Valid()
      modifies this
      ensures Valid() && trace == old(trace) + [Forgot(boatId)]
    {
      hide After, FrameParser.Valid;
      AfterLast(trace, Forgot(boatId));
      lastByBoat := lastByBoat - {boatId};
      lastSeenMs := lastSeenMs - {boatId};
      trace := trace + [Forgot(boatId)];
    }

    method ResetAll()
      requires Valid()
      modifies this, parser
      ensures Valid() && fresh(parser.buf) && trace == old(trace) + [ForgotAll] && parser.Contents() == []
    {
      hide After, FrameParser.Valid;
      AfterLast(trace, ForgotAll);
      lastByBoat, lastSeenMs := map[], map[];
      parser.Reset();
      trace := trace + [ForgotAll];
    }

    method ResetParser()
      requires Valid()
      modifies parser
      ensures Valid() && fresh(parser.buf) && trace == old(trace) && parser.Contents() == []
    {
      hide After, FrameParser.Valid;
      parser.Reset();
    }

    method GetLast(boatId: nat) returns (r: Option<DecodedFrame>)
      requires Valid()
      ensures r == match Latest(trace, boatId) case None => None case Some(s) => Some(s.frame)
    {
      LatestIsKept(trace, boatId);
      r := if boatId in lastByBoat then Some(lastByBoat[boatId]) else None;
    }

    method GetLastSeenMs(boatId: nat) returns (r: Option<int>)
      requires Valid()
      ensures r == match Latest(trace, boatId) case None => None case Some(s) => Some(s.time)
    {
      LatestIsKept(trace, boatId);
      r := if boatId in lastSeenMs then Some(lastSeenMs[boatId]) else None;
    }

    /** Never seen, or not seen for longer than `maxAgeMs`. */
    method IsStale(boatId: nat, maxAgeMs: int, nowMs: int) returns (stale: bool)
      requires Valid()
      ensures stale <==> match Latest(trace, boatId)
        case None => true
        case Some(s) => nowMs - s.time > maxAgeMs
    {
      LatestIsKept(trace, boatId);
      if boatId !in lastSeenMs {
        return true;
      }
      return nowMs - lastSeenMs[boatId] > maxAgeMs;
    }
  }

  // ---------- what the collections mean ----------

  datatype Sighting = Sighting(frame: DecodedFrame, time: int)

  /** The last dispatch for a boat since it was last cleared. */
  function Latest(trace: seq<Happening>, boatId: nat): Option<Sighting> {
    if trace == [] then None
    else
      match trace[|trace| - 1]
      case Sent(f, t) => if f.boatId == boatId then Some(Sighting(f, t)) else Latest(trace[..|trace| - 1], boatId)
      case Forgot(b) => if b == boatId then None else Latest(trace[..|trace| - 1], boatId)
      case ForgotAll => None
      case _ => Latest(trace[..|trace| - 1], boatId)
  }

  /** In every run, both maps hold exactly the latest dispatch of each boat since its last clear or reset. */
  lemma {:induction false} LatestIsKept(trace: seq<Happening>, boatId: nat)
    ensures var v := After(trace);
      && (boatId in v.lastByBoat <==> boatId in v.lastSeenMs)
      && Latest(trace, boatId)
         == if boatId in v.lastByBoat then Some(Sighting(v.lastByBoat[boatId], v.lastSeenMs[boatId])) else None
    decreases |trace|
  {
    hide CallAll, Without;
    if trace != [] {
      LatestIsKept(trace[..|trace| - 1], boatId);
    }
  }

  lemma MapsHaveSameKeys(trace: seq<Happening>)
    ensures After(trace).lastByBoat.Keys == After(trace).lastSeenMs.Keys
  {
    hide After, Latest;
    forall b: nat
      ensures b in After(trace).lastByBoat <==> b in After(trace).lastSeenMs
    {
      LatestIsKept(trace, b);
    }
  }

  /** Whether a listener is subscribed after a history: its last subscription is not followed by a departure. */
  predicate Subscribed(trace: seq<Happening>, l: ListenerId) {
    trace != [] &&
    match trace[|trace| - 1]
    case Joined(k) => k == l || Subscribed(trace[..|trace| - 1], l)
    case Left(k) => k != l && Subscribed(trace[..|trace| - 1], l)
    case _ => Subscribed(trace[..|trace| - 1], l)
  }

  /** The frames dispatched while a listener was subscribed, in order. */
  function SentWhileSubscribed(trace: seq<Happening>, l: ListenerId): seq<DecodedFrame> {
    if trace == [] then []
    else
      var before := trace[..|trace| - 1];
      var h := trace[|trace| - 1];
      SentWhileSubscribed(before, l) + if h.Sent? && Subscribed(before, l) then [h.frame] else []
  }

  /** The frames that a listener was called with. */
  function LogOf(calls: seq<Call>, l: ListenerId): seq<DecodedFrame> {
    if calls == [] then []
    else (if calls[0].Heard? && calls[0].listener == l then [calls[0].frame] else []) + LogOf(calls[1..], l)
  }

  ghost predicate Distinct(listeners: seq<ListenerId>) {
    forall i, j :: 0 <= i < j < |listeners| ==> listeners[i] != listeners[j]
  }

  lemma {:induction false} LogAppend(a: seq<Call>, b: seq<Call>, l: ListenerId)
    ensures LogOf(a + b, l) == LogOf(a, l) + LogOf(b, l)
  {
    if a == [] {
      assert a + b == b;
    } else {
      assert (a + b)[1..] == a[1..] + b;
      LogAppend(a[1..], b, l);
    }
  }

  /** A dispatch calls every listener once. */
  lemma {:induction false} LogOfCallAll(listeners: seq<ListenerId>, f: DecodedFrame, l: ListenerId)
    requires Distinct(listeners)
    ensures LogOf(CallAll(listeners, f), l) == if l in listeners then [f] else []
  {
    if listeners != [] {
      LogOfCallAll(listeners[1..], f, l);
    }
  }

  lemma {:induction false} WithoutKeepsDistinct(listeners: seq<ListenerId>, l: ListenerId)
    requires Distinct(listeners)
    ensures Distinct(Without(listeners, l))
  {
    if listeners != [] {
      WithoutKeepsDistinct(listeners[1..], l);
      assert forall k :: k in Without(listeners[1..], l) ==> k in listeners[1..];
      assert listeners[0] !in listeners[1..];
    }
  }

  lemma {:induction false} ListenersAreDistinct(trace: seq<Happening>)
    ensures Distinct(After(trace).listeners)
    decreases |trace|
  {
    hide CallAll, Without;
    if trace != [] {
      ListenersAreDistinct(trace[..|trace| - 1]);
      if trace[|trace| - 1].Left? {
        WithoutKeepsDistinct(After(trace[..|trace| - 1]).listeners, trace[|trace| - 1].listener);
      }
    }
  }

  /** In every run, a listener has been called with exactly the frames dispatched while it was subscribed. */
  lemma {:induction false} ListenersHearTheirFrames(trace: seq<Happening>, l: ListenerId)
    ensures l in After(trace).listeners <==> Subscribed(trace, l)
    ensures LogOf(After(trace).calls, l) == SentWhileSubscribed(trace, l)
    decreases |trace|
  {
    hide CallAll, Distinct;
    if trace != [] {
      var before := trace[..|trace| - 1];
      var v := After(before);
      ListenersHearTheirFrames(before, l);
      match trace[|trace| - 1]
      case Sent(f, t) =>
        ListenersAreDistinct(before);
        LogOfCallAll(v.listeners, f, l);
        LogAppend(v.calls, CallAll(v.listeners, f), l);
      case Refused(code) =>
        LogAppend(v.calls, [Reported(code)], l);
        assert LogOf([Reported(code)], l) == [] + LogOf([], l);
      case Forgot(b) =>
      case ForgotAll =>
      case Joined(k) =>
      case Left(k) =>
    }
  }

  // ---------- the calls of the error handler ----------

  /** The codes that the error handler was called with. */
  function ReportsIn(calls: seq<Call>): seq<ErrorCode> {
    if calls == [] then []
    else (if calls[0].Reported? then [calls[0].code] else []) + ReportsIn(calls[1..])
  }

  /** The errors in a history. */
  function RefusedIn(trace: seq<Happening>): seq<ErrorCode> {
    if trace == [] then []
    else
      var h := trace[|trace| - 1];
      var before := RefusedIn(trace[..|trace| - 1]);
      if h.Refused? then before + [h.code] else before
  }

  lemma {:induction false} ReportsAppend(a: seq<Call>, b: seq<Call>)
    ensures ReportsIn(a + b) == ReportsIn(a) + ReportsIn(b)
  {
    if a == [] {
      assert a + b == b;
    } else {
      assert (a + b)[1..] == a[1..] + b;
      ReportsAppend(a[1..], b);
      var first := if a[0].Reported? then [a[0].code] else [];
      var x, y := ReportsIn(a[1..]), ReportsIn(b);
      assert ReportsIn(a) == first + x && ReportsIn(a + b) == first + (x + y);
      hide ReportsIn;
      assert first + (x + y) == (first + x) + y;
    }
  }

  lemma {:induction false} NoneReported(listeners: seq<ListenerId>, f: DecodedFrame)
    ensures ReportsIn(CallAll(listeners, f)) == []
  {
    if listeners != [] {
      NoneReported(listeners[1..], f);
    }
  }

  /** In every run, the error handler has been called with exactly the errors, in order. */
  lemma {:induction false} HandlerHearsErrors(trace: seq<Happening>)
    ensures ReportsIn(After(trace).calls) == RefusedIn(trace)
    decreases |trace|
  {
    hide ReportsIn, CallAll;
    if trace == [] {
      NothingReported();
    } else {
      var v := After(trace[..|trace| - 1]);
      HandlerHearsErrors(trace[..|trace| - 1]);
      match trace[|trace| - 1]
      case Sent(f, t) =>
        ReportsAppend(v.calls, CallAll(v.listeners, f));
        NoneReported(v.listeners, f);
        assert ReportsIn(v.calls) + [] == ReportsIn(v.calls);
      case Refused(code) =>
        ReportsAppend(v.calls, [Reported(code)]);
        OneReport(code);
      case Forgot(b) =>
      case ForgotAll =>
      case Joined(k) =>
      case Left(k) =>
    }
  }

  lemma NothingReported()
    ensures ReportsIn([]) == []
  {}

  lemma OneReport(code: ErrorCode)
    ensures ReportsIn([Reported(code)]) == [code]
  {
    assert ReportsIn([Reported(code)]) == [code] + ReportsIn([]);
  }

  // ---------- frames and errors in one order ----------

  /** What a listener and the error handler are called with, in one order. */
  function Witnessed(calls: seq<Call>, l: ListenerId): seq<Event> {
    if calls == [] then []
    else
      (match calls[0]
       case Heard(k, f) => if k == l then [Decoded(f)] else []
       case Reported(code) => [Failed(code)])
      + Witnessed(calls[1..], l)
  }

  /** The dispatches made while a listener was subscribed, and all errors, in one order. */
  function SeenBy(trace: seq<Happening>, l: ListenerId): seq<Event> {
    if trace == [] then []
    else
      var before := trace[..|trace| - 1];
      match trace[|trace| - 1]
      case Sent(f, t) => if Subscribed(before, l) then SeenBy(before, l) + [Decoded(f)] else SeenBy(before, l)
      case Refused(code) => SeenBy(before, l) + [Failed(code)]
      case _ => SeenBy(before, l)
  }

  lemma {:induction false} WitnessedAppend(a: seq<Call>, b: seq<Call>, l: ListenerId)
    ensures Witnessed(a + b, l) == Witnessed(a, l) + Witnessed(b, l)
  {
    if a == [] {
      assert a + b == b;
    } else {
      assert (a + b)[1..] == a[1..] + b;
      WitnessedAppend(a[1..], b, l);
      var first := match a[0]
        case Heard(k, f) => if k == l then [Decoded(f)] else []
        case Reported(code) => [Failed(code)];
      var x, y := Witnessed(a[1..], l), Witnessed(b, l);
      assert Witnessed(a, l) == first + x && Witnessed(a + b, l) == first + (x + y);
      hide Witnessed;
      assert first + (x + y) == (first + x) + y;
    }
  }

  lemma {:induction false} WitnessedCallAll(listeners: seq<ListenerId>, f: DecodedFrame, l: ListenerId)
    requires Distinct(listeners)
    ensures Witnessed(CallAll(listeners, f), l) == if l in listeners then [Decoded(f)] else []
  {
    if listeners != [] {
      WitnessedCallAll(listeners[1..], f, l);
    }
  }

  /** In every run, a listener's frames and the reported errors come in the order of the history. */
  lemma {:induction false} CallsInOrder(trace: seq<Happening>, l: ListenerId)
    ensures Witnessed(After(trace).calls, l) == SeenBy(trace, l)
    decreases |trace|
  {
    hide Witnessed, CallAll, Distinct, Subscribed;
    if trace == [] {
      NothingWitnessed(l);
    } else {
      var before := trace[..|trace| - 1];
      var v := After(before);
      CallsInOrder(before, l);
      match trace[|trace| - 1]
      case Sent(f, t) =>
        ListenersAreDistinct(before);
        ListenersHearTheirFrames(before, l);
        WitnessedCallAll(v.listeners, f, l);
        WitnessedAppend(v.calls, CallAll(v.listeners, f), l);
        assert Witnessed(v.calls, l) + [] == Witnessed(v.calls, l);
      case Refused(code) =>
        WitnessedAppend(v.calls, [Reported(code)], l);
        OneWitnessed(code, l);
      case Forgot(b) =>
      case ForgotAll =>
      case Joined(k) =>
      case Left(k) =>
    }
  }

  lemma NothingWitnessed(l: ListenerId)
    ensures Witnessed([], l) == []
  {}

  lemma OneWitnessed(code: ErrorCode, l: ListenerId)
    ensures Witnessed([Reported(code)], l) == [Failed(code)]
  {
    assert Witnessed([Reported(code)], l) == [Failed(code)] + Witnessed([], l);
  }

  // ---------- the order of listeners ----------

  /** When the present subscription of a listener began; -1 if it is not subscribed. */
  function Since(trace: seq<Happening>, l: ListenerId): (r: int)
    ensures r < |trace|
  {
    if trace == [] then -1
    else
      var before := trace[..|trace| - 1];
      match trace[|trace| - 1]
      case Joined(k) => if k == l && !Subscribed(before, l) then |trace| - 1 else Since(before, l)
      case Left(k) => if k == l then -1 else Since(before, l)
      case _ => Since(before, l)
  }

  ghost predicate InOrder(trace: seq<Happening>, listeners: seq<ListenerId>) {
    forall i, j :: 0 <= i < j < |listeners| ==> Since(trace, listeners[i]) < Since(trace, listeners[j])
  }

  lemma {:induction false} WithoutKeepsOrder(
    before: seq<Happening>, after: seq<Happening>, listeners: seq<ListenerId>, l: ListenerId)
    requires InOrder(before, listeners)
    requires forall k :: k in listeners && k != l ==> Since(after, k) == Since(before, k)
    ensures InOrder(after, Without(listeners, l))
    decreases |listeners|
  {
    hide Since, InOrder;
    if listeners == [] {
      NoListeners(after);
    } else {
      var first, rest := listeners[0], listeners[1..];
      FirstIsEarlier(before, listeners);
      WithoutKeepsOrder(before, after, rest, l);
      if first != l {
        FirstInOrder(after, first, Without(rest, l));
      } else {
        assert [] + Without(rest, l) == Without(rest, l);
      }
    }
  }

  lemma FirstIsEarlier(trace: seq<Happening>, listeners: seq<ListenerId>)
    requires InOrder(trace, listeners) && listeners != []
    ensures InOrder(trace, listeners[1..])
    ensures forall k :: k in listeners[1..] ==> Since(trace, listeners[0]) < Since(trace, k)
  {
    hide Since;
    var rest := listeners[1..];
    forall k | k in rest
      ensures Since(trace, listeners[0]) < Since(trace, k)
    {
      var j :| 0 <= j < |rest| && rest[j] == k;
      assert listeners[j + 1] == k;
    }
  }

  lemma FirstInOrder(trace: seq<Happening>, first: ListenerId, rest: seq<ListenerId>)
    requires InOrder(trace, rest)
    requires forall k :: k in rest ==> Since(trace, first) < Since(trace, k)
    ensures InOrder(trace, [first] + rest)
  {
    hide Since;
    var all := [first] + rest;
    forall i, j | 0 <= i < j < |all|
      ensures Since(trace, all[i]) < Since(trace, all[j])
    {
      assert all[j] == rest[j - 1];
      if i > 0 {
        assert all[i] == rest[i - 1];
      }
    }
  }

  lemma OrderUnchanged(before: seq<Happening>, after: seq<Happening>, listeners: seq<ListenerId>)
    requires InOrder(before, listeners)
    requires forall k :: k in listeners ==> Since(after, k) == Since(before, k)
    ensures InOrder(after, listeners)
  {
    hide Since;
  }

  /** In every run, the listeners stand in the order in which their subscriptions began. */
  lemma {:induction false} ListenersInOrder(trace: seq<Happening>)
    ensures InOrder(trace, After(trace).listeners)
    decreases |trace|
  {
    hide InOrder, CallAll, Without;
    if trace == [] {
      NoListeners([]);
    } else {
      var before, h := trace[..|trace| - 1], trace[|trace| - 1];
      var ls := After(before).listeners;
      ListenersInOrder(before);
      match h
      case Joined(k) =>
        ListenersHearTheirFrames(before, k);
        OrderUnchanged(before, trace, ls);
        if k !in ls {
          LastInOrder(trace, ls, k);
        }
      case Left(k) => WithoutKeepsOrder(before, trace, ls, k);
      case Sent(f, t) => OrderUnchanged(before, trace, ls);
      case Refused(code) => OrderUnchanged(before, trace, ls);
      case Forgot(b) => OrderUnchanged(before, trace, ls);
      case ForgotAll => OrderUnchanged(before, trace, ls);
    }
  }

  lemma NoListeners(trace: seq<Happening>)
    ensures InOrder(trace, [])
  {}

  lemma LastInOrder(trace: seq<Happening>, listeners: seq<ListenerId>, l: ListenerId)
    requires InOrder(trace, listeners)
    requires forall k :: k in listeners ==> Since(trace, k) < Since(trace, l)
    ensures InOrder(trace, listeners + [l])
  {
    hide Since;
  }

  lemma {:induction false} CallAllAt(listeners: seq<ListenerId>, f: DecodedFrame)
    ensures |CallAll(listeners, f)| == |listeners|
    ensures forall i :: 0 <= i < |listeners| ==> CallAll(listeners, f)[i] == Heard(listeners[i], f)
  {
    if listeners != [] {
      CallAllAt(listeners[1..], f);
    }
  }

  /** Of two subscribed listeners, the one that subscribed earlier is called first for each frame. */
  lemma EarlierIsCalledFirst(trace: seq<Happening>, f: DecodedFrame, t: int, a: ListenerId, b: ListenerId)
    returns (i: nat, j: nat)
    requires Subscribed(trace, a) && Subscribed(trace, b) && Since(trace, a) < Since(trace, b)
    ensures var calls := After(trace + [Sent(f, t)]).calls;
      |After(trace).calls| <= i < j < |calls| && calls[i] == Heard(a, f) && calls[j] == Heard(b, f)
  {
    hide Since, Subscribed, After, CallAll;
    var v := After(trace);
    AfterLast(trace, Sent(f, t));
    ListenersHearTheirFrames(trace, a);
    ListenersHearTheirFrames(trace, b);
    ListenersInOrder(trace);
    CallAllAt(v.listeners, f);
    var m :| 0 <= m < |v.listeners| && v.listeners[m] == a;
    var n :| 0 <= n < |v.listeners| && v.listeners[n] == b;
    i, j := |v.calls| + m, |v.calls| + n;
  }

  // ---------- the same by positions in the history ----------

  /** A listener is subscribed if and only if some subscription of it is not followed by a departure. */
  lemma {:induction false} SubscribedMeans(trace: seq<Happening>, l: ListenerId)
    ensures l in After(trace).listeners
       <==> exists i :: 0 <= i < |trace| && trace[i] == Joined(l) && forall j :: i < j < |trace| ==> trace[j] != Left(l)
    decreases |trace|
  {
    hide CallAll;
    if trace != [] {
      var before := trace[..|trace| - 1];
      SubscribedMeans(before, l);
      assert forall i :: 0 <= i < |before| ==> before[i] == trace[i];
    }
  }

  /** Something that takes the place of, or removes, what the maps hold for a boat. */
  predicate Overrules(h: Happening, boatId: nat) {
    match h
    case Sent(f, t) => f.boatId == boatId
    case Forgot(b) => b == boatId
    case ForgotAll => true
    case _ => false
  }

  ghost predicate Stands(trace: seq<Happening>, i: int, boatId: nat) {
    forall j :: i < j < |trace| && j >= 0 ==> !Overrules(trace[j], boatId)
  }

  /** The maps hold a frame and a time if and only if it was dispatched then and nothing overruled it since. */
  lemma {:induction false} MapsMean(trace: seq<Happening>, boatId: nat, f: DecodedFrame, t: int)
    ensures var v := After(trace);
      && boatId in v.lastByBoat && boatId in v.lastSeenMs
      && v.lastByBoat[boatId] == f && v.lastSeenMs[boatId] == t
      <==> f.boatId == boatId && (exists i :: 0 <= i < |trace| && trace[i] == Sent(f, t) && Stands(trace, i, boatId))
    decreases |trace|
  {
    hide CallAll, Without;
    if trace != [] {
      var before, h := trace[..|trace| - 1], trace[|trace| - 1];
      MapsMean(before, boatId, f, t);
      LatestIsKept(before, boatId);
      assert forall i :: 0 <= i < |before| ==> before[i] == trace[i];
    }
  }

  // ---------- the two ways in ----------

  /** What a datagram does to a hub. */
  function DatagramHappenings(datagram: seq<byte>, now: int, tolerant: bool): seq<Happening> {
    match DecodeFrame(datagram)
    case Ok(f) => [Sent(f, now)]
    case Err(code) => if tolerant then [Refused(code)] else []
  }

  /** The error that leaves a hub without an error handler. */
  function DatagramThrown(datagram: seq<byte>, tolerant: bool): Option<ErrorCode> {
    match DecodeFrame(datagram)
    case Ok(f) => None
    case Err(code) => if tolerant then None else Some(code)
  }

  /**
    One exact frame has the same effect and throws the same error as a datagram and as a chunk for
    an empty parser. The parser keeps the frame exactly when it throws.
   */
  lemma DatagramIsStream(f: seq<byte>, clock: nat -> int, tolerant: bool)
    requires IsExact(f)
    ensures var d := Stream.Push([], f, tolerant);
      && Happenings(d.events, clock, 0) == DatagramHappenings(f, clock(0), tolerant)
      && d.thrown == DatagramThrown(f, tolerant)
      && d.rest == (if d.thrown.Some? then f else [])
      && (d.rest == [] <==> tolerant || DecodeFrame(f).Ok?)
  {
    hide Align, TrySliceOneFrame, DecodeFrame, HasMagic, FrameLen;
    SliceOfExact(f, []);
    assert f + [] == f && [] + f == f;
    SliceExtends(f, []);
    EmptyDrains(tolerant);
    var e := Interpret(f);
    assert [e] + [] == [e];
    assert e.Decoded? ==> Happenings([e], clock, 0) == [Sent(e.frame, clock(0))] + [];
    assert e.Failed? ==> Happenings([e], clock, 0) == [Refused(e.code)] + [];
  }

  /** Why a buffer that does not start with a whole frame is refused. */
  function NoFrameCode(b: seq<byte>): ErrorCode {
    if |b| < 22 then TRUNCATED
    else if b[..4] != [0x42, 0x54, 0x43, 0x31] then MAGIC
    else if b[4] != 1 then VERSION
    else if FromLE(b[16..18]) > 2048 then PAYLOAD_LENGTH
    else TRUNCATED
  }

  /** A datagram that starts with a whole frame does what that frame does on a stream, whatever follows it. */
  lemma DatagramWithFrame(datagram: seq<byte>, clock: nat -> int, tolerant: bool)
    requires TrySliceOneFrame(datagram).Some?
    ensures var d := Stream.Push([], TrySliceOneFrame(datagram).value.frame, tolerant);
      && DatagramHappenings(datagram, clock(0), tolerant) == Happenings(d.events, clock, 0)
      && DatagramThrown(datagram, tolerant) == d.thrown
  {
    hide TrySliceOneFrame, DecodeFrame, IsExact, Stream.Push, Happenings;
    SliceIsExact(datagram);
    DecodeIgnoresTail(datagram);
    DatagramIsStream(TrySliceOneFrame(datagram).value.frame, clock, tolerant);
  }

  /** Any other datagram dispatches nothing, and its one error is reported or thrown. */
  lemma DatagramWithoutFrame(datagram: seq<byte>, now: int, tolerant: bool)
    requires TrySliceOneFrame(datagram).None?
    ensures DatagramHappenings(datagram, now, tolerant) == if tolerant then [Refused(NoFrameCode(datagram))] else []
    ensures DatagramThrown(datagram, tolerant) == if tolerant then None else Some(NoFrameCode(datagram))
  {
    hide FromLE, ChecksumHolds;
  }

  // ---------- the times ----------

  function DispatchesIn(events: seq<Event>): nat {
    if events == [] then 0 else (if events[0].Decoded? then 1 else 0) + DispatchesIn(events[1..])
  }

  /** One step for each event; the time of a dispatch is the one read after all earlier dispatches of the push. */
  lemma {:induction false} HappeningsAt(events: seq<Event>, clock: nat -> int, i: nat, k: nat)
    requires k < |events|
    ensures |Happenings(events, clock, i)| == |events|
    ensures Happenings(events, clock, i)[k] == match events[k]
      case Decoded(f) => Sent(f, clock(i + DispatchesIn(events[..k])))
      case Failed(code) => Refused(code)
    decreases |events|
  {
    var j := if events[0].Decoded? then i + 1 else i;
    if k > 0 {
      HappeningsAt(events[1..], clock, j, k - 1);
      assert events[..k][1..] == events[1..][..k - 1];
    } else if |events| > 1 {
      HappeningsAt(events[1..], clock, j, 0);
    }
  }
}
