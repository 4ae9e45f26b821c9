/**
  Several connections into one hub: a server gives each connection its own parser and
  passes every decoded frame on to the hub.
 */
module Connections {
  import opened Bits
  import opened Wire
  import opened Frame
  import opened FrameProperties
  import opened Stream
  import opened FleetHub

  type ConnectionId = nat

  /** A chunk arriving on a connection. */
  datatype Arrival = Arrival(conn: ConnectionId, chunk: seq<byte>)

  datatype Tagged = Tagged(conn: ConnectionId, event: Event)

  /** The parsers' buffers by connection, and all events so far with the connection they came from. */
  datatype Server = Server(buffers: map<ConnectionId, seq<byte>>, log: seq<Tagged>)

  function BufferOf(s: Server, c: ConnectionId): seq<byte> {
    if c in s.buffers then s.buffers[c] else []
  }

  function Tag(c: ConnectionId, events: seq<Event>): seq<Tagged> {
    if events == [] then [] else [Tagged(c, events[0])] + Tag(c, events[1..])
  }

  function Arrive(s: Server, a: Arrival, tolerant: bool): Server {
    var d := Push(BufferOf(s, a.conn), a.chunk, tolerant);
    Server(s.buffers[a.conn := d.rest], s.log + Tag(a.conn, d.events))
  }

  /** The server after a schedule of arrivals. */
  function Serve(schedule: seq<Arrival>, tolerant: bool): Server {
    if schedule == [] then Server(map[], [])
    else Arrive(Serve(schedule[..|schedule| - 1], tolerant), schedule[|schedule| - 1], tolerant)
  }

  /** The chunks that one connection carried. */
  function ChunksOf(schedule: seq<Arrival>, c: ConnectionId): seq<seq<byte>> {
    if schedule == [] then []
    else
      var a := schedule[|schedule| - 1];
      ChunksOf(schedule[..|schedule| - 1], c) + if a.conn == c then [a.chunk] else []
  }

  /** The events of one connection. */
  function EventsOf(log: seq<Tagged>, c: ConnectionId): seq<Event> {
    if log == [] then []
    else (if log[0].conn == c then [log[0].event] else []) + EventsOf(log[1..], c)
  }

  lemma {:induction false} EventsOfAppend(a: seq<Tagged>, b: seq<Tagged>, c: ConnectionId)
    ensures EventsOf(a + b, c) == EventsOf(a, c) + EventsOf(b, c)
  {
    if a == [] {
      assert a + b == b;
    } else {
      assert (a + b)[1..] == a[1..] + b;
      EventsOfAppend(a[1..], b, c);
      var first := if a[0].conn == c then [a[0].event] else [];
      assert first + (EventsOf(a[1..], c) + EventsOf(b, c)) == (first + EventsOf(a[1..], c)) + EventsOf(b, c);
    }
  }

  lemma {:induction false} EventsOfTag(k: ConnectionId, events: seq<Event>, c: ConnectionId)
    ensures EventsOf(Tag(k, events), c) == if k == c then events else []
  {
    if events != [] {
      EventsOfTag(k, events[1..], c);
      assert events == [events[0]] + events[1..];
    }
  }

  /** Each connection is parsed as if it were alone, in its own order. */
  lemma {:induction false} ConnectionIsAlone(schedule: seq<Arrival>, c: ConnectionId, tolerant: bool)
    ensures var s := Serve(schedule, tolerant); var r := Run([], ChunksOf(schedule, c), tolerant);
      BufferOf(s, c) == r.rest && EventsOf(s.log, c) == r.events
    decreases |schedule|
  {
    hide Push, Run;
    if schedule == [] {
      assert Run([], [], tolerant) == Parsed([], []) by { EmptyRun(tolerant); }
    } else {
      var before := schedule[..|schedule| - 1];
      var a := schedule[|schedule| - 1];
      var s := Serve(before, tolerant);
      ConnectionIsAlone(before, c, tolerant);
      var d := Push(BufferOf(s, a.conn), a.chunk, tolerant);
      EventsOfTag(a.conn, d.events, c);
      EventsOfAppend(s.log, Tag(a.conn, d.events), c);
      if a.conn == c {
        RunLast([], ChunksOf(before, c), a.chunk, tolerant);
      } else {
        assert ChunksOf(schedule, c) == ChunksOf(before, c);
      }
    }
  }

  lemma EmptyRun(tolerant: bool)
    ensures Run([], [], tolerant) == Parsed([], [])
  {}

  /** What the hub goes through when the events of the log are passed on; `clock` gives the times. */
  function LogTrace(log: seq<Tagged>, clock: nat -> int): seq<Happening> {
    if log == [] then []
    else
      LogTrace(log[..|log| - 1], clock)
      + match log[|log| - 1].event
        case Decoded(f) => [Sent(f, clock(|log|))]
        case Failed(code) => [Refused(code)]
  }

  function LatestFrame(events: seq<Event>, boatId: nat): Option<DecodedFrame> {
    if events == [] then None
    else
      var e := events[|events| - 1];
      if e.Decoded? && e.frame.boatId == boatId then Some(e.frame)
      else LatestFrame(events[..|events| - 1], boatId)
  }

  /** Every frame of a boat comes over one connection, the boat's owner. */
  ghost predicate Owned(log: seq<Tagged>, owner: nat -> ConnectionId) {
    forall i :: 0 <= i < |log| && log[i].event.Decoded? ==> owner(log[i].event.frame.boatId) == log[i].conn
  }

  ghost predicate EventsOwned(events: seq<Event>, owner: nat -> ConnectionId, c: ConnectionId) {
    forall i :: 0 <= i < |events| && events[i].Decoded? ==> owner(events[i].frame.boatId) == c
  }

  lemma {:induction false} OwnedThenEvents(log: seq<Tagged>, owner: nat -> ConnectionId, c: ConnectionId)
    requires Owned(log, owner)
    ensures EventsOwned(EventsOf(log, c), owner, c)
  {
    if log != [] {
      OwnedThenEvents(log[1..], owner, c);
      assert log[0].event.Decoded? ==> owner(log[0].event.frame.boatId) == log[0].conn;
    }
  }

  lemma EventsOfLast(log: seq<Tagged>, c: ConnectionId)
    requires log != []
    ensures var t := log[|log| - 1];
      EventsOf(log, c) == EventsOf(log[..|log| - 1], c) + if t.conn == c then [t.event] else []
  {
    var t := log[|log| - 1];
    assert log == log[..|log| - 1] + [t];
    EventsOfAppend(log[..|log| - 1], [t], c);
    assert [t][1..] == [];
    assert EventsOf([t], c) == (if t.conn == c then [t.event] else []) + EventsOf([], c);
  }

  /** The last entry of the log with a frame of the boat. */
  function LatestTagged(log: seq<Tagged>, boatId: nat): Option<Tagged> {
    if log == [] then None
    else
      var t := log[|log| - 1];
      if t.event.Decoded? && t.event.frame.boatId == boatId then Some(t) else LatestTagged(log[..|log| - 1], boatId)
  }

  /** The hub keeps the frame of that entry. */
  lemma {:induction false} HubKeepsLatest(log: seq<Tagged>, clock: nat -> int, boatId: nat)
    ensures var latest := Latest(LogTrace(log, clock), boatId); var t := LatestTagged(log, boatId);
      && (latest.Some? <==> t.Some?)
      && (t.Some? ==> t.value.event == Decoded(latest.value.frame))
    decreases |log|
  {
    hide Latest;
    if log == [] {
      NothingLatest(boatId);
    } else {
      var before := log[..|log| - 1];
      HubKeepsLatest(before, clock, boatId);
      var trace := LogTrace(before, clock);
      match log[|log| - 1].event {
        case Decoded(f) =>
          assert LogTrace(log, clock) == trace + [Sent(f, clock(|log|))];
          LatestLast(trace, Sent(f, clock(|log|)), boatId);
        case Failed(code) =>
          assert LogTrace(log, clock) == trace + [Refused(code)];
          LatestLast(trace, Refused(code), boatId);
      }
    }
  }

  /** That entry is the last one of its own connection; without it no connection has carried the boat. */
  lemma {:induction false} LatestComesFrom(log: seq<Tagged>, boatId: nat, c: ConnectionId)
    ensures var t := LatestTagged(log, boatId); var own := LatestFrame(EventsOf(log, c), boatId);
      && (t.Some? ==> t.value.event.Decoded?)
      && (t == None ==> own == None)
      && (t.Some? && t.value.conn == c ==> own == Some(t.value.event.frame))
    decreases |log|
  {
    hide LatestFrame, EventsOf;
    if log == [] {
      NothingLatest(boatId);
    } else {
      var before := log[..|log| - 1];
      LatestComesFrom(before, boatId, c);
      EventsOfLast(log, c);
      var events := EventsOf(before, c);
      assert events + [] == events;
      LatestFrameLast(events, log[|log| - 1].event, boatId);
    }
  }

  lemma LatestLast(trace: seq<Happening>, h: Happening, boatId: nat)
    requires h.Sent? || h.Refused?
    ensures Latest(trace + [h], boatId)
         == if h.Sent? && h.frame.boatId == boatId then Some(Sighting(h.frame, h.time)) else Latest(trace, boatId)
  {
    assert (trace + [h])[..|trace|] == trace;
  }

  lemma NothingLatest(boatId: nat)
    ensures Latest([], boatId) == None && forall c :: LatestFrame(EventsOf([], c), boatId) == None
  {}

  lemma LatestFrameLast(events: seq<Event>, e: Event, boatId: nat)
    ensures LatestFrame(events + [e], boatId)
         == if e.Decoded? && e.frame.boatId == boatId then Some(e.frame) else LatestFrame(events, boatId)
  {
    assert (events + [e])[..|events|] == events;
  }

  /** Two schedules carry the same chunks in the same order on every connection. */
  ghost predicate SameConnections(s1: seq<Arrival>, s2: seq<Arrival>) {
    forall c :: ChunksOf(s1, c) == ChunksOf(s2, c)
  }

  /** In every interleaving, each connection's events reach the hub in that connection's order. */
  lemma OrderWithinConnection(s1: seq<Arrival>, s2: seq<Arrival>, c: ConnectionId, tolerant: bool)
    requires SameConnections(s1, s2)
    ensures EventsOf(Serve(s1, tolerant).log, c) == EventsOf(Serve(s2, tolerant).log, c)
         == Run([], ChunksOf(s1, c), tolerant).events
  {
    hide Run, Serve, EventsOf;
    ConnectionIsAlone(s1, c, tolerant);
    ConnectionIsAlone(s2, c, tolerant);
  }

  /** The hub's map of latest frames after a schedule. */
  function HubMap(schedule: seq<Arrival>, tolerant: bool, clock: nat -> int): map<nat, DecodedFrame> {
    After(LogTrace(Serve(schedule, tolerant).log, clock)).lastByBoat
  }

  /** The last frame of a boat on one connection, which is parsed as if it were alone. */
  function LastOf(schedule: seq<Arrival>, c: ConnectionId, boatId: nat, tolerant: bool): Option<DecodedFrame> {
    LatestFrame(Run([], ChunksOf(schedule, c), tolerant).events, boatId)
  }

  /** Connections that carry the same boat end on the same frame of it. */
  ghost predicate LastFramesAgree(s: seq<Arrival>, tolerant: bool) {
    forall b: nat, c1, c2 ::
      LastOf(s, c1, b, tolerant).Some? && LastOf(s, c2, b, tolerant).Some?
      ==> LastOf(s, c1, b, tolerant) == LastOf(s, c2, b, tolerant)
  }

  /** The hub's frame of a boat is the last one of some connection, and it has one if any connection does. */
  lemma MapEntry(s: seq<Arrival>, tolerant: bool, clock: nat -> int, b: nat) returns (c: ConnectionId)
    ensures b in HubMap(s, tolerant, clock) ==> LastOf(s, c, b, tolerant) == Some(HubMap(s, tolerant, clock)[b])
    ensures b !in HubMap(s, tolerant, clock) ==> forall d :: LastOf(s, d, b, tolerant) == None
  {
    hide After, Latest, LatestFrame, LatestTagged, EventsOf, Serve, Run, LogTrace;
    var log := Serve(s, tolerant).log;
    LatestIsKept(LogTrace(log, clock), b);
    HubKeepsLatest(log, clock, b);
    var t := LatestTagged(log, b);
    c := if t.Some? then t.value.conn else 0;
    forall d
      ensures t == None ==> LastOf(s, d, b, tolerant) == None
      ensures t.Some? && d == c ==> t.value.event.Decoded? && LastOf(s, d, b, tolerant) == Some(t.value.event.frame)
    {
      LatestComesFrom(log, b, d);
      ConnectionIsAlone(s, d, tolerant);
    }
  }

  lemma AgreementIsEnough(
    s1: seq<Arrival>, s2: seq<Arrival>, tolerant: bool, clock1: nat -> int, clock2: nat -> int)
    requires SameConnections(s1, s2) && LastFramesAgree(s1, tolerant)
    ensures HubMap(s1, tolerant, clock1) == HubMap(s2, tolerant, clock2)
  {
    hide HubMap, LatestFrame, Run;
    forall b: nat
      ensures b in HubMap(s1, tolerant, clock1) <==> b in HubMap(s2, tolerant, clock2)
      ensures b in HubMap(s1, tolerant, clock1) ==> HubMap(s1, tolerant, clock1)[b] == HubMap(s2, tolerant, clock2)[b]
    {
      var c1 := MapEntry(s1, tolerant, clock1, b);
      var c2 := MapEntry(s2, tolerant, clock2, b);
      assert LastOf(s2, c1, b, tolerant) == LastOf(s1, c1, b, tolerant);
      assert LastOf(s2, c2, b, tolerant) == LastOf(s1, c2, b, tolerant);
    }
  }

  /** The arrivals with those of one connection put off to the end. */
  function MovedLast(s: seq<Arrival>, c: ConnectionId): seq<Arrival> {
    Part(s, c, false) + Part(s, c, true)
  }

  /** The arrivals of one connection, or of all the others. */
  function Part(s: seq<Arrival>, c: ConnectionId, own: bool): seq<Arrival> {
    if s == [] then []
    else
      var a := s[|s| - 1];
      Part(s[..|s| - 1], c, own) + if (a.conn == c) == own then [a] else []
  }

  lemma {:induction false} PartConnections(s: seq<Arrival>, c: ConnectionId, own: bool)
    ensures forall i :: 0 <= i < |Part(s, c, own)| ==> (Part(s, c, own)[i].conn == c) == own
    decreases |s|
  {
    if s != [] {
      PartConnections(s[..|s| - 1], c, own);
    }
  }

  lemma {:induction false} PartChunks(s: seq<Arrival>, c: ConnectionId, own: bool, d: ConnectionId)
    ensures ChunksOf(Part(s, c, own), d) == if (d == c) == own then ChunksOf(s, d) else []
    decreases |s|
  {
    hide ChunksOf, Part;
    if s == [] {
      NoParts(c, own, d);
    } else {
      var before, a := s[..|s| - 1], s[|s| - 1];
      PartChunks(before, c, own, d);
      PartLast(s, c, own);
      ChunksOfLast(Part(before, c, own), a, d);
      ChunksOfLast(before, a, d);
      assert before + [a] == s;
    }
  }

  lemma NoParts(c: ConnectionId, own: bool, d: ConnectionId)
    ensures ChunksOf([], d) == [] && Part([], c, own) == []
  {}

  lemma PartLast(s: seq<Arrival>, c: ConnectionId, own: bool)
    requires s != []
    ensures var a := s[|s| - 1]; var p := Part(s[..|s| - 1], c, own);
      Part(s, c, own) == if (a.conn == c) == own then p + [a] else p
  {
    var p := Part(s[..|s| - 1], c, own);
    assert p + [] == p;
  }

  lemma ChunksOfLast(p: seq<Arrival>, a: Arrival, d: ConnectionId)
    ensures ChunksOf(p + [a], d) == if a.conn == d then ChunksOf(p, d) + [a.chunk] else ChunksOf(p, d)
  {
    assert (p + [a])[..|p|] == p;
    assert ChunksOf(p, d) + [] == ChunksOf(p, d);
  }

  lemma {:induction false} ChunksOfAppend(p: seq<Arrival>, q: seq<Arrival>, d: ConnectionId)
    ensures ChunksOf(p + q, d) == ChunksOf(p, d) + ChunksOf(q, d)
    decreases |q|
  {
    hide ChunksOf;
    var start := ChunksOf(p, d);
    if q == [] {
      assert p + q == p;
      NoChunks(d);
      assert start + [] == start;
    } else {
      var r, a := q[..|q| - 1], q[|q| - 1];
      assert p + q == (p + r) + [a];
      assert q == r + [a];
      ChunksOfAppend(p, r, d);
      ChunksOfLast(p + r, a, d);
      ChunksOfLast(r, a, d);
      assert (start + ChunksOf(r, d)) + [a.chunk] == start + (ChunksOf(r, d) + [a.chunk]);
    }
  }

  lemma NoChunks(d: ConnectionId)
    ensures ChunksOf([], d) == []
  {}

  lemma MovedLastKeeps(s: seq<Arrival>, c: ConnectionId)
    ensures SameConnections(s, MovedLast(s, c))
    ensures ComesLast(MovedLast(s, c), c)
  {
    hide ChunksOf, Part;
    PartConnections(s, c, false);
    PartConnections(s, c, true);
    forall d
      ensures ChunksOf(s, d) == ChunksOf(MovedLast(s, c), d)
    {
      PartChunks(s, c, false, d);
      PartChunks(s, c, true, d);
      ChunksOfAppend(Part(s, c, false), Part(s, c, true), d);
      assert ChunksOf(s, d) + [] == ChunksOf(s, d) == [] + ChunksOf(s, d);
    }
  }

  /** From the first arrival of a connection on, there are only its own. */
  ghost predicate ComesLast(s: seq<Arrival>, c: ConnectionId) {
    forall i, j :: 0 <= i < j < |s| && s[i].conn == c ==> s[j].conn == c
  }

  ghost predicate LogsLast(log: seq<Tagged>, c: ConnectionId) {
    forall i, j :: 0 <= i < j < |log| && log[i].conn == c ==> log[j].conn == c
  }

  lemma {:induction false} TagOf(k: ConnectionId, events: seq<Event>)
    ensures forall i :: 0 <= i < |Tag(k, events)| ==> Tag(k, events)[i].conn == k
  {
    if events != [] {
      TagOf(k, events[1..]);
    }
  }

  ghost predicate Absent(log: seq<Tagged>, c: ConnectionId) {
    forall i :: 0 <= i < |log| ==> log[i].conn != c
  }

  lemma {:induction false} AbsentFromLog(s: seq<Arrival>, c: ConnectionId, tolerant: bool)
    requires forall i :: 0 <= i < |s| ==> s[i].conn != c
    ensures Absent(Serve(s, tolerant).log, c)
    decreases |s|
  {
    hide Push;
    if s != [] {
      var a := s[|s| - 1];
      var before := Serve(s[..|s| - 1], tolerant);
      AbsentFromLog(s[..|s| - 1], c, tolerant);
      TagOf(a.conn, Push(BufferOf(before, a.conn), a.chunk, tolerant).events);
      assert a.conn != c;
    }
  }

  lemma {:induction false} LastInLog(s: seq<Arrival>, c: ConnectionId, tolerant: bool)
    requires ComesLast(s, c)
    ensures LogsLast(Serve(s, tolerant).log, c)
    decreases |s|
  {
    hide Push;
    if s != [] {
      var a := s[|s| - 1];
      if a.conn == c {
        var before := Serve(s[..|s| - 1], tolerant);
        LastInLog(s[..|s| - 1], c, tolerant);
        TagOf(a.conn, Push(BufferOf(before, a.conn), a.chunk, tolerant).events);
      } else {
        AbsentFromLog(s, c, tolerant);
      }
    }
  }

  lemma {:induction false} NoEvents(log: seq<Tagged>, c: ConnectionId)
    requires Absent(log, c)
    ensures EventsOf(log, c) == []
  {
    if log != [] {
      NoEvents(log[1..], c);
    }
  }

  /** The connection that comes last decides, for every boat that it carries. */
  lemma {:induction false} LastDecides(log: seq<Tagged>, c: ConnectionId, boatId: nat)
    requires LogsLast(log, c)
    ensures LatestFrame(EventsOf(log, c), boatId).Some? ==>
      LatestTagged(log, boatId) == Some(Tagged(c, Decoded(LatestFrame(EventsOf(log, c), boatId).value)))
    decreases |log|
  {
    hide LatestFrame, EventsOf;
    if log == [] || log[|log| - 1].conn != c {
      NoEvents(log, c);
      NothingLatest(boatId);
      assert EventsOf([], c) == [] by {
        NoEvents([], c);
      }
    } else {
      var before := log[..|log| - 1];
      LastDecides(before, c, boatId);
      EventsOfLast(log, c);
      LatestFrameLast(EventsOf(before, c), log[|log| - 1].event, boatId);
    }
  }

  lemma MapOfMovedLast(s: seq<Arrival>, c: ConnectionId, b: nat, tolerant: bool, clock: nat -> int)
    requires LastOf(s, c, b, tolerant).Some?
    ensures var m := HubMap(MovedLast(s, c), tolerant, clock); b in m && Some(m[b]) == LastOf(s, c, b, tolerant)
  {
    hide After, Latest, LatestFrame, LatestTagged, EventsOf, Serve, Run, LogTrace, ChunksOf, LogsLast, ComesLast,
      MovedLast;
    var moved := MovedLast(s, c);
    var log := Serve(moved, tolerant).log;
    MovedLastKeeps(s, c);
    LastInLog(moved, c, tolerant);
    ConnectionIsAlone(moved, c, tolerant);
    LastDecides(log, c, b);
    HubKeepsLatest(log, clock, b);
    LatestIsKept(LogTrace(log, clock), b);
  }

  /**
    When the interleaving matters: every schedule with the same connections, under every clock,
    leaves the hub the same map of latest frames if and only if any two connections that carry the
    same boat end on the same frame of it.
   */
  lemma InterleavingExactly(s: seq<Arrival>, tolerant: bool, clock: nat -> int)
    ensures LastFramesAgree(s, tolerant)
       <==> forall s2, clock2 :: SameConnections(s, s2) ==> HubMap(s2, tolerant, clock2) == HubMap(s, tolerant, clock)
  {
    hide HubMap, LastOf, SameConnections, MovedLast;
    if LastFramesAgree(s, tolerant) {
      forall s2, clock2 | SameConnections(s, s2)
        ensures HubMap(s2, tolerant, clock2) == HubMap(s, tolerant, clock)
      {
        AgreementIsEnough(s, s2, tolerant, clock, clock2);
      }
    } else {
      var b: nat, c1, c2 :|
        && LastOf(s, c1, b, tolerant).Some? && LastOf(s, c2, b, tolerant).Some?
        && LastOf(s, c1, b, tolerant) != LastOf(s, c2, b, tolerant);
      MovedLastKeeps(s, c1);
      MovedLastKeeps(s, c2);
      MapOfMovedLast(s, c1, b, tolerant, clock);
      MapOfMovedLast(s, c2, b, tolerant, clock);
      assert HubMap(MovedLast(s, c1), tolerant, clock) != HubMap(MovedLast(s, c2), tolerant, clock);
    }
  }

  /** In particular it does not matter when every boat speaks over one connection only. */
  lemma InterleavingDoesNotMatter(
    s1: seq<Arrival>, s2: seq<Arrival>, owner: nat -> ConnectionId, clock1: nat -> int, clock2: nat -> int,
    tolerant: bool)
    requires SameConnections(s1, s2)
    requires Owned(Serve(s1, tolerant).log, owner)
    ensures HubMap(s1, tolerant, clock1) == HubMap(s2, tolerant, clock2)
  {
    hide HubMap, LatestFrame, EventsOf, EventsOwned, Serve, Run, Owned;
    forall b: nat, c | LastOf(s1, c, b, tolerant).Some?
      ensures c == owner(b)
    {
      ConnectionIsAlone(s1, c, tolerant);
      OwnedThenEvents(Serve(s1, tolerant).log, owner, c);
      CarrierIsOwner(EventsOf(Serve(s1, tolerant).log, c), owner, c, b);
    }
    AgreementIsEnough(s1, s2, tolerant, clock1, clock2);
  }

  lemma {:induction false} CarrierIsOwner(events: seq<Event>, owner: nat -> ConnectionId, c: ConnectionId, b: nat)
    requires EventsOwned(events, owner, c) && LatestFrame(events, b).Some?
    ensures c == owner(b)
    decreases |events|
  {
    var e := events[|events| - 1];
    if !(e.Decoded? && e.frame.boatId == b) {
      CarrierIsOwner(events[..|events| - 1], owner, c, b);
    }
  }

  lemma ServeOne(before: seq<Arrival>, a: Arrival, tolerant: bool)
    ensures Serve(before + [a], tolerant) == Arrive(Serve(before, tolerant), a, tolerant)
  {
    hide Arrive;
    assert (before + [a])[..|before|] == before;
  }

  /** Two connections that carry different frames of the same boat: the interleaving does matter. */
  lemma SharedBoatDependsOnOrder(x: seq<byte>, y: seq<byte>, f: DecodedFrame, g: DecodedFrame, clock: nat -> int)
    requires IsExact(x) && IsExact(y) && DecodeFrame(x) == Ok(f) && DecodeFrame(y) == Ok(g)
    requires f.boatId == g.boatId && f != g
    ensures var s1 := [Arrival(0, x), Arrival(1, y)]; var s2 := [Arrival(1, y), Arrival(0, x)];
      && SameConnections(s1, s2)
      && HubMap(s1, true, clock) != HubMap(s2, true, clock)
  {
    hide Push, DecodeFrame;
    var a, b := Arrival(0, x), Arrival(1, y);
    forall c
      ensures ChunksOf([a, b], c) == ChunksOf([b, a], c)
    {
      assert [a, b][..1] == [a] && [b, a][..1] == [b] && [a][..0] == [] && [b][..0] == [];
    }
    TwoArrivals(x, y, f, g, 0, 1, clock);
    TwoArrivals(y, x, g, f, 1, 0, clock);
  }

  lemma TwoArrivals(
    x: seq<byte>, y: seq<byte>, f: DecodedFrame, g: DecodedFrame, c: ConnectionId, d: ConnectionId, clock: nat -> int)
    requires IsExact(x) && IsExact(y) && DecodeFrame(x) == Ok(f) && DecodeFrame(y) == Ok(g)
    requires f.boatId == g.boatId && c != d
    ensures var m := HubMap([Arrival(c, x), Arrival(d, y)], true, clock);
      f.boatId in m && m[f.boatId] == g
  {
    hide Push, DecodeFrame, After, IsExact;
    var a, b := Arrival(c, x), Arrival(d, y);
    ServeOne([], a, true);
    ServeOne([a], b, true);
    assert [] + [a] == [a] && [a] + [b] == [a, b];
    ExactAlone(x, f);
    ExactAlone(y, g);
    var log := Serve([a, b], true).log;
    OneTag(c, Decoded(f));
    OneTag(d, Decoded(g));
    assert log == [Tagged(c, Decoded(f)), Tagged(d, Decoded(g))];
    var before := log[..1];
    assert LogTrace(log, clock) == LogTrace(before, clock) + [Sent(g, clock(2))];
    AfterLast(LogTrace(before, clock), Sent(g, clock(2)));
  }

  lemma OneTag(c: ConnectionId, e: Event)
    ensures Tag(c, [e]) == [Tagged(c, e)]
  {
    assert [e][1..] == [];
  }

  lemma ExactAlone(x: seq<byte>, f: DecodedFrame)
    requires IsExact(x) && DecodeFrame(x) == Ok(f)
    ensures Push([], x, true) == Drained([Decoded(f)], [], None)
  {
    hide Align, TrySliceOneFrame, DecodeFrame, HasMagic, FrameLen;
    SliceOfExact(x, []);
    assert x + [] == x && [] + x == x;
    SliceExtends(x, []);
    EmptyDrains(true);
    assert [Interpret(x)] + [] == [Decoded(f)];
  }
}
