/** From the boat nodes over the gateway and its serial line to the host's hub. */
module EndToEnd {
  import opened Bits
  import opened Wire
  import opened Payload
  import opened Frame
  import opened FrameProperties
  import opened Stream
  import opened Delivery
  import opened Resilience
  import opened FleetHub
  import opened Connections
  import opened SerialTransport
  import opened Listeners
  import opened Firmware

  /** A telemetry record as a node sent it. */
  datatype Report = Report(boatId: nat, seqNo: nat, telemetry: TelemetrySummary)

  predicate FitsWire(r: Report) {
    r.boatId < 0x1_0000_0000 && r.seqNo < 0x1_0000_0000 && FitsStruct(r.telemetry)
  }

  /** The frame of a report, as `Node.BuildTelemetryFrame` builds it. */
  function FrameOf(r: Report): seq<byte> {
    HostFrame(r.boatId, r.seqNo, r.telemetry)
  }

  function FramesOf(reports: seq<Report>): (s: seq<seq<byte>>)
    ensures |s| == |reports|
  {
    if reports == [] then [] else [FrameOf(reports[0])] + FramesOf(reports[1..])
  }

  /** What the gateway writes when it receives the messages one after the other. */
  function Relayed(messages: seq<seq<byte>>): seq<byte> {
    if messages == [] then [] else Forwarded(BTC1_PUBLISH, messages[0]) + Relayed(messages[1..])
  }

  /** The frame that a host program sees for a report. */
  function Seen(r: Report): DecodedFrame {
    DecodedFrame(1, 1, 0, r.boatId, r.seqNo, TelemetryBytes(r.telemetry), Some(r.telemetry))
  }

  function SeenAll(reports: seq<Report>): (s: seq<Event>)
    ensures |s| == |reports|
  {
    if reports == [] then [] else [Decoded(Seen(reports[0]))] + SeenAll(reports[1..])
  }

  lemma FitsUnchanged(t: TelemetrySummary)
    requires FitsStruct(t)
    ensures OnTheWire(t) == t
  {
    SignedFits(t.latE7);
    SignedFits(t.lonE7);
  }

  /** A report that fits the wire is seen by the host with every value unchanged. */
  lemma ReportArrives(r: Report)
    requires FitsWire(r)
    ensures IsExact(FrameOf(r)) && DecodeFrame(FrameOf(r)) == Ok(Seen(r))
  {
    hide TelemetryBytes, DecodeFrame, Encoded, HostFrame, IsExact, OnTheWire, FitsStruct, ChecksumHolds, DeclaredLen;
    HostFrameIsEncoded(r.boatId, r.seqNo, r.telemetry);
    TelemetryArrives(None, r.boatId, r.seqNo, r.telemetry);
    EncodedParts(TelemetryInput(None, None, r.boatId, r.seqNo, r.telemetry));
    FitsUnchanged(r.telemetry);
  }

  lemma {:induction false} FramesAt(reports: seq<Report>, i: nat)
    requires i < |reports|
    ensures FramesOf(reports)[i] == FrameOf(reports[i]) && SeenAll(reports)[i] == Decoded(Seen(reports[i]))
  {
    hide FrameOf, Seen;
    if i > 0 {
      FramesAt(reports[1..], i - 1);
    }
  }

  lemma {:induction false} FramesArrive(reports: seq<Report>)
    requires forall i :: 0 <= i < |reports| ==> FitsWire(reports[i])
    ensures AllExact(FramesOf(reports))
    ensures forall tolerant :: Readable(FramesOf(reports), tolerant) == |reports|
    ensures InterpretAll(FramesOf(reports)) == SeenAll(reports)
  {
    hide FitsWire, IsExact, DecodeFrame, FrameOf, Seen;
    if reports != [] {
      FramesArrive(reports[1..]);
      forall i | 0 <= i < |reports|
        ensures IsExact(FramesOf(reports)[i])
      {
        FramesAt(reports, i);
        ReportArrives(reports[i]);
      }
      ReportArrives(reports[0]);
    }
  }

  /** The gateway passes frames on verbatim. */
  lemma {:induction false} RelayIsVerbatim(messages: seq<seq<byte>>)
    requires AllExact(messages)
    ensures Relayed(messages) == Concat(messages)
  {
    hide IsExact, Forwarded;
    if messages != [] {
      FilterPassesFrames(messages[0]);
      RelayIsVerbatim(messages[1..]);
    }
  }

  /**
    End to end: whatever reports reach the gateway, from however many boats, and however the serial
    line cuts the bytes, the host has decoded exactly the reports received in full, in order, with
    every value unchanged. It holds with and without an error handler.
   */
  lemma ReportsReachTheHost(reports: seq<Report>, chunks: seq<seq<byte>>, tolerant: bool)
    requires forall i :: 0 <= i < |reports| ==> FitsWire(reports[i])
    requires Concat(chunks) <= Relayed(FramesOf(reports))
    ensures |Concat(chunks)| / TELEMETRY_FRAME_SIZE <= |reports|
    ensures Run([], chunks, tolerant).events == SeenAll(reports)[..|Concat(chunks)| / TELEMETRY_FRAME_SIZE]
  {
    hide FitsWire, IsExact, Run, Interpret, FrameOf, AllExact, Readable, SeenAll, InterpretAll, MagicFree, Relayed,
      FramesOf, Whole, Parse, Concat;
    var frames := FramesOf(reports);
    FramesArrive(reports);
    RelayIsVerbatim(frames);
    NoJunk();
    assert [] + Concat(frames) == Concat(frames);
    ExactDelivery(chunks, [], frames, tolerant);
    FrameSizes(reports);
    EqualSizes(frames, |Concat(chunks)|);
    InterpretSome(frames, |Concat(chunks)| / TELEMETRY_FRAME_SIZE);
  }

  ghost predicate AllTelemetrySized(frames: seq<seq<byte>>) {
    forall i :: 0 <= i < |frames| ==> |frames[i]| == TELEMETRY_FRAME_SIZE
  }

  lemma FrameSizes(reports: seq<Report>)
    ensures AllTelemetrySized(FramesOf(reports))
  {
    hide FramesOf, HostFrame;
    forall i | 0 <= i < |reports|
      ensures |FramesOf(reports)[i]| == TELEMETRY_FRAME_SIZE
    {
      FramesAt(reports, i);
      HostFrameIsEncoded(reports[i].boatId, reports[i].seqNo, reports[i].telemetry);
    }
  }

  lemma NoJunk()
    ensures MagicFree([])
  {}

  lemma {:induction false} InterpretSome(frames: seq<seq<byte>>, k: nat)
    requires k <= |frames|
    ensures InterpretAll(frames[..k]) == InterpretAll(frames)[..k]
  {
    hide Interpret;
    if k > 0 {
      InterpretSome(frames[1..], k - 1);
      assert frames[..k][1..] == frames[1..][..k - 1];
    }
  }

  lemma {:induction false} EqualSizes(frames: seq<seq<byte>>, n: nat)
    requires AllTelemetrySized(frames) && n <= |Concat(frames)|
    ensures Whole(n, frames) == n / TELEMETRY_FRAME_SIZE
    decreases |frames|
  {
    if frames != [] {
      assert |frames[0]| == TELEMETRY_FRAME_SIZE;
      if n >= TELEMETRY_FRAME_SIZE {
        EqualSizes(frames[1..], n - TELEMETRY_FRAME_SIZE);
      }
    }
  }

  /** The reports that one node sends for the records `ts`, its counter starting at `seqNo`. */
  function NodeReports(boatId: nat, seqNo: nat, ts: seq<TelemetrySummary>): (s: seq<Report>)
    ensures |s| == |ts|
    decreases |ts|
  {
    if ts == [] then []
    else
      var next := (seqNo + 1) % 0x1_0000_0000;
      [Report(boatId, next, ts[0])] + NodeReports(boatId, next, ts[1..])
  }

  lemma {:induction false} NodeReportAt(boatId: nat, seqNo: nat, ts: seq<TelemetrySummary>, i: nat)
    requires i < |ts|
    ensures NodeReports(boatId, seqNo, ts)[i] == Report(boatId, (seqNo + 1 + i) % 0x1_0000_0000, ts[i])
    decreases |ts|
  {
    if i > 0 {
      NodeReportAt(boatId, (seqNo + 1) % 0x1_0000_0000, ts[1..], i - 1);
      WrapTwice(seqNo + 1, i);
    }
  }

  lemma WrapTwice(a: nat, i: nat)
    ensures (a % 0x1_0000_0000 + i) % 0x1_0000_0000 == (a + i) % 0x1_0000_0000
  {}

  lemma {:induction false} NodeReportsLast(boatId: nat, seqNo: nat, ts: seq<TelemetrySummary>, t: TelemetrySummary)
    ensures NodeReports(boatId, seqNo, ts + [t])
         == NodeReports(boatId, seqNo, ts) + [Report(boatId, (seqNo + |ts| + 1) % 0x1_0000_0000, t)]
    decreases |ts|
  {
    hide NodeReports;
    NodeReportsFirst(boatId, seqNo, ts + [t]);
    if ts == [] {
      assert (ts + [t])[1..] == [];
      NoReports(boatId, (seqNo + 1) % 0x1_0000_0000);
      NoReports(boatId, seqNo);
    } else {
      var next := (seqNo + 1) % 0x1_0000_0000;
      assert (ts + [t])[1..] == ts[1..] + [t];
      NodeReportsLast(boatId, next, ts[1..], t);
      NodeReportsFirst(boatId, seqNo, ts);
      WrapTwice(seqNo + 1, |ts|);
      assert (next + |ts[1..]| + 1) % 0x1_0000_0000 == (seqNo + |ts| + 1) % 0x1_0000_0000;
    }
  }

  lemma NodeReportsFirst(boatId: nat, seqNo: nat, ts: seq<TelemetrySummary>)
    requires ts != []
    ensures var next := (seqNo + 1) % 0x1_0000_0000;
      NodeReports(boatId, seqNo, ts) == [Report(boatId, next, ts[0])] + NodeReports(boatId, next, ts[1..])
  {}

  lemma NoReports(boatId: nat, seqNo: nat)
    ensures NodeReports(boatId, seqNo, []) == []
  {}

  // ---------- the nodes and the gateway at work ----------

  lemma {:induction false} RelayedLast(reports: seq<Report>, r: Report)
    ensures Relayed(FramesOf(reports + [r])) == Relayed(FramesOf(reports)) + Forwarded(BTC1_PUBLISH, FrameOf(r))
  {
    hide Forwarded, FrameOf;
    if reports == [] {
      assert [] + [r] == [r] && [r][1..] == [];
      assert FramesOf([r]) == [FrameOf(r)] + [];
      assert [FrameOf(r)][1..] == [];
      var f := Forwarded(BTC1_PUBLISH, FrameOf(r));
      assert Relayed([FrameOf(r)]) == f + [] == f == [] + f;
    } else {
      assert (reports + [r])[1..] == reports[1..] + [r];
      RelayedLast(reports[1..], r);
    }
  }

  /** The reports of one boat. */
  function OfBoat(reports: seq<Report>, boatId: nat): seq<Report> {
    if reports == [] then []
    else
      var r := reports[|reports| - 1];
      if r.boatId == boatId then OfBoat(reports[..|reports| - 1], boatId) + [r]
      else OfBoat(reports[..|reports| - 1], boatId)
  }

  lemma OfBoatLast(reports: seq<Report>, r: Report, boatId: nat)
    ensures OfBoat(reports + [r], boatId)
         == if r.boatId == boatId then OfBoat(reports, boatId) + [r] else OfBoat(reports, boatId)
  {
    assert (reports + [r])[..|reports|] == reports;
  }

  /** A node's timer fires, with a record of its sensors. */
  datatype Publish = Publish(node: nat, record: BcTelemetrySummaryV1)

  /** The records that one node publishes. */
  function RecordsOf(schedule: seq<Publish>, k: nat): seq<TelemetrySummary> {
    if schedule == [] then []
    else
      var p := schedule[|schedule| - 1];
      var before := RecordsOf(schedule[..|schedule| - 1], k);
      if p.node == k then before + [HostRecord(p.record)] else before
  }

  /** One node publishes, and the gateway receives the message. */
  method PublishOne(node: Node, gateway: Gateway, record: BcTelemetrySummaryV1) returns (ghost report: Report)
    requires node.provisioned
    modifies node`seqNo, gateway
    ensures node.seqNo as int == (old(node.seqNo) as int + 1) % 0x1_0000_0000
    ensures report == Report(node.boatId as nat, node.seqNo as nat, HostRecord(record)) && FitsWire(report)
    ensures gateway.uart == old(gateway.uart) + Forwarded(BTC1_PUBLISH, FrameOf(report))
  {
    hide HostFrame, Forwarded, HostRecord;
    RecordFits(record);
    var message := node.PublishTelemetry(record);
    report := Report(node.boatId as nat, node.seqNo as nat, HostRecord(record));
    gateway.VendorRecv(BTC1_PUBLISH, message.value);
  }

  lemma RecordFits(record: BcTelemetrySummaryV1)
    ensures FitsStruct(HostRecord(record))
  {}

  ghost function Counters(nodes: seq<Node>): (s: seq<nat>)
    reads nodes
    ensures |s| == |nodes|
    ensures forall k :: 0 <= k < |nodes| ==> s[k] == nodes[k].seqNo as nat
  {
    seq(|nodes|, k requires 0 <= k < |nodes| reads nodes => nodes[k].seqNo as nat)
  }

  function BoatIds(nodes: seq<Node>): (s: seq<nat>)
    ensures |s| == |nodes|
    ensures forall k :: 0 <= k < |nodes| ==> s[k] == nodes[k].boatId as nat
  {
    seq(|nodes|, k requires 0 <= k < |nodes| => nodes[k].boatId as nat)
  }

  /** Each boat's reports are those of its own node: its records, under its own counter. */
  ghost predicate Accounted(boats: seq<nat>, start: seq<nat>, schedule: seq<Publish>, reports: seq<Report>)
    requires |start| == |boats|
  {
    forall k :: 0 <= k < |boats| ==>
      OfBoat(reports, boats[k]) == NodeReports(boats[k], start[k], RecordsOf(schedule, k))
  }

  /** The counters after the schedule. */
  ghost predicate Counted(start: seq<nat>, now: seq<nat>, schedule: seq<Publish>)
    requires |now| == |start|
  {
    forall k :: 0 <= k < |start| ==> now[k] == (start[k] + |RecordsOf(schedule, k)|) % 0x1_0000_0000
  }

  ghost predicate Different(boats: seq<nat>) {
    forall i, j :: 0 <= i < j < |boats| ==> boats[i] != boats[j]
  }

  lemma RecordsLast(schedule: seq<Publish>, p: Publish, k: nat)
    ensures RecordsOf(schedule + [p], k)
         == if p.node == k then RecordsOf(schedule, k) + [HostRecord(p.record)] else RecordsOf(schedule, k)
  {
    assert (schedule + [p])[..|schedule|] == schedule;
  }

  lemma AccountStep(
    boats: seq<nat>, start: seq<nat>, now: seq<nat>, schedule: seq<Publish>, reports: seq<Report>, p: Publish,
    r: Report)
    requires |boats| == |start| == |now| && p.node < |boats| && Different(boats)
    requires Accounted(boats, start, schedule, reports) && Counted(start, now, schedule)
    requires r == Report(boats[p.node], (now[p.node] + 1) % 0x1_0000_0000, HostRecord(p.record))
    ensures Accounted(boats, start, schedule + [p], reports + [r])
    ensures Counted(start, now[p.node := r.seqNo], schedule + [p])
  {
    hide RecordsOf, OfBoat, NodeReports, HostRecord;
    forall k | 0 <= k < |boats|
      ensures OfBoat(reports + [r], boats[k]) == NodeReports(boats[k], start[k], RecordsOf(schedule + [p], k))
      ensures now[p.node := r.seqNo][k] == (start[k] + |RecordsOf(schedule + [p], k)|) % 0x1_0000_0000
    {
      RecordsLast(schedule, p, k);
      OfBoatLast(reports, r, boats[k]);
      if k == p.node {
        NodeReportsLast(boats[k], start[k], RecordsOf(schedule, k), HostRecord(p.record));
        WrapTwice(start[k] + |RecordsOf(schedule, k)|, 1);
      }
    }
  }

  /**
    Nodes with different boat ids publish in any order and the gateway receives every message: the
    serial line carries the frames of reports which, boat by boat, are the node's own records under
    its own counter.
   */
  method PublishSchedule(nodes: seq<Node>, gateway: Gateway, schedule: seq<Publish>)
    returns (ghost reports: seq<Report>)
    requires forall k :: 0 <= k < |nodes| ==> nodes[k].provisioned
    requires Different(BoatIds(nodes))
    requires forall i :: 0 <= i < |schedule| ==> schedule[i].node < |nodes|
    modifies nodes, gateway
    ensures gateway.uart == old(gateway.uart) + Relayed(FramesOf(reports))
    ensures forall i :: 0 <= i < |reports| ==> FitsWire(reports[i])
    ensures Accounted(BoatIds(nodes), old(Counters(nodes)), schedule, reports)
    ensures Counted(old(Counters(nodes)), Counters(nodes), schedule)
  {
    hide Accounted, Counted, FitsWire, Relayed, FramesOf, Forwarded, FrameOf, Counters, BoatIds, HostRecord;
    reports := [];
    ghost var line, start := gateway.uart, Counters(nodes);
    NothingPublished(BoatIds(nodes), start);
    assert line + [] == line;
    assert schedule[..0] == [];
    for i := 0 to |schedule|
      invariant forall k :: 0 <= k < |nodes| ==> nodes[k].provisioned
      invariant gateway.uart == line + Relayed(FramesOf(reports))
      invariant forall i :: 0 <= i < |reports| ==> FitsWire(reports[i])
      invariant Accounted(BoatIds(nodes), start, schedule[..i], reports)
      invariant Counted(start, Counters(nodes), schedule[..i])
    {
      var p := schedule[i];
      ghost var now := Counters(nodes);
      ghost var report := PublishFrom(nodes, p, gateway);
      AccountStep(BoatIds(nodes), start, now, schedule[..i], reports, p, report);
      RelayedLast(reports, report);
      assert schedule[..i + 1] == schedule[..i] + [p];
      reports := reports + [report];
    }
    assert schedule[..|schedule|] == schedule;
  }

  /** One step of the schedule changes one counter. */
  method PublishFrom(nodes: seq<Node>, p: Publish, gateway: Gateway) returns (ghost report: Report)
    requires p.node < |nodes| && nodes[p.node].provisioned && Different(BoatIds(nodes))
    modifies nodes`seqNo, gateway
    ensures report == Report(
      BoatIds(nodes)[p.node], (old(Counters(nodes))[p.node] + 1) % 0x1_0000_0000, HostRecord(p.record))
    ensures FitsWire(report)
    ensures Counters(nodes) == old(Counters(nodes))[p.node := report.seqNo]
    ensures gateway.uart == old(gateway.uart) + Forwarded(BTC1_PUBLISH, FrameOf(report))
  {
    hide FitsWire, Forwarded, FrameOf, HostRecord;
    ghost var now := Counters(nodes);
    assert forall i :: 0 <= i < |nodes| && i != p.node ==> BoatIds(nodes)[i] != BoatIds(nodes)[p.node];
    report := PublishOne(nodes[p.node], gateway, p.record);
    OneCounter(nodes, now, p.node, report.seqNo);
  }

  lemma NothingPublished(boats: seq<nat>, start: seq<nat>)
    requires |start| == |boats| && forall k :: 0 <= k < |start| ==> start[k] < 0x1_0000_0000
    ensures Accounted(boats, start, [], []) && Counted(start, start, [])
    ensures Relayed(FramesOf([])) == []
  {}

  lemma OneCounter(nodes: seq<Node>, before: seq<nat>, k: nat, x: nat)
    requires k < |nodes| == |before| && nodes[k].seqNo as nat == x
    requires forall i :: 0 <= i < |nodes| && i != k ==> nodes[i].seqNo as nat == before[i]
    ensures Counters(nodes) == before[k := x]
  {}

  // ---------- from the reports to the hub ----------

  function SeenFrames(reports: seq<Report>): (s: seq<DecodedFrame>)
    ensures |s| == |reports|
  {
    if reports == [] then []
    else SeenFrames(reports[..|reports| - 1]) + [Seen(reports[|reports| - 1])]
  }

  lemma {:induction false} SeenFrameAt(reports: seq<Report>, i: nat)
    requires i < |reports|
    ensures SeenFrames(reports)[i] == Seen(reports[i])
    decreases |reports|
  {
    hide Seen;
    if i < |reports| - 1 {
      SeenFrameAt(reports[..|reports| - 1], i);
    }
  }

  lemma {:induction false} SeenSome(reports: seq<Report>, k: nat)
    requires k <= |reports|
    ensures SeenAll(reports)[..k] == SeenAll(reports[..k])
  {
    hide Seen;
    if k > 0 {
      SeenSome(reports[1..], k - 1);
      assert reports[..k][1..] == reports[1..][..k - 1];
    }
  }

  lemma SeenAllLast(reports: seq<Report>)
    requires reports != []
    ensures var n := |reports| - 1; SeenAll(reports) == SeenAll(reports[..n]) + [Decoded(Seen(reports[n]))]
  {
    hide Seen, SeenAll, FrameOf, FramesOf;
    var n := |reports| - 1;
    SeenSome(reports, n);
    FramesAt(reports, n);
    var all := SeenAll(reports);
    assert all == all[..n] + [all[n]];
  }

  lemma {:induction false} FramesInSeen(reports: seq<Report>)
    ensures FramesIn(SeenAll(reports)) == SeenFrames(reports)
    decreases |reports|
  {
    hide Seen, SeenAll;
    if reports == [] {
      assert SeenAll(reports) == [];
    } else {
      var n := |reports| - 1;
      var e := Decoded(Seen(reports[n]));
      FramesInSeen(reports[..n]);
      SeenAllLast(reports);
      FramesInAppend(SeenAll(reports[..n]), [e]);
      assert [e][1..] == [];
      assert FramesIn([e]) == [Seen(reports[n])] + [];
    }
  }

  lemma {:induction false} LatestSeen(reports: seq<Report>, boatId: nat)
    ensures var own := OfBoat(reports, boatId);
      LatestFrame(SeenAll(reports), boatId) == if own == [] then None else Some(Seen(own[|own| - 1]))
    decreases |reports|
  {
    hide SeenAll, LatestFrame;
    if reports == [] {
      assert SeenAll(reports) == [];
      LatestFrameNone(boatId);
    } else {
      var n := |reports| - 1;
      LatestSeen(reports[..n], boatId);
      SeenAllLast(reports);
      LatestFrameLast(SeenAll(reports[..n]), Decoded(Seen(reports[n])), boatId);
    }
  }

  /**
    From the gateway to the hub: after any part of the serial line has arrived, in any chunks, a
    subscribed listener has heard exactly the reports received in full, and for every boat the hub
    keeps the last of them, or what it knew before if there is none.
   */
  lemma ReportsReachTheHub(
    reports: seq<Report>, chunks: seq<seq<byte>>, tolerant: bool, clocks: nat -> nat -> int, before: seq<Happening>,
    l: ListenerId, boatId: nat)
    requires forall i :: 0 <= i < |reports| ==> FitsWire(reports[i])
    requires Concat(chunks) <= Relayed(FramesOf(reports))
    ensures |Concat(chunks)| / TELEMETRY_FRAME_SIZE <= |reports|
    ensures var trace := before + StreamTrace([], chunks, tolerant, clocks, 0);
      var got := reports[..|Concat(chunks)| / TELEMETRY_FRAME_SIZE];
      var own := OfBoat(got, boatId);
      && (Subscribed(before, l) ==>
            LogOf(After(trace).calls, l) == LogOf(After(before).calls, l) + SeenFrames(got))
      && (if own == [] then Latest(trace, boatId) == Latest(before, boatId)
          else Latest(trace, boatId).Some? && Latest(trace, boatId).value.frame == Seen(own[|own| - 1]))
  {
    hide FitsWire, Run, FramesOf, Relayed, Concat, StreamTrace, After, LogOf, Latest, Subscribed, SeenAll, SeenFrames,
      FramesIn, LatestFrame, Seen, OfBoat;
    ReportsReachTheHost(reports, chunks, tolerant);
    var k := |Concat(chunks)| / TELEMETRY_FRAME_SIZE;
    SeenSome(reports, k);
    FramesInSeen(reports[..k]);
    LatestSeen(reports[..k], boatId);
    StreamUpdates(before, [], chunks, tolerant, clocks, 0, boatId);
    if Subscribed(before, l) {
      ListenerHearsStream(before, [], chunks, tolerant, clocks, 0, l);
    }
  }

  // ---------- one node among others ----------

  lemma {:induction false} SeenOfBoat(reports: seq<Report>, boatId: nat)
    ensures FramesOfBoat(SeenFrames(reports), boatId) == SeenFrames(OfBoat(reports, boatId))
    decreases |reports|
  {
    if reports != [] {
      var n := |reports| - 1;
      SeenOfBoat(reports[..n], boatId);
      var own := OfBoat(reports[..n], boatId);
      assert SeenFrames(reports)[..n] == SeenFrames(reports[..n]);
      assert (own + [reports[n]])[..|own|] == own;
    }
  }

  lemma {:induction false} OfBoatOfPart(reports: seq<Report>, k: nat, boatId: nat)
    requires k <= |reports|
    ensures OfBoat(reports[..k], boatId) <= OfBoat(reports, boatId)
    decreases |reports|
  {
    if k == |reports| {
      assert reports[..k] == reports;
    } else {
      OfBoatOfPart(reports[..|reports| - 1], k, boatId);
      assert reports[..|reports| - 1][..k] == reports[..k];
    }
  }

  /** The frame of a node's record `i`, when the counter started at `seqNo`. */
  function NodeFrame(boatId: nat, seqNo: nat, ts: seq<TelemetrySummary>, i: nat): DecodedFrame
    requires i < |ts|
  {
    DecodedFrame(1, 1, 0, boatId, (seqNo + 1 + i) % 0x1_0000_0000, TelemetryBytes(ts[i]), Some(ts[i]))
  }

  /** The first of the node's records, none missing, with consecutive sequence numbers modulo 2^32. */
  ghost predicate Consecutive(frames: seq<DecodedFrame>, boatId: nat, seqNo: nat, ts: seq<TelemetrySummary>) {
    |frames| <= |ts| && forall i :: 0 <= i < |frames| ==> frames[i] == NodeFrame(boatId, seqNo, ts, i)
  }

  /**
    Whatever else is on the line: the host sees the records of one node with consecutive sequence
    numbers modulo 2^32, as far as they have arrived, and all of them once everything has arrived.
   */
  lemma SequenceIsConsecutive(
    reports: seq<Report>, boatId: nat, seqNo: nat, ts: seq<TelemetrySummary>, chunks: seq<seq<byte>>, tolerant: bool)
    requires forall i :: 0 <= i < |reports| ==> FitsWire(reports[i])
    requires OfBoat(reports, boatId) == NodeReports(boatId, seqNo, ts)
    requires Concat(chunks) <= Relayed(FramesOf(reports))
    ensures var mine := FramesOfBoat(FramesIn(Run([], chunks, tolerant).events), boatId);
      && (|Concat(chunks)| == |Relayed(FramesOf(reports))| ==> |mine| == |ts|)
      && Consecutive(mine, boatId, seqNo, ts)
  {
    hide FitsWire, Run, FramesOf, Relayed, Concat, SeenAll, SeenFrames, FramesIn, OfBoat, NodeReports, TelemetryBytes,
      FramesOfBoat;
    ReportsReachTheHost(reports, chunks, tolerant);
    var k := |Concat(chunks)| / TELEMETRY_FRAME_SIZE;
    SeenSome(reports, k);
    FramesInSeen(reports[..k]);
    SeenOfBoat(reports[..k], boatId);
    OfBoatOfPart(reports, k, boatId);
    var own := OfBoat(reports[..k], boatId);
    LineLength(reports);
    assert k == |reports| ==> reports[..k] == reports;
    forall i | 0 <= i < |own|
      ensures SeenFrames(own)[i] == NodeFrame(boatId, seqNo, ts, i)
    {
      SeenFrameAt(own, i);
      NodeReportAt(boatId, seqNo, ts, i);
    }
  }

  lemma LineLength(reports: seq<Report>)
    requires forall i :: 0 <= i < |reports| ==> FitsWire(reports[i])
    ensures |Relayed(FramesOf(reports))| == TELEMETRY_FRAME_SIZE * |reports|
  {
    hide FitsWire, FramesOf, Relayed, SeenAll, InterpretAll, IsExact;
    FramesArrive(reports);
    RelayIsVerbatim(FramesOf(reports));
    FrameSizes(reports);
    TotalSize(FramesOf(reports));
  }

  lemma {:induction false} TotalSize(frames: seq<seq<byte>>)
    requires AllTelemetrySized(frames)
    ensures |Concat(frames)| == TELEMETRY_FRAME_SIZE * |frames|
  {
    if frames != [] {
      assert |frames[0]| == TELEMETRY_FRAME_SIZE;
      TotalSize(frames[1..]);
    }
  }

  /**
    From a node to the hub: a subscribed listener hears a node's records in order and without a gap,
    and once everything has arrived the hub keeps the node's last one.
   */
  lemma NodeReachesTheHub(
    reports: seq<Report>, boatId: nat, seqNo: nat, ts: seq<TelemetrySummary>, chunks: seq<seq<byte>>, tolerant: bool,
    clocks: nat -> nat -> int, before: seq<Happening>, l: ListenerId)
    requires forall i :: 0 <= i < |reports| ==> FitsWire(reports[i])
    requires OfBoat(reports, boatId) == NodeReports(boatId, seqNo, ts)
    requires Concat(chunks) <= Relayed(FramesOf(reports))
    requires Subscribed(before, l)
    ensures var trace := before + StreamTrace([], chunks, tolerant, clocks, 0);
      var heard := FramesIn(Run([], chunks, tolerant).events);
      && LogOf(After(trace).calls, l) == LogOf(After(before).calls, l) + heard
      && Consecutive(FramesOfBoat(heard, boatId), boatId, seqNo, ts)
      && (|Concat(chunks)| == |Relayed(FramesOf(reports))| && ts != [] ==>
            && |FramesOfBoat(heard, boatId)| == |ts|
            && Latest(trace, boatId).Some?
            && Latest(trace, boatId).value.frame == NodeFrame(boatId, seqNo, ts, |ts| - 1))
  {
    hide FitsWire, Run, FramesOf, Relayed, Concat, StreamTrace, After, LogOf, Latest, Subscribed, FramesIn, OfBoat,
      NodeReports, TelemetryBytes, FramesOfBoat, Consecutive;
    SequenceIsConsecutive(reports, boatId, seqNo, ts, chunks, tolerant);
    ListenerHearsStream(before, [], chunks, tolerant, clocks, 0, l);
    ReportsReachTheHub(reports, chunks, tolerant, clocks, before, l, boatId);
    LineLength(reports);
    assert reports[..|reports|] == reports;
    if ts != [] {
      NodeReportAt(boatId, seqNo, ts, |ts| - 1);
    }
  }

  // ---------- what the filter lets through besides reports ----------

  /** The serial line carries the signals, one after the other, and nothing of the noise. */
  lemma {:induction false} LineIsSignals(messages: seq<Access>)
    ensures Line(messages) == Concat(Signals(messages))
    decreases |messages|
  {
    hide Forwarded, IsNoise;
    if messages != [] {
      var m := messages[|messages| - 1];
      var before := messages[..|messages| - 1];
      LineIsSignals(before);
      NoiseIsDropped(m.opcode, m.data);
      ConcatLast(Signals(before), m.data);
      assert Concat(Signals(before)) + [] == Concat(Signals(before));
    }
  }

  /**
    Noise in the mesh: when the frames of the reports come in order among any messages with another
    opcode, too few bytes or no magic, the host has decoded exactly the reports received in full.
   */
  lemma ReportsReachTheHostPastNoise(
    messages: seq<Access>, reports: seq<Report>, chunks: seq<seq<byte>>, tolerant: bool)
    requires forall i :: 0 <= i < |reports| ==> FitsWire(reports[i])
    requires Signals(messages) == FramesOf(reports) && Concat(chunks) <= Line(messages)
    ensures Line(messages) == Concat(FramesOf(reports))
    ensures |Concat(chunks)| / 48 <= |reports|
    ensures Run([], chunks, tolerant).events == SeenAll(reports)[..|Concat(chunks)| / 48]
  {
    hide FitsWire, Run, FramesOf, SeenAll, Concat, InterpretAll, IsExact, Readable, Relayed, Line, Signals;
    LineIsSignals(messages);
    FramesArrive(reports);
    RelayIsVerbatim(FramesOf(reports));
    ReportsReachTheHost(reports, chunks, tolerant);
  }

  lemma {:induction false} RelayedAppend(a: seq<seq<byte>>, b: seq<seq<byte>>)
    ensures Relayed(a + b) == Relayed(a) + Relayed(b)
  {
    hide Forwarded;
    if a == [] {
      assert a + b == b;
    } else {
      assert (a + b)[1..] == a[1..] + b;
      RelayedAppend(a[1..], b);
    }
  }

  /**
    One message with a magic that announces more than the limit passes the gateway's filter and
    silences the host: it has decoded the reports before the message and never decodes one after it.
   */
  lemma OversizeMessageSilences(
    reports: seq<Report>, message: seq<byte>, later: seq<seq<byte>>, chunks: seq<seq<byte>>, tolerant: bool)
    requires forall i :: 0 <= i < |reports| ==> FitsWire(reports[i])
    requires |message| >= FRAME_HEADER_SIZE + CRC_SIZE && HasMagic(message) && DeclaredLen(message) > MAX_PAYLOAD_LEN
    requires Concat(chunks) == Relayed(FramesOf(reports) + ([message] + later))
    ensures Run([], chunks, tolerant) == Parsed(SeenAll(reports), message + Relayed(later))
  {
    hide FitsWire, Run, FramesOf, SeenAll, Concat, InterpretAll, IsExact, HasMagic, DeclaredLen, Readable, Seen;
    var frames := FramesOf(reports);
    FramesArrive(reports);
    RelayIsVerbatim(frames);
    RelayedAppend(frames, [message] + later);
    FilterExact(message);
    assert ([message] + later)[1..] == later;
    assert Relayed([message] + later) == message + Relayed(later);
    hide Relayed;
    StuckIsKept(message, Relayed(later), tolerant);
    OversizeBehindFrames(chunks, frames, message + Relayed(later), tolerant);
  }
}
