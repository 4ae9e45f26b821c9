/** The 26-byte telemetry summary payload. */
module Payload {
  import opened Bits
  import opened Wire

  const TELEMETRY_SUMMARY_PAYLOAD_SIZE := 26

  /** The fields are whole numbers of any size on the way in; the wire keeps them modulo their width. */
  datatype TelemetrySummary = TelemetrySummary(
    timestampMs: int, latE7: int, lonE7: int, speedMmS: int, spmX100: int, dpsX100: int, telemetryFlags: int)

  /** The fields in wire order. */
  function TelemetryBytes(t: TelemetrySummary): (s: seq<byte>)
    ensures |s| == TELEMETRY_SUMMARY_PAYLOAD_SIZE
  {
    LE(t.timestampMs, 8) + LE(t.latE7, 4) + LE(t.lonE7, 4) + LE(t.speedMmS, 4)
    + LE(t.spmX100, 2) + LE(t.dpsX100, 2) + LE(t.telemetryFlags, 2)
  }

  function DecodeTelemetrySummary(payload: seq<byte>): Result<TelemetrySummary> {
    if |payload| != TELEMETRY_SUMMARY_PAYLOAD_SIZE then Err(TELEMETRY_PAYLOAD_SIZE)
    else Ok(TelemetrySummary(
              FromLE(payload[0..8]),
              Signed32(FromLE(payload[8..12])),
              Signed32(FromLE(payload[12..16])),
              FromLE(payload[16..20]),
              FromLE(payload[20..22]),
              FromLE(payload[22..24]),
              FromLE(payload[24..26])))
  }

  /** What a telemetry record becomes once its fields are cut to their wire widths. */
  function OnTheWire(t: TelemetrySummary): TelemetrySummary {
    TelemetrySummary(
      t.timestampMs % 0x1_0000_0000_0000_0000,
      Signed32(t.latE7 % 0x1_0000_0000),
      Signed32(t.lonE7 % 0x1_0000_0000),
      t.speedMmS % 0x1_0000_0000,
      t.spmX100 % 0x1_0000,
      t.dpsX100 % 0x1_0000,
      t.telemetryFlags % 0x1_0000)
  }

  /** `DataView.setUintN` and its relatives: write the `n`-byte field of `x` at `at`. */
  method SetField(out: array<byte>, at: nat, x: int, n: nat)
    requires at + n <= out.Length
    modifies out
    ensures out[..at + n] == old(out[..at]) + LE(x, n)
    ensures forall k :: at + n <= k < out.Length ==> out[k] == old(out[k])
  {
    var field := LE(x, n);
    forall k | 0 <= k < n {
      out[at + k] := field[k];
    }
  }

  method EncodeTelemetrySummary(t: TelemetrySummary) returns (out: array<byte>)
    ensures fresh(out) && out[..] == TelemetryBytes(t)
  {
    hide LE;
    out := new byte[TELEMETRY_SUMMARY_PAYLOAD_SIZE](_ => 0);
    SetField(out, 0, t.timestampMs, 8);
    SetField(out, 8, t.latE7, 4);
    SetField(out, 12, t.lonE7, 4);
    SetField(out, 16, t.speedMmS, 4);
    SetField(out, 20, t.spmX100, 2);
    SetField(out, 22, t.dpsX100, 2);
    SetField(out, 24, t.telemetryFlags, 2);
    assert out[..] == out[..26];
  }

  lemma TelemetryFields(t: TelemetrySummary)
    ensures var p := TelemetryBytes(t);
      && p[0..8] == LE(t.timestampMs, 8) && p[8..12] == LE(t.latE7, 4) && p[12..16] == LE(t.lonE7, 4)
      && p[16..20] == LE(t.speedMmS, 4) && p[20..22] == LE(t.spmX100, 2) && p[22..24] == LE(t.dpsX100, 2)
      && p[24..26] == LE(t.telemetryFlags, 2)
  {
    hide LE;
  }

  /** Decoding an encoded record gives it back with every field reduced to its wire width. */
  lemma TelemetryRoundTrip(t: TelemetrySummary)
    ensures DecodeTelemetrySummary(TelemetryBytes(t)) == Ok(OnTheWire(t))
  {
    hide LE, FromLE, TelemetryBytes, Range;
    TelemetryFields(t);
    RangesKnown();
    FieldRoundTrip(t.timestampMs, 8);
    FieldRoundTrip(t.latE7, 4);
    FieldRoundTrip(t.lonE7, 4);
    FieldRoundTrip(t.speedMmS, 4);
    FieldRoundTrip(t.spmX100, 2);
    FieldRoundTrip(t.dpsX100, 2);
    FieldRoundTrip(t.telemetryFlags, 2);
  }

  lemma SignedRewrite(s: seq<byte>)
    requires |s| == 4
    ensures LE(Signed32(FromLE(s)), 4) == s
  {
    hide LE, FromLE;
    RangesKnown();
    FieldRewrite(s);
    var u := FromLE(s);
    FieldWraps(Signed32(u), u, 4);
  }

  /** Encoding a decoded payload gives the payload back. */
  lemma TelemetryRewrite(payload: seq<byte>)
    requires |payload| == TELEMETRY_SUMMARY_PAYLOAD_SIZE
    ensures TelemetryBytes(DecodeTelemetrySummary(payload).value) == payload
  {
    hide LE, FromLE;
    FieldRewrite(payload[0..8]);
    SignedRewrite(payload[8..12]);
    SignedRewrite(payload[12..16]);
    FieldRewrite(payload[16..20]);
    FieldRewrite(payload[20..22]);
    FieldRewrite(payload[22..24]);
    FieldRewrite(payload[24..26]);
  }
}
