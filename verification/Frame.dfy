/** The frame codec: header, payload and checksum trailer. */
module Frame {
  import opened Bits
  import opened Crc32
  import opened Wire
  import opened Payload

  const FRAME_MAGIC: seq<byte> := [0x42, 0x54, 0x43, 0x31]
  const PROTOCOL_VERSION := 1
  const FRAME_HEADER_SIZE := 18
  const CRC_SIZE := 4
  const MAX_PAYLOAD_LEN := 2048

  const HEARTBEAT := 0
  const TELEMETRY_SUMMARY := 1

  datatype EncodeFrameInput = EncodeFrameInput(
    version: Option<int>, msgType: int, flags: Option<int>, boatId: int, seqNo: int, payload: Option<seq<byte>>)

  /** `telemetry` is present exactly in decoded telemetry summaries. */
  datatype DecodedFrame = DecodedFrame(
    version: nat, msgType: nat, flags: nat, boatId: nat, seqNo: nat, rawPayload: seq<byte>,
    telemetry: Option<TelemetrySummary>)

  function OrElse<T>(o: Option<T>, default: T): T {
    if o.Some? then o.value else default
  }

  // ---------- encoding ----------

  function HeaderBytes(version: int, msgType: int, flags: int, boatId: int, seqNo: int, payloadLen: nat): (s: seq<byte>)
    ensures |s| == FRAME_HEADER_SIZE
  {
    FRAME_MAGIC + [(version % 256) as byte, (msgType % 256) as byte, (flags % 256) as byte, 0]
    + LE(boatId, 4) + LE(seqNo, 4) + LE(payloadLen, 2)
  }

  /** A body followed by its checksum. */
  function Sealed(body: seq<byte>): (s: seq<byte>)
    ensures |s| == |body| + CRC_SIZE
  {
    body + WordBytes(Checksum(body))
  }

  function InputVersion(input: EncodeFrameInput): int { OrElse(input.version, PROTOCOL_VERSION) }
  function InputFlags(input: EncodeFrameInput): int { OrElse(input.flags, 0) }
  function InputPayload(input: EncodeFrameInput): seq<byte> { OrElse(input.payload, []) }

  function InputBody(input: EncodeFrameInput): seq<byte> {
    HeaderBytes(InputVersion(input), input.msgType, InputFlags(input), input.boatId, input.seqNo, |InputPayload(input)|)
    + InputPayload(input)
  }

  /** What `EncodeFrame` returns. */
  function Encoded(input: EncodeFrameInput): Result<seq<byte>> {
    if |InputPayload(input)| > MAX_PAYLOAD_LEN then Err(PAYLOAD_LENGTH) else Ok(Sealed(InputBody(input)))
  }

  method WriteHeader(out: array<byte>, version: int, msgType: int, flags: int, boatId: int, seqNo: int, payloadLen: nat)
    requires out.Length >= FRAME_HEADER_SIZE
    modifies out
    ensures out[..FRAME_HEADER_SIZE] == HeaderBytes(version, msgType, flags, boatId, seqNo, payloadLen)
    ensures forall k :: FRAME_HEADER_SIZE <= k < out.Length ==> out[k] == old(out[k])
  {
    hide LE;
    SetBytes(out, 0, FRAME_MAGIC);
    assert out[..4] == FRAME_MAGIC;
    out[4] := (version % 256) as byte;
    out[5] := (msgType % 256) as byte;
    out[6] := (flags % 256) as byte;
    out[7] := 0;
    assert out[..4] == FRAME_MAGIC;
    assert out[..8] == out[..4] + [(version % 256) as byte, (msgType % 256) as byte, (flags % 256) as byte, 0];
    SetField(out, 8, boatId, 4);
    SetField(out, 12, seqNo, 4);
    SetField(out, 16, payloadLen, 2);
  }

  /** `Uint8Array.set`. */
  method SetBytes(out: array<byte>, at: nat, bytes: seq<byte>)
    requires at + |bytes| <= out.Length
    modifies out
    ensures out[..at + |bytes|] == old(out[..at]) + bytes
    ensures forall k :: at + |bytes| <= k < out.Length ==> out[k] == old(out[k])
  {
    forall k | 0 <= k < |bytes| {
      out[at + k] := bytes[k];
    }
  }

  method EncodeFrame(table: array<bv32>, input: EncodeFrameInput) returns (r: Result<seq<byte>>)
    requires IsTable(table)
    ensures r == Encoded(input)
  {
    hide HeaderBytes, Checksum, WordBytes;
    var version := OrElse(input.version, PROTOCOL_VERSION);
    var flags := OrElse(input.flags, 0);
    var payload := OrElse(input.payload, []);
    if |payload| > MAX_PAYLOAD_LEN {
      return Err(PAYLOAD_LENGTH);
    }
    var total := FRAME_HEADER_SIZE + |payload| + CRC_SIZE;
    var out := new byte[total](_ => 0);
    WriteHeader(out, version, input.msgType, flags, input.boatId, input.seqNo, |payload|);
    SetBytes(out, FRAME_HEADER_SIZE, payload);
    var crc := TableCrc32(table, out[..FRAME_HEADER_SIZE + |payload|]);
    SetBytes(out, FRAME_HEADER_SIZE + |payload|, WordBytes(crc));
    assert out[..] == out[..total];
    r := Ok(out[..]);
  }

  method EncodeHeartbeat(table: array<bv32>, version: Option<int>, flags: Option<int>, boatId: int, seqNo: int)
    returns (r: Result<seq<byte>>)
    requires IsTable(table)
    ensures r == Encoded(EncodeFrameInput(version, HEARTBEAT, flags, boatId, seqNo, Some([])))
  {
    r := EncodeFrame(table, EncodeFrameInput(version, HEARTBEAT, flags, boatId, seqNo, Some([])));
  }

  /** The input that `EncodeTelemetrySummaryFrame` passes on. */
  function TelemetryInput(
    version: Option<int>, flags: Option<int>, boatId: int, seqNo: int, t: TelemetrySummary): EncodeFrameInput
  {
    EncodeFrameInput(version, TELEMETRY_SUMMARY, flags, boatId, seqNo, Some(TelemetryBytes(t)))
  }

  method EncodeTelemetrySummaryFrame(
    table: array<bv32>, version: Option<int>, flags: Option<int>, boatId: int, seqNo: int, t: TelemetrySummary)
    returns (r: Result<seq<byte>>)
    requires IsTable(table)
    ensures r == Encoded(TelemetryInput(version, flags, boatId, seqNo, t))
  {
    hide Encoded, TelemetryBytes;
    var payload := EncodeTelemetrySummary(t);
    r := EncodeFrame(table, EncodeFrameInput(version, TELEMETRY_SUMMARY, flags, boatId, seqNo, Some(payload[..])));
  }

  // ---------- decoding ----------

  /** The length that a header declares. */
  function DeclaredLen(b: seq<byte>): (n: nat)
    requires |b| >= FRAME_HEADER_SIZE
  {
    FromLE(b[16..18])
  }

  /** The length of the frame that a header announces, trailer included. */
  function FrameLen(b: seq<byte>): (n: nat)
    requires |b| >= FRAME_HEADER_SIZE
    ensures n >= FRAME_HEADER_SIZE + CRC_SIZE
  {
    FRAME_HEADER_SIZE + DeclaredLen(b) + CRC_SIZE
  }

  predicate HasMagic(b: seq<byte>) {
    |b| >= 4 && b[..4] == FRAME_MAGIC
  }

  /** The stored checksum is the one of the bytes before it. */
  predicate ChecksumHolds(b: seq<byte>)
    requires |b| >= FRAME_HEADER_SIZE && |b| >= FrameLen(b)
  {
    var endPayload := FRAME_HEADER_SIZE + DeclaredLen(b);
    WordAt(b[endPayload..endPayload + CRC_SIZE]) == Checksum(b[..endPayload])
  }

  function DecodeFrame(b: seq<byte>): Result<DecodedFrame> {
    if |b| < FRAME_HEADER_SIZE + CRC_SIZE then Err(TRUNCATED)
    else if !HasMagic(b) then Err(MAGIC)
    else if b[4] != 1 then Err(VERSION)
    else if DeclaredLen(b) > MAX_PAYLOAD_LEN then Err(PAYLOAD_LENGTH)
    else if |b| < FrameLen(b) then Err(TRUNCATED)
    else if !ChecksumHolds(b) then Err(CRC)
    else DecodeBody(b)
  }

  /** The part of decoding that depends on the message type. */
  function DecodeBody(b: seq<byte>): Result<DecodedFrame>
    requires |b| >= FRAME_HEADER_SIZE && |b| >= FrameLen(b)
  {
    var rawPayload := b[FRAME_HEADER_SIZE..FRAME_HEADER_SIZE + DeclaredLen(b)];
    var base := DecodedFrame(
      b[4] as nat, b[5] as nat, b[6] as nat, FromLE(b[8..12]), FromLE(b[12..16]), rawPayload, None);
    if b[5] == 0 then
      if |rawPayload| != 0 then Err(PAYLOAD_LENGTH) else Ok(base)
    else if b[5] == 1 then
      match DecodeTelemetrySummary(rawPayload)
      case Err(code) => Err(code)
      case Ok(t) => Ok(base.(telemetry := Some(t)))
    else Ok(base)
  }

  datatype Sliced = Sliced(frame: seq<byte>, rest: seq<byte>)

  /** Exactly one full frame and what follows it, or nothing while the buffer does not start with one. */
  function TrySliceOneFrame(b: seq<byte>): (r: Option<Sliced>)
    ensures r.Some? ==> |r.value.frame| + |r.value.rest| == |b| && |r.value.frame| >= FRAME_HEADER_SIZE + CRC_SIZE
  {
    if |b| < FRAME_HEADER_SIZE + CRC_SIZE then None
    else if !HasMagic(b) then None
    else if DeclaredLen(b) > MAX_PAYLOAD_LEN then None
    else if |b| < FrameLen(b) then None
    else Some(Sliced(b[..FrameLen(b)], b[FrameLen(b)..]))
  }
}
