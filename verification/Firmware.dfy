/** The boat node's frame builder and the gateway's filter, as the firmware runs them. */
module Firmware {
  import opened Bits
  import opened Crc32
  import opened Wire
  import opened Payload
  import opened Frame
  import opened FrameProperties

  // ---------- the C types and how they lie in memory ----------

  newtype uint16 = x: int | 0 <= x < 0x1_0000
  newtype uint32 = x: int | 0 <= x < 0x1_0000_0000
  newtype uint64 = x: int | 0 <= x < 0x1_0000_0000_0000_0000
  newtype int32 = x: int | -0x8000_0000 <= x < 0x8000_0000

  /** The packed header struct, field by field. */
  datatype BcFrameHeader = BcFrameHeader(
    magic0: byte, magic1: byte, magic2: byte, magic3: byte, version: byte, msgType: byte, flags: byte, reserved: byte,
    boatId: uint32, seqNo: uint32, payloadLen: uint16)

  /** The packed telemetry struct, field by field. */
  datatype BcTelemetrySummaryV1 = BcTelemetrySummaryV1(
    timestampMs: uint64, latE7: int32, lonE7: int32, speedMmS: uint32, spmX100: uint16, dpsX100: uint16,
    telemetryFlags: uint16)

  // The processor is little-endian: the low half of a number comes first, down to single bytes.

  function Memory16(x: uint16): (s: seq<byte>)
    ensures |s| == 2
  {
    [(x % 0x100) as byte, (x / 0x100) as byte]
  }

  function Memory32(x: uint32): (s: seq<byte>)
    ensures |s| == 4
  {
    Memory16((x % 0x1_0000) as uint16) + Memory16((x / 0x1_0000) as uint16)
  }

  function Memory64(x: uint64): (s: seq<byte>)
    ensures |s| == 8
  {
    Memory32((x % 0x1_0000_0000) as uint32) + Memory32((x / 0x1_0000_0000) as uint32)
  }

  /** Two's complement. */
  function MemoryOfSigned(x: int32): (s: seq<byte>)
    ensures |s| == 4
  {
    Memory32(if x >= 0 then x as uint32 else (x as int + 0x1_0000_0000) as uint32)
  }

  function HeaderMemory(h: BcFrameHeader): (s: seq<byte>)
    ensures |s| == FRAME_HEADER_SIZE
  {
    [h.magic0, h.magic1, h.magic2, h.magic3, h.version, h.msgType, h.flags, h.reserved]
    + Memory32(h.boatId) + Memory32(h.seqNo) + Memory16(h.payloadLen)
  }

  /** The struct takes the 26 bytes that the header file asserts. */
  function RecordMemory(t: BcTelemetrySummaryV1): (s: seq<byte>)
    ensures |s| == 26
  {
    Memory64(t.timestampMs) + MemoryOfSigned(t.latE7) + MemoryOfSigned(t.lonE7) + Memory32(t.speedMmS)
    + Memory16(t.spmX100) + Memory16(t.dpsX100) + Memory16(t.telemetryFlags)
  }

  // ---------- memory and wire agree ----------

  /** A wide field is its low part followed by its high part. */
  lemma {:induction false} FieldSplits(x: int, n: nat, m: nat)
    ensures LE(x, n + m) == LE(x % Range(n), n) + LE(x / Range(n), m)
    decreases n
  {
    if n == 0 {
      assert LE(x, m) == [] + LE(x, m);
    } else {
      FieldSplits(x / 256, n - 1, m);
      LowSplits(x, Range(n - 1));
      DivSplits(x, Range(n - 1));
      FieldStep(x, n + m);
      FieldStep(x % Range(n), n);
      hide LE;
    }
  }

  lemma FieldStep(x: int, n: nat)
    requires n > 0
    ensures LE(x, n) == [(x % 256) as byte] + LE(x / 256, n - 1)
  {}

  lemma LowSplits(x: int, b: nat)
    requires b > 0
    ensures (x % (256 * b)) % 256 == x % 256 && (x % (256 * b)) / 256 == (x / 256) % b
  {
    ModSplits(x, b);
  }

  lemma DivSplits(x: int, b: nat)
    requires b > 0
    ensures x / (256 * b) == (x / 256) / b
  {
    var q, r := (x / 256) / b, (x / 256) % b;
    assert x / 256 == b * q + r;
    var low := x % 256 + 256 * r;
    assert x == 256 * b * q + low;
    ModIsUnique(x, 256 * b, q, low);
    var p := x / (256 * b);
    assert 256 * b * (p - q) == 0;
    ZeroFactor(256 * b, p - q);
  }

  lemma ZeroFactor(a: int, d: int)
    requires a > 0 && a * d == 0
    ensures d == 0
  {}

  lemma Memory16IsField(x: uint16)
    ensures Memory16(x) == LE(x as int, 2)
  {
    assert LE(x as int / 256, 1) == [(x as int / 256 % 256) as byte];
  }

  lemma Memory32IsField(x: uint32)
    ensures Memory32(x) == LE(x as int, 4)
  {
    hide LE, Memory16;
    RangesKnown();
    FieldSplits(x as int, 2, 2);
    Memory16IsField((x % 0x1_0000) as uint16);
    Memory16IsField((x / 0x1_0000) as uint16);
  }

  lemma Memory64IsField(x: uint64)
    ensures Memory64(x) == LE(x as int, 8)
  {
    hide LE, Memory32;
    RangesKnown();
    FieldSplits(x as int, 4, 4);
    Memory32IsField((x % 0x1_0000_0000) as uint32);
    Memory32IsField((x / 0x1_0000_0000) as uint32);
  }

  lemma MemoryOfSignedIsField(x: int32)
    ensures MemoryOfSigned(x) == LE(x as int, 4)
  {
    hide LE, Memory32;
    RangesKnown();
    var u := if x >= 0 then x as uint32 else (x as int + 0x1_0000_0000) as uint32;
    Memory32IsField(u);
    FieldWraps(u as int, x as int, 4);
  }

  /** The record that a host program would hold for the same values. */
  function HostRecord(t: BcTelemetrySummaryV1): TelemetrySummary {
    TelemetrySummary(
      t.timestampMs as int, t.latE7 as int, t.lonE7 as int, t.speedMmS as int, t.spmX100 as int, t.dpsX100 as int,
      t.telemetryFlags as int)
  }

  /** The telemetry struct lies in memory as the payload of the protocol. */
  lemma RecordMemoryIsPayload(t: BcTelemetrySummaryV1)
    ensures RecordMemory(t) == TelemetryBytes(HostRecord(t))
  {
    hide LE, Memory16, Memory32, Memory64, MemoryOfSigned;
    Memory64IsField(t.timestampMs);
    MemoryOfSignedIsField(t.latE7);
    MemoryOfSignedIsField(t.lonE7);
    Memory32IsField(t.speedMmS);
    Memory16IsField(t.spmX100);
    Memory16IsField(t.dpsX100);
    Memory16IsField(t.telemetryFlags);
  }

  /** So a host reads every field of the struct with its value. */
  lemma HostReadsRecord(t: BcTelemetrySummaryV1)
    ensures DecodeTelemetrySummary(RecordMemory(t)) == Ok(TelemetrySummary(
      t.timestampMs as int, t.latE7 as int, t.lonE7 as int, t.speedMmS as int, t.spmX100 as int, t.dpsX100 as int,
      t.telemetryFlags as int))
  {
    hide DecodeTelemetrySummary, RecordMemory, TelemetryBytes;
    RecordMemoryIsPayload(t);
    TelemetryRoundTrip(HostRecord(t));
    SignedFits(t.latE7 as int);
    SignedFits(t.lonE7 as int);
  }

  lemma SignedFits(x: int)
    requires -0x8000_0000 <= x < 0x8000_0000
    ensures Signed32(x % 0x1_0000_0000) == x
  {
    if x < 0 {
      assert x % 0x1_0000_0000 == x + 0x1_0000_0000;
    }
  }

  /** The header struct lies in memory as the header of the protocol. */
  lemma HeaderMemoryIsHeader(h: BcFrameHeader)
    requires [h.magic0, h.magic1, h.magic2, h.magic3] == FRAME_MAGIC && h.reserved == 0
    ensures HeaderMemory(h)
         == HeaderBytes(h.version as int, h.msgType as int, h.flags as int, h.boatId as int, h.seqNo as int,
                        h.payloadLen as nat)
  {
    hide LE, Memory16, Memory32;
    Memory32IsField(h.boatId);
    Memory32IsField(h.seqNo);
    Memory16IsField(h.payloadLen);
  }

  // ---------- the node ----------

  /** Header, telemetry payload and checksum. */
  const TELEMETRY_FRAME_SIZE := 48

  /** The values that the struct can hold: every field in the range of its type. */
  predicate FitsStruct(t: TelemetrySummary) {
    && 0 <= t.timestampMs < 0x1_0000_0000_0000_0000
    && -0x8000_0000 <= t.latE7 < 0x8000_0000
    && -0x8000_0000 <= t.lonE7 < 0x8000_0000
    && 0 <= t.speedMmS < 0x1_0000_0000
    && 0 <= t.spmX100 < 0x1_0000
    && 0 <= t.dpsX100 < 0x1_0000
    && 0 <= t.telemetryFlags < 0x1_0000
  }

  /** The frame a host program would encode for the same values. */
  function HostFrame(boatId: int, seqNo: int, t: TelemetrySummary): seq<byte> {
    Sealed(InputBody(TelemetryInput(None, None, boatId, seqNo, t)))
  }

  lemma HostFrameIsEncoded(boatId: int, seqNo: int, t: TelemetrySummary)
    ensures Encoded(TelemetryInput(None, None, boatId, seqNo, t)) == Ok(HostFrame(boatId, seqNo, t))
    ensures |HostFrame(boatId, seqNo, t)| == TELEMETRY_FRAME_SIZE
  {
    hide TelemetryBytes, HeaderBytes, WordBytes;
  }

  /** The header that a node fills in. */
  function NodeHeader(boatId: uint32, seqNo: uint32, payloadLen: nat): BcFrameHeader {
    BcFrameHeader(
      0x42, 0x54, 0x43, 0x31, 1, 1, 0, 0, boatId, seqNo, (payloadLen % 0x1_0000) as uint16)
  }

  /** The node's own bytes are the ones that a host encodes. */
  lemma NodeFrameIsHostFrame(boatId: uint32, seqNo: uint32, t: BcTelemetrySummaryV1)
    ensures var body := HeaderMemory(NodeHeader(boatId, seqNo, 26)) + RecordMemory(t);
      body + WordBytes(Checksum(body)) == HostFrame(boatId as int, seqNo as int, HostRecord(t))
  {
    hide HeaderBytes, TelemetryBytes, HeaderMemory, RecordMemory, WordBytes, Checksum;
    HeaderMemoryIsHeader(NodeHeader(boatId, seqNo, 26));
    RecordMemoryIsPayload(t);
  }

  class Node {
    /** `BC_BOAT_ID`, fixed when the firmware is built. */
    const boatId: uint32
    /** The static counter `s_seq`. */
    var seqNo: uint32
    /** Whether a publish address is set. */
    var provisioned: bool

    constructor (boatId: uint32)
      ensures this.boatId == boatId && seqNo == 0 && !provisioned
    {
      this.boatId := boatId;
      seqNo := 0;
      provisioned := false;
    }

    /**
      Build one telemetry frame for the record `t` in `out`, of which `cap` bytes may be used.
      The bytes are the ones a host would encode with the next sequence number.
     */
    method BuildTelemetryFrame(out: array<byte>, cap: nat, t: BcTelemetrySummaryV1) returns (total: nat)
      requires cap <= out.Length
      modifies this`seqNo, out
      ensures cap < TELEMETRY_FRAME_SIZE ==> total == 0 && seqNo == old(seqNo) && out[..] == old(out[..])
      ensures cap >= TELEMETRY_FRAME_SIZE ==>
        && total == TELEMETRY_FRAME_SIZE
        && seqNo as int == (old(seqNo) as int + 1) % 0x1_0000_0000
        && out[..total] == HostFrame(boatId as int, seqNo as int, HostRecord(t))
        && forall k :: total <= k < out.Length ==> out[k] == old(out[k])
    {
      hide Checksum, RecordMemory, HeaderMemory, WordBytes, HostFrame;
      var payloadLen := |RecordMemory(t)|;
      total := FRAME_HEADER_SIZE + payloadLen + 4;
      if cap < total {
        return 0;
      }
      seqNo := ((seqNo as int + 1) % 0x1_0000_0000) as uint32;
      FillHeader(out, boatId, seqNo, payloadLen);
      SetBytes(out, FRAME_HEADER_SIZE, RecordMemory(t));
      var crc := BcCrc32(out[..FRAME_HEADER_SIZE + payloadLen]);
      WriteCrc(out, total - 4, crc);
      NodeFrameIsHostFrame(boatId, seqNo, t);
    }

    /** The stores through the header pointer, one per field. */
    static method FillHeader(out: array<byte>, boatId: uint32, seqNo: uint32, payloadLen: nat)
      requires out.Length >= FRAME_HEADER_SIZE
      modifies out
      ensures out[..FRAME_HEADER_SIZE] == HeaderMemory(NodeHeader(boatId, seqNo, payloadLen))
      ensures forall k :: FRAME_HEADER_SIZE <= k < out.Length ==> out[k] == old(out[k])
    {
      hide Memory16, Memory32;
      out[0] := 0x42;
      out[1] := 0x54;
      out[2] := 0x43;
      out[3] := 0x31;
      out[4] := 1;
      out[5] := 1;
      out[6] := 0;
      out[7] := 0;
      assert out[..8] == [0x42, 0x54, 0x43, 0x31, 1, 1, 0, 0];
      Store32(out, 8, boatId);
      Store32(out, 12, seqNo);
      Store16(out, 16, (payloadLen % 0x1_0000) as uint16);
    }

    /** The timer's publish: nothing before provisioning, otherwise one frame to the mesh. */
    method PublishTelemetry(t: BcTelemetrySummaryV1) returns (message: Option<seq<byte>>)
      modifies this`seqNo
      ensures !provisioned ==> message == None && seqNo == old(seqNo)
      ensures provisioned ==>
        && seqNo as int == (old(seqNo) as int + 1) % 0x1_0000_0000
        && message == Some(HostFrame(boatId as int, seqNo as int, HostRecord(t)))
    {
      hide HostFrame;
      if !provisioned {
        return None;
      }
      var buf := new byte[TELEMETRY_FRAME_SIZE](_ => 0);
      var len := BuildTelemetryFrame(buf, TELEMETRY_FRAME_SIZE, t);
      message := Some(buf[..len]);
    }
  }

  /** A 16-bit store: two bytes, the low one first. */
  method Store16(out: array<byte>, at: nat, x: uint16)
    requires at + 2 <= out.Length
    modifies out
    ensures out[..at + 2] == old(out[..at]) + Memory16(x)
    ensures forall k :: at + 2 <= k < out.Length ==> out[k] == old(out[k])
  {
    out[at] := (x % 0x100) as byte;
    out[at + 1] := (x / 0x100) as byte;
  }

  /** A 32-bit store. */
  method Store32(out: array<byte>, at: nat, x: uint32)
    requires at + 4 <= out.Length
    modifies out
    ensures out[..at + 4] == old(out[..at]) + Memory32(x)
    ensures forall k :: at + 4 <= k < out.Length ==> out[k] == old(out[k])
  {
    hide Memory16;
    Store16(out, at, (x % 0x1_0000) as uint16);
    Store16(out, at + 2, (x / 0x1_0000) as uint16);
  }

  /** The four byte stores at the end of the frame builder. */
  method WriteCrc(out: array<byte>, at: nat, crc: bv32)
    requires at + 4 <= out.Length
    modifies out
    ensures out[..at + 4] == old(out[..at]) + WordBytes(crc)
    ensures forall k :: at + 4 <= k < out.Length ==> out[k] == old(out[k])
  {
    hide LowByte;
    out[at] := LowByte(crc);
    out[at + 1] := LowByte(crc >> 8);
    out[at + 2] := LowByte(crc >> 16);
    out[at + 3] := LowByte(crc >> 24);
  }

  // ---------- the gateway ----------

  datatype Opcode = BTC1_PUBLISH | OtherOpcode(code: nat)

  predicate FrameLooksValid(data: seq<byte>) {
    |data| >= 22 && data[0] == 0x42 && data[1] == 0x54 && data[2] == 0x43 && data[3] == 0x31
  }

  class Gateway {
    /** All bytes written to the serial line. */
    var uart: seq<byte>

    constructor ()
      ensures uart == []
    {
      uart := [];
    }

    method VendorRecv(opcode: Opcode, data: seq<byte>)
      modifies this
      ensures uart == old(uart) + Forwarded(opcode, data)
      ensures opcode != BTC1_PUBLISH || |data| < 22 || data[..4] != [0x42, 0x54, 0x43, 0x31] ==> uart == old(uart)
    {
      NoiseIsDropped(opcode, data);
      if opcode != BTC1_PUBLISH {
        return;
      }
      if !FrameLooksValid(data) {
        return;
      }
      uart := uart + data;
    }

    /** All access messages of a while, one after the other. */
    method ReceiveAll(messages: seq<Access>)
      modifies this
      ensures uart == old(uart) + Line(messages)
    {
      hide Forwarded;
      ghost var before := uart;
      assert uart == before + Line([]);
      assert messages[..0] == [];
      for i := 0 to |messages|
        invariant uart == before + Line(messages[..i])
      {
        VendorRecv(messages[i].opcode, messages[i].data);
        assert messages[..i + 1][..i] == messages[..i];
        assert (before + Line(messages[..i])) + Forwarded(messages[i].opcode, messages[i].data)
            == before + Line(messages[..i + 1]);
      }
      assert messages[..|messages|] == messages;
    }
  }

  /** An access message. */
  datatype Access = Access(opcode: Opcode, data: seq<byte>)

  /** What the gateway writes for one access message. */
  function Forwarded(opcode: Opcode, data: seq<byte>): seq<byte> {
    if opcode == BTC1_PUBLISH && FrameLooksValid(data) then data else []
  }

  /** What it writes for all of them. */
  function Line(messages: seq<Access>): seq<byte> {
    if messages == [] then []
    else
      var m := messages[|messages| - 1];
      Line(messages[..|messages| - 1]) + Forwarded(m.opcode, m.data)
  }

  /** What is not meant for the serial line: another opcode, too few bytes, or no magic. */
  predicate IsNoise(m: Access) {
    m.opcode != BTC1_PUBLISH || |m.data| < 22 || m.data[..4] != [0x42, 0x54, 0x43, 0x31]
  }

  /** The data of all other messages. */
  function Signals(messages: seq<Access>): seq<seq<byte>> {
    if messages == [] then []
    else
      var m := messages[|messages| - 1];
      var before := Signals(messages[..|messages| - 1]);
      if IsNoise(m) then before else before + [m.data]
  }

  /** Nothing is written for noise, and everything else is written unchanged. */
  lemma NoiseIsDropped(opcode: Opcode, data: seq<byte>)
    ensures IsNoise(Access(opcode, data)) ==> Forwarded(opcode, data) == []
    ensures !IsNoise(Access(opcode, data)) ==> Forwarded(opcode, data) == data
  {
    if |data| >= 4 {
      assert data[..4] == [data[0], data[1], data[2], data[3]];
    }
  }

  /** The filter lets through what could start a frame: it looks at length and magic only. */
  lemma FilterExact(data: seq<byte>)
    ensures FrameLooksValid(data) <==> |data| >= FRAME_HEADER_SIZE + CRC_SIZE && HasMagic(data)
  {}

  /** Every message that the host would accept, and every exact frame, passes the filter. */
  lemma FilterPassesFrames(data: seq<byte>)
    requires DecodeFrame(data).Ok? || IsExact(data)
    ensures Forwarded(BTC1_PUBLISH, data) == data
  {
    hide FromLE, ChecksumHolds, DecodeBody;
    FilterExact(data);
  }
}
