/**
  What the frame codec promises: encoding and decoding are inverse, frames delimit
  themselves, both decoding paths agree, and short bursts of damage are noticed.
 */
module FrameProperties {
  import opened Bits
  import opened Crc32
  import opened Wire
  import opened Payload
  import opened Frame

  // ---------- exact frames ----------

  function Zeros(n: nat): (s: seq<byte>)
    ensures |s| == n
  {
    seq(n, i => 0)
  }

  /** A byte string that is exactly one frame, intact or not. */
  predicate IsExact(b: seq<byte>) {
    |b| >= FRAME_HEADER_SIZE + CRC_SIZE && HasMagic(b) && DeclaredLen(b) <= MAX_PAYLOAD_LEN && |b| == FrameLen(b)
  }

  /** Frame and rest are the two parts of the buffer, cut at the announced length. */
  lemma SliceParts(b: seq<byte>)
    requires TrySliceOneFrame(b).Some?
    ensures var s := TrySliceOneFrame(b).value;
      s.frame + s.rest == b && |s.frame| == FrameLen(b)
  {
    hide DeclaredLen;
  }

  /** An accepted buffer starts with one full frame. */
  lemma AcceptedIsSliceable(b: seq<byte>)
    requires DecodeFrame(b).Ok?
    ensures TrySliceOneFrame(b).Some?
  {
    hide DeclaredLen, ChecksumHolds, HasMagic;
  }

  /** Exact frames are the ones that slicing returns, whatever follows them. */
  lemma SliceOfExact(f: seq<byte>, y: seq<byte>)
    requires IsExact(f)
    ensures TrySliceOneFrame(f + y) == Some(Sliced(f, y))
  {
    hide FromLE;
    assert (f + y)[16..18] == f[16..18];
    assert (f + y)[..4] == f[..4];
  }

  lemma SliceIsExact(b: seq<byte>)
    requires TrySliceOneFrame(b).Some?
    ensures IsExact(TrySliceOneFrame(b).value.frame)
  {
    hide FromLE;
    var f := TrySliceOneFrame(b).value.frame;
    assert f[16..18] == b[16..18];
    assert f[..4] == b[..4];
  }

  /** No exact frame is a proper prefix of another. */
  lemma SelfDelimiting(f: seq<byte>, g: seq<byte>)
    requires IsExact(f) && IsExact(g) && f <= g
    ensures f == g
  {
    hide FromLE;
    assert f[16..18] == g[16..18];
  }

  function Concat(parts: seq<seq<byte>>): seq<byte> {
    if parts == [] then [] else parts[0] + Concat(parts[1..])
  }

  ghost predicate AllExact(frames: seq<seq<byte>>) {
    forall i :: 0 <= i < |frames| ==> IsExact(frames[i])
  }

  /** A stream splits into exact frames in one way only. */
  lemma {:induction false} UniqueSplit(fs: seq<seq<byte>>, gs: seq<seq<byte>>)
    requires AllExact(fs) && AllExact(gs) && Concat(fs) == Concat(gs)
    ensures fs == gs
  {
    hide IsExact;
    if fs == [] || gs == [] {
      NotEmpty(fs);
      NotEmpty(gs);
    } else {
      var s := Concat(fs);
      assert fs[0] == s[..|fs[0]|] && gs[0] == s[..|gs[0]|];
      if |fs[0]| <= |gs[0]| {
        SelfDelimiting(fs[0], gs[0]);
      } else {
        SelfDelimiting(gs[0], fs[0]);
      }
      assert Concat(fs[1..]) == s[|fs[0]|..] == Concat(gs[1..]);
      UniqueSplit(fs[1..], gs[1..]);
      assert fs == [fs[0]] + fs[1..] && gs == [gs[0]] + gs[1..];
    }
  }

  lemma NotEmpty(fs: seq<seq<byte>>)
    requires AllExact(fs)
    ensures Concat(fs) == [] ==> fs == []
  {
    if fs != [] {
      assert IsExact(fs[0]);
    }
  }

  /** Decoding looks at one frame only: a datagram and the frame sliced from it decode alike. */
  lemma DecodeIgnoresTail(b: seq<byte>)
    requires TrySliceOneFrame(b).Some?
    ensures DecodeFrame(b) == DecodeFrame(TrySliceOneFrame(b).value.frame)
  {
    hide FromLE, WordAt, Checksum, DecodeTelemetrySummary;
    var f := TrySliceOneFrame(b).value.frame;
    var n := DeclaredLen(b);
    assert f == b[..FrameLen(b)];
    assert f[16..18] == b[16..18] && f[..4] == b[..4];
    assert f[18 + n..18 + n + 4] == b[18 + n..18 + n + 4];
    assert f[..18 + n] == b[..18 + n];
    assert f[18..18 + n] == b[18..18 + n];
    assert f[8..12] == b[8..12] && f[12..16] == b[12..16];
  }

  // ---------- encoding, then decoding ----------

  lemma HeaderFields(version: int, msgType: int, flags: int, boatId: int, seqNo: int, payloadLen: nat)
    ensures var h := HeaderBytes(version, msgType, flags, boatId, seqNo, payloadLen);
      && h[..4] == FRAME_MAGIC
      && h[4] as int == version % 256 && h[5] as int == msgType % 256 && h[6] as int == flags % 256 && h[7] == 0
      && h[8..12] == LE(boatId, 4) && h[12..16] == LE(seqNo, 4) && h[16..18] == LE(payloadLen, 2)
  {
    hide LE;
  }

  /** Inputs that the encoder does not refuse. */
  predicate Sendable(input: EncodeFrameInput) {
    |InputPayload(input)| <= MAX_PAYLOAD_LEN
  }

  /** The encoder refuses exactly the payloads over the limit. */
  lemma SendableExactly(input: EncodeFrameInput)
    ensures Sendable(input) <==> Encoded(input).Ok?
    ensures !Sendable(input) ==> Encoded(input) == Err(PAYLOAD_LENGTH)
  {}

  /** The parts of an encoded frame. */
  lemma EncodedParts(input: EncodeFrameInput)
    requires Sendable(input)
    ensures Encoded(input).Ok? && IsExact(Encoded(input).value)
    ensures ChecksumHolds(Encoded(input).value)
    ensures var b := Encoded(input).value; var p := InputPayload(input);
      && DeclaredLen(b) == |p| && b[18..18 + |p|] == p
      && b[4] as int == InputVersion(input) % 256 && b[5] as int == input.msgType % 256
      && b[6] as int == InputFlags(input) % 256 && b[7] == 0
      && FromLE(b[8..12]) == input.boatId % 0x1_0000_0000
      && FromLE(b[12..16]) == input.seqNo % 0x1_0000_0000
  {
    hide LE, FromLE, WordBytes, WordAt, Checksum, HeaderBytes, Range;
    var b := Encoded(input).value;
    var p := InputPayload(input);
    var h := HeaderBytes(InputVersion(input), input.msgType, InputFlags(input), input.boatId, input.seqNo, |p|);
    HeaderFields(InputVersion(input), input.msgType, InputFlags(input), input.boatId, input.seqNo, |p|);
    RangesKnown();
    FieldRoundTrip(input.boatId, 4);
    FieldRoundTrip(input.seqNo, 4);
    FieldRoundTrip(|p|, 2);
    assert b == h + p + WordBytes(Checksum(h + p));
    assert b[..4] == h[..4] && b[8..12] == h[8..12] && b[12..16] == h[12..16] && b[16..18] == h[16..18];
    assert b[..18 + |p|] == h + p;
    assert b[18 + |p|..18 + |p| + 4] == WordBytes(Checksum(h + p));
    WordRoundTrip(Checksum(h + p));
  }

  /** What a receiver should get from an input: the fields cut to their widths, or the reason it refuses them. */
  function Received(input: EncodeFrameInput): Result<DecodedFrame> {
    var msgType := input.msgType % 256;
    var p := InputPayload(input);
    var base := DecodedFrame(
      1, msgType, InputFlags(input) % 256, input.boatId % 0x1_0000_0000, input.seqNo % 0x1_0000_0000, p, None);
    if InputVersion(input) % 256 != PROTOCOL_VERSION then Err(VERSION)
    else if msgType == HEARTBEAT then
      if p == [] then Ok(base) else Err(PAYLOAD_LENGTH)
    else if msgType == TELEMETRY_SUMMARY then
      if |p| != 26 then Err(TELEMETRY_PAYLOAD_SIZE)
      else Ok(base.(telemetry := Some(DecodeTelemetrySummary(p).value)))
    else Ok(base)
  }

  /** Decoding an encoded frame returns the fields reduced modulo their wire widths. */
  lemma DecodeOfEncoded(input: EncodeFrameInput)
    requires Sendable(input)
    ensures DecodeFrame(Encoded(input).value) == Received(input)
  {
    hide FromLE, ChecksumHolds, Encoded, HasMagic, DeclaredLen;
    EncodedParts(input);
  }

  lemma TelemetryFits(flags: Option<int>, boatId: int, seqNo: int, t: TelemetrySummary)
    ensures Sendable(TelemetryInput(None, flags, boatId, seqNo, t))
    ensures Encoded(TelemetryInput(None, flags, boatId, seqNo, t)).Ok?
  {
    hide TelemetryBytes, Sealed, InputBody;
    assert |InputPayload(TelemetryInput(None, flags, boatId, seqNo, t))| == 26;
  }

  /** A heartbeat sent as a version 1 frame arrives. */
  lemma HeartbeatArrives(flags: Option<int>, boatId: int, seqNo: int)
    ensures var r := Encoded(EncodeFrameInput(None, HEARTBEAT, flags, boatId, seqNo, Some([])));
      && r.Ok? && |r.value| == 22
      && DecodeFrame(r.value) == Ok(DecodedFrame(
           1, 0, OrElse(flags, 0) % 256, boatId % 0x1_0000_0000, seqNo % 0x1_0000_0000, [], None))
  {
    hide DecodeFrame, Encoded, FromLE, ChecksumHolds;
    EncodedParts(EncodeFrameInput(None, HEARTBEAT, flags, boatId, seqNo, Some([])));
    DecodeOfEncoded(EncodeFrameInput(None, HEARTBEAT, flags, boatId, seqNo, Some([])));
  }

  /** A telemetry summary sent as a version 1 frame arrives with every field cut to its width. */
  lemma TelemetryArrives(flags: Option<int>, boatId: int, seqNo: int, t: TelemetrySummary)
    ensures Encoded(TelemetryInput(None, flags, boatId, seqNo, t)).Ok?
    ensures DecodeFrame(Encoded(TelemetryInput(None, flags, boatId, seqNo, t)).value) == Ok(DecodedFrame(
      1, 1, OrElse(flags, 0) % 256, boatId % 0x1_0000_0000, seqNo % 0x1_0000_0000, TelemetryBytes(t),
      Some(OnTheWire(t))))
  {
    hide TelemetryBytes, DecodeTelemetrySummary, DecodeFrame, Encoded, OnTheWire;
    TelemetryFits(flags, boatId, seqNo, t);
    DecodeOfEncoded(TelemetryInput(None, flags, boatId, seqNo, t));
    TelemetryRoundTrip(t);
  }

  // ---------- decoding, then encoding ----------

  /** The input that asks for a decoded frame to be sent again. */
  function AgainInput(f: DecodedFrame): EncodeFrameInput {
    EncodeFrameInput(Some(f.version), f.msgType, Some(f.flags), f.boatId, f.seqNo, Some(f.rawPayload))
  }

  /** The header of a decoded frame, written again, is the received one except for the reserved byte. */
  lemma HeaderRewrite(b: seq<byte>)
    requires |b| >= FRAME_HEADER_SIZE && HasMagic(b)
    ensures HeaderBytes(b[4] as int, b[5] as int, b[6] as int, FromLE(b[8..12]), FromLE(b[12..16]), DeclaredLen(b))
         == b[..18][7 := 0]
  {
    hide LE, FromLE;
    FieldRewrite(b[8..12]);
    FieldRewrite(b[12..16]);
    FieldRewrite(b[16..18]);
    var h := HeaderBytes(b[4] as int, b[5] as int, b[6] as int, FromLE(b[8..12]), FromLE(b[12..16]), DeclaredLen(b));
    assert h[..4] == b[..4];
    assert h[8..12] == b[8..12] && h[12..16] == b[12..16] && h[16..18] == b[16..18];
    assert h == h[..4] + h[4..8] + h[8..12] + h[12..16] + h[16..18];
    assert b[..18] == b[..4] + b[4..8] + b[8..12] + b[12..16] + b[16..18];
  }

  /** The fields of an accepted frame. */
  lemma DecodedParts(b: seq<byte>, f: DecodedFrame)
    requires DecodeFrame(b) == Ok(f)
    ensures TrySliceOneFrame(b).Some? && ChecksumHolds(b)
    ensures f.version == b[4] as nat && f.msgType == b[5] as nat && f.flags == b[6] as nat
    ensures f.boatId == FromLE(b[8..12]) && f.seqNo == FromLE(b[12..16])
    ensures f.rawPayload == b[18..18 + DeclaredLen(b)]
    ensures |f.rawPayload| <= MAX_PAYLOAD_LEN
  {
    hide FromLE, ChecksumHolds, DecodeTelemetrySummary;
  }

  /**
    Sending a decoded frame again reproduces its bytes exactly when the reserved byte was zero,
    which decoding does not check.
   */
  lemma EncodeOfDecoded(b: seq<byte>, f: DecodedFrame)
    requires DecodeFrame(b) == Ok(f)
    ensures TrySliceOneFrame(b).Some? && Encoded(AgainInput(f)).Ok?
    ensures Encoded(AgainInput(f)).value == TrySliceOneFrame(b).value.frame <==> b[7] == 0
  {
    hide LE, FromLE, WordBytes, WordAt, Checksum, HeaderBytes, DecodeFrame;
    DecodedParts(b, f);
    var n := DeclaredLen(b);
    var body := InputBody(AgainInput(f));
    HeaderRewrite(b);
    assert body == b[..18][7 := 0] + b[18..18 + n];
    var e := Encoded(AgainInput(f)).value;
    assert e[7] == 0;
    if b[7] == 0 {
      assert body == b[..18 + n];
      WordRewrite(b[18 + n..18 + n + 4]);
      assert b[..FrameLen(b)] == b[..18 + n] + b[18 + n..18 + n + 4];
    } else {
      assert b[..FrameLen(b)][7] != 0;
    }
  }

  /** A body with a magic and a true length, once sealed, is exact and passes the checksum. */
  lemma SealedIsExact(body: seq<byte>)
    requires |body| >= FRAME_HEADER_SIZE && HasMagic(body) && |body| == FRAME_HEADER_SIZE + DeclaredLen(body)
    requires DeclaredLen(body) <= MAX_PAYLOAD_LEN
    ensures IsExact(Sealed(body)) && ChecksumHolds(Sealed(body)) && DeclaredLen(Sealed(body)) == DeclaredLen(body)
  {
    hide FromLE, WordBytes, WordAt, Checksum;
    var b := Sealed(body);
    assert b[..4] == body[..4] && b[16..18] == body[16..18];
    assert b[..|body|] == body;
    assert b[|body|..|body| + 4] == WordBytes(Checksum(body));
    WordRoundTrip(Checksum(body));
  }

  /** Decoding ignores the reserved byte, as long as the checksum covers the byte that was sent. */
  lemma ReservedIgnored(body: seq<byte>, r: byte)
    requires |body| >= FRAME_HEADER_SIZE && HasMagic(body) && |body| == FRAME_HEADER_SIZE + DeclaredLen(body)
    requires DeclaredLen(body) <= MAX_PAYLOAD_LEN
    ensures DecodeFrame(Sealed(body[7 := r])) == DecodeFrame(Sealed(body))
  {
    hide FromLE, WordBytes, Checksum, ChecksumHolds, DecodeTelemetrySummary;
    var other := body[7 := r];
    assert other[..4] == body[..4] && other[16..18] == body[16..18];
    SealedIsExact(body);
    SealedIsExact(other);
    var x, y := Sealed(body), Sealed(other);
    assert x[..4] == y[..4] && x[8..12] == y[8..12] && x[12..16] == y[12..16];
    assert x[18..18 + DeclaredLen(body)] == y[18..18 + DeclaredLen(body)];
  }

  /**
    Every encoded frame that is accepted has 255 twins with another reserved byte, which decode to
    the same frame and are not restored when that frame is encoded again.
   */
  lemma ReservedByteAccepted(input: EncodeFrameInput, r: byte)
    requires Sendable(input) && Received(input).Ok? && r != 0
    ensures var b := Sealed(InputBody(input)[7 := r]);
      && IsExact(b) && DecodeFrame(b) == Ok(Received(input).value)
      && Encoded(AgainInput(Received(input).value)).Ok?
      && Encoded(AgainInput(Received(input).value)).value != b
  {
    hide FromLE, WordBytes, Checksum, ChecksumHolds, DecodeFrame, HeaderBytes, Received, AgainInput;
    var body := InputBody(input);
    EncodedParts(input);
    DecodeOfEncoded(input);
    var e := Encoded(input).value;
    assert body[..4] == e[..4] && body[16..18] == e[16..18];
    ReservedIgnored(body, r);
    var other := body[7 := r];
    assert other[..4] == body[..4] && other[16..18] == body[16..18];
    SealedIsExact(other);
    var b := Sealed(other);
    EncodeOfDecoded(b, Received(input).value);
    SliceOfExact(b, []);
    assert b + [] == b;
    assert b[7] == r;
  }

  // ---------- bursts ----------

  lemma {:induction false} BitStringAppend(a: seq<byte>, b: seq<byte>)
    ensures BitString(a + b) == BitString(a) + BitString(b)
  {
    hide Digits;
    if a == [] {
      assert a + b == b;
    } else {
      assert (a + b)[1..] == a[1..] + b;
      BitStringAppend(a[1..], b);
    }
  }

  lemma {:induction false} BitStringInjective(a: seq<byte>, b: seq<byte>)
    requires BitString(a) == BitString(b)
    ensures a == b
  {
    hide Digits;
    if a != [] && b != [] {
      var x, y := BitString(a), BitString(b);
      assert Digits(a[0] as nat, 8) == x[..8] && Digits(b[0] as nat, 8) == y[..8];
      assert Pow2(8) == 256;
      NumberOfDigits(a[0] as nat, 8);
      NumberOfDigits(b[0] as nat, 8);
      assert BitString(a[1..]) == x[8..] && BitString(b[1..]) == y[8..];
      BitStringInjective(a[1..], b[1..]);
      assert a == [a[0]] + a[1..] && b == [b[0]] + b[1..];
    }
  }

  lemma ExactResidue(f: seq<byte>)
    requires IsExact(f)
    ensures ChecksumHolds(f) <==> Register(ALL_ONES, f) == Residue()
  {
    hide FromLE, WordAt, Checksum, Register, Residue;
    var n := DeclaredLen(f);
    assert f == f[..18 + n] + f[18 + n..18 + n + 4];
    ChecksumIffResidue(f[..18 + n], f[18 + n..18 + n + 4]);
  }

  /** Two different exact frames that differ within 32 bits do not both have a good checksum. */
  lemma BurstBreaksChecksum(f: seq<byte>, g: seq<byte>, lo: nat, hi: nat)
    requires IsExact(f) && ChecksumHolds(f) && IsExact(g)
    requires |g| == |f| && g != f
    requires lo <= hi <= 8 * |f| && hi - lo <= 32 && AgreeOutside(BitString(f), BitString(g), lo, hi)
    ensures !ChecksumHolds(g)
  {
    hide FromLE, Register, Residue, ChecksumHolds, BitString, HasMagic, Serial;
    if ChecksumHolds(g) {
      ExactResidue(f);
      ExactResidue(g);
      RegisterIsSerial(ALL_ONES, f);
      RegisterIsSerial(ALL_ONES, g);
      BurstChangesRegister(ALL_ONES, BitString(f), BitString(g), lo, hi);
      BitStringInjective(f, g);
    }
  }

  /** Why a damaged frame that was sent with `n` bytes of payload is refused, read off its bytes. */
  function DamageCode(g: seq<byte>, n: nat): ErrorCode
    requires |g| >= 22
  {
    if g[..4] != [0x42, 0x54, 0x43, 0x31] then MAGIC
    else if g[4] != 1 then VERSION
    else if DeclaredLen(g) > 2048 then PAYLOAD_LENGTH
    else if DeclaredLen(g) > n then TRUNCATED
    else CRC
  }

  /** The code of a frame whose checksum is bad wherever it is looked for. */
  lemma DamageDecodes(g: seq<byte>, n: nat)
    requires |g| == 22 + n
    requires DeclaredLen(g) <= n && DeclaredLen(g) <= 2048 && HasMagic(g) ==> !ChecksumHolds(g)
    ensures DecodeFrame(g) == Err(DamageCode(g, n))
  {
    hide FromLE, ChecksumHolds;
  }

  /**
    Damage confined to 32 consecutive bits of a frame with a good checksum, wherever it falls, is
    always noticed unless it makes the frame announce a shorter payload, and the error code tells
    what it hit.
   */
  lemma BurstDetected(f: seq<byte>, g: seq<byte>, lo: nat, hi: nat)
    requires IsExact(f) && ChecksumHolds(f)
    requires |g| == |f| && g != f
    requires lo <= hi <= 8 * |f| && hi - lo <= 32 && AgreeOutside(BitString(f), BitString(g), lo, hi)
    requires DeclaredLen(g) >= DeclaredLen(f)
    ensures DecodeFrame(g) == Err(DamageCode(g, DeclaredLen(f)))
  {
    hide FromLE, ChecksumHolds, BitString, HasMagic, DamageCode, DecodeFrame;
    if HasMagic(g) && DeclaredLen(g) <= DeclaredLen(f) {
      assert IsExact(g);
      BurstBreaksChecksum(f, g, lo, hi);
    }
    DamageDecodes(g, DeclaredLen(f));
  }

  /** The same for every frame the encoder produces. */
  lemma EncodedBurstDetected(input: EncodeFrameInput, g: seq<byte>, lo: nat, hi: nat)
    requires Sendable(input)
    requires |g| == |Encoded(input).value| && g != Encoded(input).value
    requires lo <= hi <= 8 * |g| && hi - lo <= 32
    requires AgreeOutside(BitString(Encoded(input).value), BitString(g), lo, hi)
    requires |g| >= FRAME_HEADER_SIZE + CRC_SIZE && DeclaredLen(g) >= |InputPayload(input)|
    ensures DecodeFrame(g) == Err(DamageCode(g, |InputPayload(input)|))
  {
    hide FromLE, ChecksumHolds, BitString, DecodeFrame, Encoded, DamageCode;
    EncodedParts(input);
    BurstDetected(Encoded(input).value, g, lo, hi);
  }

  /**
    What the codes mean: of a version 1 frame that keeps its length, a burst in the magic gives
    `MAGIC`, one that spares the magic and changes the version gives `VERSION`, any other `CRC`.
   */
  lemma BurstCodes(input: EncodeFrameInput, g: seq<byte>, lo: nat, hi: nat)
    requires Sendable(input) && InputVersion(input) % 256 == 1
    requires |g| == |Encoded(input).value| && g != Encoded(input).value
    requires lo <= hi <= 8 * |g| && hi - lo <= 32
    requires AgreeOutside(BitString(Encoded(input).value), BitString(g), lo, hi)
    requires |g| >= 22 && g[16..18] == Encoded(input).value[16..18]
    ensures var f := Encoded(input).value;
      DecodeFrame(g) == Err(if g[..4] != f[..4] then MAGIC else if g[4] != f[4] then VERSION else CRC)
  {
    hide FromLE, ChecksumHolds, BitString, DecodeFrame, Encoded;
    EncodedParts(input);
    EncodedBurstDetected(input, g, lo, hi);
    assert Encoded(input).value[..4] == FRAME_MAGIC;
  }

  /** A frame that is cut short anywhere is refused as truncated. */
  lemma PrefixTruncated(input: EncodeFrameInput, k: nat)
    requires Sendable(input) && InputVersion(input) % 256 == 1 && k < |Encoded(input).value|
    ensures DecodeFrame(Encoded(input).value[..k]) == Err(TRUNCATED)
  {
    hide FromLE, ChecksumHolds, Encoded;
    EncodedParts(input);
    var f := Encoded(input).value;
    if k >= 22 {
      assert f[..k][..4] == f[..4] && f[..k][16..18] == f[16..18];
    }
  }

  /**
    In particular, replacing up to four consecutive bytes of an encoded frame, anywhere but in the
    announced length, is always noticed.
   */
  lemma ReplacedBytesDetected(input: EncodeFrameInput, k: nat, bytes: seq<byte>)
    requires Sendable(input)
    requires |bytes| <= 4 && k + |bytes| <= FRAME_HEADER_SIZE + |InputPayload(input)| + CRC_SIZE
    requires k + |bytes| <= 16 || k >= 18
    ensures Encoded(input).Ok? && |Encoded(input).value| == FRAME_HEADER_SIZE + |InputPayload(input)| + CRC_SIZE
    ensures var f := Encoded(input).value; var g := f[..k] + bytes + f[k + |bytes|..];
      g != f ==> DecodeFrame(g) == Err(DamageCode(g, |InputPayload(input)|))
  {
    hide FromLE, ChecksumHolds, BitString, DecodeFrame, InputBody, WordBytes, Checksum, DamageCode;
    EncodedParts(input);
    var f := Encoded(input).value;
    var m := k + |bytes|;
    var g := f[..k] + bytes + f[m..];
    if g != f {
      assert g[16..18] == f[16..18];
      assert f == f[..k] + (f[k..m] + f[m..]);
      assert g == f[..k] + (bytes + f[m..]);
      SamePartsAround(f[..k], f[k..m], bytes, f[m..]);
      BurstDetected(f, g, 8 * k, 8 * m);
    }
  }

  /**
    A payload is refused exactly when it has more than 2048 bytes; up to that the frame goes through
    encoding, slicing and decoding. A frame without a payload announces 0 bytes.
   */
  lemma PayloadLimit(input: EncodeFrameInput)
    ensures |InputPayload(input)| <= 2048 ==>
      && Encoded(input).Ok? && |Encoded(input).value| == 22 + |InputPayload(input)|
      && TrySliceOneFrame(Encoded(input).value) == Some(Sliced(Encoded(input).value, []))
      && (InputVersion(input) % 256 == 1 && input.msgType % 256 > 1 ==>
            && DecodeFrame(Encoded(input).value).Ok?
            && DecodeFrame(Encoded(input).value).value.rawPayload == InputPayload(input))
    ensures |InputPayload(input)| > 2048 ==> Encoded(input) == Err(PAYLOAD_LENGTH)
    ensures input.payload.None? ==>
      && Encoded(input).Ok? && |Encoded(input).value| == 22 && DeclaredLen(Encoded(input).value) == 0
  {
    hide FromLE, ChecksumHolds, Encoded, DecodeFrame, TrySliceOneFrame;
    SendableExactly(input);
    if Sendable(input) {
      EncodedParts(input);
      DecodeOfEncoded(input);
      SliceOfExact(Encoded(input).value, []);
      assert Encoded(input).value + [] == Encoded(input).value;
    }
  }

  // ---------- around the length field ----------

  lemma SameHeader(e: seq<byte>, tail: seq<byte>)
    requires |e| >= FRAME_HEADER_SIZE
    ensures DeclaredLen(e + tail) == DeclaredLen(e)
  {
    hide FromLE;
    assert (e + tail)[16..18] == e[16..18];
  }

  lemma SameAround(f: seq<byte>, g: seq<byte>)
    requires |f| == |g| >= 18 && f[..16] == g[..16] && f[18..] == g[18..]
    ensures AgreeOutside(BitString(f), BitString(g), 128, 144)
  {
    hide BitString, AgreeOutside;
    assert f == f[..16] + (f[16..18] + f[18..]);
    assert g == f[..16] + (g[16..18] + f[18..]);
    SamePartsAround(f[..16], f[16..18], g[16..18], f[18..]);
  }

  lemma SamePartsAround(a: seq<byte>, x: seq<byte>, y: seq<byte>, z: seq<byte>)
    requires |x| == |y|
    ensures var lo := 8 * |a|; AgreeOutside(BitString(a + (x + z)), BitString(a + (y + z)), lo, lo + 8 * |x|)
  {
    hide BitString;
    BitStringAppend(a, x + z);
    BitStringAppend(x, z);
    BitStringAppend(a, y + z);
    BitStringAppend(y, z);
  }
}
