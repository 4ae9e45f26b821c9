/**
  Damage to the announced length. A frame that announces a shorter payload than it was sent with is
  checked against other bytes than its trailer. Whether that can go unnoticed depends on the two
  lengths alone.
 */
module LengthDamage {
  import opened Bits
  import opened Crc32
  import opened Wire
  import opened Frame
  import opened FrameProperties

  // ---------- how a difference travels through the register ----------

  lemma XorMoves(c: bv32, e: bv32, w: bv32)
    ensures Xor(Xor(c, e), w) == Xor(Xor(c, w), e)
  {
    hide Xor;
    XorAssociative(c, e, w);
    XorAssociative(c, w, e);
    XorCommutes(e, w);
  }

  /** A difference in the register is only shifted by data that is the same on both sides. */
  lemma {:induction false} RegisterLinear(c: bv32, e: bv32, data: seq<byte>)
    ensures Register(Xor(c, e), data) == Xor(Register(c, data), Steps(e, 8 * |data|))
    decreases data
  {
    hide Xor, Steps, Word;
    if data == [] {
      NoSteps(e);
    } else {
      var w := Word(data[0]);
      XorMoves(c, e, w);
      StepsLinear(Xor(c, w), e, 8);
      RegisterLinear(Steps(Xor(c, w), 8), Steps(e, 8), data[1..]);
      StepsAdd(e, 8, 8 * |data[1..]|);
    }
  }

  /** The register after at most four bytes: all their bits first, then the shifts. */
  lemma RegisterOfFew(c: bv32, z: seq<byte>)
    requires |z| <= 4
    ensures Register(c, z) == Steps(Xor(c, Pack(BitString(z))), 8 * |z|)
  {
    hide Register, Steps, Xor, Pack, BitString, Serial;
    RegisterIsSerial(c, z);
    SerialSteps(c, BitString(z));
  }

  /** The difference that two field values make, two bytes later. */
  function FieldDelta(x: seq<byte>, y: seq<byte>): bv32 {
    Steps(Xor(Pack(BitString(x)), Pack(BitString(y))), 16)
  }

  lemma XorDifference(c: bv32, p: bv32, q: bv32)
    ensures Xor(c, p) == Xor(Xor(c, q), Xor(p, q))
  {
    hide Xor;
    XorAssociative(c, q, Xor(p, q));
    XorCommutes(p, q);
    XorTwice(q, p);
  }

  lemma FieldDiffers(c: bv32, x: seq<byte>, y: seq<byte>)
    requires |x| == |y| == 2
    ensures Register(c, x) == Xor(Register(c, y), FieldDelta(x, y))
  {
    hide Register, Steps, Xor, Pack, BitString;
    RegisterOfFew(c, x);
    RegisterOfFew(c, y);
    var p, q := Pack(BitString(x)), Pack(BitString(y));
    XorDifference(c, p, q);
    StepsLinear(Xor(c, q), Xor(p, q), 16);
  }

  /**
    When the bytes with the field `y` leave the residue, those with `x` and more bytes `z` leave it
    exactly if `z` makes up for the difference.
   */
  lemma ResidueAgain(a: seq<byte>, x: seq<byte>, y: seq<byte>, b: seq<byte>, z: seq<byte>)
    requires |x| == |y| == 2
    requires Register(ALL_ONES, a + (y + b)) == Residue()
    ensures Register(ALL_ONES, a + (x + (b + z)))
         == Register(Xor(Residue(), Steps(FieldDelta(x, y), 8 * |b|)), z)
  {
    hide Register, Steps, Xor, FieldDelta, Residue;
    var r := Register(ALL_ONES, a);
    RegisterAppend(ALL_ONES, a, y + b);
    RegisterAppend(r, y, b);
    RegisterAppend(ALL_ONES, a, x + (b + z));
    RegisterAppend(r, x, b + z);
    RegisterAppend(Register(r, x), b, z);
    FieldDiffers(r, x, y);
    RegisterLinear(Register(r, y), FieldDelta(x, y), b);
  }

  // ---------- which lengths can be confused ----------

  /** What the length field contributes to the register when `n` stands there instead of `m`. */
  function Delta(n: nat, m: nat): bv32 {
    FieldDelta(LE(n, 2), LE(m, 2))
  }

  /** The register behind `m` bytes of payload and their checksum, if the length said `n` all the while. */
  function Shifted(n: nat, m: nat): bv32 {
    Xor(Residue(), Steps(Delta(n, m), 32 + 8 * m))
  }

  /** Some bytes between the shorter and the longer end lead the register back to the residue. */
  ghost predicate Confusable(n: nat, m: nat) {
    m < n && exists z: seq<byte> :: |z| == n - m && Register(Shifted(n, m), z) == Residue()
  }

  /** `g` is `f` except perhaps for the announced length. */
  ghost predicate LengthDamaged(f: seq<byte>, g: seq<byte>) {
    |f| == |g| && |f| >= FRAME_HEADER_SIZE && f[..16] == g[..16] && f[18..] == g[18..]
  }

  lemma LengthField(f: seq<byte>)
    requires |f| >= FRAME_HEADER_SIZE
    ensures f[16..18] == LE(DeclaredLen(f), 2)
  {
    hide LE, FromLE;
    FieldRewrite(f[16..18]);
  }

  /** A frame that passes the check with a shorter length than it was sent with has confusable lengths. */
  lemma PassingIsConfusable(f: seq<byte>, g: seq<byte>)
    requires IsExact(f) && ChecksumHolds(f) && LengthDamaged(f, g)
    requires DeclaredLen(g) < DeclaredLen(f) && ChecksumHolds(g)
    ensures Confusable(DeclaredLen(f), DeclaredLen(g))
  {
    hide Register, Residue, Checksum, WordAt, LE, FromLE, FieldDelta, Steps, Xor;
    var n, m := DeclaredLen(f), DeclaredLen(g);
    var a, x, y := f[..16], f[16..18], g[16..18];
    var b, z := f[18..22 + m], f[22 + m..];
    ExactResidue(f);
    LengthField(f);
    LengthField(g);
    ShorterParts(f, g, m);
    assert Register(ALL_ONES, a + (y + b)) == Residue() by {
      ChecksumIffResidue(g[..18 + m], g[18 + m..22 + m]);
    }
    ResidueAgain(a, x, y, b, z);
    assert |z| == n - m;
    assert 8 * |b| == 32 + 8 * m;
  }

  lemma ShorterParts(f: seq<byte>, g: seq<byte>, m: nat)
    requires LengthDamaged(f, g) && 22 + m <= |f|
    ensures f == f[..16] + (f[16..18] + (f[18..22 + m] + f[22 + m..]))
    ensures g[..18 + m] + g[18 + m..22 + m] == f[..16] + (g[16..18] + f[18..22 + m])
  {
    assert g[18..22 + m] == g[18..][..4 + m] == f[18..][..4 + m] == f[18..22 + m];
    assert g[..18 + m] + g[18 + m..22 + m] == g[..22 + m] == g[..16] + (g[16..18] + g[18..22 + m]);
  }

  /** Damage to the length alone is noticed unless the two lengths are confusable. */
  lemma LengthDamageDetected(f: seq<byte>, g: seq<byte>)
    requires IsExact(f) && ChecksumHolds(f) && LengthDamaged(f, g) && f != g
    requires !Confusable(DeclaredLen(f), DeclaredLen(g))
    ensures DecodeFrame(g) == Err(DamageCode(g, DeclaredLen(f)))
  {
    hide ChecksumHolds, Confusable, FromLE, DecodeFrame, BitString, DamageCode;
    if DeclaredLen(g) < DeclaredLen(f) {
      if ChecksumHolds(g) {
        PassingIsConfusable(f, g);
      }
      DamageDecodes(g, DeclaredLen(f));
    } else {
      SameAround(f, g);
      BurstDetected(f, g, 128, 144);
    }
  }

  /** The 16 bytes before the length, the length, and what follows it. */
  function Framed(a: seq<byte>, n: nat, rest: seq<byte>): seq<byte> {
    a + (LE(n, 2) + rest)
  }

  /** A payload with the checksum that a frame ending there should have, and more bytes. */
  function Tail(a: seq<byte>, p: seq<byte>, z: seq<byte>): seq<byte> {
    p + WordBytes(Checksum(Framed(a, |p|, p))) + z
  }

  lemma FramedParts(a: seq<byte>, n: nat, rest: seq<byte>)
    requires |a| == 16 && a[..4] == FRAME_MAGIC && n <= MAX_PAYLOAD_LEN
    ensures var f := Framed(a, n, rest);
      && |f| == 18 + |rest| && f[..16] == a && f[18..] == rest
      && HasMagic(f) && DeclaredLen(f) == n
  {
    hide LE, FromLE;
    SmallRoundTrip(n);
    var f := Framed(a, n, rest);
    assert f[..4] == a[..4];
    assert f[16..18] == LE(n, 2);
  }

  /** Every such pair passes the check, for confusable lengths and the bytes that make them so. */
  lemma ConfusablePasses(a: seq<byte>, n: nat, p: seq<byte>, z: seq<byte>)
    requires |a| == 16 && a[..4] == FRAME_MAGIC && |p| < n <= MAX_PAYLOAD_LEN
    requires |z| == n - |p| && Register(Shifted(n, |p|), z) == Residue()
    ensures var f, g := Framed(a, n, Tail(a, p, z)), Framed(a, |p|, Tail(a, p, z));
      && IsExact(f) && ChecksumHolds(f) && DeclaredLen(f) == n
      && LengthDamaged(f, g) && DeclaredLen(g) == |p| && TrySliceOneFrame(g).Some? && ChecksumHolds(g)
  {
    hide Register, Residue, Checksum, WordAt, WordBytes, LE, FromLE, FieldDelta, Steps, Xor, ChecksumHolds, DeclaredLen,
      HasMagic, Framed;
    var m := |p|;
    var body := Framed(a, m, p);
    var w := WordBytes(Checksum(body));
    FramedParts(a, n, Tail(a, p, z));
    FramedParts(a, m, Tail(a, p, z));
    FramedParts(a, m, p);
    ShortFrameHolds(body, z);
    FramedLonger(a, m, p, w, z);
    ResidueOfSealed(body);
    ResidueOfLong(a, n, p, w, z);
    ExactResidue(Framed(a, n, Tail(a, p, z)));
  }

  lemma FramedLonger(a: seq<byte>, m: nat, p: seq<byte>, w: seq<byte>, z: seq<byte>)
    ensures Framed(a, m, p) + w + z == Framed(a, m, p + w + z)
    ensures Framed(a, m, p) + w == a + (LE(m, 2) + (p + w))
  {
    hide LE;
  }

  lemma ResidueOfSealed(body: seq<byte>)
    ensures Register(ALL_ONES, body + WordBytes(Checksum(body))) == Residue()
  {
    hide Register, Residue, Checksum, WordAt, WordBytes;
    WordRoundTrip(Checksum(body));
    ChecksumIffResidue(body, WordBytes(Checksum(body)));
  }

  lemma ResidueOfLong(a: seq<byte>, n: nat, p: seq<byte>, w: seq<byte>, z: seq<byte>)
    requires |w| == 4 && Register(ALL_ONES, Framed(a, |p|, p) + w) == Residue()
    requires Register(Shifted(n, |p|), z) == Residue()
    ensures Register(ALL_ONES, Framed(a, n, p + w + z)) == Residue()
  {
    hide Register, Residue, LE, FieldDelta, Steps, Xor;
    FramedLonger(a, |p|, p, w, z);
    ResidueAgain(a, LE(n, 2), LE(|p|, 2), p + w, z);
    assert 8 * |p + w| == 32 + 8 * |p|;
  }

  lemma SmallRoundTrip(n: nat)
    requires n <= MAX_PAYLOAD_LEN
    ensures FromLE(LE(n, 2)) == n
  {
    hide LE, FromLE;
    RangesKnown();
    FieldRoundTrip(n, 2);
  }

  lemma ShortFrameHolds(body: seq<byte>, z: seq<byte>)
    requires |body| >= FRAME_HEADER_SIZE && HasMagic(body) && |body| == FRAME_HEADER_SIZE + DeclaredLen(body)
    requires DeclaredLen(body) <= MAX_PAYLOAD_LEN
    ensures var g := Sealed(body) + z;
      TrySliceOneFrame(g).Some? && ChecksumHolds(g) && DeclaredLen(g) == DeclaredLen(body)
  {
    hide FromLE, WordAt, WordBytes, Checksum;
    SealedIsExact(body);
    var e := Sealed(body);
    SliceOfExact(e, z);
    SameHeader(e, z);
    var k := |body|;
    assert (e + z)[..k] == e[..k] && (e + z)[k..k + 4] == e[k..k + 4];
  }

  /** An accepted frame and what is left of it when its length is damaged, accepted as well. */
  ghost predicate AcceptedPair(f: seq<byte>, g: seq<byte>, n: nat, m: nat) {
    && IsExact(f) && LengthDamaged(f, g) && DeclaredLen(f) == n && DeclaredLen(g) == m
    && DecodeFrame(f).Ok? && DecodeFrame(g).Ok?
  }

  lemma DecodedByType(b: seq<byte>)
    requires TrySliceOneFrame(b).Some? && ChecksumHolds(b) && b[4] == 1 && b[5] > 1
    ensures DecodeFrame(b).Ok? && |DecodeFrame(b).value.rawPayload| == DeclaredLen(b)
  {
    hide ChecksumHolds, FromLE;
  }

  /** With a message type that promises nothing about the payload, both frames are accepted and decode differently. */
  lemma ConfusableAccepted(a: seq<byte>, n: nat, p: seq<byte>, z: seq<byte>)
    requires |a| == 16 && a[..4] == FRAME_MAGIC && a[4] == 1 && a[5] > 1 && |p| < n <= MAX_PAYLOAD_LEN
    requires |z| == n - |p| && Register(Shifted(n, |p|), z) == Residue()
    ensures var f, g := Framed(a, n, Tail(a, p, z)), Framed(a, |p|, Tail(a, p, z));
      AcceptedPair(f, g, n, |p|) && DecodeFrame(f) != DecodeFrame(g)
  {
    hide Register, Residue, Shifted, ChecksumHolds, FromLE, DecodeFrame, Framed, Tail, HasMagic;
    var f, g := Framed(a, n, Tail(a, p, z)), Framed(a, |p|, Tail(a, p, z));
    ConfusablePasses(a, n, p, z);
    FramedParts(a, n, Tail(a, p, z));
    FramedParts(a, |p|, Tail(a, p, z));
    assert f[..16] == a == g[..16];
    assert f[4] == a[4] && f[5] == a[5] && g[4] == a[4] && g[5] == a[5];
    SliceOfExact(f, []);
    assert f + [] == f;
    DecodedByType(f);
    DecodedByType(g);
  }

  /** Damage to the length field can turn an accepted frame into another exactly for confusable lengths. */
  lemma LengthDamageExactly(n: nat, m: nat)
    requires n != m && n <= MAX_PAYLOAD_LEN
    ensures Confusable(n, m) <==> exists f, g :: AcceptedPair(f, g, n, m)
  {
    hide Register, Residue, Shifted, FromLE, DecodeFrame, Framed, Tail, LengthDamaged, IsExact;
    if Confusable(n, m) {
      var z: seq<byte> :| |z| == n - m && Register(Shifted(n, m), z) == Residue();
      var a := FRAME_MAGIC + [1, 5] + Zeros(10);
      assert a[..4] == FRAME_MAGIC;
      ConfusableAccepted(a, n, Zeros(m), z);
    }
    forall f, g | AcceptedPair(f, g, n, m)
      ensures Confusable(n, m)
    {
      AcceptedHolds(f);
      if !Confusable(n, m) {
        LengthDamageDetected(f, g);
      }
    }
  }

  lemma AcceptedHolds(f: seq<byte>)
    requires IsExact(f) && DecodeFrame(f).Ok?
    ensures ChecksumHolds(f)
  {
    hide FromLE, ChecksumHolds, DecodeBody;
  }

  // ---------- deciding it ----------

  /** The bytes that carry the given bits. */
  function BytesOf(s: seq<bool>): (z: seq<byte>)
    requires |s| % 8 == 0
    ensures 8 * |z| == |s|
  {
    if s == [] then []
    else
      NumberBound(s[..8]);
      assert Pow2(8) == 256;
      [Number(s[..8]) as byte] + BytesOf(s[8..])
  }

  lemma {:induction false} BitsOfBytes(s: seq<bool>)
    requires |s| % 8 == 0
    ensures BitString(BytesOf(s)) == s
  {
    hide Digits, Number;
    if s != [] {
      BitsOfBytes(s[8..]);
      DigitsOfNumber(s[..8]);
      assert BytesOf(s)[1..] == BytesOf(s[8..]);
      assert s == s[..8] + s[8..];
    }
  }

  lemma XorApart(c: bv32, w: bv32, r: bv32)
    ensures Xor(c, w) == r <==> w == Xor(c, r)
  {
    hide Xor;
    XorTwice(c, w);
    XorTwice(c, r);
  }

  /** Up to four bytes can lead from the register `c` to the residue exactly if what is missing fits into them. */
  lemma FewReach(c: bv32, k: nat)
    requires k <= 4
    ensures (exists z: seq<byte> :: |z| == k && Register(c, z) == Residue())
       <==> Within(Xor(c, Steps(ALL_ONES, 32 - 8 * k)), Ones(8 * k))
  {
    hide Register, Steps, Xor, Pack, Unpack, BitString, Within, Ones, BytesOf;
    var r := Steps(ALL_ONES, 32 - 8 * k);
    StepsAdd(ALL_ONES, 32 - 8 * k, 8 * k);
    forall z: seq<byte> | |z| == k
      ensures Register(c, z) == Residue() <==> Pack(BitString(z)) == Xor(c, r)
    {
      var w := Pack(BitString(z));
      RegisterOfFew(c, z);
      if Steps(Xor(c, w), 8 * k) == Steps(r, 8 * k) {
        StepsInjective(Xor(c, w), r, 8 * k);
      }
      XorApart(c, w, r);
    }
    forall z: seq<byte> | |z| == k
      ensures Within(Pack(BitString(z)), Ones(8 * k))
    {
      PackWithin(BitString(z));
    }
    if Within(Xor(c, r), Ones(8 * k)) {
      var bits := Unpack(Xor(c, r), 8 * k);
      PackOfUnpack(Xor(c, r), 8 * k);
      BitsOfBytes(bits);
      var z := BytesOf(bits);
      assert |z| == k && Register(c, z) == Residue();
    }
  }

  /** Lengths less than four apart: a test on the two numbers decides. */
  lemma NearExactly(n: nat, m: nat)
    requires m < n <= m + 4
    ensures Confusable(n, m)
       <==> Within(Xor(Shifted(n, m), Steps(ALL_ONES, 32 - 8 * (n - m))), Ones(8 * (n - m)))
  {
    hide Register, Steps, Xor, Residue, Shifted, Within;
    FewReach(Shifted(n, m), n - m);
  }

  lemma AllWithin(w: bv32)
    ensures Within(w, 0xffff_ffff)
  {}

  /** Lengths at least four apart are always confusable. */
  lemma FarIsConfusable(n: nat, m: nat)
    requires m + 4 <= n
    ensures Confusable(n, m)
  {
    hide Register, Steps, Xor, Residue, Shifted, Within, Ones;
    var far := Zeros(n - m - 4);
    var c := Register(Shifted(n, m), far);
    OnesKnown();
    AllWithin(Xor(c, Steps(ALL_ONES, 0)));
    FewReach(c, 4);
    var z: seq<byte> :| |z| == 4 && Register(c, z) == Residue();
    RegisterAppend(Shifted(n, m), far, z);
    assert |far + z| == n - m;
  }

  /**
    So every header and every payload begin an accepted frame that turns into another one when its
    length loses four or more.
   */
  lemma ShorterLengthUndetected(a: seq<byte>, p: seq<byte>, n: nat) returns (f: seq<byte>, g: seq<byte>)
    requires |a| == 16 && a[..4] == FRAME_MAGIC && a[4] == 1 && a[5] > 1
    requires |p| + 4 <= n <= MAX_PAYLOAD_LEN
    ensures AcceptedPair(f, g, n, |p|) && DecodeFrame(f) != DecodeFrame(g)
    ensures f[..16] == a && f[18..18 + |p|] == p
    ensures AgreeOutside(BitString(f), BitString(g), 128, 144)
  {
    hide Register, Residue, Shifted, FromLE, DecodeFrame, Framed, HasMagic, Checksum, WordBytes, BitString, IsExact;
    FarIsConfusable(n, |p|);
    var z: seq<byte> :| |z| == n - |p| && Register(Shifted(n, |p|), z) == Residue();
    f, g := Framed(a, n, Tail(a, p, z)), Framed(a, |p|, Tail(a, p, z));
    ConfusableAccepted(a, n, p, z);
    FramedParts(a, n, Tail(a, p, z));
    assert f[18..18 + |p|] == Tail(a, p, z)[..|p|];
    SameAround(f, g);
  }

  // ---------- both outcomes occur ----------

  function FortyEight(c: bv32): bv32 {
    Eight(Eight(Eight(Eight(Eight(Eight(c))))))
  }

  /** 192 shifts, spelled out. */
  function Lap(c: bv32): bv32 {
    FortyEight(FortyEight(FortyEight(FortyEight(c))))
  }

  lemma FortyEightIsSteps(c: bv32)
    ensures FortyEight(c) == Steps(c, 48)
  {
    hide Eight, Steps;
    var d := Eight(Eight(c));
    var e := Eight(Eight(d));
    EightIsSteps(c);
    EightIsSteps(Eight(c));
    EightIsSteps(d);
    EightIsSteps(Eight(d));
    EightIsSteps(e);
    EightIsSteps(Eight(e));
    StepsAdd(c, 8, 8);
    StepsAdd(d, 8, 8);
    StepsAdd(e, 8, 8);
    StepsAdd(c, 16, 16);
    StepsAdd(c, 32, 16);
  }

  lemma LapIsSteps(c: bv32, k: nat)
    ensures Steps(c, k + 192) == Lap(Steps(c, k))
  {
    hide FortyEight, Steps;
    var d := Steps(c, k);
    FortyEightIsSteps(d);
    FortyEightIsSteps(Steps(d, 48));
    FortyEightIsSteps(Steps(d, 96));
    FortyEightIsSteps(Steps(d, 144));
    StepsAdd(d, 48, 48);
    StepsAdd(d, 96, 48);
    StepsAdd(d, 144, 48);
    StepsAdd(c, k, 192);
  }

  lemma ResidueKnown()
    ensures Residue() == 0xdebb_20e3 && Steps(ALL_ONES, 8) == 0x2dfd_1072
  {
    hide Steps;
    var c := Eight(ALL_ONES);
    EightIsSteps(ALL_ONES);
    EightIsSteps(c);
    EightIsSteps(Eight(c));
    EightIsSteps(Eight(Eight(c)));
    StepsAdd(ALL_ONES, 8, 8);
    StepsAdd(ALL_ONES, 16, 8);
    StepsAdd(ALL_ONES, 24, 8);
    assert Eight(ALL_ONES) == 0x2dfd_1072;
    assert Eight(Eight(Eight(0x2dfd_1072))) == 0xdebb_20e3;
  }

  lemma BeforeLaps()
    ensures FortyEight(3) == 0x8694_72ae
  {}

  lemma FirstLap()
    ensures Lap(0x8694_72ae) == 0x44a1_2518
  {}

  lemma SecondLap()
    ensures Lap(0x44a1_2518) == 0x02ee_fada
  {}

  lemma ThirdLap()
    ensures Lap(0x02ee_fada) == 0xdd94_3c2e
  {}

  lemma FourthLap()
    ensures Lap(0xdd94_3c2e) == 0x0048_2c96
  {}

  lemma FifthLap()
    ensures Lap(0x0048_2c96) == 0xf3e2_33ed
  {}

  /** Where the difference between two lengths that differ in the two lowest bits stands after a while. */
  lemma DifferenceOfThree()
    ensures Steps(3, 48) == 0x8694_72ae && Steps(3, 1008) == 0xf3e2_33ed
  {
    hide Steps, Lap, FortyEight;
    FortyEightIsSteps(3);
    BeforeLaps();
    LapIsSteps(3, 48);
    FirstLap();
    LapIsSteps(3, 240);
    SecondLap();
    LapIsSteps(3, 432);
    ThirdLap();
    LapIsSteps(3, 624);
    FourthLap();
    LapIsSteps(3, 816);
    FifthLap();
  }

  lemma FieldWord(b: byte)
    ensures Pack(BitString([b, 0])) == Word(b)
  {
    hide Or, Raise8, Digits, Pack;
    assert [b, 0][1..] == [0 as byte];
    assert [0 as byte][1..] == [];
    assert BitString([b, 0]) == Digits(b as nat, 8) + BitString([0]);
    PackByteFirst(b, BitString([0]));
    PackByteFirst(0, []);
    assert Digits(0, 8) + [] == BitString([0]);
    ZeroWord();
    OrWithZero(Word(b));
  }

  lemma ZeroWord()
    ensures Word(0) == 0 && Raise8(0) == 0 && Or(0, 0) == 0 && Pack([]) == 0
  {
    assert Digits(0, 4) == [false, false, false, false];
    assert Digits(0, 8) == [false, false, false, false, false, false, false, false];
    assert Word(0) == 0;
  }

  lemma OrWithZero(w: bv32)
    ensures Or(w, 0) == w
  {}

  lemma SmallFields()
    ensures LE(0, 2) == [0, 0] && LE(3, 2) == [3, 0] && LE(120, 2) == [120, 0] && LE(123, 2) == [123, 0]
  {
    assert LE(0, 1) == [0];
  }

  lemma WordOf3()
    ensures Word(3) == 3
  {
    assert Digits(3, 8) == [true, true, false, false, false, false, false, false];
  }

  lemma WordOf120()
    ensures Word(120) == 120
  {
    assert Digits(120, 8) == [false, false, false, true, true, true, true, false];
  }

  lemma WordOf123()
    ensures Word(123) == 123
  {
    assert Digits(123, 8) == [true, true, false, true, true, true, true, false];
  }

  lemma SmallWords()
    ensures Xor(Word(3), Word(0)) == 3 && Xor(Word(123), Word(120)) == 3
  {
    hide Word;
    ZeroWord();
    WordOf3();
    WordOf120();
    WordOf123();
  }

  lemma DeltasOfThree()
    ensures Delta(3, 0) == Steps(3, 16) && Delta(123, 120) == Steps(3, 16)
  {
    hide LE, Word, BitString, Pack, Steps, Xor;
    SmallFields();
    SmallWords();
    FieldWord(0);
    FieldWord(3);
    FieldWord(120);
    FieldWord(123);
  }

  /** Three bytes apart, the lengths decide: 123 can become 120 unnoticed, 3 can not become 0. */
  lemma ThreeApartDiffers()
    ensures Confusable(123, 120) && !Confusable(3, 0)
  {
    hide Steps, Delta, Ones, Confusable, Residue, Xor, Within;
    NearExactly(123, 120);
    NearExactly(3, 0);
    DeltasOfThree();
    DifferenceOfThree();
    StepsAdd(3, 16, 32);
    StepsAdd(3, 16, 992);
    ResidueKnown();
    OnesKnown();
    WithinThreeBytes();
  }

  lemma WithinThreeBytes()
    ensures Within(Xor(Xor(0xdebb_20e3, 0xf3e2_33ed), 0x2dfd_1072), 0xff_ffff)
    ensures !Within(Xor(Xor(0xdebb_20e3, 0x8694_72ae), 0x2dfd_1072), 0xff_ffff)
  {}
}
