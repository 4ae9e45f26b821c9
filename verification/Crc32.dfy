/**
  CRC-32 (the frame check sequence of IEEE 802.3, clause 3.2.9) as the repository
  computes it twice, with a table on the host and bit by bit in the firmware.

  Both are proved to compute `Checksum`. The specification of the register is the
  bit-serial one: `Serial` takes the message one bit at a time, lowest bit first.
 */
module Crc32 {
  import opened Bits

  const POLY: bv32 := 0xedb8_8320
  const ALL_ONES: bv32 := 0xffff_ffff

  function Xor(x: bv32, y: bv32): bv32 {
    x ^ y
  }

  function Twice(z: bv32): bv32 {
    z << 1
  }

  /** One shift of the register. */
  function BitStep(c: bv32): bv32 {
    if c & 1 == 1 then POLY ^ (c >> 1) else c >> 1
  }

  function Steps(c: bv32, k: nat): bv32
    decreases k
  {
    if k == 0 then c else Steps(BitStep(c), k - 1)
  }

  /** The register after the bytes `data`, starting from `c`. */
  function Register(c: bv32, data: seq<byte>): bv32
    decreases data
  {
    if data == [] then c else Register(Steps(Xor(c, Word(data[0])), 8), data[1..])
  }

  function Checksum(data: seq<byte>): bv32 {
    Xor(Register(ALL_ONES, data), ALL_ONES)
  }

  function BitWord(d: bool): bv32 {
    if d then 1 else 0
  }

  /** The register after the bits `s`, starting from `c`. */
  function Serial(c: bv32, s: seq<bool>): bv32
    decreases s
  {
    if s == [] then c else Serial(BitStep(Xor(c, BitWord(s[0]))), s[1..])
  }

  // ---------- linearity of the register ----------

  lemma XorBothOdd(x: bv32, y: bv32, p: bv32)
    requires x & 1 == 1 && y & 1 == 1
    ensures (x ^ y) & 1 != 1 && (x ^ y) >> 1 == (p ^ (x >> 1)) ^ (p ^ (y >> 1))
  {}

  lemma XorFirstOdd(x: bv32, y: bv32, p: bv32)
    requires x & 1 == 1 && y & 1 != 1
    ensures (x ^ y) & 1 == 1 && p ^ ((x ^ y) >> 1) == (p ^ (x >> 1)) ^ (y >> 1)
  {}

  lemma XorSecondOdd(x: bv32, y: bv32, p: bv32)
    requires x & 1 != 1 && y & 1 == 1
    ensures (x ^ y) & 1 == 1 && p ^ ((x ^ y) >> 1) == (x >> 1) ^ (p ^ (y >> 1))
  {}

  lemma XorNoneOdd(x: bv32, y: bv32)
    requires x & 1 != 1 && y & 1 != 1
    ensures (x ^ y) & 1 != 1 && (x ^ y) >> 1 == (x >> 1) ^ (y >> 1)
  {}

  lemma LinearBothOdd(x: bv32, y: bv32)
    requires x & 1 == 1 && y & 1 == 1
    ensures BitStep(Xor(x, y)) == Xor(BitStep(x), BitStep(y))
  {
    XorBothOdd(x, y, POLY);
  }

  lemma LinearFirstOdd(x: bv32, y: bv32)
    requires x & 1 == 1 && y & 1 != 1
    ensures BitStep(Xor(x, y)) == Xor(BitStep(x), BitStep(y))
  {
    XorFirstOdd(x, y, POLY);
  }

  lemma LinearSecondOdd(x: bv32, y: bv32)
    requires x & 1 != 1 && y & 1 == 1
    ensures BitStep(Xor(x, y)) == Xor(BitStep(x), BitStep(y))
  {
    XorSecondOdd(x, y, POLY);
  }

  lemma LinearNoneOdd(x: bv32, y: bv32)
    requires x & 1 != 1 && y & 1 != 1
    ensures BitStep(Xor(x, y)) == Xor(BitStep(x), BitStep(y))
  {
    XorNoneOdd(x, y);
  }

  /** The register step is linear over GF(2). */
  lemma BitStepLinear(x: bv32, y: bv32)
    ensures BitStep(Xor(x, y)) == Xor(BitStep(x), BitStep(y))
  {
    hide BitStep, Xor;
    if x & 1 == 1 {
      if y & 1 == 1 { LinearBothOdd(x, y); } else { LinearFirstOdd(x, y); }
    } else {
      if y & 1 == 1 { LinearSecondOdd(x, y); } else { LinearNoneOdd(x, y); }
    }
  }

  lemma {:induction false} StepsLinear(x: bv32, y: bv32, k: nat)
    ensures Steps(Xor(x, y), k) == Xor(Steps(x, k), Steps(y, k))
    decreases k
  {
    hide BitStep, Xor;
    if k > 0 {
      BitStepLinear(x, y);
      StepsLinear(BitStep(x), BitStep(y), k - 1);
    }
  }

  // ---------- invertibility of the register ----------

  lemma BitStepInjective(x: bv32, y: bv32)
    requires BitStep(x) == BitStep(y)
    ensures x == y
  {}

  lemma {:induction false} StepsInjective(x: bv32, y: bv32, k: nat)
    requires Steps(x, k) == Steps(y, k)
    ensures x == y
    decreases k
  {
    hide BitStep;
    if k > 0 {
      StepsInjective(BitStep(x), BitStep(y), k - 1);
      BitStepInjective(x, y);
    }
  }

  // ---------- the table ----------

  lemma StepDoubled(z: bv32)
    requires z & 0x8000_0000 == 0
    ensures BitStep(Twice(z)) == z
  {}

  lemma StepsDoubled(z: bv32, k: nat)
    requires z & 0x8000_0000 == 0
    ensures Steps(Twice(z), k + 1) == Steps(z, k)
  {
    hide BitStep, Twice;
    StepDoubled(z);
  }

  function Raise8(z: bv32): bv32 {
    Twice(Twice(Twice(Twice(Twice(Twice(Twice(Twice(z))))))))
  }

  lemma StepsRaised(z: bv32)
    requires z & 0xff00_0000 == 0
    ensures Steps(Raise8(z), 8) == z
  {
    hide BitStep, Steps, Twice;
    var z1 := Twice(z);
    var z2 := Twice(z1);
    var z3 := Twice(z2);
    var z4 := Twice(z3);
    var z5 := Twice(z4);
    var z6 := Twice(z5);
    var z7 := Twice(z6);
    TopClear(z);
    StepsDoubled(z7, 7); StepsDoubled(z6, 6); StepsDoubled(z5, 5); StepsDoubled(z4, 4);
    StepsDoubled(z3, 3); StepsDoubled(z2, 2); StepsDoubled(z1, 1); StepsDoubled(z, 0);
    NoSteps(z);
  }

  lemma NoSteps(c: bv32)
    ensures Steps(c, 0) == c
  {}

  lemma TopClear(z: bv32)
    requires z & 0xff00_0000 == 0
    ensures z & 0x8000_0000 == 0
    ensures Twice(z) & 0x8000_0000 == 0
    ensures Twice(Twice(z)) & 0x8000_0000 == 0
    ensures Twice(Twice(Twice(z))) & 0x8000_0000 == 0
    ensures Twice(Twice(Twice(Twice(z)))) & 0x8000_0000 == 0
    ensures Twice(Twice(Twice(Twice(Twice(z))))) & 0x8000_0000 == 0
    ensures Twice(Twice(Twice(Twice(Twice(Twice(z)))))) & 0x8000_0000 == 0
    ensures Twice(Twice(Twice(Twice(Twice(Twice(Twice(z))))))) & 0x8000_0000 == 0
  {}

  lemma SplitLowByte(x: bv32)
    ensures x == Xor(x & 0xff, Raise8(x >> 8))
  {}

  lemma ShiftedClear(x: bv32)
    ensures (x >> 8) & 0xff00_0000 == 0
  {}

  /** Eight shifts of a word are the eight shifts of its low byte, which a table can hold, and a move. */
  lemma EightSteps(x: bv32)
    ensures Steps(x, 8) == Xor(Steps(x & 0xff, 8), x >> 8)
  {
    hide Steps, BitStep, Xor, Twice, Raise8;
    SplitLowByte(x);
    StepsLinear(x & 0xff, Raise8(x >> 8), 8);
    ShiftedClear(x);
    StepsRaised(x >> 8);
  }

  // ---------- bytes and bits ----------

  lemma ShiftInParts(d: bool, w: bv32)
    ensures ShiftIn(d, w) == Xor(BitWord(d), Twice(w))
  {
    if d { OddParts(w); } else { EvenParts(w); }
  }

  lemma OddParts(w: bv32)
    ensures (w << 1) | 1 == 1 ^ (w << 1)
  {}

  lemma EvenParts(w: bv32)
    ensures w << 1 == 0 ^ (w << 1)
  {}

  lemma XorAssociative(x: bv32, y: bv32, z: bv32)
    ensures Xor(x, Xor(y, z)) == Xor(Xor(x, y), z)
  {}

  /** Bits waiting above the low one pass through a step unchanged, one place lower. */
  lemma StepWithWaiting(c: bv32, d: bool, w: bv32)
    requires w & 0x8000_0000 == 0
    ensures BitStep(Xor(c, ShiftIn(d, w))) == Xor(BitStep(Xor(c, BitWord(d))), w)
  {
    hide BitStep, Xor, Twice, ShiftIn;
    ShiftInParts(d, w);
    XorAssociative(c, BitWord(d), Twice(w));
    BitStepLinear(Xor(c, BitWord(d)), Twice(w));
    StepDoubled(w);
  }

  lemma XorZero(c: bv32)
    ensures Xor(c, 0) == c
  {}

  /** Feeding up to 32 bits one by one is the same as adding them all first and then shifting. */
  lemma {:induction false} SerialSteps(c: bv32, s: seq<bool>)
    requires |s| <= 32
    ensures Serial(c, s) == Steps(Xor(c, Pack(s)), |s|)
    decreases s
  {
    hide BitStep, Xor, ShiftIn, BitWord;
    if s == [] {
      XorZero(c);
    } else {
      SerialSteps(BitStep(Xor(c, BitWord(s[0]))), s[1..]);
      PackLeavesTopFree(s[1..]);
      StepWithWaiting(c, s[0], Pack(s[1..]));
    }
  }

  lemma {:induction false} SerialAppend(c: bv32, s: seq<bool>, t: seq<bool>)
    ensures Serial(c, s + t) == Serial(Serial(c, s), t)
    decreases s
  {
    hide BitStep, Xor, BitWord;
    if s == [] {
      assert s + t == t;
    } else {
      assert (s + t)[1..] == s[1..] + t;
      SerialAppend(BitStep(Xor(c, BitWord(s[0]))), s[1..], t);
    }
  }

  /** The byte-wise register of both programs is the bit-serial one. */
  lemma {:induction false} RegisterIsSerial(c: bv32, data: seq<byte>)
    ensures Register(c, data) == Serial(c, BitString(data))
    decreases data
  {
    hide BitStep, Xor, Steps, Pack;
    if data != [] {
      var s := Digits(data[0] as nat, 8);
      SerialSteps(c, s);
      SerialAppend(c, s, BitString(data[1..]));
      RegisterIsSerial(Steps(Xor(c, Word(data[0])), 8), data[1..]);
    }
  }

  lemma {:induction false} RegisterAppend(c: bv32, a: seq<byte>, b: seq<byte>)
    ensures Register(c, a + b) == Register(Register(c, a), b)
    decreases a
  {
    hide Steps, Xor, Word;
    if a == [] {
      assert a + b == b;
    } else {
      assert (a + b)[1..] == a[1..] + b;
      RegisterAppend(Steps(Xor(c, Word(a[0])), 8), a[1..], b);
    }
  }

  // ---------- burst detection ----------

  lemma {:induction false} SerialInjective(c: bv32, d: bv32, s: seq<bool>)
    requires Serial(c, s) == Serial(d, s)
    ensures c == d
    decreases s
  {
    hide BitStep, Xor, BitWord;
    if s != [] {
      var e := BitWord(s[0]);
      SerialInjective(BitStep(Xor(c, e)), BitStep(Xor(d, e)), s[1..]);
      BitStepInjective(Xor(c, e), Xor(d, e));
      XorCancel(c, d, e);
    }
  }

  lemma XorCancel(x: bv32, y: bv32, e: bv32)
    requires Xor(x, e) == Xor(y, e)
    ensures x == y
  {}

  lemma XorCommutes(x: bv32, y: bv32)
    ensures Xor(x, y) == Xor(y, x)
  {}

  /** From one register, different strings of up to 32 bits lead to different registers. */
  lemma SerialSeesBits(c: bv32, s: seq<bool>, t: seq<bool>)
    requires |s| == |t| <= 32 && Serial(c, s) == Serial(c, t)
    ensures s == t
  {
    hide BitStep, Xor, Steps, Pack, Unpack, Serial;
    SerialSteps(c, s);
    SerialSteps(c, t);
    StepsInjective(Xor(c, Pack(s)), Xor(c, Pack(t)), |s|);
    XorCommutes(c, Pack(s));
    XorCommutes(c, Pack(t));
    XorCancel(Pack(s), Pack(t), c);
    UnpackOfPack(s);
    UnpackOfPack(t);
  }

  /** `s` and `t` differ at most in the bits `lo` up to, not including, `hi`. */
  ghost predicate AgreeOutside(s: seq<bool>, t: seq<bool>, lo: nat, hi: nat)
    requires lo <= hi <= |s| == |t|
  {
    s[..lo] == t[..lo] && s[hi..] == t[hi..]
  }

  /** A change confined to 32 consecutive bits always changes the register. */
  lemma BurstChangesRegister(c: bv32, s: seq<bool>, t: seq<bool>, lo: nat, hi: nat)
    requires lo <= hi <= |s| == |t| && hi - lo <= 32
    requires AgreeOutside(s, t, lo, hi)
    requires Serial(c, s) == Serial(c, t)
    ensures s == t
  {
    hide Serial;
    var r := Serial(c, s[..lo]);
    assert s == s[..lo] + (s[lo..hi] + s[hi..]);
    assert t == t[..lo] + (t[lo..hi] + t[hi..]);
    SerialAppend(c, s[..lo], s[lo..hi] + s[hi..]);
    SerialAppend(c, t[..lo], t[lo..hi] + t[hi..]);
    SerialAppend(r, s[lo..hi], s[hi..]);
    SerialAppend(r, t[lo..hi], t[hi..]);
    SerialInjective(Serial(r, s[lo..hi]), Serial(r, t[lo..hi]), s[hi..]);
    SerialSeesBits(r, s[lo..hi], t[lo..hi]);
  }

  // ---------- the two programs ----------

  /** What the host's module-level table holds once its loops have run. */
  ghost predicate IsTable(table: array<bv32>)
    reads table
  {
    table.Length == 256 && forall i :: 0 <= i < 256 ==> table[i] == Steps(Word(i as byte), 8)
  }

  /** The loops that fill the table. */
  method BuildTable() returns (table: array<bv32>)
    ensures fresh(table) && IsTable(table)
  {
    hide Steps, Word, BitStep;
    table := new bv32[256];
    for i := 0 to 256
      invariant forall j :: 0 <= j < i ==> table[j] == Steps(Word(j as byte), 8)
    {
      var c := Word(i as byte);
      for k := 0 to 8
        invariant Steps(c, 8 - k) == Steps(Word(i as byte), 8)
        invariant forall j :: 0 <= j < i ==> table[j] == Steps(Word(j as byte), 8)
      {
        StepsUnfold(c, 8 - k);
        c := OneTableStep(c);
      }
      NoSteps(c);
      table[i] := c;
    }
  }

  lemma StepsUnfold(c: bv32, k: nat)
    requires k > 0
    ensures Steps(c, k) == Steps(BitStep(c), k - 1)
  {}

  method OneTableStep(c: bv32) returns (r: bv32)
    ensures r == BitStep(c)
  {
    if c & 1 == 1 {
      r := 0xedb8_8320 ^ (c >> 1);
    } else {
      r := c >> 1;
    }
  }

  /** The host's table-driven CRC; `initial` is the register the caller starts from. */
  method TableCrc32(table: array<bv32>, data: seq<byte>, initial: bv32 := 0xffff_ffff) returns (r: bv32)
    requires IsTable(table)
    ensures r == Xor(Register(initial, data), ALL_ONES)
    ensures initial == ALL_ONES ==> r == Checksum(data)
  {
    hide Steps, Word, Xor, BitStep, LowByte;
    var crc := initial;
    for i := 0 to |data|
      invariant Register(crc, data[i..]) == Register(initial, data)
    {
      assert data[i..][1..] == data[i + 1..];
      TableStep(crc, data[i]);
      crc := Xor(table[LowByte(Xor(crc, Word(data[i])))], crc >> 8);
    }
    r := Xor(crc, 0xffff_ffff);
  }

  lemma AboveLowByte(c: bv32, w: bv32)
    requires w & 0xff == w
    ensures Xor(c, w) >> 8 == c >> 8
  {}

  lemma TableStep(c: bv32, b: byte)
    ensures Steps(Xor(c, Word(b)), 8)
         == Xor(Steps(Word(LowByte(Xor(c, Word(b)))), 8), c >> 8)
  {
    hide Steps, Word, Xor, LowByte;
    EightSteps(Xor(c, Word(b)));
    WordByteWord(Xor(c, Word(b)));
    WordWithinByte(b);
    AboveLowByte(c, Word(b));
  }

  method OneMaskedStep(c: bv32) returns (r: bv32)
    ensures r == BitStep(c)
  {
    hide BitStep;
    MaskedStep(c);
    var mask := 0 - (c & 1);
    r := (c >> 1) ^ (0xedb8_8320 & mask);
  }

  /** The firmware's bitwise CRC. */
  method BcCrc32(data: seq<byte>) returns (r: bv32)
    ensures r == Checksum(data)
  {
    hide Steps, Word, Xor, BitStep;
    var crc: bv32 := 0xffff_ffff;
    for i := 0 to |data|
      invariant Register(crc, data[i..]) == Register(ALL_ONES, data)
    {
      assert data[i..][1..] == data[i + 1..];
      crc := Xor(crc, Word(data[i]));
      ghost var start := crc;
      for b := 0 to 8
        invariant Steps(crc, 8 - b) == Steps(start, 8)
      {
        StepsUnfold(crc, 8 - b);
        crc := OneMaskedStep(crc);
      }
      NoSteps(crc);
    }
    r := Xor(crc, 0xffff_ffff);
  }

  lemma MaskOdd(c: bv32)
    requires c & 1 == 1
    ensures (c >> 1) ^ (0xedb8_8320 & (0 - (c & 1))) == 0xedb8_8320 ^ (c >> 1)
  {}

  lemma MaskEven(c: bv32)
    requires c & 1 != 1
    ensures (c >> 1) ^ (0xedb8_8320 & (0 - (c & 1))) == c >> 1
  {}

  /** Selecting the polynomial with a mask is selecting it with a branch. */
  lemma MaskedStep(c: bv32)
    ensures (c >> 1) ^ (0xedb8_8320 & (0 - (c & 1))) == BitStep(c)
  {
    if c & 1 == 1 { MaskOdd(c); } else { MaskEven(c); }
  }

  /** A checksum can be continued over more data by undoing its final complement. */
  lemma ChecksumChains(a: seq<byte>, b: seq<byte>)
    ensures Checksum(a + b) == Xor(Register(Xor(Checksum(a), ALL_ONES), b), ALL_ONES)
  {
    hide Register;
    RegisterAppend(ALL_ONES, a, b);
    XorAssociative(Register(ALL_ONES, a), ALL_ONES, ALL_ONES);
    XorZero(Register(ALL_ONES, a));
    assert Xor(ALL_ONES, ALL_ONES) == 0;
  }

  // ---------- a known checksum ----------

  lemma {:induction false} StepsAdd(e: bv32, j: nat, k: nat)
    ensures Steps(Steps(e, j), k) == Steps(e, j + k)
    decreases j
  {
    hide BitStep;
    if j > 0 {
      StepsAdd(BitStep(e), j - 1, k);
    } else {
      NoSteps(e);
    }
  }

  /** Eight shifts, spelled out. */
  function Eight(c: bv32): bv32 {
    BitStep(BitStep(BitStep(BitStep(BitStep(BitStep(BitStep(BitStep(c))))))))
  }

  lemma EightIsSteps(c: bv32)
    ensures Eight(c) == Steps(c, 8)
  {
    hide BitStep;
    assert Steps(c, 2) == BitStep(BitStep(c));
    StepsAdd(c, 2, 2);
    StepsAdd(c, 4, 2);
    StepsAdd(c, 6, 2);
  }

  lemma WordOf31()
    ensures Word(0x31) == 0x31
  {
    assert Digits(0x31, 8) == [true, false, false, false, true, true, false, false];
  }

  lemma WordOf32()
    ensures Word(0x32) == 0x32
  {
    assert Digits(0x32, 8) == [false, true, false, false, true, true, false, false];
  }

  lemma WordOf33()
    ensures Word(0x33) == 0x33
  {
    assert Digits(0x33, 8) == [true, true, false, false, true, true, false, false];
  }

  lemma WordOf34()
    ensures Word(0x34) == 0x34
  {
    assert Digits(0x34, 8) == [false, false, true, false, true, true, false, false];
  }

  lemma WordOf35()
    ensures Word(0x35) == 0x35
  {
    assert Digits(0x35, 8) == [true, false, true, false, true, true, false, false];
  }

  lemma WordOf36()
    ensures Word(0x36) == 0x36
  {
    assert Digits(0x36, 8) == [false, true, true, false, true, true, false, false];
  }

  lemma WordOf37()
    ensures Word(0x37) == 0x37
  {
    assert Digits(0x37, 8) == [true, true, true, false, true, true, false, false];
  }

  lemma WordOf38()
    ensures Word(0x38) == 0x38
  {
    assert Digits(0x38, 8) == [false, false, false, true, true, true, false, false];
  }

  lemma WordOf39()
    ensures Word(0x39) == 0x39
  {
    assert Digits(0x39, 8) == [true, false, false, true, true, true, false, false];
  }

  lemma RegisterOne(c: bv32, b: byte, rest: seq<byte>)
    ensures Register(c, [b] + rest) == Register(Eight(Xor(c, Word(b))), rest)
  {
    hide Eight, Xor, Word, Steps;
    EightIsSteps(Xor(c, Word(b)));
    assert ([b] + rest)[1..] == rest;
  }

  lemma KnownRegisters()
    ensures Eight(Xor(0xffff_ffff, 0x31)) == 0x7c23_1048
    ensures Eight(Xor(0x7c23_1048, 0x32)) == 0xb0ac_bb32
    ensures Eight(Xor(0xb0ac_bb32, 0x33)) == 0x77b7_9c2d
    ensures Eight(Xor(0x77b7_9c2d, 0x34)) == 0x641c_1f5c
    ensures Eight(Xor(0x641c_1f5c, 0x35)) == 0x340a_c5e3
    ensures Eight(Xor(0x340a_c5e3, 0x36)) == 0xf68d_2c9e
    ensures Eight(Xor(0xf68d_2c9e, 0x37)) == 0xaffc_9660
    ensures Eight(Xor(0xaffc_9660, 0x38)) == 0x651f_2550
    ensures Eight(Xor(0x651f_2550, 0x39)) == 0x340b_c6d9
  {}

  /** The checksum of the digits 1 to 9 is the published check value of this CRC. */
  lemma CheckValue()
    ensures Checksum([0x31, 0x32, 0x33, 0x34, 0x35, 0x36, 0x37, 0x38, 0x39]) == 0xcbf4_3926
  {
    hide Register, Eight, Word;
    KnownRegisters();
    WordOf31();
    RegisterOne(0xffff_ffff, 0x31, [0x32, 0x33, 0x34, 0x35, 0x36, 0x37, 0x38, 0x39]);
    assert [0x31 as byte] + [0x32, 0x33, 0x34, 0x35, 0x36, 0x37, 0x38, 0x39]
        == [0x31, 0x32, 0x33, 0x34, 0x35, 0x36, 0x37, 0x38, 0x39];
    WordOf32();
    RegisterOne(0x7c23_1048, 0x32, [0x33, 0x34, 0x35, 0x36, 0x37, 0x38, 0x39]);
    assert [0x32 as byte] + [0x33, 0x34, 0x35, 0x36, 0x37, 0x38, 0x39]
        == [0x32, 0x33, 0x34, 0x35, 0x36, 0x37, 0x38, 0x39];
    WordOf33();
    RegisterOne(0xb0ac_bb32, 0x33, [0x34, 0x35, 0x36, 0x37, 0x38, 0x39]);
    assert [0x33 as byte] + [0x34, 0x35, 0x36, 0x37, 0x38, 0x39] == [0x33, 0x34, 0x35, 0x36, 0x37, 0x38, 0x39];
    WordOf34();
    RegisterOne(0x77b7_9c2d, 0x34, [0x35, 0x36, 0x37, 0x38, 0x39]);
    assert [0x34 as byte] + [0x35, 0x36, 0x37, 0x38, 0x39] == [0x34, 0x35, 0x36, 0x37, 0x38, 0x39];
    WordOf35();
    RegisterOne(0x641c_1f5c, 0x35, [0x36, 0x37, 0x38, 0x39]);
    assert [0x35 as byte] + [0x36, 0x37, 0x38, 0x39] == [0x35, 0x36, 0x37, 0x38, 0x39];
    WordOf36();
    RegisterOne(0x340a_c5e3, 0x36, [0x37, 0x38, 0x39]);
    assert [0x36 as byte] + [0x37, 0x38, 0x39] == [0x36, 0x37, 0x38, 0x39];
    WordOf37();
    RegisterOne(0xf68d_2c9e, 0x37, [0x38, 0x39]);
    assert [0x37 as byte] + [0x38, 0x39] == [0x37, 0x38, 0x39];
    WordOf38();
    RegisterOne(0xaffc_9660, 0x38, [0x39]);
    assert [0x38 as byte] + [0x39] == [0x38, 0x39];
    WordOf39();
    RegisterOne(0x651f_2550, 0x39, []);
    assert [0x39 as byte] + [] == [0x39];
    NothingMore(0x340b_c6d9);
  }

  lemma NothingMore(c: bv32)
    ensures Register(c, []) == c
  {}
}
