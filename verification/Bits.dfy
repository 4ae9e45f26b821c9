/**
  Bytes, and the three views of a number that the wire format and the CRC need:
  its binary digits (least significant first), its value, and its 32-bit register word.

  The conversions between numbers and words go through the digits, so that the
  facts about them are plain inductions.
 */
module Bits {

  newtype byte = x: int | 0 <= x < 256

  function Pow2(k: nat): (r: nat)
    ensures r > 0
  {
    if k == 0 then 1 else 2 * Pow2(k - 1)
  }

  /** The `k` lowest binary digits of `n`, least significant first. */
  function Digits(n: nat, k: nat): (s: seq<bool>)
    ensures |s| == k
  {
    if k == 0 then [] else [n % 2 == 1] + Digits(n / 2, k - 1)
  }

  /** The number with the binary digits `s`, least significant first. */
  function Number(s: seq<bool>): nat {
    if s == [] then 0 else (if s[0] then 1 else 0) + 2 * Number(s[1..])
  }

  /** The word `w` moved up one place with `d` as its new lowest bit; the top bit of `w` is lost. */
  function ShiftIn(d: bool, w: bv32): bv32 {
    if d then (w << 1) | 1 else w << 1
  }

  /** The word with the binary digits `s`, least significant first. */
  function Pack(s: seq<bool>): bv32 {
    if s == [] then 0 else ShiftIn(s[0], Pack(s[1..]))
  }

  /** The `k` lowest bits of `w`, least significant first. */
  function Unpack(w: bv32, k: nat): (s: seq<bool>)
    ensures |s| == k
  {
    if k == 0 then [] else [w & 1 == 1] + Unpack(w >> 1, k - 1)
  }

  /** The word that has `b` in its low eight bits and zero above. */
  function Word(b: byte): bv32 {
    Pack(Digits(b as nat, 8))
  }

  /** The number `w & 0xff`. */
  function LowByte(w: bv32): byte {
    NumberBound(Unpack(w & 0xff, 8));
    assert Pow2(8) == 256;
    Number(Unpack(w & 0xff, 8)) as byte
  }

  /** The bits of a byte string in the order in which a serial line carries them. */
  function BitString(bytes: seq<byte>): (s: seq<bool>)
    ensures |s| == 8 * |bytes|
  {
    if bytes == [] then [] else Digits(bytes[0] as nat, 8) + BitString(bytes[1..])
  }

  lemma {:induction false} NumberBound(s: seq<bool>)
    ensures Number(s) < Pow2(|s|)
  {
    if s != [] {
      NumberBound(s[1..]);
    }
  }

  lemma {:induction false} NumberOfDigits(n: nat, k: nat)
    requires n < Pow2(k)
    ensures Number(Digits(n, k)) == n
  {
    if k > 0 {
      NumberOfDigits(n / 2, k - 1);
      assert Digits(n, k)[1..] == Digits(n / 2, k - 1);
    }
  }

  lemma {:induction false} DigitsOfNumber(s: seq<bool>)
    ensures Digits(Number(s), |s|) == s
  {
    if s != [] {
      DigitsOfNumber(s[1..]);
      assert s == [s[0]] + s[1..];
    }
  }

  /** Every bit of `w` is a bit of `m`. */
  predicate Within(w: bv32, m: bv32) {
    w & !m == 0
  }

  /** The word whose `k` lowest bits are set. */
  function Ones(k: nat): bv32 {
    if k == 0 then 0 else ShiftIn(true, Ones(k - 1))
  }

  lemma OnesKnown()
    ensures Ones(8) == 0xff && Ones(24) == 0xff_ffff && Ones(31) == 0x7fff_ffff && Ones(32) == 0xffff_ffff
  {
    assert Ones(4) == 0xf;
    assert Ones(8) == 0xff;
    assert Ones(12) == 0xfff;
    assert Ones(16) == 0xffff;
    assert Ones(20) == 0xf_ffff;
    assert Ones(24) == 0xff_ffff;
    assert Ones(28) == 0xfff_ffff;
    assert Ones(31) == 0x7fff_ffff;
  }

  lemma OddWithin(w: bv32, m: bv32)
    requires Within(w, m)
    ensures Within((w << 1) | 1, (m << 1) | 1)
  {}

  lemma EvenWithin(w: bv32, m: bv32)
    requires Within(w, m)
    ensures Within(w << 1, (m << 1) | 1)
  {}

  lemma ShiftInWithin(d: bool, w: bv32, m: bv32)
    requires Within(w, m)
    ensures Within(ShiftIn(d, w), ShiftIn(true, m))
  {
    hide Within;
    OddWithin(w, m);
    EvenWithin(w, m);
  }

  lemma {:induction false} OnesGrow(k: nat)
    ensures Within(Ones(k), Ones(k + 1))
  {
    if k > 0 {
      OnesGrow(k - 1);
      ShiftInWithin(true, Ones(k - 1), Ones(k));
    }
  }

  lemma {:induction false} OnesLeaveTopFree(k: nat)
    requires k <= 31
    ensures Ones(k) & 0x8000_0000 == 0
    decreases 31 - k
  {
    if k == 31 {
      OnesKnown();
    } else {
      OnesLeaveTopFree(k + 1);
      OnesGrow(k);
      WithinTopFree(Ones(k), Ones(k + 1));
    }
  }

  lemma WithinTopFree(w: bv32, m: bv32)
    requires Within(w, m) && m & 0x8000_0000 == 0
    ensures w & 0x8000_0000 == 0
  {}

  lemma {:induction false} PackWithin(s: seq<bool>)
    ensures Within(Pack(s), Ones(|s|))
  {
    hide ShiftIn;
    if s != [] {
      PackWithin(s[1..]);
      ShiftInWithin(s[0], Pack(s[1..]), Ones(|s| - 1));
    }
  }

  /** Up to 31 digits leave the top bit of the register free, so one more can be shifted in. */
  lemma PackLeavesTopFree(s: seq<bool>)
    requires |s| <= 31
    ensures Pack(s) & 0x8000_0000 == 0
  {
    PackWithin(s);
    OnesLeaveTopFree(|s|);
    WithinTopFree(Pack(s), Ones(|s|));
  }

  lemma ShiftedLowBit(w: bv32)
    ensures ((w << 1) | 1) & 1 == 1 && (w << 1) & 1 == 0
  {}

  lemma ShiftInLowBit(d: bool, w: bv32)
    ensures (ShiftIn(d, w) & 1 == 1) == d
  {
    ShiftedLowBit(w);
  }

  lemma ShiftOut(d: bool, w: bv32)
    requires w & 0x8000_0000 == 0
    ensures ShiftIn(d, w) >> 1 == w
  {
    if d {} else {}
  }

  lemma ShiftBackOdd(w: bv32)
    requires w & 1 == 1
    ensures ((w >> 1) << 1) | 1 == w
  {}

  lemma ShiftBackEven(w: bv32)
    requires w & 1 != 1
    ensures (w >> 1) << 1 == w
  {}

  lemma ShiftBack(w: bv32)
    ensures ShiftIn(w & 1 == 1, w >> 1) == w
  {
    if w & 1 == 1 { ShiftBackOdd(w); } else { ShiftBackEven(w); }
  }

  lemma UnpackOfShiftIn(d: bool, w: bv32, k: nat)
    requires w & 0x8000_0000 == 0
    ensures Unpack(ShiftIn(d, w), k + 1) == [d] + Unpack(w, k)
  {
    hide ShiftIn;
    ShiftOut(d, w);
    ShiftInLowBit(d, w);
  }

  lemma {:induction false} UnpackOfPack(s: seq<bool>)
    requires |s| <= 32
    ensures Unpack(Pack(s), |s|) == s
  {
    hide ShiftIn, Unpack;
    if s == [] {
      UnpackNothing(Pack(s));
    } else {
      UnpackOfPack(s[1..]);
      PackLeavesTopFree(s[1..]);
      UnpackOfShiftIn(s[0], Pack(s[1..]), |s| - 1);
    }
  }

  lemma UnpackNothing(w: bv32)
    ensures Unpack(w, 0) == []
  {}

  lemma WithinShifted(w: bv32, m: bv32)
    requires Within(w, ShiftIn(true, m))
    ensures Within(w >> 1, m)
  {}

  lemma PackOfShifted(w: bv32, k: nat)
    ensures Pack(Unpack(w, k + 1)) == ShiftIn(w & 1 == 1, Pack(Unpack(w >> 1, k)))
  {
    hide ShiftIn;
    assert Unpack(w, k + 1)[1..] == Unpack(w >> 1, k);
  }

  lemma {:induction false} PackOfUnpack(w: bv32, k: nat)
    requires Within(w, Ones(k))
    ensures Pack(Unpack(w, k)) == w
  {
    hide ShiftIn, Unpack, Within;
    if k == 0 {
      UnpackNothing(w);
      WithinNothing(w);
    } else {
      WithinShifted(w, Ones(k - 1));
      PackOfUnpack(w >> 1, k - 1);
      PackOfShifted(w, k - 1);
      ShiftBack(w);
    }
  }

  lemma WithinNothing(w: bv32)
    requires Within(w, 0)
    ensures w == 0
  {}

  lemma MaskIsWithin(w: bv32)
    ensures Within(w & 0xff, 0xff)
    ensures Within(w, 0xff) ==> w & 0xff == w
  {}

  lemma WordWithinByte(b: byte)
    ensures Word(b) & 0xff == Word(b)
  {
    hide Pack, Within;
    PackWithin(Digits(b as nat, 8));
    OnesKnown();
    MaskIsWithin(Word(b));
  }

  /** A byte survives the trip through the register. */
  lemma ByteWordByte(b: byte)
    ensures LowByte(Word(b)) == b
  {
    hide Pack, Unpack;
    assert Pow2(8) == 256;
    WordWithinByte(b);
    UnpackOfPack(Digits(b as nat, 8));
    NumberOfDigits(b as nat, 8);
  }

  lemma WordByteWord(w: bv32)
    ensures Word(LowByte(w)) == w & 0xff
  {
    hide Pack, Unpack, Within;
    OnesKnown();
    MaskIsWithin(w);
    PackOfUnpack(w & 0xff, 8);
    DigitsOfNumber(Unpack(w & 0xff, 8));
  }
}
