/**
  Little-endian fields, as a `DataView` reads and writes them, and the two
  result types the rest of the model shares.
 */
module Wire {
  import opened Bits
  import opened Crc32

  datatype Option<+T> = None | Some(value: T)

  datatype ErrorCode =
    | MAGIC | VERSION | PAYLOAD_LENGTH | CRC | TRUNCATED | TELEMETRY_PAYLOAD_SIZE

  datatype Result<+T> = Ok(value: T) | Err(code: ErrorCode)

  /** The number of values of an `n`-byte field. */
  function Range(n: nat): (r: nat)
    ensures r > 0
  {
    if n == 0 then 1 else 256 * Range(n - 1)
  }

  /** The `n`-byte field holding `x`: wrapped to the field's width, two's complement when negative. */
  function LE(x: int, n: nat): (s: seq<byte>)
    ensures |s| == n
    decreases n
  {
    if n == 0 then [] else [(x % 256) as byte] + LE(x / 256, n - 1)
  }

  /** The unsigned number in a field. */
  function FromLE(s: seq<byte>): nat {
    if s == [] then 0 else s[0] as nat + 256 * FromLE(s[1..])
  }

  /** The signed number whose unsigned reading in a 32-bit field is `x`. */
  function Signed32(x: nat): int {
    if x < 0x8000_0000 then x else x - 0x1_0000_0000
  }

  /** The four bytes of a 32-bit word, lowest first. */
  function WordBytes(w: bv32): (s: seq<byte>)
    ensures |s| == 4
  {
    [LowByte(w), LowByte(w >> 8), LowByte(w >> 16), LowByte(w >> 24)]
  }

  /** The 32-bit word in four bytes, lowest first. */
  function WordAt(s: seq<byte>): bv32
    requires |s| == 4
  {
    Compose(Word(s[0]), Word(s[1]), Word(s[2]), Word(s[3]))
  }

  function Compose(a: bv32, b: bv32, c: bv32, d: bv32): bv32 {
    a | (b << 8) | (c << 16) | (d << 24)
  }

  lemma RangesKnown()
    ensures Range(2) == 0x1_0000 && Range(4) == 0x1_0000_0000 && Range(8) == 0x1_0000_0000_0000_0000
  {
    assert Range(4) == 0x1_0000_0000;
    assert Range(6) == 0x1_0000_0000_0000;
  }

  lemma {:induction false} FieldBound(s: seq<byte>)
    ensures FromLE(s) < Range(|s|)
  {
    if s != [] {
      FieldBound(s[1..]);
    }
  }

  lemma ProductGrows(m: nat, d: int)
    requires d > 0
    ensures m * d >= m
  {}

  lemma ModIsUnique(x: int, m: nat, q: int, r: nat)
    requires m > 0 && x == m * q + r && r < m
    ensures x % m == r
  {
    var d := x / m - q;
    assert m * d == m * (x / m) - m * q;
    if d > 0 {
      ProductGrows(m, d);
    } else if d < 0 {
      ProductGrows(m, -d);
    }
  }

  lemma ModSplits(x: int, b: nat)
    requires b > 0
    ensures x % (256 * b) == x % 256 + 256 * ((x / 256) % b)
  {
    var q := (x / 256) / b;
    var r := (x / 256) % b;
    assert x / 256 == b * q + r;
    assert 256 * (b * q) == 256 * b * q;
    ModIsUnique(x, 256 * b, q, x % 256 + 256 * r);
  }

  /** Reading back a field gives the written number modulo the field's range. */
  lemma {:induction false} FieldRoundTrip(x: int, n: nat)
    ensures FromLE(LE(x, n)) == x % Range(n)
    decreases n
  {
    if n > 0 {
      FieldRoundTrip(x / 256, n - 1);
      assert LE(x, n)[1..] == LE(x / 256, n - 1);
      ModSplits(x, Range(n - 1));
    }
  }

  /** Writing what was read gives the same bytes. */
  lemma {:induction false} FieldRewrite(s: seq<byte>)
    ensures LE(FromLE(s), |s|) == s
  {
    if s != [] {
      FieldRewrite(s[1..]);
      var x, b := FromLE(s), s[0];
      assert x % 256 == b as int && x / 256 == FromLE(s[1..]);
      assert s == [b] + s[1..];
    }
  }

  /** A field does not depend on what lies beyond its range. */
  lemma FieldWraps(x: int, y: int, n: nat)
    requires x % Range(n) == y % Range(n)
    ensures LE(x, n) == LE(y, n)
  {
    FieldRoundTrip(x, n);
    FieldRoundTrip(y, n);
    FieldRewrite(LE(x, n));
    FieldRewrite(LE(y, n));
  }

  /** A signed 32-bit field gives back exactly the numbers of its range. */
  lemma SignedRoundTrip(x: int)
    ensures -0x8000_0000 <= x < 0x8000_0000 ==> Signed32(FromLE(LE(x, 4))) == x
    ensures (Signed32(FromLE(LE(x, 4))) - x) % 0x1_0000_0000 == 0
    ensures -0x8000_0000 <= Signed32(FromLE(LE(x, 4))) < 0x8000_0000
  {
    hide LE, FromLE, Range;
    FieldRoundTrip(x, 4);
    RangesKnown();
    var u := x % 0x1_0000_0000;
    var q := x / 0x1_0000_0000;
    assert x == 0x1_0000_0000 * q + u;
    assert (u - x) == 0x1_0000_0000 * (-q);
    assert (u - 0x1_0000_0000 - x) == 0x1_0000_0000 * (-q - 1);
  }

  // ---------- 32-bit words ----------

  lemma WordFromLowBytes(w: bv32)
    ensures Compose(w & 0xff, (w >> 8) & 0xff, (w >> 16) & 0xff, (w >> 24) & 0xff) == w
  {}

  lemma WordRoundTrip(w: bv32)
    ensures WordAt(WordBytes(w)) == w
  {
    hide Word, LowByte, Compose;
    WordByteWord(w);
    WordByteWord(w >> 8);
    WordByteWord(w >> 16);
    WordByteWord(w >> 24);
    WordFromLowBytes(w);
  }

  /** `w & 0xff` and `w >> n`, named so that the proofs below can treat them as black boxes. */
  function Low(w: bv32): bv32 { w & 0xff }
  function Down8(w: bv32): bv32 { w >> 8 }
  function Down16(w: bv32): bv32 { w >> 16 }
  function Down24(w: bv32): bv32 { w >> 24 }

  lemma LowBytesOfWord(a: bv32, b: bv32, c: bv32, d: bv32)
    requires Low(a) == a && Low(b) == b && Low(c) == c && Low(d) == d
    ensures Low(Compose(a, b, c, d)) == a
    ensures Low(Down8(Compose(a, b, c, d))) == b
    ensures Low(Down16(Compose(a, b, c, d))) == c
    ensures Low(Down24(Compose(a, b, c, d))) == d
  {}

  lemma LowByteIs(w: bv32, b: byte)
    requires Low(w) == Word(b)
    ensures LowByte(w) == b
  {
    hide Word, Unpack;
    WordWithinByte(b);
    ByteWordByte(b);
  }

  lemma WordBytesNamed(w: bv32)
    ensures WordBytes(w) == [LowByte(w), LowByte(Down8(w)), LowByte(Down16(w)), LowByte(Down24(w))]
  {
    hide LowByte;
  }

  lemma LowOfWord(b: byte)
    ensures Low(Word(b)) == Word(b)
  {
    hide Word;
    WordWithinByte(b);
  }

  lemma WordRewrite(s: seq<byte>)
    requires |s| == 4
    ensures WordBytes(WordAt(s)) == s
  {
    hide Word, LowByte, Compose, Low, Down8, Down16, Down24, WordBytes;
    var a, b, c, d := Word(s[0]), Word(s[1]), Word(s[2]), Word(s[3]);
    LowOfWord(s[0]);
    LowOfWord(s[1]);
    LowOfWord(s[2]);
    LowOfWord(s[3]);
    LowBytesOfWord(a, b, c, d);
    var w := WordAt(s);
    LowByteIs(w, s[0]);
    LowByteIs(Down8(w), s[1]);
    LowByteIs(Down16(w), s[2]);
    LowByteIs(Down24(w), s[3]);
    WordBytesNamed(w);
  }

  function Or(x: bv32, y: bv32): bv32 {
    x | y
  }

  function Raise(w: bv32, k: nat): bv32 {
    if k == 0 then w else Twice(Raise(w, k - 1))
  }

  lemma ShiftInOr(d: bool, x: bv32, y: bv32)
    ensures ShiftIn(d, Or(x, y)) == Or(ShiftIn(d, x), Twice(y))
  {
    if d {} else {}
  }

  lemma OrZero(x: bv32)
    ensures Or(0, x) == x
  {}

  lemma {:induction false} PackAppend(s: seq<bool>, t: seq<bool>)
    ensures Pack(s + t) == Or(Pack(s), Raise(Pack(t), |s|))
  {
    hide ShiftIn, Or, Twice;
    if s == [] {
      assert s + t == t;
      OrZero(Pack(t));
    } else {
      assert (s + t)[1..] == s[1..] + t;
      PackAppend(s[1..], t);
      ShiftInOr(s[0], Pack(s[1..]), Raise(Pack(t), |s| - 1));
    }
  }

  lemma RaiseByte(w: bv32)
    ensures Raise(w, 8) == Raise8(w)
  {
    hide Twice;
    assert Raise(w, 1) == Twice(w);
    assert Raise(w, 3) == Twice(Twice(Raise(w, 1)));
    assert Raise(w, 5) == Twice(Twice(Raise(w, 3)));
    assert Raise(w, 7) == Twice(Twice(Raise(w, 5)));
  }

  lemma PackByteFirst(b: byte, t: seq<bool>)
    ensures Pack(Digits(b as nat, 8) + t) == Or(Word(b), Raise8(Pack(t)))
  {
    hide Pack, Raise, Or, Raise8;
    PackAppend(Digits(b as nat, 8), t);
    RaiseByte(Pack(t));
  }

  lemma NestedBits(a: bv32, b: bv32, c: bv32, d: bv32)
    ensures a | (b << 8) | (c << 16) | (d << 24)
         == Or(a, Raise8(Or(b, Raise8(Or(c, Raise8(Or(d, Raise8(0))))))))
  {}

  lemma NestedWord(a: bv32, b: bv32, c: bv32, d: bv32)
    ensures Compose(a, b, c, d)
         == Or(a, Raise8(Or(b, Raise8(Or(c, Raise8(Or(d, Raise8(0))))))))
  {
    hide Or, Raise8;
    NestedBits(a, b, c, d);
  }

  /** The word in four bytes is made of their bits in serial order. */
  lemma WordIsSerial(s: seq<byte>)
    requires |s| == 4
    ensures WordAt(s) == Pack(BitString(s))
  {
    hide Word, Pack, Or, Raise8, Digits, Compose;
    assert s[1..][1..] == s[2..];
    assert s[2..][1..] == s[3..];
    assert s[3..][1..] == [];
    PackByteFirst(s[0], BitString(s[1..]));
    PackByteFirst(s[1], BitString(s[2..]));
    PackByteFirst(s[2], BitString(s[3..]));
    PackByteFirst(s[3], BitString([]));
    PackNothing();
    NestedWord(Word(s[0]), Word(s[1]), Word(s[2]), Word(s[3]));
  }

  lemma PackNothing()
    ensures Pack([]) == 0 && BitString([]) == []
  {}

  /** The register every intact message leaves once its own checksum has been fed to it. */
  function Residue(): bv32 {
    Steps(ALL_ONES, 32)
  }

  /** A body followed by four bytes passes the check exactly when the register ends at the residue. */
  lemma ChecksumIffResidue(body: seq<byte>, tail: seq<byte>)
    requires |tail| == 4
    ensures WordAt(tail) == Checksum(body) <==> Register(ALL_ONES, body + tail) == Residue()
  {
    hide Steps, Register, Xor, Pack, WordAt, Serial;
    var c := Register(ALL_ONES, body);
    var w := WordAt(tail);
    RegisterAppend(ALL_ONES, body, tail);
    RegisterIsSerial(c, tail);
    SerialSteps(c, BitString(tail));
    WordIsSerial(tail);
    assert Register(ALL_ONES, body + tail) == Steps(Xor(c, w), 32);
    if w == Xor(c, ALL_ONES) {
      XorTwice(c, ALL_ONES);
    } else if Steps(Xor(c, w), 32) == Steps(ALL_ONES, 32) {
      StepsInjective(Xor(c, w), ALL_ONES, 32);
      XorTwice(c, w);
    }
  }

  lemma XorTwice(c: bv32, w: bv32)
    ensures Xor(c, Xor(c, w)) == w
  {}
}
