/**
 Known values of the check: data that are followed by their own check value always come to the same
 value, and so the ones before and after the shift register are what they have to be (section 8 of
 RFC 1952).
 */
module CrcValues {
  import opened Bits
  import opened ExclusiveOr
  import opened CrcSpec
  import opened CrcBytes

  /* ---------- the register in 32 bits ---------- */

  function Half(c: bv32): bv32 {
    c >> 1
  }

  predicate Odd(c: bv32) {
    c & 1 == 1
  }

  function Both(a: bv32, b: bv32): bv32 {
    a ^ b
  }

  lemma BothParts(a: bv32, b: bv32)
    ensures Half(Both(a, b)) == Both(Half(a), Half(b)) && (Odd(Both(a, b)) <==> Odd(a) != Odd(b))
  {
  }

  /** The number in the low n bits of c. */
  function Number(c: bv32, n: nat): (v: nat) {
    if n == 0 then 0 else Bit(Odd(c)) + 2 * Number(Half(c), n - 1)
  }

  lemma NumberParts(c: bv32, n: nat)
    requires n > 0
    ensures Number(c, n) % 2 == Bit(Odd(c)) && Number(c, n) / 2 == Number(Half(c), n - 1)
  {
    hide Half, Odd;
  }

  lemma NoBits(c: bv32)
    ensures Number(c, 0) == 0
  {
  }

  lemma {:induction false} NumberBound(c: bv32, n: nat)
    ensures Number(c, n) < Pow2(n)
    decreases n
  {
    hide Half, Odd;
    if n > 0 {
      NumberBound(Half(c), n - 1);
    }
  }

  lemma {:induction false} NumberXor(a: bv32, b: bv32, n: nat)
    ensures Number(Both(a, b), n) == Xor(Number(a, n), Number(b, n))
    decreases n
  {
    hide Xor, Number, Half, Odd, Both;
    if n == 0 {
      NoBits(a);
      NoBits(b);
      NoBits(Both(a, b));
      XorZero(0);
    } else {
      BothParts(a, b);
      NumberParts(a, n);
      NumberParts(b, n);
      NumberParts(Both(a, b), n);
      NumberXor(Half(a), Half(b), n - 1);
      XorStep(Number(a, n), Number(b, n));
      XorIs(Number(Both(a, b), n), Xor(Number(a, n), Number(b, n)));
    }
  }

  /** n ones */
  function Lows(n: nat): bv32 {
    if n == 0 then 0 else (Lows(n - 1) << 1) | 1
  }

  predicate Within(c: bv32, m: bv32) {
    c & !m == 0
  }

  lemma {:induction false} NumberTop(c: bv32, n: nat)
    requires Within(c, Lows(n))
    ensures Number(c, n + 1) == Number(c, n)
    decreases n
  {
    hide Half, Odd, Number, Lows, Within;
    NumberParts(c, n + 1);
    if n > 0 {
      NumberParts(c, n);
      LowsNext(n);
      WithinHalf(c, Lows(n), Lows(n - 1));
      NumberTop(Half(c), n - 1);
    } else {
      NoLows();
      WithinNone(c);
      NoBits(c);
      NoBits(Half(c));
    }
  }

  lemma LowsNext(n: nat)
    requires n > 0
    ensures Lows(n) == (Lows(n - 1) << 1) | 1
  {
  }

  lemma NoLows()
    ensures Lows(0) == 0
  {
  }

  lemma WithinHalf(c: bv32, m: bv32, h: bv32)
    requires Within(c, m) && m == (h << 1) | 1
    ensures Within(Half(c), h)
  {
  }

  lemma WithinNone(c: bv32)
    requires Within(c, 0)
    ensures c == 0 && !Odd(c)
  {
  }

  /* ---------- shifting ---------- */

  /** The register after one more bit, and after n more. */
  function Next(c: bv32): bv32 {
    if Odd(c) then Both(0xedb88320, Half(c)) else Half(c)
  }

  function After(c: bv32, n: nat): bv32
    decreases n
  {
    if n == 0 then c else After(Next(c), n - 1)
  }

  lemma LowThirtyOne()
    ensures Lows(31) == 0x7fffffff
  {
    assert Lows(8) == 0xff;
    assert Lows(16) == 0xffff;
    assert Lows(24) == 0xffffff;
  }

  lemma HalfWithin(c: bv32)
    ensures Within(Half(c), 0x7fffffff)
  {
  }

  lemma NumberWord(c: bv32)
    ensures Number(c, 32) < WORD
  {
    WordIs();
    NumberBound(c, 32);
  }

  lemma NextNumber(c: bv32)
    ensures Number(c, 32) < WORD && ShiftOut(Number(c, 32)) == Number(Next(c), 32)
  {
    hide Number, Half, Odd, Both, Lows, Within, Xor;
    NumberWord(c);
    NumberParts(c, 32);
    HalfWithin(c);
    LowThirtyOne();
    NumberTop(Half(c), 31);
    NumberXor(0xedb88320, Half(c), 32);
    PolyNumber();
  }

  lemma {:induction false} AfterNumber(c: bv32, n: nat)
    ensures Number(c, 32) < WORD && Shift(Number(c, 32), n) == Number(After(c, n), 32)
    decreases n
  {
    hide Number, Next, ShiftOut;
    NumberWord(c);
    if n > 0 {
      NextNumber(c);
      AfterNumber(Next(c), n - 1);
    }
  }

  lemma PolyNumber()
    ensures Number(0xedb88320, 32) == 0xedb88320
  {
    assert Number(0xe, 4) == 0xe;
    assert Number(0xed, 8) == 0xed;
    assert Number(0xedb, 12) == 0xedb;
    assert Number(0xedb8, 16) == 0xedb8;
    assert Number(0xedb88, 20) == 0xedb88;
    assert Number(0xedb883, 24) == 0xedb883;
    assert Number(0xedb8832, 28) == 0xedb8832;
  }

  lemma OnesNumber()
    ensures Number(0xffffffff, 32) == 0xffffffff
  {
    assert Number(0xf, 4) == 0xf;
    assert Number(0xff, 8) == 0xff;
    assert Number(0xfff, 12) == 0xfff;
    assert Number(0xffff, 16) == 0xffff;
    assert Number(0xfffff, 20) == 0xfffff;
    assert Number(0xffffff, 24) == 0xffffff;
    assert Number(0xfffffff, 28) == 0xfffffff;
  }

  lemma NoDataNumber()
    ensures Number(0xd202ef8d, 32) == 0xd202ef8d
  {
    assert Number(0xd, 4) == 0xd;
    assert Number(0xd2, 8) == 0xd2;
    assert Number(0xd20, 12) == 0xd20;
    assert Number(0xd202, 16) == 0xd202;
    assert Number(0xd202e, 20) == 0xd202e;
    assert Number(0xd202ef, 24) == 0xd202ef;
    assert Number(0xd202ef8, 28) == 0xd202ef8;
  }

  lemma ResidueNumber()
    ensures Number(0x2144df1c, 32) == 0x2144df1c
  {
    assert Number(0x2, 4) == 0x2;
    assert Number(0x21, 8) == 0x21;
    assert Number(0x214, 12) == 0x214;
    assert Number(0x2144, 16) == 0x2144;
    assert Number(0x2144d, 20) == 0x2144d;
    assert Number(0x2144df, 24) == 0x2144df;
    assert Number(0x2144df1, 28) == 0x2144df1;
  }

  lemma EightOut()
    ensures After(0xffffffff, 8) == 0x2dfd1072 && Both(0x2dfd1072, 0xffffffff) == 0xd202ef8d
  {
  }

  lemma AllOut()
    ensures After(0xffffffff, 32) == 0xdebb20e3 && Both(0xdebb20e3, 0xffffffff) == 0x2144df1c
  {
    SecondOut();
    LastOut();
    assert After(0xffffffff, 32) == After(0x2dfd1072, 24);
  }

  lemma SecondOut()
    ensures After(0x2dfd1072, 24) == After(0xbe26ed00, 16)
  {
    assert After(0x2dfd1072, 24) == After(0x39b1f1cf, 20);
  }

  lemma LastOut()
    ensures After(0xbe26ed00, 16) == 0xdebb20e3
  {
    assert After(0xbe26ed, 8) == 0xdebb20e3;
    assert After(0xbe26ed00, 16) == After(0x17c4dda, 8 + 1);
  }

  /* ---------- the values ---------- */

  /** The check value of a single zero byte: that is what the ones in front are for. */
  lemma OfZero()
    ensures Crc(0, [0]) == 0xd202ef8d
  {
    hide Xor, Shift, Number, After, Both, Lsb;
    WordIs();
    assert BytesBits([0]) == Lsb(0, 8) by { OneByteBits(0); }
    XorZero(ONES);
    FeedTogether(ONES, 0, 8);
    OnesNumber();
    AfterNumber(0xffffffff, 8);
    EightOut();
    NumberXor(0x2dfd1072, 0xffffffff, 32);
    NoDataNumber();
  }

  lemma OneByteBits(b: Byte)
    ensures BytesBits([b]) == Lsb(b, 8)
  {
    assert [b][..0] == [];
    assert [] + Lsb(b, 8) == Lsb(b, 8);
  }

  /** The four bytes of a check value, lowest first, as they stand behind the data. */
  function Trailer(crc: nat): (t: seq<Byte>)
    requires crc < WORD
    ensures |t| == 4
  {
    TopByte(crc);
    [B0(crc), B1(crc), B2(crc), B3(crc)]
  }

  lemma TrailerBits(crc: nat)
    requires crc < WORD
    ensures BytesBits(Trailer(crc)) == Lsb(crc, 32)
  {
    hide Lsb, Pow2;
    var t := Trailer(crc);
    assert t == ([B0(crc)] + [B1(crc)]) + ([B2(crc)] + [B3(crc)]);
    BytesBitsAppend([B0(crc)] + [B1(crc)], [B2(crc)] + [B3(crc)]);
    TwoBytesBits(B0(crc), B1(crc));
    TwoBytesBits(B2(crc), B3(crc));
    JoinOfBytes(crc);
    LowerHalf(crc);
    LsbSplit(crc, 16, 16);
    ShrIsDiv(crc, 16);
    Pow2Values();
    LsbMod(crc, 16);
  }

  lemma LowerHalf(crc: nat)
    requires crc < WORD
    ensures B0(crc) + 256 * B1(crc) == crc % 65536 && B2(crc) + 256 * B3(crc) == crc / 65536
  {
    JoinOfBytes(crc);
    TopByte(crc);
    ModUnique(crc, 65536, B2(crc) + 256 * B3(crc), B0(crc) + 256 * B1(crc));
  }

  lemma TwoBytesBits(a: Byte, b: Byte)
    ensures BytesBits([a] + [b]) == Lsb(a + 256 * b, 16)
  {
    hide Lsb, Pow2;
    BytesBitsAppend([a], [b]);
    OneByteBits(a);
    OneByteBits(b);
    LsbSplit(a + 256 * b, 8, 8);
    ShrIsDiv(a + 256 * b, 8);
    Pow2Values();
    LsbMod(a + 256 * b, 8);
    LowAndHigh(a, b);
  }

  /** Whatever the data, with their check value behind them they come to the same value. */
  lemma Residue(data: seq<Byte>)
    ensures Crc(0, data + Trailer(Crc(0, data))) == 0x2144df1c
  {
    hide Xor, Shift, Number, After, Both, Feed, BytesBits, Trailer, Lsb;
    WordIs();
    XorZero(ONES);
    var r, v := Feed(ONES, BytesBits(data)), Crc(0, data);
    BytesBitsAppend(data, Trailer(v));
    TrailerBits(v);
    FeedAppend(ONES, BytesBits(data), Lsb(v, 32));
    FeedTogether(r, v, 32);
    XorAssoc(r, r, ONES);
    XorSelf(r);
    OnesNumber();
    AfterNumber(0xffffffff, 32);
    AllOut();
    NumberXor(0xdebb20e3, 0xffffffff, 32);
    ResidueNumber();
  }
}
