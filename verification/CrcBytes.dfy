/** The register several bytes at a time: what the tables of crc32.c hold, and byte-swapped words. */
module CrcBytes {
  import opened Bits
  import opened ExclusiveOr
  import opened CrcSpec

  /** Entry n of table k: the byte n followed by k zero bytes is shifted out. */
  function Entry(k: nat, n: nat): (r: nat)
    requires n < 256
    ensures r < WORD
  {
    Shift(n, 8 * k + 8)
  }

  /** The low byte goes through the table, the others move up. */
  lemma LowByteOut(x: nat, k: nat)
    requires x < WORD
    ensures Shift(x, 8 * k + 8) == Xor(Entry(k, x % 256), Shift(x / 256, 8 * k))
  {
    hide Xor, Shift, Pow2;
    var lo, hi := x % 256, x / 256;
    Pow2Values();
    XorDisjoint(hi, lo, 8);
    XorCommutes(hi * 256, lo);
    ShiftLinear(lo, 256 * hi, 8 * k + 8);
    ShiftAdd(256 * hi, 8, 8 * k);
    ShiftZeros(hi, 8);
  }

  lemma ShiftNone(x: nat)
    requires x < WORD
    ensures Shift(x, 0) == x
  {
  }

  /** One byte is taken in. */
  lemma ByteIn(c: nat, b: Byte)
    requires c < WORD
    ensures Xor(c, b) < WORD && Feed(c, Lsb(b, 8)) == Xor(Entry(0, Xor(c, b) % 256), c / 256)
  {
    hide Xor, Shift, Feed, Lsb, Pow2, Entry;
    Pow2Values();
    FeedTogether(c, b, 8);
    LowByteOut(Xor(c, b), 0);
    ShiftNone(Xor(c, b) / 256);
    HighByteKept(c, b);
  }

  lemma HighByteKept(c: nat, b: Byte)
    ensures Xor(c, b) / 256 == c / 256
  {
    hide Xor, Shr, Pow2;
    Pow2Values();
    XorShr(c, b, 8);
    ShrIsDiv(c, 8);
    ShrIsDiv(b, 8);
    ShrIsDiv(Xor(c, b), 8);
    XorZero(c / 256);
  }

  /* ---------- words ---------- */

  function Join(b0: nat, b1: nat, b2: nat, b3: nat): (w: nat)
    ensures b0 < 256 && b1 < 256 && b2 < 256 && b3 < 256 ==> w < WORD
  {
    b0 + 256 * (b1 + 256 * (b2 + 256 * b3))
  }

  /** The bytes of a word, the lowest one first. */
  function B0(c: nat): (b: nat) ensures b < 256 { c % 256 }

  function B1(c: nat): (b: nat) ensures b < 256 { c / 256 % 256 }

  function B2(c: nat): (b: nat) ensures b < 256 { c / 0x10000 % 256 }

  function B3(c: nat): (b: nat) { c / 0x1000000 }

  /** A word in the other byte order: ZSWAP32. */
  function Swap(c: nat): (r: nat)
    requires c < WORD
    ensures r < WORD
  {
    Join(B3(c), B2(c), B1(c), B0(c))
  }

  lemma LowAndHigh(r: nat, q: nat)
    requires r < 256
    ensures (r + 256 * q) % 256 == r && (r + 256 * q) / 256 == q
  {
  }

  lemma TwoShifts(c: nat)
    ensures c / 0x10000 == c / 256 / 256 && c / 0x1000000 == c / 256 / 256 / 256
  {
  }

  lemma BytesOfJoin(b0: nat, b1: nat, b2: nat, b3: nat)
    requires b0 < 256 && b1 < 256 && b2 < 256
    ensures var w := Join(b0, b1, b2, b3); B0(w) == b0 && B1(w) == b1 && B2(w) == b2 && B3(w) == b3
  {
    TwoShifts(Join(b0, b1, b2, b3));
    LowAndHigh(b0, b1 + 256 * (b2 + 256 * b3));
    LowAndHigh(b1, b2 + 256 * b3);
    LowAndHigh(b2, b3);
  }

  lemma JoinOfBytes(c: nat)
    ensures Join(B0(c), B1(c), B2(c), B3(c)) == c
  {
    TwoShifts(c);
    var d := c / 256;
    var e := d / 256;
    assert e == e % 256 + 256 * (e / 256);
    assert d == d % 256 + 256 * e;
    assert c == c % 256 + 256 * d;
  }

  lemma TopByte(c: nat)
    requires c < WORD
    ensures B3(c) < 256
  {
  }

  lemma SwapBytes(c: nat)
    requires c < WORD
    ensures B0(Swap(c)) == B3(c) && B1(Swap(c)) == B2(c) && B2(Swap(c)) == B1(c) && B3(Swap(c)) == B0(c)
  {
    hide B0, B1, B2, B3, Join;
    TopByte(c);
    BytesOfJoin(B3(c), B2(c), B1(c), B0(c));
  }

  lemma SwapBack(c: nat)
    requires c < WORD
    ensures Swap(Swap(c)) == c
  {
    hide B0, B1, B2, B3, Join;
    SwapBytes(c);
    JoinOfBytes(c);
  }

  lemma SwapJoin(b0: Byte, b1: Byte, b2: Byte, b3: Byte)
    ensures Swap(Join(b0, b1, b2, b3)) == Join(b3, b2, b1, b0)
  {
    hide B0, B1, B2, B3, Join;
    BytesOfJoin(b0, b1, b2, b3);
  }

  /** x with another byte behind it. */
  function WithLow(a: nat, x: nat): nat {
    a + 256 * x
  }

  /** Exclusive or goes byte by byte. */
  lemma XorLowByte(a: nat, b: nat, x: nat, y: nat)
    requires a < 256 && b < 256
    ensures Xor(WithLow(a, x), WithLow(b, y)) == WithLow(Xor(a, b), Xor(x, y)) && Xor(a, b) < 256
  {
    hide Xor, Pow2;
    Pow2Values();
    XorDisjoint(x, a, 8);
    XorDisjoint(y, b, 8);
    XorBound(a, b, 8);
    XorSwap(x * 256, a, y * 256, b);
    XorShift(x, y, 8);
    XorDisjoint(Xor(x, y), Xor(a, b), 8);
  }

  lemma XorJoin(a0: nat, a1: nat, a2: nat, a3: nat, b0: nat, b1: nat, b2: nat, b3: nat)
    requires a0 < 256 && a1 < 256 && a2 < 256 && a3 < 256 && b0 < 256 && b1 < 256 && b2 < 256 && b3 < 256
    ensures Xor(Join(a0, a1, a2, a3), Join(b0, b1, b2, b3)) == Join(Xor(a0, b0), Xor(a1, b1), Xor(a2, b2), Xor(a3, b3))
    ensures Xor(a0, b0) < 256 && Xor(a1, b1) < 256 && Xor(a2, b2) < 256 && Xor(a3, b3) < 256
  {
    hide Xor, WithLow, Join;
    XorLowByte(a3, b3, 0, 0);
    XorLowByte(a2, b2, a3, b3);
    XorLowByte(a1, b1, WithLow(a2, a3), WithLow(b2, b3));
    XorLowByte(a0, b0, WithLow(a1, WithLow(a2, a3)), WithLow(b1, WithLow(b2, b3)));
    JoinIs(a0, a1, a2, a3);
    JoinIs(b0, b1, b2, b3);
    JoinIs(Xor(a0, b0), Xor(a1, b1), Xor(a2, b2), Xor(a3, b3));
  }

  lemma JoinIs(b0: nat, b1: nat, b2: nat, b3: nat)
    requires b0 < 256 && b1 < 256 && b2 < 256 && b3 < 256
    ensures Join(b0, b1, b2, b3) == WithLow(b0, WithLow(b1, WithLow(b2, b3)))
  {
  }

  lemma XorBytes(a: nat, b: nat)
    requires a < WORD && b < WORD
    ensures B0(Xor(a, b)) == Xor(B0(a), B0(b)) && B1(Xor(a, b)) == Xor(B1(a), B1(b))
    ensures B2(Xor(a, b)) == Xor(B2(a), B2(b)) && B3(Xor(a, b)) == Xor(B3(a), B3(b))
  {
    hide Xor, B0, B1, B2, B3, Join;
    TopByte(a);
    TopByte(b);
    JoinOfBytes(a);
    JoinOfBytes(b);
    XorJoin(B0(a), B1(a), B2(a), B3(a), B0(b), B1(b), B2(b), B3(b));
    BytesOfJoin(Xor(B0(a), B0(b)), Xor(B1(a), B1(b)), Xor(B2(a), B2(b)), Xor(B3(a), B3(b)));
  }

  lemma SwapLinear(a: nat, b: nat)
    requires a < WORD && b < WORD
    ensures Xor(a, b) < WORD && Swap(Xor(a, b)) == Xor(Swap(a), Swap(b))
  {
    hide Xor, B0, B1, B2, B3, Join;
    XorWord(a, b);
    TopByte(a);
    TopByte(b);
    XorBytes(a, b);
    XorJoin(B3(a), B2(a), B1(a), B0(a), B3(b), B2(b), B1(b), B0(b));
  }

  /** The bits of four bytes are those of a little-endian word. */
  lemma WordBits(b0: Byte, b1: Byte, b2: Byte, b3: Byte)
    ensures BytesBits([b0, b1, b2, b3]) == Lsb(Join(b0, b1, b2, b3), 32)
  {
    hide Lsb, Pow2;
    Pow2Values();
    var s := [b0, b1, b2, b3];
    assert s[..3] == [b0, b1, b2] && s[..3][..2] == [b0, b1] && s[..2][..1] == [b0] && s[..1][..0] == [];
    LowBits(b0, b1 + 256 * (b2 + 256 * b3), 24);
    LowBits(b1, b2 + 256 * b3, 16);
    LowBits(b2, b3, 8);
    var p, q, r, t := Lsb(b0, 8), Lsb(b1, 8), Lsb(b2, 8), Lsb(b3, 8);
    assert BytesBits(s) == BytesBits(s[..3]) + t;
    assert BytesBits(s[..3]) == BytesBits([b0, b1]) + r;
    assert BytesBits([b0, b1]) == BytesBits([b0]) + q;
    assert BytesBits([b0]) == [] + p;
    assert ((([] + p) + q) + r) + t == p + (q + (r + t));
  }

  lemma LowBits(b: Byte, v: nat, n: nat)
    ensures Lsb(b + 256 * v, 8 + n) == Lsb(b, 8) + Lsb(v, n)
  {
    hide Pow2, Lsb, Shr;
    var x := b + 256 * v;
    Pow2Values();
    LsbSplit(x, 8, n);
    ShrIsDiv(x, 8);
    LsbMod(x, 8);
  }

  /** Four bytes go out of the register at once. */
  lemma FourBytesOut(x: nat)
    requires x < WORD
    ensures B3(x) < 256 && Shift(x, 32) == Xor(Xor(Xor(Entry(3, B0(x)), Entry(2, B1(x))), Entry(1, B2(x))), Entry(0, B3(x)))
  {
    hide Xor, Shift, Entry;
    TwoShifts(x);
    TopByte(x);
    var y, z, u := x / 256, x / 256 / 256, x / 256 / 256 / 256;
    LowByteOut(x, 3);
    LowByteOut(y, 2);
    LowByteOut(z, 1);
    LowByteOut(u, 0);
    ShiftNone(u / 256);
    XorZero(Entry(0, u));
    var a, b, c, d := Entry(3, x % 256), Entry(2, y % 256), Entry(1, z % 256), Entry(0, u);
    XorAssoc(a, b, Xor(c, d));
    XorAssoc(Xor(a, b), c, d);
  }

  /** Four bytes are taken in together. */
  lemma WordIn(c: nat, b0: Byte, b1: Byte, b2: Byte, b3: Byte)
    requires c < WORD
    ensures Xor(c, Join(b0, b1, b2, b3)) < WORD
    ensures Feed(c, BytesBits([b0, b1, b2, b3])) == Shift(Xor(c, Join(b0, b1, b2, b3)), 32)
  {
    hide Xor, Shift, Feed, Lsb, Pow2, BytesBits;
    WordIs();
    WordBits(b0, b1, b2, b3);
    FeedTogether(c, Join(b0, b1, b2, b3), 32);
  }
}
