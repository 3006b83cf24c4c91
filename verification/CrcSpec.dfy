/**
 The cyclic redundancy check of RFC 1952, section 8, as a shift register that takes one bit after
 the other, and the two facts that every faster way to compute it rests on: the register is linear
 over exclusive or, and zeros that are shifted out leave no trace.
 */
module CrcSpec {
  import opened Bits
  import opened ExclusiveOr

  const POLY: nat := 0xedb88320
  const WORD: nat := 0x1_0000_0000
  const ONES: nat := 0xffffffff

  lemma WordIs()
    ensures Pow2(32) == WORD && Pow2(24) == 0x1_000000 && Pow2(31) == 0x8000_0000
  {
    Pow2Values();
    Pow2Add(16, 16);
    Pow2Add(16, 8);
    Pow2Add(16, 15);
  }

  lemma XorWord(a: nat, b: nat)
    requires a < WORD && b < WORD
    ensures Xor(a, b) < WORD
  {
    WordIs();
    XorBound(a, b, 32);
  }

  /** Exclusive or of four: the order does not matter. */
  lemma XorSwap(a: nat, b: nat, c: nat, d: nat)
    ensures Xor(Xor(a, b), Xor(c, d)) == Xor(Xor(a, c), Xor(b, d))
  {
    hide Xor;
    XorAssoc(a, b, Xor(c, d));
    XorAssoc(b, c, d);
    XorCommutes(b, c);
    XorAssoc(c, b, d);
    XorAssoc(a, c, Xor(b, d));
  }

  /** One bit is shifted out of the register; if it is a one the polynomial is added. */
  function ShiftOut(c: nat): (r: nat)
    requires c < WORD
    ensures r < WORD
  {
    XorWord(POLY, c / 2);
    if c % 2 == 1 then Xor(POLY, c / 2) else c / 2
  }

  /** n bits are shifted out. */
  function Shift(c: nat, n: nat): (r: nat)
    requires c < WORD
    ensures r < WORD
    decreases n
  {
    if n == 0 then c else Shift(ShiftOut(c), n - 1)
  }

  /** The register after the given bits, one at a time. */
  function Feed(c: nat, bits: seq<bool>): (r: nat)
    requires c < WORD
    ensures r < WORD
    decreases |bits|
  {
    if bits == [] then c
    else
      var n := |bits| - 1;
      XorWord(Feed(c, bits[..n]), Bit(bits[n]));
      ShiftOut(Xor(Feed(c, bits[..n]), Bit(bits[n])))
  }

  /** crc32(crc, data): a check value can be continued over more data. */
  function Crc(crc: nat, data: seq<Byte>): (r: nat)
    requires crc < WORD
    ensures r < WORD
  {
    XorWord(crc, ONES);
    XorWord(Feed(Xor(crc, ONES), BytesBits(data)), ONES);
    Xor(Feed(Xor(crc, ONES), BytesBits(data)), ONES)
  }

  /* ---------- linearity ---------- */

  lemma ShiftOutLinear(a: nat, b: nat)
    requires a < WORD && b < WORD
    ensures Xor(a, b) < WORD && ShiftOut(Xor(a, b)) == Xor(ShiftOut(a), ShiftOut(b))
  {
    hide Xor;
    XorWord(a, b);
    XorStep(a, b);
    var p, x, y := POLY, a / 2, b / 2;
    if a % 2 == 1 && b % 2 == 1 {
      XorSwap(p, x, p, y);
      XorSelf(p);
      XorZero(Xor(x, y));
    } else if a % 2 == 1 {
      XorAssoc(p, x, y);
    } else if b % 2 == 1 {
      XorAssoc(x, p, y);
      XorCommutes(x, p);
      XorAssoc(p, x, y);
    }
  }

  lemma {:induction false} ShiftLinear(a: nat, b: nat, n: nat)
    requires a < WORD && b < WORD
    ensures Xor(a, b) < WORD && Shift(Xor(a, b), n) == Xor(Shift(a, n), Shift(b, n))
    decreases n
  {
    hide Xor, ShiftOut;
    ShiftOutLinear(a, b);
    if n > 0 {
      ShiftLinear(ShiftOut(a), ShiftOut(b), n - 1);
    }
  }

  lemma {:induction false} ShiftAdd(c: nat, m: nat, n: nat)
    requires c < WORD
    ensures Shift(c, m + n) == Shift(Shift(c, m), n)
    decreases m
  {
    hide ShiftOut;
    if m > 0 {
      ShiftAdd(ShiftOut(c), m - 1, n);
      assert m + n - 1 == m - 1 + n;
    }
  }

  lemma {:induction false} ShiftZero(n: nat)
    ensures Shift(0, n) == 0
  {
    if n > 0 {
      ShiftZero(n - 1);
    }
  }

  /** Low zeros are shifted out without a trace. */
  lemma {:induction false} ShiftZeros(y: nat, n: nat)
    requires Pow2(n) * y < WORD
    ensures Shift(Pow2(n) * y, n) == y
  {
    if n > 0 {
      var x := Pow2(n - 1) * y;
      assert Pow2(n) * y == 2 * x by { TimesTwice(y, Pow2(n - 1)); }
      assert ShiftOut(2 * x) == x;
      ShiftZeros(y, n - 1);
    }
  }

  /* ---------- several bits at once ---------- */

  lemma {:induction false} FeedAppend(c: nat, s: seq<bool>, t: seq<bool>)
    requires c < WORD
    ensures Feed(c, s + t) == Feed(Feed(c, s), t)
    decreases |t|
  {
    hide ShiftOut, Xor;
    if t == [] {
      assert s + t == s;
    } else {
      var n := |t| - 1;
      FeedAppend(c, s, t[..n]);
      assert (s + t)[..|s + t| - 1] == s + t[..n];
    }
  }

  lemma FeedOne(c: nat, b: bool)
    requires c < WORD
    ensures Xor(c, Bit(b)) < WORD && Feed(c, [b]) == ShiftOut(Xor(c, Bit(b)))
  {
    hide ShiftOut, Xor;
    XorWord(c, Bit(b));
    assert [b][..0] == [];
    assert Feed(c, []) == c;
  }

  /** Any number of bits can be added to the register at once and then shifted out together. */
  lemma {:induction false} FeedTogether(c: nat, v: nat, n: nat)
    requires c < WORD && v < Pow2(n) && n <= 32
    ensures v < WORD && Xor(c, v) < WORD && Feed(c, Lsb(v, n)) == Shift(Xor(c, v), n)
    decreases n
  {
    hide ShiftOut, Xor;
    WordIs();
    Pow2Monotone(n, 32);
    XorWord(c, v);
    if n == 0 {
      XorZero(c);
    } else {
      var b := v % 2 == 1;
      FeedOne(c, b);
      FeedAppend(c, [b], Lsb(v / 2, n - 1));
      var c' := ShiftOut(Xor(c, Bit(b)));
      FeedTogether(c', v / 2, n - 1);
      FirstOfMany(c, v);
    }
  }

  /** The first bit is shifted out, the others only move up. */
  lemma FirstOfMany(c: nat, v: nat)
    requires c < WORD && v < WORD
    ensures Xor(c, v) < WORD && Xor(c, v % 2) < WORD
    ensures ShiftOut(Xor(c, v)) == Xor(ShiftOut(Xor(c, v % 2)), v / 2)
  {
    hide Xor;
    XorWord(c, v);
    XorWord(c, v % 2);
    var rest := 2 * (v / 2);
    SplitLow(v);
    XorAssoc(c, v % 2, rest);
    ShiftOutLinear(Xor(c, v % 2), rest);
    assert ShiftOut(rest) == v / 2;
  }

  lemma SplitLow(v: nat)
    ensures Xor(v % 2, 2 * (v / 2)) == v
  {
    hide Xor;
    XorDisjoint(v / 2, v % 2, 1);
    XorCommutes(v / 2 * Pow2(1), v % 2);
    Pow2Values();
  }

  /* ---------- concatenation ---------- */

  lemma Ones(c: nat)
    requires c < WORD
    ensures Xor(c, ONES) < WORD && Xor(Xor(c, ONES), ONES) == c
  {
    hide Xor;
    XorWord(c, ONES);
    XorAssoc(c, ONES, ONES);
    XorSelf(ONES);
    XorZero(c);
  }

  /** Continuing a check value over a second buffer gives that of both. */
  lemma CrcContinues(crc: nat, a: seq<Byte>, b: seq<Byte>)
    requires crc < WORD
    ensures Crc(Crc(crc, a), b) == Crc(crc, a + b)
  {
    hide Xor, Feed, BytesBits;
    Ones(crc);
    var r := Feed(Xor(crc, ONES), BytesBits(a));
    Ones(r);
    BytesBitsAppend(a, b);
    FeedAppend(Xor(crc, ONES), BytesBits(a), BytesBits(b));
  }

  /** What was in the register before and what is fed do not interfere. */
  lemma {:induction false} FeedLinear(a: nat, b: nat, s: seq<bool>)
    requires a < WORD && b < WORD
    ensures Xor(a, b) < WORD && Feed(Xor(a, b), s) == Xor(Shift(a, |s|), Feed(b, s))
    decreases |s|
  {
    hide Xor, ShiftOut;
    XorWord(a, b);
    if s != [] {
      var n := |s| - 1;
      FeedLinear(a, b, s[..n]);
      var x, y, t := Shift(a, n), Feed(b, s[..n]), Bit(s[n]);
      XorWord(y, t);
      XorAssoc(x, y, t);
      ShiftOutLinear(x, Xor(y, t));
      ShiftAdd(a, n, 1);
    }
  }

  /**
   The check value of a concatenation from those of its parts and the length of the second one:
   as many zero bits as that has are shifted through the first check value.
   */
  lemma CrcOfBoth(a: seq<Byte>, b: seq<Byte>)
    ensures Crc(0, a + b) == Xor(Shift(Crc(0, a), 8 * |b|), Crc(0, b))
  {
    hide Xor, Feed, Shift, BytesBits;
    CrcContinues(0, a, b);
    var s, x := BytesBits(b), Crc(0, a);
    FeedLinear(x, ONES, s);
    XorZero(ONES);
    XorAssoc(Shift(x, |s|), Feed(ONES, s), ONES);
  }
}
