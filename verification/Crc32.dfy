/** crc32.c: the tables, the three ways to go through the data, and the combination of check values. */
module Crc32 {
  import opened Bits
  import opened ExclusiveOr
  import opened CrcSpec
  import opened CrcBytes

  const GF2_DIM: nat := 32

  /* ---------- the tables ---------- */

  /** The powers of x in the polynomial, without x^32. */
  function Terms(): (p: seq<nat>)
    ensures |p| == 14
  {
    [0, 1, 2, 4, 5, 7, 8, 10, 11, 12, 16, 22, 23, 26]
  }

  /** The polynomial with its first n terms. */
  function Partial(n: nat): (c: nat)
    requires n <= 14
  {
    [0, 0x80000000, 0xc0000000, 0xe0000000, 0xe8000000, 0xec000000, 0xed000000, 0xed800000, 0xeda00000,
     0xedb00000, 0xedb80000, 0xedb88000, 0xedb88200, 0xedb88300, 0xedb88320][n]
  }

  /** a | 1 << k */
  function SetBit(a: nat, k: nat): nat {
    if Shr(a, k) % 2 == 1 then a else a + Pow2(k)
  }

  lemma HighPowers()
    ensures Pow2(19) == 0x80000 && Pow2(20) == 0x100000 && Pow2(21) == 0x200000 && Pow2(23) == 0x800000
    ensures Pow2(24) == 0x1000000 && Pow2(26) == 0x4000000 && Pow2(27) == 0x8000000 && Pow2(29) == 0x20000000
    ensures Pow2(30) == 0x40000000 && Pow2(31) == 0x80000000
  {
    Pow2Values();
    Pow2Add(16, 3);
    Pow2Add(16, 4);
    Pow2Add(16, 5);
    Pow2Add(16, 7);
    Pow2Add(16, 8);
    Pow2Add(16, 10);
    Pow2Add(16, 11);
    Pow2Add(16, 13);
    Pow2Add(16, 14);
    Pow2Add(16, 15);
  }

  lemma NextTerm(n: nat)
    requires n < 14
    ensures SetBit(Partial(n), 31 - Terms()[n]) == Partial(n + 1)
  {
    hide Pow2, Shr;
    Pow2Values();
    HighPowers();
    ShrIsDiv(Partial(n), 31 - Terms()[n]);
  }

  ghost predicate TableOk(t: array2<nat>)
    reads t
  {
    && t.Length0 == 8 && t.Length1 == 256
    && (forall k, n {:trigger t[k, n]} :: 0 <= k < 4 && 0 <= n < 256 ==> t[k, n] == Entry(k, n))
    && (forall k, n {:trigger t[k, n]} :: 4 <= k < 8 && 0 <= n < 256 ==> t[k, n] == Swap(Entry(k - 4, n)))
  }

  lemma OutOnce(c: nat, n: nat)
    requires c < WORD && n >= 1
    ensures Shift(c, n) == Shift(ShiftOut(c), n - 1)
  {
  }

  /** The next table from the one before it. */
  lemma NextEntry(n: nat, k: nat)
    requires n < 256 && k >= 1
    ensures var c := Entry(k - 1, n); Entry(k, n) == Xor(Entry(0, c % 256), c / 256)
  {
    hide Shift, Xor;
    ShiftAdd(n, 8 * k, 8);
    LowByteOut(Entry(k - 1, n), 0);
    ShiftNone(Entry(k - 1, n) / 256);
  }

  /** make_crc_table */
  method MakeCrcTable() returns (t: array2<nat>)
    ensures fresh(t) && TableOk(t)
  {
    hide Shift, Xor, ShiftOut, Swap, Partial, SetBit;
    t := new nat[8, 256]((i, j) => 0);
    var poly := MakePoly();
    var i: nat := 0;
    while i < 256
      invariant i <= 256 && fresh(t) && t.Length0 == 8 && t.Length1 == 256
      invariant forall m {:trigger t[0, m]} :: 0 <= m < i ==> t[0, m] == Entry(0, m)
    {
      t[0, i] := ByteEntry(i, poly);
      i := i + 1;
    }
    i := 0;
    while i < 256
      invariant i <= 256 && fresh(t) && t.Length0 == 8 && t.Length1 == 256
      invariant forall m {:trigger t[0, m]} :: 0 <= m < 256 ==> t[0, m] == Entry(0, m)
      invariant forall k, m {:trigger t[k, m]} :: 0 <= k < 4 && 0 <= m < i ==> t[k, m] == Entry(k, m)
      invariant forall k, m {:trigger t[k, m]} :: 4 <= k < 8 && 0 <= m < i ==> t[k, m] == Swap(Entry(k - 4, m))
    {
      MakeColumn(t, i);
      i := i + 1;
    }
  }

  /** The other entries for byte i, from those of one table for all bytes. */
  method MakeColumn(t: array2<nat>, i: nat)
    requires i < 256 && t.Length0 == 8 && t.Length1 == 256
    requires forall m {:trigger t[0, m]} :: 0 <= m < 256 ==> t[0, m] == Entry(0, m)
    modifies t
    ensures forall k {:trigger t[k, i]} :: 0 <= k < 4 ==> t[k, i] == Entry(k, i)
    ensures forall k {:trigger t[k, i]} :: 4 <= k < 8 ==> t[k, i] == Swap(Entry(k - 4, i))
    ensures forall k, m {:trigger t[k, m]} :: 0 <= k < 8 && 0 <= m < 256 && m != i ==> t[k, m] == old(t[k, m])
  {
    hide Shift, Xor, ShiftOut, Swap, Entry;
    var c := t[0, i];
    t[4, i] := Swap(c);
    var j: nat := 1;
    while j < 4
      invariant 1 <= j <= 4 && c == Entry(j - 1, i)
      invariant forall m {:trigger t[0, m]} :: 0 <= m < 256 ==> t[0, m] == Entry(0, m)
      invariant forall k, m {:trigger t[k, m]} :: 0 <= k < 8 && 0 <= m < 256 && m != i ==> t[k, m] == old(t[k, m])
      invariant forall k {:trigger t[k, i]} :: 0 <= k < j ==> t[k, i] == Entry(k, i)
      invariant forall k {:trigger t[k, i]} :: 4 <= k < j + 4 ==> t[k, i] == Swap(Entry(k - 4, i))
    {
      NextEntry(i, j);
      c := Xor(t[0, c % 256], c / 256);
      t[j, i] := c;
      t[j + 4, i] := Swap(c);
      j := j + 1;
    }
  }

  /** The exclusive-or pattern from the terms of the polynomial. */
  method MakePoly() returns (poly: nat)
    ensures poly == POLY
  {
    hide Partial, SetBit, Terms;
    poly := 0;
    var n: nat := 0;
    NoTerms();
    while n < 14
      invariant n <= 14 && poly == Partial(n)
    {
      TermRange(n);
      NextTerm(n);
      poly := SetBit(poly, 31 - Terms()[n]);
      n := n + 1;
    }
  }

  lemma NoTerms()
    ensures Partial(0) == 0 && Partial(14) == POLY
  {
  }

  lemma TermRange(n: nat)
    requires n < 14
    ensures Terms()[n] <= 31
  {
  }

  /** The entry for an 8-bit value. */
  method ByteEntry(n: nat, poly: nat) returns (c: nat)
    requires n < 256 && poly == POLY
    ensures c == Entry(0, n)
  {
    hide Shift, Xor;
    c := n;
    var k: nat := 0;
    while k < 8
      invariant k <= 8 && c < WORD && Shift(c, 8 - k) == Entry(0, n)
    {
      OutOnce(c, 8 - k);
      XorWord(poly, c / 2);
      c := if c % 2 == 1 then Xor(poly, c / 2) else c / 2;
      k := k + 1;
    }
    ShiftNone(c);
  }

  /* ---------- going through the data ---------- */

  /** DO1 */
  method Do1(t: array2<nat>, crc: nat, b: Byte) returns (c: nat)
    requires TableOk(t) && crc < WORD
    ensures c < WORD && c == Feed(crc, Lsb(b, 8))
  {
    hide Xor, Feed, Entry, Lsb;
    ByteIn(crc, b);
    c := Xor(t[0, Xor(crc, b) % 256], crc / 256);
  }

  /** The register after the first i bytes. */
  ghost function After(crc: nat, buf: seq<Byte>, i: nat): (c: nat)
    requires crc < WORD && i <= |buf|
    ensures c < WORD
  {
    XorWord(crc, ONES);
    Feed(Xor(crc, ONES), BytesBits(buf[..i]))
  }

  lemma AfterNone(crc: nat, buf: seq<Byte>)
    requires crc < WORD
    ensures After(crc, buf, 0) == Xor(crc, ONES) < WORD
  {
    hide Xor;
    XorWord(crc, ONES);
    assert buf[..0] == [];
    assert BytesBits([]) == [];
  }

  lemma AfterByte(crc: nat, buf: seq<Byte>, i: nat)
    requires crc < WORD && i < |buf|
    ensures After(crc, buf, i + 1) == Feed(After(crc, buf, i), Lsb(buf[i], 8))
  {
    hide Xor, Feed, Lsb;
    XorWord(crc, ONES);
    assert buf[..i + 1][..i] == buf[..i];
    FeedAppend(Xor(crc, ONES), BytesBits(buf[..i]), Lsb(buf[i], 8));
  }

  lemma AfterWord(crc: nat, buf: seq<Byte>, i: nat)
    requires crc < WORD && i + 4 <= |buf|
    ensures After(crc, buf, i + 4) == Feed(After(crc, buf, i), BytesBits([buf[i], buf[i + 1], buf[i + 2], buf[i + 3]]))
  {
    hide Xor, Feed, BytesBits;
    XorWord(crc, ONES);
    var w := [buf[i], buf[i + 1], buf[i + 2], buf[i + 3]];
    assert buf[..i + 4] == buf[..i] + w;
    BytesBitsAppend(buf[..i], w);
    FeedAppend(Xor(crc, ONES), BytesBits(buf[..i]), BytesBits(w));
  }

  lemma AfterAll(crc: nat, buf: seq<Byte>)
    requires crc < WORD
    ensures Xor(After(crc, buf, |buf|), ONES) == Crc(crc, buf)
  {
    hide Xor, Feed, BytesBits;
    assert buf[..|buf|] == buf;
  }

  /** crc32 with single bytes, eight of them at a time. */
  method Crc32Bytes(t: array2<nat>, crc: nat, buf: seq<Byte>) returns (r: nat)
    requires TableOk(t) && crc < WORD
    ensures r == Crc(crc, buf)
  {
    hide Xor, Feed, After, Lsb, Crc, TableOk;
    AfterNone(crc, buf);
    var c, i: nat := Xor(crc, ONES), 0;
    while |buf| - i >= 8
      invariant i <= |buf| && c == After(crc, buf, i)
      decreases |buf| - i
    {
      var k: nat := 0;
      ghost var i0 := i;
      while k < 8
        invariant k <= 8 && i == i0 + k && i + 8 - k <= |buf| && c == After(crc, buf, i)
        decreases 8 - k
      {
        AfterByte(crc, buf, i);
        c := Do1(t, c, buf[i]);
        i, k := i + 1, k + 1;
      }
    }
    while i < |buf|
      invariant i <= |buf| && c == After(crc, buf, i)
    {
      AfterByte(crc, buf, i);
      c := Do1(t, c, buf[i]);
      i := i + 1;
    }
    AfterAll(crc, buf);
    r := Xor(c, ONES);
  }

  /* ---------- a word at a time, low byte first ---------- */

  /** DOLIT4, with the next word in little-endian order */
  method DoLit4(t: array2<nat>, c: nat, b0: Byte, b1: Byte, b2: Byte, b3: Byte) returns (r: nat)
    requires TableOk(t) && c < WORD
    ensures r < WORD && r == Feed(c, BytesBits([b0, b1, b2, b3]))
  {
    hide Xor, Feed, Entry, BytesBits, Shift, Join, B0, B1, B2, B3;
    WordIn(c, b0, b1, b2, b3);
    var x := Xor(c, Join(b0, b1, b2, b3));
    FourBytesOut(x);
    r := Xor(Xor(Xor(t[3, B0(x)], t[2, B1(x)]), t[1, B2(x)]), t[0, B3(x)]);
  }

  /** crc32_little for a buffer at the given address. */
  method Crc32Little(t: array2<nat>, crc: nat, buf: seq<Byte>, address: nat) returns (r: nat)
    requires TableOk(t) && crc < WORD
    ensures r == Crc(crc, buf)
  {
    hide Xor, Feed, After, Lsb, BytesBits, Crc, TableOk;
    AfterNone(crc, buf);
    var c, i: nat := Xor(crc, ONES), 0;
    while i < |buf| && (address + i) % 4 != 0
      invariant i <= |buf| && c == After(crc, buf, i)
    {
      AfterByte(crc, buf, i);
      c := Do1(t, c, buf[i]);
      i := i + 1;
    }
    while |buf| - i >= 32
      invariant i <= |buf| && c == After(crc, buf, i)
      decreases |buf| - i
    {
      var k: nat := 0;
      ghost var i0 := i;
      while k < 8
        invariant k <= 8 && i == i0 + 4 * k && i + 4 * (8 - k) <= |buf| && c == After(crc, buf, i)
        decreases 8 - k
      {
        AfterWord(crc, buf, i);
        c := DoLit4(t, c, buf[i], buf[i + 1], buf[i + 2], buf[i + 3]);
        i, k := i + 4, k + 1;
      }
    }
    while |buf| - i >= 4
      invariant i <= |buf| && c == After(crc, buf, i)
    {
      AfterWord(crc, buf, i);
      c := DoLit4(t, c, buf[i], buf[i + 1], buf[i + 2], buf[i + 3]);
      i := i + 4;
    }
    while i < |buf|
      invariant i <= |buf| && c == After(crc, buf, i)
    {
      AfterByte(crc, buf, i);
      c := Do1(t, c, buf[i]);
      i := i + 1;
    }
    AfterAll(crc, buf);
    r := Xor(c, ONES);
  }

  /* ---------- a word at a time, high byte first ---------- */

  lemma SwapUp(c: nat)
    requires c < WORD
    ensures Swap(c) * 256 % WORD == Swap(c / 256)
  {
    hide B0, B1, B2, B3, Join;
    TopByte(c);
    JoinUp(B3(c), B2(c), B1(c), B0(c));
    BytesDown(c);
  }

  lemma JoinUp(b0: nat, b1: nat, b2: nat, b3: nat)
    requires b0 < 256 && b1 < 256 && b2 < 256 && b3 < 256
    ensures Join(b0, b1, b2, b3) * 256 % WORD == Join(0, b0, b1, b2)
  {
  }

  lemma BytesDown(c: nat)
    requires c < WORD
    ensures B0(c / 256) == B1(c) && B1(c / 256) == B2(c) && B2(c / 256) == B3(c) && B3(c / 256) == 0
  {
    TwoShifts(c);
    TwoShifts(c / 256);
  }

  /** A byte goes in at the other end. */
  method Big1(t: array2<nat>, ghost c: nat, s: nat, b: Byte) returns (r: nat)
    requires TableOk(t) && c < WORD && s == Swap(c)
    ensures Feed(c, Lsb(b, 8)) < WORD && r == Swap(Feed(c, Lsb(b, 8)))
  {
    hide Xor, Feed, Entry, Lsb, Swap;
    ByteIn(c, b);
    SwapTop(c);
    XorMod(c, b, 8);
    Pow2Values();
    XorBound(c % 256, b, 8);
    SwapUp(c);
    SwapLinear(Entry(0, Xor(c, b) % 256), c / 256);
    r := Xor(t[4, Xor(s / 0x1000000, b)], s * 256 % WORD);
  }

  lemma SwapTop(c: nat)
    requires c < WORD
    ensures Swap(c) / 0x1000000 == c % 256
  {
    hide Swap;
    SwapBytes(c);
  }

  /** DOBIG4, with the next word in big-endian order */
  method DoBig4(t: array2<nat>, ghost c: nat, s: nat, b0: Byte, b1: Byte, b2: Byte, b3: Byte) returns (r: nat)
    requires TableOk(t) && c < WORD && s == Swap(c)
    ensures Feed(c, BytesBits([b0, b1, b2, b3])) < WORD && r == Swap(Feed(c, BytesBits([b0, b1, b2, b3])))
  {
    hide Xor, Feed, Entry, BytesBits, Shift, Join, B0, B1, B2, B3, Swap;
    WordIn(c, b0, b1, b2, b3);
    ghost var x := Xor(c, Join(b0, b1, b2, b3));
    FourBytesOut(x);
    SwapLinear(c, Join(b0, b1, b2, b3));
    SwapJoin(b0, b1, b2, b3);
    var y := Xor(s, Join(b3, b2, b1, b0));
    SwapBytes(x);
    SwapFour(Entry(3, B0(x)), Entry(2, B1(x)), Entry(1, B2(x)), Entry(0, B3(x)));
    r := Xor(Xor(Xor(t[4, B0(y)], t[5, B1(y)]), t[6, B2(y)]), t[7, B3(y)]);
  }

  lemma SwapFour(a: nat, b: nat, c: nat, d: nat)
    requires a < WORD && b < WORD && c < WORD && d < WORD
    ensures Xor(Xor(Xor(a, b), c), d) < WORD
    ensures Swap(Xor(Xor(Xor(a, b), c), d)) == Xor(Xor(Xor(Swap(d), Swap(c)), Swap(b)), Swap(a))
  {
    hide Xor, Swap;
    SwapLinear(a, b);
    SwapLinear(Xor(a, b), c);
    SwapLinear(Xor(Xor(a, b), c), d);
    Reversed(Swap(a), Swap(b), Swap(c), Swap(d));
  }

  lemma Reversed(a: nat, b: nat, c: nat, d: nat)
    ensures Xor(Xor(Xor(a, b), c), d) == Xor(Xor(Xor(d, c), b), a)
  {
    hide Xor;
    XorCommutes(Xor(Xor(a, b), c), d);
    XorCommutes(Xor(a, b), c);
    XorCommutes(a, b);
    XorAssoc(d, c, Xor(b, a));
    XorAssoc(Xor(d, c), b, a);
  }

  /** crc32_big for a buffer at the given address. */
  method Crc32Big(t: array2<nat>, crc: nat, buf: seq<Byte>, address: nat) returns (r: nat)
    requires TableOk(t) && crc < WORD
    ensures r == Crc(crc, buf)
  {
    hide Xor, Feed, After, Lsb, BytesBits, Crc, TableOk, Swap;
    AfterNone(crc, buf);
    SwapOnes(crc);
    var s, i: nat := Xor(Swap(crc), ONES), 0;
    while i < |buf| && (address + i) % 4 != 0
      invariant i <= |buf| && s == Swap(After(crc, buf, i))
    {
      AfterByte(crc, buf, i);
      s := Big1(t, After(crc, buf, i), s, buf[i]);
      i := i + 1;
    }
    while |buf| - i >= 32
      invariant i <= |buf| && s == Swap(After(crc, buf, i))
      decreases |buf| - i
    {
      var k: nat := 0;
      ghost var i0 := i;
      while k < 8
        invariant k <= 8 && i == i0 + 4 * k && i + 4 * (8 - k) <= |buf| && s == Swap(After(crc, buf, i))
        decreases 8 - k
      {
        AfterWord(crc, buf, i);
        s := DoBig4(t, After(crc, buf, i), s, buf[i], buf[i + 1], buf[i + 2], buf[i + 3]);
        i, k := i + 4, k + 1;
      }
    }
    while |buf| - i >= 4
      invariant i <= |buf| && s == Swap(After(crc, buf, i))
    {
      AfterWord(crc, buf, i);
      s := DoBig4(t, After(crc, buf, i), s, buf[i], buf[i + 1], buf[i + 2], buf[i + 3]);
      i := i + 4;
    }
    while i < |buf|
      invariant i <= |buf| && s == Swap(After(crc, buf, i))
    {
      AfterByte(crc, buf, i);
      s := Big1(t, After(crc, buf, i), s, buf[i]);
      i := i + 1;
    }
    AfterAll(crc, buf);
    SwapOnes(After(crc, buf, |buf|));
    SwapBack(Xor(After(crc, buf, |buf|), ONES));
    r := Swap(Xor(s, ONES));
  }

  lemma SwapOnes(c: nat)
    requires c < WORD
    ensures Xor(c, ONES) < WORD && Swap(Xor(c, ONES)) == Xor(Swap(c), ONES)
  {
    hide Xor, Swap;
    OnesSame();
    SwapLinear(c, ONES);
  }

  lemma OnesSame()
    ensures Swap(ONES) == ONES
  {
    assert B0(ONES) == B1(ONES) == B2(ONES) == B3(ONES) == 255;
  }

  /* ---------- combining check values ---------- */

  /** Column i of the matrix is what n zero bits make of bit i. */
  ghost predicate Operator(mat: seq<nat>, n: nat) {
    |mat| == GF2_DIM && forall i :: 0 <= i < GF2_DIM ==> Pow2(i) < WORD && mat[i] == Shift(Pow2(i), n)
  }

  lemma OneBitWord(i: nat)
    requires i < 32
    ensures Pow2(i) < WORD
  {
    WordIs();
    Pow2Monotone(i, 31);
  }

  lemma Distribute(p: nat, v: nat)
    ensures p * v == 2 * p * (v / 2) + p * (v % 2)
  {
    var h, r := v / 2, v % 2;
    assert v == 2 * h + r;
    assert p * (2 * h + r) == p * (2 * h) + p * r;
  }

  lemma BitInWord(v: nat, k: nat)
    requires v != 0 && Pow2(k) * v < WORD
    ensures k < 32
  {
    WordIs();
    MulAtLeast(Pow2(k), v);
    if k >= 32 {
      Pow2Monotone(32, k);
    }
  }

  /** The lowest bit of v, on its own. */
  lemma LowestBit(v: nat, k: nat)
    requires v != 0 && Pow2(k) * v < WORD
    ensures k < 32 && Pow2(k) * v == Pow2(k + 1) * (v / 2) + Pow2(k) * (v % 2) && Pow2(k + 1) * (v / 2) < WORD
    ensures Xor(Pow2(k) * (v % 2), Pow2(k + 1) * (v / 2)) == Pow2(k) * v
  {
    hide Xor;
    BitInWord(v, k);
    Distribute(Pow2(k), v);
    assert Pow2(k + 1) == 2 * Pow2(k);
    SplitLow(v);
    ShiftedBit(v, k);
  }

  lemma ShiftedBit(v: nat, k: nat)
    requires Xor(v % 2, 2 * (v / 2)) == v
    ensures Xor(Pow2(k) * (v % 2), 2 * Pow2(k) * (v / 2)) == Pow2(k) * v
  {
    hide Xor, Pow2;
    XorShift(v % 2, 2 * (v / 2), k);
    assert 2 * (v / 2) * Pow2(k) == 2 * Pow2(k) * (v / 2);
  }

  /** What is in sum and what the rest v of the vector, at bit k, will add make up the whole. */
  ghost predicate Partway(sum: nat, v: nat, k: nat, n: nat, whole: nat) {
    Pow2(k) * v < WORD && Xor(sum, Shift(Pow2(k) * v, n)) == whole
  }

  lemma PartwayStart(vec: nat, n: nat)
    requires vec < WORD
    ensures Partway(0, vec, 0, n, Shift(vec, n))
  {
    hide Xor, Shift;
    XorZero(Shift(vec, n));
  }

  lemma PartwayNext(sum: nat, v: nat, k: nat, n: nat, whole: nat)
    requires Partway(sum, v, k, n, whole) && v != 0
    ensures k < 32 && Pow2(k) < WORD
    ensures Partway(if v % 2 == 1 then Xor(sum, Shift(Pow2(k), n)) else sum, v / 2, k + 1, n, whole)
  {
    hide Xor, Shift, Pow2;
    LowestBit(v, k);
    OneBitWord(k);
    var bit, rest := Pow2(k) * (v % 2), Pow2(k + 1) * (v / 2);
    ShiftLinear(bit, rest, n);
    if v % 2 == 1 {
      assert bit == Pow2(k);
      XorAssoc(sum, Shift(bit, n), Shift(rest, n));
    } else {
      assert bit == 0;
      ShiftZero(n);
      XorZero(Shift(rest, n));
    }
  }

  lemma PartwayEnd(sum: nat, k: nat, n: nat, whole: nat)
    requires Partway(sum, 0, k, n, whole)
    ensures sum == whole
  {
    hide Xor, Shift, Pow2;
    assert Pow2(k) * 0 == 0;
    ShiftZero(n);
    XorZero(sum);
  }

  /** gf2_matrix_times: what n zero bits make of vec. */
  method Gf2MatrixTimes(mat: array<nat>, vec: nat, ghost n: nat) returns (sum: nat)
    requires Operator(mat[..], n) && vec < WORD
    ensures sum == Shift(vec, n)
  {
    hide Xor, Shift, Partway, Pow2;
    sum := 0;
    var v, k: nat := vec, 0;
    PartwayStart(vec, n);
    while v != 0
      invariant Partway(sum, v, k, n, Shift(vec, n))
      decreases v
    {
      PartwayNext(sum, v, k, n, Shift(vec, n));
      if v % 2 == 1 {
        assert mat[..][k] == mat[k];
        sum := Xor(sum, mat[k]);
      }
      v, k := v / 2, k + 1;
    }
    PartwayEnd(sum, k, n, Shift(vec, n));
  }

  /** gf2_matrix_square: twice as many zero bits. */
  method Gf2MatrixSquare(square: array<nat>, mat: array<nat>, ghost n: nat)
    requires square != mat && square.Length == GF2_DIM && Operator(mat[..], n)
    modifies square
    ensures Operator(square[..], 2 * n)
  {
    hide Xor, Shift;
    var i: nat := 0;
    while i < GF2_DIM
      invariant i <= GF2_DIM && mat[..] == old(mat[..])
      invariant forall j :: 0 <= j < i ==> Pow2(j) < WORD && square[j] == Shift(Pow2(j), 2 * n)
    {
      OneBitWord(i);
      assert mat[..][i] == mat[i];
      ShiftAdd(Pow2(i), n, n);
      square[i] := Gf2MatrixTimes(mat, mat[i], n);
      i := i + 1;
    }
  }

  /** The operator for one zero bit. */
  method OneZero(odd: array<nat>)
    requires odd.Length == GF2_DIM
    modifies odd
    ensures Operator(odd[..], 1)
  {
    hide Xor, Shift, Pow2;
    odd[0] := 0xedb88320;
    var row, i: nat := 1, 1;
    FirstColumn();
    while i < GF2_DIM
      invariant 1 <= i <= GF2_DIM && row == Pow2(i - 1)
      invariant forall j :: 0 <= j < i ==> Pow2(j) < WORD && odd[j] == Shift(Pow2(j), 1)
    {
      OneBitWord(i);
      NextColumn(i);
      odd[i] := row;
      row := 2 * row;
      i := i + 1;
    }
  }

  lemma FirstColumn()
    ensures Pow2(0) == 1 && Shift(1, 1) == 0xedb88320
  {
    XorZero(POLY);
    assert ShiftOut(1) == Xor(POLY, 0);
    assert Shift(1, 1) == Shift(ShiftOut(1), 0);
  }

  lemma NextColumn(i: nat)
    requires 1 <= i && Pow2(i) < WORD
    ensures Shift(Pow2(i), 1) == Pow2(i - 1) && Pow2(i) == 2 * Pow2(i - 1)
  {
    assert Shift(Pow2(i), 1) == Shift(ShiftOut(Pow2(i)), 0);
  }

  /** One bit of the length: its zeros are applied, if it is set. */
  lemma LengthBit(crc: nat, len: nat, m: nat)
    requires crc < WORD
    ensures len % 2 == 1 ==> Shift(crc, m * len) == Shift(Shift(crc, m), 2 * m * (len / 2))
    ensures len % 2 == 0 ==> Shift(crc, m * len) == Shift(crc, 2 * m * (len / 2))
  {
    hide Shift;
    assert m * len == 2 * m * (len / 2) + m * (len % 2) by {
      assert len == 2 * (len / 2) + len % 2;
      assert m * (2 * (len / 2) + len % 2) == 2 * m * (len / 2) + m * (len % 2);
    }
    if len % 2 == 1 {
      ShiftAdd(crc, m, 2 * m * (len / 2));
    }
  }

  /** crc32_combine_: the zeros operators for the bits of len2, squared again and again. */
  method Crc32Combine(crc1: nat, crc2: nat, len2: int) returns (crc: nat)
    requires crc1 < WORD && crc2 < WORD
    ensures len2 <= 0 ==> crc == crc1
    ensures len2 > 0 ==> crc == Xor(Shift(crc1, 8 * len2), crc2)
  {
    hide Xor, Shift, Operator;
    if len2 <= 0 {
      return crc1;
    }
    var even, odd := new nat[GF2_DIM](_ => 0), new nat[GF2_DIM](_ => 0);
    OneZero(odd);
    Gf2MatrixSquare(even, odd, 1);
    Gf2MatrixSquare(odd, even, 2);
    crc := crc1;
    var len: nat := len2;
    ghost var m: nat := 8;
    while true
      invariant crc < WORD && len > 0 && m % 2 == 0 && Operator(odd[..], m / 2) && fresh(even) && fresh(odd)
      invariant even != odd && even.Length == odd.Length == GF2_DIM
      invariant Shift(crc, m * len) == Shift(crc1, 8 * len2)
      decreases len
    {
      Gf2MatrixSquare(even, odd, m / 2);
      LengthBit(crc, len, m);
      if len % 2 == 1 {
        crc := Gf2MatrixTimes(even, crc, m);
      }
      len := len / 2;
      if len == 0 {
        assert 2 * m * len == 0;
        break;
      }
      Gf2MatrixSquare(odd, even, m);
      LengthBit(crc, len, 2 * m);
      if len % 2 == 1 {
        crc := Gf2MatrixTimes(odd, crc, 2 * m);
      }
      len := len / 2;
      m := 4 * m;
      if len == 0 {
        assert m * len == 0;
        break;
      }
    }
    ShiftNone(crc);
    crc := Xor(crc, crc2);
  }

  /** The check value of two pieces of data from those of each and the length of the second. */
  method CombineTwo(a: seq<Byte>, b: seq<Byte>, crc1: nat, crc2: nat) returns (crc: nat)
    requires crc1 == Crc(0, a) && crc2 == Crc(0, b)
    ensures crc == Crc(0, a + b)
  {
    hide Xor, Shift, Crc;
    crc := Crc32Combine(crc1, crc2, |b|);
    if |b| == 0 {
      assert a + b == a;
    } else {
      CrcOfBoth(a, b);
    }
  }
}
