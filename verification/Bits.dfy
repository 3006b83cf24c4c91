/**
 Bit strings and their numeric readings.  DEFLATE packs numbers least significant bit
 first and Huffman codes most significant bit first (RFC 1951, section 3.1.1); both
 readings of one bit string are needed to relate the two.
 */
module Bits {

  type Byte = b: int | 0 <= b < 256

  function Bit(b: bool): (r: nat)
    ensures r <= 1
  {
    if b then 1 else 0
  }

  function Pow2(n: nat): (p: nat)
    ensures p >= 1
  {
    if n == 0 then 1 else 2 * Pow2(n - 1)
  }

  /** v shifted right by n bits. */
  function Shr(v: nat, n: nat): (r: nat)
    ensures r <= v
  {
    if n == 0 then v else Shr(v / 2, n - 1)
  }

  lemma {:induction false} ShrIsDiv(v: nat, n: nat)
    ensures Shr(v, n) == v / Pow2(n)
  {
    if n > 0 {
      ShrIsDiv(v / 2, n - 1);
      DivTwice(v, Pow2(n - 1));
    }
  }

  lemma {:induction false} Pow2Add(m: nat, n: nat)
    ensures Pow2(m + n) == Pow2(m) * Pow2(n)
  {
    if m == 0 {
    } else {
      Pow2Add(m - 1, n);
      assert Pow2(m + n) == 2 * Pow2(m - 1 + n);
    }
  }

  lemma {:induction false} Pow2Monotone(m: nat, n: nat)
    requires m <= n
    ensures Pow2(m) <= Pow2(n)
  {
    if m < n {
      Pow2Monotone(m, n - 1);
    }
  }

  lemma Pow2Values()
    ensures Pow2(1) == 2 && Pow2(2) == 4 && Pow2(3) == 8 && Pow2(4) == 16
    ensures Pow2(5) == 32 && Pow2(6) == 64 && Pow2(7) == 128 && Pow2(8) == 256
    ensures Pow2(9) == 512 && Pow2(10) == 1024 && Pow2(11) == 2048 && Pow2(12) == 4096
    ensures Pow2(13) == 8192 && Pow2(14) == 16384 && Pow2(15) == 32768 && Pow2(16) == 65536
  {
    assert Pow2(4) == 16;
    assert Pow2(8) == 256;
    assert Pow2(12) == 4096;
  }

  /* ---------- least significant bit first ---------- */

  /** The low n bits of v, least significant first. */
  function Lsb(v: nat, n: nat): (s: seq<bool>)
    ensures |s| == n
  {
    if n == 0 then [] else [v % 2 == 1] + Lsb(v / 2, n - 1)
  }

  /** The number whose bits, least significant first, are s. */
  function Val(s: seq<bool>): (v: nat)
  {
    if s == [] then 0 else Bit(s[0]) + 2 * Val(s[1..])
  }

  lemma {:induction false} ValBound(s: seq<bool>)
    ensures Val(s) < Pow2(|s|)
  {
    if s != [] {
      ValBound(s[1..]);
    }
  }

  lemma ModTwice(v: nat, p: nat)
    requires p >= 1
    ensures v % (2 * p) == v % 2 + 2 * ((v / 2) % p)
  {
    var q, r := (v / 2) / p, (v / 2) % p;
    assert v / 2 == q * p + r;
    assert v == (2 * p) * q + (v % 2 + 2 * r);
    ModUnique(v, 2 * p, q, v % 2 + 2 * r);
  }

  lemma SmallMod(v: nat, d: nat)
    requires v < d
    ensures v % d == v
  {
  }

  /** Quotient and remainder are determined by v == d * q + r with 0 <= r < d. */
  lemma ModUnique(v: int, d: int, q: int, r: int)
    requires d > 0 && 0 <= r < d && v == d * q + r
    ensures v / d == q && v % d == r
  {
    var q', r' := v / d, v % d;
    assert d * (q - q') == r' - r;
    if q > q' {
      assert d * (q - q') >= d by { MulAtLeast(d, q - q'); }
    } else if q < q' {
      assert d * (q' - q) >= d by { MulAtLeast(d, q' - q); }
    }
  }

  lemma MulAtLeast(d: int, k: int)
    requires d >= 0 && k >= 1
    ensures d * k >= d
  {
    assert d * k == d + d * (k - 1);
    assert d * (k - 1) >= 0;
  }

  lemma MulLe(p: nat, a: int, b: int)
    requires a <= b
    ensures p * a <= p * b
  {
    assert p * (b - a) >= 0;
  }

  lemma {:induction false} ValLsb(v: nat, n: nat)
    ensures Val(Lsb(v, n)) == v % Pow2(n)
  {
    if n > 0 {
      ValLsb(v / 2, n - 1);
      ModTwice(v, Pow2(n - 1));
      assert Lsb(v, n)[1..] == Lsb(v / 2, n - 1);
    }
  }

  lemma {:induction false} LsbVal(s: seq<bool>)
    ensures Lsb(Val(s), |s|) == s
  {
    if s != [] {
      LsbVal(s[1..]);
      assert Val(s) / 2 == Val(s[1..]);
      assert s == [s[0]] + s[1..];
    }
  }

  lemma {:induction false} ValAppend(s: seq<bool>, t: seq<bool>)
    ensures Val(s + t) == Val(s) + Pow2(|s|) * Val(t)
  {
    if s == [] {
      assert s + t == t;
    } else {
      ValAppend(s[1..], t);
      assert (s + t)[1..] == s[1..] + t;
      assert Pow2(|s|) * Val(t) == 2 * (Pow2(|s| - 1) * Val(t));
    }
  }

  lemma {:induction false} LsbSplit(v: nat, m: nat, n: nat)
    ensures Lsb(v, m + n) == Lsb(v, m) + Lsb(Shr(v, m), n)
  {
    if m == 0 {
      assert Lsb(v, 0) + Lsb(v, n) == Lsb(v, n);
    } else {
      LsbSplit(v / 2, m - 1, n);
      var b, lo, hi := [v % 2 == 1], Lsb(v / 2, m - 1), Lsb(Shr(v, m), n);
      assert Lsb(v, m + n) == b + (lo + hi);
      assert b + (lo + hi) == (b + lo) + hi;
    }
  }

  lemma DivTwice(v: nat, p: nat)
    requires p >= 1
    ensures v / (2 * p) == (v / 2) / p
  {
    var q, r := (v / 2) / p, (v / 2) % p;
    assert v == (2 * p) * q + (v % 2 + 2 * r);
    ModUnique(v, 2 * p, q, v % 2 + 2 * r);
  }

  /** Only the residue modulo 2^n is visible in n bits. */
  lemma LsbMod(v: nat, n: nat)
    ensures Lsb(v % Pow2(n), n) == Lsb(v, n)
  {
    ValLsb(v, n);
    LsbVal(Lsb(v, n));
  }

  /** A bit string t is a prefix of the n-bit reading of v exactly when they agree modulo 2^|t|. */
  lemma PrefixIsCongruence(t: seq<bool>, v: nat, n: nat)
    requires |t| <= n
    ensures t <= Lsb(v, n) <==> v % Pow2(|t|) == Val(t)
  {
    var lo := Lsb(v, |t|);
    LsbSplit(v, |t|, n - |t|);
    assert Lsb(v, n)[..|t|] == lo;
    ValLsb(v, |t|);
    LsbVal(t);
    LsbVal(lo);
    assert t <= Lsb(v, n) <==> t == lo;
  }

  lemma ValPrefix(s: seq<bool>, k: nat)
    requires k <= |s|
    ensures Val(s[..k]) == Val(s) % Pow2(k)
    ensures Val(s[k..]) == Val(s) / Pow2(k)
  {
    hide Val, Pow2;
    ValAppend(s[..k], s[k..]);
    assert s[..k] + s[k..] == s;
    ValBound(s[..k]);
    ModUnique(Val(s), Pow2(k), Val(s[k..]), Val(s[..k]));
  }

  /* ---------- most significant bit first ---------- */

  function Msb(v: nat, n: nat): (s: seq<bool>)
    ensures |s| == n
  {
    if n == 0 then [] else Msb(v / 2, n - 1) + [v % 2 == 1]
  }

  function MsbVal(s: seq<bool>): (v: nat)
  {
    if s == [] then 0 else 2 * MsbVal(s[..|s| - 1]) + Bit(s[|s| - 1])
  }

  lemma MsbValNone()
    ensures MsbVal([]) == 0
  {
  }

  lemma MsbValSnoc(s: seq<bool>, b: bool)
    ensures MsbVal(s + [b]) == 2 * MsbVal(s) + Bit(b)
  {
    assert (s + [b])[..|s|] == s;
  }

  lemma {:induction false} MsbValMsb(v: nat, n: nat)
    requires v < Pow2(n)
    ensures MsbVal(Msb(v, n)) == v
  {
    hide MsbVal;
    if n > 0 {
      MsbValMsb(v / 2, n - 1);
      MsbValSnoc(Msb(v / 2, n - 1), v % 2 == 1);
    } else {
      MsbValNone();
    }
  }

  lemma {:induction false} MsbMsbVal(s: seq<bool>)
    ensures Msb(MsbVal(s), |s|) == s
  {
    if s != [] {
      var i := s[..|s| - 1];
      MsbMsbVal(i);
      assert MsbVal(s) / 2 == MsbVal(i);
      assert s == i + [s[|s| - 1]];
    }
  }

  lemma {:induction false} MsbValBound(s: seq<bool>)
    ensures MsbVal(s) < Pow2(|s|)
  {
    if s != [] {
      MsbValBound(s[..|s| - 1]);
    }
  }

  /** Cutting a bit string divides its most-significant-first value by a power of two. */
  lemma {:induction false} MsbValPrefix(s: seq<bool>, k: nat)
    requires k <= |s|
    ensures MsbVal(s[..k]) == MsbVal(s) / Pow2(|s| - k)
    decreases |s| - k
  {
    if k == |s| {
      assert s[..k] == s;
    } else {
      var i := s[..|s| - 1];
      MsbValPrefix(i, k);
      assert i[..k] == s[..k];
      assert MsbVal(s) / 2 == MsbVal(i);
      DivTwice(MsbVal(s), Pow2(|i| - k));
    }
  }

  /* ---------- byte streams ---------- */

  function Zeros(n: nat): (s: seq<bool>)
    ensures |s| == n
  {
    seq(n, _ => false)
  }

  lemma {:induction false} LsbZeros(n: nat)
    ensures Lsb(0, n) == Zeros(n)
  {
    if n > 0 {
      LsbZeros(n - 1);
    }
  }

  lemma SplitAt<T>(s: seq<T>, k: nat)
    requires k <= |s|
    ensures s[..k] + s[k..] == s
  {
  }

  /** The bits of a byte string in the order DEFLATE reads them. */
  function BytesBits(bs: seq<Byte>): (s: seq<bool>)
    ensures |s| == 8 * |bs|
  {
    if bs == [] then [] else BytesBits(bs[..|bs| - 1]) + Lsb(bs[|bs| - 1], 8)
  }

  lemma {:induction false} BytesBitsAppend(a: seq<Byte>, b: seq<Byte>)
    ensures BytesBits(a + b) == BytesBits(a) + BytesBits(b)
  {
    hide Lsb;
    if b == [] {
      assert a + b == a;
    } else {
      var b' := b[..|b| - 1];
      BytesBitsAppend(a, b');
      assert (a + b)[..|a + b| - 1] == a + b';
      var p, q, r := BytesBits(a), BytesBits(b'), Lsb(b[|b| - 1], 8);
      assert BytesBits(a + b) == (p + q) + r;
      assert (p + q) + r == p + (q + r);
    }
  }

  lemma BytesBitsAt(bs: seq<Byte>, i: nat)
    requires i < |bs|
    ensures BytesBits(bs)[8 * i..8 * i + 8] == Lsb(bs[i], 8)
  {
    var lo, hi := bs[..i + 1], bs[i + 1..];
    SplitAt(bs, i + 1);
    BytesBitsAppend(lo, hi);
    assert lo[..i] == bs[..i];
    var p, q, r := BytesBits(bs[..i]), Lsb(bs[i], 8), BytesBits(hi);
    assert BytesBits(bs) == p + q + r;
    assert |p| == 8 * i && |q| == 8;
  }

  lemma Grown(before: seq<Byte>, after: seq<Byte>)
    requires before <= after
    ensures BytesBits(before) <= BytesBits(after)
  {
    BytesBitsAppend(before, after[|before|..]);
    assert before + after[|before|..] == after;
  }

  /** Bytes can be read back from their bits. */
  lemma SameBytesBits(a: seq<Byte>, b: seq<Byte>)
    requires BytesBits(a) <= BytesBits(b)
    ensures a <= b
  {
    hide BytesBits, Lsb;
    Pow2Values();
    forall i: nat | i < |a| ensures a[i] == b[i] {
      BytesBitsAt(a, i);
      BytesBitsAt(b, i);
      assert BytesBits(a)[8 * i..8 * i + 8] == BytesBits(b)[8 * i..8 * i + 8];
      ValLsb(a[i], 8);
      ValLsb(b[i], 8);
    }
  }
}
