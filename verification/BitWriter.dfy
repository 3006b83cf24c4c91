/**
 The 16-bit output buffer of trees.c: send_bits, bi_flush, bi_windup, put_short and bi_reverse,
 proved to append bits in the order DEFLATE reads them.
 */
module BitWriter {
  import opened Bits
  import opened InfTrees
  import opened InflateSpec

  const BUF_SIZE: nat := 16

  lemma LsbJoin(b: nat, k: nat, v: nat, n: nat)
    requires b < Pow2(k)
    ensures Lsb(b + Pow2(k) * v, k + n) == Lsb(b, k) + Lsb(v, n)
  {
    var x := b + Pow2(k) * v;
    LsbSplit(x, k, n);
    ShrIsDiv(x, k);
    ModUnique(x, Pow2(k), v, b);
    LsbMod(x, k);
  }

  lemma LsbSmall(b: nat, k: nat, n: nat)
    requires b < Pow2(k) && k <= n
    ensures Lsb(b, n) == Lsb(b, k) + Zeros(n - k)
  {
    LsbJoin(b, k, 0, n - k);
    LsbZero(n - k);
  }

  lemma {:induction false} LsbZero(n: nat)
    ensures Lsb(0, n) == Zeros(n)
  {
    if n > 0 {
      LsbZero(n - 1);
      assert [false] + Zeros(n - 1) == Zeros(n);
    }
  }

  /** Reading the low bits as most significant first is reversing them. */
  lemma {:induction false} MsbReverses(v: nat, n: nat)
    ensures Val(Msb(v, n)) == MsbVal(Lsb(v, n))
  {
    if n > 0 {
      MsbReverses(v / 2, n - 1);
      ValAppend(Msb(v / 2, n - 1), [v % 2 == 1]);
      MsbValCons(v % 2 == 1, Lsb(v / 2, n - 1));
      OneBitVal(v % 2 == 1);
    }
  }

  lemma OneBitVal(b: bool)
    ensures Val([b]) == Bit(b)
  {
    assert [b][1..] == [];
  }

  lemma {:induction false} MsbValCons(b: bool, s: seq<bool>)
    ensures MsbVal([b] + s) == Pow2(|s|) * Bit(b) + MsbVal(s)
    decreases |s|
  {
    if s == [] {
      assert [b] + s == [b];
      assert [b][..0] == [];
    } else {
      var i := s[..|s| - 1];
      MsbValCons(b, i);
      assert ([b] + s)[..|s|] == [b] + i;
      assert Pow2(|s|) * Bit(b) == 2 * (Pow2(|i|) * Bit(b));
    }
  }

  lemma LsbSnoc(v: nat, i: nat)
    ensures Lsb(v, i + 1) == Lsb(v, i) + [Shr(v, i) % 2 == 1]
  {
    LsbSplit(v, i, 1);
    assert Lsb(Shr(v, i), 1) == [Shr(v, i) % 2 == 1];
  }

  lemma {:induction false} ShrNext(v: nat, i: nat)
    ensures Shr(v, i + 1) == Shr(v, i) / 2
    decreases i
  {
    if i > 0 {
      ShrNext(v / 2, i - 1);
    }
  }

  /** bi_reverse: the result's bits, least significant first, are the code's, most significant first. */
  method BiReverse(code: nat, len: nat) returns (res: nat)
    requires len >= 1
    ensures res < Pow2(len) && Lsb(res, len) == Msb(code, len)
  {
    hide Lsb, Shr, Msb, MsbVal, Pow2, Val;
    var c, n := code, 0;
    res := 0;
    LsbNone(code);
    while n < len
      invariant n <= len && c == Shr(code, n)
      invariant res == 2 * MsbVal(Lsb(code, n))
    {
      LsbSnoc(code, n);
      MsbValSnoc(Lsb(code, n), c % 2 == 1);
      ShrNext(code, n);
      res := res + c % 2;
      c, res := c / 2, res * 2;
      n := n + 1;
    }
    res := res / 2;
    MsbReverses(code, len);
    ValBound(Msb(code, len));
    LsbVal(Msb(code, len));
  }

  lemma LsbNone(v: nat)
    ensures Shr(v, 0) == v && MsbVal(Lsb(v, 0)) == 0
  {
  }

  lemma HalveShort(w: nat)
    requires w < 65536
    ensures w % 256 < 256 && w / 256 < 256
    ensures BytesBits([w % 256, w / 256]) == Lsb(w, 16)
  {
    hide Lsb;
    assert [w % 256, w / 256][..1] == [w % 256];
    assert [w % 256][..0] == [];
    Pow2Values();
    LsbSplit(w, 8, 8);
    ShrIsDiv(w, 8);
    LsbMod(w, 8);
  }

  class Writer {
    var pending: seq<Byte>
    var bi_buf: nat
    var bi_valid: nat

    ghost predicate Valid()
      reads this
    {
      bi_valid <= BUF_SIZE && bi_buf < Pow2(bi_valid)
    }

    /** All bits sent so far. */
    ghost function Sent(): (s: seq<bool>)
      reads this
      ensures |s| == 8 * |pending| + bi_valid
    {
      BytesBits(pending) + Lsb(bi_buf, bi_valid)
    }

    constructor ()
      ensures Valid() && Sent() == []
    {
      pending, bi_buf, bi_valid := [], 0, 0;
    }

    method PutByte(b: Byte)
      modifies `pending
      ensures pending == old(pending) + [b]
      ensures BytesBits(pending) == BytesBits(old(pending)) + Lsb(b, 8)
    {
      pending := pending + [b];
      assert pending[..|pending| - 1] == old(pending);
    }

    method PutShort(w: nat)
      requires w < 65536
      modifies `pending
      ensures BytesBits(pending) == BytesBits(old(pending)) + Lsb(w, 16)
    {
      HalveShort(w);
      BytesBitsAppend(pending, [w % 256, w / 256]);
      pending := pending + [w % 256, w / 256];
    }

    /** send_bits: append the low length bits of value, least significant first. */
    method SendBits(value: nat, length: nat)
      requires Valid() && 1 <= length <= BUF_SIZE && value < Pow2(length)
      modifies this
      ensures Valid() && Sent() == old(Sent()) + Lsb(value, length)
    {
      hide Lsb, BytesBits, Pow2, Shr, Above;
      ghost var p, b, k := BytesBits(pending), bi_buf, bi_valid;
      var both := BufferAnd(value);
      if bi_valid > BUF_SIZE - length {
        var rest := BUF_SIZE - bi_valid;
        Overflowing(b, k, value, length, rest);
        bi_buf := both % 65536;
        PutShort(bi_buf);
        bi_buf := RightShift(value, rest);
        bi_valid := bi_valid + length - BUF_SIZE;
      } else {
        Joined(b, k, value, length);
        bi_buf := both;
        bi_valid := bi_valid + length;
      }
      assert p + (Lsb(b, k) + Lsb(value, length)) == (p + Lsb(b, k)) + Lsb(value, length);
    }

    /** bi_buf with value above it. */
    method BufferAnd(value: nat) returns (both: nat)
      ensures both == Above(bi_buf, bi_valid, value)
    {
      var shift := Power(bi_valid);
      both := bi_buf + shift * value;
    }

    /** bi_flush: write out all whole bytes. */
    method BiFlush()
      requires Valid()
      modifies this
      ensures Valid() && Sent() == old(Sent()) && bi_valid <= 7
      ensures old(bi_valid) == 0 ==> bi_valid == 0 && pending == old(pending)
    {
      hide BytesBits, Lsb, Pow2;
      Pow2Values();
      if bi_valid == 16 {
        PutShort(bi_buf);
        bi_buf := 0;
        bi_valid := 0;
        LsbZero(0);
      } else if bi_valid >= 8 {
        LsbSplit(bi_buf, 8, bi_valid - 8);
        ShrIsDiv(bi_buf, 8);
        LsbMod(bi_buf, 8);
        Pow2Add(8, bi_valid - 8);
        DivBound(bi_buf, 256, Pow2(bi_valid - 8));
        ghost var lo, hi := Lsb(bi_buf, 8), Lsb(bi_buf / 256, bi_valid - 8);
        PutByte(bi_buf % 256);
        bi_buf := bi_buf / 256;
        bi_valid := bi_valid - 8;
        assert BytesBits(old(pending)) + lo + hi == BytesBits(old(pending)) + (lo + hi);
      }
      PowOne();
    }

    /** bi_windup: write out everything, filling the last byte with zeros. */
    method BiWindup()
      requires Valid()
      modifies this
      ensures Valid() && bi_valid == 0
      ensures Sent() == old(Sent()) + Zeros(RoundUp(|old(Sent())|) - |old(Sent())|)
    {
      hide BytesBits, Lsb, Pow2;
      Pow2Values();
      ghost var k := bi_valid;
      if bi_valid > 8 {
        LsbSmall(bi_buf, k, 16);
        Pow2Monotone(k, 16);
        PutShort(bi_buf);
      } else if bi_valid > 0 {
        LsbSmall(bi_buf, k, 8);
        Pow2Monotone(k, 8);
        PutByte(bi_buf);
      } else {
        LsbZero(0);
      }
      bi_buf := 0;
      bi_valid := 0;
      LsbZero(0);
      PowOne();
    }

    /** copy_block with a header: the length, its complement, and the bytes, on a byte boundary. */
    method CopyBlock(buf: seq<Byte>)
      requires Valid() && bi_valid == 0 && |buf| <= 65535
      modifies this
      ensures Valid() && bi_valid == 0
      ensures Sent() == old(Sent()) + Lsb(|buf|, 16) + Lsb(65535 - |buf|, 16) + BytesBits(buf)
    {
      hide BytesBits, Lsb, Pow2;
      NoBuffer();
      ghost var s0 := BytesBits(pending);
      PutShort(|buf|);
      PutShort(65535 - |buf|);
      ghost var s1 := BytesBits(pending);
      var k := 0;
      NoBytes();
      assert buf[..0] == [];
      while k < |buf|
        invariant k <= |buf| && bi_valid == 0 && bi_buf == old(bi_buf)
        invariant BytesBits(pending) == s1 + BytesBits(buf[..k])
      {
        BytesBitsAppend(buf[..k], [buf[k]]);
        OneByte(buf[k]);
        assert buf[..k + 1] == buf[..k] + [buf[k]];
        assert s1 + BytesBits(buf[..k]) + Lsb(buf[k], 8) == s1 + (BytesBits(buf[..k]) + Lsb(buf[k], 8));
        PutByte(buf[k]);
        k := k + 1;
      }
      assert buf[..|buf|] == buf;
      NoBuffer();
    }

    lemma NoBuffer()
      requires Valid() && bi_valid == 0
      ensures Sent() == BytesBits(pending)
    {
      assert Lsb(bi_buf, 0) == [];
      assert BytesBits(pending) + [] == BytesBits(pending);
    }
  }

  lemma NoBytes()
    ensures BytesBits([]) == []
  {
  }

  lemma OneByte(b: Byte)
    ensures BytesBits([b]) == Lsb(b, 8)
  {
    assert [b][..0] == [];
    assert [] + Lsb(b, 8) == Lsb(b, 8);
  }

  lemma PowOne()
    ensures Pow2(0) == 1
  {
  }

  lemma DivBound(x: nat, d: nat, q: nat)
    requires d >= 1 && x < d * q
    ensures x / d < q
  {
    if x / d >= q {
      MulLe(d, q, x / d);
    }
  }

  /** The k bits of b with v above them. */
  function Above(b: nat, k: nat, v: nat): nat {
    b + Pow2(k) * v
  }

  lemma Joined(b: nat, k: nat, v: nat, n: nat)
    requires b < Pow2(k) && v < Pow2(n)
    ensures Above(b, k, v) < Pow2(k + n) && Lsb(Above(b, k, v), k + n) == Lsb(b, k) + Lsb(v, n)
  {
    hide Pow2, Lsb;
    LsbJoin(b, k, v, n);
    Pow2Add(k, n);
    MulLe(Pow2(k), v + 1, Pow2(n));
    assert Pow2(k) * (v + 1) == Pow2(k) * v + Pow2(k);
  }

  method RightShift(v: nat, n: nat) returns (r: nat)
    ensures r == Shr(v, n)
  {
    ShrIsDiv(v, n);
    var scale := Power(n);
    r := v / scale;
  }

  /** The first 16 bits of the buffer with v above it. */
  lemma FirstSixteen(b: nat, k: nat, v: nat, r: nat)
    requires b < Pow2(k) && k + r == 16
    ensures Lsb(Above(b, k, v) % 65536, 16) == Lsb(b, k) + Lsb(v, r)
  {
    hide Pow2, Lsb;
    Pow2Values();
    LsbJoin(b, k, v, r);
    LsbMod(b + Pow2(k) * v, 16);
  }

  lemma Remaining(v: nat, n: nat, r: nat)
    requires v < Pow2(n) && r <= n
    ensures Shr(v, r) < Pow2(n - r)
    ensures Lsb(v, n) == Lsb(v, r) + Lsb(Shr(v, r), n - r)
  {
    hide Pow2, Lsb, Shr;
    LsbSplit(v, r, n - r);
    ShrIsDiv(v, r);
    Pow2Add(r, n - r);
    DivBound(v, Pow2(r), Pow2(n - r));
  }

  /** 16 of the k + n bits go out, the rest stays. */
  lemma Overflowing(b: nat, k: nat, v: nat, n: nat, r: nat)
    requires k + r == 16 && b < Pow2(k) && v < Pow2(n) && r <= n
    ensures Lsb(Above(b, k, v) % 65536, 16) + Lsb(Shr(v, r), n - r) == Lsb(b, k) + Lsb(v, n)
    ensures Shr(v, r) < Pow2(n - r)
  {
    hide Pow2, Lsb, Above;
    FirstSixteen(b, k, v, r);
    Remaining(v, n, r);
    assert (Lsb(b, k) + Lsb(v, r)) + Lsb(Shr(v, r), n - r) == Lsb(b, k) + (Lsb(v, r) + Lsb(Shr(v, r), n - r));
  }
}
