/** The fixed codes of section 3.2.6 of RFC 1951 are complete. */
module FixedCodes {
  import opened Bits
  import opened Canonical
  import opened InflateSpec

  lemma {:induction false} CountRepeat(v: nat, n: nat, b: nat)
    ensures Count(Repeat(v, n), b) == if v == b then n else 0
  {
    if n > 0 {
      CountRepeat(v, n - 1, b);
      assert Repeat(v, n)[..n - 1] == Repeat(v, n - 1);
    }
  }

  lemma FixedLitCount(b: nat)
    ensures Count(FixedLit(), b) == if b == 7 then 24 else if b == 8 then 152 else if b == 9 then 112 else 0
  {
    var p, q, r, s := Repeat(8, 144), Repeat(9, 112), Repeat(7, 24), Repeat(8, 8);
    CountAppend(p + q + r, s, b);
    CountAppend(p + q, r, b);
    CountAppend(p, q, b);
    CountRepeat(8, 144, b);
    CountRepeat(9, 112, b);
    CountRepeat(7, 24, b);
    CountRepeat(8, 8, b);
  }

  lemma FixedLitUsed(b: nat)
    requires b <= 15
    ensures b <= 6 ==> Used(FixedLit(), b) == 0
    ensures b == 7 ==> Used(FixedLit(), b) == 24
    ensures b == 8 ==> Used(FixedLit(), b) == 200
    ensures b >= 9 ==> Used(FixedLit(), b) == Pow2(b)
  {
    FixedLitCount(b);
    if b > 0 {
      FixedLitUsed(b - 1);
    }
    Pow2Values();
  }

  lemma FixedLitComplete()
    ensures |FixedLit()| == 288 && Complete(FixedLit()) && FixedLit()[256] == 7
    ensures forall i :: 0 <= i < 288 ==>
      FixedLit()[i] == if i < 144 then 8 else if i < 256 then 9 else if i < 280 then 7 else 8
  {
    hide Used, Count, Pow2;
    FixedLitUsed(MAXBITS);
  }

  lemma FixedDistUsed(b: nat)
    requires b <= 15
    ensures Used(FixedDist(), b) == if b < 5 then 0 else Pow2(b)
  {
    CountRepeat(5, 32, b);
    if b > 0 {
      FixedDistUsed(b - 1);
    }
    Pow2Values();
  }

  lemma FixedDistComplete()
    ensures |FixedDist()| == 32 && Complete(FixedDist())
  {
    FixedDistUsed(15);
  }

  /** Distance codes are sent as plain five-bit numbers in a fixed block. */
  lemma FixedDistCode(c: nat)
    requires c < 32
    ensures Codeword(FixedDist(), c) == Msb(c, 5)
  {
    FixedDistUsed(4);
    CountRepeat(5, c, 5);
    assert FixedDist()[..c] == Repeat(5, c);
  }
}
