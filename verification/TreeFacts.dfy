/** What the trees of a block are good for: every token and every code length symbol has a code. */
module TreeFacts {
  import opened Bits
  import opened Canonical
  import opened Alphabet
  import opened Lz77
  import opened InflateSpec
  import opened FixedCodes
  import opened RunLength
  import opened BlockSpec
  import opened GenCodes
  import opened ForcedCodes
  import opened TreeCosts
  import opened Tally

  lemma CountPadded(lens: seq<nat>, k: nat, b: nat)
    requires b >= 1
    ensures Count(lens + Repeat(0, k), b) == Count(lens, b)
  {
    CountAppend(lens, Repeat(0, k), b);
    CountRepeat(0, k, b);
  }

  lemma {:induction false} UsedPadded(lens: seq<nat>, k: nat, b: nat)
    ensures Used(lens + Repeat(0, k), b) == Used(lens, b)
  {
    if b > 0 {
      UsedPadded(lens, k, b - 1);
      CountPadded(lens, k, b);
    }
  }

  /** Symbols without a code at the end do not change the code. */
  lemma Padding(lens: seq<nat>, k: nat)
    requires Complete(lens)
    ensures Complete(lens + Repeat(0, k))
    ensures forall s :: 0 <= s < |lens| && lens[s] >= 1 ==> Codeword(lens + Repeat(0, k), s) == Codeword(lens, s)
  {
    hide Used, Count, Msb;
    var p := lens + Repeat(0, k);
    UsedPadded(lens, k, MAXBITS);
    forall s | 0 <= s < |lens| && lens[s] >= 1
      ensures Codeword(p, s) == Codeword(lens, s)
    {
      UsedPadded(lens, k, lens[s] - 1);
      assert p[..s] == lens[..s];
    }
  }

  lemma PaddedCodes(codes: seq<nat>, lens: seq<nat>, k: nat)
    requires Complete(lens) && CodesFor(codes, lens) && |lens| + k <= |codes|
    ensures CodesFor(codes, lens + Repeat(0, k))
  {
    hide Complete, Codeword;
    Padding(lens, k);
    var p := lens + Repeat(0, k);
    forall s | 0 <= s < |p| && p[s] >= 1
      ensures CodeFor(codes[s], p, s)
    {
      assert s < |lens| && CodeFor(codes[s], lens, s);
    }
  }

  /** A symbol with a frequency has a code. */
  lemma FreqHasCode(f: seq<nat>, lens: seq<nat>, max: nat, s: nat)
    requires |f| >= 3 && TreeOf(Forced(f), lens, max) && s < |f| && f[s] != 0
    ensures s < |lens| && lens[s] >= 1
  {
    hide Complete;
    ForcedIs(f);
    var c := MaxCode(Forced(f));
  }

  /** The trees built from the tokens' frequencies have codes for all of them. */
  lemma TokensHaveCodes(toks: seq<Token>, ll: seq<nat>, dl: seq<nat>)
    requires AllExpressible(toks)
    requires TreeOf(Forced(LitFreq(toks)), ll, 15) && TreeOf(Forced(DistFreq(toks)), dl, 15)
    ensures AllCoded(ll, dl, toks) && 257 <= |ll| <= 286 && ll[END_BLOCK] >= 1 && 1 <= |dl| <= 30
  {
    hide TreeOf, Forced, DistCode, LengthCode;
    forall i | 0 <= i < |toks|
      ensures Coded(ll, dl, toks[i])
    {
      UsedHasFreq(toks, i);
      FreqHasCode(LitFreq(toks), ll, 15, LitSymbol(toks[i]));
      if toks[i].Match? {
        FreqHasCode(DistFreq(toks), dl, 15, DistCode(toks[i].dist - 1));
      }
    }
    FreqHasCode(LitFreq(toks), ll, 15, END_BLOCK);
    TreeSize(Forced(LitFreq(toks)), ll);
    TreeSize(Forced(DistFreq(toks)), dl);
  }

  lemma TreeSize(F: seq<nat>, lens: seq<nat>)
    requires TreeOf(F, lens, 15) && NonZero(F) >= 2
    ensures 1 <= |lens| <= |F|
  {
    if MaxCode(F) < 0 {
      NoneUsed(F);
    }
  }

  /** Every pair can be expressed with the fixed codes. */
  lemma FixedHasCodes(toks: seq<Token>)
    requires AllExpressible(toks)
    ensures AllCoded(FixedLit(), FixedDist(), toks) && FixedLit()[END_BLOCK] == 7
  {
    hide FixedLit, FixedDist, DistCode, LengthCode, Complete;
    FixedLitComplete();
    FixedFive();
  }

  lemma FixedFive()
    ensures forall c :: 0 <= c < 32 ==> FixedDist()[c] == 5
  {
  }

  lemma ClsHaveCodes(cls: seq<Cl>, lens: seq<nat>, bl: seq<nat>)
    requires TreeOf(Forced(ClFreq(cls)), lens, 7) && |bl| == 19 && lens <= bl
    requires forall i :: 0 <= i < |cls| ==> ClOk(cls[i])
    ensures ClsCoded(bl, cls)
  {
    hide TreeOf, Forced, ClOk;
    forall i | 0 <= i < |cls|
      ensures ClOk(cls[i]) && ClSymbol(cls[i]) < |bl| && bl[ClSymbol(cls[i])] >= 1
    {
      ClCountUsed(cls, i);
      ClSymbolSmall(cls[i]);
      FreqHasCode(ClFreq(cls), lens, 7, ClSymbol(cls[i]));
    }
  }

  lemma ClSymbolSmall(c: Cl)
    requires ClOk(c)
    ensures ClSymbol(c) < BL_CODES
  {
  }

  lemma ClsCodedParts(bl: seq<nat>, a: seq<Cl>, b: seq<Cl>)
    requires ClsCoded(bl, a + b)
    ensures ClsCoded(bl, a) && ClsCoded(bl, b)
  {
    forall i | 0 <= i < |a|
      ensures ClOk(a[i]) && ClSymbol(a[i]) < |bl| && bl[ClSymbol(a[i])] >= 1
    {
      assert (a + b)[i] == a[i];
    }
    forall i | 0 <= i < |b|
      ensures ClOk(b[i]) && ClSymbol(b[i]) < |bl| && bl[ClSymbol(b[i])] >= 1
    {
      assert (a + b)[|a| + i] == b[i];
    }
  }

  lemma TreeLengths(F: seq<nat>, lens: seq<nat>, max: nat)
    requires TreeOf(F, lens, max) && max <= 15
    ensures Complete(lens) && LengthsOk(lens) && |lens| == MaxCode(F) + 1 <= |F|
    ensures forall s :: 0 <= s < |lens| ==> lens[s] <= max
  {
  }

  /** The bits of the header of a dynamic block. */
  lemma TreesCost(ll: seq<nat>, dl: seq<nat>, bl: seq<nat>, n: nat)
    requires TreesOk(ll, dl, bl, n)
    ensures var cls := RunLengths(ll, 0, -1) + RunLengths(dl, 0, -1);
            |TreesBits(ll, dl, bl, n)| == Dot(ClFreq(cls), bl) + Dot(ClFreq(cls), BlExtra()) + 3 * n + 14
  {
    hide RunLengths, ClsBits, Dot, ClFreq, BlExtra, OrderBits, Lsb, ClsCoded;
    var a, b := RunLengths(ll, 0, -1), RunLengths(dl, 0, -1);
    ClsBitsAppend(bl, a, b);
    ClsCost(bl, a + b);
  }
}
