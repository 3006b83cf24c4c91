/**
 How often the tokens of a block use each symbol, and how many bits they take: the sums that
 opt_len and static_len are made of (libz_all/trees.c).
 */
module Tally {
  import opened Bits
  import opened Canonical
  import opened Alphabet
  import opened Lz77
  import opened RunLength
  import opened BlockSpec
  import opened Huffman
  import opened Levels
  import opened TreeCosts

  function LitSymbol(t: Token): (s: nat)
    requires Expressible(t)
    ensures s < L_CODES && s != END_BLOCK
  {
    match t
    case Literal(b) => b
    case Match(len, _) => LengthCode(len - 3) + LITERALS + 1
  }

  function LitCount(toks: seq<Token>, s: nat): nat
    requires forall i :: 0 <= i < |toks| ==> Expressible(toks[i])
  {
    if toks == [] then 0
    else LitCount(toks[..|toks| - 1], s) + (if LitSymbol(toks[|toks| - 1]) == s then 1 else 0)
  }

  predicate UsesDist(t: Token, c: nat)
    requires Expressible(t)
  {
    t.Match? && DistCode(t.dist - 1) == c
  }

  function DistCount(toks: seq<Token>, c: nat): nat
    requires forall i :: 0 <= i < |toks| ==> Expressible(toks[i])
  {
    if toks == [] then 0
    else DistCount(toks[..|toks| - 1], c) + (if UsesDist(toks[|toks| - 1], c) then 1 else 0)
  }

  predicate AllExpressible(toks: seq<Token>) {
    forall i :: 0 <= i < |toks| ==> Expressible(toks[i])
  }

  /** The frequencies that the tokens and the end-of-block code give. */
  function LitFreq(toks: seq<Token>): (f: seq<nat>)
    requires AllExpressible(toks)
    ensures |f| == L_CODES
  {
    seq(L_CODES, s requires 0 <= s < L_CODES => LitCount(toks, s) + (if s == END_BLOCK then 1 else 0))
  }

  function DistFreq(toks: seq<Token>): (f: seq<nat>)
    requires AllExpressible(toks)
    ensures |f| == D_CODES
  {
    seq(D_CODES, c requires 0 <= c < D_CODES => DistCount(toks, c))
  }

  lemma LitFreqSnoc(toks: seq<Token>, t: Token)
    requires AllExpressible(toks) && Expressible(t)
    ensures AllExpressible(toks + [t])
    ensures LitFreq(toks + [t]) == LitFreq(toks)[LitSymbol(t) := LitFreq(toks)[LitSymbol(t)] + 1]
  {
    hide LitSymbol;
    assert (toks + [t])[..|toks|] == toks;
  }

  lemma DistFreqSnoc(toks: seq<Token>, t: Token)
    requires AllExpressible(toks) && Expressible(t)
    ensures AllExpressible(toks + [t])
    ensures t.Literal? ==> DistFreq(toks + [t]) == DistFreq(toks)
    ensures t.Match? ==>
      DistFreq(toks + [t]) == DistFreq(toks)[DistCode(t.dist - 1) := DistFreq(toks)[DistCode(t.dist - 1)] + 1]
  {
    hide DistCode;
    assert (toks + [t])[..|toks|] == toks;
  }

  lemma FreqStart()
    ensures LitFreq([]) == seq(L_CODES, s => 0)[END_BLOCK := 1] && DistFreq([]) == seq(D_CODES, c => 0)
  {
  }

  /** Every symbol that a token uses has a frequency. */
  lemma {:induction false} UsedHasFreq(toks: seq<Token>, i: nat)
    requires AllExpressible(toks) && i < |toks|
    ensures LitCount(toks, LitSymbol(toks[i])) >= 1
    ensures toks[i].Match? ==> DistCount(toks, DistCode(toks[i].dist - 1)) >= 1
  {
    hide LitSymbol, DistCode;
    var n := |toks| - 1;
    if i < n {
      UsedHasFreq(toks[..n], i);
    }
  }

  function LExtra(): (x: seq<nat>)
    ensures |x| == L_CODES
  {
    ExtraOf(L_CODES, LITERALS + 1, ExtraLBits())
  }

  function DExtra(): (x: seq<nat>)
    ensures |x| == D_CODES
  {
    ExtraOf(D_CODES, 0, ExtraDBits())
  }

  /** The number of bits the tokens take with code lengths lv and dv. */
  function TokensCost(toks: seq<Token>, lv: seq<nat>, dv: seq<nat>): nat
    requires AllExpressible(toks) && |lv| >= L_CODES && |dv| >= D_CODES
  {
    if toks == [] then 0
    else
      var t := toks[|toks| - 1];
      TokensCost(toks[..|toks| - 1], lv, dv) + lv[LitSymbol(t)] + LExtra()[LitSymbol(t)] +
      if t.Literal? then 0 else dv[DistCode(t.dist - 1)] + DExtra()[DistCode(t.dist - 1)]
  }

  lemma DotOne(f: seq<nat>, v: seq<nat>, i: nat)
    requires |f| <= |v| && i < |f|
    ensures Dot(f[i := f[i] + 1], v) == Dot(f, v) + v[i]
  {
    DotUpdate(f, v, i, f[i] + 1);
    OneMore(f[i], v[i]);
  }

  lemma OneMore(a: nat, b: nat)
    ensures (a + 1) * b == a * b + b
  {
  }

  lemma DotStart(lv: seq<nat>, dv: seq<nat>)
    requires |lv| >= L_CODES && |dv| >= D_CODES
    ensures Dot(LitFreq([]), lv) == lv[END_BLOCK] && Dot(DistFreq([]), dv) == 0
  {
    FreqStart();
    var z := seq(L_CODES, s => 0);
    SumZero(DotTerms(z, lv));
    DotUpdate(z, lv, END_BLOCK, 1);
    SumZero(DotTerms(DistFreq([]), dv));
  }

  /** Frequency times length, summed over the symbols, is length summed over the tokens. */
  lemma {:induction false} CostIsSum(toks: seq<Token>, lv: seq<nat>, dv: seq<nat>)
    requires AllExpressible(toks) && |lv| >= L_CODES && |dv| >= D_CODES
    ensures Dot(LitFreq(toks), lv) + Dot(LitFreq(toks), LExtra()) + Dot(DistFreq(toks), dv) + Dot(DistFreq(toks), DExtra())
         == TokensCost(toks, lv, dv) + lv[END_BLOCK]
  {
    hide Dot, LitFreq, DistFreq, DistCode, LitSymbol, LExtra, DExtra;
    if toks == [] {
      DotStart(lv, dv);
      DotStart(LExtra(), DExtra());
      EndHasNoExtra();
    } else {
      var n := |toks| - 1;
      var h, t := toks[..n], toks[n];
      assert h + [t] == toks;
      CostIsSum(h, lv, dv);
      LitFreqSnoc(h, t);
      DistFreqSnoc(h, t);
      DotOne(LitFreq(h), lv, LitSymbol(t));
      DotOne(LitFreq(h), LExtra(), LitSymbol(t));
      if t.Match? {
        DotOne(DistFreq(h), dv, DistCode(t.dist - 1));
        DotOne(DistFreq(h), DExtra(), DistCode(t.dist - 1));
      }
    }
  }

  lemma EndHasNoExtra()
    ensures LExtra()[END_BLOCK] == 0
  {
    hide ExtraLBits;
  }

  /** The vector v agrees with the code lengths wherever there is a code. */
  predicate SameLengths(lens: seq<nat>, v: seq<nat>) {
    forall s :: 0 <= s < |lens| && s < |v| && lens[s] >= 1 ==> v[s] == lens[s]
  }

  lemma LExtraAt(s: nat)
    requires s < L_CODES
    ensures LExtra()[s] == if s > LITERALS then ExtraLBits()[s - LITERALS - 1] else 0
  {
    hide ExtraLBits;
  }

  lemma DExtraAt(c: nat)
    requires c < D_CODES
    ensures DExtra()[c] == ExtraDBits()[c]
  {
    hide ExtraDBits;
  }

  lemma TokenCost(ll: seq<nat>, dl: seq<nat>, lv: seq<nat>, dv: seq<nat>, t: Token)
    requires Coded(ll, dl, t) && |lv| >= L_CODES && |dv| >= D_CODES && SameLengths(ll, lv) && SameLengths(dl, dv)
    ensures Expressible(t)
    ensures |TokenBits(ll, dl, t)| == lv[LitSymbol(t)] + LExtra()[LitSymbol(t)] +
      if t.Literal? then 0 else dv[DistCode(t.dist - 1)] + DExtra()[DistCode(t.dist - 1)]
  {
    hide Codeword, LengthCode, DistCode, ExtraLBits, ExtraDBits, BaseLength, BaseDist, Lsb, LExtra, DExtra, Pow2,
      LExt, LBase, DExt, DBase;
    match t
    case Literal(b) =>
      LExtraAt(b);
    case Match(len, dist) =>
      var c := LengthCode(len - 3);
      LengthCodeInverse(len - 3);
      DistCodeInverse(dist - 1);
      LExtraAt(c + 257);
      DExtraAt(DistCode(dist - 1));
  }

  /** The bits sent for the tokens are exactly what was counted. */
  lemma {:induction false} TokensCostIs(ll: seq<nat>, dl: seq<nat>, lv: seq<nat>, dv: seq<nat>, toks: seq<Token>)
    requires AllCoded(ll, dl, toks) && |lv| >= L_CODES && |dv| >= D_CODES && SameLengths(ll, lv) && SameLengths(dl, dv)
    ensures AllExpressible(toks) && |TokensBits(ll, dl, toks)| == TokensCost(toks, lv, dv)
  {
    hide TokenBits, LitSymbol, DistCode, LExtra, DExtra, Coded;
    if toks != [] {
      var n := |toks| - 1;
      TokensCostIs(ll, dl, lv, dv, toks[..n]);
      TokenCost(ll, dl, lv, dv, toks[n]);
    }
  }

  /**
   Exact cost accounting for the data of a block: what build_tree adds to opt_len (or, with the
   fixed lengths, to static_len) for the two alphabets is the number of bits compress_block sends.
   */
  lemma DataCost(ll: seq<nat>, dl: seq<nat>, lv: seq<nat>, dv: seq<nat>, toks: seq<Token>)
    requires AllCoded(ll, dl, toks) && |lv| >= L_CODES && |dv| >= D_CODES && SameLengths(ll, lv) && SameLengths(dl, dv)
    requires END_BLOCK < |ll| && ll[END_BLOCK] >= 1
    ensures AllExpressible(toks)
    ensures |DataBits(ll, dl, toks)| == Dot(LitFreq(toks), lv) + Dot(LitFreq(toks), LExtra())
                                      + Dot(DistFreq(toks), dv) + Dot(DistFreq(toks), DExtra())
  {
    hide Dot, LitFreq, DistFreq, TokensBits, TokensCost;
    TokensCostIs(ll, dl, lv, dv, toks);
    CostIsSum(toks, lv, dv);
  }

  /* ---------- the code length code ---------- */

  function BlExtraBits(): (x: seq<nat>)
    ensures |x| == BL_CODES
  {
    [0, 0, 0, 0, 0, 0, 0, 0, 0, 0, 0, 0, 0, 0, 0, 0, 2, 3, 7]
  }

  function BlExtra(): (x: seq<nat>)
    ensures |x| == BL_CODES
  {
    ExtraOf(BL_CODES, 0, BlExtraBits())
  }

  function ClFreq(cls: seq<Cl>): (f: seq<nat>)
    ensures |f| == BL_CODES
  {
    seq(BL_CODES, s requires 0 <= s < BL_CODES => ClCount(cls, s))
  }

  lemma ClFreqSnoc(cls: seq<Cl>, c: Cl)
    requires ClSymbol(c) < BL_CODES
    ensures ClFreq(cls + [c]) == ClFreq(cls)[ClSymbol(c) := ClFreq(cls)[ClSymbol(c)] + 1]
  {
    hide ClSymbol;
    assert (cls + [c])[..|cls|] == cls;
  }

  lemma BlExtraIs(c: Cl)
    requires ClOk(c)
    ensures ClSymbol(c) < BL_CODES && BlExtra()[ClSymbol(c)] == ClExtraBits(c)
  {
  }

  lemma ClStart(bv: seq<nat>)
    requires |bv| >= BL_CODES
    ensures Dot(ClFreq([]), bv) == 0
  {
    SumZero(DotTerms(ClFreq([]), bv));
  }

  /** The same for the run-length code of the lengths. */
  lemma {:induction false} ClsCost(bl: seq<nat>, cls: seq<Cl>)
    requires |bl| == BL_CODES && ClsCoded(bl, cls)
    ensures |ClsBits(bl, cls)| == Dot(ClFreq(cls), bl) + Dot(ClFreq(cls), BlExtra())
  {
    hide Dot, ClFreq, Codeword, ClSymbol, BlExtra, ClOk;
    if cls == [] {
      ClStart(bl);
      ClStart(BlExtra());
    } else {
      var n := |cls| - 1;
      var h, c := cls[..n], cls[n];
      assert h + [c] == cls;
      ClsCost(bl, h);
      BlExtraIs(c);
      ClFreqSnoc(h, c);
      DotOne(ClFreq(h), bl, ClSymbol(c));
      DotOne(ClFreq(h), BlExtra(), ClSymbol(c));
    }
  }
}
