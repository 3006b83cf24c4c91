/**
 The frequencies fit 16 bits: the counts of a block's tokens, with the end-of-block code and the
 codes that build_tree forces, add up to less than 65536, and no node of the tree weighs more.
 */
module FreqWidth {
  import opened Lz77
  import opened Alphabet
  import opened Canonical
  import opened RunLength
  import opened Tally
  import opened Huffman
  import opened ForcedCodes
  import opened BuildTree

  const MAX_FREQ: nat := 65535

  lemma {:induction false} SumZeros(n: nat)
    ensures Sum(seq(n, _ => 0)) == 0
  {
    if n > 0 {
      SumZeros(n - 1);
      assert seq(n, _ => 0)[..n - 1] == seq(n - 1, _ => 0);
    }
  }

  /** Each token counts once, and the end-of-block code is there from the beginning. */
  lemma {:induction false} LitTotal(toks: seq<Token>)
    requires AllExpressible(toks)
    ensures Sum(LitFreq(toks)) == |toks| + 1
  {
    hide LitFreq, LitSymbol;
    if toks == [] {
      FreqStart();
      SumZeros(L_CODES);
      SumUpdate(seq(L_CODES, _ => 0), END_BLOCK, 1);
    } else {
      var n := |toks| - 1;
      LitTotal(toks[..n]);
      LitFreqSnoc(toks[..n], toks[n]);
      assert toks[..n] + [toks[n]] == toks;
      var f := LitFreq(toks[..n]);
      SumUpdate(f, LitSymbol(toks[n]), f[LitSymbol(toks[n])] + 1);
    }
  }

  lemma {:induction false} DistTotal(toks: seq<Token>)
    requires AllExpressible(toks)
    ensures Sum(DistFreq(toks)) <= |toks|
  {
    hide DistFreq, DistCode;
    if toks == [] {
      FreqStart();
      SumZeros(D_CODES);
    } else {
      var n := |toks| - 1;
      DistTotal(toks[..n]);
      DistFreqSnoc(toks[..n], toks[n]);
      assert toks[..n] + [toks[n]] == toks;
      if toks[n].Match? {
        var f, c := DistFreq(toks[..n]), DistCode(toks[n].dist - 1);
        SumUpdate(f, c, f[c] + 1);
      }
    }
  }

  /** At most two codes are forced. */
  lemma {:induction false} ForcedTotal(f: seq<nat>)
    requires |f| >= 3
    ensures Sum(Forced(f)) <= Sum(f) + 2 - (if NonZero(f) < 2 then NonZero(f) else 2)
    decreases 2 - NonZero(f)
  {
    if NonZero(f) < 2 {
      var n := NextForced(MaxCode(f));
      ForceStep(f);
      SumUpdate(f, n, 1);
      ForcedTotal(f[n := 1]);
    }
  }

  /** The leaves of the tree weigh as much as all frequencies together. */
  lemma {:induction false} LeavesWeight(f: seq<nat>, elems: nat)
    requires elems <= |f|
    ensures Weight(Leaves(f, elems), f) == Sum(f[..elems])
    decreases |f|
  {
    if f == [] {
      assert f[..elems] == [];
    } else {
      var n := |f| - 1;
      var t := WeightTerms(Leaves(f, elems), f);
      if elems <= n {
        LeavesWeight(f[..n], elems);
        assert f[..n][..elems] == f[..elems];
        assert t[..n] == WeightTerms(Leaves(f[..n], elems), f[..n]);
      } else {
        LeavesWeight(f[..n], n);
        assert f[..n][..n] == f[..n] && f[..elems] == f;
        assert t[..n] == WeightTerms(Leaves(f[..n], n), f[..n]);
      }
    }
  }

  /** With at most 32767 tokens in a block no frequency and no weight in the two trees needs more than 16 bits. */
  lemma SixteenBits(toks: seq<Token>, w: seq<nat>, elems: nat)
    requires AllExpressible(toks) && |toks| < 32768 && elems <= |w|
    requires w[..elems] == Forced(LitFreq(toks)) || w[..elems] == Forced(DistFreq(toks))
    ensures Weight(Leaves(w, elems), w) <= MAX_FREQ
  {
    hide LitFreq, DistFreq, Forced, Leaves, Weight;
    LitTotal(toks);
    DistTotal(toks);
    ForcedTotal(LitFreq(toks));
    ForcedTotal(DistFreq(toks));
    LeavesWeight(w, elems);
  }

  /* ---------- the code length codes ---------- */

  /** A run takes no more symbols than it has lengths. */
  lemma {:induction false} RunsShort(lens: seq<nat>, n: nat, prev: int)
    requires n <= |lens|
    ensures |RunLengths(lens, n, prev)| <= |lens| - n
    decreases |lens| - n
  {
    hide RunLen, MaxCount, Piece;
    if n < |lens| {
      var r := RunLen(lens, n, MaxCount(lens[n], prev));
      PieceShort(lens[n], prev, r);
      RunsShort(lens, n + r, lens[n]);
    }
  }

  lemma PieceShort(cur: nat, prev: int, r: nat)
    requires r >= 1
    ensures |Piece(cur, prev, r)| <= r
  {
  }

  lemma {:induction false} ClTotal(cls: seq<Cl>)
    requires forall i :: 0 <= i < |cls| ==> ClSymbol(cls[i]) < BL_CODES
    ensures Sum(ClFreq(cls)) == |cls|
  {
    hide ClFreq, ClSymbol;
    if cls == [] {
      ClFreqStart();
      SumZeros(BL_CODES);
    } else {
      var n := |cls| - 1;
      ClTotal(cls[..n]);
      ClFreqSnoc(cls[..n], cls[n]);
      assert cls[..n] + [cls[n]] == cls;
      var f := ClFreq(cls[..n]);
      SumUpdate(f, ClSymbol(cls[n]), f[ClSymbol(cls[n])] + 1);
    }
  }

  lemma ClFreqStart()
    ensures ClFreq([]) == seq(BL_CODES, _ => 0)
  {
  }

  /** The same for the code length codes: at most 316 lengths are sent. */
  lemma ClWeights(ll: seq<nat>, dl: seq<nat>, w: seq<nat>, elems: nat)
    requires LengthsOk(ll) && LengthsOk(dl) && |ll| <= L_CODES && |dl| <= D_CODES && elems <= |w|
    requires w[..elems] == Forced(ClFreq(RunLengths(ll, 0, -1) + RunLengths(dl, 0, -1)))
    ensures Weight(Leaves(w, elems), w) <= L_CODES + D_CODES + 2
  {
    hide ClFreq, ClSymbol, Forced, Leaves, Weight, RunLengths;
    var cls := RunLengths(ll, 0, -1) + RunLengths(dl, 0, -1);
    RunsShort(ll, 0, -1);
    RunsShort(dl, 0, -1);
    RunLengthsOk(ll, 0, -1);
    RunLengthsOk(dl, 0, -1);
    forall i | 0 <= i < |cls| ensures ClSymbol(cls[i]) < BL_CODES {
      assert ClOk(cls[i]);
      BlExtraIs(cls[i]);
    }
    ClTotal(cls);
    ForcedTotal(ClFreq(cls));
    LeavesWeight(w, elems);
  }
}
