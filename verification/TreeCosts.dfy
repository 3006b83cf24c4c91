/** Costs as sums over the symbols of an alphabet, and what the forced codes add to them. */
module TreeCosts {
  import opened Bits
  import opened Canonical
  import opened Huffman
  import opened PrefixCodes
  import opened ForcedCodes
  import opened LevelSums

  function DotTerms(f: seq<nat>, v: seq<nat>): (t: seq<int>)
    requires |f| <= |v|
    ensures |t| == |f|
  {
    seq(|f|, i requires 0 <= i < |f| => f[i] * v[i])
  }

  /** The total of frequency times value. */
  function Dot(f: seq<nat>, v: seq<nat>): int
    requires |f| <= |v|
  {
    Sum(DotTerms(f, v))
  }

  lemma DotUpdate(f: seq<nat>, v: seq<nat>, i: nat, k: nat)
    requires |f| <= |v| && i < |f|
    ensures Dot(f[i := k], v) == Dot(f, v) - f[i] * v[i] + k * v[i]
  {
    SumUpdate(DotTerms(f, v), i, k * v[i]);
    assert DotTerms(f[i := k], v) == DotTerms(f, v)[i := k * v[i]];
  }

  /** Only symbols that are used matter. */
  lemma DotSame(f: seq<nat>, v: seq<nat>, u: seq<nat>)
    requires |f| <= |v| && |f| <= |u| && forall i :: 0 <= i < |f| && f[i] != 0 ==> v[i] == u[i]
    ensures Dot(f, v) == Dot(f, u)
  {
    forall i | 0 <= i < |f|
      ensures f[i] * v[i] == f[i] * u[i]
    {
      if f[i] == 0 {
        assert f[i] * v[i] == 0;
      }
    }
    assert DotTerms(f, v) == DotTerms(f, u);
  }

  lemma {:induction false} ForcedDot(f: seq<nat>, v: seq<nat>)
    requires |f| >= 3 && |f| <= |v|
    ensures Dot(Forced(f), v) == Dot(f, v) + ForcedStatic(f, v)
    decreases 2 - NonZero(f)
  {
    if NonZero(f) < 2 {
      ForceStep(f);
      var n := NextForced(MaxCode(f));
      DotUpdate(f, v, n, 1);
      ForcedDot(f[n := 1], v);
    }
  }

  /** Forced codes of one bit each. */
  lemma {:induction false} ForcedOnes(f: seq<nat>, v: seq<nat>)
    requires |f| >= 3 && |f| <= |v|
    requires NonZero(f) < 2 ==> forall i :: 0 <= i < |f| && Forced(f)[i] != 0 ==> v[i] == 1
    ensures ForcedStatic(f, v) == NonZero(Forced(f)) - NonZero(f)
    decreases 2 - NonZero(f)
  {
    if NonZero(f) < 2 {
      ForceStep(f);
      var n := NextForced(MaxCode(f));
      ForcedIs(f[n := 1]);
      ForcedOnes(f[n := 1], v);
    }
  }

  predicate FirstThreeFree(x: seq<nat>) {
    |x| >= 3 && x[0] == 0 && x[1] == 0 && x[2] == 0
  }

  /** Forced symbols are among the first three, which have no extra bits. */
  lemma {:induction false} ForcedNone(f: seq<nat>, v: seq<nat>)
    requires |f| >= 3 && |f| <= |v| && FirstThreeFree(v)
    ensures ForcedStatic(f, v) == 0
    decreases 2 - NonZero(f)
  {
    if NonZero(f) < 2 {
      ForceStep(f);
      var n := NextForced(MaxCode(f));
      assert MaxCode(f) < 2 ==> n <= 2;
      ForcedNone(f[n := 1], v);
    }
  }

  /** The sum over all nodes is one over the symbols. */
  lemma CostIsDot(R: Roots, w: seq<nat>, l: seq<nat>, f: seq<nat>)
    requires |w| == |l| == |R| >= |f| && w[..|f|] == f
    requires forall s :: 0 <= s < |f| ==> (R[s] <==> f[s] != 0)
    requires forall s :: |f| <= s < |R| ==> !R[s]
    ensures Cost(R, w, l) == Dot(f, l[..|f|])
  {
    var t := CostTerms(R, w, l);
    SumZeroTail(t, |f|);
    forall s | 0 <= s < |f|
      ensures t[s] == f[s] * l[..|f|][s]
    {
      assert w[s] == f[s];
    }
    assert t[..|f|] == DotTerms(f, l[..|f|]);
  }

  /** Two members that fill the code space have one bit each. */
  lemma TwoCodes(R: Roots, l: seq<nat>, M: nat, a: nat, b: nat)
    requires Within(R, l, M) && Kraft(R, l, M) == Pow2(M) && a < b < |R| && R[a] && R[b]
    requires (forall s :: 0 <= s < |R| && R[s] ==> s == a || s == b) && l[a] >= 1 && l[b] >= 1
    ensures l[a] == 1 && l[b] == 1
  {
    hide Pow2;
    var t := KraftTerms(R, l, M);
    SumUpdate(t, a, 0);
    SumUpdate(t[a := 0], b, 0);
    SumZero(t[a := 0][b := 0]);
    TwoPowers(M, l[a], l[b]);
  }

  lemma Pow2Less(m: nat, n: nat)
    requires m < n
    ensures Pow2(m) < Pow2(n)
  {
    Pow2Monotone(m, n - 1);
  }

  lemma TwoPowers(M: nat, x: nat, y: nat)
    requires 1 <= x <= M && 1 <= y <= M && Pow2(M - x) + Pow2(M - y) == Pow2(M)
    ensures x == 1 && y == 1
  {
    assert Pow2(M) == 2 * Pow2(M - 1);
    Pow2Monotone(M - x, M - 1);
    Pow2Monotone(M - y, M - 1);
    if x >= 2 {
      Pow2Less(M - x, M - 1);
    }
    if y >= 2 {
      Pow2Less(M - y, M - 1);
    }
  }

  /** When just two symbols are used there are two of them. */
  lemma {:induction false} TwoUsed(f: seq<nat>) returns (a: nat, b: nat)
    requires NonZero(f) == 2
    ensures a < b < |f| && f[a] != 0 && f[b] != 0 && forall s :: 0 <= s < |f| && f[s] != 0 ==> s == a || s == b
  {
    var n := |f| - 1;
    if f[n] != 0 {
      b := n;
      a := OneUsed(f[..n]);
    } else {
      a, b := TwoUsed(f[..n]);
    }
  }

  lemma {:induction false} OneUsed(f: seq<nat>) returns (a: nat)
    requires NonZero(f) == 1
    ensures a < |f| && f[a] != 0 && forall s :: 0 <= s < |f| && f[s] != 0 ==> s == a
  {
    var n := |f| - 1;
    if f[n] != 0 {
      a := n;
      if s :| 0 <= s < n && f[s] != 0 {
        NonZeroOne(f[..n], s);
      }
    } else {
      a := OneUsed(f[..n]);
    }
  }

  /* ---------- what build_tree promises ---------- */

  /** The lengths of a complete prefix code for exactly the symbols used, none longer than max. */
  ghost predicate TreeOf(F: seq<nat>, lens: seq<nat>, max: nat) {
    && Complete(lens) && |lens| == MaxCode(F) + 1
    && forall s :: 0 <= s < |lens| ==> lens[s] <= max && (lens[s] >= 1 <==> F[s] != 0)
  }

  function UsedSymbols(F: seq<nat>): (R: Roots)
    ensures |R| == |F|
  {
    seq(|F|, s requires 0 <= s < |F| => F[s] != 0)
  }

  /** No prefix code for the symbols used takes fewer bits. */
  ghost predicate LeastCost(F: seq<nat>, lens: seq<nat>)
    requires |F| <= |lens|
  {
    forall words: seq<seq<bool>> :: PrefixCode(UsedSymbols(F), words) ==> Dot(F, lens) <= Dot(F, Lengths(words))
  }

  function Widen(l: seq<nat>, n: nat): (r: seq<nat>)
    requires |l| <= n
    ensures |r| == n && r[..|l|] == l
  {
    l + seq(n - |l|, _ => 0)
  }

  lemma WidenFeasible(R: Roots, F: seq<nat>, words: seq<seq<bool>>)
    requires PrefixCode(UsedSymbols(F), words) && |F| <= |R|
    requires forall s :: 0 <= s < |F| ==> (R[s] <==> F[s] != 0)
    requires forall s :: |F| <= s < |R| ==> !R[s]
    ensures Feasible(R, Widen(Lengths(words), |R|), Longest(words))
  {
    var M, l := Longest(words), Lengths(words);
    KraftInequality(UsedSymbols(F), words, M);
    var t := KraftTerms(R, Widen(l, |R|), M);
    SumZeroTail(t, |F|);
    assert t[..|F|] == KraftTerms(UsedSymbols(F), l, M);
  }

  lemma BestIsLeast(R: Roots, w: seq<nat>, d: seq<nat>, F: seq<nat>)
    requires |w| == |d| == |R| >= |F| && w[..|F|] == F && Best(R, w, d)
    requires forall s :: 0 <= s < |F| ==> (R[s] <==> F[s] != 0)
    requires forall s :: |F| <= s < |R| ==> !R[s]
    ensures LeastCost(F, d[..|F|])
  {
    hide Cost, Dot, Feasible;
    forall words: seq<seq<bool>> | PrefixCode(UsedSymbols(F), words)
      ensures Dot(F, d[..|F|]) <= Dot(F, Lengths(words))
    {
      var l := Widen(Lengths(words), |R|);
      WidenFeasible(R, F, words);
      CostIsDot(R, w, d, F);
      CostIsDot(R, w, l, F);
    }
  }
}
