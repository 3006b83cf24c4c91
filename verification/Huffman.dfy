/**
 Why merging two nodes of least weight again and again is best (Huffman): every assignment of
 code lengths that satisfies the Kraft inequality costs at least the sum of the merged weights,
 and the depths in the tree of the merges cost exactly that.
 */
module Huffman {
  import opened Bits

  /* ---------- sums ---------- */

  function Sum(s: seq<int>): int {
    if s == [] then 0 else Sum(s[..|s| - 1]) + s[|s| - 1]
  }

  lemma {:induction false} SumUpdate(s: seq<int>, i: nat, v: int)
    requires i < |s|
    ensures Sum(s[i := v]) == Sum(s) - s[i] + v
  {
    var n := |s| - 1;
    if i == n {
      assert s[i := v][..n] == s[..n];
    } else {
      assert s[i := v][..n] == s[..n][i := v];
      SumUpdate(s[..n], i, v);
    }
  }

  lemma {:induction false} SumScaled(s: seq<int>, t: seq<int>)
    requires |s| == |t| && forall i :: 0 <= i < |s| ==> t[i] == 2 * s[i]
    ensures Sum(t) == 2 * Sum(s)
  {
    if s != [] {
      SumScaled(s[..|s| - 1], t[..|t| - 1]);
    }
  }

  lemma {:induction false} SumAtLeast(s: seq<int>, i: nat)
    requires i < |s| && forall j :: 0 <= j < |s| ==> s[j] >= 0
    ensures Sum(s) >= s[i] && Sum(s[..i]) >= 0
    decreases |s|
  {
    var n := |s| - 1;
    if n > 0 {
      SumAtLeast(s[..n], if i < n then i else 0);
      if i < n {
        assert s[..n][..i] == s[..i];
      } else {
        SumNonNegative(s[..n]);
      }
    }
  }

  lemma {:induction false} SumNonNegative(s: seq<int>)
    requires forall j :: 0 <= j < |s| ==> s[j] >= 0
    ensures Sum(s) >= 0
  {
    if s != [] {
      SumNonNegative(s[..|s| - 1]);
    }
  }

  lemma SumAtLeastTwo(s: seq<int>, i: nat, j: nat)
    requires i < |s| && j < |s| && i != j && forall k :: 0 <= k < |s| ==> s[k] >= 0
    ensures Sum(s) >= s[i] + s[j]
  {
    SumUpdate(s, i, 0);
    SumAtLeast(s[i := 0], j);
  }

  lemma {:induction false} SumParity(s: seq<int>)
    requires forall j :: 0 <= j < |s| ==> s[j] % 2 == 0
    ensures Sum(s) % 2 == 0
  {
    if s != [] {
      SumParity(s[..|s| - 1]);
    }
  }

  /* ---------- costs and the Kraft inequality ---------- */

  /** The nodes in play, among all node numbers. */
  type Roots = seq<bool>

  function CostTerms(R: Roots, w: seq<nat>, l: seq<nat>): (t: seq<int>)
    requires |w| == |R| && |l| == |R|
    ensures |t| == |R|
  {
    seq(|R|, i requires 0 <= i < |R| => if R[i] then w[i] * l[i] else 0)
  }

  /** The total of weight times length. */
  function Cost(R: Roots, w: seq<nat>, l: seq<nat>): int
    requires |w| == |R| && |l| == |R|
  {
    Sum(CostTerms(R, w, l))
  }

  predicate Within(R: Roots, l: seq<nat>, M: nat) {
    |l| == |R| && forall i :: 0 <= i < |R| && R[i] ==> l[i] <= M
  }

  function KraftTerms(R: Roots, l: seq<nat>, M: nat): (t: seq<int>)
    requires Within(R, l, M)
    ensures |t| == |R|
  {
    seq(|R|, i requires 0 <= i < |R| => if R[i] then Pow2(M - l[i]) else 0)
  }

  /** The code space the lengths take, in units of 2^-M. */
  function Kraft(R: Roots, l: seq<nat>, M: nat): int
    requires Within(R, l, M)
  {
    Sum(KraftTerms(R, l, M))
  }

  /** A prefix code with these lengths exists. */
  predicate Feasible(R: Roots, l: seq<nat>, M: nat) {
    Within(R, l, M) && Kraft(R, l, M) <= Pow2(M)
  }

  lemma KraftScale(R: Roots, l: seq<nat>, M: nat)
    requires Within(R, l, M)
    ensures Within(R, l, M + 1) && Kraft(R, l, M + 1) == 2 * Kraft(R, l, M)
  {
    SumScaled(KraftTerms(R, l, M), KraftTerms(R, l, M + 1));
  }

  lemma CostUpdate(R: Roots, w: seq<nat>, l: seq<nat>, i: nat, v: nat)
    requires |w| == |R| && |l| == |R| && i < |R| && R[i]
    ensures Cost(R, w, l[i := v]) == Cost(R, w, l) - w[i] * l[i] + w[i] * v
  {
    SumUpdate(CostTerms(R, w, l), i, w[i] * v);
    assert CostTerms(R, w, l[i := v]) == CostTerms(R, w, l)[i := w[i] * v];
  }

  lemma KraftUpdate(R: Roots, l: seq<nat>, M: nat, i: nat, v: nat)
    requires Within(R, l, M) && i < |R| && R[i] && v <= M
    ensures Within(R, l[i := v], M)
    ensures Kraft(R, l[i := v], M) == Kraft(R, l, M) - Pow2(M - l[i]) + Pow2(M - v)
  {
    SumUpdate(KraftTerms(R, l, M), i, Pow2(M - v));
    assert KraftTerms(R, l[i := v], M) == KraftTerms(R, l, M)[i := Pow2(M - v)];
  }

  /* ---------- the exchange argument ---------- */

  predicate Smallest(R: Roots, w: seq<nat>, n: nat, m: nat)
  {
    && |w| == |R| && n < |R| && m < |R| && n != m && R[n] && R[m]
    && (forall i :: 0 <= i < |R| && R[i] ==> w[n] <= w[i])
    && (forall i :: 0 <= i < |R| && R[i] && i != n ==> w[m] <= w[i])
  }

  function Swap(l: seq<nat>, a: nat, b: nat): (r: seq<nat>)
    requires a < |l| && b < |l|
    ensures |r| == |l|
  {
    l[a := l[b]][b := l[a]]
  }

  /** Giving the lighter of two nodes the longer code does not cost more. */
  lemma SwapCheaper(R: Roots, w: seq<nat>, l: seq<nat>, M: nat, a: nat, b: nat)
    requires |w| == |R| && Within(R, l, M) && a < |R| && b < |R| && R[a] && R[b] && a != b
    requires w[a] <= w[b] && l[a] <= l[b]
    ensures Within(R, Swap(l, a, b), M) && Kraft(R, Swap(l, a, b), M) == Kraft(R, l, M)
    ensures Cost(R, w, Swap(l, a, b)) <= Cost(R, w, l)
  {
    hide Cost, Kraft;
    CostUpdate(R, w, l, a, l[b]);
    CostUpdate(R, w, l[a := l[b]], b, l[a]);
    KraftUpdate(R, l, M, a, l[b]);
    KraftUpdate(R, l[a := l[b]], M, b, l[a]);
    Products(w[a], w[b], l[a], l[b]);
  }

  lemma Products(wa: nat, wb: nat, la: nat, lb: nat)
    requires wa <= wb && la <= lb
    ensures wa * lb + wb * la <= wa * la + wb * lb
  {
    assert (wb - wa) * (lb - la) >= 0;
    assert (wb - wa) * (lb - la) == wb * lb - wb * la - wa * lb + wa * la;
  }

  lemma TwoLeaves(R: Roots, l: seq<nat>, M: nat, n: nat, m: nat)
    requires Feasible(R, l, M) && n < |R| && m < |R| && n != m && R[n] && R[m]
    ensures M >= 1
  {
    if M == 0 {
      SumAtLeastTwo(KraftTerms(R, l, 0), n, m);
    }
  }

  /** Only one node has the greatest length: all the others take an even number of units. */
  lemma KraftOdd(R: Roots, l: seq<nat>, M: nat, x: nat)
    requires Within(R, l, M) && M >= 1 && x < |R| && R[x] && l[x] == M
    requires forall i :: 0 <= i < |R| && R[i] && i != x ==> l[i] < M
    ensures Kraft(R, l, M) % 2 == 1
  {
    var t := KraftTerms(R, l, M);
    SumUpdate(t, x, 0);
    var u := t[x := 0];
    forall i | 0 <= i < |u|
      ensures u[i] % 2 == 0
    {
      if i != x && R[i] {
        assert Pow2(M - l[i]) == 2 * Pow2(M - l[i] - 1);
      }
    }
    SumParity(u);
    assert t[x] == 1;
  }

  /** Only one node has the greatest length: half its code space is free, so it can be shortened. */
  lemma Shorten(R: Roots, w: seq<nat>, l: seq<nat>, M: nat, x: nat)
    requires |w| == |R| && Feasible(R, l, M) && M >= 1 && x < |R| && R[x] && l[x] == M
    requires forall i :: 0 <= i < |R| && R[i] && i != x ==> l[i] < M
    ensures Feasible(R, l[x := M - 1], M - 1) && Cost(R, w, l[x := M - 1]) <= Cost(R, w, l)
  {
    hide Kraft, Cost;
    KraftOdd(R, l, M, x);
    KraftUpdate(R, l, M, x, M - 1);
    assert Pow2(1) == 2 && Pow2(0) == 1;
    KraftScale(R, l[x := M - 1], M - 1);
    CostUpdate(R, w, l, x, M - 1);
    assert w[x] * (M - 1) == w[x] * M - w[x];
  }

  /** Some assignment that is no worse gives the two lightest nodes the same, greatest length. */
  lemma {:induction false} Deepest(R: Roots, w: seq<nat>, l: seq<nat>, M: nat, n: nat, m: nat)
    returns (l': seq<nat>, M': nat)
    requires Smallest(R, w, n, m) && Feasible(R, l, M)
    ensures Feasible(R, l', M') && M' >= 1 && l'[n] == M' && l'[m] == M'
    ensures Cost(R, w, l') <= Cost(R, w, l)
    decreases M
  {
    hide Cost, Kraft;
    TwoLeaves(R, l, M, n, m);
    if x :| 0 <= x < |R| && R[x] && l[x] == M {
      if y :| 0 <= y < |R| && R[y] && l[y] == M && y != x {
        l' := SwapDown(R, w, l, M, n, m, x, y);
        M' := M;
      } else {
        Shorten(R, w, l, M, x);
        l', M' := Deepest(R, w, l[x := M - 1], M - 1, n, m);
      }
    } else {
      KraftScale(R, l, M - 1);
      l', M' := Deepest(R, w, l, M - 1, n, m);
    }
  }

  lemma SwapDown(R: Roots, w: seq<nat>, l: seq<nat>, M: nat, n: nat, m: nat, x: nat, y: nat) returns (l': seq<nat>)
    requires Smallest(R, w, n, m) && Feasible(R, l, M)
    requires x < |R| && y < |R| && x != y && R[x] && R[y] && l[x] == M && l[y] == M
    ensures Feasible(R, l', M) && l'[n] == M && l'[m] == M && Cost(R, w, l') <= Cost(R, w, l)
  {
    hide Cost, Kraft;
    var z := if x == m || x == n then y else x;
    l' := l;
    if l[n] < M {
      SwapCheaper(R, w, l, M, n, z);
      l' := Swap(l, n, z);
    }
    assert l'[n] == M;
    var y' := if x == m || (l[n] < M && z == x) || x == n then (if y == n || (l[n] < M && z == y) then x else y) else x;
    if l'[m] < M {
      assert l'[y'] == M && y' != n && y' != m;
      SwapCheaper(R, w, l', M, m, y');
      l' := Swap(l', m, y');
    }
  }

  /* ---------- merging ---------- */

  /** n and m are replaced by their father p. */
  function Merged(R: Roots, n: nat, m: nat, p: nat): (r: Roots)
    requires n < |R| && m < |R| && p < |R|
    ensures |r| == |R|
  {
    R[n := false][m := false][p := true]
  }

  lemma MergedCost(R: Roots, w: seq<nat>, l: seq<nat>, n: nat, m: nat, p: nat)
    requires |w| == |R| && |l| == |R| && n < |R| && m < |R| && p < |R| && n != m
    requires R[n] && R[m] && !R[p]
    ensures Cost(Merged(R, n, m, p), w, l) == Cost(R, w, l) - w[n] * l[n] - w[m] * l[m] + w[p] * l[p]
  {
    var t := CostTerms(R, w, l);
    SumUpdate(t, n, 0);
    SumUpdate(t[n := 0], m, 0);
    SumUpdate(t[n := 0][m := 0], p, w[p] * l[p]);
    assert CostTerms(Merged(R, n, m, p), w, l) == t[n := 0][m := 0][p := w[p] * l[p]];
  }

  lemma MergedKraft(R: Roots, l: seq<nat>, M: nat, n: nat, m: nat, p: nat)
    requires Within(R, l, M) && n < |R| && m < |R| && p < |R| && n != m && R[n] && R[m] && !R[p] && l[p] <= M
    ensures Within(Merged(R, n, m, p), l, M)
    ensures Kraft(Merged(R, n, m, p), l, M) == Kraft(R, l, M) - Pow2(M - l[n]) - Pow2(M - l[m]) + Pow2(M - l[p])
  {
    var t := KraftTerms(R, l, M);
    SumUpdate(t, n, 0);
    SumUpdate(t[n := 0], m, 0);
    SumUpdate(t[n := 0][m := 0], p, Pow2(M - l[p]));
    assert KraftTerms(Merged(R, n, m, p), l, M) == t[n := 0][m := 0][p := Pow2(M - l[p])];
  }

  /** An assignment for the nodes before the merge gives one for the nodes after it, cheaper by the merged weight. */
  lemma MergeStep(R: Roots, w: seq<nat>, l: seq<nat>, M: nat, n: nat, m: nat, p: nat) returns (l': seq<nat>, M': nat)
    requires Smallest(R, w, n, m) && Feasible(R, l, M) && p < |R| && !R[p] && w[p] == w[n] + w[m]
    ensures Feasible(Merged(R, n, m, p), l', M')
    ensures Cost(Merged(R, n, m, p), w, l') + w[p] <= Cost(R, w, l)
  {
    hide Cost, Kraft;
    var d;
    d, M' := Deepest(R, w, l, M, n, m);
    l' := d[p := M' - 1];
    NotThere(R, w, d, M', p, M' - 1);
    MergedCost(R, w, l', n, m, p);
    MergedKraft(R, l', M', n, m, p);
    assert Pow2(1) == 2 && Pow2(0) == 1;
    assert w[p] * (M' - 1) == w[n] * M' + w[m] * M' - w[p];
  }

  /** The length of a node that is not in play does not matter. */
  lemma NotThere(R: Roots, w: seq<nat>, l: seq<nat>, M: nat, p: nat, v: nat)
    requires |w| == |R| && Within(R, l, M) && p < |R| && !R[p]
    ensures Within(R, l[p := v], M)
    ensures Cost(R, w, l[p := v]) == Cost(R, w, l) && Kraft(R, l[p := v], M) == Kraft(R, l, M)
  {
    assert CostTerms(R, w, l[p := v]) == CostTerms(R, w, l);
    assert KraftTerms(R, l[p := v], M) == KraftTerms(R, l, M);
  }

  /* ---------- whole trees ---------- */

  datatype Pair = Pair(n: nat, m: nat)

  /** The i-th merge creates node first + i out of two nodes of least weight, until one node is left. */
  predicate Merges(R: Roots, w: seq<nat>, first: nat, ms: seq<Pair>)
    decreases |ms|
  {
    |w| == |R| &&
    (ms == [] ||
      (var n, m := ms[0].n, ms[0].m;
       && Smallest(R, w, n, m) && first < |R| && !R[first] && w[first] == w[n] + w[m]
       && Merges(Merged(R, n, m, first), w, first + 1, ms[1..])))
  }

  /** The total weight of the inner nodes. */
  function InnerWeight(w: seq<nat>, first: nat, k: nat): nat
    requires first + k <= |w|
    decreases k
  {
    if k == 0 then 0 else w[first] + InnerWeight(w, first + 1, k - 1)
  }

  function WeightTerms(R: Roots, w: seq<nat>): (t: seq<int>)
    requires |w| == |R|
    ensures |t| == |R|
  {
    seq(|R|, i requires 0 <= i < |R| => if R[i] then w[i] else 0)
  }

  /** The total weight of the nodes in play. */
  function Weight(R: Roots, w: seq<nat>): int
    requires |w| == |R|
  {
    Sum(WeightTerms(R, w))
  }

  lemma MergedWeight(R: Roots, w: seq<nat>, n: nat, m: nat, p: nat)
    requires |w| == |R| && n < |R| && m < |R| && p < |R| && n != m
    requires R[n] && R[m] && !R[p] && w[p] == w[n] + w[m]
    ensures Weight(Merged(R, n, m, p), w) == Weight(R, w)
  {
    var t := WeightTerms(R, w);
    SumUpdate(t, n, 0);
    SumUpdate(t[n := 0], m, 0);
    SumUpdate(t[n := 0][m := 0], p, w[p]);
    assert WeightTerms(Merged(R, n, m, p), w) == t[n := 0][m := 0][p := w[p]];
  }

  lemma PartWeight(R: Roots, w: seq<nat>, i: nat)
    requires |w| == |R| && i < |R| && R[i]
    ensures w[i] <= Weight(R, w)
  {
    SumAtLeast(WeightTerms(R, w), i);
  }

  /** No node that is ever made weighs more than all leaves together. */
  lemma {:induction false} NodeWeights(R: Roots, w: seq<nat>, first: nat, ms: seq<Pair>, i: nat)
    requires Merges(R, w, first, ms) && first <= i < first + |ms|
    ensures i < |w| && w[i] <= Weight(R, w)
    decreases |ms|
  {
    hide Weight;
    var n, m := ms[0].n, ms[0].m;
    MergedWeight(R, w, n, m, first);
    if i == first {
      PartWeight(Merged(R, n, m, first), w, i);
    } else {
      NodeWeights(Merged(R, n, m, first), w, first + 1, ms[1..], i);
    }
  }

  lemma CostNonNegative(R: Roots, w: seq<nat>, l: seq<nat>)
    requires |w| == |R| && |l| == |R|
    ensures Cost(R, w, l) >= 0
  {
    SumNonNegative(CostTerms(R, w, l));
  }

  /** No prefix code is cheaper than the weight of the inner nodes. */
  lemma {:induction false} LowerBound(R: Roots, w: seq<nat>, first: nat, ms: seq<Pair>, l: seq<nat>, M: nat)
    requires Merges(R, w, first, ms) && first + |ms| <= |w| && Feasible(R, l, M)
    ensures InnerWeight(w, first, |ms|) <= Cost(R, w, l)
    decreases |ms|
  {
    hide Cost, Kraft;
    CostNonNegative(R, w, l);
    if ms != [] {
      var l', M' := MergeStep(R, w, l, M, ms[0].n, ms[0].m, first);
      LowerBound(Merged(R, ms[0].n, ms[0].m, first), w, first + 1, ms[1..], l', M');
    }
  }

  /** What is in play after all merges. */
  function Final(R: Roots, first: nat, ms: seq<Pair>): (r: Roots)
    requires first + |ms| <= |R| && forall i :: 0 <= i < |ms| ==> ms[i].n < |R| && ms[i].m < |R|
    ensures |r| == |R|
    decreases |ms|
  {
    if ms == [] then R else Final(Merged(R, ms[0].n, ms[0].m, first), first + 1, ms[1..])
  }

  /** Both sons of node p are one level below it, but not below level max. */
  predicate Below(c: seq<nat>, q: Pair, p: nat, max: nat) {
    && p < |c| && q.n < |c| && q.m < |c| && c[p] <= max
    && c[q.n] == c[q.m] == if c[p] == max then max else c[p] + 1
  }

  /** The levels of all nodes of the tree, cut off at max. */
  predicate Levels(c: seq<nat>, first: nat, ms: seq<Pair>, max: nat) {
    first + |ms| <= |c| && forall i :: 0 <= i < |ms| ==> Below(c, ms[i], first + i, max)
  }

  /** How many inner nodes are at level max already: each of them adds one to what must be repaired. */
  function Excess(c: seq<nat>, first: nat, ms: seq<Pair>, max: nat): (e: nat)
    requires first + |ms| <= |c|
    decreases |ms|
  {
    if ms == [] then 0 else (if c[first] == max then 1 else 0) + Excess(c, first + 1, ms[1..], max)
  }

  function AtLevelTerms(R: Roots, c: seq<nat>, b: nat): (t: seq<int>)
    requires |c| == |R|
    ensures |t| == |R|
  {
    seq(|R|, i requires 0 <= i < |R| => if R[i] && c[i] == b then 1 else 0)
  }

  /** How many of the nodes in play are at level b. */
  function AtLevel(R: Roots, c: seq<nat>, b: nat): int
    requires |c| == |R|
  {
    Sum(AtLevelTerms(R, c, b))
  }

  lemma MergedAtLevel(R: Roots, c: seq<nat>, b: nat, n: nat, m: nat, p: nat)
    requires |c| == |R| && n < |R| && m < |R| && p < |R| && n != m && R[n] && R[m] && !R[p]
    ensures AtLevel(Merged(R, n, m, p), c, b)
         == AtLevel(R, c, b) - Bit(c[n] == b) - Bit(c[m] == b) + Bit(c[p] == b)
  {
    var t := AtLevelTerms(R, c, b);
    SumUpdate(t, n, 0);
    SumUpdate(t[n := 0], m, 0);
    SumUpdate(t[n := 0][m := 0], p, Bit(c[p] == b));
    assert AtLevelTerms(Merged(R, n, m, p), c, b) == t[n := 0][m := 0][p := Bit(c[p] == b)];
  }

  lemma LevelsTail(c: seq<nat>, first: nat, ms: seq<Pair>, max: nat)
    requires Levels(c, first, ms, max) && ms != []
    ensures Below(c, ms[0], first, max) && Levels(c, first + 1, ms[1..], max)
  {
    forall i | 0 <= i < |ms[1..]|
      ensures Below(c, ms[1..][i], first + 1 + i, max)
    {
      assert Below(c, ms[i + 1], first + (i + 1), max);
    }
  }

  /**
   Cutting the levels off at max overdraws the code space by one unit for every inner node at
   level max, and there are at least that many leaves there.
   */
  lemma {:induction false} ExcessIs(R: Roots, w: seq<nat>, first: nat, ms: seq<Pair>, c: seq<nat>, max: nat)
    requires Merges(R, w, first, ms) && Levels(c, first, ms, max) && |c| == |R| && Within(R, c, max)
    requires forall i :: 0 <= i < |ms| ==> ms[i].n < |R| && ms[i].m < |R|
    ensures Within(Final(R, first, ms), c, max)
    ensures Kraft(R, c, max) == Kraft(Final(R, first, ms), c, max) + Excess(c, first, ms, max)
    ensures AtLevel(R, c, max) >= AtLevel(Final(R, first, ms), c, max) + Excess(c, first, ms, max)
    decreases |ms|
  {
    hide Kraft, AtLevel;
    if ms != [] {
      var n, m := ms[0].n, ms[0].m;
      LevelsTail(c, first, ms, max);
      MergedKraft(R, c, max, n, m, first);
      MergedAtLevel(R, c, max, n, m, first);
      ExcessIs(Merged(R, n, m, first), w, first + 1, ms[1..], c, max);
      assert Pow2(0) == 1;
    }
  }

  /** Without cutting off, the levels cost exactly the weight of the inner nodes. */
  lemma {:induction false} TreeCost(R: Roots, w: seq<nat>, first: nat, ms: seq<Pair>, c: seq<nat>, max: nat)
    requires Merges(R, w, first, ms) && Levels(c, first, ms, max) && |c| == |R|
    requires forall i :: 0 <= i < |ms| ==> ms[i].n < |R| && ms[i].m < |R|
    requires Excess(c, first, ms, max) == 0
    ensures first + |ms| <= |w|
    ensures Cost(R, w, c) == InnerWeight(w, first, |ms|) + Cost(Final(R, first, ms), w, c)
    decreases |ms|
  {
    hide Cost;
    if ms != [] {
      var n, m := ms[0].n, ms[0].m;
      LevelsTail(c, first, ms, max);
      MergedCost(R, w, c, n, m, first);
      TreeCost(Merged(R, n, m, first), w, first + 1, ms[1..], c, max);
      LevelCost(w[n], w[m], c[first]);
    }
  }

  lemma LevelCost(wn: nat, wm: nat, level: nat)
    ensures wn * (level + 1) + wm * (level + 1) == (wn + wm) * level + (wn + wm)
  {
  }

  /** Only the root of the whole tree is left. */
  predicate OnlyRoot(R: Roots, r: nat) {
    r < |R| && R[r] && forall i :: 0 <= i < |R| && R[i] ==> i == r
  }

  lemma {:induction false} SumSingle(t: seq<int>, r: nat)
    requires r < |t| && forall i :: 0 <= i < |t| && i != r ==> t[i] == 0
    ensures Sum(t) == t[r]
  {
    SumUpdate(t, r, 0);
    SumZero(t[r := 0]);
  }

  lemma {:induction false} SumZero(t: seq<int>)
    requires forall i :: 0 <= i < |t| ==> t[i] == 0
    ensures Sum(t) == 0
  {
    if t != [] {
      SumZero(t[..|t| - 1]);
    }
  }

  lemma RootSums(R: Roots, w: seq<nat>, c: seq<nat>, max: nat, r: nat)
    requires OnlyRoot(R, r) && |w| == |R| && |c| == |R| && c[r] == 0 && max >= 1
    ensures Within(R, c, max) && Kraft(R, c, max) == Pow2(max) && AtLevel(R, c, max) == 0 && Cost(R, w, c) == 0
  {
    SumSingle(KraftTerms(R, c, max), r);
    SumSingle(AtLevelTerms(R, c, max), r);
    SumSingle(CostTerms(R, w, c), r);
  }

  /**
   Huffman's theorem: when no length had to be cut off, no prefix code for the same nodes costs
   less than the levels in the tree.
   */
  lemma Optimal(R: Roots, w: seq<nat>, first: nat, ms: seq<Pair>, c: seq<nat>, max: nat, r: nat, l: seq<nat>, M: nat)
    requires Merges(R, w, first, ms) && Levels(c, first, ms, max) && |c| == |R|
    requires forall i :: 0 <= i < |ms| ==> ms[i].n < |R| && ms[i].m < |R|
    requires OnlyRoot(Final(R, first, ms), r) && c[r] == 0 && max >= 1
    requires Excess(c, first, ms, max) == 0 && Feasible(R, l, M)
    ensures Cost(R, w, c) <= Cost(R, w, l)
  {
    hide Cost, Kraft;
    TreeCost(R, w, first, ms, c, max);
    RootSums(Final(R, first, ms), w, c, max, r);
    LowerBound(R, w, first, ms, l, M);
  }

  /** No prefix code for the nodes in R is cheaper. */
  ghost predicate Best(R: Roots, w: seq<nat>, c: seq<nat>)
    requires |w| == |R| && |c| == |R|
  {
    forall l: seq<nat>, M: nat :: Feasible(R, l, M) ==> Cost(R, w, c) <= Cost(R, w, l)
  }
}
