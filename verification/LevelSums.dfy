/** Sums over the leaves of a tree, by level: how bl_count[] and the code lengths belong together. */
module LevelSums {
  import opened Bits
  import opened Canonical
  import opened Huffman
  import opened Repair

  lemma {:induction false} SumAdd(s: seq<int>, t: seq<int>, u: seq<int>)
    requires |s| == |t| == |u| && forall i :: 0 <= i < |s| ==> u[i] == s[i] + t[i]
    ensures Sum(u) == Sum(s) + Sum(t)
  {
    if s != [] {
      var n := |s| - 1;
      SumAdd(s[..n], t[..n], u[..n]);
    }
  }

  function MemberTerms(D: Roots): (t: seq<int>)
    ensures |t| == |D|
  {
    seq(|D|, i requires 0 <= i < |D| => if D[i] then 1 else 0)
  }

  /** How many nodes there are in D. */
  function Members(D: Roots): int {
    Sum(MemberTerms(D))
  }

  lemma {:induction false} SumAtMost(t: seq<int>, n: nat)
    requires n <= |t| && forall i :: 0 <= i < |t| ==> t[i] <= (if i < n then 1 else 0)
    ensures Sum(t) <= n
  {
    if t != [] {
      var k := |t| - 1;
      SumAtMost(t[..k], if n <= k then n else k);
    }
  }

  lemma MembersWithin(D: Roots, n: nat)
    requires n <= |D| && forall i :: n <= i < |D| ==> !D[i]
    ensures Members(D) <= n
  {
    SumAtMost(MemberTerms(D), n);
  }

  lemma MemberAdd(D: Roots, s: nat)
    requires s < |D| && !D[s]
    ensures Members(D[s := true]) == Members(D) + 1
  {
    SumUpdate(MemberTerms(D), s, 1);
    assert MemberTerms(D[s := true]) == MemberTerms(D)[s := 1];
  }

  lemma NoMembers(D: Roots)
    requires forall s :: 0 <= s < |D| ==> !D[s]
    ensures Members(D) == 0
  {
    SumZero(MemberTerms(D));
  }

  lemma {:induction false} SumMonotone(s: seq<int>, t: seq<int>)
    requires |s| == |t| && forall i :: 0 <= i < |s| ==> s[i] <= t[i]
    ensures Sum(s) <= Sum(t)
  {
    if s != [] {
      SumMonotone(s[..|s| - 1], t[..|t| - 1]);
    }
  }

  /** A part with as many members is the whole. */
  lemma PartIsWhole(D: Roots, R: Roots)
    requires |D| == |R| && (forall s :: 0 <= s < |D| && D[s] ==> R[s]) && Members(D) == Members(R)
    ensures D == R
  {
    if s :| 0 <= s < |D| && D[s] != R[s] {
      MemberAdd(D, s);
      SumMonotone(MemberTerms(D[s := true]), MemberTerms(R));
    }
  }

  /** The leaves at levels 1..b. */
  function UpTo(D: Roots, d: seq<nat>, b: nat): (E: Roots)
    requires |d| == |D|
    ensures |E| == |D|
  {
    seq(|D|, i requires 0 <= i < |D| => D[i] && 1 <= d[i] <= b)
  }

  /** codes[b] leaves are at each level b up to n. */
  ghost predicate Counts(codes: seq<nat>, D: Roots, d: seq<nat>, n: nat) {
    n < |codes| && |d| == |D| && forall b :: 1 <= b <= n ==> codes[b] == AtLevel(D, d, b)
  }

  lemma {:induction false} TotalIsMembers(codes: seq<nat>, D: Roots, d: seq<nat>, n: nat)
    requires Counts(codes, D, d, n)
    ensures Total(codes, n) == Members(UpTo(D, d, n))
  {
    if n == 0 {
      NoMembers(UpTo(D, d, 0));
    } else {
      TotalIsMembers(codes, D, d, n - 1);
      SumAdd(MemberTerms(UpTo(D, d, n - 1)), AtLevelTerms(D, d, n), MemberTerms(UpTo(D, d, n)));
    }
  }

  function SpaceTerms(D: Roots, d: seq<nat>, n: nat): (t: seq<int>)
    requires |d| == |D|
    ensures |t| == |D|
  {
    seq(|D|, i requires 0 <= i < |D| => if D[i] && 1 <= d[i] <= n then Pow2(n - d[i]) else 0)
  }

  lemma {:induction false} SpaceIsSum(codes: seq<nat>, D: Roots, d: seq<nat>, n: nat)
    requires Counts(codes, D, d, n)
    ensures Space(codes, n) == Sum(SpaceTerms(D, d, n))
  {
    if n == 0 {
      SumZero(SpaceTerms(D, d, 0));
    } else {
      SpaceIsSum(codes, D, d, n - 1);
      var s, t := SpaceTerms(D, d, n - 1), AtLevelTerms(D, d, n);
      var s2 := seq(|D|, i requires 0 <= i < |D| => 2 * s[i]);
      SumScaled(s, s2);
      assert Pow2(0) == 1;
      SumAdd(s2, t, SpaceTerms(D, d, n));
    }
  }

  /** The code space of the counts is the Kraft sum of the lengths. */
  lemma SpaceIsKraft(codes: seq<nat>, D: Roots, d: seq<nat>, max: nat)
    requires Counts(codes, D, d, max) && Within(D, d, max)
    requires forall s :: 0 <= s < |D| && D[s] ==> d[s] >= 1
    ensures Space(codes, max) == Kraft(D, d, max) && Total(codes, max) == Members(D)
  {
    SpaceIsSum(codes, D, d, max);
    assert SpaceTerms(D, d, max) == KraftTerms(D, d, max);
    TotalIsMembers(codes, D, d, max);
    assert UpTo(D, d, max) == D;
  }

  /** The lengths of the symbols below n: those of the leaves, and 0 for the others. */
  ghost predicate LengthsOf(lens: seq<nat>, D: Roots, d: seq<nat>) {
    && |lens| <= |D| == |d|
    && (forall s :: 0 <= s < |lens| ==> lens[s] == if D[s] then d[s] else 0)
    && (forall s :: |lens| <= s < |D| ==> !D[s])
  }

  lemma {:induction false} SumZeroTail(t: seq<int>, n: nat)
    requires n <= |t| && forall i :: n <= i < |t| ==> t[i] == 0
    ensures Sum(t) == Sum(t[..n])
    decreases |t|
  {
    if n < |t| {
      var k := |t| - 1;
      SumZeroTail(t[..k], n);
      assert t[..k][..n] == t[..n];
    } else {
      assert t[..n] == t;
    }
  }

  lemma {:induction false} CountIsSum(lens: seq<nat>, t: seq<int>, b: nat)
    requires |t| == |lens| && forall s :: 0 <= s < |lens| ==> t[s] == if lens[s] == b then 1 else 0
    ensures Count(lens, b) == Sum(t)
  {
    if lens != [] {
      CountIsSum(lens[..|lens| - 1], t[..|t| - 1], b);
    }
  }

  lemma CountIsAtLevel(lens: seq<nat>, D: Roots, d: seq<nat>, b: nat)
    requires LengthsOf(lens, D, d) && b >= 1
    ensures Count(lens, b) == AtLevel(D, d, b)
  {
    var t := AtLevelTerms(D, d, b);
    SumZeroTail(t, |lens|);
    CountIsSum(lens, t[..|lens|], b);
  }

  lemma {:induction false} UsedIsSpace(lens: seq<nat>, codes: seq<nat>, D: Roots, d: seq<nat>, n: nat)
    requires LengthsOf(lens, D, d) && Counts(codes, D, d, n)
    ensures Used(lens, n) == Space(codes, n)
  {
    if n > 0 {
      UsedIsSpace(lens, codes, D, d, n - 1);
      CountIsAtLevel(lens, D, d, n);
    }
  }
}
