/**
 The order in which gen_bitlen visits the nodes (libz_all/trees.c): fathers before their sons,
 so that a father's Dad has been overwritten with its Len when a son looks at it.
 */
module Levels {
  import opened Bits
  import opened Huffman
  import opened HuffmanMerge

  /** The finished tree: all merges done, every node accounted for, and its father recorded. */
  ghost predicate Tree(R0: Roots, w: seq<nat>, elems: nat, ms: seq<Pair>, at: seq<int>) {
    && ms != [] && |R0| == |w| == |at| == 2 * elems + 1 && |ms| < elems
    && (forall i :: elems <= i < |R0| ==> !R0[i])
    && PairsWithin(R0, ms) && Merges(R0, w, elems, ms)
    && OnlyRoot(Final(R0, elems, ms), elems + |ms| - 1)
    && Tracked(R0, elems, ms, at, Final(R0, elems, ms))
  }

  lemma TreeShape(R0: Roots, w: seq<nat>, elems: nat, ms: seq<Pair>, at: seq<int>)
    requires Tree(R0, w, elems, ms, at)
    ensures |R0| == |w| == |at| == 2 * elems + 1 && 1 <= |ms| < elems && forall i :: elems <= i < |R0| ==> !R0[i]
  {
  }

  /** Place of node s counted from the end of heap[]; the root comes last. */
  function Pos(ms: seq<Pair>, at: seq<int>, s: nat): nat
    requires s < |at| && -1 <= at[s] < |ms|
  {
    if at[s] < 0 then 2 * |ms| else 2 * at[s] + (if ms[at[s]].m == s then 1 else 0)
  }

  /** The node at place t. */
  function NodeAt(ms: seq<Pair>, t: nat): nat
    requires t < 2 * |ms|
  {
    if t % 2 == 0 then ms[t / 2].n else ms[t / 2].m
  }

  lemma PlaceOf(R0: Roots, w: seq<nat>, elems: nat, ms: seq<Pair>, at: seq<int>, t: nat)
    requires Tree(R0, w, elems, ms, at) && t < 2 * |ms|
    ensures var s := NodeAt(ms, t);
            IsNode(R0, elems, |ms|, s) && s < |at| && at[s] == t / 2 && Pos(ms, at, s) == t
  {
    hide Merges, Final;
    assert SonsOf(R0, elems, |ms|, at, ms[t / 2], t / 2);
  }

  lemma NodePlace(R0: Roots, w: seq<nat>, elems: nat, ms: seq<Pair>, at: seq<int>, s: nat)
    requires Tree(R0, w, elems, ms, at) && IsNode(R0, elems, |ms|, s)
    ensures s < |at| && -1 <= at[s] < |ms| && Pos(ms, at, s) <= 2 * |ms|
    ensures at[s] == -1 <==> s == elems + |ms| - 1
    ensures at[s] >= 0 ==> NodeAt(ms, Pos(ms, at, s)) == s
    ensures at[s] >= 0 && s >= elems ==> at[s] > s - elems
  {
    hide Merges;
    assert Accounted(elems, ms, at, Final(R0, elems, ms), s);
  }

  /** A father's place is beyond those of its sons. */
  lemma FatherFirst(R0: Roots, w: seq<nat>, elems: nat, ms: seq<Pair>, at: seq<int>, j: nat)
    requires Tree(R0, w, elems, ms, at) && j < |ms|
    ensures IsNode(R0, elems, |ms|, elems + j) && -1 <= at[elems + j] < |ms|
    ensures Pos(ms, at, elems + j) >= 2 * (j + 1)
  {
    hide Merges, Tracked, Final;
    NodePlace(R0, w, elems, ms, at, elems + j);
  }

  /** The leaves at place T or later: the ones visited already. */
  ghost function Visited(R0: Roots, ms: seq<Pair>, at: seq<int>, T: nat): (D: Roots)
    requires |at| == |R0|
    ensures |D| == |R0|
  {
    seq(|R0|, s requires 0 <= s < |R0| => R0[s] && -1 <= at[s] < |ms| && Pos(ms, at, s) >= T)
  }

  lemma VisitedNone(R0: Roots, w: seq<nat>, elems: nat, ms: seq<Pair>, at: seq<int>)
    requires Tree(R0, w, elems, ms, at)
    ensures forall s :: 0 <= s < |R0| ==> !Visited(R0, ms, at, 2 * |ms|)[s]
  {
    hide Merges, Tracked, Final;
    forall s | 0 <= s < |R0| && R0[s]
      ensures !Visited(R0, ms, at, 2 * |ms|)[s]
    {
      NodePlace(R0, w, elems, ms, at, s);
    }
  }

  lemma VisitedAll(R0: Roots, w: seq<nat>, elems: nat, ms: seq<Pair>, at: seq<int>)
    requires Tree(R0, w, elems, ms, at)
    ensures Visited(R0, ms, at, 0) == R0
  {
    hide Merges, Tracked, Final;
    forall s | 0 <= s < |R0|
      ensures Visited(R0, ms, at, 0)[s] == R0[s]
    {
      if R0[s] {
        NodePlace(R0, w, elems, ms, at, s);
      }
    }
  }

  /** Visiting place t adds its node, if that is a leaf. */
  lemma VisitedNext(R0: Roots, w: seq<nat>, elems: nat, ms: seq<Pair>, at: seq<int>, t: nat)
    requires Tree(R0, w, elems, ms, at) && t < 2 * |ms|
    ensures var s, D := NodeAt(ms, t), Visited(R0, ms, at, t + 1);
            && s < |R0| && !D[s] && (R0[s] <==> s < elems)
            && Visited(R0, ms, at, t) == if s < elems then D[s := true] else D
  {
    hide Merges, Tracked, Final;
    var s, D, D' := NodeAt(ms, t), Visited(R0, ms, at, t + 1), Visited(R0, ms, at, t);
    PlaceOf(R0, w, elems, ms, at, t);
    forall i | 0 <= i < |R0|
      ensures D'[i] == if i == s && s < elems then true else D[i]
    {
      if R0[i] && -1 <= at[i] < |ms| && Pos(ms, at, i) == t {
        assert IsNode(R0, elems, |ms|, i);
        NodePlace(R0, w, elems, ms, at, i);
      }
    }
  }

  /* ---------- adding a leaf to sums ---------- */

  lemma CostAdd(D: Roots, w: seq<nat>, l: seq<nat>, s: nat, v: nat)
    requires |w| == |l| == |D| && s < |D| && !D[s]
    ensures Cost(D[s := true], w, l[s := v]) == Cost(D, w, l) + w[s] * v
    ensures Cost(D[s := true], w, l) == Cost(D, w, l) + w[s] * l[s]
    ensures Cost(D, w, l[s := v]) == Cost(D, w, l)
  {
    var t := CostTerms(D, w, l);
    SumUpdate(t, s, w[s] * v);
    SumUpdate(t, s, w[s] * l[s]);
    assert CostTerms(D[s := true], w, l[s := v]) == t[s := w[s] * v];
    assert CostTerms(D[s := true], w, l) == t[s := w[s] * l[s]];
    assert CostTerms(D, w, l[s := v]) == t;
  }

  lemma AtLevelAdd(D: Roots, l: seq<nat>, s: nat, v: nat, b: nat)
    requires |l| == |D| && s < |D| && !D[s]
    ensures AtLevel(D[s := true], l[s := v], b) == AtLevel(D, l, b) + Bit(v == b)
    ensures AtLevel(D, l[s := v], b) == AtLevel(D, l, b)
  {
    var t := AtLevelTerms(D, l, b);
    SumUpdate(t, s, Bit(v == b));
    assert AtLevelTerms(D[s := true], l[s := v], b) == t[s := Bit(v == b)];
    assert AtLevelTerms(D, l[s := v], b) == t;
  }

  lemma NothingYet(D: Roots, w: seq<nat>, l: seq<nat>)
    requires |w| == |l| == |D| && forall s :: 0 <= s < |D| ==> !D[s]
    ensures Cost(D, w, l) == 0 && forall b :: AtLevel(D, l, b) == 0
  {
    SumZero(CostTerms(D, w, l));
    forall b
      ensures AtLevel(D, l, b) == 0
    {
      SumZero(AtLevelTerms(D, l, b));
    }
  }

  /* ---------- the first pass ---------- */

  /** A node below one at the given level, but not below level max. */
  function Deeper(level: nat, max: nat): nat {
    if level >= max then max else level + 1
  }

  /** What the shared field of node s holds when all places from T on have been visited. */
  ghost predicate FieldOf(dl: seq<nat>, elems: nat, ms: seq<Pair>, at: seq<int>, max: nat, T: nat, s: nat)
    requires s < |dl| && |at| == |dl| && -1 <= at[s] < |ms| && elems + |ms| <= |dl|
  {
    if at[s] < 0 then dl[s] == 0
    else if Pos(ms, at, s) < T then dl[s] == elems + at[s]
    else dl[s] == Deeper(dl[elems + at[s]], max)
  }

  ghost predicate Passing(dl: seq<nat>, R0: Roots, elems: nat, ms: seq<Pair>, at: seq<int>, max: nat, T: nat) {
    && |dl| == |R0| == |at| && elems + |ms| <= |dl|
    && forall s: nat :: s < |R0| && IsNode(R0, elems, |ms|, s) ==>
         -1 <= at[s] < |ms| && FieldOf(dl, elems, ms, at, max, T, s)
  }

  lemma PassingStart(dl: seq<nat>, R0: Roots, w: seq<nat>, elems: nat, ms: seq<Pair>, at: seq<int>, max: nat)
    requires Tree(R0, w, elems, ms, at) && |dl| == |R0| && Dads(dl, elems, ms)
    ensures Passing(dl[elems + |ms| - 1 := 0], R0, elems, ms, at, max, 2 * |ms|)
  {
    hide Merges, Tracked, Final;
    var dl' := dl[elems + |ms| - 1 := 0];
    TrackedLength(R0, elems, ms, at, Final(R0, elems, ms));
    forall s: nat | s < |R0| && IsNode(R0, elems, |ms|, s)
      ensures -1 <= at[s] < |ms| && FieldOf(dl', elems, ms, at, max, 2 * |ms|, s)
    {
      NodePlace(R0, w, elems, ms, at, s);
      if at[s] >= 0 {
        assert DadOf(dl, ms[at[s]], elems + at[s]);
      }
    }
  }

  lemma TrackedLength(R0: Roots, first: nat, ms: seq<Pair>, at: seq<int>, R: Roots)
    requires Tracked(R0, first, ms, at, R)
    ensures |at| == |R0|
  {
  }

  lemma PassingNext(dl: seq<nat>, R0: Roots, w: seq<nat>, elems: nat, ms: seq<Pair>, at: seq<int>, max: nat, t: nat)
    requires Tree(R0, w, elems, ms, at) && Passing(dl, R0, elems, ms, at, max, t + 1) && t < 2 * |ms|
    ensures var s := NodeAt(ms, t);
            && s < |dl| && dl[s] == elems + t / 2 && dl[s] < |dl| && s != dl[s] && dl[dl[s]] <= max
            && IsNode(R0, elems, |ms|, s) && !(elems + (t + 1) / 2 <= s < elems + |ms|)
            && Passing(dl[s := Deeper(dl[dl[s]], max)], R0, elems, ms, at, max, t)
  {
    hide Merges, Tracked, Final;
    var s := NodeAt(ms, t);
    PlaceOf(R0, w, elems, ms, at, t);
    assert FieldOf(dl, elems, ms, at, max, t + 1, s);
    FatherFirst(R0, w, elems, ms, at, t / 2);
    assert FieldOf(dl, elems, ms, at, max, t + 1, elems + t / 2);
    NodePlace(R0, w, elems, ms, at, s);
    var dl' := dl[s := Deeper(dl[dl[s]], max)];
    forall i: nat | i < |R0| && IsNode(R0, elems, |ms|, i)
      ensures -1 <= at[i] < |ms| && FieldOf(dl', elems, ms, at, max, t, i)
    {
      assert FieldOf(dl, elems, ms, at, max, t + 1, i);
      NodePlace(R0, w, elems, ms, at, i);
      if at[i] >= 0 {
        FatherFirst(R0, w, elems, ms, at, at[i]);
      }
    }
  }

  /** When everything has been visited the fields hold the levels. */
  lemma PassingDone(dl: seq<nat>, R0: Roots, w: seq<nat>, elems: nat, ms: seq<Pair>, at: seq<int>, max: nat)
    requires Tree(R0, w, elems, ms, at) && Passing(dl, R0, elems, ms, at, max, 0) && max >= 1
    ensures dl[elems + |ms| - 1] == 0
    ensures forall s: nat :: s < |R0| && IsNode(R0, elems, |ms|, s) ==> dl[s] <= max && (at[s] >= 0 ==> dl[s] >= 1)
    ensures Huffman.Levels(dl, elems, ms, max)
  {
    hide Merges, Tracked, Final, Below;
    forall s: nat | s < |R0| && IsNode(R0, elems, |ms|, s)
      ensures dl[s] <= max && (at[s] >= 0 ==> dl[s] >= 1)
    {
      assert FieldOf(dl, elems, ms, at, max, 0, s);
    }
    FatherFirst(R0, w, elems, ms, at, |ms| - 1);
    NodePlace(R0, w, elems, ms, at, elems + |ms| - 1);
    assert FieldOf(dl, elems, ms, at, max, 0, elems + |ms| - 1);
    forall j: nat | j < |ms|
      ensures Below(dl, ms[j], elems + j, max)
    {
      SonsBelow(dl, R0, w, elems, ms, at, max, j);
    }
  }

  lemma SonsBelow(dl: seq<nat>, R0: Roots, w: seq<nat>, elems: nat, ms: seq<Pair>, at: seq<int>, max: nat, j: nat)
    requires Tree(R0, w, elems, ms, at) && Passing(dl, R0, elems, ms, at, max, 0) && max >= 1 && j < |ms|
    ensures Below(dl, ms[j], elems + j, max)
  {
    hide Merges, Tracked, Final;
    FatherFirst(R0, w, elems, ms, at, j);
    assert NodeAt(ms, 2 * j) == ms[j].n && NodeAt(ms, 2 * j + 1) == ms[j].m;
    PlaceOf(R0, w, elems, ms, at, 2 * j);
    PlaceOf(R0, w, elems, ms, at, 2 * j + 1);
    assert FieldOf(dl, elems, ms, at, max, 0, elems + j);
    assert FieldOf(dl, elems, ms, at, max, 0, ms[j].n);
    assert FieldOf(dl, elems, ms, at, max, 0, ms[j].m);
  }

  /* ---------- counting the overflow ---------- */

  /** How many of the nodes visited since place T had a father at level max. */
  function OverFrom(dl: seq<nat>, elems: nat, max: nat, T: nat, n: nat): nat
    requires elems + n <= |dl| && T <= 2 * n
    decreases 2 * n - T
  {
    if T == 2 * n then 0 else (if dl[elems + T / 2] == max then 1 else 0) + OverFrom(dl, elems, max, T + 1, n)
  }

  lemma {:induction false} OverFromUpdate(dl: seq<nat>, elems: nat, max: nat, T: nat, n: nat, s: nat, v: nat)
    requires elems + n <= |dl| && T <= 2 * n && s < |dl|
    requires !(elems + T / 2 <= s < elems + n)
    ensures OverFrom(dl[s := v], elems, max, T, n) == OverFrom(dl, elems, max, T, n)
    decreases 2 * n - T
  {
    if T < 2 * n {
      OverFromUpdate(dl, elems, max, T + 1, n, s, v);
    }
  }

  /** Both sons of an inner node at level max count. */
  lemma {:induction false} OverIsTwice(dl: seq<nat>, elems: nat, max: nat, j: nat, ms: seq<Pair>)
    requires elems + |ms| <= |dl| && j <= |ms|
    ensures OverFrom(dl, elems, max, 2 * j, |ms|) == 2 * Excess(dl, elems + j, ms[j..], max)
    decreases |ms| - j
  {
    if j < |ms| {
      OverIsTwice(dl, elems, max, j + 1, ms);
      assert ms[j..][1..] == ms[j + 1..];
      assert OverFrom(dl, elems, max, 2 * j, |ms|)
          == (if dl[elems + j] == max then 1 else 0) + OverFrom(dl, elems, max, 2 * j + 1, |ms|);
    }
  }

  /* ---------- extra bits and static lengths, for all node numbers ---------- */

  function ExtraOf(n: nat, base: nat, extra: seq<nat>): (x: seq<nat>)
    ensures |x| == n
  {
    seq(n, s requires 0 <= s < n => if base <= s < base + |extra| then extra[s - base] else 0)
  }

  function Padded(n: nat, stree: seq<nat>): (x: seq<nat>)
    ensures |x| == n
  {
    seq(n, s requires 0 <= s < n => if s < |stree| then stree[s] else 0)
  }

  lemma PlaceInHeap(h: seq<nat>, ms: seq<Pair>, i: nat)
    requires Stored(h, ms) && HEAP_SIZE - 2 * |ms| <= i < HEAP_SIZE
    ensures h[i] == NodeAt(ms, HEAP_SIZE - 1 - i)
  {
    var t := HEAP_SIZE - 1 - i;
    assert i == HEAP_SIZE - 1 - 2 * (t / 2) || i == HEAP_SIZE - 2 - 2 * (t / 2);
  }

  /* ---------- the second pass, from the end of heap[] ---------- */

  /** The leaves at the last T places. */
  ghost function Seen(R0: Roots, ms: seq<Pair>, at: seq<int>, T: nat): (D: Roots)
    requires |at| == |R0|
    ensures |D| == |R0|
  {
    seq(|R0|, s requires 0 <= s < |R0| => R0[s] && -1 <= at[s] < |ms| && Pos(ms, at, s) < T)
  }

  lemma SeenNone(R0: Roots, ms: seq<Pair>, at: seq<int>)
    requires |at| == |R0|
    ensures forall s :: 0 <= s < |R0| ==> !Seen(R0, ms, at, 0)[s]
  {
  }

  lemma SeenAll(R0: Roots, w: seq<nat>, elems: nat, ms: seq<Pair>, at: seq<int>)
    requires Tree(R0, w, elems, ms, at)
    ensures Seen(R0, ms, at, 2 * |ms|) == R0
  {
    hide Merges, Tracked, Final;
    forall s | 0 <= s < |R0|
      ensures Seen(R0, ms, at, 2 * |ms|)[s] == R0[s]
    {
      if R0[s] {
        NodePlace(R0, w, elems, ms, at, s);
      }
    }
  }

  lemma SeenNext(R0: Roots, w: seq<nat>, elems: nat, ms: seq<Pair>, at: seq<int>, t: nat)
    requires Tree(R0, w, elems, ms, at) && t < 2 * |ms|
    ensures var s, D := NodeAt(ms, t), Seen(R0, ms, at, t);
            && s < |R0| && !D[s] && (R0[s] <==> s < elems)
            && Seen(R0, ms, at, t + 1) == if s < elems then D[s := true] else D
  {
    hide Merges, Tracked, Final;
    var s, D, D' := NodeAt(ms, t), Seen(R0, ms, at, t), Seen(R0, ms, at, t + 1);
    PlaceOf(R0, w, elems, ms, at, t);
    forall i | 0 <= i < |R0|
      ensures D'[i] == if i == s && s < elems then true else D[i]
    {
      if R0[i] && -1 <= at[i] < |ms| && Pos(ms, at, i) == t {
        assert IsNode(R0, elems, |ms|, i);
        NodePlace(R0, w, elems, ms, at, i);
      }
    }
  }
}
