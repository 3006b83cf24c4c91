/**
 The merging part of build_tree (libz_all/trees.c): the two least frequent nodes are taken off
 the heap and replaced by their father until one node is left.
 */
module HuffmanMerge {
  import opened Heap
  import opened Huffman

  const HEAP_SIZE: nat := 573

  /** The queue holds each of the nodes in play exactly once. */
  ghost predicate InPlay(R: Roots, q: multiset<nat>) {
    forall s: nat :: q[s] == if s < |R| && R[s] then 1 else 0
  }

  lemma QueuePush(h: seq<nat>, len: nat, v: nat)
    requires len + 1 < |h|
    ensures Queue(h[len + 1 := v], len + 1) == Queue(h, len) + multiset{v}
  {
    assert h[len + 1 := v][1..len + 2] == h[1..len + 1] + [v];
  }

  /** The first element is replaced by the last one, and the queue gets shorter. */
  lemma QueuePop(h: seq<nat>, len: nat)
    requires 1 <= len < |h|
    ensures Queue(h[1 := h[len]], len - 1) == Queue(h, len) - multiset{h[1]}
  {
    assert h[1..len + 1] == [h[1]] + h[2..len + 1];
    if len > 1 {
      assert h[1..len + 1] == [h[1]] + h[2..len] + [h[len]];
      assert h[1 := h[len]][1..len] == [h[len]] + h[2..len];
    }
  }

  lemma QueueReplace(h: seq<nat>, len: nat, v: nat)
    requires 1 <= len < |h|
    ensures Queue(h[1 := v], len) == Queue(h, len) - multiset{h[1]} + multiset{v}
  {
    assert h[1..len + 1] == [h[1]] + h[2..len + 1];
    assert h[1 := v][1..len + 1] == [v] + h[2..len + 1];
  }

  lemma QueueIndex(h: seq<nat>, len: nat, s: nat) returns (i: nat)
    requires len < |h| && Queue(h, len)[s] > 0
    ensures 1 <= i <= len && h[i] == s
  {
    var t := h[1..len + 1];
    assert s in t;
    var j :| 0 <= j < |t| && t[j] == s;
    i := j + 1;
  }

  lemma QueueHas(h: seq<nat>, len: nat, i: nat)
    requires 1 <= i <= len < |h|
    ensures Queue(h, len)[h[i]] > 0
  {
    assert h[1..len + 1][i - 1] == h[i];
  }

  /** The node at the top weighs least of all in play. */
  lemma TopIsLightest(h: seq<nat>, len: nat, freq: seq<nat>, depth: seq<nat>, R: Roots, s: nat)
    requires Nodes(h, len, freq, depth) && HeapFrom(h, len, freq, depth, 1) && len >= 1
    requires InPlay(R, Queue(h, len)) && s < |R| && R[s]
    ensures s < |freq| && freq[h[1]] <= freq[s]
  {
    hide Queue, HeapFrom;
    var i := QueueIndex(h, len, s);
    RootIsSmallest(h, len, freq, depth, i);
  }

  lemma SmallestUpdate(R: Roots, w: seq<nat>, n: nat, m: nat, p: nat, v: nat)
    requires Smallest(R, w, n, m) && p < |R| && !R[p]
    ensures Smallest(R, w[p := v], n, m) && w[p := v][n] == w[n] && w[p := v][m] == w[m]
  {
  }

  /** Merging the pair q, the only one. */
  lemma MergesOne(R: Roots, w: seq<nat>, p: nat, q: Pair)
    requires Smallest(R, w, q.n, q.m) && p < |R| && !R[p]
    ensures Merges(R, w[p := w[q.n] + w[q.m]], p, [q])
    ensures Final(R, p, [q]) == Merged(R, q.n, q.m, p)
  {
    hide Smallest;
    SmallestPlayed(R, w, q.n, q.m);
    SmallestUpdate(R, w, q.n, q.m, p, w[q.n] + w[q.m]);
    assert [q][1..] == [];
    assert Final(Merged(R, q.n, q.m, p), p + 1, []) == Merged(R, q.n, q.m, p);
  }

  lemma SmallestPlayed(R: Roots, w: seq<nat>, n: nat, m: nat)
    requires Smallest(R, w, n, m)
    ensures n < |R| && m < |R| && |w| == |R| && R[n] && R[m] && n != m
  {
  }

  /** The first merge, and the others. */
  lemma MergesCons(R: Roots, w: seq<nat>, first: nat, ms: seq<Pair>)
    requires |w| == |R| && ms != [] && first + |ms| <= |R| && PairsWithin(R, ms)
    ensures var R' := Merged(R, ms[0].n, ms[0].m, first);
            && PairsWithin(R', ms[1..]) && Final(R, first, ms) == Final(R', first + 1, ms[1..])
            && (Merges(R, w, first, ms) <==>
                  && Smallest(R, w, ms[0].n, ms[0].m) && !R[first] && w[first] == w[ms[0].n] + w[ms[0].m]
                  && Merges(R', w, first + 1, ms[1..]))
  {
    hide Smallest;
  }

  lemma PairsSnoc(R: Roots, ms: seq<Pair>, q: Pair)
    requires PairsWithin(R, ms) && q.n < |R| && q.m < |R|
    ensures PairsWithin(R, ms + [q])
  {
  }

  /** Merging one more pair. */
  lemma {:induction false} MergesSnoc(R: Roots, w: seq<nat>, first: nat, ms: seq<Pair>, q: Pair)
    requires Merges(R, w, first, ms) && PairsWithin(R, ms) && first + |ms| < |R|
    requires forall i :: first <= i < |R| ==> !R[i]
    requires Smallest(Final(R, first, ms), w, q.n, q.m)
    ensures PairsWithin(R, ms + [q])
    ensures Merges(R, w[first + |ms| := w[q.n] + w[q.m]], first, ms + [q])
    ensures Final(R, first, ms + [q]) == Merged(Final(R, first, ms), q.n, q.m, first + |ms|)
    ensures forall i :: first + |ms| <= i < |R| ==> !Final(R, first, ms)[i]
    decreases |ms|, 1
  {
    SmallestPlayed(Final(R, first, ms), w, q.n, q.m);
    PairsSnoc(R, ms, q);
    if ms == [] {
      assert ms + [q] == [q];
      MergesOne(R, w, first, q);
    } else {
      MergesMore(R, w, first, ms, q);
    }
  }

  lemma {:induction false} MergesMore(R: Roots, w: seq<nat>, first: nat, ms: seq<Pair>, q: Pair)
    requires ms != [] && Merges(R, w, first, ms) && PairsWithin(R, ms) && PairsWithin(R, ms + [q]) && first + |ms| < |R| == |w|
    requires forall i :: first <= i < |R| ==> !R[i]
    requires Smallest(Final(R, first, ms), w, q.n, q.m)
    ensures Merges(R, w[first + |ms| := w[q.n] + w[q.m]], first, ms + [q])
    ensures Final(R, first, ms + [q]) == Merged(Final(R, first, ms), q.n, q.m, first + |ms|)
    ensures forall i :: first + |ms| <= i < |R| ==> !Final(R, first, ms)[i]
    decreases |ms|, 0
  {
    hide Smallest, Merges, Final;
    var p := first + |ms|;
    var a, b := ms[0].n, ms[0].m;
    SmallestPlayed(Final(R, first, ms), w, q.n, q.m);
    MergesCons(R, w, first, ms);
    SmallestPlayed(R, w, a, b);
    SmallestUpdate(R, w, a, b, p, w[q.n] + w[q.m]);
    assert (ms + [q])[1..] == ms[1..] + [q];
    assert (ms + [q])[0] == ms[0];
    MergesSnoc(Merged(R, a, b, first), w, first + 1, ms[1..], q);
    MergesCons(R, w[p := w[q.n] + w[q.m]], first, ms + [q]);
  }

  predicate PairsWithin(R: Roots, ms: seq<Pair>) {
    forall i :: 0 <= i < |ms| ==> ms[i].n < |R| && ms[i].m < |R|
  }

  /* ---------- what the arrays record ---------- */

  /** The nodes taken off the heap are kept at its end, the first pair last. */
  predicate Stored(h: seq<nat>, ms: seq<Pair>) {
    && |h| == HEAP_SIZE && 2 * |ms| < HEAP_SIZE
    && forall j :: 0 <= j < |ms| ==> h[HEAP_SIZE - 1 - 2 * j] == ms[j].n && h[HEAP_SIZE - 2 - 2 * j] == ms[j].m
  }

  /** The sons of the j-th new node point to it. */
  predicate DadOf(dl: seq<nat>, q: Pair, p: nat) {
    q.n < |dl| && q.m < |dl| && dl[q.n] == p && dl[q.m] == p
  }

  predicate Dads(dl: seq<nat>, first: nat, ms: seq<Pair>) {
    forall j :: 0 <= j < |ms| ==> DadOf(dl, ms[j], first + j)
  }

  /** A node of the tree: a leaf or one made by a merge. */
  predicate IsNode(R0: Roots, first: nat, k: nat, s: nat) {
    s < |R0| && if s < first then R0[s] else s < first + k
  }

  /** Where node s has gone: it is in play, or a son of some later merge. */
  predicate Accounted(first: nat, ms: seq<Pair>, at: seq<int>, R: Roots, s: nat)
    requires |at| == |R| && s < |R|
  {
    if R[s] then at[s] == -1
    else 0 <= at[s] < |ms| && (ms[at[s]].n == s || ms[at[s]].m == s) && (s >= first ==> at[s] > s - first)
  }

  predicate SonsOf(R0: Roots, first: nat, k: nat, at: seq<int>, q: Pair, j: nat)
    requires |at| == |R0|
  {
    && IsNode(R0, first, k, q.n) && IsNode(R0, first, k, q.m)
    && q.n != q.m && at[q.n] == j && at[q.m] == j
  }

  /** at tells for each node in which merge it became a son; fathers do so later than their sons. */
  ghost predicate Tracked(R0: Roots, first: nat, ms: seq<Pair>, at: seq<int>, R: Roots) {
    && |at| == |R0| == |R|
    && (forall s: nat :: s < |R| && IsNode(R0, first, |ms|, s) ==> Accounted(first, ms, at, R, s))
    && (forall j :: 0 <= j < |ms| ==> SonsOf(R0, first, |ms|, at, ms[j], j))
    && (forall s: nat :: s < |R| && R[s] ==> IsNode(R0, first, |ms|, s))
  }

  lemma TrackedStart(R0: Roots, first: nat, at: seq<int>)
    requires |at| == |R0| && forall i :: 0 <= i < |at| ==> at[i] == -1
    requires forall i :: first <= i < |R0| ==> !R0[i]
    ensures Tracked(R0, first, [], at, R0)
  {
  }

  lemma TrackedSnoc(R0: Roots, first: nat, ms: seq<Pair>, at: seq<int>, R: Roots, q: Pair)
    requires Tracked(R0, first, ms, at, R) && first + |ms| < |R0|
    requires q.n < |R| && q.m < |R| && q.n != q.m && R[q.n] && R[q.m]
    ensures Tracked(R0, first, ms + [q], at[q.n := |ms|][q.m := |ms|][first + |ms| := -1],
                    Merged(R, q.n, q.m, first + |ms|))
  {
    hide Accounted, SonsOf;
    var k := |ms|;
    var ms', at', R' := ms + [q], at[q.n := k][q.m := k][first + k := -1], Merged(R, q.n, q.m, first + k);
    assert IsNode(R0, first, k, q.n) && IsNode(R0, first, k, q.m);
    forall s: nat | s < |R'| && IsNode(R0, first, |ms'|, s)
      ensures Accounted(first, ms', at', R', s)
    {
      AccountedSnoc(R0, first, ms, at, R, q, s);
    }
    forall j | 0 <= j < |ms'|
      ensures SonsOf(R0, first, |ms'|, at', ms'[j], j)
    {
      SonsSnoc(R0, first, ms, at, R, q, j);
    }
  }

  lemma AccountedSnoc(R0: Roots, first: nat, ms: seq<Pair>, at: seq<int>, R: Roots, q: Pair, s: nat)
    requires Tracked(R0, first, ms, at, R) && first + |ms| < |R0| && s < |R|
    requires q.n < |R| && q.m < |R| && q.n != q.m && R[q.n] && R[q.m] && IsNode(R0, first, |ms| + 1, s)
    ensures Accounted(first, ms + [q], at[q.n := |ms|][q.m := |ms|][first + |ms| := -1], Merged(R, q.n, q.m, first + |ms|), s)
  {
    var k := |ms|;
    assert IsNode(R0, first, k, q.n) && IsNode(R0, first, k, q.m);
    if s != first + k && s != q.n && s != q.m {
      assert IsNode(R0, first, k, s);
      assert Accounted(first, ms, at, R, s);
    }
  }

  lemma SonsSnoc(R0: Roots, first: nat, ms: seq<Pair>, at: seq<int>, R: Roots, q: Pair, j: nat)
    requires Tracked(R0, first, ms, at, R) && first + |ms| < |R0| && j <= |ms|
    requires q.n < |R| && q.m < |R| && q.n != q.m && R[q.n] && R[q.m]
    ensures SonsOf(R0, first, |ms| + 1, at[q.n := |ms|][q.m := |ms|][first + |ms| := -1], (ms + [q])[j], j)
  {
    var k := |ms|;
    assert IsNode(R0, first, k, q.n) && IsNode(R0, first, k, q.m);
    if j < k {
      assert SonsOf(R0, first, k, at, ms[j], j);
      assert Accounted(first, ms, at, R, q.n) && Accounted(first, ms, at, R, q.m);
    }
  }

  lemma DadsSnoc(dl: seq<nat>, first: nat, ms: seq<Pair>, at: seq<int>, R0: Roots, R: Roots, q: Pair)
    requires Dads(dl, first, ms) && Tracked(R0, first, ms, at, R) && |dl| == |R0|
    requires q.n < |R| && q.m < |R| && R[q.n] && R[q.m]
    ensures Dads(dl[q.n := first + |ms|][q.m := first + |ms|], first, ms + [q])
  {
    var dl', ms' := dl[q.n := first + |ms|][q.m := first + |ms|], ms + [q];
    forall j | 0 <= j < |ms'|
      ensures DadOf(dl', ms'[j], first + j)
    {
      if j < |ms| {
        assert DadOf(dl, ms[j], first + j);
        assert SonsOf(R0, first, |ms|, at, ms[j], j);
        assert IsNode(R0, first, |ms|, q.n) && IsNode(R0, first, |ms|, q.m);
        assert Accounted(first, ms, at, R, q.n) && Accounted(first, ms, at, R, q.m);
      }
    }
  }
}
