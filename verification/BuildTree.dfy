/** build_tree (libz_all/trees.c) on its arrays: the heap, and the tree with its shared fields. */
module BuildTree {
  import opened Heap
  import opened Huffman
  import opened HuffmanMerge
  import opened ForcedCodes
  import opened Levels
  import opened Repair
  import opened LevelSums
  import opened Bits
  import opened Canonical
  import opened GenCodes
  import opened TreeCosts

  lemma HeapUpdate(h: seq<nat>, len: nat, freq: seq<nat>, depth: seq<nat>, lo: nat, p: nat, fv: nat, dv: nat)
    requires Nodes(h, len, freq, depth) && HeapFrom(h, len, freq, depth, lo) && p < |freq| && lo >= 1
    requires forall i :: 1 <= i <= len ==> h[i] != p
    ensures Nodes(h, len, freq[p := fv], depth[p := dv]) && HeapFrom(h, len, freq[p := fv], depth[p := dv], lo)
  {
    forall i | 2 <= i <= len && i / 2 >= lo
      ensures InOrder(h, len, freq[p := fv], depth[p := dv], i)
    {
      assert InOrder(h, len, freq, depth, i);
    }
  }

  /** The top can be replaced; everything below it stays in order. */
  lemma HeapNewTop(h: seq<nat>, len: nat, freq: seq<nat>, depth: seq<nat>, v: nat, len': nat)
    requires Nodes(h, len, freq, depth) && HeapFrom(h, len, freq, depth, 1) && 1 <= len' <= len && v < |freq|
    ensures Nodes(h[1 := v], len', freq, depth) && HeapFrom(h[1 := v], len', freq, depth, 2)
  {
    forall i | 2 <= i <= len' && i / 2 >= 2
      ensures InOrder(h[1 := v], len', freq, depth, i)
    {
      assert InOrder(h, len, freq, depth, i);
    }
  }

  lemma NotQueued(R: Roots, h: seq<nat>, len: nat, p: nat)
    requires len < |h| && InPlay(R, Queue(h, len)) && p < |R| && !R[p]
    ensures forall i :: 1 <= i <= len ==> h[i] != p
  {
    forall i | 1 <= i <= len
      ensures h[i] != p
    {
      QueueHas(h, len, i);
    }
  }

  lemma InPlayMinus(R: Roots, q: multiset<nat>, n: nat)
    requires InPlay(R, q) && n < |R| && R[n]
    ensures InPlay(R[n := false], q - multiset{n})
  {
  }

  lemma InPlayPlus(R: Roots, q: multiset<nat>, n: nat)
    requires InPlay(R, q) && n < |R| && !R[n]
    ensures InPlay(R[n := true], q + multiset{n})
  {
  }

  /** The top of the heap and what is then on top are two nodes of least weight. */
  lemma TwoLightest(R: Roots, w: seq<nat>, h: seq<nat>, len: nat, h': seq<nat>, depth: seq<nat>)
    requires Nodes(h, len, w, depth) && HeapFrom(h, len, w, depth, 1) && len >= 2 && |R| == |w|
    requires InPlay(R, Queue(h, len))
    requires Nodes(h', len - 1, w, depth) && HeapFrom(h', len - 1, w, depth, 1)
    requires InPlay(R[h[1] := false], Queue(h', len - 1))
    ensures Smallest(R, w, h[1], h'[1])
  {
    hide Queue, HeapFrom;
    var n, m := h[1], h'[1];
    QueueHas(h, len, 1);
    QueueHas(h', len - 1, 1);
    forall s | 0 <= s < |R| && R[s]
      ensures w[n] <= w[s] && (s != n ==> w[m] <= w[s])
    {
      TopIsLightest(h, len, w, depth, R, s);
      if s != n {
        TopIsLightest(h', len - 1, w, depth, R[n := false], s);
      }
    }
  }

  /** The leaves: symbols that are used. */
  function Leaves(f: seq<nat>, elems: nat): (R: Roots)
    ensures |R| == |f|
  {
    seq(|f|, i requires 0 <= i < |f| => i < elems && f[i] != 0)
  }

  function NotYet(n: nat): (at: seq<int>)
    ensures |at| == n
  {
    seq(n, _ => -1)
  }

  /** The first n symbols have been looked at. */
  ghost predicate Filled(h: seq<nat>, len: nat, f: seq<nat>, n: nat) {
    && n <= |f| && len < |h| && len == NonZero(f[..n]) && (forall i :: 1 <= i <= len ==> h[i] < n)
    && InPlay(Leaves(f, n), Queue(h, len))
  }

  lemma FilledStart(h: seq<nat>, f: seq<nat>)
    requires |h| >= 1
    ensures Filled(h, 0, f, 0)
  {
    assert h[1..1] == [];
  }

  lemma FilledNext(h: seq<nat>, len: nat, f: seq<nat>, n: nat)
    requires Filled(h, len, f, n) && n < |f| && len + 1 < |h|
    ensures MaxCode(f[..n + 1]) == if f[n] != 0 then n else MaxCode(f[..n])
    ensures f[n] != 0 ==> Filled(h[len + 1 := n], len + 1, f, n + 1)
    ensures f[n] == 0 ==> Filled(h, len, f, n + 1)
  {
    assert f[..n + 1][..n] == f[..n];
    if f[n] != 0 {
      QueuePush(h, len, n);
      InPlayPlus(Leaves(f, n), Queue(h, len), n);
      assert Leaves(f, n + 1) == Leaves(f, n)[n := true];
    } else {
      assert Leaves(f, n + 1) == Leaves(f, n);
    }
  }

  lemma FilledForce(h: seq<nat>, len: nat, f: seq<nat>, elems: nat, n: nat)
    requires Filled(h, len, f, elems) && n < elems && f[n] == 0 && len + 1 < |h|
    ensures Filled(h[len + 1 := n], len + 1, f[n := 1], elems)
  {
    QueuePush(h, len, n);
    InPlayPlus(Leaves(f, elems), Queue(h, len), n);
    assert Leaves(f[n := 1], elems) == Leaves(f, elems)[n := true];
    assert f[n := 1][..elems] == f[..elems][n := 1];
    NonZeroUpdate(f[..elems], n, 1);
  }

  class TreeBuilder {
    const heap: array<nat>
    const depth: array<nat>
    const bl_count: array<nat>
    var heap_len: nat
    var heap_max: nat
    var opt_len: int
    var static_len: int

    constructor ()
      ensures heap.Length == HEAP_SIZE && depth.Length == HEAP_SIZE && bl_count.Length == 16
      ensures fresh(heap) && fresh(depth) && fresh(bl_count)
      ensures heap != depth && heap != bl_count && depth != bl_count
      ensures opt_len == 0 && static_len == 0
    {
      heap, depth, bl_count := new nat[HEAP_SIZE], new nat[HEAP_SIZE], new nat[16];
      heap_len, heap_max, opt_len, static_len := 0, HEAP_SIZE, 0, 0;
    }

    ghost predicate Shape(fc: array<nat>, dl: array<nat>, elems: nat) {
      && heap.Length == HEAP_SIZE && depth.Length == HEAP_SIZE && bl_count.Length == 16
      && fc.Length == dl.Length == 2 * elems + 1 <= HEAP_SIZE
      && heap != depth && heap != bl_count && depth != bl_count && fc != dl
      && fc != heap && fc != depth && fc != bl_count && dl != heap && dl != depth && dl != bl_count
    }

    /** k leaves to begin with, |ms| merges done. */
    ghost predicate Merging(fc: array<nat>, dl: array<nat>, elems: nat, R0: Roots, ms: seq<Pair>, at: seq<int>)
      reads this, heap, depth, fc, dl
    {
      && Shape(fc, dl, elems) && |R0| == fc.Length && (forall i :: elems <= i < |R0| ==> !R0[i])
      && PairsWithin(R0, ms) && |ms| + heap_len <= elems && Merges(R0, fc[..], elems, ms)
      && heap_max == HEAP_SIZE - 2 * |ms| && 1 <= heap_len < heap_max
      && Nodes(heap[..], heap_len, fc[..], depth[..]) && HeapFrom(heap[..], heap_len, fc[..], depth[..], 1)
      && InPlay(Final(R0, elems, ms), Queue(heap[..], heap_len))
      && Tracked(R0, elems, ms, at, Final(R0, elems, ms))
      && Dads(dl[..], elems, ms) && Stored(heap[..], ms)
    }

    /** pqremove: take the least frequent node off the heap. */
    method PqRemove(fc: array<nat>, ghost R: Roots) returns (top: nat)
      requires heap != depth && heap != fc && heap.Length == HEAP_SIZE && |R| == fc.Length
      requires heap_len >= 2 && Nodes(heap[..], heap_len, fc[..], depth[..])
      requires HeapFrom(heap[..], heap_len, fc[..], depth[..], 1) && InPlay(R, Queue(heap[..], heap_len))
      modifies heap, `heap_len
      ensures heap_len == old(heap_len) - 1 && top == old(heap[1]) && top < |R| && R[top]
      ensures Nodes(heap[..], heap_len, fc[..], depth[..]) && HeapFrom(heap[..], heap_len, fc[..], depth[..], 1)
      ensures InPlay(R[top := false], Queue(heap[..], heap_len))
      ensures forall i :: 0 <= i < HEAP_SIZE && i > old(heap_len) ==> heap[i] == old(heap[i])
      ensures Smallest(R, fc[..], top, heap[1])
    {
      hide HeapFrom, Queue, Smallest, InPlay;
      ghost var h, n := heap[..], heap_len;
      top := heap[1];
      TopInPlay(R, h, n);
      QueuePop(h, n);
      HeapNewTop(h, n, fc[..], depth[..], heap[heap_len], n - 1);
      heap[1] := heap[heap_len];
      heap_len := heap_len - 1;
      assert heap[..] == h[1 := h[n]];
      InPlayMinus(R, Queue(h, n), top);
      PqDownHeap(heap, heap_len, fc, depth, 1);
      TwoLightest(R, fc[..], h, n, heap[..], depth[..]);
    }

    /** Collect the used symbols, in the order of their numbers. */
    method Collect(fc: array<nat>, dl: array<nat>, elems: nat) returns (max_code: int)
      requires Shape(fc, dl, elems)
      modifies dl, heap, depth, `heap_len, `heap_max
      ensures heap_max == HEAP_SIZE && Filled(heap[..], heap_len, fc[..], elems)
      ensures max_code == MaxCode(fc[..elems])
      ensures forall s :: 0 <= s < elems && fc[s] == 0 ==> dl[s] == 0
    {
      hide NonZero, MaxCode, Filled;
      heap_len, heap_max := 0, HEAP_SIZE;
      max_code := -1;
      FilledStart(heap[..], fc[..]);
      assert fc[..0] == [];
      MaxCodeNone();
      for n := 0 to elems
        invariant heap_max == HEAP_SIZE && heap_len <= n && Filled(heap[..], heap_len, fc[..], n)
        invariant max_code == MaxCode(fc[..n])
        invariant forall s :: 0 <= s < n && fc[s] == 0 ==> dl[s] == 0
      {
        FilledNext(heap[..], heap_len, fc[..], n);
        ghost var h := heap[..];
        if fc[n] != 0 {
          heap_len := heap_len + 1;
          heap[heap_len] := n;
          max_code := n;
          depth[n] := 0;
          assert heap[..] == h[heap_len := n];
        } else {
          dl[n] := 0;
        }
      }
    }

    /** At least two codes are needed: give unused symbols a frequency, without counting their cost. */
    method Force(fc: array<nat>, dl: array<nat>, elems: nat, stree: seq<nat>, max: int) returns (max_code: int)
      requires Shape(fc, dl, elems) && elems >= 3 && (stree != [] ==> |stree| >= elems)
      requires Filled(heap[..], heap_len, fc[..], elems) && max == MaxCode(fc[..elems])
      modifies fc, heap, depth, `heap_len, `opt_len, `static_len
      ensures Filled(heap[..], heap_len, fc[..], elems) && heap_len >= 2
      ensures fc[..elems] == Forced(old(fc[..elems])) && fc[elems..] == old(fc[elems..])
      ensures max_code == MaxCode(fc[..elems])
      ensures opt_len == old(opt_len) - (heap_len - old(heap_len))
      ensures static_len == old(static_len) - if stree == [] then 0 else ForcedStatic(old(fc[..elems]), stree)
    {
      hide NonZero, MaxCode, Filled, Forced, ForcedStatic;
      max_code := max;
      ghost var f0: seq<nat> := fc[..elems];
      FilledCount(heap[..], heap_len, fc[..], elems);
      while heap_len < 2
        invariant Filled(heap[..], heap_len, fc[..], elems) && heap_len == NonZero(fc[..elems])
        invariant old(heap_len) <= heap_len && max_code == MaxCode(fc[..elems])
        invariant fc[elems..] == old(fc[elems..]) && Forced(fc[..elems]) == Forced(f0)
        invariant opt_len == old(opt_len) - (heap_len - old(heap_len))
        invariant stree != [] ==>
          static_len == old(static_len) - ForcedStatic(f0, stree) + ForcedStatic(fc[..elems], stree)
        invariant stree == [] ==> static_len == old(static_len)
      {
        ghost var f, h, g: seq<nat> := fc[..], heap[..], fc[..elems];
        ForceStep(g);
        ForcedUnfold(g);
        var node := 0;
        if max_code < 2 {
          max_code := max_code + 1;
          node := max_code;
        }
        FilledForce(h, heap_len, f, elems, node);
        heap_len := heap_len + 1;
        heap[heap_len] := node;
        fc[node] := 1;
        depth[node] := 0;
        opt_len := opt_len - 1;
        if stree != [] {
          ForcedStaticUnfold(g, stree);
          static_len := static_len - stree[node];
        }
        assert fc[..] == f[node := 1] && heap[..] == h[heap_len := node];
        assert fc[..elems] == g[node := 1];
      }
      ForcedUnfold(fc[..elems]);
      if stree != [] {
        ForcedStaticUnfold(fc[..elems], stree);
      }
    }

    /** Establish sub-heaps of increasing lengths. */
    method Heapify(fc: array<nat>, dl: array<nat>, elems: nat)
      requires Shape(fc, dl, elems) && 2 <= heap_len <= elems && heap_max == HEAP_SIZE
      requires Filled(heap[..], heap_len, fc[..], elems)
      requires forall s :: 0 <= s < elems && fc[s] == 0 ==> dl[s] == 0
      modifies heap
      ensures Merging(fc, dl, elems, Leaves(fc[..], elems), [], NotYet(fc.Length))
    {
      hide HeapFrom, Queue;
      ghost var R, q := Leaves(fc[..], elems), Queue(heap[..], heap_len);
      var n: nat := heap_len / 2;
      NoFathers(heap[..], heap_len, fc[..], depth[..]);
      while n >= 1
        invariant n <= heap_len / 2
        invariant Nodes(heap[..], heap_len, fc[..], depth[..])
        invariant HeapFrom(heap[..], heap_len, fc[..], depth[..], n + 1)
        invariant Queue(heap[..], heap_len) == q
      {
        PqDownHeap(heap, heap_len, fc, depth, n);
        n := n - 1;
      }
      TrackedStart(R, elems, NotYet(fc.Length));
    }

    /** Keep the nodes sorted by frequency at the end of heap[]. */
    method KeepPair(n: nat, m: nat, ghost ms: seq<Pair>)
      requires heap.Length == HEAP_SIZE && heap_len + 2 < heap_max <= HEAP_SIZE
      requires heap_max == HEAP_SIZE - 2 * |ms| && Stored(heap[..], ms)
      modifies heap, `heap_max
      ensures heap_max == old(heap_max) - 2 && Stored(heap[..], ms + [Pair(n, m)])
      ensures forall i :: 0 <= i <= heap_len ==> heap[i] == old(heap[i])
    {
      heap_max := heap_max - 1;
      heap[heap_max] := n;
      heap_max := heap_max - 1;
      heap[heap_max] := m;
    }

    /** The new node takes the place of m, its father, on top of the heap. */
    method Insert(fc: array<nat>, node: nat, n: nat, m: nat, ghost R: Roots)
      requires heap != depth && heap != fc && depth != fc && heap.Length == HEAP_SIZE == depth.Length
      requires |R| == fc.Length && node < fc.Length && n < fc.Length && m < fc.Length && n != m && !R[node] && R[n] && R[m]
      requires heap_len >= 1 && Nodes(heap[..], heap_len, fc[..], depth[..]) && heap[1] == m
      requires HeapFrom(heap[..], heap_len, fc[..], depth[..], 1) && InPlay(R[n := false], Queue(heap[..], heap_len))
      modifies heap, depth, fc
      ensures fc[..] == old(fc[..])[node := old(fc[n] + fc[m])]
      ensures Nodes(heap[..], heap_len, fc[..], depth[..]) && HeapFrom(heap[..], heap_len, fc[..], depth[..], 1)
      ensures InPlay(Merged(R, n, m, node), Queue(heap[..], heap_len))
      ensures forall i :: heap_len < i < HEAP_SIZE ==> heap[i] == old(heap[i])
    {
      hide HeapFrom, Queue, InPlay;
      ghost var h, w, d := heap[..], fc[..], depth[..];
      NotQueued(R[n := false], h, heap_len, node);
      var fv := fc[n] + fc[m];
      var dv := ((if depth[n] >= depth[m] then depth[n] else depth[m]) + 1) % 256;
      HeapUpdate(h, heap_len, w, d, 1, node, fv, dv);
      HeapNewTop(h, heap_len, w[node := fv], d[node := dv], node, heap_len);
      QueueReplace(h, heap_len, node);
      InPlayMinus(R[n := false], Queue(h, heap_len), m);
      InPlayPlus(R[n := false][m := false], Queue(h, heap_len) - multiset{m}, node);
      fc[node] := fv;
      depth[node] := dv;
      assert fc[..] == w[node := fv];
      assert depth[..] == d[node := dv];
      heap[1] := node;
      assert heap[..] == h[1 := node];
      PqDownHeap(heap, heap_len, fc, depth, 1);
    }

    /** Combine the two least frequent nodes into the new node. */
    method MergeOnce(fc: array<nat>, dl: array<nat>, elems: nat, node: nat,
                     ghost R0: Roots, ghost ms: seq<Pair>, ghost at: seq<int>)
      returns (ghost q: Pair, ghost at': seq<int>)
      requires Merging(fc, dl, elems, R0, ms, at) && heap_len >= 2 && node == elems + |ms|
      modifies heap, depth, fc, dl, `heap_len, `heap_max
      ensures Merging(fc, dl, elems, R0, ms + [q], at') && heap_len == old(heap_len) - 1
      ensures forall s :: 0 <= s < fc.Length && s != node ==> fc[s] == old(fc[s])
      ensures IsNode(R0, elems, |ms|, q.n) && IsNode(R0, elems, |ms|, q.m)
      ensures forall s :: 0 <= s < dl.Length && s != q.n && s != q.m ==> dl[s] == old(dl[s])
    {
      hide HeapFrom, Queue, Smallest, InPlay, Merges, Final, Tracked, Dads, Nodes, Stored, Merged;
      ghost var R := Final(R0, elems, ms);
      FinalQuiet(R0, elems, ms);
      var n := PqRemove(fc, R);
      SameTail(old(heap[..]), heap[..], heap_max, ms);
      var m := heap[1];
      q := Pair(n, m);
      SmallestPlayed(R, fc[..], n, m);
      TrackedNodes(R0, elems, ms, at, R, q);
      ghost var h := heap[..];
      KeepPair(n, m, ms);
      SamePrefix(h, heap[..], heap_len, fc[..], depth[..]);
      at' := at[n := |ms|][m := |ms|][node := -1];
      TrackedSnoc(R0, elems, ms, at, R, q);
      DadsSnoc(dl[..], elems, ms, at, R0, R, q);
      MergesSnoc(R0, fc[..], elems, ms, q);
      ghost var d: seq<nat> := dl[..];
      dl[n] := node;
      dl[m] := node;
      assert dl[..] == d[n := node][m := node];
      ghost var h1 := heap[..];
      Insert(fc, node, n, m, R);
      SameTail(h1, heap[..], heap_max, ms + [q]);
    }

    /** Construct the Huffman tree: combine the two least frequent nodes until one is left. */
    method Combine(fc: array<nat>, dl: array<nat>, elems: nat, ghost R0: Roots)
      returns (ghost ms: seq<Pair>, ghost at: seq<int>)
      requires Merging(fc, dl, elems, R0, [], NotYet(fc.Length)) && heap_len >= 2
      modifies heap, depth, fc, dl, `heap_len, `heap_max
      ensures Tree(R0, fc[..], elems, ms, at) && Dads(dl[..], elems, ms) && Stored(heap[..], ms)
      ensures heap_max == HEAP_SIZE - 2 * |ms| - 1 && heap[heap_max] == elems + |ms| - 1
      ensures fc[..elems] == old(fc[..elems])
      ensures forall s :: 0 <= s < elems && !R0[s] ==> dl[s] == old(dl[s])
      ensures forall i :: elems <= i < elems + |ms| ==> fc[i] <= Weight(R0, fc[..])
    {
      hide Merging, Merges, Final, Tracked, Dads, Stored, Tree, Weight;
      ms, at := [], NotYet(fc.Length);
      var node := elems;
      MergingShape(fc, dl, elems, R0, ms, at);
      ghost var f0: seq<nat> := fc[..elems];
      while heap_len >= 2
        invariant Merging(fc, dl, elems, R0, ms, at) && node == elems + |ms| && heap_len >= 1
        invariant |ms| + heap_len == old(heap_len) && fc[..elems] == f0
        invariant forall s :: 0 <= s < elems && !R0[s] ==> dl[s] == old(dl[s])
      {
        ghost var q, at';
        ghost var d, f: seq<nat> := dl[..], fc[..elems];
        MergingShape(fc, dl, elems, R0, ms, at);
        q, at' := MergeOnce(fc, dl, elems, node, R0, ms, at);
        assert fc[..elems] == f;
        ms, at := ms + [q], at';
        node := node + 1;
      }
      MergingShape(fc, dl, elems, R0, ms, at);
      LastIsRoot(fc, dl, elems, R0, ms, at);
      ghost var h := heap[..];
      heap_max := heap_max - 1;
      heap[heap_max] := heap[1];
      assert heap[..] == h[heap_max := h[1]];
      StoredBelow(h, ms, heap_max, h[1]);
      TreeWeights(R0, fc[..], elems, ms, at);
    }

    lemma TreeWeights(R0: Roots, w: seq<nat>, elems: nat, ms: seq<Pair>, at: seq<int>)
      requires Tree(R0, w, elems, ms, at)
      ensures |w| == |R0| && forall i :: elems <= i < elems + |ms| && i < |w| ==> w[i] <= Weight(R0, w)
    {
      hide Weight, Tracked, Final, Merges;
      forall i: nat | elems <= i < elems + |ms| && i < |w|
        ensures w[i] <= Weight(R0, w)
      {
        NodeWeights(R0, w, elems, ms, i);
      }
    }

    lemma MergingShape(fc: array<nat>, dl: array<nat>, elems: nat, R0: Roots, ms: seq<Pair>, at: seq<int>)
      requires Merging(fc, dl, elems, R0, ms, at)
      ensures Shape(fc, dl, elems) && |R0| == fc.Length
      ensures 1 <= heap_len < heap_max == HEAP_SIZE - 2 * |ms| && |ms| + heap_len <= elems
    {
      hide Merges, Final, Tracked, Dads, Stored;
    }

    /** A single node left in the queue is the root of the tree. */
    lemma LastIsRoot(fc: array<nat>, dl: array<nat>, elems: nat, R0: Roots, ms: seq<Pair>, at: seq<int>)
      requires Merging(fc, dl, elems, R0, ms, at) && heap_len == 1 && ms != []
      ensures Tree(R0, fc[..], elems, ms, at) && heap[..][1] == elems + |ms| - 1
      ensures Dads(dl[..], elems, ms) && Stored(heap[..], ms)
    {
      hide Merges, Dads, Stored, HeapFrom, Final;
      var R := Final(R0, elems, ms);
      LastInPlay(R, heap[..]);
      var s := elems + |ms| - 1;
      assert IsNode(R0, elems, |ms|, s);
      assert Accounted(elems, ms, at, R, s);
    }

    /** bl_count[], opt_len and static_len after the leaves D have been counted with lengths d. */
    ghost predicate Summed(w: seq<nat>, d: seq<nat>, D: Roots, x: seq<nat>, st: seq<nat>, dynamic: bool,
                           opt0: int, static0: int)
      reads `opt_len, `static_len, bl_count
    {
      && bl_count.Length == 16 && |w| == |d| == |D| == |x| == |st|
      && (forall b :: 0 <= b < 16 ==> bl_count[b] == AtLevel(D, d, b))
      && opt_len == opt0 + Cost(D, w, d) + Cost(D, w, x)
      && static_len == static0 + if dynamic then 0 else Cost(D, w, st) + Cost(D, w, x)
    }

    method ZeroCounts()
      requires bl_count.Length == 16
      modifies bl_count
      ensures forall b :: 0 <= b < 16 ==> bl_count[b] == 0
    {
      for b := 0 to 16
        invariant forall i :: 0 <= i < b ==> bl_count[i] == 0
      {
        bl_count[b] := 0;
      }
    }

    /** Count a leaf of length bits. */
    method CountLeaf(n: nat, f: nat, bits: nat, xbits: nat, sbits: nat, dynamic: bool,
                     ghost w: seq<nat>, ghost d: seq<nat>, ghost D: Roots, ghost x: seq<nat>, ghost st: seq<nat>,
                     ghost opt0: int, ghost static0: int)
      requires Summed(w, d, D, x, st, dynamic, opt0, static0) && n < |D| && !D[n] && bits < 16
      requires f == w[n] && xbits == x[n] && (!dynamic ==> sbits == st[n])
      modifies bl_count, `opt_len, `static_len
      ensures Summed(w, d[n := bits], D[n := true], x, st, dynamic, opt0, static0)
    {
      hide Cost, AtLevel;
      forall b | 0 <= b < 16
        ensures AtLevel(D[n := true], d[n := bits], b) == AtLevel(D, d, b) + Bit(bits == b)
      {
        AtLevelAdd(D, d, n, bits, b);
      }
      CostAdd(D, w, d, n, bits);
      CostAdd(D, w, x, n, xbits);
      CostAdd(D, w, st, n, sbits);
      bl_count[bits] := bl_count[bits] + 1;
      opt_len := opt_len + f * (bits + xbits);
      if !dynamic {
        static_len := static_len + f * (sbits + xbits);
      }
      SumTimes(f, bits, xbits);
      SumTimes(f, sbits, xbits);
    }

    /** Count node n with bits bits if it is a leaf. */
    method CountNode(n: nat, f: nat, bits: nat, max_code: int, base: nat, extra: seq<nat>, stree: seq<nat>,
                     ghost w: seq<nat>, ghost d: seq<nat>, ghost D: Roots, ghost x: seq<nat>, ghost st: seq<nat>,
                     ghost opt0: int, ghost static0: int)
      requires Summed(w, d, D, x, st, stree == [], opt0, static0) && n < |D| && !D[n] && bits < 16 && f == w[n]
      requires n <= max_code ==> n < base + |extra| && (stree != [] ==> n < |stree|)
      requires x == ExtraOf(|D|, base, extra) && st == Padded(|D|, stree)
      modifies bl_count, `opt_len, `static_len
      ensures Summed(w, d[n := bits], if n <= max_code then D[n := true] else D, x, st, stree == [], opt0, static0)
    {
      hide Cost, AtLevel, ExtraOf, Padded;
      if n <= max_code {
        var xbits := 0;
        if n >= base {
          xbits := extra[n - base];
        }
        var sbits := if stree != [] then stree[n] else 0;
        LeafValues(|D|, base, extra, stree, n);
        CountLeaf(n, f, bits, xbits, sbits, stree == [], w, d, D, x, st, opt0, static0);
      } else {
        SummedSkip(w, d, D, x, st, stree == [], opt0, static0, n, bits);
      }
    }

    lemma SummedSkip(w: seq<nat>, d: seq<nat>, D: Roots, x: seq<nat>, st: seq<nat>, dynamic: bool,
                     opt0: int, static0: int, n: nat, v: nat)
      requires Summed(w, d, D, x, st, dynamic, opt0, static0) && n < |D| && !D[n]
      ensures Summed(w, d[n := v], D, x, st, dynamic, opt0, static0)
    {
      hide Cost, AtLevel;
      forall b | 0 <= b < 16
        ensures AtLevel(D, d[n := v], b) == AtLevel(D, d, b)
      {
        AtLevelAdd(D, d, n, v, b);
      }
      CostAdd(D, w, d, n, v);
    }

    /**
     The first pass of gen_bitlen: from the root down, every node is one level below its father,
     but not below max_length; overflow counts the nodes that should be.
     */
    method FirstPass(fc: array<nat>, dl: array<nat>, elems: nat, max_code: int, max_length: nat,
                     base: nat, extra: seq<nat>, stree: seq<nat>,
                     ghost R0: Roots, ghost ms: seq<Pair>, ghost at: seq<int>)
      returns (overflow: int)
      requires Shape(fc, dl, elems) && Tree(R0, fc[..], elems, ms, at) && Dads(dl[..], elems, ms)
      requires Stored(heap[..], ms) && heap_max == HEAP_SIZE - 2 * |ms| - 1 && heap[heap_max] == elems + |ms| - 1
      requires max_code < elems && 1 <= max_length <= 15 && forall s :: 0 <= s < elems && R0[s] ==> s <= max_code
      requires elems <= base + |extra| && (stree != [] ==> |stree| >= elems)
      modifies dl, bl_count, `opt_len, `static_len
      ensures Passing(dl[..], R0, elems, ms, at, max_length, 0)
      ensures overflow == OverFrom(dl[..], elems, max_length, 0, |ms|)
      ensures Summed(fc[..], dl[..], R0, ExtraOf(fc.Length, base, extra), Padded(fc.Length, stree), stree == [],
                     old(opt_len), old(static_len))
      ensures forall s :: 0 <= s < dl.Length && !IsNode(R0, elems, |ms|, s) ==> dl[s] == old(dl[s])
    {
      hide Tree, Passing, Cost, AtLevel, OverFrom, Visited, ExtraOf, Padded, Stored, Dads, Summed, NodeAt;
      ghost var N, w: seq<nat> := fc.Length, fc[..];
      TreeShape(R0, w, elems, ms, at);
      ghost var x, st := ExtraOf(N, base, extra), Padded(N, stree);
      ZeroCounts();
      overflow := 0;
      ghost var d: seq<nat> := dl[..];
      dl[heap[heap_max]] := 0;
      PassingStart(d, R0, w, elems, ms, at, max_length);
      d := d[elems + |ms| - 1 := 0];
      ghost var D := Visited(R0, ms, at, 2 * |ms|);
      VisitedNone(R0, w, elems, ms, at);
      SummedNone(w, d, D, x, st, stree == []);
      OverNone(d, elems, max_length, |ms|);
      var h := heap_max + 1;
      while h < HEAP_SIZE
        invariant HEAP_SIZE - 2 * |ms| <= h <= HEAP_SIZE && dl[..] == d && |d| == N
        invariant Passing(d, R0, elems, ms, at, max_length, HEAP_SIZE - h)
        invariant overflow == OverFrom(d, elems, max_length, HEAP_SIZE - h, |ms|)
        invariant D == Visited(R0, ms, at, HEAP_SIZE - h)
        invariant Summed(w, d, D, x, st, stree == [], old(opt_len), old(static_len))
        invariant forall s :: 0 <= s < dl.Length && !IsNode(R0, elems, |ms|, s) ==> dl[s] == old(dl[s])
      {
        ghost var t := HEAP_SIZE - 1 - h;
        PlaceInHeap(heap[..], ms, h);
        PassingNext(d, R0, w, elems, ms, at, max_length, t);
        VisitedNext(R0, w, elems, ms, at, t);
        var n := heap[h];
        assert n == heap[..][h];
        var bits := dl[dl[n]] + 1;
        if bits > max_length {
          bits, overflow := max_length, overflow + 1;
        }
        OverNext(d, elems, max_length, t, |ms|, n, bits);
        dl[n] := bits;
        CountNode(n, fc[n], bits, max_code, base, extra, stree, w, d, D, x, st, old(opt_len), old(static_len));
        D := if n <= max_code then D[n := true] else D;
        d := d[n := bits];
        h := h + 1;
      }
      VisitedAll(R0, w, elems, ms, at);
    }

    lemma SummedNone(w: seq<nat>, d: seq<nat>, D: Roots, x: seq<nat>, st: seq<nat>, dynamic: bool)
      requires bl_count.Length == 16 && |w| == |d| == |D| == |x| == |st|
      requires (forall b :: 0 <= b < 16 ==> bl_count[b] == 0) && forall s :: 0 <= s < |D| ==> !D[s]
      ensures Summed(w, d, D, x, st, dynamic, opt_len, static_len)
    {
      hide Cost, AtLevel;
      NothingYet(D, w, d);
      NothingYet(D, w, x);
      NothingYet(D, w, st);
    }

    /** The leaves D have their final lengths: all those longer than bits, and all but n of that length. */
    ghost predicate Assigned(d: seq<nat>, D: Roots, bits: nat, n: nat, max: nat)
      reads bl_count
    {
      && bl_count.Length == 16 && |d| == |D| && bits <= max <= 15
      && (bits > 0 ==> n <= bl_count[bits])
      && (forall b :: bits < b <= max ==> AtLevel(D, d, b) == bl_count[b])
      && (bits > 0 ==> AtLevel(D, d, bits) == bl_count[bits] - n)
      && (forall b :: 1 <= b < bits ==> AtLevel(D, d, b) == 0)
      && (bits > 0 ==> Members(D) + n + Total(bl_count[..], bits - 1) == Total(bl_count[..], max))
      && (bits == 0 ==> Members(D) == Total(bl_count[..], max))
    }

    lemma AssignedStart(d: seq<nat>, D: Roots, max: nat)
      requires bl_count.Length == 16 && |d| == |D| && 1 <= max <= 15 && forall s :: 0 <= s < |D| ==> !D[s]
      ensures Assigned(d, D, max, bl_count[max], max)
    {
      hide AtLevel;
      NothingYet(D, d, d);
      NoMembers(D);
    }

    lemma AssignedNext(d: seq<nat>, D: Roots, bits: nat, n: nat, max: nat, s: nat)
      requires Assigned(d, D, bits, n, max) && bits > 0 && n > 0 && s < |D| && !D[s]
      ensures Assigned(d[s := bits], D[s := true], bits, n - 1, max)
    {
      hide AtLevel, Members;
      var d', D' := d[s := bits], D[s := true];
      forall b | 1 <= b <= max
        ensures AtLevel(D', d', b) == AtLevel(D, d, b) + Bit(bits == b)
      {
        AtLevelAdd(D, d, s, bits, b);
      }
      forall b | 1 <= b < bits
        ensures AtLevel(D', d', b) == 0
      {
        assert AtLevel(D, d, b) == 0;
      }
      MemberAdd(D, s);
    }

    lemma AssignedShorter(d: seq<nat>, D: Roots, bits: nat, max: nat)
      requires Assigned(d, D, bits, 0, max) && bits > 0
      ensures bits > 1 ==> Assigned(d, D, bits - 1, bl_count[bits - 1], max)
      ensures bits == 1 ==> Assigned(d, D, 0, 0, max)
    {
      hide AtLevel, Members;
    }

    lemma AssignedAll(R0: Roots, ms: seq<Pair>, at: seq<int>, T: nat, d: seq<nat>, max: nat)
      requires |at| == |R0| == |d| && Assigned(d, Seen(R0, ms, at, T), 0, 0, max) && Total(bl_count[..], max) == Members(R0)
      ensures forall b :: 1 <= b <= max ==> AtLevel(R0, d, b) == bl_count[b]
    {
      hide AtLevel, Members;
      PartIsWhole(Seen(R0, ms, at, T), R0);
    }

    /** As long as a leaf must still be found there is one further up in heap[]. */
    lemma LeafLeft(R0: Roots, w: seq<nat>, elems: nat, ms: seq<Pair>, at: seq<int>, d: seq<nat>,
                   T: nat, bits: nat, n: nat, max: nat)
      requires Tree(R0, w, elems, ms, at) && T <= 2 * |ms| && n > 0 && bits > 0
      requires Assigned(d, Seen(R0, ms, at, T), bits, n, max) && Total(bl_count[..], max) == Members(R0)
      ensures T < 2 * |ms|
    {
      hide Tree, Seen, AtLevel, Members;
      SeenAll(R0, w, elems, ms, at);
    }

    /** Leaf m gets length bits, and opt_len follows. */
    method ChangeLength(fc: array<nat>, dl: array<nat>, m: nat, bits: nat, ghost R0: Roots)
      requires fc.Length == dl.Length == |R0| && fc != dl && m < |R0| && R0[m]
      modifies dl, `opt_len
      ensures dl[..] == old(dl[..])[m := bits]
      ensures opt_len - Cost(R0, fc[..], dl[..]) == old(opt_len) - Cost(R0, fc[..], old(dl[..]))
    {
      hide Cost;
      ghost var d: seq<nat> := dl[..];
      CostUpdate(R0, fc[..], d, m, bits);
      Difference(bits, d[m], fc[m]);
      if dl[m] != bits {
        opt_len := opt_len + (bits - dl[m]) * fc[m];
        dl[m] := bits;
      }
      assert dl[..] == d[m := bits];
    }

    /**
     The second pass of gen_bitlen: the codes' lengths are handed out again, the longest ones to
     the least frequent leaves.
     */
    method SecondPass(fc: array<nat>, dl: array<nat>, elems: nat, max_code: int, max_length: nat,
                      ghost R0: Roots, ghost ms: seq<Pair>, ghost at: seq<int>)
      requires Shape(fc, dl, elems) && Tree(R0, fc[..], elems, ms, at)
      requires Stored(heap[..], ms) && 1 <= max_length <= 15
      requires max_code < elems && forall s :: 0 <= s < elems && R0[s] ==> s <= max_code
      requires Total(bl_count[..], max_length) == Members(R0)
      modifies dl, `opt_len
      ensures opt_len - Cost(R0, fc[..], dl[..]) == old(opt_len) - Cost(R0, fc[..], old(dl[..]))
      ensures forall b :: 1 <= b <= max_length ==> AtLevel(R0, dl[..], b) == bl_count[b]
      ensures forall s :: 0 <= s < dl.Length ==> dl[s] == old(dl[s]) || (R0[s] && 1 <= dl[s] <= max_length)
    {
      hide Tree, Cost, AtLevel, Seen, Stored, Assigned, Members, Total;
      ghost var w, d0: seq<nat>, d: seq<nat> := fc[..], dl[..], dl[..];
      TreeShape(R0, w, elems, ms, at);
      ghost var D := Seen(R0, ms, at, 0);
      SeenNone(R0, ms, at);
      AssignedStart(d, D, max_length);
      var h, bits, n := HEAP_SIZE, max_length, bl_count[max_length];
      while bits != 0
        invariant bits <= max_length && HEAP_SIZE - 2 * |ms| <= h <= HEAP_SIZE && (bits == 0 ==> n == 0)
        invariant dl[..] == d && |d| == |d0| && D == Seen(R0, ms, at, HEAP_SIZE - h)
        invariant Assigned(d, D, bits, n, max_length)
        invariant opt_len - Cost(R0, w, d) == old(opt_len) - Cost(R0, w, d0)
        invariant forall s :: 0 <= s < |d| ==> d[s] == d0[s] || (R0[s] && 1 <= d[s] <= max_length)
      {
        while n != 0
          invariant HEAP_SIZE - 2 * |ms| <= h <= HEAP_SIZE
          invariant dl[..] == d && |d| == |d0| && D == Seen(R0, ms, at, HEAP_SIZE - h)
          invariant Assigned(d, D, bits, n, max_length)
          invariant opt_len - Cost(R0, w, d) == old(opt_len) - Cost(R0, w, d0)
          invariant forall s :: 0 <= s < |d| ==> d[s] == d0[s] || (R0[s] && 1 <= d[s] <= max_length)
          decreases h
        {
          LeafLeft(R0, w, elems, ms, at, d, HEAP_SIZE - h, bits, n, max_length);
          h := h - 1;
          PlaceInHeap(heap[..], ms, h);
          SeenNext(R0, w, elems, ms, at, HEAP_SIZE - 1 - h);
          var m := heap[h];
          assert m == heap[..][h];
          if m > max_code {
            continue;
          }
          AssignedNext(d, D, bits, n, max_length, m);
          ChangeLength(fc, dl, m, bits, R0);
          D := D[m := true];
          d := d[m := bits];
          n := n - 1;
        }
        AssignedShorter(d, D, bits, max_length);
        bits := bits - 1;
        n := if bits != 0 then bl_count[bits] else 0;
      }
      AssignedAll(R0, ms, at, HEAP_SIZE - h, d, max_length);
    }

    /**
     gen_bitlen: the lengths take the whole code space and none is longer than max_length; they are
     the best possible if no length had to be cut off.
     */
    method GenBitlen(fc: array<nat>, dl: array<nat>, elems: nat, max_code: int, max_length: nat,
                     base: nat, extra: seq<nat>, stree: seq<nat>,
                     ghost R0: Roots, ghost ms: seq<Pair>, ghost at: seq<int>)
      returns (overflow: int)
      requires Shape(fc, dl, elems) && Tree(R0, fc[..], elems, ms, at) && Dads(dl[..], elems, ms)
      requires Stored(heap[..], ms) && heap_max == HEAP_SIZE - 2 * |ms| - 1 && heap[heap_max] == elems + |ms| - 1
      requires max_code < elems && 2 <= max_length <= 15 && forall s :: 0 <= s < elems && R0[s] ==> s <= max_code
      requires elems <= base + |extra| && (stree != [] ==> |stree| >= elems) && elems <= Pow2(max_length)
      modifies dl, bl_count, `opt_len, `static_len
      ensures forall s :: 0 <= s < |R0| && R0[s] ==> 1 <= dl[s] <= max_length
      ensures forall s :: 0 <= s < elems && !R0[s] ==> dl[s] == old(dl[s])
      ensures Kraft(R0, dl[..], max_length) == Pow2(max_length)
      ensures Summed(fc[..], dl[..], R0, ExtraOf(fc.Length, base, extra), Padded(fc.Length, stree), stree == [],
                     old(opt_len), old(static_len))
      ensures overflow == 0 ==> Best(R0, fc[..], dl[..])
    {
      hide Tree, Cost, AtLevel, Stored, Members, Total, Space, Passing, OverFrom, ExtraOf, Padded, Dads, Best, Kraft,
        Overdrawn, Counts, Within;
      ghost var w: seq<nat> := fc[..];
      TreeShape(R0, w, elems, ms, at);
      overflow := FirstPass(fc, dl, elems, max_code, max_length, base, extra, stree, R0, ms, at);
      ghost var d1: seq<nat> := dl[..];
      FirstPassLevels(R0, w, elems, ms, at, d1, max_length);
      ghost var x, st := ExtraOf(fc.Length, base, extra), Padded(fc.Length, stree);
      SummedLevels(w, d1, R0, x, st, stree == [], old(opt_len), old(static_len));
      FirstPassCounts(R0, w, elems, ms, at, d1, max_length, bl_count[..]);
      if overflow == 0 {
        BestWithout(R0, w, elems, ms, at, d1, max_length);
        return;
      }
      RepairCounts(bl_count, max_length, overflow);
      SecondPass(fc, dl, elems, max_code, max_length, R0, ms, at);
      AllRepaired(R0, d1, dl[..], max_length, bl_count[..]);
      SummedAgain(w, dl[..], R0, x, st, stree == [], old(opt_len), old(static_len));
    }

    /** The heap of the used symbols, at least two of them. */
    method Prepare(fc: array<nat>, dl: array<nat>, elems: nat, stree: seq<nat>) returns (max_code: nat)
      requires Shape(fc, dl, elems) && elems >= 3 && (stree != [] ==> |stree| >= elems)
      modifies fc, dl, heap, depth, `heap_len, `heap_max, `opt_len, `static_len
      ensures fc[..elems] == Forced(old(fc[..elems]))
      ensures max_code == MaxCode(fc[..elems]) && 1 <= max_code < elems && heap_len >= 2
      ensures Merging(fc, dl, elems, Leaves(fc[..], elems), [], NotYet(fc.Length))
      ensures forall s :: 0 <= s < elems && fc[s] == 0 ==> dl[s] == 0
      ensures opt_len == old(opt_len) - (NonZero(fc[..elems]) - NonZero(old(fc[..elems])))
      ensures static_len == old(static_len) - if stree == [] then 0 else ForcedStatic(old(fc[..elems]), stree)
    {
      hide Filled, Merging, NonZero, MaxCode, Forced, ForcedStatic, Leaves;
      ghost var f0: seq<nat> := fc[..elems];
      var max := Collect(fc, dl, elems);
      FilledCount(heap[..], heap_len, fc[..], elems);
      max := Force(fc, dl, elems, stree, max);
      FilledCount(heap[..], heap_len, fc[..], elems);
      ForcedIs(f0);
      UsedAtLeast(fc[..elems]);
      max_code := max;
      forall s | 0 <= s < elems && fc[s] == 0
        ensures dl[s] == 0
      {
        assert fc[s] == fc[..elems][s];
      }
      Heapify(fc, dl, elems);
    }

    /** Tree and lengths for the heap of the leaves R0. */
    method Lengths(fc: array<nat>, dl: array<nat>, elems: nat, max_code: int, max_length: nat,
                   base: nat, extra: seq<nat>, stree: seq<nat>, ghost R0: Roots)
      returns (overflow: int)
      requires Merging(fc, dl, elems, R0, [], NotYet(fc.Length)) && heap_len >= 2
      requires max_code < elems && 2 <= max_length <= 15 && forall s :: 0 <= s < elems && R0[s] ==> s <= max_code
      requires elems <= base + |extra| && (stree != [] ==> |stree| >= elems) && elems <= Pow2(max_length)
      modifies fc, dl, heap, depth, bl_count, `heap_len, `heap_max, `opt_len, `static_len
      ensures fc[..elems] == old(fc[..elems])
      ensures forall s :: 0 <= s < |R0| && R0[s] ==> 1 <= dl[s] <= max_length
      ensures forall s :: 0 <= s < elems && !R0[s] ==> dl[s] == old(dl[s])
      ensures Kraft(R0, dl[..], max_length) == Pow2(max_length)
      ensures Summed(fc[..], dl[..], R0, ExtraOf(fc.Length, base, extra), Padded(fc.Length, stree), stree == [],
                     old(opt_len), old(static_len))
      ensures overflow == 0 ==> Best(R0, fc[..], dl[..])
    {
      hide Merging, Tree, Dads, Stored, Summed, ExtraOf, Padded, Kraft, Best, Pow2;
      ghost var ms, at;
      MergingShape(fc, dl, elems, R0, [], NotYet(fc.Length));
      ms, at := Combine(fc, dl, elems, R0);
      ghost var f: seq<nat> := fc[..elems];
      overflow := GenBitlen(fc, dl, elems, max_code, max_length, base, extra, stree, R0, ms, at);
      assert fc[..elems] == f;
    }

    /**
     build_tree: a complete prefix code for the symbols used, with at least two symbols in it, and
     opt_len and static_len grown by exactly what the counted symbols will take.
     */
    method BuildTree(fc: array<nat>, dl: array<nat>, elems: nat, max_length: nat,
                     base: nat, extra: seq<nat>, stree: seq<nat>)
      returns (max_code: nat, ghost overflow: int)
      requires Shape(fc, dl, elems) && elems >= 3 && 2 <= max_length <= 15 && elems <= Pow2(max_length)
      requires elems <= base + |extra| && (stree != [] ==> |stree| >= elems)
      requires FirstThreeFree(ExtraOf(elems, base, extra))
      modifies fc, dl, heap, depth, bl_count, `heap_len, `heap_max, `opt_len, `static_len
      ensures max_code == MaxCode(Forced(old(fc[..elems]))) && 1 <= max_code < elems
      ensures TreeOf(Forced(old(fc[..elems])), dl[..max_code + 1], max_length)
      ensures CodesFor(fc[..], dl[..max_code + 1])
      ensures forall s :: max_code < s < elems ==> dl[s] == 0
      ensures opt_len == old(opt_len) + Dot(old(fc[..elems]), dl[..elems]) + Dot(old(fc[..elems]), ExtraOf(elems, base, extra))
      ensures static_len == old(static_len) +
        if stree == [] then 0 else Dot(old(fc[..elems]), stree) + Dot(old(fc[..elems]), ExtraOf(elems, base, extra))
      ensures overflow == 0 ==> LeastCost(Forced(old(fc[..elems])), dl[..elems])
    {
      hide Filled, Merging, Tree, Dads, Stored, Summed, ExtraOf, TreeOf, CodesFor, LeastCost, Dot, NonZero, MaxCode, Forced,
        ForcedStatic, Kraft, Cost, Best, Leaves, Pow2, AtLevel, Count, NotOversubscribed, Padded;
      ghost var f0: seq<nat> := fc[..elems];
      max_code := Prepare(fc, dl, elems, stree);
      ghost var F: seq<nat> := fc[..elems];
      ghost var opt1, static1 := opt_len, static_len;
      ghost var R0 := Leaves(fc[..], elems);
      LeavesAre(fc[..], elems, F);
      overflow := Lengths(fc, dl, elems, max_code, max_length, base, extra, stree, R0);
      ghost var x, st := ExtraOf(fc.Length, base, extra), Padded(fc.Length, stree);
      SummedLevels(fc[..], dl[..], R0, x, st, stree == [], opt1, static1);
      BuiltCosts(fc[..], dl[..], elems, R0, f0, max_length, base, extra, stree);
      BuiltTree(dl[..], R0, F, max_length, bl_count[..]);
      if overflow == 0 {
        BestIsLeast(R0, fc[..], dl[..], F);
      }
      ghost var lens: seq<nat> := dl[..max_code + 1];
      GenCodes.GenCodes(fc, dl, max_code, bl_count);
    }

    lemma SummedLevels(w: seq<nat>, d: seq<nat>, D: Roots, x: seq<nat>, st: seq<nat>, dynamic: bool,
                       opt0: int, static0: int)
      requires Summed(w, d, D, x, st, dynamic, opt0, static0)
      ensures |bl_count[..]| == 16 && |w| == |d| == |D| == |x| == |st|
      ensures forall b :: 0 <= b < 16 ==> bl_count[..][b] == AtLevel(D, d, b)
      ensures opt_len == opt0 + Cost(D, w, d) + Cost(D, w, x)
      ensures static_len == static0 + if dynamic then 0 else Cost(D, w, st) + Cost(D, w, x)
    {
      hide AtLevel, Cost;
    }

    lemma SummedAgain(w: seq<nat>, d: seq<nat>, D: Roots, x: seq<nat>, st: seq<nat>, dynamic: bool,
                      opt0: int, static0: int)
      requires |bl_count[..]| == 16 && |w| == |d| == |D| == |x| == |st|
      requires forall b :: 0 <= b < 16 ==> bl_count[..][b] == AtLevel(D, d, b)
      requires opt_len == opt0 + Cost(D, w, d) + Cost(D, w, x)
      requires static_len == static0 + if dynamic then 0 else Cost(D, w, st) + Cost(D, w, x)
      ensures Summed(w, d, D, x, st, dynamic, opt0, static0)
    {
      hide AtLevel, Cost;
    }
  }

  lemma {:induction false} UsedAtLeast(F: seq<nat>)
    requires NonZero(F) >= 2
    ensures MaxCode(F) >= 1
  {
    var a, b := SomeTwo(F);
  }

  lemma {:induction false} SomeTwo(F: seq<nat>) returns (a: nat, b: nat)
    requires NonZero(F) >= 2
    ensures a < b < |F| && F[a] != 0 && F[b] != 0
  {
    var n := |F| - 1;
    if F[n] != 0 {
      b := n;
      a := SomeOne(F[..n]);
    } else {
      a, b := SomeTwo(F[..n]);
    }
  }

  lemma {:induction false} SomeOne(F: seq<nat>) returns (a: nat)
    requires NonZero(F) >= 1
    ensures a < |F| && F[a] != 0
  {
    var n := |F| - 1;
    if F[n] != 0 {
      a := n;
    } else {
      a := SomeOne(F[..n]);
    }
  }

  lemma LeavesAre(f: seq<nat>, elems: nat, F: seq<nat>)
    requires elems <= |f| && F == f[..elems]
    ensures forall s :: 0 <= s < elems ==> (Leaves(f, elems)[s] <==> F[s] != 0)
    ensures forall s :: elems <= s < |f| ==> !Leaves(f, elems)[s]
    ensures forall s :: 0 <= s < elems && Leaves(f, elems)[s] ==> s <= MaxCode(F)
  {
    hide MaxCode;
    var c := MaxCode(F);
  }

  /** The forced symbols, one bit each and without extra bits, do not count. */
  lemma BuiltCosts(w: seq<nat>, d: seq<nat>, elems: nat, R0: Roots, f0: seq<nat>, max: nat,
                   base: nat, extra: seq<nat>, stree: seq<nat>)
    requires |w| == |d| == |R0| >= elems == |f0| && elems >= 3 && w[..elems] == Forced(f0)
    requires forall s :: 0 <= s < elems ==> (R0[s] <==> Forced(f0)[s] != 0)
    requires forall s :: elems <= s < |R0| ==> !R0[s]
    requires forall s :: 0 <= s < |R0| && R0[s] ==> 1 <= d[s] <= max
    requires Kraft(R0, d, max) == Pow2(max) && (stree != [] ==> |stree| >= elems)
    requires FirstThreeFree(ExtraOf(elems, base, extra))
    ensures Cost(R0, w, d) == Dot(f0, d[..elems]) + NonZero(Forced(f0)) - NonZero(f0)
    ensures Cost(R0, w, ExtraOf(|w|, base, extra)) == Dot(f0, ExtraOf(elems, base, extra))
    ensures stree != [] ==> Cost(R0, w, Padded(|w|, stree)) == Dot(f0, stree) + ForcedStatic(f0, stree)
  {
    hide Cost, Dot, Forced, ForcedStatic, NonZero, Kraft;
    var F, x := Forced(f0), ExtraOf(elems, base, extra);
    CostIsDot(R0, w, d, F);
    ForcedDot(f0, d[..elems]);
    ForcedIs(f0);
    if NonZero(f0) < 2 {
      var a, b := TwoUsed(F);
      TwoCodes(R0, d, max, a, b);
    }
    ForcedOnes(f0, d[..elems]);
    CostIsDot(R0, w, ExtraOf(|w|, base, extra), F);
    assert ExtraOf(|w|, base, extra)[..elems] == x;
    ForcedDot(f0, x);
    ForcedNone(f0, x);
    if stree != [] {
      CostIsDot(R0, w, Padded(|w|, stree), F);
      DotSame(F, Padded(|w|, stree)[..elems], stree);
      ForcedDot(f0, stree);
    }
  }

  lemma {:induction false} KraftFull(R: Roots, l: seq<nat>, M: nat, n: nat)
    requires Within(R, l, M) && Kraft(R, l, M) == Pow2(M) && M <= n
    ensures Within(R, l, n) && Kraft(R, l, n) == Pow2(n)
    decreases n
  {
    if M < n {
      KraftFull(R, l, M, n - 1);
      KraftScale(R, l, n - 1);
    }
  }

  /** The lengths of the leaves are a complete code. */
  lemma BuiltTree(d: seq<nat>, R0: Roots, F: seq<nat>, max: nat, codes: seq<nat>)
    requires |F| <= |R0| == |d| && max <= 15 && |codes| == 16 && MaxCode(F) >= 0
    requires forall s :: 0 <= s < |F| ==> (R0[s] <==> F[s] != 0)
    requires forall s :: |F| <= s < |R0| ==> !R0[s]
    requires forall s :: 0 <= s < |R0| && R0[s] ==> 1 <= d[s] <= max
    requires forall s :: 0 <= s < |F| && !R0[s] ==> d[s] == 0
    requires Kraft(R0, d, max) == Pow2(max) && forall b :: 0 <= b < 16 ==> codes[b] == AtLevel(R0, d, b)
    ensures TreeOf(F, d[..MaxCode(F) + 1], max) && NotOversubscribed(d[..MaxCode(F) + 1])
    ensures codes[0] == 0 && forall b :: 1 <= b < 16 ==> codes[b] == Count(d[..MaxCode(F) + 1], b)
  {
    hide Kraft, AtLevel, MaxCode, Count, Used, Space, Pow2, Total, Members;
    var lens := d[..MaxCode(F) + 1];
    KraftFull(R0, d, max, 15);
    assert LengthsOf(lens, R0, d);
    UsedIsSpace(lens, codes, R0, d, 15);
    SpaceIsKraft(codes, R0, d, 15);
    forall b | 1 <= b < 16
      ensures codes[b] == Count(lens, b)
    {
      CountIsAtLevel(lens, R0, d, b);
    }
    NoneAtLevel(R0, d, 0);
  }

  lemma LastInPlay(R: Roots, h: seq<nat>)
    requires |h| >= 2 && InPlay(R, Queue(h, 1))
    ensures forall s :: 0 <= s < |R| && R[s] ==> s == h[1]
    ensures h[1] < |R| && R[h[1]]
  {
    assert h[1..2] == [h[1]];
    QueueHas(h, 1, 1);
  }

  lemma StoredBelow(h: seq<nat>, ms: seq<Pair>, i: nat, v: nat)
    requires Stored(h, ms) && i < HEAP_SIZE - 2 * |ms|
    ensures Stored(h[i := v], ms)
  {
  }

  /** After the first pass every leaf is at a level from 1 to max. */
  lemma FirstPassLevels(R0: Roots, w: seq<nat>, elems: nat, ms: seq<Pair>, at: seq<int>, d: seq<nat>, max: nat)
    requires Tree(R0, w, elems, ms, at) && Passing(d, R0, elems, ms, at, max, 0) && max >= 1
    ensures |d| == |R0| && Within(R0, d, max) && forall s :: 0 <= s < |R0| && R0[s] ==> 1 <= d[s] <= max
    ensures forall s :: 0 <= s < elems && !R0[s] ==> !IsNode(R0, elems, |ms|, s)
  {
    hide Merges, Tracked, Final;
    PassingDone(d, R0, w, elems, ms, at, max);
    forall s | 0 <= s < |R0| && R0[s]
      ensures 1 <= d[s] <= max
    {
      assert IsNode(R0, elems, |ms|, s);
      NodePlace(R0, w, elems, ms, at, s);
    }
  }

  /** Every inner node at level max overdraws the code space by one unit. */
  lemma FirstPassKraft(R0: Roots, w: seq<nat>, elems: nat, ms: seq<Pair>, at: seq<int>, d: seq<nat>, max: nat)
    requires Tree(R0, w, elems, ms, at) && Passing(d, R0, elems, ms, at, max, 0) && max >= 1
    ensures elems + |ms| <= |d| == |R0| && Within(R0, d, max)
    ensures Kraft(R0, d, max) == Pow2(max) + Excess(d, elems, ms, max)
    ensures AtLevel(R0, d, max) >= Excess(d, elems, ms, max)
    ensures OverFrom(d, elems, max, 0, |ms|) == 2 * Excess(d, elems, ms, max)
  {
    hide Kraft, AtLevel, OverFrom, Merges, Tracked, Passing, Pow2, IsNode;
    FirstPassLevels(R0, w, elems, ms, at, d, max);
    PassingDone(d, R0, w, elems, ms, at, max);
    PassingLength(d, R0, elems, ms, at, max, 0);
    OverIsTwice(d, elems, max, 0, ms);
    assert ms[0..] == ms;
    ExcessIs(R0, w, elems, ms, d, max);
    RootSums(Final(R0, elems, ms), w, d, max, elems + |ms| - 1);
  }

  lemma PassingLength(d: seq<nat>, R0: Roots, elems: nat, ms: seq<Pair>, at: seq<int>, max: nat, T: nat)
    requires Passing(d, R0, elems, ms, at, max, T)
    ensures elems + |ms| <= |d| == |R0| == |at|
  {
  }

  /** The first pass overdraws the code space by half the overflow. */
  lemma FirstPassCounts(R0: Roots, w: seq<nat>, elems: nat, ms: seq<Pair>, at: seq<int>, d: seq<nat>, max: nat, codes: seq<nat>)
    requires Tree(R0, w, elems, ms, at) && Passing(d, R0, elems, ms, at, max, 0) && 2 <= max <= 15 && elems <= Pow2(max)
    requires |codes| == 16 && |d| == |R0| && forall b :: 0 <= b < 16 ==> codes[b] == AtLevel(R0, d, b)
    ensures elems + |ms| <= |d|
    ensures var over := OverFrom(d, elems, max, 0, |ms|);
            && over % 2 == 0 && Overdrawn(codes, max, over / 2)
    ensures Total(codes, max) == Members(R0)
    ensures Within(R0, d, max) && (OverFrom(d, elems, max, 0, |ms|) == 0 ==> Kraft(R0, d, max) == Pow2(max))
  {
    hide Kraft, AtLevel, Total, Space, Members, OverFrom, Tree, Passing, Pow2, IsNode, Excess, Within;
    TreeShape(R0, w, elems, ms, at);
    FirstPassLevels(R0, w, elems, ms, at, d, max);
    FirstPassKraft(R0, w, elems, ms, at, d, max);
    SpaceIsKraft(codes, R0, d, max);
    MembersWithin(R0, elems);
    NoneAtLevel(R0, d, 0);
  }

  lemma NoneAtLevel(D: Roots, d: seq<nat>, b: nat)
    requires |d| == |D| && forall s :: 0 <= s < |D| && D[s] ==> d[s] != b
    ensures AtLevel(D, d, b) == 0
  {
    SumZero(AtLevelTerms(D, d, b));
  }

  /** Huffman's theorem for the tree that has been built. */
  lemma BestWithout(R0: Roots, w: seq<nat>, elems: nat, ms: seq<Pair>, at: seq<int>, d: seq<nat>, max: nat)
    requires Tree(R0, w, elems, ms, at) && Passing(d, R0, elems, ms, at, max, 0) && max >= 1
    requires |d| == |R0| && elems + |ms| <= |d| && OverFrom(d, elems, max, 0, |ms|) == 0
    ensures Best(R0, w, d)
  {
    hide Cost, Kraft, Merges, Tracked, Passing;
    PassingDone(d, R0, w, elems, ms, at, max);
    OverIsTwice(d, elems, max, 0, ms);
    assert ms[0..] == ms;
    forall l: seq<nat>, M: nat | Feasible(R0, l, M)
      ensures Cost(R0, w, d) <= Cost(R0, w, l)
    {
      Optimal(R0, w, elems, ms, d, max, elems + |ms| - 1, l, M);
    }
  }

  /** After the repair and the second pass the lengths take exactly the whole code space. */
  lemma AllRepaired(R0: Roots, d1: seq<nat>, d: seq<nat>, max: nat, codes: seq<nat>)
    requires |d1| == |d| == |R0| && |codes| == 16 && 2 <= max <= 15 && Overdrawn(codes, max, 0)
    requires forall s :: 0 <= s < |R0| && R0[s] ==> 1 <= d1[s] <= max
    requires forall s :: 0 <= s < |R0| ==> d[s] == d1[s] || (R0[s] && 1 <= d[s] <= max)
    requires forall b :: 1 <= b <= max ==> AtLevel(R0, d, b) == codes[b]
    requires forall b :: max < b < 16 ==> codes[b] == AtLevel(R0, d1, b)
    ensures Within(R0, d, max) && Kraft(R0, d, max) == Pow2(max)
    ensures forall b :: 0 <= b < 16 ==> codes[b] == AtLevel(R0, d, b)
  {
    hide Kraft, AtLevel, Total, Space;
    SpaceIsKraft(codes, R0, d, max);
    NoneAtLevel(R0, d, 0);
    forall b | max < b < 16
      ensures AtLevel(R0, d, b) == 0 && AtLevel(R0, d1, b) == 0
    {
      NoneAtLevel(R0, d, b);
      NoneAtLevel(R0, d1, b);
    }
  }

  lemma Difference(a: int, b: int, f: int)
    ensures (a - b) * f == f * a - f * b
  {
  }

  lemma SumTimes(f: int, a: int, b: int)
    ensures f * (a + b) == f * a + f * b
  {
  }

  lemma OverNone(d: seq<nat>, elems: nat, max: nat, n: nat)
    requires elems + n <= |d|
    ensures OverFrom(d, elems, max, 2 * n, n) == 0
  {
  }

  lemma OverNext(d: seq<nat>, elems: nat, max: nat, t: nat, n: nat, s: nat, v: nat)
    requires elems + n <= |d| && t < 2 * n && s < |d| && s != elems + t / 2
    requires !(elems + (t + 1) / 2 <= s < elems + n)
    ensures OverFrom(d[s := v], elems, max, t, n)
         == OverFrom(d, elems, max, t + 1, n) + if d[elems + t / 2] == max then 1 else 0
  {
    OverFromUpdate(d, elems, max, t + 1, n, s, v);
  }

  lemma LeafValues(N: nat, base: nat, extra: seq<nat>, stree: seq<nat>, n: nat)
    requires n < N && n < base + |extra|
    ensures ExtraOf(N, base, extra)[n] == if n >= base then extra[n - base] else 0
    ensures Padded(N, stree)[n] == if n < |stree| then stree[n] else 0
  {
  }

  lemma MaxCodeNone()
    ensures MaxCode([]) == -1
  {
  }

  lemma FilledCount(h: seq<nat>, len: nat, f: seq<nat>, n: nat)
    requires Filled(h, len, f, n)
    ensures len == NonZero(f[..n])
  {
  }

  lemma ForcedUnfold(f: seq<nat>)
    requires |f| >= 3
    ensures NonZero(f) >= 2 ==> Forced(f) == f
    ensures NonZero(f) < 2 ==> NextForced(MaxCode(f)) < |f| && Forced(f) == Forced(f[NextForced(MaxCode(f)) := 1])
  {
    if NonZero(f) < 2 {
      ForceStep(f);
    }
  }

  lemma ForcedStaticUnfold(f: seq<nat>, stree: seq<nat>)
    requires |f| >= 3 && |f| <= |stree|
    ensures NonZero(f) >= 2 ==> ForcedStatic(f, stree) == 0
    ensures NonZero(f) < 2 ==>
      var n := NextForced(MaxCode(f));
      n < |f| && ForcedStatic(f, stree) == stree[n] + ForcedStatic(f[n := 1], stree)
  {
    if NonZero(f) < 2 {
      ForceStep(f);
    }
  }

  lemma NoFathers(h: seq<nat>, len: nat, freq: seq<nat>, depth: seq<nat>)
    requires Nodes(h, len, freq, depth)
    ensures HeapFrom(h, len, freq, depth, len / 2 + 1)
  {
  }

  lemma {:induction false} FinalQuiet(R: Roots, first: nat, ms: seq<Pair>)
    requires first + |ms| <= |R| && PairsWithin(R, ms) && forall i :: first <= i < |R| ==> !R[i]
    ensures forall i :: first + |ms| <= i < |R| ==> !Final(R, first, ms)[i]
    decreases |ms|
  {
    if ms != [] {
      FinalQuiet(Merged(R, ms[0].n, ms[0].m, first), first + 1, ms[1..]);
    }
  }

  lemma TrackedNodes(R0: Roots, first: nat, ms: seq<Pair>, at: seq<int>, R: Roots, q: Pair)
    requires Tracked(R0, first, ms, at, R) && q.n < |R| && q.m < |R| && R[q.n] && R[q.m]
    ensures IsNode(R0, first, |ms|, q.n) && IsNode(R0, first, |ms|, q.m) && |at| == |R0|
  {
  }

  lemma SamePrefix(h: seq<nat>, h': seq<nat>, len: nat, freq: seq<nat>, depth: seq<nat>)
    requires Nodes(h, len, freq, depth) && HeapFrom(h, len, freq, depth, 1) && |h'| == |h|
    requires forall i :: 0 <= i <= len ==> h'[i] == h[i]
    ensures Nodes(h', len, freq, depth) && HeapFrom(h', len, freq, depth, 1) && Queue(h', len) == Queue(h, len)
  {
    forall i | 2 <= i <= len
      ensures InOrder(h', len, freq, depth, i)
    {
      assert InOrder(h, len, freq, depth, i);
    }
    assert h'[1..len + 1] == h[1..len + 1];
  }

  lemma SameTail(h: seq<nat>, h': seq<nat>, from: nat, ms: seq<Pair>)
    requires Stored(h, ms) && |h'| == |h| && from == HEAP_SIZE - 2 * |ms|
    requires forall i :: from <= i < |h| ==> h'[i] == h[i]
    ensures Stored(h', ms)
  {
  }

  lemma TopInPlay(R: Roots, h: seq<nat>, len: nat)
    requires 1 <= len < |h| && InPlay(R, Queue(h, len))
    ensures h[1] < |R| && R[h[1]]
  {
    QueueHas(h, len, 1);
  }
}
