/**
 The priority queue of build_tree: a heap of tree nodes in heap[1..heap_len], least frequent
 first, with the depth of the subtrees breaking ties (libz_all/trees.c).
 */
module Heap {

  /** smaller(tree, n, m, depth) */
  predicate Smaller(freq: seq<nat>, depth: seq<nat>, n: nat, m: nat)
    requires n < |freq| && m < |freq| && |freq| <= |depth|
  {
    freq[n] < freq[m] || (freq[n] == freq[m] && depth[n] <= depth[m])
  }

  predicate Nodes(h: seq<nat>, len: nat, freq: seq<nat>, depth: seq<nat>) {
    && len < |h| && |freq| <= |depth|
    && forall i :: 1 <= i <= len ==> h[i] < |freq|
  }

  /** Node at i, below one at position lo or later, is not smaller than its father. */
  predicate InOrder(h: seq<nat>, len: nat, freq: seq<nat>, depth: seq<nat>, i: nat)
    requires Nodes(h, len, freq, depth) && 2 <= i <= len
  {
    Smaller(freq, depth, h[i / 2], h[i])
  }

  predicate HeapFrom(h: seq<nat>, len: nat, freq: seq<nat>, depth: seq<nat>, lo: nat)
    requires Nodes(h, len, freq, depth)
  {
    forall i :: 2 <= i <= len && i / 2 >= lo ==> InOrder(h, len, freq, depth, i)
  }

  /** The nodes in the queue. */
  function Queue(h: seq<nat>, len: nat): multiset<nat>
    requires len < |h|
  {
    multiset(h[1..len + 1])
  }

  lemma {:induction false} RootIsSmallest(h: seq<nat>, len: nat, freq: seq<nat>, depth: seq<nat>, i: nat)
    requires Nodes(h, len, freq, depth) && HeapFrom(h, len, freq, depth, 1) && 1 <= i <= len
    ensures Smaller(freq, depth, h[1], h[i])
    decreases i
  {
    if i > 1 {
      RootIsSmallest(h, len, freq, depth, i / 2);
      assert InOrder(h, len, freq, depth, i);
    }
  }

  lemma SwapKeeps(s: seq<nat>, a: nat, b: nat)
    requires a < |s| && b < |s|
    ensures multiset(s[a := s[b]][b := s[a]]) == multiset(s)
  {
  }

  lemma QueueSwap(h: seq<nat>, len: nat, a: nat, b: nat)
    requires 1 <= a <= len && 1 <= b <= len && len < |h|
    ensures Queue(h[a := h[b]][b := h[a]], len) == Queue(h, len)
  {
    var s := h[1..len + 1];
    SwapKeeps(s, a - 1, b - 1);
    assert h[a := h[b]][b := h[a]][1..len + 1] == s[a - 1 := s[b - 1]][b - 1 := s[a - 1]];
  }

  /** Everything below lo is in order, except that the node at k may be too large for its place. */
  ghost predicate Sinking(g: seq<nat>, len: nat, freq: seq<nat>, depth: seq<nat>, lo: nat, k: nat) {
    && Nodes(g, len, freq, depth) && 1 <= lo <= k <= len
    && (forall i :: 2 <= i <= len && i / 2 >= lo && i / 2 != k ==> InOrder(g, len, freq, depth, i))
    && (forall i :: 2 <= i <= len && i / 2 == k && k / 2 >= lo ==> Smaller(freq, depth, g[k / 2], g[i]))
  }

  lemma SinkStep(g: seq<nat>, len: nat, freq: seq<nat>, depth: seq<nat>, lo: nat, k: nat, j: nat)
    requires Sinking(g, len, freq, depth, lo, k) && j <= len && j / 2 == k
    requires !Smaller(freq, depth, g[k], g[j])
    requires forall i :: 2 <= i <= len && i / 2 == k ==> Smaller(freq, depth, g[j], g[i])
    ensures Sinking(g[k := g[j]][j := g[k]], len, freq, depth, lo, j)
  {
    var g' := g[k := g[j]][j := g[k]];
    forall i | 2 <= i <= len && i / 2 >= lo && i / 2 != j
      ensures InOrder(g', len, freq, depth, i)
    {
      if i / 2 != k && i != k {
        assert InOrder(g, len, freq, depth, i);
      }
    }
    forall i | 2 <= i <= len && i / 2 == j && j / 2 >= lo
      ensures Smaller(freq, depth, g'[j / 2], g'[i])
    {
      assert InOrder(g, len, freq, depth, i);
    }
  }

  lemma SinkDone(g: seq<nat>, len: nat, freq: seq<nat>, depth: seq<nat>, lo: nat, k: nat)
    requires Sinking(g, len, freq, depth, lo, k)
    requires forall i :: 2 <= i <= len && i / 2 == k ==> Smaller(freq, depth, g[k], g[i])
    ensures HeapFrom(g, len, freq, depth, lo)
  {
    forall i | 2 <= i <= len && i / 2 >= lo
      ensures InOrder(g, len, freq, depth, i)
    {
    }
  }

  /** pqdownheap: move the node at k down to its place. */
  method PqDownHeap(heap: array<nat>, heap_len: nat, freq: array<nat>, depth: array<nat>, k0: nat)
    requires heap != freq && heap != depth
    requires Nodes(heap[..], heap_len, freq[..], depth[..]) && 1 <= k0 <= heap_len
    requires HeapFrom(heap[..], heap_len, freq[..], depth[..], k0 + 1)
    modifies heap
    ensures Nodes(heap[..], heap_len, freq[..], depth[..])
    ensures HeapFrom(heap[..], heap_len, freq[..], depth[..], k0)
    ensures Queue(heap[..], heap_len) == Queue(old(heap[..]), heap_len)
    ensures forall i :: 0 <= i < heap.Length && !(1 <= i <= heap_len) ==> heap[i] == old(heap[i])
  {
    hide HeapFrom, InOrder, Queue, Smaller;
    ghost var f, d := freq[..], depth[..];
    var v := heap[k0];
    var k := k0;
    var j := k * 2;
    ghost var g := heap[..];
    StartSinking(g, heap_len, f, d, k0);
    while j <= heap_len
      invariant 1 <= k <= heap_len && j == 2 * k
      invariant |g| == heap.Length && heap[..][k := v] == g && g[k] == v && freq[..] == f && depth[..] == d
      invariant Sinking(g, heap_len, f, d, k0, k)
      invariant Queue(g, heap_len) == Queue(old(heap[..]), heap_len)
      invariant forall i :: 0 <= i < heap.Length && !(1 <= i <= heap_len) ==> heap[i] == old(heap[i])
    {
      assert g[j] == heap[j];
      assert j < heap_len ==> g[j + 1] == heap[j + 1];
      if j < heap_len && IsSmaller(freq, depth, heap[j + 1], heap[j]) {
        j := j + 1;
      }
      SmallestSon(g, heap_len, f, d, k, j);
      if IsSmaller(freq, depth, v, heap[j]) {
        SmallerThanSons(g, heap_len, f, d, k, j);
        break;
      }
      SinkStep(g, heap_len, f, d, k0, k, j);
      QueueSwap(g, heap_len, k, j);
      g := g[k := g[j]][j := g[k]];
      heap[k] := heap[j];
      k := j;
      j := j * 2;
    }
    heap[k] := v;
    assert heap[..] == g;
    assert 2 * k > heap_len ==> forall i :: 2 <= i <= heap_len ==> i / 2 != k;
    SinkDone(g, heap_len, f, d, k0, k);
  }

  predicate IsSmaller(freq: array<nat>, depth: array<nat>, n: nat, m: nat): (r: bool)
    requires n < freq.Length && m < freq.Length && freq.Length <= depth.Length
    reads freq, depth
    ensures r == Smaller(freq[..], depth[..], n, m)
  {
    freq[n] < freq[m] || (freq[n] == freq[m] && depth[n] <= depth[m])
  }

  lemma StartSinking(g: seq<nat>, len: nat, freq: seq<nat>, depth: seq<nat>, k: nat)
    requires Nodes(g, len, freq, depth) && 1 <= k <= len && HeapFrom(g, len, freq, depth, k + 1)
    ensures Sinking(g, len, freq, depth, k, k)
  {
    hide InOrder;
  }

  /** j is the smallest son of k. */
  lemma SmallestSon(g: seq<nat>, len: nat, freq: seq<nat>, depth: seq<nat>, k: nat, j: nat)
    requires Nodes(g, len, freq, depth) && 1 <= k && 2 * k <= j <= len && j / 2 == k
    requires j == 2 * k + 1 ==> Smaller(freq, depth, g[j], g[2 * k])
    requires j == 2 * k && j < len ==> !Smaller(freq, depth, g[j + 1], g[j])
    ensures forall i :: 2 <= i <= len && i / 2 == k ==> Smaller(freq, depth, g[j], g[i])
  {
    forall i | 2 <= i <= len && i / 2 == k
      ensures Smaller(freq, depth, g[j], g[i])
    {
      assert i == 2 * k || i == 2 * k + 1;
    }
  }

  lemma SmallerThanSons(g: seq<nat>, len: nat, freq: seq<nat>, depth: seq<nat>, k: nat, j: nat)
    requires Nodes(g, len, freq, depth) && 1 <= k <= len && 1 <= j <= len && Smaller(freq, depth, g[k], g[j])
    requires forall i :: 2 <= i <= len && i / 2 == k ==> Smaller(freq, depth, g[j], g[i])
    ensures forall i :: 2 <= i <= len && i / 2 == k ==> Smaller(freq, depth, g[k], g[i])
  {
  }
}
