/**
 The codes of a canonical code taken in sorted order (by length, then by symbol): each starts
 where the previous one ends.  inflate_table walks through them in this order.
 */
module SortedCodes {
  import opened Bits
  import opened Canonical
  import opened TableSpace

  /** The symbols that have codes, sorted. */
  function Syms(lens: seq<nat>): (r: seq<nat>)
    ensures forall i :: 0 <= i < |r| ==> r[i] < |lens| && 1 <= lens[r[i]] <= MAXBITS
  {
    SortedSyms(lens, MAXBITS)
  }

  function LenAt(lens: seq<nat>, k: nat): (l: nat)
    requires k < |Syms(lens)|
    ensures 1 <= l <= MAXBITS
  {
    lens[Syms(lens)[k]]
  }

  function WordAt(lens: seq<nat>, k: nat): (w: seq<bool>)
    requires k < |Syms(lens)|
    ensures |w| == LenAt(lens, k)
  {
    Codeword(lens, Syms(lens)[k])
  }

  /** Where block b of the sorted symbols begins. */
  function Base(lens: seq<nat>, b: nat): nat
    requires b >= 1
  {
    |SortedSyms(lens, b - 1)|
  }

  lemma {:induction false} BlockAt(lens: seq<nat>, b: nat, c: nat)
    requires 1 <= b <= c
    ensures SortedSyms(lens, b) <= SortedSyms(lens, c)
    ensures Base(lens, b) + Count(lens, b) == |SortedSyms(lens, b)| <= |SortedSyms(lens, c)|
    ensures SortedSyms(lens, c)[Base(lens, b)..Base(lens, b) + Count(lens, b)] == SymsOfLen(lens, b, |lens|)
    decreases c
  {
    hide Count, SymsOfLen;
    assert lens[..|lens|] == lens;
    if b < c {
      BlockAt(lens, b, c - 1);
      var p := SortedSyms(lens, c - 1);
      assert SortedSyms(lens, c)[..|p|] == p;
    }
  }

  lemma {:induction false} SymsOfLenAt(lens: seq<nat>, b: nat, n: nat, s: nat)
    requires n <= |lens| && s < n && lens[s] == b
    ensures Count(lens[..s], b) < |SymsOfLen(lens, b, n)|
    ensures SymsOfLen(lens, b, n)[Count(lens[..s], b)] == s
    decreases n
  {
    assert lens[..n][..n - 1] == lens[..n - 1];
    if s < n - 1 {
      SymsOfLenAt(lens, b, n - 1, s);
    }
  }

  lemma {:induction false} SymsOfLenRank(lens: seq<nat>, b: nat, n: nat, i: nat)
    requires n <= |lens| && i < |SymsOfLen(lens, b, n)|
    ensures SymsOfLen(lens, b, n)[i] < n && Count(lens[..SymsOfLen(lens, b, n)[i]], b) == i
    decreases n
  {
    if n > 0 {
      assert lens[..n][..n - 1] == lens[..n - 1];
      if i < |SymsOfLen(lens, b, n - 1)| {
        SymsOfLenRank(lens, b, n - 1, i);
      }
    }
  }

  /** Every symbol with a code has its place. */
  lemma IndexOf(lens: seq<nat>, s: nat) returns (k: nat)
    requires LengthsOk(lens) && s < |lens| && lens[s] >= 1
    ensures k < |Syms(lens)| && Syms(lens)[k] == s
  {
    var b := lens[s];
    SymsOfLenAt(lens, b, |lens|, s);
    BlockAt(lens, b, MAXBITS);
    k := Base(lens, b) + Count(lens[..s], b);
    assert Syms(lens)[Base(lens, b)..Base(lens, b) + Count(lens, b)][Count(lens[..s], b)] == s;
  }

  /** The block a position of the sorted order lies in. */
  lemma {:induction false} PlaceAt(lens: seq<nat>, c: nat, k: nat)
    requires k < |SortedSyms(lens, c)|
    ensures var s := SortedSyms(lens, c)[k];
            s < |lens| && 1 <= lens[s] <= c && k == Base(lens, lens[s]) + Count(lens[..s], lens[s])
    decreases c
  {
    hide Count, SymsOfLen;
    var p := SortedSyms(lens, c - 1);
    if k < |p| {
      PlaceAt(lens, c - 1, k);
      assert SortedSyms(lens, c)[k] == p[k];
    } else {
      var i := k - |p|;
      SymsOfLenRank(lens, c, |lens|, i);
      assert SortedSyms(lens, c)[k] == SymsOfLen(lens, c, |lens|)[i];
    }
  }

  lemma {:induction false} BaseGap(lens: seq<nat>, b: nat, c: nat)
    requires 1 <= b <= c
    ensures Base(lens, b) <= Base(lens, c)
    ensures b < c ==> Base(lens, b) + Count(lens, b) <= Base(lens, c)
    decreases c
  {
    hide Count;
    assert lens[..|lens|] == lens;
    if b < c {
      BaseGap(lens, b, c - 1);
    }
  }

  /** Two neighbours: same length and consecutive ranks, or the end of one block and the start of a later one. */
  lemma Neighbours(lens: seq<nat>, k: nat)
    requires k + 1 < |Syms(lens)|
    ensures var s, t := Syms(lens)[k], Syms(lens)[k + 1];
            var b, c := lens[s], lens[t];
            && b <= c
            && (b == c ==> Count(lens[..t], c) == Count(lens[..s], b) + 1)
            && (b < c ==> Count(lens[..t], c) == 0 && Count(lens[..s], b) + 1 == Count(lens, b)
                          && forall d :: b < d < c ==> Count(lens, d) == 0)
  {
    hide Count, SymsOfLen;
    var s, t := Syms(lens)[k], Syms(lens)[k + 1];
    var b, c := lens[s], lens[t];
    PlaceAt(lens, MAXBITS, k);
    PlaceAt(lens, MAXBITS, k + 1);
    RankBelowCount(lens, s);
    RankBelowCount(lens, t);
    if b > c {
      BaseGap(lens, c, b);
    } else if b < c {
      BaseGap(lens, b, c);
      forall d | b < d < c
        ensures Count(lens, d) == 0
      {
        BaseGap(lens, b, d);
        BaseGap(lens, d, c);
      }
    }
  }

  lemma {:induction false} UsedOverGap(lens: seq<nat>, b: nat, c: nat)
    requires b < c && forall d :: b < d < c ==> Count(lens, d) == 0
    ensures Used(lens, c - 1) == Pow2(c - 1 - b) * Used(lens, b)
    decreases c
  {
    if b < c - 1 {
      UsedOverGap(lens, b, c - 1);
      Double(Pow2(c - 2 - b), Used(lens, b));
    }
  }

  /** The next code is one more, with zeros appended when it is longer (RFC 1951, section 3.2.2). */
  lemma NextCode(lens: seq<nat>, k: nat)
    requires k + 1 < |Syms(lens)|
    ensures LenAt(lens, k) <= LenAt(lens, k + 1)
    ensures CodeOf(lens, Syms(lens)[k + 1])
            == Pow2(LenAt(lens, k + 1) - LenAt(lens, k)) * (CodeOf(lens, Syms(lens)[k]) + 1)
  {
    hide SortedSyms, Count;
    Neighbours(lens, k);
    var s, t := Syms(lens)[k], Syms(lens)[k + 1];
    var b, c := lens[s], lens[t];
    if b < c {
      UsedOverGap(lens, b, c);
      assert Used(lens, b) == CodeOf(lens, s) + 1;
      Double(Pow2(c - 1 - b), Used(lens, b));
    }
  }

  /** The first code is all zeros. */
  lemma FirstIsZero(lens: seq<nat>)
    requires Syms(lens) != []
    ensures CodeOf(lens, Syms(lens)[0]) == 0
  {
    hide SortedSyms, Count;
    var s := Syms(lens)[0];
    PlaceAt(lens, MAXBITS, 0);
    NoneBefore(lens, lens[s] - 1);
  }

  lemma {:induction false} NoneBefore(lens: seq<nat>, b: nat)
    requires SortedSyms(lens, b) == []
    ensures Used(lens, b) == 0
  {
    hide SymsOfLen, Count;
    if b > 0 {
      assert lens[..|lens|] == lens;
      assert |SortedSyms(lens, b)| == |SortedSyms(lens, b - 1)| + |SymsOfLen(lens, b, |lens|)|;
      NoneBefore(lens, b - 1);
    }
  }

  lemma {:induction false} LensSorted(lens: seq<nat>, i: nat, j: nat)
    requires i <= j < |Syms(lens)|
    ensures LenAt(lens, i) <= LenAt(lens, j)
    decreases j
  {
    if i < j {
      LensSorted(lens, i, j - 1);
      NextCode(lens, j - 1);
    }
  }

  /* ---------- positions in the code space, in units of 2^-15 ---------- */

  function Width(lens: seq<nat>, k: nat): (w: nat)
    requires k < |Syms(lens)|
    ensures w >= 1
  {
    Pow2(MAXBITS - LenAt(lens, k))
  }

  /** Where the code at place k begins: the widths of those before it. */
  function StartAt(lens: seq<nat>, k: nat): nat
    requires k <= |Syms(lens)|
  {
    if k == 0 then 0 else StartAt(lens, k - 1) + Width(lens, k - 1)
  }

  lemma {:induction false} StartIsCode(lens: seq<nat>, k: nat)
    requires k < |Syms(lens)|
    ensures StartAt(lens, k) == CodeOf(lens, Syms(lens)[k]) * Width(lens, k)
  {
    hide Syms, CodeOf, Pow2;
    if k == 0 {
      FirstIsZero(lens);
    } else {
      StartIsCode(lens, k - 1);
      NextCode(lens, k - 1);
      var b, c := LenAt(lens, k - 1), LenAt(lens, k);
      Pow2Add(c - b, MAXBITS - c);
      NextStart(StartAt(lens, k - 1), CodeOf(lens, Syms(lens)[k - 1]), Pow2(c - b), Width(lens, k), Width(lens, k - 1),
        CodeOf(lens, Syms(lens)[k]));
    }
  }

  lemma NextStart(start: nat, v: nat, p: nat, q: nat, w: nat, next: nat)
    requires start == v * w && w == p * q && next == p * (v + 1)
    ensures start + w == next * q
  {
    assert (p * (v + 1)) * q == (v + 1) * (p * q);
  }

  lemma {:induction false} StartMonotone(lens: seq<nat>, i: nat, j: nat)
    requires i <= j <= |Syms(lens)|
    ensures StartAt(lens, i) <= StartAt(lens, j)
    ensures i < j ==> StartAt(lens, i) + Width(lens, i) <= StartAt(lens, j)
    decreases j
  {
    if i < j {
      StartMonotone(lens, i, j - 1);
    }
  }

  /** The first root bits of a codeword, as a number: which slot of the code space it is in. */
  lemma SlotIs(lens: seq<nat>, k: nat, root: nat)
    requires NotOversubscribed(lens) && k < |Syms(lens)| && root <= LenAt(lens, k)
    ensures MsbVal(WordAt(lens, k)[..root]) == StartAt(lens, k) / Pow2(MAXBITS - root)
  {
    hide SortedSyms, Pow2, Msb, MsbVal, Count, Used, StartAt, CodeOf;
    var s, l := Syms(lens)[k], LenAt(lens, k);
    CodeFits(lens, s);
    StartIsCode(lens, k);
    MsbValPrefix(WordAt(lens, k), root);
    Pow2Add(l - root, MAXBITS - l);
    DivScaled(CodeOf(lens, s), Pow2(l - root), Width(lens, k));
  }

  lemma DivScaled(x: nat, p: nat, q: nat)
    requires p >= 1 && q >= 1
    ensures p * q >= 1 && (x * q) / (p * q) == x / p
  {
    var d, r := x / p, x % p;
    assert x == p * d + r;
    MulLe(q, r, p - 1);
    assert x * q == (p * q) * d + r * q;
    assert p * q >= 1;
    ModUnique(x * q, p * q, d, r * q);
  }

  /** Codes in one slot are neighbours: nothing in between belongs to another slot. */
  lemma SlotContiguous(lens: seq<nat>, i: nat, j: nat, k: nat, root: nat)
    requires NotOversubscribed(lens) && i <= j <= k < |Syms(lens)|
    requires root < LenAt(lens, i) <= LenAt(lens, k)
    requires WordAt(lens, i)[..root] == WordAt(lens, k)[..root]
    ensures root < LenAt(lens, j) && WordAt(lens, j)[..root] == WordAt(lens, k)[..root]
  {
    hide Syms, Codeword, NotOversubscribed, Pow2, WordAt, StartAt;
    LensSorted(lens, i, j);
    LensSorted(lens, j, k);
    SlotIs(lens, i, root);
    SlotIs(lens, j, root);
    SlotIs(lens, k, root);
    StartMonotone(lens, i, j);
    StartMonotone(lens, j, k);
    var p := Pow2(MAXBITS - root);
    DivMonotone(StartAt(lens, i), StartAt(lens, j), p);
    DivMonotone(StartAt(lens, j), StartAt(lens, k), p);
    MsbMsbVal(WordAt(lens, j)[..root]);
    MsbMsbVal(WordAt(lens, k)[..root]);
  }

  lemma DivMonotone(x: nat, y: nat, p: nat)
    requires p >= 1 && x <= y
    ensures x / p <= y / p
  {
    DivAtLeast(y, p, x / p);
  }

  /* ---------- sub-tables are large enough ---------- */

  /** The lengths from place k on. */
  function LensFrom(lens: seq<nat>, k: nat): (r: seq<nat>)
    requires k <= |Syms(lens)|
    ensures |r| == |Syms(lens)| - k
    ensures forall i :: 0 <= i < |r| ==> r[i] == LenAt(lens, k + i)
  {
    LensOf(lens, Syms(lens))[k..]
  }

  /** Passing over the codes of one length. */
  lemma {:induction false} PassLength(lens: seq<nat>, k: nat, t: nat, l: nat) returns (u: nat)
    requires k <= t <= |Syms(lens)| && 1 <= l <= MAXBITS
    requires forall i :: k <= i < t ==> LenAt(lens, i) < l
    requires forall i :: t <= i < |Syms(lens)| ==> LenAt(lens, i) >= l
    ensures t <= u <= |Syms(lens)|
    ensures forall i :: k <= i < u ==> LenAt(lens, i) < l + 1
    ensures forall i :: u <= i < |Syms(lens)| ==> LenAt(lens, i) >= l + 1
    ensures StartAt(lens, u) == StartAt(lens, t) + Count(LensFrom(lens, k), l) * Pow2(MAXBITS - l)
  {
    hide Syms, Pow2, StartAt, LensFrom, LenAt, Count;
    var n, f := |Syms(lens)|, LensFrom(lens, k);
    u := t;
    CountNone(f[..t - k], l);
    while u < n && LenAt(lens, u) == l
      invariant t <= u <= n
      invariant forall i :: t <= i < u ==> LenAt(lens, i) == l
      invariant StartAt(lens, u) == StartAt(lens, t) + Count(f[..u - k], l) * Pow2(MAXBITS - l)
      decreases n - u
    {
      CountNext(f, u - k, l);
      Distribute(Count(f[..u - k], l), Pow2(MAXBITS - l));
      StartNext(lens, u);
      u := u + 1;
    }
    if u < n {
      forall i | u <= i < n
        ensures LenAt(lens, i) >= l + 1
      {
        LensSorted(lens, u, i);
      }
    }
    CountTail(f, u - k, l);
  }

  lemma StartNext(lens: seq<nat>, k: nat)
    requires k < |Syms(lens)|
    ensures StartAt(lens, k + 1) == StartAt(lens, k) + Pow2(MAXBITS - LenAt(lens, k))
  {
  }

  lemma CountNext(s: seq<nat>, k: nat, v: nat)
    requires k < |s|
    ensures Count(s[..k + 1], v) == Count(s[..k], v) + (if s[k] == v then 1 else 0)
  {
    assert s[..k + 1][..k] == s[..k];
  }

  lemma Distribute(n: int, w: int)
    ensures (n + 1) * w == n * w + w
  {
  }

  lemma {:induction false} CountNone(s: seq<nat>, v: nat)
    requires forall i :: 0 <= i < |s| ==> s[i] != v
    ensures Count(s, v) == 0
  {
    if s != [] {
      CountNone(s[..|s| - 1], v);
    }
  }

  lemma {:induction false} CountTail(s: seq<nat>, k: nat, v: nat)
    requires k <= |s| && forall i :: k <= i < |s| ==> s[i] != v
    ensures Count(s[..k], v) == Count(s, v)
    decreases |s|
  {
    if k == |s| {
      assert s[..k] == s;
    } else {
      var s' := s[..|s| - 1];
      CountTail(s', k, v);
      assert s'[..k] == s[..k];
    }
  }

  lemma MinusTimes(x: int, y: int, w: int)
    ensures (x - y) * w == x * w - y * w
  {
  }

  lemma Halve(x: int, n: nat)
    requires n >= 1
    ensures (2 * x) * Pow2(n - 1) == x * Pow2(n)
  {
  }

  lemma SpaceLeft(left: int, n: nat, w: nat, whole: int, first: int, t: int, u: int)
    requires left * w == whole - (t - first) && u == t + n * w
    ensures (left - n) * w == whole - (u - first)
    ensures left - n <= 0 ==> u >= first + whole
  {
    MinusTimes(left, n, w);
    if left - n <= 0 {
      MulLe(w, left - n, 0);
    }
  }

  /** The codes longer than root + SubBits lie beyond the slot that is being split. */
  lemma {:induction false} SubBitsCovers(lens: seq<nat>, k: nat, root: nat, max: nat, c: nat, left: int, t: nat, j: nat)
    requires k <= t <= |Syms(lens)| && root + c <= max <= MAXBITS && root + c >= 1
    requires forall i :: 0 <= i < |Syms(lens)| ==> LenAt(lens, i) <= max
    requires forall i :: k <= i < t ==> LenAt(lens, i) < root + c
    requires forall i :: t <= i < |Syms(lens)| ==> LenAt(lens, i) >= root + c
    requires left * Pow2(MAXBITS - (root + c)) == Pow2(MAXBITS - root) - (StartAt(lens, t) - StartAt(lens, k))
    requires k <= j < |Syms(lens)| && LenAt(lens, j) > root + SubBits(LensFrom(lens, k), root, max, c, left)
    ensures StartAt(lens, j) >= StartAt(lens, k) + Pow2(MAXBITS - root)
    decreases max - c
  {
    hide Syms, StartAt, LensFrom, LenAt, Count, Pow2;
    if c + root < max {
      var u := PassLength(lens, k, t, root + c);
      var n, w := Count(LensFrom(lens, k), root + c), Pow2(MAXBITS - (root + c));
      var left' := left - n;
      SpaceLeft(left, n, w, Pow2(MAXBITS - root), StartAt(lens, k), StartAt(lens, t), StartAt(lens, u));
      if left' <= 0 {
        StartMonotone(lens, u, j);
      } else {
        Halve(left', MAXBITS - (root + c));
        SubBitsCovers(lens, k, root, max, c + 1, 2 * left', u, j);
      }
    }
  }

  /** Every code in the slot opened at place k fits the sub-table made for it. */
  lemma SubTableHolds(lens: seq<nat>, k: nat, root: nat, max: nat, j: nat)
    requires NotOversubscribed(lens) && k <= j < |Syms(lens)|
    requires root < LenAt(lens, k) && max <= MAXBITS
    requires forall i :: 0 <= i < |Syms(lens)| ==> LenAt(lens, i) <= max
    requires root <= LenAt(lens, j) && WordAt(lens, j)[..root] == WordAt(lens, k)[..root]
    ensures LenAt(lens, j) <= root + CurrBits(lens, Syms(lens), root, max, k)
  {
    hide Syms, StartAt, WordAt, Codeword, NotOversubscribed, Pow2, SubBits;
    var c := LenAt(lens, k) - root;
    if LenAt(lens, j) > root + CurrBits(lens, Syms(lens), root, max, k) {
      forall i | k <= i < |Syms(lens)|
        ensures LenAt(lens, i) >= root + c
      {
        LensSorted(lens, k, i);
      }
      Pow2Add(c, MAXBITS - (root + c));
      SubBitsCovers(lens, k, root, max, c, Pow2(c), k, j);
      SlotIs(lens, k, root);
      SlotIs(lens, j, root);
      var p := Pow2(MAXBITS - root);
      DivPlus(StartAt(lens, k), p);
      DivMonotone(StartAt(lens, k) + p, StartAt(lens, j), p);
    }
  }

  lemma DivPlus(x: nat, p: nat)
    requires p >= 1
    ensures (x + p) / p == x / p + 1
  {
    ModUnique(x + p, p, x / p + 1, x % p);
  }
}
