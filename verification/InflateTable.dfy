/** inflate_table (libz_all/inftrees.c): the whole routine, and what looking up a code in its table yields. */
module InflateTable {
  import opened Bits
  import opened Canonical
  import opened TableSpace
  import opened SortedCodes
  import opened InfTrees

  /* ---------- checking the lengths ---------- */

  /** Longest and shortest code length; max is 0 when there are no codes. */
  method Extremes(count: array<nat>, ghost lens: seq<nat>) returns (min: nat, max: nat)
    requires count.Length == MAXBITS + 1 && LengthsOk(lens)
    requires forall b :: 0 <= b <= MAXBITS ==> count[b] == Count(lens, b)
    ensures max == 0 <==> Syms(lens) == []
    ensures max > 0 ==> Syms(lens) != [] && min == LenAt(lens, 0) && max == LenAt(lens, |Syms(lens)| - 1)
  {
    hide Count, Syms, LenAt;
    max := MAXBITS;
    while max >= 1 && count[max] == 0
      invariant 0 <= max <= MAXBITS
      invariant forall b :: max < b <= MAXBITS ==> Count(lens, b) == 0
    {
      max := max - 1;
    }
    min := 1;
    while min < max && count[min] == 0
      invariant max >= 1 ==> 1 <= min <= max
      invariant max == 0 ==> min == 1
      invariant forall b :: 1 <= b < min ==> Count(lens, b) == 0
    {
      min := min + 1;
    }
    ExtremesAre(lens, min, max);
  }

  lemma ExtremesAre(lens: seq<nat>, min: nat, max: nat)
    requires LengthsOk(lens) && max <= MAXBITS
    requires forall b :: max < b <= MAXBITS ==> Count(lens, b) == 0
    requires forall b :: 1 <= b < min ==> Count(lens, b) == 0
    requires max >= 1 ==> Count(lens, max) != 0 && 1 <= min <= max && Count(lens, min) != 0
    ensures max == 0 <==> Syms(lens) == []
    ensures max > 0 ==> Syms(lens) != [] && min == LenAt(lens, 0) && max == LenAt(lens, |Syms(lens)| - 1)
  {
    hide SortedSyms, Count;
    if Syms(lens) != [] {
      var n := |Syms(lens)|;
      RankBelowCount(lens, Syms(lens)[0]);
      RankBelowCount(lens, Syms(lens)[n - 1]);
    }
    if max > 0 {
      var s := SymbolOfRank(lens, max, 0);
      var k := IndexOf(lens, s);
      LensSorted(lens, k, |Syms(lens)| - 1);
      var t := SymbolOfRank(lens, min, 0);
      var m := IndexOf(lens, t);
      LensSorted(lens, 0, m);
    }
  }

  /** The check for over-subscribed and incomplete sets; left is what remains of the code space. */
  method CodeSpaceLeft(count: array<nat>, ghost lens: seq<nat>) returns (left: int)
    requires count.Length == MAXBITS + 1 && LengthsOk(lens)
    requires forall b :: 0 <= b <= MAXBITS ==> count[b] == Count(lens, b)
    ensures left >= 0 <==> NotOversubscribed(lens)
    ensures left == 0 <==> Complete(lens)
  {
    hide Count;
    left := 1;
    for len := 1 to MAXBITS + 1
      invariant left == Pow2(len - 1) - Used(lens, len - 1) && left >= 0
    {
      left := 2 * left;
      left := left - count[len];
      if left < 0 {
        Overfull(lens, len);
        return -1;
      }
    }
  }

  lemma Overfull(lens: seq<nat>, b: nat)
    requires 1 <= b <= MAXBITS && Used(lens, b) > Pow2(b)
    ensures Used(lens, MAXBITS) > Pow2(MAXBITS)
  {
    UsedScales(lens, b, MAXBITS);
    Pow2Add(MAXBITS - b, b);
    MulAtLeast(Pow2(MAXBITS - b), Used(lens, b) - Pow2(b));
    hide Used, Pow2;
    Spread(Pow2(MAXBITS - b), Used(lens, b), Pow2(b));
  }

  lemma Spread(p: int, x: int, y: int)
    ensures p * (x - y) == p * x - p * y
  {
  }

  /* ---------- sub-table sizes ---------- */

  method SubTableBits(count: array<nat>, len: nat, drop: nat, max: nat, ghost ls: seq<nat>) returns (curr: nat)
    requires count.Length == MAXBITS + 1 && drop < len <= max <= MAXBITS
    requires forall b :: len <= b <= max ==> count[b] == Count(ls, b)
    ensures curr == SubBits(ls, drop, max, len - drop, Pow2(len - drop))
  {
    hide Count, Pow2;
    curr := len - drop;
    var p := Power(curr);
    var left: int := p;
    ghost var r := SubBits(ls, drop, max, curr, left);
    while curr + drop < max
      invariant len - drop <= curr && curr + drop <= max
      invariant SubBits(ls, drop, max, curr, left) == r
    {
      left := left - count[curr + drop];
      if left <= 0 {
        break;
      }
      curr := curr + 1;
      left := 2 * left;
    }
  }

  /* ---------- the loop over the codes ---------- */

  /** Where the loop stands before entering code k; T is the table space from *table on. */
  datatype Place = Place(k: nat, next: nat, curr: nat, drop: nat, low: int, used: nat, opener: nat)

  ghost predicate Building(T: seq<Code>, kind: Kind, lens: seq<nat>, root: nat, p: Place)
    requires LensOk(kind, lens) && SymsOk(kind, lens)
  {
    && NotOversubscribed(lens) && p.k < |Syms(lens)| && 1 <= root <= MAXBITS
    && p.next + Pow2(p.curr) == p.used <= |T| && Pow2(root) <= p.used
    && p.used == Pow2(root) + SubSpace(lens, Syms(lens), root, LenAt(lens, |Syms(lens)| - 1), p.k)
    && (forall j :: 0 <= j < p.k ==> Placed(T, root, kind, lens, j) && Below(T, root, lens, j, p.low, p.next))
    && (if LenAt(lens, p.k) <= root then AtRoot(root, p) else InSubTable(T, lens, root, p))
  }

  ghost predicate AtRoot(root: nat, p: Place) {
    p.drop == 0 && p.curr == root && p.next == 0 && p.low == -1
  }

  ghost predicate InSubTable(T: seq<Code>, lens: seq<nat>, root: nat, p: Place)
    requires p.k < |Syms(lens)| && LenAt(lens, p.k) > root
  {
    && p.drop == root && p.low == Slot(lens, p.k, root) && 1 <= p.curr && root + p.curr <= MAXBITS
    && LenAt(lens, p.k) <= root + p.curr && Pow2(root) <= p.next && p.low < |T|
    && T[p.low] == Code(p.curr, root, p.next)
    && p.opener <= p.k && LenAt(lens, p.opener) > root && Slot(lens, p.opener, root) == p.low
    && p.curr == CurrBits(lens, Syms(lens), root, LenAt(lens, |Syms(lens)| - 1), p.opener)
  }

  /** All codes are in the table. */
  ghost predicate AllPlaced(T: seq<Code>, kind: Kind, lens: seq<nat>, root: nat)
    requires LensOk(kind, lens)
  {
    forall j :: 0 <= j < |Syms(lens)| ==> Placed(T, root, kind, lens, j)
  }

  ghost predicate FilledAt(T: seq<Code>, T': seq<Code>, kind: Kind, lens: seq<nat>, root: nat, p: Place)
    requires LensOk(kind, lens) && SymsOk(kind, lens) && p.k < |Syms(lens)|
  {
    if LenAt(lens, p.k) <= root then
      |T'| == |T| && FilledShort(T, T', root, kind, lens, p.k)
    else
      FilledLong(T, T', root, kind, lens, p.k, p.next, p.curr)
  }

  /** After filling in code k all codes up to k are placed. */
  lemma FillKeeps(T: seq<Code>, T': seq<Code>, kind: Kind, lens: seq<nat>, root: nat, p: Place)
    requires LensOk(kind, lens) && SymsOk(kind, lens) && Building(T, kind, lens, root, p)
    requires FilledAt(T, T', kind, lens, root, p)
    ensures forall j :: 0 <= j <= p.k ==> Placed(T', root, kind, lens, j)
    ensures LenAt(lens, p.k) > root ==>
      (forall j :: 0 <= j < p.k ==> Below(T', root, lens, j, p.low, p.next)) && T'[p.low] == Code(p.curr, root, p.next)
  {
    hide LensOk, SymsOk, NotOversubscribed, Syms, Placed, Below, LenAt, Slot, SubSpace, CurrBits, WordAt, Entry;
    forall j | 0 <= j <= p.k
      ensures Placed(T', root, kind, lens, j)
      ensures LenAt(lens, p.k) > root ==> (j < p.k ==> Below(T', root, lens, j, p.low, p.next)) && T'[p.low] == Code(p.curr, root, p.next)
    {
      if LenAt(lens, p.k) <= root {
        AfterFillShort(T, T', root, kind, lens, p.k, j);
      } else {
        AfterFillLong(T, T', root, kind, lens, p.k, p.next, p.curr, j);
      }
    }
  }

  /** The last code's length bounds all of them. */
  lemma LongestIsLast(lens: seq<nat>)
    requires Syms(lens) != []
    ensures forall i :: 0 <= i < |Syms(lens)| ==> LenAt(lens, i) <= LenAt(lens, |Syms(lens)| - 1)
  {
    forall i | 0 <= i < |Syms(lens)|
      ensures LenAt(lens, i) <= LenAt(lens, |Syms(lens)| - 1)
    {
      LensSorted(lens, i, |Syms(lens)| - 1);
    }
  }

  /** All codes up to place k are in the table, and the sub-tables of other slots end before next. */
  ghost predicate PlacedUpTo(T: seq<Code>, kind: Kind, lens: seq<nat>, root: nat, p: Place)
    requires LensOk(kind, lens) && p.k < |Syms(lens)|
  {
    && Pow2(root) <= |T|
    && (forall j :: 0 <= j <= p.k ==> Placed(T, root, kind, lens, j) && Below(T, root, lens, j, p.low, p.next))
    && (LenAt(lens, p.k) > root ==> 0 <= p.low < |T| && T[p.low] == Code(p.curr, root, p.next))
  }

  lemma AdvanceInTable(T: seq<Code>, T': seq<Code>, kind: Kind, lens: seq<nat>, root: nat, p: Place)
    requires LensOk(kind, lens) && SymsOk(kind, lens) && Building(T, kind, lens, root, p)
    requires |T'| == |T| && PlacedUpTo(T', kind, lens, root, p)
    requires p.k + 1 < |Syms(lens)| && !OpensSubTable(lens, Syms(lens), root, p.k + 1)
    ensures Building(T', kind, lens, root, p.(k := p.k + 1))
  {
    hide OpensSubTable, NotOversubscribed, Syms, Placed, Below, Slot, SubSpace, CurrBits, LensOk, SymsOk, LenAt, WordAt;
    var n := |Syms(lens)|;
    SubSpaceNext(lens, root, LenAt(lens, n - 1), p.k);
    LensSorted(lens, p.k, p.k + 1);
    if LenAt(lens, p.k + 1) > root {
      SameSlot(lens, root, p.k);
      LongestIsLast(lens);
      SlotWords(lens, root, p.opener, p.k + 1);
      SubTableHolds(lens, p.opener, root, LenAt(lens, n - 1), p.k + 1);
    }
  }

  lemma SubSpaceNext(lens: seq<nat>, root: nat, max: nat, k: nat)
    requires k + 1 < |Syms(lens)|
    ensures !OpensSubTable(lens, Syms(lens), root, k + 1) ==>
      SubSpace(lens, Syms(lens), root, max, k + 1) == SubSpace(lens, Syms(lens), root, max, k)
    ensures OpensSubTable(lens, Syms(lens), root, k + 1) ==>
      LenAt(lens, k + 1) > root &&
      SubSpace(lens, Syms(lens), root, max, k + 1)
      == SubSpace(lens, Syms(lens), root, max, k) + Pow2(CurrBits(lens, Syms(lens), root, max, k + 1))
  {
    hide Syms, CurrBits;
  }

  lemma SameSlot(lens: seq<nat>, root: nat, k: nat)
    requires k + 1 < |Syms(lens)| && !OpensSubTable(lens, Syms(lens), root, k + 1) && LenAt(lens, k + 1) > root
    ensures LenAt(lens, k) > root && Slot(lens, k, root) == Slot(lens, k + 1, root)
  {
  }

  lemma SlotWords(lens: seq<nat>, root: nat, j: nat, k: nat)
    requires j < |Syms(lens)| && k < |Syms(lens)| && LenAt(lens, j) >= root && LenAt(lens, k) >= root
    ensures Slot(lens, j, root) == Slot(lens, k, root) <==> WordAt(lens, j)[..root] == WordAt(lens, k)[..root]
  {
    LsbVal(WordAt(lens, j)[..root]);
    LsbVal(WordAt(lens, k)[..root]);
  }

  /** The state after opening a sub-table for code k + 1. */
  function Opened(lens: seq<nat>, root: nat, p: Place): (q: Place)
    requires p.k + 1 < |Syms(lens)| && LenAt(lens, p.k + 1) > root
  {
    var curr := CurrBits(lens, Syms(lens), root, LenAt(lens, |Syms(lens)| - 1), p.k + 1);
    Place(p.k + 1, p.next + Pow2(p.curr), curr, root, Slot(lens, p.k + 1, root), p.used + Pow2(curr), p.k + 1)
  }

  lemma AdvanceOpening(T: seq<Code>, T': seq<Code>, kind: Kind, lens: seq<nat>, root: nat, p: Place)
    requires LensOk(kind, lens) && SymsOk(kind, lens) && Building(T, kind, lens, root, p)
    requires |T'| == |T| && PlacedUpTo(T', kind, lens, root, p)
    requires p.k + 1 < |Syms(lens)| && OpensSubTable(lens, Syms(lens), root, p.k + 1)
    requires LenAt(lens, p.k + 1) > root && Opened(lens, root, p).used <= |T|
    ensures var q := Opened(lens, root, p);
            Building(T'[q.low := Code(q.curr, root, q.next)], kind, lens, root, q)
  {
    hide LensOk, SymsOk, NotOversubscribed, Syms, Placed, Below, OpensSubTable, SubSpace, CurrBits, WordAt, Entry, Slot, LenAt;
    var n, k := |Syms(lens)|, p.k + 1;
    var q := Opened(lens, root, p);
    var T'' := T'[q.low := Code(q.curr, root, q.next)];
    LongestIsLast(lens);
    SubSpaceNext(lens, root, LenAt(lens, n - 1), p.k);
    OpenedBits(lens, root, k);
    assert p.next + Pow2(p.curr) == q.next;
    forall j | 0 <= j < k
      ensures Placed(T'', root, kind, lens, j) && Below(T'', root, lens, j, q.low, q.next)
    {
      assert j <= p.k;
      AfterLink(T', root, kind, lens, k, p.low, p.next, q.next, q.curr, j);
    }
  }

  lemma OpenedBits(lens: seq<nat>, root: nat, k: nat)
    requires k < |Syms(lens)| && LenAt(lens, k) > root
    requires forall i :: 0 <= i < |Syms(lens)| ==> LenAt(lens, i) <= LenAt(lens, |Syms(lens)| - 1)
    ensures var c := CurrBits(lens, Syms(lens), root, LenAt(lens, |Syms(lens)| - 1), k);
            LenAt(lens, k) <= root + c <= MAXBITS && c >= 1
  {
    hide Syms;
    assert LenAt(lens, k) <= LenAt(lens, |Syms(lens)| - 1);
  }

  /* ---------- the routine ---------- */

  /** What the finished table is: all codes in place, and the gap of an incomplete code marked. */
  ghost predicate TableFor(T: seq<Code>, kind: Kind, lens: seq<nat>, root: nat) {
    && LensOk(kind, lens) && Accepted(kind, lens) && 1 <= root <= MAXBITS && Pow2(root) <= |T|
    && AllPlaced(T, kind, lens, root)
    && (kind == CODES ==> OneLevel(lens, root))
    && (!Complete(lens) ==>
          root == 1 && T[1] == INVALID_ENTRY && (Syms(lens) == [] ==> T[0] == INVALID_ENTRY)
          && |Syms(lens)| <= 1)
  }

  ghost predicate OneLevel(lens: seq<nat>, root: nat) {
    forall k :: 0 <= k < |Syms(lens)| ==> LenAt(lens, k) <= root
  }

  const OK: int := 0
  const INVALID_SET: int := -1
  const TOO_LARGE: int := 1

  function Budget(kind: Kind): nat {
    match kind
    case CODES => Pow2(7)
    case LENS => ENOUGH_LENS
    case DISTS => ENOUGH_DISTS
  }

  lemma SymsAreOk(kind: Kind, lens: seq<nat>)
    requires LensOk(kind, lens)
    ensures SymsOk(kind, lens) && LengthsOk(lens)
  {
    hide SortedSyms;
  }

  /** Fill the entries of code p.k: the indices that begin with it. */
  method EnterCode(kind: Kind, ghost lens: seq<nat>, codes: array<Code>, start: nat, ghost root: nat,
                   ghost p: Place, next: nat, curr: nat, drop: nat, sym: nat, len: nat, huff: nat)
    requires next == p.next && curr == p.curr && drop == p.drop
    requires LensOk(kind, lens) && SymsOk(kind, lens) && start <= codes.Length
    requires Building(codes[start..], kind, lens, root, p)
    requires sym == Syms(lens)[p.k] && len == LenAt(lens, p.k) && huff == Val(WordAt(lens, p.k))
    modifies codes
    ensures FilledAt(old(codes[start..]), codes[start..], kind, lens, root, p)
    ensures forall i :: 0 <= i < start ==> codes[i] == old(codes[i])
  {
    hide LensOk, SymsOk, NotOversubscribed, Syms, Placed, Below, SubSpace, CurrBits, WordAt, Entry, LenAt, Lsb, SymbolOk,
      FilledAt, Slot;
    SymOk(kind, lens, p.k);
    var here := Entry(kind, sym, len - drop);
    var incr := Power(len - drop);
    var size := Power(curr);
    var scale := Power(drop);
    ghost var w := WordAt(lens, p.k)[p.drop..];
    ValPrefix(WordAt(lens, p.k), p.drop);
    FillWord(codes, start + next, huff / scale, w, incr, curr, size, here);
    ghost var T, T' := old(codes[start..]), codes[start..];
    forall i | 0 <= i < Pow2(p.curr)
      ensures T'[p.next + i] == if w <= Lsb(i, p.curr) then here else T[p.next + i]
    {
      assert T'[p.next + i] == codes[start + p.next + i];
    }
    forall i | 0 <= i < |T| && !(p.next <= i < p.next + Pow2(p.curr))
      ensures T'[i] == T[i]
    {
      assert T'[i] == codes[start + i];
    }
    FilledFrom(T, T', kind, lens, root, p, w, here);
  }

  lemma FilledFrom(T: seq<Code>, T': seq<Code>, kind: Kind, lens: seq<nat>, root: nat, p: Place,
                   w: seq<bool>, here: Code)
    requires LensOk(kind, lens) && SymsOk(kind, lens) && Building(T, kind, lens, root, p) && |T'| == |T|
    requires p.drop <= LenAt(lens, p.k) && w == WordAt(lens, p.k)[p.drop..]
    requires SymbolOk(kind, Syms(lens)[p.k]) && here == Entry(kind, Syms(lens)[p.k], LenAt(lens, p.k) - p.drop)
    requires forall i :: 0 <= i < Pow2(p.curr) ==>
      T'[p.next + i] == if w <= Lsb(i, p.curr) then here else T[p.next + i]
    requires forall i :: 0 <= i < |T| && !(p.next <= i < p.next + Pow2(p.curr)) ==> T'[i] == T[i]
    ensures FilledAt(T, T', kind, lens, root, p)
  {
    hide LensOk, SymsOk, NotOversubscribed, Syms, Placed, Below, SubSpace, CurrBits, WordAt, Entry, LenAt, Lsb, SymbolOk,
      Pow2, Slot;
    if LenAt(lens, p.k) <= root {
      assert p.drop == 0 && p.next == 0 && p.curr == root;
      assert w == WordAt(lens, p.k);
      forall i | 0 <= i < Pow2(root)
        ensures T'[i] == if WordAt(lens, p.k) <= Lsb(i, root) then here else T[i]
      {
        assert T'[p.next + i] == T'[i];
      }
    }
  }

  lemma SymOk(kind: Kind, lens: seq<nat>, k: nat)
    requires SymsOk(kind, lens) && k < |Syms(lens)|
    ensures SymbolOk(kind, Syms(lens)[k])
  {
  }

  /* ---------- following count[] and huff ---------- */

  lemma {:induction false} CountSame(s: seq<nat>, v: nat, b: nat)
    requires forall i :: 0 <= i < |s| ==> s[i] == v
    ensures Count(s, b) == if b == v then |s| else 0
  {
    if s != [] {
      CountSame(s[..|s| - 1], v, b);
    }
  }

  lemma LensOfAppend(lens: seq<nat>, p: seq<nat>, q: seq<nat>)
    requires (forall i :: 0 <= i < |p| ==> p[i] < |lens|) && (forall i :: 0 <= i < |q| ==> q[i] < |lens|)
    ensures LensOf(lens, p + q) == LensOf(lens, p) + LensOf(lens, q)
  {
  }

  lemma {:induction false} CountSorted(lens: seq<nat>, c: nat, b: nat)
    requires b >= 1
    ensures Count(LensOf(lens, SortedSyms(lens, c)), b) == if b <= c then Count(lens, b) else 0
    decreases c
  {
    hide Count, SymsOfLen, SortedSyms;
    SortedUnfold(lens, c);
    if c > 0 {
      CountSorted(lens, c - 1, b);
      var p, q := SortedSyms(lens, c - 1), SymsOfLen(lens, c, |lens|);
      assert lens[..|lens|] == lens;
      LensOfAppend(lens, p, q);
      CountAppend(LensOf(lens, p), LensOf(lens, q), b);
      CountSame(LensOf(lens, q), c, b);
    } else {
      CountSame(LensOf(lens, []), 0, b);
    }
  }

  /** count[] before entering code k: how many codes of each length are still to come. */
  ghost predicate Remaining(count: seq<nat>, lens: seq<nat>, k: nat)
    requires k <= |Syms(lens)|
  {
    |count| == MAXBITS + 1 && forall b :: 1 <= b <= MAXBITS ==> count[b] == Count(LensFrom(lens, k), b)
  }

  lemma RemainingAtStart(count: seq<nat>, lens: seq<nat>)
    requires |count| == MAXBITS + 1 && forall b :: 1 <= b <= MAXBITS ==> count[b] == Count(lens, b)
    ensures Remaining(count, lens, 0)
  {
    hide Count, SortedSyms;
    forall b | 1 <= b <= MAXBITS
      ensures count[b] == Count(LensFrom(lens, 0), b)
    {
      CountSorted(lens, MAXBITS, b);
      assert LensFrom(lens, 0) == LensOf(lens, Syms(lens));
    }
  }

  lemma RemainingNext(count: seq<nat>, lens: seq<nat>, k: nat)
    requires k < |Syms(lens)| && Remaining(count, lens, k)
    ensures count[LenAt(lens, k)] >= 1
    ensures Remaining(count[LenAt(lens, k) := count[LenAt(lens, k)] - 1], lens, k + 1)
  {
    hide Syms, Count, LenAt;
    var l := LenAt(lens, k);
    assert LensFrom(lens, k) == [l] + LensFrom(lens, k + 1);
    forall b | 1 <= b <= MAXBITS
      ensures Count(LensFrom(lens, k), b) == Count(LensFrom(lens, k + 1), b) + (if b == l then 1 else 0)
    {
      CountAppend([l], LensFrom(lens, k + 1), b);
      CountSame([l], l, b);
    }
  }

  /** The length of the next code, as count[] tells it. */
  lemma NextLength(count: seq<nat>, lens: seq<nat>, k: nat)
    requires k < |Syms(lens)| && Remaining(count, lens, k + 1)
    ensures count[LenAt(lens, k)] != 0 ==> k + 1 < |Syms(lens)| && LenAt(lens, k + 1) == LenAt(lens, k)
    ensures count[LenAt(lens, k)] == 0 && LenAt(lens, k) == LenAt(lens, |Syms(lens)| - 1) ==> k + 1 == |Syms(lens)|
    ensures count[LenAt(lens, k)] == 0 && LenAt(lens, k) != LenAt(lens, |Syms(lens)| - 1) ==> k + 1 < |Syms(lens)|
  {
    hide Syms, Count;
    var l, n, f := LenAt(lens, k), |Syms(lens)|, LensFrom(lens, k + 1);
    if k + 1 < n {
      NextCode(lens, k);
      LensSorted(lens, k + 1, n - 1);
    }
    if count[l] != 0 {
      var i := SymbolOfRank(f, l, 0);
      LensSorted(lens, k, k + 1);
      LensSorted(lens, k + 1, k + 1 + i);
    } else if k + 1 < n && l == LenAt(lens, n - 1) {
      RankBelowCount(f, n - 1 - (k + 1));
    }
  }

  lemma {:induction false} MsbPad(v: nat, n: nat, d: nat)
    ensures Msb(v * Pow2(d), n + d) == Msb(v, n) + Zeros(d)
    decreases d
  {
    if d == 0 {
      assert Msb(v, n) + Zeros(0) == Msb(v, n);
    } else {
      MsbPad(v, n, d - 1);
      PadOnce(v, d);
      assert Zeros(d) == Zeros(d - 1) + [false];
    }
  }

  lemma PadOnce(v: nat, d: nat)
    requires d >= 1
    ensures v * Pow2(d) / 2 == v * Pow2(d - 1) && v * Pow2(d) % 2 == 0
  {
    assert v * Pow2(d) == 2 * (v * Pow2(d - 1));
  }

  lemma ValPad(s: seq<bool>, d: nat)
    ensures Val(s + Zeros(d)) == Val(s)
  {
    ValAppend(s, Zeros(d));
    ValZeros(d);
  }

  /** What the backwards increment of code k leaves in huff. */
  lemma HuffNext(lens: seq<nat>, k: nat, next: nat)
    requires NotOversubscribed(lens) && k < |Syms(lens)|
    requires var w := WordAt(lens, k);
             && (MsbVal(w) + 1 < Pow2(|w|) ==> next == Val(Msb(MsbVal(w) + 1, |w|)))
             && (MsbVal(w) + 1 == Pow2(|w|) ==> next == 0)
    ensures k + 1 < |Syms(lens)| ==> next == Val(WordAt(lens, k + 1))
  {
    hide Syms, CodeOf, NotOversubscribed, SortedSyms, Msb, MsbVal, Val, Pow2;
    var s, l := Syms(lens)[k], LenAt(lens, k);
    CodeFits(lens, s);
    if k + 1 < |Syms(lens)| {
      NextCode(lens, k);
      var t, d := Syms(lens)[k + 1], LenAt(lens, k + 1) - l;
      CodeFits(lens, t);
      Padded(CodeOf(lens, s) + 1, l, d, CodeOf(lens, t));
    }
  }

  /** A code of l bits extended by d zero bits: still in range only if it was, and the same number in reverse. */
  lemma Padded(v: nat, l: nat, d: nat, c: nat)
    requires c == Pow2(d) * v && c < Pow2(l + d)
    ensures v < Pow2(l) && Val(Msb(c, l + d)) == Val(Msb(v, l))
  {
    hide Pow2, Val, Msb;
    Pow2Add(d, l);
    if v >= Pow2(l) {
      MulLe(Pow2(d), Pow2(l), v);
    }
    MsbPad(v, l, d);
    ValPad(Msb(v, l), d);
    Commute(Pow2(d), v);
  }

  lemma Commute(x: nat, y: nat)
    ensures x * y == y * x
  {
  }

  /** After the last code: the space used up to its length is all the space used. */
  lemma LastCode(lens: seq<nat>)
    requires NotOversubscribed(lens) && Syms(lens) != []
    ensures var n := |Syms(lens)|; var w := WordAt(lens, n - 1);
            Complete(lens) <==> MsbVal(w) + 1 == Pow2(|w|)
  {
    hide SortedSyms, Count, Used, Pow2, MsbVal, Msb;
    var n := |Syms(lens)|;
    var s := Syms(lens)[n - 1];
    var l := lens[s];
    CodeFits(lens, s);
    LastUsed(lens);
    Pow2Add(MAXBITS - l, l);
    EqualTimes(Pow2(MAXBITS - l), Used(lens, l), Pow2(l));
  }

  /** The last code is the last one taken of its length, and nothing is taken after it. */
  lemma LastUsed(lens: seq<nat>)
    requires NotOversubscribed(lens) && Syms(lens) != []
    ensures var s := Syms(lens)[|Syms(lens)| - 1];
            && Used(lens, lens[s]) == CodeOf(lens, s) + 1
            && Used(lens, MAXBITS) == Pow2(MAXBITS - lens[s]) * Used(lens, lens[s])
  {
    hide SortedSyms, Count, Pow2;
    var l := lens[Syms(lens)[|Syms(lens)| - 1]];
    LastRank(lens);
    if l < MAXBITS {
      NoneAfter(lens, l);
      UsedOverGap(lens, l, MAXBITS + 1);
    } else {
      Pow2Zero();
    }
  }

  lemma Pow2Zero()
    ensures Pow2(0) == 1
  {
  }

  lemma EqualTimes(p: nat, x: int, y: int)
    requires p >= 1
    ensures p * x == p * y <==> x == y
  {
    if p * x == p * y {
      MulCancel(p, x, y);
      MulCancel(p, y, x);
    }
  }

  lemma NoneAfter(lens: seq<nat>, l: nat)
    requires LengthsOk(lens) && Syms(lens) != [] && l == LenAt(lens, |Syms(lens)| - 1)
    ensures forall d :: l < d ==> Count(lens, d) == 0
  {
    hide SortedSyms;
    forall d | l < d
      ensures Count(lens, d) == 0
    {
      if Count(lens, d) != 0 {
        var t := SymbolOfRank(lens, d, 0);
        var k := IndexOf(lens, t);
        LensSorted(lens, k, |Syms(lens)| - 1);
      }
    }
  }

  lemma LastRank(lens: seq<nat>)
    requires LengthsOk(lens) && Syms(lens) != []
    ensures var s := Syms(lens)[|Syms(lens)| - 1];
            Count(lens[..s], lens[s]) + 1 == Count(lens, lens[s])
  {
    hide SortedSyms;
    var n := |Syms(lens)|;
    var s := Syms(lens)[n - 1];
    RankBelowCount(lens, s);
    if Count(lens[..s], lens[s]) + 1 < Count(lens, lens[s]) {
      PlaceAt(lens, MAXBITS, n - 1);
      BlockAt(lens, lens[s], MAXBITS);
    }
  }

  lemma {:induction false} SubSpaceMonotone(lens: seq<nat>, root: nat, max: nat, i: nat, k: nat)
    requires i <= k < |Syms(lens)|
    ensures SubSpace(lens, Syms(lens), root, max, i) <= SubSpace(lens, Syms(lens), root, max, k)
    decreases k
  {
    hide Syms, CurrBits, OpensSubTable;
    if i < k {
      SubSpaceMonotone(lens, root, max, i, k - 1);
    }
  }

  /* ---------- the main loop and the whole routine ---------- */

  predicate OverBudget(kind: Kind, used: nat) {
    kind != CODES && used > Budget(kind)
  }

  lemma StartState(T: seq<Code>, kind: Kind, lens: seq<nat>, root: nat)
    requires LensOk(kind, lens) && SymsOk(kind, lens) && NotOversubscribed(lens) && Syms(lens) != []
    requires LenAt(lens, 0) <= root <= MAXBITS && Pow2(root) <= |T|
    ensures Building(T, kind, lens, root, Place(0, 0, root, 0, -1, Pow2(root), 0))
    ensures 0 == Val(WordAt(lens, 0))
  {
    hide Syms, Pow2, NotOversubscribed;
    FirstIsZero(lens);
    ZeroWord(LenAt(lens, 0));
  }

  lemma {:induction false} ZeroWord(n: nat)
    ensures Val(Msb(0, n)) == 0
  {
    if n > 0 {
      ZeroWord(n - 1);
      assert Msb(0, n) == Msb(0, n - 1) + Zeros(1);
      ValPad(Msb(0, n - 1), 1);
    }
  }

  /** huff & mask */
  function RootPart(huff: nat, root: nat): nat {
    huff % Pow2(root)
  }

  /** low is the slot of code k when that code is in a sub-table, and -1 otherwise. */
  ghost predicate LowIs(lens: seq<nat>, root: nat, k: nat, low: int) {
    && k < |Syms(lens)|
    && low == if LenAt(lens, k) <= root then -1 else Slot(lens, k, root)
  }

  lemma LowOf(T: seq<Code>, kind: Kind, lens: seq<nat>, root: nat, p: Place)
    requires LensOk(kind, lens) && SymsOk(kind, lens) && Building(T, kind, lens, root, p)
    ensures LowIs(lens, root, p.k, p.low)
  {
  }

  /** The low root bits of huff are the slot of the code; they tell whether a new sub-table begins. */
  lemma OpensWhen(lens: seq<nat>, root: nat, k: nat, low: int, huff: nat)
    requires LowIs(lens, root, k, low) && k + 1 < |Syms(lens)| && huff == Val(WordAt(lens, k + 1))
    ensures OpensSubTable(lens, Syms(lens), root, k + 1) <==> LenAt(lens, k + 1) > root && RootPart(huff, root) != low
    ensures LenAt(lens, k + 1) > root ==> RootPart(huff, root) == Slot(lens, k + 1, root)
  {
    hide SortedSyms, Codeword;
    if LenAt(lens, k + 1) > root {
      ValPrefix(WordAt(lens, k + 1), root);
      if LenAt(lens, k) > root {
        SlotWords(lens, root, k, k + 1);
      }
    }
  }

  /** Nothing but room is lost when the table for code k is filled in. */
  lemma FillDone(T: seq<Code>, T': seq<Code>, kind: Kind, lens: seq<nat>, root: nat, p: Place)
    requires LensOk(kind, lens) && SymsOk(kind, lens) && Building(T, kind, lens, root, p)
    requires FilledAt(T, T', kind, lens, root, p)
    ensures |T'| == |T| && PlacedUpTo(T', kind, lens, root, p)
  {
    hide LensOk, SymsOk, NotOversubscribed, Syms, Placed, Slot, SubSpace, CurrBits, WordAt, Entry, Pow2, LenAt;
    FillKeeps(T, T', kind, lens, root, p);
    forall j | 0 <= j <= p.k
      ensures Below(T', root, lens, j, p.low, p.next)
    {
      LensSorted(lens, j, p.k);
    }
  }

  lemma TotalSpace(kind: Kind, lens: seq<nat>, root: nat, k: nat)
    requires LensOk(kind, lens) && k < |Syms(lens)|
    requires kind == CODES ==> root == LenAt(lens, |Syms(lens)| - 1)
    ensures var max, n := LenAt(lens, |Syms(lens)| - 1), |Syms(lens)|;
            && SubSpace(lens, Syms(lens), root, max, k) <= SubSpace(lens, Syms(lens), root, max, n - 1)
            && (kind == CODES ==> SubSpace(lens, Syms(lens), root, max, n - 1) == 0)
  {
    hide Syms, CurrBits;
    var max, n := LenAt(lens, |Syms(lens)| - 1), |Syms(lens)|;
    SubSpaceMonotone(lens, root, max, k, n - 1);
    if kind == CODES {
      NoSubTables(lens, root, n - 1);
    }
  }

  lemma {:induction false} NoSubTables(lens: seq<nat>, root: nat, k: nat)
    requires k < |Syms(lens)| && root == LenAt(lens, |Syms(lens)| - 1)
    ensures SubSpace(lens, Syms(lens), root, root, k) == 0
    decreases k
  {
    hide Syms, CurrBits;
    if k > 0 {
      NoSubTables(lens, root, k - 1);
      LensSorted(lens, k, |Syms(lens)| - 1);
    }
  }

  lemma LenAtIs(lens: seq<nat>, k: nat)
    requires k < |Syms(lens)|
    ensures LenAt(lens, k) == lens[Syms(lens)[k]]
  {
  }

  lemma CurrBitsIs(lens: seq<nat>, root: nat, max: nat, k: nat)
    requires k < |Syms(lens)| && LenAt(lens, k) > root
    ensures CurrBits(lens, Syms(lens), root, max, k)
         == SubBits(LensFrom(lens, k), root, max, LenAt(lens, k) - root, Pow2(LenAt(lens, k) - root))
  {
    hide Syms, SubBits;
  }

  lemma RemainingAt(count: seq<nat>, lens: seq<nat>, k: nat)
    requires k <= |Syms(lens)| && Remaining(count, lens, k)
    ensures |count| == MAXBITS + 1 && forall b :: 1 <= b <= MAXBITS ==> count[b] == Count(LensFrom(lens, k), b)
  {
  }

  lemma {:induction false} ValZero(s: seq<bool>)
    requires Val(s) == 0
    ensures s == Zeros(|s|)
  {
    if s != [] {
      ValZero(s[1..]);
      assert s == [s[0]] + s[1..];
    }
  }

  lemma {:induction false} MsbZeros(n: nat)
    ensures MsbVal(Zeros(n)) == 0
  {
    if n > 0 {
      MsbZeros(n - 1);
      assert Zeros(n)[..n - 1] == Zeros(n - 1);
    }
  }

  /** huff is zero after the last code exactly when the code is complete. */
  lemma HuffAtEnd(lens: seq<nat>, huff: nat)
    requires NotOversubscribed(lens) && Syms(lens) != []
    requires var w := WordAt(lens, |Syms(lens)| - 1);
             && (MsbVal(w) + 1 < Pow2(|w|) ==> huff == Val(Msb(MsbVal(w) + 1, |w|)))
             && (MsbVal(w) + 1 == Pow2(|w|) ==> huff == 0)
    ensures huff == 0 <==> Complete(lens)
    ensures huff < Pow2(LenAt(lens, |Syms(lens)| - 1))
  {
    hide Syms, SortedSyms, Codeword, NotOversubscribed, Complete, Pow2, Val, Msb, MsbVal;
    var w := WordAt(lens, |Syms(lens)| - 1);
    MsbValBound(w);
    LastCode(lens);
    var m := Msb(MsbVal(w) + 1, |w|);
    ValBound(m);
    if MsbVal(w) + 1 < Pow2(|w|) && huff == 0 {
      ValZero(m);
      MsbZeros(|w|);
      MsbValMsb(MsbVal(w) + 1, |w|);
    }
  }

  /** The only incomplete codes that are let through: at most one code, of one bit. */
  lemma IncompleteIsTiny(kind: Kind, lens: seq<nat>)
    requires Accepted(kind, lens) && !Complete(lens) && Syms(lens) != []
    ensures |Syms(lens)| == 1 && LenAt(lens, 0) == 1
  {
    hide SortedSyms;
    var s := Syms(lens)[0];
    assert lens[s] == 1;
    BlockAt(lens, 1, MAXBITS);
    UsedBound(lens, 1);
    if |Syms(lens)| > 1 {
      var t := Syms(lens)[1];
      assert lens[t] == 1;
      PlaceAt(lens, MAXBITS, 1);
      PlaceAt(lens, MAXBITS, 0);
      RankBelowCount(lens, t);
      CountIsUsed(lens);
    }
  }

  lemma CountIsUsed(lens: seq<nat>)
    requires Accepted(DISTS, lens) || Accepted(CODES, lens)
    requires !Complete(lens)
    requires exists i :: 0 <= i < |lens| && lens[i] == 1
    ensures Count(lens, 1) <= 1
  {
    hide Count, Used, Pow2;
    UsedOne(lens);
    assert Pow2(MAXBITS) == 2 * Pow2(MAXBITS - 1) by { Pow2Values(); }
    if Count(lens, 1) >= 2 {
      UsedScales(lens, 1, MAXBITS);
      MulLe(Pow2(MAXBITS - 1), 2, Used(lens, 1));
    }
  }

  lemma AcceptedFits(kind: Kind, lens: seq<nat>)
    requires Accepted(kind, lens)
    ensures NotOversubscribed(lens)
  {
  }

  lemma SubSpaceNone(lens: seq<nat>, root: nat, max: nat)
    requires Syms(lens) != []
    ensures SubSpace(lens, Syms(lens), root, max, 0) == 0
  {
  }

  lemma WithinBudget(kind: Kind, root: nat, used: nat)
    requires !OverBudget(kind, used)
    requires kind == CODES ==> root <= 7 && used == Pow2(root)
    ensures used <= Budget(kind)
  {
    if kind == CODES {
      Pow2Monotone(root, 7);
    }
  }

  lemma OpenedIs(lens: seq<nat>, root: nat, p: Place)
    requires p.k + 1 < |Syms(lens)| && LenAt(lens, p.k + 1) > root
    ensures var curr := CurrBits(lens, Syms(lens), root, LenAt(lens, |Syms(lens)| - 1), p.k + 1);
            Opened(lens, root, p) == Place(p.k + 1, p.next + Pow2(p.curr), curr, root, Slot(lens, p.k + 1, root),
                                           p.used + Pow2(curr), p.k + 1)
  {
  }

  lemma UsedIs(T: seq<Code>, kind: Kind, lens: seq<nat>, root: nat, p: Place)
    requires LensOk(kind, lens) && SymsOk(kind, lens) && Building(T, kind, lens, root, p)
    ensures p.used == Pow2(root) + SubSpace(lens, Syms(lens), root, LenAt(lens, |Syms(lens)| - 1), p.k)
    ensures p.next + Pow2(p.curr) == p.used <= |T|
  {
  }

  lemma BuiltAll(T: seq<Code>, T': seq<Code>, kind: Kind, lens: seq<nat>, root: nat, p: Place)
    requires LensOk(kind, lens) && SymsOk(kind, lens) && Building(T, kind, lens, root, p)
    requires |T'| == |T| && PlacedUpTo(T', kind, lens, root, p) && p.k + 1 == |Syms(lens)|
    ensures p.used <= |T'| && AllPlaced(T'[..p.used], kind, lens, root) && Pow2(root) <= p.used
    ensures p.used == Pow2(root) + SubSpace(lens, Syms(lens), root, LenAt(lens, |Syms(lens)| - 1), |Syms(lens)| - 1)
    ensures |Syms(lens)| == 1 && LenAt(lens, 0) <= root ==> AtRoot(root, p)
  {
    hide LensOk, SymsOk, NotOversubscribed, Syms, LenAt, SubSpace, CurrBits, Placed, Slot, WordAt, Pow2;
    forall j | 0 <= j < |Syms(lens)|
      ensures Placed(T'[..p.used], root, kind, lens, j)
    {
      LensSorted(lens, j, p.k);
      PlacedTrim(T', root, kind, lens, j, p.used);
    }
  }

  /** An entry and its sub-table are not affected by what lies beyond them. */
  lemma PlacedTrim(T: seq<Code>, root: nat, kind: Kind, lens: seq<nat>, j: nat, used: nat)
    requires LensOk(kind, lens) && j < |Syms(lens)| && Placed(T, root, kind, lens, j)
    requires Pow2(root) <= used <= |T|
    requires LenAt(lens, j) > root ==> T[Slot(lens, j, root)].val + Pow2(T[Slot(lens, j, root)].op) <= used
    ensures Placed(T[..used], root, kind, lens, j)
  {
    hide LensOk, Syms, LenAt, WordAt, Pow2, Entry, Lsb, Slot;
  }

  /** The finished table, once the one possible gap has been marked. */
  lemma FinishedAt(T: seq<Code>, kind: Kind, lens: seq<nat>, root: nat, p: Place, huff: nat)
    requires LensOk(kind, lens) && Accepted(kind, lens) && Syms(lens) != [] && 1 <= root <= MAXBITS
    requires AllPlaced(T, kind, lens, root) && Pow2(root) <= |T|
    requires |Syms(lens)| == 1 && LenAt(lens, 0) <= root ==> AtRoot(root, p)
    requires |Syms(lens)| == 1 ==> root == LenAt(lens, 0)
    requires kind == CODES ==> root == LenAt(lens, |Syms(lens)| - 1)
    requires huff == 0 <==> Complete(lens)
    requires huff < Pow2(LenAt(lens, |Syms(lens)| - 1))
    ensures huff == 0 ==> TableFor(T, kind, lens, root)
    ensures huff != 0 ==>
      && huff == 1 && p.next == 0 && p.drop == 0 && LenAt(lens, 0) == 1 && |Syms(lens)| == 1 && 1 < |T|
      && TableFor(T[1 := INVALID_ENTRY], kind, lens, root)
  {
    hide Syms, Codeword, CodeOf, Accepted, Complete, LensOk, SortedSyms, Entry, Placed, LenAt;
    LongestIsLast(lens);
    if huff != 0 {
      IncompleteIsTiny(kind, lens);
      assert Pow2(1) == 2;
      OneBitZero(lens);
      TinyPlaced(T, kind, lens, root);
      var T' := T[1 := INVALID_ENTRY];
      forall j | 0 <= j < |Syms(lens)|
        ensures Placed(T', root, kind, lens, j)
      {
        assert j == 0;
      }
      assert AllPlaced(T', kind, lens, root);
      assert T'[1] == INVALID_ENTRY;
    }
  }

  lemma TinyPlaced(T: seq<Code>, kind: Kind, lens: seq<nat>, root: nat)
    requires LensOk(kind, lens) && |Syms(lens)| == 1 && LenAt(lens, 0) == 1 && root == 1 && 1 < |T|
    requires WordAt(lens, 0) == [false] && Placed(T, root, kind, lens, 0)
    ensures Placed(T[1 := INVALID_ENTRY], root, kind, lens, 0)
  {
    hide Syms, Codeword, Entry, LensOk, WordAt, LenAt;
    assert Pow2(1) == 2;
    var w := WordAt(lens, 0);
    forall i | 0 <= i < 2 && w <= Lsb(i, 1)
      ensures i == 0
    {
      assert w[0] == Lsb(i, 1)[0];
    }
  }

  lemma OneBitZero(lens: seq<nat>)
    requires Syms(lens) != [] && LenAt(lens, 0) == 1
    ensures WordAt(lens, 0) == [false]
  {
    FirstIsZero(lens);
    assert Msb(0, 1) == [false];
  }

  /** Move on to code p.k + 1, in the current table or in a new sub-table. */
  method NextPlace(kind: Kind, ghost lens: seq<nat>, codes: array<Code>, start: nat, count: array<nat>,
                   root: nat, max: nat, mask: nat, ghost T: seq<Code>, ghost p: Place, len: nat, huff: nat,
                   next: nat, curr: nat, drop: nat, low: int, used: nat)
    returns (ok: bool, next': nat, curr': nat, drop': nat, low': int, used': nat, ghost q: Place)
    requires LensOk(kind, lens) && SymsOk(kind, lens) && Building(T, kind, lens, root, p)
    requires start + Budget(kind) <= codes.Length && used <= Budget(kind)
    requires |codes[start..]| == |T| && PlacedUpTo(codes[start..], kind, lens, root, p)
    requires p.k + 1 < |Syms(lens)| && len == LenAt(lens, p.k + 1) && huff == Val(WordAt(lens, p.k + 1))
    requires max == LenAt(lens, |Syms(lens)| - 1) && mask == Pow2(root) && 1 <= root
    requires kind == CODES ==> root == max <= 7
    requires p.next == next && p.curr == curr && p.drop == drop && p.low == low && p.used == used
    requires Remaining(count[..], lens, p.k + 1)
    modifies codes
    ensures !ok ==> OverBudget(kind, Pow2(root) + SubSpace(lens, Syms(lens), root, max, |Syms(lens)| - 1))
    ensures ok ==>
      && Building(codes[start..], kind, lens, root, q) && used' <= Budget(kind) && q.k == p.k + 1
      && q.next == next' && q.curr == curr' && q.drop == drop' && q.low == low' && q.used == used'
    ensures forall i :: 0 <= i < start ==> codes[i] == old(codes[i])
  {
    hide LensOk, NotOversubscribed, SortedSyms, Syms, Placed, LenAt, WordAt, Codeword, Building, SubSpace, CurrBits,
      OpensSubTable, Remaining, Pow2, Val, PlacedUpTo, Slot, Below, SubBits, Count, SymsOk, Opened, Budget, OverBudget, LowIs;
    next', curr', drop', low', used' := next, curr, drop, low, used;
    ghost var T' := codes[start..];
    LowOf(T, kind, lens, root, p);
    OpensWhen(lens, root, p.k, low, huff);
    if len > root && huff % mask != low {
      RemainingAt(count[..], lens, p.k + 1);
      LongestIsLast(lens);
      drop' := root;
      var offset := Power(curr);
      next' := next + offset;
      curr' := SubTableBits(count, len, root, max, LensFrom(lens, p.k + 1));
      CurrBitsIs(lens, root, max, p.k + 1);
      UsedIs(T, kind, lens, root, p);
      SubSpaceNext(lens, root, max, p.k);
      TotalSpace(kind, lens, root, p.k + 1);
      var size := Power(curr');
      used' := used + size;
      q := p;
      if OverBudget(kind, used') {
        OverMore(kind, used', Pow2(root) + SubSpace(lens, Syms(lens), root, max, |Syms(lens)| - 1));
        return false, next', curr', drop', low', used', q;
      }
      WithinBudget(kind, root, used');
      OpenedIs(lens, root, p);
      low' := huff % mask;
      codes[start + low'] := Code(curr', root, next');
      AdvanceOpening(T, T', kind, lens, root, p);
      q := Opened(lens, root, p);
      assert codes[start..] == T'[low' := Code(curr', root, next')];
    } else {
      AdvanceInTable(T, T', kind, lens, root, p);
      q := p.(k := p.k + 1);
    }
    ok := true;
  }

  lemma OverMore(kind: Kind, x: nat, y: nat)
    requires OverBudget(kind, x) && x <= y
    ensures OverBudget(kind, y)
  {
  }

  lemma UsedOne(lens: seq<nat>)
    ensures Used(lens, 1) == Count(lens, 1)
  {
    assert Used(lens, 0) == 0;
  }

  method FillTable(kind: Kind, lens: seq<nat>, codes: array<Code>, start: nat, work: array<nat>, count: array<nat>,
                   root: nat, min: nat, max: nat)
    returns (ret: int, used: nat)
    requires LensOk(kind, lens) && Accepted(kind, lens) && Syms(lens) != []
    requires |Syms(lens)| <= work.Length && work[..|Syms(lens)|] == Syms(lens)
    requires min == LenAt(lens, 0) && max == LenAt(lens, |Syms(lens)| - 1) && 1 <= min <= root <= MAXBITS
    requires kind == CODES ==> root == max <= 7
    requires |Syms(lens)| == 1 ==> root == max
    requires Remaining(count[..], lens, 0) && start + Budget(kind) <= codes.Length && count != work
    modifies codes, count
    ensures ret == OK || ret == TOO_LARGE
    ensures ret == TOO_LARGE <==>
      OverBudget(kind, Pow2(root) + SubSpace(lens, Syms(lens), root, max, |Syms(lens)| - 1))
    ensures ret == OK ==>
      && used == Pow2(root) + SubSpace(lens, Syms(lens), root, max, |Syms(lens)| - 1) <= Budget(kind)
      && TableFor(codes[start..start + used], kind, lens, root)
    ensures forall i :: 0 <= i < start ==> codes[i] == old(codes[i])
  {
    hide LensOk, NotOversubscribed, Complete, SortedSyms, Syms, Placed, LenAt, WordAt, Codeword, Building, SubSpace, CurrBits, FilledAt,
      OpensSubTable, Remaining, Pow2, Val, MsbVal, Msb, PlacedUpTo, Slot, Below, Accepted, SubBits, Count, TableFor, SymsOk, Opened, Budget,
      OverBudget, AllPlaced;
    SymsAreOk(kind, lens);
    AcceptedFits(kind, lens);
    ghost var n := |Syms(lens)|;
    used := Power(root);
    TotalSpace(kind, lens, root, 0);
    SubSpaceNone(lens, root, max);
    if OverBudget(kind, used) {
      OverMore(kind, used, Pow2(root) + SubSpace(lens, Syms(lens), root, max, n - 1));
      return TOO_LARGE, used;
    }
    WithinBudget(kind, root, used);
    var k, next, curr, drop, len, mask := 0, 0, root, 0, min, used;
    var low: int := -1;
    var huff := 0;
    ghost var p := Place(0, 0, root, 0, -1, used, 0);
    StartState(codes[start..], kind, lens, root);
    while true
      invariant k < n && used <= Budget(kind)
      invariant Remaining(count[..], lens, k) && work[..n] == Syms(lens)
      invariant p.k == k && p.next == next && p.curr == curr && p.drop == drop && p.low == low && p.used == used
      invariant Building(codes[start..], kind, lens, root, p)
      invariant len == LenAt(lens, k) && huff == Val(WordAt(lens, k))
      invariant forall i :: 0 <= i < start ==> codes[i] == old(codes[i])
      decreases n - k
    {
      assert work[k] == work[..n][k];
      ghost var T := codes[start..];
      EnterCode(kind, lens, codes, start, root, p, next, curr, drop, work[k], len, huff);
      FillDone(T, codes[start..], kind, lens, root, p);
      huff := NextHuff(huff, len, WordAt(lens, k));
      HuffNext(lens, k, huff);
      RemainingNext(count[..], lens, k);
      RemainingAt(count[..], lens, k);
      ghost var c := count[..];
      count[len] := count[len] - 1;
      assert count[..] == c[len := c[len] - 1];
      NextLength(count[..], lens, k);
      if count[len] == 0 {
        if len == max {
          HuffAtEnd(lens, huff);
          BuiltAll(T, codes[start..], kind, lens, root, p);
          break;
        }
        assert work[k + 1] == work[..n][k + 1];
        LenAtIs(lens, k + 1);
        len := lens[work[k + 1]];
      }
      k := k + 1;
      var ok;
      ok, next, curr, drop, low, used, p :=
        NextPlace(kind, lens, codes, start, count, root, max, mask, T, p, len, huff, next, curr, drop, low, used);
      if !ok {
        return TOO_LARGE, used;
      }
    }
    ghost var T' := codes[start..][..used];
    FinishedAt(T', kind, lens, root, p, huff);
    NotOver(kind, used);
    if huff != 0 {
      codes[start + next + huff] := Code(64, len - drop, 0);
      assert codes[start..start + used] == T'[1 := INVALID_ENTRY];
    }
    assert huff == 0 ==> codes[start..start + used] == T';
    ret := OK;
  }

  lemma NotOver(kind: Kind, used: nat)
    requires used <= Budget(kind)
    ensures !OverBudget(kind, used)
  {
  }

  /**
   inflate_table: build the decoding table for the code with the given lengths at codes[start..].
   -1 is returned exactly for over-subscribed and disallowed incomplete sets, 1 exactly when the
   table would outgrow its budget; otherwise every code is in the table.
   */
  method InflateTable(kind: Kind, lens: seq<nat>, codes: array<Code>, start: nat, bits: nat, work: array<nat>)
    returns (ret: int, used: nat, root: nat)
    requires LensOk(kind, lens) && |lens| <= work.Length && 1 <= bits <= MAXBITS
    requires kind == CODES ==> bits == 7
    requires start + Budget(kind) <= codes.Length
    modifies codes, work
    ensures ret == OK || ret == INVALID_SET || ret == TOO_LARGE
    ensures ret == INVALID_SET <==> !Accepted(kind, lens)
    ensures ret == TOO_LARGE <==> Accepted(kind, lens) && !Fits(kind, lens, bits)
    ensures ret == OK ==>
      && used == TableSize(lens, bits) <= Budget(kind)
      && TableFor(codes[start..start + used], kind, lens, root)
      && root == (if Syms(lens) == [] then 1 else RootBits(lens, Syms(lens), bits))
    ensures forall i :: 0 <= i < start ==> codes[i] == old(codes[i])
  {
    hide NotOversubscribed, Complete, SortedSyms, LenAt, SubSpace, Pow2, Used, Count, Placed, RootBits;
    SymsAreOk(kind, lens);
    var count := CountLengths(lens);
    var min, max := Extremes(count, lens);
    root := bits;
    if root > max {
      root := max;
    }
    if max == 0 {
      NoCodes(kind, lens);
      codes[start] := INVALID_ENTRY;
      codes[start + 1] := INVALID_ENTRY;
      EmptyTable(codes[start..start + 2], kind, lens);
      return OK, 2, 1;
    }
    if root < min {
      root := min;
    }
    var left := CodeSpaceLeft(count, lens);
    if left < 0 {
      OversubscribedRejected(kind, lens);
      return INVALID_SET, 0, root;
    }
    WhenAccepted(kind, lens, max);
    if left > 0 && (kind == CODES || max != 1) {
      return INVALID_SET, 0, root;
    }
    SymsFit(lens);
    SortSymbols(lens, count, work);
    RemainingAtStart(count[..], lens);
    SizeIs(kind, lens, bits, root);
    ret, used := FillTable(kind, lens, codes, start, work, count, root, min, max);
  }

  lemma NoCodes(kind: Kind, lens: seq<nat>)
    requires LensOk(kind, lens) && Syms(lens) == []
    ensures Accepted(kind, lens) && !Complete(lens)
    ensures forall bits :: Fits(kind, lens, bits) && TableSize(lens, bits) == 2
    ensures 2 <= Budget(kind)
  {
    hide SortedSyms, Used;
    SymsAreOk(kind, lens);
    NoneBefore(lens, MAXBITS);
    Pow2Values();
    if i :| 0 <= i < |lens| && lens[i] != 0 {
      var k := IndexOf(lens, i);
    }
  }

  lemma EmptyTable(T: seq<Code>, kind: Kind, lens: seq<nat>)
    requires LensOk(kind, lens) && Syms(lens) == [] && Accepted(kind, lens)
    requires 2 <= |T| && T[0] == INVALID_ENTRY && T[1] == INVALID_ENTRY
    ensures TableFor(T, kind, lens, 1)
  {
    hide SortedSyms, Accepted, Complete, LensOk;
    assert Pow2(1) == 2;
  }

  lemma OversubscribedRejected(kind: Kind, lens: seq<nat>)
    requires !NotOversubscribed(lens)
    ensures !Accepted(kind, lens)
  {
  }

  lemma WhenAccepted(kind: Kind, lens: seq<nat>, max: nat)
    requires LengthsOk(lens) && NotOversubscribed(lens) && Syms(lens) != [] && max == LenAt(lens, |Syms(lens)| - 1)
    ensures Accepted(kind, lens) <==> Complete(lens) || (kind != CODES && max == 1)
  {
    hide SortedSyms, Used, Complete;
    var s := Syms(lens)[|Syms(lens)| - 1];
    assert lens[s] == max >= 1;
    if max == 1 {
      forall i | 0 <= i < |lens|
        ensures lens[i] <= 1
      {
        if lens[i] >= 1 {
          var k := IndexOf(lens, i);
          LensSorted(lens, k, |Syms(lens)| - 1);
        }
      }
    }
  }

  /** How many symbols have a length from 1 to b. */
  function CountUpTo(lens: seq<nat>, b: nat): (c: nat)
    ensures c <= |lens|
  {
    if lens == [] then 0
    else CountUpTo(lens[..|lens| - 1], b) + (if 1 <= lens[|lens| - 1] <= b then 1 else 0)
  }

  lemma {:induction false} CountUpToStep(lens: seq<nat>, b: nat)
    requires b >= 1
    ensures CountUpTo(lens, b) == CountUpTo(lens, b - 1) + Count(lens, b)
    ensures b == 1 ==> CountUpTo(lens, 0) == 0
    decreases |lens|
  {
    if lens != [] {
      CountUpToStep(lens[..|lens| - 1], b);
    }
  }

  lemma {:induction false} SortedCount(lens: seq<nat>, b: nat)
    ensures |SortedSyms(lens, b)| == CountUpTo(lens, b)
    decreases b
  {
    hide CountUpTo, Count, SymsOfLen;
    if b == 0 {
      CountUpToStep(lens, 1);
    } else {
      SortedCount(lens, b - 1);
      CountUpToStep(lens, b);
      assert lens[..|lens|] == lens;
      assert |SortedSyms(lens, b)| == |SortedSyms(lens, b - 1)| + |SymsOfLen(lens, b, |lens|)|;
    }
  }

  lemma SymsFit(lens: seq<nat>)
    ensures |Syms(lens)| <= |lens|
  {
    hide SortedSyms, CountUpTo;
    SortedCount(lens, MAXBITS);
  }

  lemma SizeIs(kind: Kind, lens: seq<nat>, bits: nat, root: nat)
    requires Syms(lens) != [] && LensOk(kind, lens) && 1 <= bits <= MAXBITS && (kind == CODES ==> bits == 7)
    requires var min, max := LenAt(lens, 0), LenAt(lens, |Syms(lens)| - 1);
             var r := if bits > max then max else bits;
             root == if r < min then min else r
    ensures var n, max := |Syms(lens)|, LenAt(lens, |Syms(lens)| - 1);
            && TableSize(lens, bits) == Pow2(root) + SubSpace(lens, Syms(lens), root, max, n - 1)
            && (Fits(kind, lens, bits) <==> !OverBudget(kind, TableSize(lens, bits)))
            && LenAt(lens, 0) <= root == RootBits(lens, Syms(lens), bits) <= MAXBITS
            && (kind == CODES ==> root == max <= 7)
            && (n == 1 ==> root == max)
  {
    hide SortedSyms, SubSpace, Pow2;
    LensSorted(lens, 0, |Syms(lens)| - 1);
    var s := Syms(lens)[|Syms(lens)| - 1];
    assert lens[s] == LenAt(lens, |Syms(lens)| - 1);
  }
}
