/** inflate_table: building the two-level decoding tables (inftrees.c). */
module InfTrees {
  import opened Bits
  import opened Canonical
  import opened Alphabet
  import opened TableSpace
  import opened SortedCodes

  /**
   A table entry.  op 0 is a literal, 1..15 a link to a sub-table with that many index bits,
   16 + e a base value with e extra bits, 96 the end of a block, 64 and up an invalid code.
   */
  datatype Code = Code(op: nat, bits: nat, val: nat)

  predicate IsLink(c: Code) {
    1 <= c.op <= 15
  }

  const INVALID_ENTRY: Code := Code(64, 1, 0)

  predicate SymbolOk(kind: Kind, s: nat) {
    match kind
    case CODES => s < 19
    case LENS => s < 288
    case DISTS => s < 32
  }

  /** What is stored for a symbol, in an entry that consumes the given number of bits. */
  function Entry(kind: Kind, s: nat, bits: nat): (c: Code)
    requires SymbolOk(kind, s)
    ensures c.bits == bits
  {
    hide LExt, LBase, DExt, DBase;
    match kind
    case CODES => Code(0, bits, s)
    case LENS =>
      if s < END_BLOCK then Code(0, bits, s)
      else if s > END_BLOCK then Code(LExt()[s - 257], bits, LBase()[s - 257])
      else Code(96, bits, 0)
    case DISTS => Code(DExt()[s], bits, DBase()[s])
  }

  lemma EntryNotLink(kind: Kind, s: nat, bits: nat)
    requires SymbolOk(kind, s)
    ensures !IsLink(Entry(kind, s, bits))
  {
    match kind
    case CODES =>
    case LENS => if s > END_BLOCK { LengthExtraKinds(s - 257); }
    case DISTS => DistExtraKinds(s);
  }

  lemma LengthExtraKinds(c: nat)
    requires c < 31
    ensures c < 29 ==> 16 <= LExt()[c] <= 21
    ensures c >= 29 ==> LExt()[c] == 72 || LExt()[c] == 78
  {
  }

  lemma DistExtraKinds(c: nat)
    requires c < 32
    ensures c < 30 ==> 16 <= DExt()[c] <= 29
    ensures c >= 30 ==> DExt()[c] == 64
  {
  }

  predicate LensOk(kind: Kind, lens: seq<nat>) {
    && LengthsOkFor(kind, lens)
    && |lens| <= (match kind case CODES => 19 case LENS => 288 case DISTS => 32)
  }

  predicate LengthsOkFor(kind: Kind, lens: seq<nat>) {
    forall i :: 0 <= i < |lens| ==> lens[i] <= (if kind == CODES then 7 else MAXBITS)
  }

  /* ---------- what a table must contain ---------- */

  ghost predicate PlacedShort(T: seq<Code>, root: nat, kind: Kind, lens: seq<nat>, k: nat)
    requires LensOk(kind, lens) && k < |Syms(lens)| && LenAt(lens, k) <= root
  {
    && Pow2(root) <= |T|
    && forall i :: 0 <= i < Pow2(root) && WordAt(lens, k) <= Lsb(i, root) ==>
         T[i] == Entry(kind, Syms(lens)[k], LenAt(lens, k))
  }

  function Slot(lens: seq<nat>, k: nat, root: nat): (s: nat)
    requires k < |Syms(lens)| && LenAt(lens, k) >= root
    ensures s < Pow2(root)
  {
    ValBound(WordAt(lens, k)[..root]);
    Val(WordAt(lens, k)[..root])
  }

  /** A link at the code's slot to a sub-table with the rest of the code in it. */
  ghost predicate PlacedLong(T: seq<Code>, root: nat, kind: Kind, lens: seq<nat>, k: nat)
    requires LensOk(kind, lens) && k < |Syms(lens)| && LenAt(lens, k) > root
  {
    && Pow2(root) <= |T|
    && var e := T[Slot(lens, k, root)];
       && IsLink(e) && e.bits == root && root + e.op <= MAXBITS
       && LenAt(lens, k) <= root + e.op
       && Pow2(root) <= e.val && e.val + Pow2(e.op) <= |T|
       && forall i :: 0 <= i < Pow2(e.op) && WordAt(lens, k)[root..] <= Lsb(i, e.op) ==>
            T[e.val + i] == Entry(kind, Syms(lens)[k], LenAt(lens, k) - root)
  }

  ghost predicate Placed(T: seq<Code>, root: nat, kind: Kind, lens: seq<nat>, k: nat)
    requires LensOk(kind, lens) && k < |Syms(lens)|
  {
    if LenAt(lens, k) <= root then PlacedShort(T, root, kind, lens, k)
    else PlacedLong(T, root, kind, lens, k)
  }

  /** Sub-tables of earlier slots end before next. */
  ghost predicate Below(T: seq<Code>, root: nat, lens: seq<nat>, k: nat, low: int, next: nat)
    requires k < |Syms(lens)| && Pow2(root) <= |T|
  {
    LenAt(lens, k) > root && Slot(lens, k, root) != low ==>
      T[Slot(lens, k, root)].val + Pow2(T[Slot(lens, k, root)].op) <= next
  }

  /* ---------- filling entries ---------- */

  /** Index i of a table of codes falls into residue class r modulo d. */
  predicate Hit(i: int, base: int, d: int, r: int)
    requires d > 0
  {
    (i - base) % d == r
  }

  /** Store here in every incr-th entry of the table of the given size at base, from first on. */
  method FillEntries(codes: array<Code>, base: nat, first: nat, incr: nat, size: nat, here: Code)
    requires incr >= 1 && first < incr <= size && size % incr == 0 && base + size <= codes.Length
    modifies codes
    ensures forall i :: base <= i < base + size ==>
      codes[i] == if Hit(i, base, incr, first) then here else old(codes[i])
    ensures forall i :: (0 <= i < base || base + size <= i < codes.Length) ==> codes[i] == old(codes[i])
  {
    hide Hit;
    var fill := size;
    while fill != 0
      invariant 0 <= fill <= size && fill % incr == 0
      invariant forall i :: base <= i < base + size ==>
        codes[i] == if Hit(i, base, incr, first) && i >= base + fill then here else old(codes[i])
      invariant forall i :: (0 <= i < base || base + size <= i < codes.Length) ==> codes[i] == old(codes[i])
    {
      PreviousMultiple(fill, incr);
      ghost var was := fill;
      fill := fill - incr;
      var at := base + fill + first;
      forall i
        ensures i == at ==> Hit(i, base, incr, first)
        ensures Hit(i, base, incr, first) && base + fill <= i < base + was ==> i == at
      {
        NextHit(i, base, fill, incr, first);
      }
      codes[at] := here;
    }
  }

  lemma PreviousMultiple(x: nat, d: nat)
    requires d >= 1 && x > 0 && x % d == 0
    ensures x >= d && (x - d) % d == 0
  {
    var q := x / d;
    assert x == d * q;
    if q <= 0 { MulLe(d, q, 0); }
    MulAtLeast(d, q);
    ModUnique(x - d, d, q - 1, 0);
  }

  /** Class r is hit exactly once from a multiple m of d up to the next one, at m + r. */
  lemma NextHit(i: int, base: int, m: nat, d: nat, r: nat)
    requires d >= 1 && r < d && m % d == 0
    ensures i == base + m + r ==> Hit(i, base, d, r)
    ensures Hit(i, base, d, r) && base + m <= i < base + m + d ==> i == base + m + r
  {
    var q := m / d;
    assert m == d * q;
    ModUnique(m + r, d, q, r);
    if base + m <= i < base + m + d {
      ModUnique(i - base, d, q, i - base - m);
    }
  }

  /** Same, in terms of the bits of the index. */
  method FillWord(codes: array<Code>, base: nat, first: nat, ghost w: seq<bool>, incr: nat, curr: nat, size: nat, here: Code)
    requires |w| <= curr && first == Val(w) && incr == Pow2(|w|) && size == Pow2(curr)
    requires base + size <= codes.Length
    modifies codes
    ensures forall i :: 0 <= i < Pow2(curr) ==>
      codes[base + i] == if w <= Lsb(i, curr) then here else old(codes[base + i])
    ensures forall i :: (0 <= i < base || base + Pow2(curr) <= i < codes.Length) ==> codes[i] == old(codes[i])
  {
    ValBound(w);
    Pow2Add(|w|, curr - |w|);
    Pow2Monotone(|w|, curr);
    ModUnique(size, incr, Pow2(curr - |w|), 0);
    FillEntries(codes, base, first, incr, size, here);
    forall i | 0 <= i < size
      ensures codes[base + i] == if w <= Lsb(i, curr) then here else old(codes[base + i])
    {
      PrefixIsCongruence(w, i, curr);
      assert Hit(base + i, base, incr, first) <==> w <= Lsb(i, curr);
    }
  }

  /* ---------- stepping to the next code ---------- */

  predicate AllOnes(s: seq<bool>) {
    forall i :: 0 <= i < |s| ==> s[i]
  }

  lemma {:induction false} AllOnesMsb(s: seq<bool>)
    requires AllOnes(s)
    ensures MsbVal(s) + 1 == Pow2(|s|)
  {
    if s != [] {
      AllOnesMsb(s[..|s| - 1]);
    }
  }

  /** Flipping u01..1 to u10..0 adds one. */
  lemma {:induction false} FlipTail(s: seq<bool>, p: nat)
    requires p < |s| && !s[p] && AllOnes(s[p + 1..])
    ensures MsbVal(s) + 1 == MsbVal(s[..p] + [true] + Zeros(|s| - p - 1))
    decreases |s|
  {
    var n := |s| - 1;
    var t := s[..p] + [true] + Zeros(n - p);
    if p == n {
      assert t[..n] == s[..n];
    } else {
      assert s[p + 1..][n - p - 1];
      assert s[..n][p + 1..] == s[p + 1..][..n - p - 1];
      assert s[..n][..p] == s[..p];
      FlipTail(s[..n], p);
      assert t[..n] == s[..p] + [true] + Zeros(n - 1 - p);
    }
  }

  lemma {:induction false} ValZeros(n: nat)
    ensures Val(Zeros(n)) == 0
  {
    if n > 0 {
      ValZeros(n - 1);
      assert Zeros(n)[1..] == Zeros(n - 1);
    }
  }

  /** huff & incr, for a one-bit mask */
  predicate TestBit(huff: nat, incr: nat) {
    incr != 0 && (huff / incr) % 2 == 1
  }

  /** huff & (incr - 1) */
  function LowBits(huff: nat, incr: nat): nat
    requires incr != 0
  {
    huff % incr
  }

  lemma ValBit(w: seq<bool>, i: nat)
    requires i < |w|
    ensures TestBit(Val(w), Pow2(i)) == w[i]
    ensures LowBits(Val(w), Pow2(i)) == Val(w[..i])
  {
    ValPrefix(w, i);
    ValLowBit(w[i..]);
  }

  lemma ValLowBit(s: seq<bool>)
    requires s != []
    ensures Val(s) % 2 == Bit(s[0])
  {
  }

  /** Position p is the last zero of w, and incr its weight; p is -1 and incr 0 when there is none. */
  ghost predicate LastZeroAt(w: seq<bool>, p: int, incr: nat) {
    && -1 <= p < |w| && AllOnes(w[p + 1..])
    && if p == -1 then incr == 0 else incr == Pow2(p)
  }

  method LastZero(huff: nat, len: nat, ghost w: seq<bool>) returns (incr: nat, ghost p: int)
    requires 1 <= len && |w| == len && huff == Val(w)
    ensures LastZeroAt(w, p, incr) && (p >= 0 ==> !w[p])
  {
    hide Val, Pow2, TestBit, AllOnes;
    incr := Power(len - 1);
    p := len - 1;
    NoOnes(w);
    while incr != 0 && TestBit(huff, incr)
      invariant LastZeroAt(w, p, incr)
      decreases p
    {
      ValBit(w, p);
      OneMore(w, p);
      Pow2Half(p);
      incr := incr / 2;
      p := p - 1;
    }
    if p >= 0 {
      ValBit(w, p);
    }
  }

  /** The code after the one with bits w, its bits held in reverse; zero after the last one. */
  ghost function NextWord(w: seq<bool>): nat {
    if MsbVal(w) + 1 < Pow2(|w|) then Val(Msb(MsbVal(w) + 1, |w|)) else 0
  }

  /** Clearing the ones below the last zero and setting it adds one to the code. */
  method Increment(huff: nat, incr: nat, ghost w: seq<bool>, ghost p: int) returns (next: nat)
    requires huff == Val(w) && LastZeroAt(w, p, incr) && incr != 0 && !w[p]
    ensures next == NextWord(w)
  {
    hide Val, MsbVal, Msb, Pow2, LowBits, AllOnes;
    ValBit(w, p);
    FlipValue(w, p);
    next := LowBits(huff, incr) + incr;
  }

  lemma LastWord(w: seq<bool>, p: int)
    requires LastZeroAt(w, p, 0)
    ensures NextWord(w) == 0
  {
    assert w[p + 1..] == w;
    AllOnesMsb(w);
  }

  /** The backwards increment: add one to a code whose bits are held in reverse. */
  method NextHuff(huff: nat, len: nat, ghost w: seq<bool>) returns (next: nat)
    requires 1 <= len && |w| == len && huff == Val(w)
    ensures next == NextWord(w)
  {
    hide NextWord, Val, AllOnes, Pow2;
    var incr; ghost var p;
    incr, p := LastZero(huff, len, w);
    if incr != 0 {
      next := Increment(huff, incr, w, p);
    } else {
      LastWord(w, p);
      next := 0;
    }
  }

  lemma NoOnes(w: seq<bool>)
    ensures AllOnes(w[|w|..])
  {
  }

  lemma OneMore(w: seq<bool>, p: nat)
    requires p < |w| && w[p] && AllOnes(w[p + 1..])
    ensures AllOnes(w[p..])
  {
    assert w[p..] == [w[p]] + w[p + 1..];
  }

  lemma Pow2Half(p: nat)
    ensures Pow2(p) / 2 == if p == 0 then 0 else Pow2(p - 1)
  {
  }

  lemma FlipValue(w: seq<bool>, p: nat)
    requires p < |w| && !w[p] && AllOnes(w[p + 1..])
    ensures MsbVal(w) + 1 < Pow2(|w|)
    ensures Val(w[..p]) + Pow2(p) == Val(Msb(MsbVal(w) + 1, |w|))
  {
    hide Pow2, Msb, MsbVal, Val;
    var u, z := w[..p], Zeros(|w| - p - 1);
    var t := u + [true] + z;
    FlipTail(w, p);
    MsbValBound(t);
    MsbMsbVal(t);
    assert t == u + ([true] + z);
    ValAppend(u, [true] + z);
    ValOne(z, |w| - p - 1);
    TimesOne(Pow2(p), Val([true] + z));
  }

  lemma TimesOne(p: nat, x: nat)
    requires x == 1
    ensures p * x == p
  {
  }

  lemma ValOne(z: seq<bool>, n: nat)
    requires z == Zeros(n)
    ensures Val([true] + z) == 1
  {
    ValZeros(n);
    assert ([true] + z)[1..] == z;
  }

  /** 1 << n */
  method Power(n: nat) returns (p: nat)
    ensures p == Pow2(n)
  {
    p := 1;
    for i := 0 to n
      invariant p == Pow2(i)
    {
      p := 2 * p;
    }
  }

  /* ---------- counting and sorting ---------- */

  method CountLengths(lens: seq<nat>) returns (count: array<nat>)
    requires forall i :: 0 <= i < |lens| ==> lens[i] <= MAXBITS
    ensures fresh(count) && count.Length == MAXBITS + 1
    ensures forall b :: 0 <= b <= MAXBITS ==> count[b] == Count(lens, b)
  {
    count := new nat[MAXBITS + 1](_ => 0);
    for sym := 0 to |lens|
      invariant forall b :: 0 <= b <= MAXBITS ==> count[b] == Count(lens[..sym], b)
    {
      assert lens[..sym + 1][..sym] == lens[..sym];
      count[lens[sym]] := count[lens[sym]] + 1;
    }
    assert lens[..|lens|] == lens;
  }

  /** Which symbols of each length have been entered when the first n have been looked at. */
  ghost predicate Sorting(work: seq<nat>, lens: seq<nat>, n: nat)
    requires n <= |lens|
  {
    forall b :: 1 <= b <= MAXBITS ==>
      && Base(lens, b) + Count(lens[..n], b) <= |work|
      && work[Base(lens, b)..Base(lens, b) + Count(lens[..n], b)] == SymsOfLen(lens, b, n)
  }

  lemma JoinSlices<T>(s: seq<T>, p: seq<T>, q: seq<T>)
    requires |p| + |q| <= |s| && s[..|p|] == p && s[|p|..|p| + |q|] == q
    ensures s[..|p + q|] == p + q
  {
    assert s[..|p| + |q|] == s[..|p|] + s[|p|..|p| + |q|];
  }

  lemma {:induction false} SortedFrom(work: seq<nat>, lens: seq<nat>, b: nat)
    requires b <= MAXBITS && Sorting(work, lens, |lens|)
    ensures |SortedSyms(lens, b)| <= |work| && work[..|SortedSyms(lens, b)|] == SortedSyms(lens, b)
    decreases b
  {
    hide SymsOfLen, Count, Sorting, SortedSyms;
    SortedUnfold(lens, b);
    if b > 0 {
      SortedFrom(work, lens, b - 1);
      BlockSorted(work, lens, b);
      JoinSlices(work, SortedSyms(lens, b - 1), SymsOfLen(lens, b, |lens|));
    }
  }

  lemma SortedUnfold(lens: seq<nat>, b: nat)
    ensures SortedSyms(lens, b) == if b == 0 then [] else SortedSyms(lens, b - 1) + SymsOfLen(lens, b, |lens|)
  {
  }

  lemma BlockSorted(work: seq<nat>, lens: seq<nat>, b: nat)
    requires 1 <= b <= MAXBITS && Sorting(work, lens, |lens|)
    ensures Base(lens, b) + |SymsOfLen(lens, b, |lens|)| <= |work|
    ensures work[Base(lens, b)..Base(lens, b) + |SymsOfLen(lens, b, |lens|)|] == SymsOfLen(lens, b, |lens|)
  {
    hide SymsOfLen, SortedSyms, Count;
  }

  /** Counting sort of the symbols by length. */
  method SortSymbols(lens: seq<nat>, count: array<nat>, work: array<nat>)
    requires forall i :: 0 <= i < |lens| ==> lens[i] <= MAXBITS
    requires count.Length == MAXBITS + 1 && count != work
    requires forall b :: 1 <= b <= MAXBITS ==> count[b] == Count(lens, b)
    requires |Syms(lens)| <= work.Length
    modifies work
    ensures work[..|Syms(lens)|] == Syms(lens)
  {
    hide SymsOfLen, SortedSyms, Sorting, Base, Count, Syms;
    var offs := new nat[MAXBITS + 1](_ => 0);
    BaseOne(lens);
    offs[1] := 0;
    for len := 1 to MAXBITS
      invariant forall b :: 1 <= b <= len ==> offs[b] == Base(lens, b)
    {
      offs[len + 1] := offs[len] + count[len];
      BaseNext(lens, len);
    }
    SortingNone(work[..], lens);
    assert lens[..0] == [];
    CountOfNone();
    for sym := 0 to |lens|
      invariant forall b :: 1 <= b <= MAXBITS ==> offs[b] == Base(lens, b) + Count(lens[..sym], b)
      invariant Sorting(work[..], lens, sym)
    {
      if lens[sym] != 0 {
        var at := offs[lens[sym]];
        Room(lens, sym);
        ghost var was := work[..];
        work[at] := sym;
        assert work[..] == was[at := sym];
        SortingStep(was, lens, sym);
        offs[lens[sym]] := at + 1;
        RankStep(lens, sym);
      } else {
        SortingSkip(work[..], lens, sym);
        RankStep(lens, sym);
      }
    }
    Sorted(work[..], lens);
    assert work[..][..|Syms(lens)|] == work[..|Syms(lens)|];
  }

  lemma CountOfNone()
    ensures forall b :: Count([], b) == 0
  {
  }

  lemma Sorted(work: seq<nat>, lens: seq<nat>)
    requires Sorting(work, lens, |lens|)
    ensures |Syms(lens)| <= |work| && work[..|Syms(lens)|] == Syms(lens)
  {
    SortedFrom(work, lens, MAXBITS);
  }

  lemma BaseOne(lens: seq<nat>)
    ensures Base(lens, 1) == 0
  {
  }

  lemma BaseNext(lens: seq<nat>, b: nat)
    requires b >= 1
    ensures Base(lens, b + 1) == Base(lens, b) + Count(lens, b)
  {
    assert lens[..|lens|] == lens;
  }

  lemma SortingNone(work: seq<nat>, lens: seq<nat>)
    requires |Syms(lens)| <= |work|
    ensures Sorting(work, lens, 0)
  {
    forall b | 1 <= b <= MAXBITS
      ensures Base(lens, b) <= |work|
    {
      BlockAt(lens, b, MAXBITS);
    }
  }

  /** The place reserved for a symbol exists and lies in its own block. */
  lemma Room(lens: seq<nat>, s: nat)
    requires s < |lens| && 1 <= lens[s] <= MAXBITS
    ensures Base(lens, lens[s]) + Count(lens[..s], lens[s]) < |Syms(lens)|
  {
    BlockAt(lens, lens[s], MAXBITS);
    RankBelowCount(lens, s);
  }

  lemma RankStep(lens: seq<nat>, s: nat)
    requires s < |lens|
    ensures forall b :: Count(lens[..s + 1], b) == Count(lens[..s], b) + (if lens[s] == b then 1 else 0)
  {
    assert lens[..s + 1][..s] == lens[..s];
  }

  lemma SortingStep(work: seq<nat>, lens: seq<nat>, s: nat)
    requires s < |lens| && 1 <= lens[s] <= MAXBITS && Sorting(work, lens, s)
    requires |Syms(lens)| <= |work|
    ensures Base(lens, lens[s]) + Count(lens[..s], lens[s]) < |work|
    ensures Sorting(work[Base(lens, lens[s]) + Count(lens[..s], lens[s]) := s], lens, s + 1)
  {
    hide SortedSyms, Count;
    var c := lens[s];
    var at := Base(lens, c) + Count(lens[..s], c);
    Room(lens, s);
    var w := work[at := s];
    RankStep(lens, s);
    forall b | 1 <= b <= MAXBITS
      ensures Base(lens, b) + Count(lens[..s + 1], b) <= |w|
      ensures w[Base(lens, b)..Base(lens, b) + Count(lens[..s + 1], b)] == SymsOfLen(lens, b, s + 1)
    {
      var lo, n := Base(lens, b), Count(lens[..s], b);
      assert work[lo..lo + n] == SymsOfLen(lens, b, s);
      BlockAt(lens, b, MAXBITS);
      CountMonotone(lens, s + 1, b);
      if b == c {
        assert w[lo..lo + n + 1] == work[lo..lo + n] + [s];
      } else {
        RankBelowCount(lens, s);
        if b < c { BaseGap(lens, b, c); } else { BaseGap(lens, c, b); }
        assert w[lo..lo + n] == work[lo..lo + n];
      }
    }
  }

  lemma SortingSkip(work: seq<nat>, lens: seq<nat>, s: nat)
    requires s < |lens| && lens[s] == 0 && Sorting(work, lens, s)
    ensures Sorting(work, lens, s + 1)
  {
    RankStep(lens, s);
  }

  /* ---------- one code entered, one sub-table opened ---------- */

  /** No index of n bits belongs to two codes. */
  lemma WordsApart(lens: seq<nat>, j: nat, k: nat, bits: seq<bool>)
    requires NotOversubscribed(lens) && j < |Syms(lens)| && k < |Syms(lens)| && j != k
    requires WordAt(lens, j) <= bits
    ensures !(WordAt(lens, k) <= bits)
  {
    hide Syms, SortedSyms, Codeword, NotOversubscribed;
    if WordAt(lens, k) <= bits {
      CodewordUnique(lens, Syms(lens)[j], Syms(lens)[k], bits);
      SymsDistinct(lens, j, k);
    }
  }

  lemma SymsDistinct(lens: seq<nat>, j: nat, k: nat)
    requires j < |Syms(lens)| && k < |Syms(lens)| && j != k
    ensures Syms(lens)[j] != Syms(lens)[k]
  {
    hide SortedSyms, Base, Count;
    PlaceAt(lens, MAXBITS, j);
    PlaceAt(lens, MAXBITS, k);
  }

  /** T' is T with the indices of code k in the root table set. */
  ghost predicate FilledShort(T: seq<Code>, T': seq<Code>, root: nat, kind: Kind, lens: seq<nat>, k: nat)
    requires LensOk(kind, lens) && k < |Syms(lens)| && SymsOk(kind, lens)
  {
    && |T'| == |T| && Pow2(root) <= |T|
    && (forall i :: 0 <= i < Pow2(root) ==>
          T'[i] == if WordAt(lens, k) <= Lsb(i, root) then Entry(kind, Syms(lens)[k], LenAt(lens, k)) else T[i])
  }

  /** Follows from LensOk: every symbol is in the alphabet. */
  predicate SymsOk(kind: Kind, lens: seq<nat>) {
    forall i :: 0 <= i < |Syms(lens)| ==> SymbolOk(kind, Syms(lens)[i])
  }

  lemma AfterFillShort(T: seq<Code>, T': seq<Code>, root: nat, kind: Kind, lens: seq<nat>, k: nat, j: nat)
    requires LensOk(kind, lens) && SymsOk(kind, lens) && NotOversubscribed(lens)
    requires k < |Syms(lens)| && LenAt(lens, k) <= root && j <= k
    requires FilledShort(T, T', root, kind, lens, k)
    requires j < k ==> Placed(T, root, kind, lens, j)
    ensures Placed(T', root, kind, lens, j)
  {
    hide Syms, WordAt, LenAt, NotOversubscribed, Entry, LensOk, SymsOk;
    LensSorted(lens, j, k);
    if j < k {
      forall i | 0 <= i < Pow2(root) && WordAt(lens, j) <= Lsb(i, root)
        ensures T'[i] == T[i]
      {
        WordsApart(lens, j, k, Lsb(i, root));
      }
    }
  }

  /** T' is T with the indices of code k in the sub-table at next set. */
  ghost predicate FilledLong(T: seq<Code>, T': seq<Code>, root: nat, kind: Kind, lens: seq<nat>, k: nat, next: nat, curr: nat)
    requires LensOk(kind, lens) && k < |Syms(lens)| && SymsOk(kind, lens) && LenAt(lens, k) > root
  {
    && |T'| == |T| && Pow2(root) <= next && next + Pow2(curr) <= |T|
    && (forall i :: 0 <= i < Pow2(curr) ==>
          T'[next + i] == if WordAt(lens, k)[root..] <= Lsb(i, curr)
                          then Entry(kind, Syms(lens)[k], LenAt(lens, k) - root) else T[next + i])
    && (forall i :: 0 <= i < |T| && !(next <= i < next + Pow2(curr)) ==> T'[i] == T[i])
  }

  lemma SubIndexApart(lens: seq<nat>, j: nat, k: nat, root: nat, bits: seq<bool>)
    requires NotOversubscribed(lens) && j < |Syms(lens)| && k < |Syms(lens)| && j != k
    requires LenAt(lens, j) > root && LenAt(lens, k) > root && Slot(lens, j, root) == Slot(lens, k, root)
    requires WordAt(lens, j)[root..] <= bits
    ensures !(WordAt(lens, k)[root..] <= bits)
  {
    hide Syms, WordAt, NotOversubscribed;
    var wj, wk := WordAt(lens, j), WordAt(lens, k);
    LsbVal(wj[..root]);
    LsbVal(wk[..root]);
    assert wj[..root] == wk[..root];
    var whole := wj[..root] + bits;
    assert wj <= whole by { assert wj == wj[..root] + wj[root..]; }
    if wk[root..] <= bits {
      assert wk <= whole by { assert wk == wk[..root] + wk[root..]; }
      WordsApart(lens, j, k, whole);
    }
  }

  /** A code that shares the sub-table: its entries are others. */
  lemma FillLongSameSlot(T: seq<Code>, T': seq<Code>, root: nat, kind: Kind, lens: seq<nat>, k: nat,
                         next: nat, curr: nat, j: nat)
    requires LensOk(kind, lens) && SymsOk(kind, lens) && NotOversubscribed(lens)
    requires k < |Syms(lens)| && root < LenAt(lens, k) <= root + curr <= MAXBITS && j < k && LenAt(lens, j) > root
    requires FilledLong(T, T', root, kind, lens, k, next, curr)
    requires Slot(lens, j, root) == Slot(lens, k, root) && T[Slot(lens, k, root)] == Code(curr, root, next)
    requires PlacedLong(T, root, kind, lens, j)
    ensures PlacedLong(T', root, kind, lens, j)
  {
    hide Syms, WordAt, NotOversubscribed, Entry, LensOk, SymsOk, Slot, Lsb, Pow2;
    forall i | 0 <= i < Pow2(curr) && WordAt(lens, j)[root..] <= Lsb(i, curr)
      ensures T'[next + i] == T[next + i]
    {
      SubIndexApart(lens, j, k, root, Lsb(i, curr));
    }
  }

  /** A code of another sub-table, which ends before this one. */
  lemma FillLongOtherSlot(T: seq<Code>, T': seq<Code>, root: nat, kind: Kind, lens: seq<nat>, k: nat,
                          next: nat, curr: nat, j: nat)
    requires LensOk(kind, lens) && SymsOk(kind, lens)
    requires k < |Syms(lens)| && LenAt(lens, k) > root && j < |Syms(lens)| && LenAt(lens, j) > root
    requires FilledLong(T, T', root, kind, lens, k, next, curr) && PlacedLong(T, root, kind, lens, j)
    requires T[Slot(lens, j, root)].val + Pow2(T[Slot(lens, j, root)].op) <= next
    ensures PlacedLong(T', root, kind, lens, j)
  {
    hide Syms, WordAt, Entry, LensOk, SymsOk, Slot, Lsb, Pow2;
    var e := T[Slot(lens, j, root)];
    assert forall x :: e.val <= x < e.val + Pow2(e.op) ==> T'[x] == T[x];
  }

  lemma AfterFillLong(T: seq<Code>, T': seq<Code>, root: nat, kind: Kind, lens: seq<nat>, k: nat,
                      next: nat, curr: nat, j: nat)
    requires LensOk(kind, lens) && SymsOk(kind, lens) && NotOversubscribed(lens)
    requires k < |Syms(lens)| && root < LenAt(lens, k) <= root + curr <= MAXBITS && j <= k && curr >= 1
    requires FilledLong(T, T', root, kind, lens, k, next, curr)
    requires T[Slot(lens, k, root)] == Code(curr, root, next)
    requires j < k ==> Placed(T, root, kind, lens, j) && Below(T, root, lens, j, Slot(lens, k, root), next)
    ensures Placed(T', root, kind, lens, j)
    ensures j < k ==> Below(T', root, lens, j, Slot(lens, k, root), next)
    ensures T'[Slot(lens, k, root)] == Code(curr, root, next)
  {
    hide Syms, WordAt, NotOversubscribed, Entry, LensOk, SymsOk, Slot, Lsb, Pow2, PlacedLong;
    if j == k {
      FillLongItself(T, T', root, kind, lens, k, next, curr);
    } else if LenAt(lens, j) > root {
      if Slot(lens, j, root) == Slot(lens, k, root) {
        FillLongSameSlot(T, T', root, kind, lens, k, next, curr, j);
      } else {
        FillLongOtherSlot(T, T', root, kind, lens, k, next, curr, j);
      }
    }
  }

  lemma FillLongItself(T: seq<Code>, T': seq<Code>, root: nat, kind: Kind, lens: seq<nat>, k: nat, next: nat, curr: nat)
    requires LensOk(kind, lens) && SymsOk(kind, lens)
    requires k < |Syms(lens)| && root < LenAt(lens, k) <= root + curr <= MAXBITS && curr >= 1
    requires FilledLong(T, T', root, kind, lens, k, next, curr) && T[Slot(lens, k, root)] == Code(curr, root, next)
    ensures PlacedLong(T', root, kind, lens, k)
  {
    hide Syms, WordAt, Entry, LensOk, SymsOk, Slot, Lsb, Pow2;
  }

  /** A short code does not use the slot of a link. */
  lemma LinkAfterShort(T: seq<Code>, root: nat, kind: Kind, lens: seq<nat>, k: nat, link: Code, j: nat)
    requires LensOk(kind, lens) && NotOversubscribed(lens) && j < k < |Syms(lens)|
    requires LenAt(lens, j) <= root < LenAt(lens, k) && PlacedShort(T, root, kind, lens, j)
    ensures PlacedShort(T[Slot(lens, k, root) := link], root, kind, lens, j)
  {
    hide NotOversubscribed, Entry, LensOk, Lsb, Syms, WordAt, Pow2;
    var p := Slot(lens, k, root);
    forall i | 0 <= i < Pow2(root) && WordAt(lens, j) <= Lsb(i, root)
      ensures i != p
    {
      if i == p {
        LsbVal(WordAt(lens, k)[..root]);
        assert WordAt(lens, j) <= WordAt(lens, k);
        WordsApart(lens, j, k, WordAt(lens, k));
      }
    }
  }

  /** A long code keeps its own slot and its sub-table. */
  lemma LinkAfterLong(T: seq<Code>, root: nat, kind: Kind, lens: seq<nat>, j: nat, p: nat, link: Code)
    requires LensOk(kind, lens) && j < |Syms(lens)| && LenAt(lens, j) > root && p < Pow2(root) && p != Slot(lens, j, root)
    requires PlacedLong(T, root, kind, lens, j)
    ensures PlacedLong(T[p := link], root, kind, lens, j)
  {
    hide Entry, LensOk, Lsb, Syms, WordAt, Pow2, Slot;
    var e := T[Slot(lens, j, root)];
    assert forall x :: e.val <= x < e.val + Pow2(e.op) ==> T[p := link][x] == T[x];
  }

  lemma AfterLink(T: seq<Code>, root: nat, kind: Kind, lens: seq<nat>, k: nat,
                  low: int, next: nat, next': nat, curr': nat, j: nat)
    requires LensOk(kind, lens) && SymsOk(kind, lens) && NotOversubscribed(lens)
    requires 1 <= k < |Syms(lens)| && LenAt(lens, k) > root && j < k
    requires OpensSubTable(lens, Syms(lens), root, k)
    requires Pow2(root) <= next' <= |T|
    requires Placed(T, root, kind, lens, j) && Below(T, root, lens, j, low, next)
    requires next <= next'
    requires 0 <= low < Pow2(root) ==> T[low].val + Pow2(T[low].op) <= next'
    ensures Placed(T[Slot(lens, k, root) := Code(curr', root, next')], root, kind, lens, j)
    ensures Below(T[Slot(lens, k, root) := Code(curr', root, next')], root, lens, j, Slot(lens, k, root), next')
  {
    hide NotOversubscribed, Entry, LensOk, SymsOk, Lsb, Syms, WordAt, Pow2, Slot, PlacedShort, PlacedLong, OpensSubTable;
    if LenAt(lens, j) <= root {
      LinkAfterShort(T, root, kind, lens, k, Code(curr', root, next'), j);
    } else {
      SlotsApart(lens, j, k, root);
      LinkAfterLong(T, root, kind, lens, j, Slot(lens, k, root), Code(curr', root, next'));
    }
  }

  lemma SlotsApart(lens: seq<nat>, j: nat, k: nat, root: nat)
    requires NotOversubscribed(lens) && 1 <= k < |Syms(lens)| && j < k
    requires LenAt(lens, j) > root && LenAt(lens, k) > root
    requires OpensSubTable(lens, Syms(lens), root, k)
    ensures Slot(lens, j, root) != Slot(lens, k, root)
  {
    hide NotOversubscribed, Syms, Codeword, SortedSyms;
    if Slot(lens, j, root) == Slot(lens, k, root) {
      LsbVal(WordAt(lens, j)[..root]);
      LsbVal(WordAt(lens, k)[..root]);
      LensSorted(lens, j, k);
      SlotContiguous(lens, j, k - 1, k, root);
    }
  }
}
