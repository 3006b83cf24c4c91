/** The decoding tables of the fixed codes, built when they are first needed (fixedtables in libz_all/inflate.c). */
module FixedTables {
  import opened Bits
  import opened Canonical
  import opened TableSpace
  import opened SortedCodes
  import opened InflateSpec
  import opened FixedCodes
  import opened InfTrees
  import opened InflateTable

  /** No code is longer than the root table's index, so there are no sub-tables. */
  lemma OneTable(lens: seq<nat>, bits: nat, min: nat)
    requires LengthsOk(lens) && |lens| <= 288 && 1 <= min <= bits <= MAXBITS
    requires Count(lens, bits) != 0 && Count(lens, min) != 0
    requires forall b :: bits < b <= MAXBITS ==> Count(lens, b) == 0
    requires forall b :: 1 <= b < min ==> Count(lens, b) == 0
    ensures TableSize(lens, bits) == Pow2(bits) && Syms(lens) != [] && RootBits(lens, Syms(lens), bits) == bits
  {
    hide SortedSyms, SubSpace, Count;
    ExtremesAre(lens, min, bits);
    NoSubTables(lens, bits, |Syms(lens)| - 1);
  }

  lemma FixedLitTable()
    ensures var l := FixedLit();
            TableSize(l, 9) == 512 && Syms(l) != [] && RootBits(l, Syms(l), 9) == 9
    ensures LensOk(LENS, FixedLit()) && Accepted(LENS, FixedLit()) && Fits(LENS, FixedLit(), 9)
  {
    hide FixedLit, Count, Used, SortedSyms, TableSize;
    FixedLitComplete();
    forall b ensures Count(FixedLit(), b) == if b == 7 then 24 else if b == 8 then 152 else if b == 9 then 112 else 0 {
      FixedLitCount(b);
    }
    OneTable(FixedLit(), 9, 7);
    Pow2Values();
  }

  lemma FixedDistTable()
    ensures var l := FixedDist();
            TableSize(l, 5) == 32 && Syms(l) != [] && RootBits(l, Syms(l), 5) == 5
    ensures LensOk(DISTS, FixedDist()) && Accepted(DISTS, FixedDist()) && Fits(DISTS, FixedDist(), 5)
  {
    hide Count, Used, SortedSyms, TableSize;
    FixedDistComplete();
    forall b ensures Count(FixedDist(), b) == if b == 5 then 32 else 0 {
      CountRepeat(5, 32, b);
    }
    OneTable(FixedDist(), 5, 5);
    Pow2Values();
  }

  method SetLens(lens: array<nat>, from: nat, to: nat, v: nat)
    requires from <= to <= lens.Length
    modifies lens
    ensures forall i :: from <= i < to ==> lens[i] == v
    ensures forall i :: (0 <= i < from || to <= i < lens.Length) ==> lens[i] == old(lens[i])
  {
    for sym := from to to
      invariant forall i :: from <= i < sym ==> lens[i] == v
      invariant forall i :: (0 <= i < from || sym <= i < lens.Length) ==> lens[i] == old(lens[i])
    {
      lens[sym] := v;
    }
  }

  /** Both tables take 544 entries together, which is what fixed[] has room for. */
  method BuildFixed(lens: array<nat>, work: array<nat>) returns (lenfix: seq<Code>, distfix: seq<Code>)
    requires lens.Length == 320 && work.Length == 288 && lens != work
    modifies lens, work
    ensures TableFor(lenfix, LENS, FixedLit(), 9) && TableFor(distfix, DISTS, FixedDist(), 5)
    ensures |lenfix| + |distfix| == 544
  {
    hide FixedLit, FixedDist, TableFor, TableSize, Fits, Accepted, LensOk, RootBits, Syms;
    var fixed := new Code[ENOUGH_LENS + ENOUGH_DISTS];
    SetLens(lens, 0, 144, 8);
    SetLens(lens, 144, 256, 9);
    SetLens(lens, 256, 280, 7);
    SetLens(lens, 280, 288, 8);
    FixedLitComplete();
    FixedLitTable();
    assert lens[..288] == FixedLit();
    var ret, used, root := InflateTable.InflateTable(LENS, lens[..288], fixed, 0, 9, work);
    lenfix := fixed[..used];
    assert fixed[0..0 + used] == lenfix;
    SetLens(lens, 0, 32, 5);
    FixedDistTable();
    FixedDistIs();
    assert lens[..32] == FixedDist();
    var used';
    ret, used', root := InflateTable.InflateTable(DISTS, lens[..32], fixed, used, 5, work);
    distfix := fixed[used..used + used'];
  }

  lemma FixedDistIs()
    ensures |FixedDist()| == 32 && forall i :: 0 <= i < 32 ==> FixedDist()[i] == 5
  {
  }
}
