/**
 Looking up codes in the tables that inflate_table builds, as inflate does it: with only some
 of the code's bits at hand and zeros above them.
 */
module TableLookup {
  import opened Bits
  import opened Canonical
  import opened TableSpace
  import opened SortedCodes
  import opened InfTrees
  import opened InflateTable

  /** The entry first looked at for the bits h. */
  function First(T: seq<Code>, root: nat, h: nat): Code
    requires Pow2(root) <= |T|
  {
    T[h % Pow2(root)]
  }

  function SecondIndex(e: Code, root: nat, h: nat): nat {
    e.val + Val(Lsb(Shr(h, root), e.op))
  }

  /** What the table says about n bits with value h. */
  ghost predicate Agrees(T: seq<Code>, kind: Kind, lens: seq<nat>, root: nat, h: nat, n: nat)
    requires TableFor(T, kind, lens, root)
  {
    var e := First(T, root, h);
    var r := DecodeSym(lens, Lsb(h, n));
    if !IsLink(e) then Verdict(e, kind, 0, n, r)
    else
      && e.bits == root && 1 <= root + e.op <= MAXBITS
      && (root > n ==> r == NeedMore)
      && SecondIndex(e, root, h) < |T|
      && !IsLink(T[SecondIndex(e, root, h)])
      && Verdict(T[SecondIndex(e, root, h)], kind, root, n, r)
  }

  /** Entry e, met after dropping d bits, tells how far DecodeSym gets with n bits. */
  ghost predicate Verdict(e: Code, kind: Kind, d: nat, n: nat, r: Lookup) {
    && 1 <= d + e.bits <= MAXBITS
    && (d + e.bits > n ==> r == NeedMore)
    && (d + e.bits <= n ==>
          || (r.Symbol? && r.len == d + e.bits && SymbolOk(kind, r.sym) && e == Entry(kind, r.sym, e.bits))
          || (r == Invalid && e == INVALID_ENTRY && d == 0))
  }

  lemma {:induction false} LsbExtend(h: nat, n: nat, m: nat)
    requires n <= m
    ensures Lsb(h, n) <= Lsb(h, m)
  {
    LsbSplit(h, n, m - n);
  }

  /** With code k matching the (zero extended) bits, DecodeSym finds it as soon as it is all there. */
  lemma DecodeMatches(lens: seq<nat>, k: nat, h: nat, n: nat, m: nat)
    requires Complete(lens) && n <= m && k < |Syms(lens)| && WordAt(lens, k) <= Lsb(h, m)
    ensures DecodeSym(lens, Lsb(h, n)) ==
      if LenAt(lens, k) <= n then Symbol(Syms(lens)[k], LenAt(lens, k)) else NeedMore
  {
    hide SortedSyms, Codeword, Complete, Lsb;
    CompleteFits(lens);
    LsbExtend(h, n, m);
    var s := Syms(lens)[k];
    if LenAt(lens, k) <= n {
      assert Codeword(lens, s) == Lsb(h, m)[..LenAt(lens, k)] == Lsb(h, n)[..LenAt(lens, k)];
      assert IsCodeOf(lens, s, Lsb(h, n));
      DecodeSymIs(lens, Lsb(h, n), s);
    } else if t: nat :| IsCodeOf(lens, t, Lsb(h, n)) {
      assert Codeword(lens, t) == Lsb(h, n)[..lens[t]] == Lsb(h, m)[..lens[t]];
      CodewordUnique(lens, s, t, Lsb(h, m));
    }
  }

  lemma CompleteFits(lens: seq<nat>)
    requires Complete(lens)
    ensures NotOversubscribed(lens)
  {
  }

  /** An index made of low bits carries the bits themselves. */
  lemma IndexBits(h: nat, root: nat)
    ensures h % Pow2(root) < Pow2(root) && Lsb(h % Pow2(root), root) == Lsb(h, root)
    ensures Val(Lsb(h, root)) == h % Pow2(root)
  {
    LsbMod(h, root);
    ValLsb(h, root);
  }

  lemma LookupShort(T: seq<Code>, kind: Kind, lens: seq<nat>, root: nat, h: nat, m: nat, k: nat)
    requires TableFor(T, kind, lens, root) && SymsOk(kind, lens) && root <= m
    requires k < |Syms(lens)| && LenAt(lens, k) <= root && WordAt(lens, k) <= Lsb(h, m)
    ensures First(T, root, h) == Entry(kind, Syms(lens)[k], LenAt(lens, k))
  {
    hide LensOk, Accepted, Complete, SortedSyms, Syms, Lsb, Codeword, Entry, WordAt, LenAt, SymsOk;
    IndexBits(h, root);
    LsbExtend(h, root, m);
    assert Placed(T, root, kind, lens, k);
    assert WordAt(lens, k) <= Lsb(h, root);
  }

  lemma LookupLong(T: seq<Code>, kind: Kind, lens: seq<nat>, root: nat, h: nat, m: nat, k: nat)
    requires TableFor(T, kind, lens, root) && SymsOk(kind, lens) && MAXBITS <= m
    requires k < |Syms(lens)| && LenAt(lens, k) > root && WordAt(lens, k) <= Lsb(h, m)
    ensures var e := First(T, root, h);
            && IsLink(e) && e.bits == root && root + e.op <= MAXBITS
            && SecondIndex(e, root, h) < |T|
            && T[SecondIndex(e, root, h)] == Entry(kind, Syms(lens)[k], LenAt(lens, k) - root)
  {
    hide LensOk, Accepted, Complete, SortedSyms, Syms, Lsb, Codeword, Entry, LenAt, SymsOk, Val, Shr, WordAt;
    var w := WordAt(lens, k);
    IndexBits(h, root);
    LsbExtend(h, root, m);
    assert Placed(T, root, kind, lens, k);
    assert w[..root] == Lsb(h, root);
    var e := First(T, root, h);
    assert Slot(lens, k, root) == h % Pow2(root);
    var c := e.op;
    LsbSplit(h, root, c);
    LsbExtend(h, root + c, m);
    var i := Val(Lsb(Shr(h, root), c));
    ValBound(Lsb(Shr(h, root), c));
    LsbVal(Lsb(Shr(h, root), c));
    assert w <= Lsb(h, root + c);
    assert w[root..] <= Lsb(h, root + c)[root..] == Lsb(Shr(h, root), c);
  }

  lemma AgreesComplete(T: seq<Code>, kind: Kind, lens: seq<nat>, root: nat, h: nat, n: nat)
    requires TableFor(T, kind, lens, root) && Complete(lens)
    ensures Agrees(T, kind, lens, root, h, n)
  {
    hide LensOk, SortedSyms, Syms, Lsb, Codeword, Entry, Val, Shr, WordAt, DecodeSym, TableFor, First, SecondIndex, Complete, SymsOk,
      SymbolOk, NotOversubscribed, LenAt;
    var m := if n < MAXBITS then MAXBITS else n;
    TableLens(T, kind, lens, root);
    SymsAreOk(kind, lens);
    var s := CompleteCovers(lens, Lsb(h, m));
    var k := IndexOf(lens, s);
    LenAtIs(lens, k);
    WordAtIs(lens, k);
    DecodeMatches(lens, k, h, n, m);
    SymOk(kind, lens, k);
    if LenAt(lens, k) <= root {
      LookupShort(T, kind, lens, root, h, m, k);
      EntryNotLink(kind, s, LenAt(lens, k));
    } else {
      LookupLong(T, kind, lens, root, h, m, k);
      EntryNotLink(kind, s, LenAt(lens, k) - root);
    }
  }

  lemma WordAtIs(lens: seq<nat>, k: nat)
    requires k < |Syms(lens)|
    ensures WordAt(lens, k) == Codeword(lens, Syms(lens)[k])
  {
  }

  lemma TableLens(T: seq<Code>, kind: Kind, lens: seq<nat>, root: nat)
    requires TableFor(T, kind, lens, root)
    ensures LensOk(kind, lens) && Accepted(kind, lens) && 1 <= root <= MAXBITS && Pow2(root) <= |T|
  {
  }

  /** A single one-bit code, or none at all. */
  lemma AgreesIncomplete(T: seq<Code>, kind: Kind, lens: seq<nat>, root: nat, h: nat, n: nat)
    requires TableFor(T, kind, lens, root) && !Complete(lens)
    ensures Agrees(T, kind, lens, root, h, n)
  {
    hide LensOk, SortedSyms, Syms, Lsb, Codeword, Entry, Val, WordAt, SymsOk, SymbolOk, NotOversubscribed, LenAt, Complete, Accepted;
    TableLens(T, kind, lens, root);
    SymsAreOk(kind, lens);
    assert Pow2(1) == 2;
    TinyCodes(kind, lens, h, n);
    if h % 2 == 0 && Syms(lens) != [] {
      IncompleteIsTiny(kind, lens);
      OneBitZero(lens);
      LsbFirst(h, 1);
      LookupShort(T, kind, lens, root, h, 1, 0);
      SymOk(kind, lens, 0);
      EntryNotLink(kind, Syms(lens)[0], 1);
    }
  }

  lemma LsbFirst(h: nat, n: nat)
    requires n >= 1
    ensures Lsb(h, n)[0] == (h % 2 == 1)
  {
  }

  lemma TinyCodes(kind: Kind, lens: seq<nat>, h: nat, n: nat)
    requires Accepted(kind, lens) && !Complete(lens)
    ensures var r := DecodeSym(lens, Lsb(h, n));
            if n == 0 then r == NeedMore
            else if h % 2 == 0 && Syms(lens) != [] then r == Symbol(Syms(lens)[0], 1)
            else r == Invalid
  {
    hide SortedSyms, Lsb, Codeword, Complete;
    AcceptedFits(kind, lens);
    var bits := Lsb(h, n);
    if n > 0 {
      LsbFirst(h, n);
      if h % 2 == 0 && Syms(lens) != [] {
        IncompleteIsTiny(kind, lens);
        OneBitZero(lens);
        assert WordAt(lens, 0) == bits[..1];
        DecodeSymIs(lens, bits, Syms(lens)[0]);
      } else if t: nat :| IsCodeOf(lens, t, bits) {
        TinyCodeword(kind, lens, t);
      }
    }
  }

  /** The only code of an incomplete set is the single bit 0. */
  lemma TinyCodeword(kind: Kind, lens: seq<nat>, t: nat)
    requires Accepted(kind, lens) && !Complete(lens) && t < |lens| && lens[t] >= 1
    ensures Syms(lens) != [] && Codeword(lens, t) == [false]
  {
    hide SortedSyms, Complete;
    AcceptedFits(kind, lens);
    var j := IndexOf(lens, t);
    IncompleteIsTiny(kind, lens);
    OneBitZero(lens);
  }

  /**
   Decoding-table correctness: for every table that inflate_table returns, every accumulator
   value and every number of bits in it, the entries met are those of the code's own decoding.
   */
  lemma TableCorrect(T: seq<Code>, kind: Kind, lens: seq<nat>, root: nat, h: nat, n: nat)
    requires TableFor(T, kind, lens, root)
    ensures Agrees(T, kind, lens, root, h, n)
  {
    hide Agrees, TableFor, Complete;
    if Complete(lens) {
      AgreesComplete(T, kind, lens, root, h, n);
    } else {
      AgreesIncomplete(T, kind, lens, root, h, n);
    }
  }

  /** The code length code's table has a single level. */
  lemma NoLinks(T: seq<Code>, lens: seq<nat>, root: nat, h: nat)
    requires TableFor(T, CODES, lens, root)
    ensures !IsLink(First(T, root, h))
    ensures if Complete(lens) then First(T, root, h).op == 0 else First(T, root, h) == INVALID_ENTRY
  {
    hide LensOk, SortedSyms, Syms, Lsb, Codeword, Entry, Val, WordAt, SymbolOk, NotOversubscribed, LenAt, Complete, SymsOk;
    TableLens(T, CODES, lens, root);
    SymsAreOk(CODES, lens);
    if Complete(lens) {
      var s := CompleteCovers(lens, Lsb(h, MAXBITS));
      var k := IndexOf(lens, s);
      WordAtIs(lens, k);
      LookupShort(T, CODES, lens, root, h, MAXBITS, k);
      SymOk(CODES, lens, k);
      EntryNotLink(CODES, s, LenAt(lens, k));
      LiteralEntry(s, LenAt(lens, k));
    } else {
      assert Pow2(1) == 2;
      NoneAtAll(lens);
    }
  }

  lemma LiteralEntry(s: nat, bits: nat)
    requires SymbolOk(CODES, s)
    ensures Entry(CODES, s, bits).op == 0
  {
  }

  lemma NoneAtAll(lens: seq<nat>)
    requires Accepted(CODES, lens) && !Complete(lens)
    ensures Syms(lens) == []
  {
    hide SortedSyms, Complete;
    SymsHaveCodes(lens);
  }

  lemma SymsHaveCodes(lens: seq<nat>)
    ensures Syms(lens) == [] || exists i :: 0 <= i < |lens| && lens[i] >= 1
  {
    if Syms(lens) != [] {
      assert lens[Syms(lens)[0]] >= 1;
    }
  }
}
