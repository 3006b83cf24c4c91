/**
 Canonical Huffman codes as section 3.2.2 of RFC 1951 defines them: a code is given by its
 vector of code lengths alone (0 means the symbol is not used).
 */
module Canonical {
  import opened Bits

  const MAXBITS: nat := 15

  ghost predicate LengthsOk(lens: seq<nat>) {
    forall i :: 0 <= i < |lens| ==> lens[i] <= MAXBITS
  }

  /** How many symbols have code length b. */
  function Count(lens: seq<nat>, b: nat): (c: nat)
    ensures c <= |lens|
  {
    if lens == [] then 0
    else Count(lens[..|lens| - 1], b) + (if lens[|lens| - 1] == b then 1 else 0)
  }

  lemma {:induction false} CountAppend(a: seq<nat>, b: seq<nat>, v: nat)
    ensures Count(a + b, v) == Count(a, v) + Count(b, v)
    decreases |b|
  {
    if b == [] {
      assert a + b == a;
    } else {
      var b' := b[..|b| - 1];
      CountAppend(a, b', v);
      assert (a + b)[..|a + b| - 1] == a + b';
    }
  }

  /** The part of the code space taken by codes of length at most b, in units of 2^-b. */
  function Used(lens: seq<nat>, b: nat): nat {
    if b == 0 then 0 else 2 * Used(lens, b - 1) + Count(lens, b)
  }

  /** The smallest code of length b (next_code[b] in the RFC's step 2). */
  function FirstCode(lens: seq<nat>, b: nat): nat
    requires b >= 1
  {
    2 * Used(lens, b - 1)
  }

  /** The code of symbol s: consecutive values in symbol order within one length. */
  function CodeOf(lens: seq<nat>, s: nat): nat
    requires s < |lens| && lens[s] >= 1
  {
    FirstCode(lens, lens[s]) + Count(lens[..s], lens[s])
  }

  /** The bits sent for symbol s, in the order they are sent. */
  function Codeword(lens: seq<nat>, s: nat): (w: seq<bool>)
    requires s < |lens| && lens[s] >= 1
    ensures |w| == lens[s]
  {
    Msb(CodeOf(lens, s), lens[s])
  }

  ghost predicate NotOversubscribed(lens: seq<nat>) {
    LengthsOk(lens) && Used(lens, MAXBITS) <= Pow2(MAXBITS)
  }

  ghost predicate Complete(lens: seq<nat>) {
    LengthsOk(lens) && Used(lens, MAXBITS) == Pow2(MAXBITS)
  }

  /* ---------- counting ---------- */

  lemma {:induction false} CountMonotone(lens: seq<nat>, k: nat, b: nat)
    requires k <= |lens|
    ensures Count(lens[..k], b) <= Count(lens, b)
    decreases |lens|
  {
    if k == |lens| {
      assert lens[..k] == lens;
    } else {
      var l' := lens[..|lens| - 1];
      CountMonotone(l', k, b);
      assert l'[..k] == lens[..k];
    }
  }

  lemma RankBelowCount(lens: seq<nat>, s: nat)
    requires s < |lens|
    ensures Count(lens[..s], lens[s]) < Count(lens, lens[s])
  {
    CountMonotone(lens, s + 1, lens[s]);
    assert lens[..s + 1][..s] == lens[..s];
  }

  /** Two symbols of one length never share a rank. */
  lemma RankInjective(lens: seq<nat>, s: nat, t: nat)
    requires s < t < |lens| && lens[s] == lens[t]
    ensures Count(lens[..s], lens[s]) < Count(lens[..t], lens[t])
  {
    var l' := lens[..t];
    RankBelowCount(l', s);
    assert l'[..s] == lens[..s];
  }

  /** Every rank below the count belongs to some symbol. */
  lemma {:induction false} SymbolOfRank(lens: seq<nat>, b: nat, k: nat) returns (s: nat)
    requires k < Count(lens, b)
    ensures s < |lens| && lens[s] == b && Count(lens[..s], b) == k
  {
    var n := |lens| - 1;
    if lens[n] == b && Count(lens[..n], b) == k {
      s := n;
    } else {
      s := SymbolOfRank(lens[..n], b, k);
      assert lens[..n][..s] == lens[..s];
    }
  }

  /* ---------- code space ---------- */

  lemma {:induction false} UsedScales(lens: seq<nat>, b: nat, c: nat)
    requires b <= c
    ensures Used(lens, c) >= Pow2(c - b) * Used(lens, b)
  {
    if b < c {
      UsedScales(lens, b, c - 1);
      Double(Pow2(c - 1 - b), Used(lens, b));
    }
  }

  lemma Double(p: nat, x: nat)
    ensures (2 * p) * x == 2 * (p * x)
  {
  }

  lemma UsedBound(lens: seq<nat>, b: nat)
    requires NotOversubscribed(lens) && b <= MAXBITS
    ensures Used(lens, b) <= Pow2(b)
  {
    UsedScales(lens, b, MAXBITS);
    Pow2Add(MAXBITS - b, b);
    MulCancel(Pow2(MAXBITS - b), Used(lens, b), Pow2(b));
  }

  lemma MulCancel(p: int, x: int, y: int)
    requires p > 0 && p * x <= p * y
    ensures x <= y
  {
    if x > y {
      MulAtLeast(p, x - y);
    }
  }

  lemma CodeFits(lens: seq<nat>, s: nat)
    requires NotOversubscribed(lens) && s < |lens| && lens[s] >= 1
    ensures FirstCode(lens, lens[s]) <= CodeOf(lens, s) < Used(lens, lens[s]) <= Pow2(lens[s])
    ensures MsbVal(Codeword(lens, s)) == CodeOf(lens, s)
  {
    RankBelowCount(lens, s);
    UsedBound(lens, lens[s]);
    MsbValMsb(CodeOf(lens, s), lens[s]);
  }

  /** No codeword is a prefix of another one: the code can be read without separators. */
  lemma PrefixFree(lens: seq<nat>, s: nat, t: nat)
    requires NotOversubscribed(lens)
    requires s < |lens| && lens[s] >= 1 && t < |lens| && lens[t] >= 1
    requires Codeword(lens, s) <= Codeword(lens, t)
    ensures s == t
  {
    hide Count, Used, Pow2, Msb, MsbVal, FirstCode, NotOversubscribed;
    var ls, lt := lens[s], lens[t];
    CodeFits(lens, s);
    CodeFits(lens, t);
    var w := Codeword(lens, t);
    assert w[..ls] == Codeword(lens, s);
    MsbValPrefix(w, ls);
    if ls == lt {
      assert w == Codeword(lens, s);
      if s < t {
        RankInjective(lens, s, t);
      } else if t < s {
        RankInjective(lens, t, s);
      }
    } else {
      LongerBeyond(lens, ls, lt, CodeOf(lens, t));
    }
  }

  /** The first ls bits of a longer code lie beyond all codes of length ls. */
  lemma LongerBeyond(lens: seq<nat>, ls: nat, lt: nat, code: nat)
    requires ls < lt && code >= FirstCode(lens, lt)
    ensures code / Pow2(lt - ls) >= Used(lens, ls)
  {
    UsedScales(lens, ls, lt - 1);
    Double(Pow2(lt - 1 - ls), Used(lens, ls));
    DivAtLeast(code, Pow2(lt - ls), Used(lens, ls));
  }

  lemma DivAtLeast(x: nat, p: nat, q: nat)
    requires p > 0 && x >= p * q
    ensures x / p >= q
  {
    if x / p < q {
      assert x == p * (x / p) + x % p;
      assert p * (x / p + 1) <= p * q by { MulLe(p, x / p + 1, q); }
    }
  }

  /** Two codewords that both begin the same bits belong to the same symbol. */
  lemma CodewordUnique(lens: seq<nat>, s: nat, t: nat, bits: seq<bool>)
    requires NotOversubscribed(lens)
    requires s < |lens| && lens[s] >= 1 && t < |lens| && lens[t] >= 1
    requires Codeword(lens, s) <= bits && Codeword(lens, t) <= bits
    ensures s == t
  {
    if lens[s] <= lens[t] {
      assert Codeword(lens, s) == Codeword(lens, t)[..lens[s]];
      PrefixFree(lens, s, t);
    } else {
      assert Codeword(lens, t) == Codeword(lens, s)[..lens[t]];
      PrefixFree(lens, t, s);
    }
  }

  /** A complete code leaves no bit string undecodable. */
  lemma CompleteCovers(lens: seq<nat>, bits: seq<bool>) returns (s: nat)
    requires Complete(lens) && |bits| >= MAXBITS
    ensures s < |lens| && lens[s] >= 1 && Codeword(lens, s) <= bits
  {
    MsbValBound(bits[..MAXBITS]);
    s := CoverFrom(lens, bits, MAXBITS);
  }

  lemma {:induction false} CoverFrom(lens: seq<nat>, bits: seq<bool>, b: nat) returns (s: nat)
    requires b <= |bits| && MsbVal(bits[..b]) < Used(lens, b)
    ensures s < |lens| && lens[s] >= 1 && Codeword(lens, s) <= bits
  {
    var x := bits[..b];
    assert x[..b - 1] == bits[..b - 1];
    if MsbVal(bits[..b - 1]) < Used(lens, b - 1) {
      s := CoverFrom(lens, bits, b - 1);
    } else {
      assert MsbVal(x) >= FirstCode(lens, b);
      s := SymbolOfRank(lens, b, MsbVal(x) - FirstCode(lens, b));
      assert CodeOf(lens, s) == MsbVal(x);
      MsbMsbVal(x);
      assert Codeword(lens, s) == x;
    }
  }

  /* ---------- decoding one symbol ---------- */

  datatype Lookup = NeedMore | Symbol(sym: nat, len: nat) | Invalid

  ghost predicate IsCodeOf(lens: seq<nat>, s: nat, bits: seq<bool>) {
    s < |lens| && lens[s] >= 1 && Codeword(lens, s) <= bits
  }

  /**
   What the first bits of a stream stand for.  A complete code that has not matched yet only
   needs more bits; in an incomplete one any unmatched bit is an error.
   */
  ghost function DecodeSym(lens: seq<nat>, bits: seq<bool>): (r: Lookup)
    ensures r.Symbol? ==> IsCodeOf(lens, r.sym, bits) && r.len == lens[r.sym] && 1 <= r.len <= |bits|
  {
    if exists s: nat :: IsCodeOf(lens, s, bits) then
      var s: nat :| IsCodeOf(lens, s, bits);
      Symbol(s, lens[s])
    else if bits != [] && !Complete(lens) then Invalid
    else NeedMore
  }

  /** The three kinds of code that inflate builds tables for. */
  datatype Kind = CODES | LENS | DISTS

  /**
   The length vectors inflate accepts: complete codes, a single one-bit code where that is
   tolerated, and the vector without any code.
   */
  ghost predicate Accepted(kind: Kind, lens: seq<nat>) {
    && NotOversubscribed(lens)
    && (|| Complete(lens)
        || (kind != CODES && forall i :: 0 <= i < |lens| ==> lens[i] <= 1)
        || (forall i :: 0 <= i < |lens| ==> lens[i] == 0))
  }

  lemma DecodeSymIs(lens: seq<nat>, bits: seq<bool>, s: nat)
    requires NotOversubscribed(lens) && IsCodeOf(lens, s, bits)
    ensures DecodeSym(lens, bits) == Symbol(s, lens[s])
  {
    var t := DecodeSym(lens, bits).sym;
    CodewordUnique(lens, s, t, bits);
  }

  /** More input never changes a verdict already reached. */
  lemma DecodeSymStable(kind: Kind, lens: seq<nat>, bits: seq<bool>, more: seq<bool>)
    requires Accepted(kind, lens) && bits <= more
    requires !DecodeSym(lens, bits).NeedMore?
    ensures DecodeSym(lens, more) == DecodeSym(lens, bits)
  {
    match DecodeSym(lens, bits)
    case Symbol(s, _) =>
      assert IsCodeOf(lens, s, more);
      DecodeSymIs(lens, more, s);
    case Invalid =>
      if t: nat :| IsCodeOf(lens, t, more) {
        ShortCode(kind, lens, t, bits, more);
      }
  }

  /** In an incomplete code that is let through, the first bit tells. */
  lemma ShortCode(kind: Kind, lens: seq<nat>, t: nat, bits: seq<bool>, more: seq<bool>)
    requires Accepted(kind, lens) && !Complete(lens) && IsCodeOf(lens, t, more) && bits <= more && bits != []
    ensures IsCodeOf(lens, t, bits)
  {
    assert lens[t] == 1;
    assert Codeword(lens, t) == more[..1] == bits[..1];
  }

  /** With 15 bits at hand a verdict is always reached. */
  lemma DecodeSymEnough(lens: seq<nat>, bits: seq<bool>)
    requires NotOversubscribed(lens) && |bits| >= MAXBITS
    ensures !DecodeSym(lens, bits).NeedMore?
  {
    if Complete(lens) {
      var s := CompleteCovers(lens, bits);
      assert IsCodeOf(lens, s, bits);
    }
  }

  /** A code found with the last eight bits added is longer than what was there before. */
  lemma DecodeSymNeedsThem(lens: seq<nat>, before: seq<bool>, bits: seq<bool>)
    requires before <= bits && DecodeSym(lens, before).NeedMore? && DecodeSym(lens, bits).Symbol?
    ensures DecodeSym(lens, bits).len > |before|
  {
    var r := DecodeSym(lens, bits);
    if r.len <= |before| {
      assert Codeword(lens, r.sym) == bits[..r.len] == before[..r.len];
      assert IsCodeOf(lens, r.sym, before);
    }
  }
}
