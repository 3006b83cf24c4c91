/**
 A dynamic block whose code length code has no codes at all (libz_all/inflate.c, states LENLENS and
 CODELENS): inflate_table accepts it, each bit is read as a length of zero, and what is missed in
 the end is the end-of-block code.
 */
module VoidCode {
  import opened Bits
  import opened Canonical
  import opened TableSpace
  import opened InfTrees
  import opened InflateTable
  import opened TableLookup
  import opened InflateSpec
  import opened InflateRun

  predicate Void(lens: seq<nat>) {
    forall i :: 0 <= i < |lens| ==> lens[i] == 0
  }

  lemma {:induction false} VoidCount(lens: seq<nat>, b: nat)
    requires Void(lens) && b >= 1
    ensures Count(lens, b) == 0
  {
    if lens != [] {
      VoidCount(lens[..|lens| - 1], b);
    }
  }

  lemma {:induction false} VoidUsed(lens: seq<nat>, b: nat)
    requires Void(lens)
    ensures Used(lens, b) == 0
  {
    if b > 0 {
      VoidUsed(lens, b - 1);
      VoidCount(lens, b);
    }
  }

  lemma VoidIncomplete(lens: seq<nat>)
    requires Void(lens)
    ensures NotOversubscribed(lens) && !Complete(lens)
  {
    VoidUsed(lens, MAXBITS);
  }

  /** The vector without codes is the only incomplete one that is accepted for the code length code. */
  lemma VoidIff(lens: seq<nat>)
    requires Accepted(CODES, lens)
    ensures Void(lens) <==> !Complete(lens)
  {
    if Void(lens) {
      VoidIncomplete(lens);
    }
  }

  /** Its table consists of invalid entries, and no other table has one. */
  lemma InvalidEntryIff(T: seq<Code>, lens: seq<nat>, root: nat, i: nat)
    requires TableFor(T, CODES, lens, root) && i < Pow2(root)
    ensures T[i] == INVALID_ENTRY <==> Void(lens)
  {
    hide AllPlaced, LensOk, Accepted, Complete, OneLevel;
    NoLinks(T, lens, root, i);
    TableLens(T, CODES, lens, root);
    VoidIff(lens);
    IndexItself(i, Pow2(root));
  }

  lemma IndexItself(i: nat, n: nat)
    requires i < n
    ensures i % n == i
  {
  }

  /** A bit that is there is invalid exactly in a code without codes. */
  lemma InvalidIff(lens: seq<nat>, bits: seq<bool>)
    requires Accepted(CODES, lens) && bits != []
    ensures DecodeSym(lens, bits).Invalid? <==> Void(lens)
  {
    VoidIff(lens);
  }

  lemma ReadsZero(a: Abs, B: seq<bool>)
    requires |B| % 8 == 0 && a.pos < |B| && a.phase.CodeLens? && Void(a.phase.cl) && |a.phase.lens| < a.phase.nlen + a.phase.ndist
    ensures Step(a, B) == Some(a.(phase := a.phase.(lens := a.phase.lens + Repeat(0, 1)), pos := a.pos + 1))
  {
    hide DecodeSym, Step, Complete, NotOversubscribed;
    StepIs(a, B);
    VoidIncomplete(a.phase.cl);
    InvalidIff(a.phase.cl, B[a.pos..]);
  }

  lemma LastLength(a: Abs, B: seq<bool>)
    requires |B| % 8 == 0 && a.pos <= |B| && a.phase.CodeLens? && |a.phase.lens| == a.phase.nlen + a.phase.ndist
    ensures Step(a, B) == Some(FinishLens(a))
  {
    hide FinishLens, Step;
    StepIs(a, B);
  }

  /** Each bit is read as a length of zero, and the lengths are then wrong. */
  lemma {:induction false} ReadsZeros(a: Abs, B: seq<bool>)
    requires |B| % 8 == 0 && a.phase.CodeLens? && Void(a.phase.cl) && Void(a.phase.lens)
    requires |a.phase.lens| <= a.phase.nlen + a.phase.ndist
    requires a.pos + (a.phase.nlen + a.phase.ndist - |a.phase.lens|) <= |B|
    ensures Reaches(a, B, a.(phase := Bad, pos := a.pos + (a.phase.nlen + a.phase.ndist - |a.phase.lens|)))
    decreases a.phase.nlen + a.phase.ndist - |a.phase.lens|
  {
    hide Reaches, FinishLens, DecodeSym, Step, Complete, NotOversubscribed, Run, StepCodeLens;
    var CodeLens(nlen, ndist, cl, lens) := a.phase;
    if |lens| == nlen + ndist {
      NoEndOfBlock(a);
      LastLength(a, B);
      ReachesStep(a, B, a.(phase := Bad));
      assert a.(phase := Bad) == a.(phase := Bad, pos := a.pos);
    } else {
      var b := a.(phase := CodeLens(nlen, ndist, cl, lens + Repeat(0, 1)), pos := a.pos + 1);
      ReadsZero(a, B);
      ReachesStep(a, B, b);
      ReadsZeros(b, B);
      ReachesTrans(a, B, b, a.(phase := Bad, pos := a.pos + (nlen + ndist - |lens|)));
    }
  }

  /** Only the check for an end-of-block code fails; the others let these lengths pass. */
  lemma NoEndOfBlock(a: Abs)
    requires a.phase.CodeLens? && Void(a.phase.lens) && |a.phase.lens| == a.phase.nlen + a.phase.ndist
    ensures FinishLens(a) == a.(phase := Bad)
    ensures var ll, dl := a.phase.lens[..a.phase.nlen], a.phase.lens[a.phase.nlen..];
            Accepted(LENS, ll) && Fits(LENS, ll, LENS_BITS) && Accepted(DISTS, dl) && Fits(DISTS, dl, DISTS_BITS)
  {
    var ll, dl := a.phase.lens[..a.phase.nlen], a.phase.lens[a.phase.nlen..];
    VoidIncomplete(ll);
    VoidIncomplete(dl);
    NoSyms(ll, MAXBITS);
    NoSyms(dl, MAXBITS);
  }

  lemma {:induction false} NoSyms(lens: seq<nat>, b: nat)
    requires Void(lens)
    ensures SortedSyms(lens, b) == []
  {
    hide Count;
    if b > 0 {
      NoSyms(lens, b - 1);
      VoidCount(lens, b);
      assert lens[..|lens|] == lens;
    }
  }

  /** The lengths of the code length code, all of them zero. */
  lemma {:induction false} ReadsVoid(a: Abs, B: seq<bool>)
    requires |B| % 8 == 0 && a.phase.LenLens? && Void(a.phase.read) && |a.phase.read| <= a.phase.ncode <= 19
    requires var n := 3 * (a.phase.ncode - |a.phase.read|);
             a.pos + n <= |B| && forall i :: a.pos <= i < a.pos + n ==> !B[i]
    ensures Reaches(a, B, a.(phase := CodeLens(a.phase.nlen, a.phase.ndist, Repeat(0, 19), []),
                             pos := a.pos + 3 * (a.phase.ncode - |a.phase.read|)))
    decreases a.phase.ncode - |a.phase.read|
  {
    hide Reaches, Step, Accepted, Val;
    StepIs(a, B);
    var LenLens(nlen, ndist, ncode, read) := a.phase;
    var c := a.(phase := CodeLens(nlen, ndist, Repeat(0, 19), []), pos := a.pos + 3 * (ncode - |read|));
    if |read| == ncode {
      VoidLens(read);
      ReachesStep(a, B, c);
    } else {
      ZeroBits(B, a.pos, 3);
      var b := a.(phase := LenLens(nlen, ndist, ncode, read + [0]), pos := a.pos + 3);
      ReachesStep(a, B, b);
      ReadsVoid(b, B);
      ReachesTrans(a, B, b, c);
    }
  }

  lemma VoidLens(read: seq<nat>)
    requires Void(read) && |read| <= 19
    ensures CodeLengthLens(read) == Repeat(0, 19) && Accepted(CODES, CodeLengthLens(read))
  {
    VoidIncomplete(CodeLengthLens(read));
  }

  lemma {:induction false} ZeroVal(s: seq<bool>)
    requires forall i :: 0 <= i < |s| ==> !s[i]
    ensures Val(s) == 0
  {
    if s != [] {
      ZeroVal(s[1..]);
    }
  }

  lemma ZeroBits(B: seq<bool>, pos: nat, n: nat)
    requires pos + n <= |B| && forall i :: pos <= i < pos + n ==> !B[i]
    ensures ReadBits(B, pos, n) == 0
  {
    ZeroVal(B[pos..pos + n]);
  }

  /**
   So a block with such a code takes one bit for each length that it announces, whatever the bits
   are, and fails.
   */
  lemma VoidBlockFails(a: Abs, B: seq<bool>)
    requires |B| % 8 == 0 && a.phase.LenLens? && a.phase.read == [] && a.phase.ncode <= 19
    requires var n := 3 * a.phase.ncode;
             a.pos + n + a.phase.nlen + a.phase.ndist <= |B| && forall i :: a.pos <= i < a.pos + n ==> !B[i]
    ensures Reaches(a, B, a.(phase := Bad, pos := a.pos + 3 * a.phase.ncode + a.phase.nlen + a.phase.ndist))
  {
    hide Reaches;
    var LenLens(nlen, ndist, ncode, read) := a.phase;
    var c := a.(phase := CodeLens(nlen, ndist, Repeat(0, 19), []), pos := a.pos + 3 * ncode);
    ReadsVoid(a, B);
    ReadsZeros(c, B);
    ReachesTrans(a, B, c, a.(phase := Bad, pos := a.pos + 3 * ncode + nlen + ndist));
  }

  /** A last block of this kind, with the fewest lengths, and nothing but zeros. */
  function VoidFile(): (data: seq<Byte>)
    ensures |data| == 36
  {
    [5] + seq(35, _ => 0)
  }

  lemma VoidFileBits(i: nat)
    requires i < 8 * 36
    ensures BytesBits(VoidFile())[i] == (i == 0 || i == 2)
  {
    hide BytesBits, Lsb;
    var data, k := VoidFile(), i / 8;
    BytesBitsAt(data, k);
    assert BytesBits(data)[i] == BytesBits(data)[8 * k..8 * k + 8][i % 8];
    LsbOfFive();
    LsbZeros(8);
  }

  lemma LsbOfFive()
    ensures Lsb(5, 8) == [true, false, true] + Zeros(5)
  {
    LsbZeros(5);
    assert Lsb(5, 8) == [true] + ([false] + ([true] + Lsb(0, 5)));
  }

  /** Its header, and its counts, the least there are. */
  lemma VoidHeader(B: seq<bool>)
    requires |B| == 288 && forall i :: 0 <= i < |B| ==> B[i] == (i == 0 || i == 2)
    ensures Reaches(START, B, Abs(LenLens(257, 1, 4, []), true, 17, []))
  {
    hide Reaches, Step, Val;
    var t, l := Abs(Table, true, 3, []), Abs(LenLens(257, 1, 4, []), true, 17, []);
    assert B[1..3] == [false, true];
    TwoBits();
    StepIs(START, B);
    ReachesStep(START, B, t);
    ZeroBits(B, 3, 5);
    ZeroBits(B, 8, 5);
    ZeroBits(B, 13, 4);
    StepIs(t, B);
    ReachesStep(t, B, l);
    ReachesTrans(START, B, t, l);
  }

  /** The decoder reads 258 lengths off it, up to bit 287, before it finds fault. */
  lemma VoidFileFails()
    ensures Reaches(START, BytesBits(VoidFile()), Abs(Bad, true, 287, []))
  {
    hide Reaches, BytesBits, VoidFile;
    var B := BytesBits(VoidFile());
    forall i | 0 <= i < |B| ensures B[i] == (i == 0 || i == 2) {
      VoidFileBits(i);
    }
    VoidHeader(B);
    var l := Abs(LenLens(257, 1, 4, []), true, 17, []);
    VoidBlockFails(l, B);
    ReachesTrans(START, B, l, Abs(Bad, true, 287, []));
  }

  lemma TwoBits()
    ensures Val([false, true]) == 2
  {
    assert Val([true]) == 1;
  }
}
