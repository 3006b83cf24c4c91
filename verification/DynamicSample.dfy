/**
 A whole dynamic block: the file "05 c0 21 0d 00 00 00 80 b0 fe 6d 2f 91 6c" of
 libz_all/test/infcover.c, in which codes of the code length code are sent for the symbols 0, 1, 2,
 17 and 18.
 */
module DynamicSample {
  import opened Bits
  import opened Canonical
  import opened TableSpace
  import opened SortedCodes
  import opened InflateTable
  import opened InflateSpec
  import opened InflateRun
  import opened FixedCodes
  import opened VoidCode
  import opened Samples

  function Pull17(): (data: seq<Byte>)
    ensures |data| == 14
  {
    [0x05, 0xc0, 0x21, 0x0d, 0, 0, 0, 0x80, 0xb0, 0xfe, 0x6d, 0x2f, 0x91, 0x6c]
  }

  /* ---------- the code length code ---------- */

  ghost predicate Field(B: seq<bool>, p: nat, n: nat, v: nat) {
    p + n <= |B| && ReadBits(B, p, n) == v
  }

  /** Lengths of the code length code, one after the other. */
  lemma {:induction false} LengthsRead(a: Abs, B: seq<bool>, vals: seq<nat>)
    requires |B| % 8 == 0 && a.pos <= |B| && a.phase.LenLens? && |a.phase.read| + |vals| <= a.phase.ncode
    requires forall i :: 0 <= i < |vals| ==> Field(B, a.pos + 3 * i, 3, vals[i])
    ensures Reaches(a, B, a.(phase := a.phase.(read := a.phase.read + vals), pos := a.pos + 3 * |vals|))
    decreases |vals|
  {
    hide Reaches, Step, ReadBits;
    if vals == [] {
      assert a.phase.read + vals == a.phase.read;
      ReachesSelf(a, B);
    } else {
      var b := a.(phase := a.phase.(read := a.phase.read + [vals[0]]), pos := a.pos + 3);
      assert Field(B, a.pos + 3 * 0, 3, vals[0]);
      StepIs(a, B);
      ReachesStep(a, B, b);
      var rest := vals[1..];
      forall i | 0 <= i < |rest|
        ensures Field(B, b.pos + 3 * i, 3, rest[i])
      {
        assert Field(B, a.pos + 3 * (i + 1), 3, vals[i + 1]);
      }
      LengthsRead(b, B, rest);
      assert b.phase.read + rest == a.phase.read + vals;
      ReachesTrans(a, B, b, b.(phase := b.phase.(read := b.phase.read + rest), pos := b.pos + 3 * |rest|));
    }
  }

  const READ: seq<nat> := [0, 2, 2, 3, 0, 0, 0, 0, 0, 0, 0, 0, 0, 0, 0, 2, 0, 3]

  /** The lengths of the code length code: 3, 3, 2 for the lengths 0, 1, 2, and 2 for both kinds of runs of zeros. */
  function Cl(): (r: seq<nat>)
    ensures |r| == 19
  {
    [3, 3, 2] + Repeat(0, 14) + [2, 2]
  }

  lemma ClIs()
    ensures CodeLengthLens(READ) == Cl()
  {
    TransmissionOrder(READ);
  }

  lemma ClCount(b: nat)
    ensures Count(Cl(), b) == if b == 0 then 14 else if b == 2 then 3 else if b == 3 then 2 else 0
  {
    CountAppend([3, 3, 2] + Repeat(0, 14), [2, 2], b);
    CountAppend([3, 3, 2], Repeat(0, 14), b);
    CountRepeat(0, 14, b);
    CountThree(3, 3, 2, b);
    CountTwo(2, 2, b);
  }

  lemma CountTwo(x: nat, y: nat, b: nat)
    ensures Count([x], b) == if x == b then 1 else 0
    ensures Count([x, y], b) == Count([x], b) + if y == b then 1 else 0
  {
    assert [x, y][..1] == [x] && [x][..0] == [];
  }

  lemma CountThree(x: nat, y: nat, z: nat, b: nat)
    ensures Count([x, y, z], b) == Count([x, y], b) + if z == b then 1 else 0
    ensures Count([x, y], b) == (if x == b then 1 else 0) + if y == b then 1 else 0
  {
    hide Count;
    CountTwo(x, y, b);
    CountAppend([x, y], [z], b);
    CountTwo(z, z, b);
    assert [x, y] + [z] == [x, y, z];
  }

  /** From a full length on all of the code space is taken. */
  lemma {:induction false} StaysFull(lens: seq<nat>, b: nat, c: nat)
    requires b <= c && Used(lens, b) == Pow2(b) && forall i :: b < i <= c ==> Count(lens, i) == 0
    ensures Used(lens, c) == Pow2(c)
  {
    if b < c {
      StaysFull(lens, b, c - 1);
    }
  }

  lemma ClComplete()
    ensures Complete(Cl())
    ensures Used(Cl(), 1) == 0 && Used(Cl(), 2) == 3
  {
    hide Count;
    ClCount(1);
    ClCount(2);
    ClCount(3);
    assert Used(Cl(), 0) == 0;
    assert Used(Cl(), 2) == 3;
    Pow2Values();
    forall i | 3 < i <= MAXBITS
      ensures Count(Cl(), i) == 0
    {
      ClCount(i);
    }
    StaysFull(Cl(), 3, MAXBITS);
  }

  lemma ClCodes()
    ensures CodeOf(Cl(), 0) == 6 && CodeOf(Cl(), 1) == 7 && CodeOf(Cl(), 2) == 0 && CodeOf(Cl(), 17) == 1 && CodeOf(Cl(), 18) == 2
  {
    hide Count, Used;
    ClComplete();
    CountTwo(3, 3, 2);
    CountTwo(3, 3, 3);
    assert Cl()[..1] == [3] && Cl()[..2] == [3, 3] && Cl()[..0] == [];
    CountNone(3);
    BeforeRuns();
  }

  lemma BeforeRuns()
    ensures Count(Cl()[..17], 2) == 1 && Count(Cl()[..18], 2) == 2
  {
    hide Count;
    assert Cl()[..17] == [3, 3, 2] + Repeat(0, 14);
    assert Cl()[..18] == Cl()[..17] + [2];
    CountAppend([3, 3, 2], Repeat(0, 14), 2);
    CountAppend(Cl()[..17], [2], 2);
    CountRepeat(0, 14, 2);
    CountThree(3, 3, 2, 2);
    CountTwo(2, 2, 2);
  }

  lemma CountNone(b: nat)
    ensures Count([], b) == 0
  {
  }

  /* ---------- the code lengths ---------- */

  /** A state among the code lengths. */
  function Among(lens: seq<nat>, pos: nat): Abs {
    Abs(CodeLens(257, 1, Cl(), lens), true, pos, [])
  }

  /** Symbol s is read where lens have been. */
  lemma SymbolRead(B: seq<bool>, lens: seq<nat>, pos: nat, s: nat)
    requires |B| % 8 == 0 && |lens| < 258 && s < 19 && Cl()[s] >= 1 && pos + Cl()[s] <= |B|
    requires MsbVal(B[pos..pos + Cl()[s]]) == CodeOf(Cl(), s)
    ensures Step(Among(lens, pos), B) == AfterCodeLen(Among(lens, pos), B, s, Cl()[s])
  {
    hide Step, CodeOf, MsbVal, Cl, DecodeSym, AfterCodeLen, Used;
    ClComplete();
    StepIs(Among(lens, pos), B);
    Decodes(Cl(), B, pos, s);
  }

  /** A length by itself. */
  lemma OneLength(B: seq<bool>, lens: seq<nat>, pos: nat, s: nat)
    requires |B| % 8 == 0 && |lens| < 258 && s < 3 && pos + Cl()[s] <= |B|
    requires MsbVal(B[pos..pos + Cl()[s]]) == CodeOf(Cl(), s)
    ensures Reaches(Among(lens, pos), B, Among(lens + Repeat(s, 1), pos + Cl()[s]))
  {
    hide Reaches, Step, CodeOf, MsbVal;
    SymbolRead(B, lens, pos, s);
    ReachesStep(Among(lens, pos), B, Among(lens + Repeat(s, 1), pos + Cl()[s]));
  }

  /** A run of n zeros, 3 to 10 of them with symbol 17 and 11 to 138 with symbol 18. */
  lemma RunOfZeros(B: seq<bool>, lens: seq<nat>, pos: nat, s: nat, n: nat)
    requires |B| % 8 == 0 && |lens| + n <= 258 && pos + 9 <= |B| && (s == 17 || s == 18) && MsbVal(B[pos..pos + 2]) == CodeOf(Cl(), s)
    requires (s == 17 && n == 3 + ReadBits(B, pos + 2, 3)) || (s == 18 && n == 11 + ReadBits(B, pos + 2, 7))
    ensures Reaches(Among(lens, pos), B, Among(lens + Repeat(0, n), pos + if s == 17 then 5 else 9))
  {
    hide Reaches, Step, CodeOf, MsbVal, ReadBits;
    SymbolRead(B, lens, pos, s);
    ReachesStep(Among(lens, pos), B, Among(lens + Repeat(0, n), pos + if s == 17 then 5 else 9));
  }

  /** The lengths of the literal/length code: 1 for 240, and 2 for 248 and the end of the block. */
  function Ll(): (r: seq<nat>)
    ensures |r| == 257
  {
    Repeat(0, 138) + Repeat(0, 102) + Repeat(1, 1) + Repeat(0, 7) + Repeat(2, 1) + Repeat(0, 7) + Repeat(2, 1)
  }

  lemma LlCount(k: nat, b: nat)
    requires k == 256 || k == 257
    ensures Count(Ll()[..k], b) == if b == 0 then 254 else if b == 1 then 1 else if b == 2 then k - 255 else 0
  {
    hide Count;
    var r := Repeat(0, 138) + Repeat(0, 102);
    var s := r + Repeat(1, 1);
    var t := s + Repeat(0, 7);
    var u := t + Repeat(2, 1);
    CountAppend(Repeat(0, 138), Repeat(0, 102), b);
    CountAppend(r, Repeat(1, 1), b);
    CountAppend(s, Repeat(0, 7), b);
    CountAppend(t, Repeat(2, 1), b);
    CountAppend(u, Repeat(0, 7), b);
    CountAppend(u + Repeat(0, 7), Repeat(2, 1), b);
    CountRepeat(0, 138, b);
    CountRepeat(0, 102, b);
    CountRepeat(1, 1, b);
    CountRepeat(0, 7, b);
    CountRepeat(2, 1, b);
    assert Ll()[..256] == u + Repeat(0, 7) && Ll()[..257] == Ll();
  }

  lemma LlComplete()
    ensures Complete(Ll()) && CodeOf(Ll(), 256) == 3
  {
    hide Count, Ll;
    LlAt(256);
    assert Ll()[..257] == Ll();
    forall i | 0 < i <= MAXBITS
      ensures Count(Ll(), i) == if i == 1 then 1 else if i == 2 then 2 else 0
    {
      LlCount(257, i);
    }
    LlCount(256, 2);
    assert Used(Ll(), 0) == 0;
    assert Used(Ll(), 2) == 4;
    Pow2Values();
    StaysFull(Ll(), 2, MAXBITS);
    forall i | 0 <= i < 257
      ensures Ll()[i] <= 2
    {
      LlAt(i);
    }
  }

  lemma LlAt(i: nat)
    requires i < 257
    ensures Ll()[i] <= 2 && (i == 256 ==> Ll()[i] == 2)
  {
  }

  /** A code that is not longer than the index of its table always has room. */
  lemma ShortFits(kind: Kind, lens: seq<nat>, bits: nat)
    requires (kind == LENS && bits == LENS_BITS) || (kind == DISTS && bits == DISTS_BITS)
    requires LengthsOk(lens) && forall i :: 0 <= i < |lens| ==> lens[i] <= bits
    ensures Fits(kind, lens, bits)
  {
    hide SortedSyms, TableSize;
    if Syms(lens) != [] {
      ShortSize(lens, bits);
      Pow2Monotone(LenAt(lens, |Syms(lens)| - 1), bits);
      Pow2Values();
    }
  }

  lemma ShortSize(lens: seq<nat>, bits: nat)
    requires LengthsOk(lens) && (forall i :: 0 <= i < |lens| ==> lens[i] <= bits) && Syms(lens) != []
    ensures TableSize(lens, bits) == Pow2(LenAt(lens, |Syms(lens)| - 1)) && LenAt(lens, |Syms(lens)| - 1) <= bits
  {
    hide SortedSyms, SubSpace, CurrBits, Pow2;
    var n := |Syms(lens)| - 1;
    LensSorted(lens, 0, n);
    NoSubTables(lens, LenAt(lens, n), n);
  }

  /* ---------- the file ---------- */

  /** Block header and counts: 257 literal/length codes, one distance code, 18 code length codes. */
  lemma HeaderRead(B: seq<bool>)
    requires B == BytesBits(Pull17())
    ensures Reaches(START, B, Abs(LenLens(257, 1, 18, []), true, 17, []))
  {
    hide Reaches, BytesBits, Step, ReadBits;
    ByteIs(Pull17(), 0, "10100000");
    BlockType(B, true, 2);
    var t, l := Abs(Table, true, 3, []), Abs(LenLens(257, 1, 18, []), true, 17, []);
    CountsRead(B);
    StepIs(t, B);
    ReachesStep(t, B, l);
    ReachesTrans(START, B, t, l);
  }

  lemma CountsRead(B: seq<bool>)
    requires B == BytesBits(Pull17())
    ensures ReadBits(B, 3, 5) == 0 && ReadBits(B, 8, 5) == 0 && ReadBits(B, 13, 4) == 14
  {
    hide BytesBits, ReadBits;
    ByteIs(Pull17(), 0, "10100000");
    ByteIs(Pull17(), 1, "00000011");
    ByteIs(Pull17(), 2, "10000100");
    Read5(B, 3);
    Read5(B, 8);
    Read4(B, 13);
  }

  /** The fields of the code length code. */
  lemma FieldsRead(B: seq<bool>)
    requires B == BytesBits(Pull17())
    ensures forall i :: 0 <= i < 18 ==> Field(B, 17 + 3 * i, 3, READ[i])
  {
    hide BytesBits, ReadBits;
    ByteIs(Pull17(), 2, "10000100");
    ByteIs(Pull17(), 3, "10110000");
    ByteIs(Pull17(), 7, "00000001");
    ByteIs(Pull17(), 8, "00001101");
    forall i: nat | 30 <= i < 63
      ensures !B[i]
    {
      if 32 <= i < 56 {
        ZeroByte(Pull17(), i);
      }
    }
    forall i: nat | i < 18
      ensures Field(B, 17 + 3 * i, 3, READ[i])
    {
      Read3(B, 17 + 3 * i);
    }
  }

  lemma ZeroByte(data: seq<Byte>, i: nat)
    requires i / 8 < |data| && data[i / 8] == 0
    ensures !BytesBits(data)[i]
  {
    hide BytesBits, Lsb;
    BytesBitsAt(data, i / 8);
    LsbZeros(8);
    assert BytesBits(data)[i] == BytesBits(data)[8 * (i / 8)..8 * (i / 8) + 8][i % 8];
  }

  /** All lengths of the code length code have been read, and its table can be built. */
  lemma TableBuilt(a: Abs, B: seq<bool>)
    requires |B| % 8 == 0 && a.pos <= |B| && a.phase.LenLens? && |a.phase.read| == a.phase.ncode <= 19
    requires Accepted(CODES, CodeLengthLens(a.phase.read))
    ensures Step(a, B) == Some(a.(phase := CodeLens(a.phase.nlen, a.phase.ndist, CodeLengthLens(a.phase.read), [])))
  {
    hide Step, Accepted, CodeLengthLens;
    StepIs(a, B);
  }

  lemma ClAccepted()
    ensures Accepted(CODES, CodeLengthLens(READ)) && CodeLengthLens(READ) == Cl()
  {
    hide Cl, CodeLengthLens, Used, Pow2;
    ClIs();
    ClComplete();
  }

  /** Up to the code lengths. */
  lemma TreesBegun(B: seq<bool>)
    requires B == BytesBits(Pull17())
    ensures Reaches(START, B, Among([], 71))
  {
    hide Reaches, BytesBits, Step, ReadBits, Cl, CodeLengthLens, Accepted, Field, Pull17;
    HeaderRead(B);
    FieldsRead(B);
    var l, m := Abs(LenLens(257, 1, 18, []), true, 17, []), Abs(LenLens(257, 1, 18, READ), true, 71, []);
    LengthsRead(l, B, READ);
    assert [] + READ == READ;
    ReachesTrans(START, B, l, m);
    ClAccepted();
    assert |READ| == 18;
    TableBuilt(m, B);
    ReachesStep(m, B, Among([], 71));
    ReachesTrans(START, B, m, Among([], 71));
  }

  lemma Bytes8To10(B: seq<bool>)
    requires B == BytesBits(Pull17())
    ensures B[71] && !B[72] && B[73] && B[74] && B[75] && B[76] && B[77] && B[78] && B[79]
    ensures B[80] && !B[81] && B[82] && B[83] && !B[84] && B[85] && B[86] && !B[87]
  {
    hide BytesBits;
    ByteIs(Pull17(), 8, "00001101");
    ByteIs(Pull17(), 9, "01111111");
    ByteIs(Pull17(), 10, "10110110");
  }

  lemma Bytes11To13(B: seq<bool>)
    requires B == BytesBits(Pull17())
    ensures B[88] && B[89] && B[90] && B[91] && !B[92] && B[93] && !B[94] && !B[95]
    ensures B[96] && !B[97] && !B[98] && !B[99] && B[100] && !B[101] && !B[102] && B[103]
    ensures !B[104] && !B[105] && B[106] && B[107] && !B[108] && B[109] && B[110] && !B[111]
  {
    hide BytesBits;
    ByteIs(Pull17(), 11, "11110100");
    ByteIs(Pull17(), 12, "10001001");
    ByteIs(Pull17(), 13, "00110110");
  }

  /** The lengths up to that of 240. */
  lemma FirstLengths(B: seq<bool>)
    requires B == BytesBits(Pull17())
    ensures Reaches(START, B, Among(Repeat(0, 138) + Repeat(0, 102) + Repeat(1, 1), 92))
  {
    hide Reaches, BytesBits, Step, ReadBits, CodeOf, MsbVal;
    TreesBegun(B);
    Bytes8To10(B);
    Bytes11To13(B);
    ClCodes();
    Code2(B, 71);
    Read7(B, 73);
    RunOfZeros(B, [], 71, 18, 138);
    assert [] + Repeat(0, 138) == Repeat(0, 138);
    ReachesTrans(START, B, Among([], 71), Among(Repeat(0, 138), 80));
    Code2(B, 80);
    Read7(B, 82);
    RunOfZeros(B, Repeat(0, 138), 80, 18, 102);
    var l := Repeat(0, 138) + Repeat(0, 102);
    ReachesTrans(START, B, Among(Repeat(0, 138), 80), Among(l, 89));
    Code3(B, 89);
    OneLength(B, l, 89, 1);
    ReachesTrans(START, B, Among(l, 89), Among(l + Repeat(1, 1), 92));
  }

  /** All lengths: the last one is that of the distance code. */
  lemma AllLengths(B: seq<bool>)
    requires B == BytesBits(Pull17())
    ensures Reaches(START, B, Among(Ll() + Repeat(0, 1), 109))
  {
    hide Reaches, BytesBits, Step, ReadBits, CodeOf, MsbVal;
    FirstLengths(B);
    Bytes11To13(B);
    ClCodes();
    var l := Repeat(0, 138) + Repeat(0, 102) + Repeat(1, 1);
    Code2(B, 92);
    Read3(B, 94);
    RunOfZeros(B, l, 92, 17, 7);
    var l1 := l + Repeat(0, 7);
    ReachesTrans(START, B, Among(l, 92), Among(l1, 97));
    Code2(B, 97);
    OneLength(B, l1, 97, 2);
    var l2 := l1 + Repeat(2, 1);
    ReachesTrans(START, B, Among(l1, 97), Among(l2, 99));
    Code2(B, 99);
    Read3(B, 101);
    RunOfZeros(B, l2, 99, 17, 7);
    var l3 := l2 + Repeat(0, 7);
    ReachesTrans(START, B, Among(l2, 99), Among(l3, 104));
    Code2(B, 104);
    OneLength(B, l3, 104, 2);
    ReachesTrans(START, B, Among(l3, 104), Among(Ll(), 106));
    Code3(B, 106);
    OneLength(B, Ll(), 106, 0);
    ReachesTrans(START, B, Among(Ll(), 106), Among(Ll() + Repeat(0, 1), 109));
  }

  lemma Checked()
    ensures FinishLens(Among(Ll() + Repeat(0, 1), 109)) == Abs(Len(Ll(), [0]), true, 109, [])
  {
    hide Ll, Complete, SortedSyms, TableSize;
    LlComplete();
    LlAt(256);
    var lens := Ll() + Repeat(0, 1);
    assert lens[..257] == Ll() && lens[257..] == [0] && lens[256] == 2;
    forall i | 0 <= i < 257
      ensures Ll()[i] <= LENS_BITS
    {
      LlAt(i);
    }
    LlLengths();
    ShortFits(LENS, Ll(), LENS_BITS);
    VoidIncomplete([0]);
    NoSyms([0], MAXBITS);
  }

  lemma LlLengths()
    ensures NotOversubscribed(Ll())
  {
    LlComplete();
  }

  /** The file holds nothing, and ends where it says. */
  lemma Pull17Ends()
    ensures Reaches(START, BytesBits(Pull17()), Abs(Done, true, 112, []))
  {
    hide Reaches, BytesBits, Step, CodeOf, MsbVal, Ll, FinishLens, Complete, DecodeSym;
    var B := BytesBits(Pull17());
    AllLengths(B);
    var a, b := Among(Ll() + Repeat(0, 1), 109), Abs(Len(Ll(), [0]), true, 109, []);
    Checked();
    LastLength(a, B);
    ReachesStep(a, B, b);
    ReachesTrans(START, B, a, b);
    Bytes11To13(B);
    Code2(B, 109);
    LlComplete();
    LlLengths();
    LlAt(256);
    Decodes(Ll(), B, 109, 256);
    var c := Abs(Type, true, 111, []);
    StepIs(b, B);
    ReachesStep(b, B, c);
    ReachesTrans(START, B, b, c);
    StepIs(c, B);
    ReachesStep(c, B, Abs(Done, true, 112, []));
    ReachesTrans(START, B, c, Abs(Done, true, 112, []));
  }
}
