/**
 Files of libz_all/test/infcover.c, read by the decoder from their first bit to the verdict that
 the test expects.
 */
module Samples {
  import opened Bits
  import opened Canonical
  import opened Alphabet
  import opened Lz77
  import opened InflateSpec
  import opened InflateRun
  import opened FixedCodes

  /* ---------- bits written out as strings of zeros and ones ---------- */

  function Octet(s: string): nat
    requires |s| == 8
  {
    BitOf(s[0]) + 2 * BitOf(s[1]) + 4 * BitOf(s[2]) + 8 * BitOf(s[3])
    + 16 * BitOf(s[4]) + 32 * BitOf(s[5]) + 64 * BitOf(s[6]) + 128 * BitOf(s[7])
  }

  function BitOf(c: char): nat {
    Bit(c == '1')
  }

  /** The bits of s, which are those of the byte at k, the least significant one first. */
  lemma ByteIs(data: seq<Byte>, k: nat, s: string)
    requires k < |data| && |s| == 8 && data[k] == Octet(s)
    ensures var B, i := BytesBits(data), 8 * k;
            && B[i] == (s[0] == '1') && B[i + 1] == (s[1] == '1') && B[i + 2] == (s[2] == '1') && B[i + 3] == (s[3] == '1')
            && B[i + 4] == (s[4] == '1') && B[i + 5] == (s[5] == '1') && B[i + 6] == (s[6] == '1') && B[i + 7] == (s[7] == '1')
  {
    hide BytesBits, Lsb, Val;
    var v := [s[0] == '1', s[1] == '1', s[2] == '1', s[3] == '1', s[4] == '1', s[5] == '1', s[6] == '1', s[7] == '1'];
    Val8(v);
    LsbVal(v);
    BytesBitsAt(data, k);
    var w := BytesBits(data)[8 * k..8 * k + 8];
    assert w == v;
    assert w[0] == v[0] && w[1] == v[1] && w[2] == v[2] && w[3] == v[3] && w[4] == v[4] && w[5] == v[5] && w[6] == v[6] && w[7] == v[7];
  }

  lemma Val4(v: seq<bool>)
    requires |v| == 4
    ensures Val(v) == Bit(v[0]) + 2 * Bit(v[1]) + 4 * Bit(v[2]) + 8 * Bit(v[3])
  {
    assert v[1..][1..] == v[2..] && v[2..][1..] == v[3..];
    assert Val(v[3..]) == Bit(v[3]);
    assert Val(v[2..]) == Bit(v[2]) + 2 * Bit(v[3]);
  }

  lemma Val8(v: seq<bool>)
    requires |v| == 8
    ensures Val(v) == Bit(v[0]) + 2 * Bit(v[1]) + 4 * Bit(v[2]) + 8 * Bit(v[3])
                      + 16 * Bit(v[4]) + 32 * Bit(v[5]) + 64 * Bit(v[6]) + 128 * Bit(v[7])
  {
    hide Val;
    assert v == v[..4] + v[4..];
    ValAppend(v[..4], v[4..]);
    Val4(v[..4]);
    Val4(v[4..]);
    Pow2Values();
  }

  /** A field of n + 1 bits. */
  lemma ReadMore(B: seq<bool>, p: nat, n: nat)
    requires p + n + 1 <= |B|
    ensures ReadBits(B, p, n + 1) == Bit(B[p]) + 2 * ReadBits(B, p + 1, n)
  {
    assert B[p..p + n + 1][1..] == B[p + 1..p + 1 + n];
  }

  lemma Read2(B: seq<bool>, p: nat)
    requires p + 2 <= |B|
    ensures ReadBits(B, p, 2) == Bit(B[p]) + 2 * Bit(B[p + 1])
  {
    hide Val;
    ReadMore(B, p, 1);
    ReadMore(B, p + 1, 0);
    assert ReadBits(B, p + 2, 0) == 0 by { ValBound(B[p + 2..p + 2]); }
  }

  lemma Read3(B: seq<bool>, p: nat)
    requires p + 3 <= |B|
    ensures ReadBits(B, p, 3) == Bit(B[p]) + 2 * Bit(B[p + 1]) + 4 * Bit(B[p + 2])
  {
    hide ReadBits;
    ReadMore(B, p, 2);
    Read2(B, p + 1);
  }

  lemma Read4(B: seq<bool>, p: nat)
    requires p + 4 <= |B|
    ensures ReadBits(B, p, 4) == Bit(B[p]) + 2 * Bit(B[p + 1]) + 4 * Bit(B[p + 2]) + 8 * Bit(B[p + 3])
  {
    hide ReadBits;
    ReadMore(B, p, 3);
    Read3(B, p + 1);
  }

  lemma Read5(B: seq<bool>, p: nat)
    requires p + 5 <= |B|
    ensures ReadBits(B, p, 5) == Bit(B[p]) + 2 * Bit(B[p + 1]) + 4 * Bit(B[p + 2]) + 8 * Bit(B[p + 3]) + 16 * Bit(B[p + 4])
  {
    hide ReadBits;
    ReadMore(B, p, 4);
    Read4(B, p + 1);
  }

  lemma Read7(B: seq<bool>, p: nat)
    requires p + 7 <= |B|
    ensures ReadBits(B, p, 7) == Bit(B[p]) + 2 * Bit(B[p + 1]) + 4 * Bit(B[p + 2]) + 8 * Bit(B[p + 3]) + 16 * Bit(B[p + 4])
                                 + 32 * Bit(B[p + 5]) + 64 * Bit(B[p + 6])
  {
    hide ReadBits;
    ReadMore(B, p, 6);
    ReadMore(B, p + 1, 5);
    Read5(B, p + 2);
  }

  /** A code of n + 1 bits, the most significant one first. */
  lemma CodeMore(B: seq<bool>, p: nat, n: nat)
    requires p + n + 1 <= |B|
    ensures MsbVal(B[p..p + n + 1]) == 2 * MsbVal(B[p..p + n]) + Bit(B[p + n])
  {
    assert B[p..p + n + 1][..n] == B[p..p + n];
  }

  lemma Code2(B: seq<bool>, p: nat)
    requires p + 2 <= |B|
    ensures MsbVal(B[p..p + 1]) == Bit(B[p]) && MsbVal(B[p..p + 2]) == 2 * Bit(B[p]) + Bit(B[p + 1])
  {
    hide MsbVal;
    CodeMore(B, p, 0);
    MsbValNone();
    assert B[p..p] == [];
    CodeMore(B, p, 1);
  }

  lemma Code3(B: seq<bool>, p: nat)
    requires p + 3 <= |B|
    ensures MsbVal(B[p..p + 3]) == 4 * Bit(B[p]) + 2 * Bit(B[p + 1]) + Bit(B[p + 2])
  {
    hide MsbVal;
    Code2(B, p);
    CodeMore(B, p, 2);
  }

  lemma Code5(B: seq<bool>, p: nat)
    requires p + 5 <= |B|
    ensures MsbVal(B[p..p + 5]) == 16 * Bit(B[p]) + 8 * Bit(B[p + 1]) + 4 * Bit(B[p + 2]) + 2 * Bit(B[p + 3]) + Bit(B[p + 4])
  {
    hide MsbVal;
    Code3(B, p);
    CodeMore(B, p, 3);
    CodeMore(B, p, 4);
  }

  lemma Code8(B: seq<bool>, p: nat)
    requires p + 8 <= |B|
    ensures MsbVal(B[p..p + 7]) == 64 * Bit(B[p]) + 32 * Bit(B[p + 1]) + 16 * Bit(B[p + 2]) + 8 * Bit(B[p + 3]) + 4 * Bit(B[p + 4])
                                   + 2 * Bit(B[p + 5]) + Bit(B[p + 6])
    ensures MsbVal(B[p..p + 8]) == 2 * MsbVal(B[p..p + 7]) + Bit(B[p + 7])
  {
    hide MsbVal;
    Code5(B, p);
    CodeMore(B, p, 5);
    CodeMore(B, p, 6);
    CodeMore(B, p, 7);
  }

  /** The bits at p are the code of symbol s. */
  lemma Decodes(lens: seq<nat>, B: seq<bool>, p: nat, s: nat)
    requires NotOversubscribed(lens) && s < |lens| && lens[s] >= 1 && p + lens[s] <= |B|
    requires MsbVal(B[p..p + lens[s]]) == CodeOf(lens, s)
    ensures DecodeSym(lens, B[p..]) == Symbol(s, lens[s])
  {
    hide NotOversubscribed, MsbVal, Msb, CodeOf;
    MsbMsbVal(B[p..p + lens[s]]);
    assert Codeword(lens, s) == B[p..][..lens[s]];
    DecodeSymIs(lens, B[p..], s);
  }

  /* ---------- blocks without trees ---------- */

  /** "06": block type 3. */
  lemma InvalidBlockType()
    ensures Reaches(START, BytesBits([6]), Abs(Bad, false, 3, []))
  {
    hide Reaches, BytesBits, Step, ReadBits;
    var B := BytesBits([6]);
    ByteIs([6], 0, "01100000");
    Read2(B, 1);
    StepIs(START, B);
    ReachesStep(START, B, Abs(Bad, false, 3, []));
  }

  lemma {:induction false} ReadWord(data: seq<Byte>, k: nat)
    requires k + 1 < |data|
    ensures ReadBits(BytesBits(data), 8 * k, 16) == (data[k] as int) + 256 * (data[k + 1] as int)
  {
    hide BytesBits, Lsb, Val, Pow2;
    var B := BytesBits(data);
    BytesBitsAt(data, k);
    BytesBitsAt(data, k + 1);
    assert B[8 * k..8 * k + 16] == B[8 * k..8 * k + 8] + B[8 * k + 8..8 * k + 16];
    ValAppend(Lsb(data[k], 8), Lsb(data[k + 1], 8));
    ValLsb(data[k], 8);
    ValLsb(data[k + 1], 8);
    Pow2Values();
  }

  lemma ReadByte(data: seq<Byte>, k: nat)
    requires k < |data|
    ensures ReadBits(BytesBits(data), 8 * k, 8) == data[k]
  {
    hide BytesBits, Lsb, Val;
    BytesBitsAt(data, k);
    ValLsb(data[k], 8);
    Pow2Values();
  }

  /** "00 00 00 00 00": the complement of the length is wrong. */
  lemma InvalidStoredBlockLengths()
    ensures Reaches(START, BytesBits([0, 0, 0, 0, 0]), Abs(Bad, false, 8, []))
  {
    hide Reaches, BytesBits, Step, ReadBits;
    var data: seq<Byte> := [0, 0, 0, 0, 0];
    var B := BytesBits(data);
    ByteIs(data, 0, "00000000");
    Read2(B, 1);
    var s := Abs(Stored, false, 3, []);
    StepIs(START, B);
    ReachesStep(START, B, s);
    var t := Abs(Stored, false, 8, []);
    StepIs(s, B);
    ReachesStep(s, B, t);
    ReachesTrans(START, B, s, t);
    ReadWord(data, 1);
    ReadWord(data, 3);
    StepIs(t, B);
    ReachesStep(t, B, t.(phase := Bad));
    ReachesTrans(START, B, t, t.(phase := Bad));
  }

  /** "01 01 00 fe ff 00": a stored byte. */
  lemma StoredByte()
    ensures Reaches(START, BytesBits([1, 1, 0, 0xfe, 0xff, 0]), Abs(Done, true, 48, [0]))
  {
    hide Reaches, BytesBits, Step, ReadBits;
    var data: seq<Byte> := [1, 1, 0, 0xfe, 0xff, 0];
    var B := BytesBits(data);
    ByteIs(data, 0, "10000000");
    Read2(B, 1);
    var s := Abs(Stored, true, 3, []);
    StepIs(START, B);
    ReachesStep(START, B, s);
    var t := Abs(Stored, true, 8, []);
    StepIs(s, B);
    ReachesStep(s, B, t);
    ReachesTrans(START, B, s, t);
    ReadWord(data, 1);
    ReadWord(data, 3);
    var c := Abs(Copy(1), true, 40, []);
    StepIs(t, B);
    ReachesStep(t, B, c);
    ReachesTrans(START, B, t, c);
    CopyByte(data, c);
    ReachesTrans(START, B, c, Abs(Done, true, 48, [0]));
  }

  lemma TypeLast(e: Abs, B: seq<bool>)
    requires |B| % 8 == 0 && e.pos <= |B| && e.phase.Type? && e.last && e.pos % 8 == 0
    ensures Step(e, B) == Some(e.(phase := Done))
  {
    hide Step;
    StepIs(e, B);
  }

  lemma CopyByte(data: seq<Byte>, c: Abs)
    requires |data| == 6 && data[5] == 0 && c == Abs(Copy(1), true, 40, [])
    ensures Reaches(c, BytesBits(data), Abs(Done, true, 48, [0]))
  {
    hide Reaches, BytesBits, ReadBits, StepType, StepStored, StepTable, StepLenLens, StepCodeLens, StepLen, StepDist, StepMatch;
    var B := BytesBits(data);
    ReadByte(data, 5);
    assert c.out + [ReadBits(B, c.pos, 8)] == [0];
    var d, e := Abs(Copy(0), true, 48, [0]), Abs(Type, true, 48, [0]);
    ReachesStep(c, B, d);
    ReachesStep(d, B, e);
    ReachesTrans(c, B, d, e);
    TypeLast(e, B);
    ReachesStep(e, B, e.(phase := Done));
    ReachesTrans(c, B, e, e.(phase := Done));
  }

  /** "fc 00 00": 288 literal/length codes are announced. */
  lemma TooManyLengthOrDistanceSymbols()
    ensures Reaches(START, BytesBits([0xfc, 0, 0]), Abs(Bad, false, 17, []))
  {
    hide Reaches, BytesBits, Step, ReadBits;
    var data: seq<Byte> := [0xfc, 0, 0];
    var B := BytesBits(data);
    ByteIs(data, 0, "00111111");
    Read2(B, 1);
    var t := Abs(Table, false, 3, []);
    StepIs(START, B);
    ReachesStep(START, B, t);
    Read5(B, 3);
    StepIs(t, B);
    ReachesStep(t, B, Abs(Bad, false, 17, []));
    ReachesTrans(START, B, t, Abs(Bad, false, 17, []));
  }

  /* ---------- fixed codes ---------- */

  /** The table of section 3.2.6 of RFC 1951. */
  lemma FixedLitCodes(s: nat)
    requires s < 288
    ensures s < 144 ==> FixedLit()[s] == 8 && CodeOf(FixedLit(), s) == 0x30 + s
    ensures 144 <= s < 256 ==> FixedLit()[s] == 9 && CodeOf(FixedLit(), s) == 0x190 + (s - 144)
    ensures 256 <= s < 280 ==> FixedLit()[s] == 7 && CodeOf(FixedLit(), s) == s - 256
    ensures 280 <= s ==> FixedLit()[s] == 8 && CodeOf(FixedLit(), s) == 0xc0 + (s - 280)
  {
    hide Used, Count, Complete, FixedLit;
    FixedLitComplete();
    FixedLitUsed(FixedLit()[s] - 1);
    CountFixed(s, FixedLit()[s]);
    Pow2Values();
  }

  lemma {:induction false} CountFixed(s: nat, b: nat)
    requires s <= 288
    ensures Count(FixedLit()[..s], b) ==
      if b == 7 then (if s < 256 then 0 else if s < 280 then s - 256 else 24)
      else if b == 8 then (if s < 144 then s else if s < 280 then 144 else 144 + (s - 280))
      else if b == 9 then (if s < 144 then 0 else if s < 256 then s - 144 else 112)
      else 0
  {
    hide FixedLit;
    FixedLitComplete();
    if s > 0 {
      CountFixed(s - 1, b);
      assert FixedLit()[..s][..s - 1] == FixedLit()[..s - 1];
    }
  }

  lemma BlockType(B: seq<bool>, last: bool, kind: nat)
    requires |B| % 8 == 0 && |B| >= 8 && B[0] == last && kind == Bit(B[1]) + 2 * Bit(B[2])
    ensures Reaches(START, B, AfterHeader(START, last, kind))
  {
    hide Reaches, Step, ReadBits;
    Read2(B, 1);
    StepIs(START, B);
    ReachesStep(START, B, AfterHeader(START, last, kind));
  }

  /** A literal/length code at pos, which leads from START to the state behind it. */
  lemma FixedCode(B: seq<bool>, a: Abs, s: nat)
    requires |B| % 8 == 0 && Reaches(START, B, a) && a.phase == Len(FixedLit(), FixedDist())
    requires s < 288 && a.pos + FixedLit()[s] <= |B| && MsbVal(B[a.pos..a.pos + FixedLit()[s]]) == CodeOf(FixedLit(), s)
    ensures Reaches(START, B, AfterLen(a, s, FixedLit()[s]))
  {
    hide Reaches, Step, DecodeSym, AfterLen, CodeOf, MsbVal, FixedLit, FixedDist, Complete, NotOversubscribed;
    FixedLitComplete();
    FixedUsable();
    Decodes(FixedLit(), B, a.pos, s);
    StepIs(a, B);
    var b := AfterLen(a, s, FixedLit()[s]);
    ReachesStep(a, B, b);
    ReachesTrans(START, B, a, b);
  }

  lemma FixedUsable()
    ensures NotOversubscribed(FixedLit()) && NotOversubscribed(FixedDist())
  {
    hide Used, Count, FixedLit, FixedDist;
    FixedLitComplete();
    FixedDistComplete();
  }

  /** "03 00": nothing but the end of the block. */
  lemma FixedEmpty()
    ensures Reaches(START, BytesBits([3, 0]), Abs(Done, true, 16, []))
  {
    hide Reaches, BytesBits, Step, CodeOf, MsbVal, FixedLit, FixedDist;
    var data: seq<Byte> := [3, 0];
    var B := BytesBits(data);
    ByteIs(data, 0, "11000000");
    ByteIs(data, 1, "00000000");
    BlockType(B, true, 1);
    var a := Abs(Len(FixedLit(), FixedDist()), true, 3, []);
    FixedEnd(B, a);
  }

  /** The end of the last block, and with it of the stream. */
  lemma FixedEnd(B: seq<bool>, a: Abs)
    requires |B| % 8 == 0 && a.phase == Len(FixedLit(), FixedDist()) && a.last && Reaches(START, B, a)
    requires a.pos + 8 <= |B| && forall i :: a.pos <= i < a.pos + 7 ==> !B[i]
    ensures Reaches(START, B, a.(phase := Done, pos := RoundUp(a.pos + 7)))
  {
    hide Reaches, Step, CodeOf, MsbVal, FixedLit, FixedDist;
    FixedLitCodes(256);
    Code8(B, a.pos);
    FixedCode(B, a, 256);
    var b := a.(phase := Type, pos := a.pos + 7);
    StepIs(b, B);
    ReachesStep(b, B, b.(phase := Done, pos := RoundUp(b.pos)));
    ReachesTrans(START, B, b, b.(phase := Done, pos := RoundUp(b.pos)));
  }

  /** A match: the length code s of n bits with its extra bits, then the distance code d. */
  lemma FixedMatch(B: seq<bool>, a: Abs, s: nat, d: nat, length: nat, offset: nat)
    requires |B| % 8 == 0 && Reaches(START, B, a) && a.phase == Len(FixedLit(), FixedDist())
    requires 257 <= s < 286 && d < 30 && LExt()[s - 257] == 16 && DExt()[d] == 16 && LBase()[s - 257] == length && DBase()[d] == offset
    requires var p := a.pos + FixedLit()[s];
             && p + 5 <= |B| && MsbVal(B[a.pos..p]) == CodeOf(FixedLit(), s) && MsbVal(B[p..p + 5]) == d
    requires 1 <= offset <= |a.out| && length >= 1
    ensures Reaches(START, B, a.(pos := a.pos + FixedLit()[s] + 5, out := CopyMatch(a.out, length, offset)))
  {
    hide Reaches, Step, CodeOf, MsbVal, FixedLit, FixedDist, LExt, LBase, DExt, DBase, DecodeSym, CopyMatch;
    var p := a.pos + FixedLit()[s];
    FixedCode(B, a, s);
    var b := a.(phase := LenExt(FixedLit(), FixedDist(), length, 0), pos := p);
    assert AfterLen(a, s, FixedLit()[s]) == b;
    FixedDistance(B, b, d);
    var m := a.(phase := Phase.Match(FixedLit(), FixedDist(), length, offset), pos := p + 5);
    ReachesTrans(START, B, b, m);
    MatchRun(m, B, length);
    ReachesTrans(START, B, m, AfterMatch(m, length));
  }

  /** No extra bits of the length, and the distance code. */
  lemma FixedDistCodeRead(B: seq<bool>, b: Abs, d: nat)
    requires |B| % 8 == 0 && b.phase.LenExt? && b.phase.ll == FixedLit() && b.phase.dl == FixedDist() && b.phase.extra == 0
    requires b.pos + 5 <= |B| && d < 32 && MsbVal(B[b.pos..b.pos + 5]) == d
    ensures Reaches(b, B, AfterDist(b.(phase := Dist(FixedLit(), FixedDist(), b.phase.length)), d, 5))
  {
    hide Reaches, Step, CodeOf, MsbVal, FixedLit, FixedDist, DecodeSym, AfterDist;
    var c := b.(phase := Dist(FixedLit(), FixedDist(), b.phase.length));
    NoExtraSteps(b, B);
    ReachesStep(b, B, c);
    DistCodeAt(B, b.pos, d);
    StepIs(c, B);
    ReachesStep(c, B, AfterDist(c, d, 5));
    ReachesTrans(b, B, c, AfterDist(c, d, 5));
  }

  lemma FixedDistance(B: seq<bool>, b: Abs, d: nat)
    requires |B| % 8 == 0 && b.phase.LenExt? && b.phase.ll == FixedLit() && b.phase.dl == FixedDist() && b.phase.extra == 0
    requires b.pos + 5 <= |B| && d < 30 && DExt()[d] == 16 && MsbVal(B[b.pos..b.pos + 5]) == d
    ensures Reaches(b, B, b.(phase := Phase.Match(FixedLit(), FixedDist(), b.phase.length, DBase()[d]), pos := b.pos + 5))
  {
    hide Reaches, Step, CodeOf, MsbVal, FixedLit, FixedDist, DExt, DBase, DecodeSym;
    FixedDistCodeRead(B, b, d);
    var e := b.(phase := DistExt(FixedLit(), FixedDist(), b.phase.length, DBase()[d], 0), pos := b.pos + 5);
    var m := b.(phase := Phase.Match(FixedLit(), FixedDist(), b.phase.length, DBase()[d]), pos := b.pos + 5);
    NoExtraSteps(e, B);
    ReachesStep(e, B, m);
    ReachesTrans(b, B, e, m);
  }

  lemma NoExtraSteps(a: Abs, B: seq<bool>)
    requires |B| % 8 == 0 && a.pos <= |B|
    ensures a.phase.LenExt? && a.phase.extra == 0 ==>
      Step(a, B) == Some(a.(phase := Dist(a.phase.ll, a.phase.dl, a.phase.length)))
    ensures a.phase.DistExt? && a.phase.extra == 0 ==>
      Step(a, B) == Some(a.(phase := Phase.Match(a.phase.ll, a.phase.dl, a.phase.length, a.phase.offset)))
  {
    hide StepType, StepStored, StepTable, StepLenLens, StepCodeLens, StepLen, StepDist, StepMatch, ReadBits;
    NoExtra(B, a.pos);
  }

  lemma NoExtra(B: seq<bool>, p: nat)
    requires p <= |B|
    ensures ReadBits(B, p, 0) == 0
  {
    ValBound(B[p..p]);
  }

  lemma DistCodeAt(B: seq<bool>, p: nat, d: nat)
    requires p + 5 <= |B| && d < 32 && MsbVal(B[p..p + 5]) == d
    ensures DecodeSym(FixedDist(), B[p..]) == Symbol(d, 5)
  {
    hide MsbVal, CodeOf, Msb, DecodeSym, NotOversubscribed;
    FixedUsable();
    FixedDistCode(d);
    MsbMsbVal(B[p..p + 5]);
    assert B[p..][..5] == B[p..p + 5];
    DecodeSymIs(FixedDist(), B[p..], d);
  }

  /** A literal of eight bits. */
  lemma FixedLiteral(B: seq<bool>, a: Abs, c: Byte)
    requires |B| % 8 == 0 && Reaches(START, B, a) && a.phase == Len(FixedLit(), FixedDist())
    requires c < 144 && a.pos + 8 <= |B| && MsbVal(B[a.pos..a.pos + 8]) == 0x30 + c
    ensures Reaches(START, B, a.(pos := a.pos + 8, out := a.out + [c]))
  {
    hide Reaches, Step, CodeOf, MsbVal, FixedLit, FixedDist;
    FixedLitCodes(c);
    FixedCode(B, a, c);
    var l := a.(phase := Lit(FixedLit(), FixedDist(), c), pos := a.pos + 8);
    var b := a.(pos := a.pos + 8, out := a.out + [c]);
    StepIs(l, B);
    ReachesStep(l, B, b);
    ReachesTrans(START, B, l, b);
  }

  /** "63 18 05 40 0c 00": a zero, 258 more of them, and then three. */
  lemma WindowWrap()
    ensures Reaches(START, BytesBits([0x63, 0x18, 5, 0x40, 0x0c, 0]), Abs(Done, true, 48, Repeat(0, 262)))
  {
    hide Reaches, BytesBits, Step, CodeOf, MsbVal, FixedLit, FixedDist, CopyMatch, LBase, LExt, DBase, DExt;
    var data: seq<Byte> := [0x63, 0x18, 5, 0x40, 0x0c, 0];
    var B := BytesBits(data);
    ByteIs(data, 3, "00000010");
    ByteIs(data, 4, "00110000");
    ByteIs(data, 5, "00000000");
    FirstRun(data);
    var c := Abs(Len(FixedLit(), FixedDist()), true, 24, Repeat(0, 259));
    FixedLitCodes(257);
    Code8(B, 24);
    Code5(B, 31);
    Bases();
    FixedMatch(B, c, 257, 3, 3, 4);
    AllZeros(c.out, 3, 4);
    FixedEnd(B, c.(pos := 36, out := Repeat(0, 262)));
  }

  /** The first three bytes. */
  lemma FirstRun(data: seq<Byte>)
    requires |data| >= 4 && data[0] == 0x63 && data[1] == 0x18 && data[2] == 5
    ensures Reaches(START, BytesBits(data), Abs(Len(FixedLit(), FixedDist()), true, 24, Repeat(0, 259)))
  {
    hide Reaches, BytesBits, Step, CodeOf, MsbVal, FixedLit, FixedDist, CopyMatch, LBase, LExt, DBase, DExt;
    var B := BytesBits(data);
    ByteIs(data, 0, "11000110");
    ByteIs(data, 1, "00011000");
    ByteIs(data, 2, "10100000");
    BlockType(B, true, 1);
    var a := Abs(Len(FixedLit(), FixedDist()), true, 3, []);
    Code8(B, 3);
    FixedLiteral(B, a, 0);
    assert a.out + [0] == Repeat(0, 1);
    FixedLitCodes(285);
    Code8(B, 11);
    Code5(B, 19);
    Bases();
    FixedMatch(B, a.(pos := 11, out := Repeat(0, 1)), 285, 0, 258, 1);
    AllZeros(Repeat(0, 1), 258, 1);
  }

  lemma Bases()
    ensures LExt()[0] == 16 && LBase()[0] == 3 && LExt()[28] == 16 && LBase()[28] == 258
    ensures DExt()[0] == 16 && DBase()[0] == 1 && DExt()[3] == 16 && DBase()[3] == 4
  {
  }

  lemma {:induction false} AllZeros(out: seq<Byte>, len: nat, dist: nat)
    requires 1 <= dist <= |out| && out == Repeat(0, |out|)
    ensures CopyMatch(out, len, dist) == Repeat(0, |out| + len)
    decreases len
  {
    if len > 0 {
      assert out + [out[|out| - dist]] == Repeat(0, |out| + 1);
      AllZeros(Repeat(0, |out| + 1), len - 1, dist);
    }
  }

  /** "02 7e ff ff": distance code 31. */
  lemma InvalidDistanceCode()
    ensures Reaches(START, BytesBits([2, 0x7e, 0xff, 0xff]), Abs(Bad, false, 15, []))
  {
    hide Reaches, BytesBits, Step, CodeOf, MsbVal, FixedLit, FixedDist, LBase, LExt, DBase, DExt;
    var data: seq<Byte> := [2, 0x7e, 0xff, 0xff];
    var B := BytesBits(data);
    ByteIs(data, 0, "01000000");
    ByteIs(data, 1, "01111110");
    BlockType(B, false, 1);
    var a := Abs(Len(FixedLit(), FixedDist()), false, 3, []);
    FixedLitCodes(257);
    Code8(B, 3);
    FixedCode(B, a, 257);
    Bases();
    var b := a.(phase := LenExt(FixedLit(), FixedDist(), 3, 0), pos := 10);
    Code5(B, 10);
    FixedDistCodeRead(B, b, 31);
    ReachesTrans(START, B, b, Abs(Bad, false, 15, []));
  }

  /** "02 02": a match at the very beginning. */
  lemma DistanceTooFarBack()
    ensures Reaches(START, BytesBits([2, 2]), Abs(Bad, false, 15, []))
  {
    hide Reaches, BytesBits, Step, CodeOf, MsbVal, FixedLit, FixedDist, LBase, LExt, DBase, DExt;
    var data: seq<Byte> := [2, 2];
    var B := BytesBits(data);
    ByteIs(data, 0, "01000000");
    ByteIs(data, 1, "01000000");
    BlockType(B, false, 1);
    var a := Abs(Len(FixedLit(), FixedDist()), false, 3, []);
    FixedLitCodes(257);
    Code8(B, 3);
    FixedCode(B, a, 257);
    Bases();
    var b := a.(phase := LenExt(FixedLit(), FixedDist(), 3, 0), pos := 10);
    Code5(B, 10);
    FixedDistance(B, b, 0);
    var m := b.(phase := Phase.Match(FixedLit(), FixedDist(), 3, 1), pos := 15);
    ReachesTrans(START, B, b, m);
    StepIs(m, B);
    ReachesStep(m, B, Abs(Bad, false, 15, []));
    ReachesTrans(START, B, m, Abs(Bad, false, 15, []));
  }
}
