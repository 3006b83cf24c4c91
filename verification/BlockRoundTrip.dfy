/** What the encoder sends, the decoder understands: one block of each kind. */
module BlockRoundTrip {
  import opened Bits
  import opened Canonical
  import opened Alphabet
  import opened TableSpace
  import opened Lz77
  import opened InflateSpec
  import opened InflateRun
  import opened RunLength
  import opened BlockSpec

  /** The bits E stand in the stream at pos. */
  predicate At(B: seq<bool>, pos: nat, E: seq<bool>) {
    pos + |E| <= |B| && B[pos..pos + |E|] == E
  }

  lemma AtSplit(B: seq<bool>, pos: nat, E: seq<bool>, F: seq<bool>)
    requires At(B, pos, E + F)
    ensures At(B, pos, E) && At(B, pos + |E|, F)
  {
    var S := B[pos..pos + |E + F|];
    assert S[..|E|] == E && S[|E|..] == F;
    assert S[..|E|] == B[pos..pos + |E|];
    assert S[|E|..] == B[pos + |E|..pos + |E| + |F|];
  }

  lemma ReadAt(B: seq<bool>, pos: nat, v: nat, n: nat)
    requires At(B, pos, Lsb(v, n)) && v < Pow2(n)
    ensures pos + n <= |B| && ReadBits(B, pos, n) == v
  {
    ValLsb(v, n);
    ModSmall(v, Pow2(n));
  }

  lemma ModSmall(v: nat, p: nat)
    requires v < p
    ensures v % p == v
  {
  }

  lemma DecodeAt(lens: seq<nat>, B: seq<bool>, pos: nat, s: nat)
    requires NotOversubscribed(lens) && s < |lens| && lens[s] >= 1
    requires At(B, pos, Codeword(lens, s))
    ensures DecodeSym(lens, B[pos..]) == Symbol(s, lens[s])
  {
    var w := Codeword(lens, s);
    assert B[pos..][..|w|] == w;
    assert IsCodeOf(lens, s, B[pos..]);
    DecodeSymIs(lens, B[pos..], s);
  }

  lemma StepLenAt(a: Abs, B: seq<bool>, s: nat)
    requires |B| % 8 == 0 && a.phase.Len? && NotOversubscribed(a.phase.ll)
    requires s < |a.phase.ll| && a.phase.ll[s] >= 1 && At(B, a.pos, Codeword(a.phase.ll, s))
    ensures a.pos <= |B| && Step(a, B) == Some(AfterLen(a, s, a.phase.ll[s]))
  {
    hide AfterLen, DecodeSym, NotOversubscribed, Codeword;
    DecodeAt(a.phase.ll, B, a.pos, s);
  }

  lemma StepDistAt(a: Abs, B: seq<bool>, s: nat)
    requires |B| % 8 == 0 && a.phase.Dist? && NotOversubscribed(a.phase.dl)
    requires s < |a.phase.dl| && a.phase.dl[s] >= 1 && At(B, a.pos, Codeword(a.phase.dl, s))
    ensures a.pos <= |B| && Step(a, B) == Some(AfterDist(a, s, a.phase.dl[s]))
  {
    hide AfterDist, DecodeSym, NotOversubscribed, Codeword;
    DecodeAt(a.phase.dl, B, a.pos, s);
  }

  lemma StepCodeLensAt(a: Abs, B: seq<bool>, s: nat)
    requires |B| % 8 == 0 && a.phase.CodeLens? && NotOversubscribed(a.phase.cl)
    requires |a.phase.lens| != a.phase.nlen + a.phase.ndist
    requires s < |a.phase.cl| && a.phase.cl[s] >= 1 && At(B, a.pos, Codeword(a.phase.cl, s))
    ensures a.pos + a.phase.cl[s] <= |B| && Step(a, B) == AfterCodeLen(a, B, s, a.phase.cl[s])
  {
    hide AfterCodeLen, DecodeSym, NotOversubscribed, Codeword, FinishLens;
    DecodeAt(a.phase.cl, B, a.pos, s);
  }

  lemma StepLenExtAt(a: Abs, B: seq<bool>, v: nat)
    requires |B| % 8 == 0 && a.phase.LenExt? && v < Pow2(a.phase.extra)
    requires At(B, a.pos, Lsb(v, a.phase.extra))
    ensures a.pos <= |B|
    ensures Step(a, B) == Some(a.(phase := Phase.Dist(a.phase.ll, a.phase.dl, a.phase.length + v),
                                  pos := a.pos + a.phase.extra))
  {
    hide StepType, StepStored, StepTable, StepLenLens, StepCodeLens, StepLen, StepDist, StepMatch;
    ReadAt(B, a.pos, v, a.phase.extra);
  }

  lemma StepNoExtra(a: Abs, B: seq<bool>)
    requires |B| % 8 == 0 && a.phase.LenExt? && a.phase.extra == 0 && a.pos <= |B|
    ensures Step(a, B) == Some(a.(phase := Phase.Dist(a.phase.ll, a.phase.dl, a.phase.length)))
  {
    hide StepType, StepStored, StepTable, StepLenLens, StepCodeLens, StepLen, StepDist, StepMatch;
  }

  lemma StepDistExtAt(a: Abs, B: seq<bool>, v: nat)
    requires |B| % 8 == 0 && a.phase.DistExt? && v < Pow2(a.phase.extra)
    requires At(B, a.pos, Lsb(v, a.phase.extra))
    ensures a.pos <= |B|
    ensures Step(a, B) == Some(a.(phase := Phase.Match(a.phase.ll, a.phase.dl, a.phase.length, a.phase.offset + v),
                                  pos := a.pos + a.phase.extra))
  {
    hide StepType, StepStored, StepTable, StepLenLens, StepCodeLens, StepLen, StepDist, StepMatch;
    ReadAt(B, a.pos, v, a.phase.extra);
  }

  /* ---------- tokens ---------- */

  /** Where the decoder stands once it has read a token, before it writes anything. */
  function Holding(ll: seq<nat>, dl: seq<nat>, t: Token): Phase {
    match t
    case Literal(b) => Lit(ll, dl, b)
    case Match(len, dist) => Phase.Match(ll, dl, len, dist)
  }

  /** Every token is read back as itself, whatever has been written before. */
  lemma TokenRoundTrip(a: Abs, B: seq<bool>, t: Token)
    requires |B| % 8 == 0 && a.phase.Len? && CodesOk(a.phase.ll, a.phase.dl)
    requires Coded(a.phase.ll, a.phase.dl, t) && At(B, a.pos, TokenBits(a.phase.ll, a.phase.dl, t))
    ensures a.pos <= |B|
    ensures Reaches(a, B, a.(phase := Holding(a.phase.ll, a.phase.dl, t),
                              pos := a.pos + |TokenBits(a.phase.ll, a.phase.dl, t)|))
  {
    hide CodesOk, Step, LengthBits, DistBits, NotOversubscribed, Reaches, Run, Codeword, At, LengthCoded, DistCoded;
    var ll, dl := a.phase.ll, a.phase.dl;
    CodesUsable(ll, dl);
    match t
    case Literal(b) =>
      StepLenAt(a, B, b);
      ReachesStep(a, B, a.(phase := Lit(ll, dl, b), pos := a.pos + ll[b]));
    case Match(len, dist) =>
      AtSplit(B, a.pos, LengthBits(ll, len - 3), DistBits(dl, dist - 1));
      LengthRoundTrip(a, B, len - 3);
      var m := a.(phase := Phase.Dist(ll, dl, len), pos := a.pos + |LengthBits(ll, len - 3)|);
      DistRoundTrip(m, B, dist - 1);
      var e := m.(phase := Phase.Match(ll, dl, len, dist), pos := m.pos + |DistBits(dl, dist - 1)|);
      ReachesTrans(a, B, m, e);
  }

  lemma LengthRoundTrip(a: Abs, B: seq<bool>, lc: nat)
    requires |B| % 8 == 0 && a.phase.Len? && CodesOk(a.phase.ll, a.phase.dl)
    requires lc < 256 && LengthCoded(a.phase.ll, lc)
    requires At(B, a.pos, LengthBits(a.phase.ll, lc))
    ensures Reaches(a, B, a.(phase := Phase.Dist(a.phase.ll, a.phase.dl, lc + 3),
                             pos := a.pos + |LengthBits(a.phase.ll, lc)|))
  {
    hide CodesOk, Step, Reaches, Run, Codeword, NotOversubscribed, LengthCode, DistCode, Lsb, Pow2, LExt, LBase,
      ExtraLBits, BaseLength, DExt, DBase, ExtraDBits, BaseDist;
    var ll, dl, c := a.phase.ll, a.phase.dl, LengthCode(lc);
    CodesUsable(ll, dl);
    LengthCodeInverse(lc);
    var w := Codeword(ll, c + 257);
    var e := ExtraLBits()[c];
    var x := if e == 0 then [] else Lsb(lc - BaseLength()[c], e);
    assert LengthBits(ll, lc) == w + x;
    hide LengthBits, CodeOf;
    AtSplit(B, a.pos, w, x);
    StepLenAt(a, B, c + 257);
    var m := Abs(LenExt(ll, dl, LBase()[c], e), a.last, a.pos + |w|, a.out);
    assert AfterLen(a, c + 257, ll[c + 257]) == m;
    hide AfterLen;
    ReachesStep(a, B, m);
    LengthExtra(m, B, lc, c);
    ReachesTrans(a, B, m, Abs(Phase.Dist(ll, dl, lc + 3), a.last, m.pos + |x|, a.out));
  }

  lemma LengthExtra(m: Abs, B: seq<bool>, lc: nat, c: nat)
    requires |B| % 8 == 0 && lc < 256 && c == LengthCode(lc)
    requires m.phase.LenExt? && m.phase.length == LBase()[c] && m.phase.extra == ExtraLBits()[c]
    requires ExtraLBits()[c] == 0 ==> m.pos <= |B|
    requires ExtraLBits()[c] != 0 ==> lc >= BaseLength()[c] && At(B, m.pos, Lsb(lc - BaseLength()[c], ExtraLBits()[c]))
    ensures Reaches(m, B, Abs(Phase.Dist(m.phase.ll, m.phase.dl, lc + 3), m.last, m.pos + ExtraLBits()[c], m.out))
  {
    hide Step, Reaches, Run, LengthCode, Lsb, Pow2, LBase, ExtraLBits, BaseLength;
    LengthCodeInverse(lc);
    if ExtraLBits()[c] == 0 {
      StepNoExtra(m, B);
    } else {
      StepLenExtAt(m, B, lc - BaseLength()[c]);
    }
    ReachesStep(m, B, Abs(Phase.Dist(m.phase.ll, m.phase.dl, lc + 3), m.last, m.pos + ExtraLBits()[c], m.out));
  }

  lemma DistRoundTrip(a: Abs, B: seq<bool>, d: nat)
    requires |B| % 8 == 0 && a.phase.Dist? && CodesOk(a.phase.ll, a.phase.dl)
    requires d < 32768 && DistCoded(a.phase.dl, d)
    requires At(B, a.pos, DistBits(a.phase.dl, d))
    ensures Reaches(a, B, a.(phase := Phase.Match(a.phase.ll, a.phase.dl, a.phase.length, d + 1),
                             pos := a.pos + |DistBits(a.phase.dl, d)|))
  {
    hide CodesOk, Step, Reaches, Run, Codeword, NotOversubscribed, LengthCode, DistCode, Lsb, Pow2, LExt, LBase,
      ExtraLBits, BaseLength, DExt, DBase, ExtraDBits, BaseDist;
    var ll, dl, c := a.phase.ll, a.phase.dl, DistCode(d);
    CodesUsable(ll, dl);
    DistCodeInverse(d);
    var w := Codeword(dl, c);
    var x := Lsb(d - BaseDist()[c], ExtraDBits()[c]);
    AtSplit(B, a.pos, w, x);
    StepDistAt(a, B, c);
    var e := DExt()[c] - 16;
    var m := a.(phase := DistExt(ll, dl, a.phase.length, DBase()[c], e), pos := a.pos + |w|);
    ReachesStep(a, B, m);
    StepDistExtAt(m, B, d - BaseDist()[c]);
    var f := m.(phase := Phase.Match(ll, dl, a.phase.length, d + 1), pos := m.pos + e);
    ReachesStep(m, B, f);
    ReachesTrans(a, B, m, f);
  }

  /** Writing out a token that has been read. */
  lemma WriteToken(a: Abs, B: seq<bool>, ll: seq<nat>, dl: seq<nat>, t: Token)
    requires |B| % 8 == 0 && a.pos <= |B| && a.phase == Holding(ll, dl, t)
    requires Expressible(t) && Applicable(a.out, t)
    ensures Reaches(a, B, a.(phase := Len(ll, dl), out := Apply(a.out, t)))
  {
    match t
    case Literal(b) => ReachesStep(a, B, a.(phase := Len(ll, dl), out := a.out + [b]));
    case Match(len, dist) => MatchRun(a, B, len);
  }

  lemma {:induction false} TokensRoundTrip(a: Abs, B: seq<bool>, toks: seq<Token>)
    requires |B| % 8 == 0 && a.phase.Len? && CodesOk(a.phase.ll, a.phase.dl)
    requires AllCoded(a.phase.ll, a.phase.dl, toks) && At(B, a.pos, TokensBits(a.phase.ll, a.phase.dl, toks))
    requires Valid(a.out, toks)
    ensures Reaches(a, B, a.(pos := a.pos + |TokensBits(a.phase.ll, a.phase.dl, toks)|, out := Expand(a.out, toks)))
    decreases |toks|
  {
    hide CodesOk, Coded, TokenBits, Step, Reaches, Run, CopyMatch;
    var ll, dl := a.phase.ll, a.phase.dl;
    if toks == [] {
      ReachesSelf(a, B);
    } else {
      var n := |toks| - 1;
      var E, F := TokensBits(ll, dl, toks[..n]), TokenBits(ll, dl, toks[n]);
      AtSplit(B, a.pos, E, F);
      TokensRoundTrip(a, B, toks[..n]);
      var b := a.(pos := a.pos + |E|, out := Expand(a.out, toks[..n]));
      TokenRoundTrip(b, B, toks[n]);
      var c := b.(phase := Holding(ll, dl, toks[n]), pos := b.pos + |F|);
      CodedExpressible(ll, dl, toks[n]);
      WriteToken(c, B, ll, dl, toks[n]);
      var d := c.(phase := Len(ll, dl), out := Apply(b.out, toks[n]));
      ReachesTrans(b, B, c, d);
      ReachesTrans(a, B, b, d);
    }
  }

  lemma CodedExpressible(ll: seq<nat>, dl: seq<nat>, t: Token)
    requires Coded(ll, dl, t)
    ensures Expressible(t)
  {
  }

  /** The data of a block, up to and including the end-of-block code. */
  lemma DataRoundTrip(a: Abs, B: seq<bool>, toks: seq<Token>)
    requires |B| % 8 == 0 && a.phase.Len? && CodesOk(a.phase.ll, a.phase.dl)
    requires AllCoded(a.phase.ll, a.phase.dl, toks) && END_BLOCK < |a.phase.ll| && a.phase.ll[END_BLOCK] >= 1
    requires At(B, a.pos, DataBits(a.phase.ll, a.phase.dl, toks)) && Valid(a.out, toks)
    ensures Reaches(a, B, a.(phase := Type, pos := a.pos + |DataBits(a.phase.ll, a.phase.dl, toks)|,
                             out := Expand(a.out, toks)))
  {
    hide CodesOk, AllCoded, Coded, TokensBits, Step, Reaches, Run, NotOversubscribed, At, Codeword, Expand, Valid;
    var ll, dl := a.phase.ll, a.phase.dl;
    var E, F := TokensBits(ll, dl, toks), Codeword(ll, END_BLOCK);
    AtSplit(B, a.pos, E, F);
    TokensRoundTrip(a, B, toks);
    var b := a.(pos := a.pos + |E|, out := Expand(a.out, toks));
    CodesUsable(ll, dl);
    StepLenAt(b, B, END_BLOCK);
    var c := b.(phase := Type, pos := b.pos + |F|);
    ReachesStep(b, B, c);
    ReachesTrans(a, B, b, c);
  }

  /* ---------- block headers ---------- */

  lemma HeaderRoundTrip(a: Abs, B: seq<bool>, kind: nat, last: bool)
    requires |B| % 8 == 0 && a.phase == Type && !a.last && kind <= 2
    requires At(B, a.pos, BlockHeader(kind, last))
    ensures a.pos + 3 <= |B|
    ensures Step(a, B) == Some(a.(last := last, pos := a.pos + 3,
      phase := if kind == 0 then Stored else if kind == 1 then Len(FixedLit(), FixedDist()) else Table))
  {
    hide Lsb, BlockHeader, ReadBits, At, Pow2, FixedLit, FixedDist;
    HeaderFields(kind, last);
    AtSplit(B, a.pos, [last], Lsb(kind, 2));
    FirstAt(B, a.pos, last);
    Pow2Values();
    ReadAt(B, a.pos + 1, kind, 2);
  }

  lemma HeaderFields(kind: nat, last: bool)
    ensures BlockHeader(kind, last) == [last] + Lsb(kind, 2)
  {
    var v := 2 * kind + Bit(last);
    assert v % 2 == Bit(last) && v / 2 == kind;
  }

  lemma FirstAt(B: seq<bool>, pos: nat, b: bool)
    requires At(B, pos, [b])
    ensures pos < |B| && B[pos] == b
  {
    assert B[pos..pos + 1][0] == b;
  }

  lemma StaticBlockRoundTrip(a: Abs, B: seq<bool>, last: bool, toks: seq<Token>)
    requires |B| % 8 == 0 && a.phase == Type && !a.last
    requires AllCoded(FixedLit(), FixedDist(), toks) && FixedLit()[END_BLOCK] >= 1
    requires At(B, a.pos, StaticBlock(last, toks)) && Valid(a.out, toks)
    ensures Reaches(a, B, a.(last := last, pos := a.pos + |StaticBlock(last, toks)|, out := Expand(a.out, toks)))
  {
    hide Step, StepType, Reaches, Run, DataBits, BlockHeader, CodesOk;
    AtSplit(B, a.pos, BlockHeader(STATIC_TREES, last), DataBits(FixedLit(), FixedDist(), toks));
    HeaderRoundTrip(a, B, STATIC_TREES, last);
    var b := a.(last := last, pos := a.pos + 3, phase := Len(FixedLit(), FixedDist()));
    ReachesStep(a, B, b);
    FixedOk();
    DataRoundTrip(b, B, toks);
    ReachesTrans(a, B, b, b.(phase := Type, pos := b.pos + |DataBits(FixedLit(), FixedDist(), toks)|,
                             out := Expand(a.out, toks)));
  }

  /* ---------- stored blocks ---------- */

  lemma StepCopyAt(a: Abs, B: seq<bool>, v: Byte)
    requires |B| % 8 == 0 && a.phase.Copy? && a.phase.remaining > 0 && At(B, a.pos, Lsb(v, 8))
    ensures a.pos <= |B|
    ensures Step(a, B) == Some(a.(phase := Copy(a.phase.remaining - 1), pos := a.pos + 8, out := a.out + [v]))
  {
    Pow2Values();
    ReadAt(B, a.pos, v, 8);
  }

  lemma {:induction false} CopyRoundTrip(a: Abs, B: seq<bool>, data: seq<Byte>)
    requires |B| % 8 == 0 && a.phase == Copy(|data|) && At(B, a.pos, BytesBits(data))
    ensures Reaches(a, B, a.(phase := Type, pos := a.pos + 8 * |data|, out := a.out + data))
    decreases |data|
  {
    hide Reaches, Run, Lsb, Pow2, Step, BytesBits;
    if data == [] {
      assert a.out + data == a.out;
      StepCopyEnd(a, B);
      ReachesStep(a, B, a.(phase := Type));
    } else {
      BytesBitsFirst(data);
      AtSplit(B, a.pos, Lsb(data[0], 8), BytesBits(data[1..]));
      StepCopyAt(a, B, data[0]);
      var b := a.(phase := Copy(|data| - 1), pos := a.pos + 8, out := a.out + [data[0]]);
      ReachesStep(a, B, b);
      CopyRoundTrip(b, B, data[1..]);
      assert a.out + [data[0]] + data[1..] == a.out + data;
      ReachesTrans(a, B, b, b.(phase := Type, pos := b.pos + 8 * (|data| - 1), out := b.out + data[1..]));
    }
  }

  lemma StepCopyEnd(a: Abs, B: seq<bool>)
    requires |B| % 8 == 0 && a.phase == Copy(0) && a.pos <= |B|
    ensures Step(a, B) == Some(a.(phase := Type))
  {
  }

  lemma BytesBitsFirst(data: seq<Byte>)
    requires data != []
    ensures BytesBits(data) == Lsb(data[0], 8) + BytesBits(data[1..])
  {
    assert [data[0]] + data[1..] == data;
    BytesBitsAppend([data[0]], data[1..]);
    assert [data[0]][..0] == [];
    assert BytesBits([data[0]]) == Lsb(data[0], 8);
  }

  lemma StoredLengthRoundTrip(a: Abs, B: seq<bool>, n: nat)
    requires |B| % 8 == 0 && a.phase.Stored? && a.pos <= |B| && n <= 65535
    requires At(B, RoundUp(a.pos), Lsb(n, 16)) && At(B, RoundUp(a.pos) + 16, Lsb(65535 - n, 16))
    ensures Reaches(a, B, a.(phase := Copy(n), pos := RoundUp(a.pos) + 32))
  {
    hide Lsb, Pow2, Reaches, Run;
    Pow2Values();
    var b := a.(pos := RoundUp(a.pos));
    if a.pos % 8 != 0 {
      ReachesStep(a, B, b);
    } else {
      assert a == b;
      ReachesSelf(a, B);
    }
    ReadAt(B, b.pos, n, 16);
    ReadAt(B, b.pos + 16, 65535 - n, 16);
    var c := b.(phase := Copy(n), pos := b.pos + 32);
    ReachesStep(b, B, c);
    ReachesTrans(a, B, b, c);
  }

  lemma StoredBlockRoundTrip(a: Abs, B: seq<bool>, last: bool, data: seq<Byte>)
    requires |B| % 8 == 0 && a.phase == Type && !a.last && |data| <= 65535
    requires At(B, a.pos, StoredBlock(a.pos, last, data))
    ensures Reaches(a, B, a.(last := last, pos := a.pos + |StoredBlock(a.pos, last, data)|, out := a.out + data))
  {
    hide Reaches, Run, Step, Lsb, Pow2, BytesBits, BlockHeader, Zeros;
    var h, z := BlockHeader(STORED_BLOCK, last), Zeros(RoundUp(a.pos + 3) - (a.pos + 3));
    var l, c, d := Lsb(|data|, 16), Lsb(65535 - |data|, 16), BytesBits(data);
    assert StoredBlock(a.pos, last, data) == h + z + l + c + d;
    AtSplit(B, a.pos, h + z + l + c, d);
    AtSplit(B, a.pos, h + z + l, c);
    AtSplit(B, a.pos, h + z, l);
    AtSplit(B, a.pos, h, z);
    HeaderRoundTrip(a, B, STORED_BLOCK, last);
    var b := a.(last := last, pos := a.pos + 3, phase := Stored);
    ReachesStep(a, B, b);
    var p := RoundUp(b.pos);
    StoredLengthRoundTrip(b, B, |data|);
    var e := b.(phase := Copy(|data|), pos := p + 32);
    CopyRoundTrip(e, B, data);
    var f := e.(phase := Type, pos := e.pos + 8 * |data|, out := e.out + data);
    ReachesTrans(b, B, e, f);
    ReachesTrans(a, B, b, f);
  }

  /* ---------- dynamic blocks ---------- */

  /** The first n code length code lengths in transmission order. */
  function InOrder(bl: seq<nat>, n: nat): (r: seq<nat>)
    requires |bl| == 19 && n <= 19
    ensures |r| == n
  {
    if n == 0 then [] else InOrder(bl, n - 1) + [bl[DeflateOrder()[n - 1]]]
  }

  lemma InOrderAt(bl: seq<nat>, n: nat, i: nat)
    requires |bl| == 19 && i < n <= 19
    ensures InOrder(bl, n)[i] == bl[DeflateOrder()[i]]
  {
    if i < n - 1 {
      InOrderAt(bl, n - 1, i);
    }
  }

  lemma CodeLengthLensInverse(bl: seq<nat>, n: nat)
    requires |bl| == 19 && n <= 19
    requires forall i :: n <= i < 19 ==> bl[DeflateOrder()[i]] == 0
    ensures CodeLengthLens(InOrder(bl, n)) == bl
  {
    forall i | 0 <= i < 19
      ensures CodeLengthLens(InOrder(bl, n))[i] == bl[i]
    {
      OrderInverse(i);
      var j := OrderIndex()[i];
      if j < n {
        InOrderAt(bl, n, j);
      } else {
        assert bl[DeflateOrder()[j]] == 0;
      }
    }
  }

  lemma StepOrderAt(a: Abs, B: seq<bool>, v: nat)
    requires |B| % 8 == 0 && a.phase.LenLens? && |a.phase.read| < a.phase.ncode
    requires v < 8 && At(B, a.pos, Lsb(v, 3))
    ensures a.pos <= |B|
    ensures Step(a, B) == Some(a.(phase := a.phase.(read := a.phase.read + [v]), pos := a.pos + 3))
  {
    Pow2Values();
    ReadAt(B, a.pos, v, 3);
  }

  lemma {:induction false} OrderRoundTrip(a: Abs, B: seq<bool>, bl: seq<nat>, n: nat)
    requires |B| % 8 == 0 && a.phase.LenLens? && a.phase.read == [] && n <= a.phase.ncode <= 19
    requires |bl| == 19 && forall i :: 0 <= i < 19 ==> bl[i] < 8
    requires At(B, a.pos, OrderBits(bl, n))
    ensures Reaches(a, B, a.(phase := a.phase.(read := InOrder(bl, n)), pos := a.pos + 3 * n))
    decreases n
  {
    hide Reaches, Run, Lsb, Pow2, Step, DeflateOrder, OrderIndex;
    if n == 0 {
      ReachesSelf(a, B);
    } else {
      OrderInverse(n - 1);
      var v := bl[DeflateOrder()[n - 1]];
      AtSplit(B, a.pos, OrderBits(bl, n - 1), Lsb(v, 3));
      OrderRoundTrip(a, B, bl, n - 1);
      var b := a.(phase := a.phase.(read := InOrder(bl, n - 1)), pos := a.pos + 3 * (n - 1));
      StepOrderAt(b, B, v);
      var c := b.(phase := b.phase.(read := InOrder(bl, n)), pos := b.pos + 3);
      ReachesStep(b, B, c);
      ReachesTrans(a, B, b, c);
    }
  }

  lemma RunAdded(a: Abs, pos: nat, v: nat, n: nat)
    requires a.phase.CodeLens? && |a.phase.lens| + n <= a.phase.nlen + a.phase.ndist
    ensures AddRun(a, pos, v, n) == a.(phase := a.phase.(lens := a.phase.lens + Repeat(v, n)), pos := pos)
    ensures n == 1 ==> Repeat(v, n) == [v]
  {
  }

  /** One code length symbol. */
  lemma ClRoundTrip(a: Abs, B: seq<bool>, c: Cl)
    requires |B| % 8 == 0 && a.phase.CodeLens? && NotOversubscribed(a.phase.cl)
    requires ClOk(c) && ClSymbol(c) < |a.phase.cl| && a.phase.cl[ClSymbol(c)] >= 1
    requires c.Rep? ==> a.phase.lens != []
    requires |PutCl(a.phase.lens, c)| <= a.phase.nlen + a.phase.ndist
    requires At(B, a.pos, ClBits(a.phase.cl, c))
    ensures Reaches(a, B, a.(phase := a.phase.(lens := PutCl(a.phase.lens, c)), pos := a.pos + |ClBits(a.phase.cl, c)|))
  {
    hide NotOversubscribed, Reaches, Run, Step, Codeword, Pow2, At, ReadBits, AddRun, Lsb;
    var bl, lens, s := a.phase.cl, a.phase.lens, ClSymbol(c);
    AtSplit(B, a.pos, Codeword(bl, s), ClExtra(c));
    StepCodeLensAt(a, B, s);
    Pow2Values();
    var p := a.pos + bl[s];
    match c {
      case Single(v) => RunAdded(a, p, v, 1);
      case Rep(n) =>
        ReadAt(B, p, n - 3, 2);
        RunAdded(a, p + 2, lens[|lens| - 1], n);
      case ZerosShort(n) =>
        ReadAt(B, p, n - 3, 3);
        RunAdded(a, p + 3, 0, n);
      case ZerosLong(n) =>
        ReadAt(B, p, n - 11, 7);
        RunAdded(a, p + 7, 0, n);
    }
    ReachesStep(a, B, a.(phase := a.phase.(lens := PutCl(lens, c)), pos := a.pos + |ClBits(bl, c)|));
  }

  lemma {:induction false} ClsRoundTrip(a: Abs, B: seq<bool>, cls: seq<Cl>)
    requires |B| % 8 == 0 && a.phase.CodeLens? && NotOversubscribed(a.phase.cl)
    requires ClsCoded(a.phase.cl, cls) && ClsValid(a.phase.lens, cls)
    requires |PutCls(a.phase.lens, cls)| <= a.phase.nlen + a.phase.ndist
    requires At(B, a.pos, ClsBits(a.phase.cl, cls))
    ensures Reaches(a, B, a.(phase := a.phase.(lens := PutCls(a.phase.lens, cls)), pos := a.pos + |ClsBits(a.phase.cl, cls)|))
    decreases |cls|
  {
    hide NotOversubscribed, ClOk, ClSymbol, ClBits, Step, Reaches, Run, PutCls, PutCl, ClsValid, At;
    var bl, lens := a.phase.cl, a.phase.lens;
    if cls == [] {
      PutNone(lens);
      AtInside(B, a.pos, ClsBits(bl, cls));
      ReachesSelf(a, B);
    } else {
      var n := |cls| - 1;
      assert cls[..n] + [cls[n]] == cls;
      ClsBefore(lens, cls[..n], cls[n]);
      var E, F := ClsBits(bl, cls[..n]), ClBits(bl, cls[n]);
      AtSplit(B, a.pos, E, F);
      ClsRoundTrip(a, B, cls[..n]);
      var b := a.(phase := a.phase.(lens := PutCls(lens, cls[..n])), pos := a.pos + |E|);
      ClRoundTrip(b, B, cls[n]);
      ReachesTrans(a, B, b, b.(phase := b.phase.(lens := PutCl(b.phase.lens, cls[n])), pos := b.pos + |F|));
    }
  }

  lemma AtInside(B: seq<bool>, pos: nat, E: seq<bool>)
    requires At(B, pos, E)
    ensures pos + |E| <= |B|
  {
  }

  lemma ClsBefore(done: seq<nat>, cls: seq<Cl>, c: Cl)
    requires ClsValid(done, cls + [c])
    ensures ClsValid(done, cls) && (c.Rep? ==> PutCls(done, cls) != [])
    ensures PutCls(done, cls + [c]) == PutCl(PutCls(done, cls), c)
    ensures |PutCls(done, cls)| <= |PutCls(done, cls + [c])|
    decreases |cls|
  {
    if cls == [] {
      assert (cls + [c])[1..] == [];
    } else {
      assert (cls + [c])[1..] == cls[1..] + [c];
      ClsBefore(PutCl(done, cls[0]), cls[1..], c);
    }
  }

  /** The header of a dynamic block gives the decoder the encoder's codes. */
  lemma TreesRoundTrip(a: Abs, B: seq<bool>, ll: seq<nat>, dl: seq<nat>, bl: seq<nat>, n: nat)
    requires |B| % 8 == 0 && a.phase == Table && TreesOk(ll, dl, bl, n)
    requires Accepted(CODES, bl) && CodesOk(ll, dl) && Fits(LENS, ll, LENS_BITS) && Fits(DISTS, dl, DISTS_BITS)
    requires ll[END_BLOCK] >= 1
    requires At(B, a.pos, TreesBits(ll, dl, bl, n))
    ensures Reaches(a, B, a.(phase := Len(ll, dl), pos := a.pos + |TreesBits(ll, dl, bl, n)|))
  {
    hide Fits, Accepted, Step, ClsCoded, ClsBits, RunLengths, OrderBits, TreesOk, Reaches, Run, Lsb;
    TreesOkFacts(ll, dl, bl, n);
    var s, o := Lsb(|ll| - 257, 5) + Lsb(|dl| - 1, 5) + Lsb(n - 4, 4), OrderBits(bl, n);
    var e, f := ClsBits(bl, RunLengths(ll, 0, -1)), ClsBits(bl, RunLengths(dl, 0, -1));
    Assoc(s + o, e, f);
    AtSplit(B, a.pos, s + o, e + f);
    var d := Abs(CodeLens(|ll|, |dl|, bl, []), a.last, a.pos + 14 + 3 * n, a.out);
    CodeLengthCodeRoundTrip(a, B, |ll|, |dl|, bl, n);
    LensRoundTrip(d, B, ll, dl);
    ReachesTrans(a, B, d, Abs(Len(ll, dl), a.last, d.pos + |e| + |f|, a.out));
  }

  lemma CodeLengthCodeRoundTrip(a: Abs, B: seq<bool>, nlen: nat, ndist: nat, bl: seq<nat>, n: nat)
    requires |B| % 8 == 0 && a.phase == Table && 257 <= nlen <= 286 && 1 <= ndist <= 30 && 4 <= n <= 19
    requires |bl| == 19 && Accepted(CODES, bl) && forall i :: 0 <= i < 19 ==> bl[i] < 8
    requires forall i :: n <= i < 19 ==> bl[DeflateOrder()[i]] == 0
    requires At(B, a.pos, Lsb(nlen - 257, 5) + Lsb(ndist - 1, 5) + Lsb(n - 4, 4) + OrderBits(bl, n))
    ensures Reaches(a, B, Abs(CodeLens(nlen, ndist, bl, []), a.last, a.pos + 14 + 3 * n, a.out))
  {
    hide Accepted, Step, OrderBits, Reaches, Run, Lsb, CodeLengthLens;
    var s := Lsb(nlen - 257, 5) + Lsb(ndist - 1, 5) + Lsb(n - 4, 4);
    AtSplit(B, a.pos, s, OrderBits(bl, n));
    CountsRoundTrip(a, B, nlen, ndist, n);
    var b := Abs(LenLens(nlen, ndist, n, []), a.last, a.pos + 14, a.out);
    OrderRoundTrip(b, B, bl, n);
    var c := Abs(LenLens(nlen, ndist, n, InOrder(bl, n)), a.last, b.pos + 3 * n, a.out);
    ReachesTrans(a, B, b, c);
    CodeLengthLensInverse(bl, n);
    StepLenLensDone(c, B);
    var d := Abs(CodeLens(nlen, ndist, bl, []), a.last, c.pos, a.out);
    ReachesStep(c, B, d);
    ReachesTrans(a, B, c, d);
  }

  lemma StepLenLensDone(a: Abs, B: seq<bool>)
    requires |B| % 8 == 0 && a.phase.LenLens? && |a.phase.read| == a.phase.ncode <= 19 && a.pos <= |B|
    requires Accepted(CODES, CodeLengthLens(a.phase.read))
    ensures Step(a, B) == Some(a.(phase := CodeLens(a.phase.nlen, a.phase.ndist, CodeLengthLens(a.phase.read), [])))
  {
    hide Step, Accepted, CodeLengthLens;
    StepIs(a, B);
  }

  lemma TreesOkFacts(ll: seq<nat>, dl: seq<nat>, bl: seq<nat>, n: nat)
    requires TreesOk(ll, dl, bl, n)
    ensures 257 <= |ll| <= 286 && 1 <= |dl| <= 30 && |bl| == 19 && 4 <= n <= 19
    ensures forall i :: 0 <= i < 19 ==> bl[i] < 8
    ensures forall i :: n <= i < 19 ==> bl[DeflateOrder()[i]] == 0
    ensures ClsCoded(bl, RunLengths(ll, 0, -1)) && ClsCoded(bl, RunLengths(dl, 0, -1))
  {
  }

  lemma CountsRoundTrip(a: Abs, B: seq<bool>, nlen: nat, ndist: nat, n: nat)
    requires |B| % 8 == 0 && a.phase == Table && 257 <= nlen <= 286 && 1 <= ndist <= 30 && 4 <= n <= 19
    requires At(B, a.pos, Lsb(nlen - 257, 5) + Lsb(ndist - 1, 5) + Lsb(n - 4, 4))
    ensures a.pos + 14 <= |B|
    ensures Reaches(a, B, a.(phase := LenLens(nlen, ndist, n, []), pos := a.pos + 14))
  {
    hide Reaches, Run, Lsb, Pow2, ReadBits, Step;
    StepIs(a, B);
    var s1, s2, s3 := Lsb(nlen - 257, 5), Lsb(ndist - 1, 5), Lsb(n - 4, 4);
    AtSplit(B, a.pos, s1 + s2, s3);
    AtSplit(B, a.pos, s1, s2);
    Pow2Values();
    ReadAt(B, a.pos, nlen - 257, 5);
    ReadAt(B, a.pos + 5, ndist - 1, 5);
    ReadAt(B, a.pos + 10, n - 4, 4);
    ReachesStep(a, B, a.(phase := LenLens(nlen, ndist, n, []), pos := a.pos + 14));
  }

  lemma StepLensDone(a: Abs, B: seq<bool>, ll: seq<nat>, dl: seq<nat>)
    requires |B| % 8 == 0 && a.phase.CodeLens? && a.phase.lens == ll + dl && a.pos <= |B|
    requires a.phase.nlen == |ll| && a.phase.ndist == |dl| && |ll| >= 257 && ll[END_BLOCK] >= 1
    requires Accepted(LENS, ll) && Accepted(DISTS, dl) && Fits(LENS, ll, LENS_BITS) && Fits(DISTS, dl, DISTS_BITS)
    ensures Step(a, B) == Some(a.(phase := Len(ll, dl)))
  {
    hide Accepted, Fits;
    assert (ll + dl)[..|ll|] == ll && (ll + dl)[|ll|..] == dl;
  }

  lemma LensRoundTrip(d: Abs, B: seq<bool>, ll: seq<nat>, dl: seq<nat>)
    requires |B| % 8 == 0 && d.phase.CodeLens? && d.phase.lens == [] && Accepted(CODES, d.phase.cl)
    requires d.phase.nlen == |ll| && d.phase.ndist == |dl| && |ll| >= 257 && ll[END_BLOCK] >= 1
    requires Accepted(LENS, ll) && Accepted(DISTS, dl) && Fits(LENS, ll, LENS_BITS) && Fits(DISTS, dl, DISTS_BITS)
    requires ClsCoded(d.phase.cl, RunLengths(ll, 0, -1)) && ClsCoded(d.phase.cl, RunLengths(dl, 0, -1))
    requires At(B, d.pos, ClsBits(d.phase.cl, RunLengths(ll, 0, -1)) + ClsBits(d.phase.cl, RunLengths(dl, 0, -1)))
    ensures Reaches(d, B, d.(phase := Len(ll, dl),
      pos := d.pos + |ClsBits(d.phase.cl, RunLengths(ll, 0, -1))| + |ClsBits(d.phase.cl, RunLengths(dl, 0, -1))|))
  {
    hide Fits, Step, ClsCoded, ClsBits, RunLengths, NotOversubscribed, Complete, Reaches, Run, PutCls, ClsValid, FinishLens;
    var bl, rl, rd := d.phase.cl, RunLengths(ll, 0, -1), RunLengths(dl, 0, -1);
    var e, f := ClsBits(bl, rl), ClsBits(bl, rd);
    AtSplit(B, d.pos, e, f);
    RunLengthRoundTrip(ll, 0, -1, []);
    assert [] + ll[0..] == ll;
    ClsRoundTrip(d, B, rl);
    var g := d.(phase := d.phase.(lens := ll), pos := d.pos + |e|);
    RunLengthRoundTrip(dl, 0, -1, ll);
    assert dl[0..] == dl;
    ClsRoundTrip(g, B, rd);
    var h := g.(phase := g.phase.(lens := ll + dl), pos := g.pos + |f|);
    ReachesTrans(d, B, g, h);
    var i := h.(phase := Len(ll, dl));
    StepLensDone(h, B, ll, dl);
    ReachesStep(h, B, i);
    ReachesTrans(d, B, h, i);
  }

  lemma DynamicBlockRoundTrip(a: Abs, B: seq<bool>, last: bool,
                              ll: seq<nat>, dl: seq<nat>, bl: seq<nat>, n: nat, toks: seq<Token>)
    requires |B| % 8 == 0 && a.phase == Type && !a.last
    requires TreesOk(ll, dl, bl, n) && AllCoded(ll, dl, toks) && ll[END_BLOCK] >= 1
    requires Accepted(CODES, bl) && CodesOk(ll, dl) && Fits(LENS, ll, LENS_BITS) && Fits(DISTS, dl, DISTS_BITS)
    requires At(B, a.pos, DynamicBlock(last, ll, dl, bl, n, toks)) && Valid(a.out, toks)
    ensures Reaches(a, B, a.(last := last, pos := a.pos + |DynamicBlock(last, ll, dl, bl, n, toks)|,
                             out := Expand(a.out, toks)))
  {
    hide Step, StepType, Fits, Accepted, CodesOk, TreesBits, DataBits;
    var h, t, d := BlockHeader(DYN_TREES, last), TreesBits(ll, dl, bl, n), DataBits(ll, dl, toks);
    AtSplit(B, a.pos, h + t, d);
    AtSplit(B, a.pos, h, t);
    HeaderRoundTrip(a, B, DYN_TREES, last);
    var b := a.(last := last, pos := a.pos + 3, phase := Table);
    ReachesStep(a, B, b);
    TreesRoundTrip(b, B, ll, dl, bl, n);
    var c := b.(phase := Len(ll, dl), pos := b.pos + |t|);
    ReachesTrans(a, B, b, c);
    DataRoundTrip(c, B, toks);
    ReachesTrans(a, B, c, c.(phase := Type, pos := c.pos + |d|, out := Expand(a.out, toks)));
  }
}
