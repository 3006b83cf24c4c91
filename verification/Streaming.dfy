/**
 What inflate promises about whole runs: the result does not depend on how input and output
 were cut up into calls, and no input is read before it is needed.
 */
module Streaming {
  import opened Bits
  import opened Packing
  import opened Canonical
  import opened Lz77
  import opened BlockSpec
  import opened InflateSpec
  import opened InflateRun
  import opened InflateInput
  import opened FixedCodes
  import opened BlockRoundTrip
  import opened Inflate

  /** No call could get any further on data: finished, failed, or all of it used up. */
  ghost predicate Exhausted(p: Inflater, data: seq<Byte>)
    reads p
  {
    Stuck(p.abs, BytesBits(data))
  }

  lemma RestIs(p: Inflater, data: seq<Byte>)
    requires p.AtRest() && p.reader.inp <= data
    ensures Wf(p.abs) && |BytesBits(data)| % 8 == 0 && Pulled(p.reader) <= BytesBits(data) && |Pulled(p.reader)| % 8 == 0
    ensures Reaches(START, Pulled(p.reader), p.abs)
    ensures p.abs.pos <= |Pulled(p.reader)|
  {
    hide Reaches, BytesBits, Wf, Inflater.Fields, Inflater.Written;
    Grown(p.reader.inp, data);
  }

  lemma FieldsAt(p: Inflater)
    requires p.AtRest()
    ensures p.Fields(p.abs)
  {
    hide Reaches, BytesBits, Wf, Inflater.Fields, Inflater.Written;
  }

  lemma SameMode(p: Inflater, q: Inflater)
    requires p.AtRest() && q.AtRest() && p.abs == q.abs
    ensures p.mode == q.mode
  {
    hide Reaches, BytesBits, Wf, Inflater.Fields, Inflater.Written, Inflater.AtRest;
    FieldsAt(p);
    FieldsAt(q);
    p.ModeIs(p.abs);
    q.ModeIs(q.abs);
  }

  /**
   Two decoders that have been fed parts of the same data, in any number of calls with any
   buffers: what one has written is the beginning of what the other has written; one that has
   got as far as the data goes has written all of it; and two such decoders agree on output,
   verdict and place in the input.
   */
  lemma StreamingIndependence(p: Inflater, q: Inflater, data: seq<Byte>)
    requires p.AtRest() && q.AtRest() && p.reader.inp <= data && q.reader.inp <= data
    ensures p.abs.out <= q.abs.out || q.abs.out <= p.abs.out
    ensures Exhausted(p, data) ==> q.abs.out <= p.abs.out
    ensures Exhausted(p, data) && Exhausted(q, data) ==> p.abs == q.abs && p.mode == q.mode
  {
    hide Reaches, BytesBits, Stuck, Inflater.AtRest, Pulled, Wf;
    RestIs(p, data);
    RestIs(q, data);
    if p.abs == q.abs {
      SameMode(p, q);
    }
    SameTrajectory(START, BytesBits(data), Pulled(p.reader), p.abs, Pulled(q.reader), q.abs);
  }

  /** What has been written is the window's history, so the dictionary is the last 32K of the output. */
  lemma WindowHoldsOutput(p: Inflater)
    requires p.AtRest() && p.mode != BAD
    ensures p.out.win.Valid() && p.out.win.hist == p.abs.out
  {
    p.ModeIs(p.abs);
  }

  /** Bits beyond the first seven are in the accumulator only when the next step needs them as well. */
  lemma NoOverreading(p: Inflater)
    requires p.Valid() && p.reader.bits >= 8
    ensures Stuck(p.abs, Pulled(p.reader))
    ensures p.mode == LEN ==> DecodeSym(p.abs.phase.ll, p.reader.Pending()) == NeedMore && p.reader.bits <= 14
  {
    hide Step, Wf, BytesBits, Inflater.Written, Inflater.Fields;
    p.ModeIs(p.abs);
    StepIs(p.abs, Pulled(p.reader));
    if p.mode == LEN {
      NotEnough(p);
    }
  }

  lemma NotEnough(p: Inflater)
    requires Ready(p.reader, p.abs) && p.abs.phase.Len? && StepLen(p.abs, Pulled(p.reader)).None?
    ensures DecodeSym(p.abs.phase.ll, p.reader.Pending()) == NeedMore && p.reader.bits <= 14
  {
    hide Step, BytesBits, Stuck, DecodeSym, Wf, NotOversubscribed, AfterLen;
    LenUsable(p.abs);
    if p.reader.bits >= 15 {
      DecodeSymEnough(p.abs.phase.ll, p.reader.Pending());
    }
  }

  lemma LenUsable(a: Abs)
    requires Wf(a) && a.phase.Len?
    ensures NotOversubscribed(a.phase.ll)
  {
    hide CodesOk, NotOversubscribed;
    CodesUsable(a.phase.ll, a.phase.dl);
  }

  /** n literals with the same nine-bit code */
  function Nines(n: nat): (r: seq<Token>)
    ensures |r| == n
  {
    seq(n, _ => Literal(144))
  }

  lemma {:induction false} NinesBits(n: nat)
    ensures AllCoded(FixedLit(), FixedDist(), Nines(n))
    ensures |TokensBits(FixedLit(), FixedDist(), Nines(n))| == 9 * n
    ensures Valid([], Nines(n)) && |Expand([], Nines(n))| == n
  {
    hide FixedLit, FixedDist, Complete;
    FixedLitComplete();
    if n > 0 {
      NinesBits(n - 1);
      assert Nines(n)[..n - 1] == Nines(n - 1);
    }
  }

  /** A block with the fixed codes that breaks off eight bits into its sixth nine-bit code. */
  function EightBitsLeft(): (data: seq<Byte>)
    ensures |data| == 7
  {
    hide FixedLit, FixedDist, TokensBits, Nines, AllCoded, BlockHeader;
    NinesBits(5);
    Pack(BlockHeader(STATIC_TREES, true) + TokensBits(FixedLit(), FixedDist(), Nines(5)) + PartOfNine())
  }

  /** The first eight bits of a nine-bit code. */
  function PartOfNine(): (s: seq<bool>)
    ensures |s| == 8
  {
    Codeword(FixedLit(), 144)[..8]
  }

  /** The decoder has read five literals from it and waits for the rest of the sixth code. */
  lemma InSixthCode() returns (a: Abs)
    ensures Reaches(START, BytesBits(EightBitsLeft()), a) && a.phase.Len? && |a.out| == 5
    ensures 8 * |EightBitsLeft()| - a.pos == 8 && Stuck(a, BytesBits(EightBitsLeft()))
  {
    hide FixedLit, FixedDist, Reaches, Step, BytesBits, TokensBits, Codeword, BlockHeader, Pack, Complete, At, Stuck, DecodeSym;
    FixedLitComplete();
    NinesBits(5);
    var w := Codeword(FixedLit(), 144);
    var h, t := BlockHeader(STATIC_TREES, true), TokensBits(FixedLit(), FixedDist(), Nines(5));
    var B := (h + t) + w[..8];
    BytesBitsPack(B);
    Pieces(h, t, w[..8]);
    a := AfterNines(B);
    PartOfCode(FixedLit(), 144, 8);
    StuckInCode(a, B);
  }

  /**
   inflate_fast is not always entered with less than a byte in the accumulator: a call that is
   given those seven bytes ends with eight bits in it, and if the next one is given six bytes
   and enough room it begins with inflate_fast.
   */
  method EntersCrowded(next: seq<Byte>) returns (ghost crowded: bool)
    requires |next| >= 6
    ensures crowded
  {
    hide Inflater.AtRest, Reaches, Stuck, EightBitsLeft;
    var p := Inflater.InflateInit2();
    var buffer := new Byte[600](_ => 0);
    var ret;
    ret, crowded := p.Inflate(EightBitsLeft(), buffer, 0, 300);
    FiveWritten(p, EightBitsLeft(), ret);
    ret, crowded := p.Inflate(next, buffer, 300, 300);
  }

  /** All states in which a call on all of the data could end are that one. */
  lemma OnlyThere(B: seq<bool>, a: Abs, B1: seq<bool>, b: Abs)
    requires |B| % 8 == 0 && Reaches(START, B, a) && Stuck(a, B) && |a.out| < 300
    requires B1 <= B && |B1| % 8 == 0 && Reaches(START, B1, b)
    requires b.phase.Done? || b.phase.Bad? || |b.out| == 300 || (B1 == B && Stuck(b, B))
    ensures b == a
  {
    hide Reaches, Step;
    StartWf();
    SameTrajectory(START, B, B, a, B1, b);
    ReachesPos(START, B1, b);
    if b.phase.Done? || b.phase.Bad? {
      StepIs(b, B);
    }
  }

  lemma FiveWritten(p: Inflater, data: seq<Byte>, ret: int)
    requires p.AtRest() && data == EightBitsLeft() && p.reader.inp + p.reader.next_in == data
    requires p.Returns(ret, true) && (ret == Z_OK ==>
      |p.abs.out| == 300 || (p.reader.next_in == [] && Stuck(p.abs, Pulled(p.reader))))
    ensures p.mode == LEN && p.reader.bits == 8
  {
    hide Reaches, BytesBits, EightBitsLeft, Stuck, Inflater.Written, Inflater.Fields;
    var a := InSixthCode();
    Grown(p.reader.inp, data);
    assert p.reader.next_in == [] ==> p.reader.inp == data;
    OnlyThere(BytesBits(data), a, Pulled(p.reader), p.abs);
    p.ModeIs(p.abs);
  }

  lemma Pieces(h: seq<bool>, t: seq<bool>, w: seq<bool>)
    ensures var B := (h + t) + w;
            At(B, 0, h) && At(B, |h|, t) && B[|h| + |t|..] == w
  {
    var B := (h + t) + w;
    assert B[0..|h|] == h;
    assert B[|h|..|h| + |t|] == t;
  }

  lemma AfterNines(B: seq<bool>) returns (a: Abs)
    requires |B| % 8 == 0 && AllCoded(FixedLit(), FixedDist(), Nines(5))
    requires At(B, 0, BlockHeader(STATIC_TREES, true))
    requires At(B, 3, TokensBits(FixedLit(), FixedDist(), Nines(5)))
    ensures a.pos <= |B| && Reaches(START, B, a) && a.phase == Len(FixedLit(), FixedDist()) && a.pos == 48 && |a.out| == 5
  {
    hide FixedLit, FixedDist, Reaches, Step, TokensBits, BlockHeader, At, CodesOk, Expand, Coded;
    NinesBits(5);
    FixedOk();
    HeaderRoundTrip(START, B, STATIC_TREES, true);
    var b := Abs(Len(FixedLit(), FixedDist()), true, 3, []);
    ReachesStep(START, B, b);
    TokensRoundTrip(b, B, Nines(5));
    a := Abs(b.phase, true, 48, Expand([], Nines(5)));
    ReachesTrans(START, B, b, a);
    ReachesPos(START, B, a);
  }

  lemma ReachesPos(a: Abs, B: seq<bool>, b: Abs)
    requires Reaches(a, B, b)
    ensures b.pos <= |B|
  {
  }

  lemma StuckInCode(a: Abs, B: seq<bool>)
    requires |B| % 8 == 0 && a.pos <= |B| && a.phase.Len? && DecodeSym(a.phase.ll, B[a.pos..]) == NeedMore
    ensures Stuck(a, B)
  {
    StepIs(a, B);
  }

  /** Part of a codeword of a complete code is no code. */
  lemma PartOfCode(lens: seq<nat>, s: nat, k: nat)
    requires Complete(lens) && s < |lens| && 1 <= k < lens[s]
    ensures DecodeSym(lens, Codeword(lens, s)[..k]) == NeedMore
  {
    hide Complete, Codeword;
    CompleteUsable(lens);
    if t: nat :| IsCodeOf(lens, t, Codeword(lens, s)[..k]) {
      CodewordUnique(lens, t, s, Codeword(lens, s));
    }
  }

  lemma CompleteUsable(lens: seq<nat>)
    requires Complete(lens)
    ensures NotOversubscribed(lens)
  {
  }
}
