/** What single states of inflate() do to the abstract decoder: the facts each of them rests on. */
module InflateSteps {
  import opened Bits
  import opened InflateSpec
  import opened InflateRun
  import opened Accumulator

  /** Orders the phases so that a step that moves no data goes down. */
  function Rank(p: Phase): nat {
    match p
    case LenLens(_, _, _, _) => 9
    case CodeLens(_, _, _, _) => 8
    case LenExt(_, _, _, _) => 7
    case Dist(_, _, _) => 6
    case DistExt(_, _, _, _, _) => 5
    case Match(_, _, _, _) => 4
    case Copy(_) => 4
    case Len(_, _) => 3
    case Lit(_, _, _) => 3
    case Table => 3
    case Stored => 3
    case Type => 2
    case Done => 1
    case Bad => 0
  }

  /** Some input was used, or some output made, or else the phase went down. */
  predicate Forward(a: Abs, put0: nat, b: Abs, put: nat) {
    && a.pos <= b.pos && put0 <= put
    && (a.pos == b.pos && put0 == put ==> Rank(b.phase) < Rank(a.phase))
  }

  /** Can only go on with room for output. */
  predicate WantsRoom(p: Phase) {
    p.Match? || p.Lit? || (p.Copy? && p.remaining > 0)
  }

  lemma OneStep(a: Abs, B: seq<bool>, b: Abs)
    requires Wf(a) && |B| % 8 == 0 && a.pos <= |B| && Step(a, B) == Some(b)
    ensures Reaches(a, B, b) && Wf(b)
  {
    StepKeepsWf(a, B);
    ReachesStep(a, B, b);
  }

  lemma NoStep(a: Abs, B: seq<bool>)
    requires |B| % 8 == 0 && a.pos <= |B| && Step(a, B).None?
    ensures Reaches(a, B, a) && Stuck(a, B)
  {
    ReachesSelf(a, B);
  }

  /** Bits pending in the accumulator are bits of the stream. */
  lemma FieldAt(inp: seq<Byte>, bits: nat, k: nat, n: nat)
    requires k + n <= bits <= 8 * |inp|
    ensures var B, p := BytesBits(inp), 8 * |inp| - bits;
            p + k + n <= |B| && ReadBits(B, p + k, n) == Val(B[p..][k..][..n])
  {
    var B, p := BytesBits(inp), 8 * |inp| - bits;
    assert B[p..][k..][..n] == B[p + k..p + k + n];
  }

  lemma ToByte(n: nat, bits: nat)
    requires bits <= 8 * n
    ensures RoundUp(8 * n - bits) == 8 * n - bits + bits % 8
  {
  }

  lemma OneBit(s: seq<bool>)
    requires |s| >= 1
    ensures Val(s[..1]) == Bit(s[0])
  {
    assert s[..1][1..] == [];
  }

  /** Stored bytes are copied one by one. */
  lemma {:induction false} CopyRun(a: Abs, inp: seq<Byte>, bs: seq<Byte>)
    requires a.phase.Copy? && a.phase.remaining >= |bs| && a.pos == 8 * |inp|
    ensures Reaches(a, BytesBits(inp + bs),
              a.(phase := Copy(a.phase.remaining - |bs|), pos := a.pos + 8 * |bs|, out := a.out + bs))
    decreases |bs|
  {
    hide BytesBits, ReadBits;
    var B := BytesBits(inp + bs);
    if bs == [] {
      assert a.out + bs == a.out;
      ReachesSelf(a, B);
    } else {
      var b := bs[0];
      assert inp + bs == inp + [b] + bs[1..];
      StoredByteAt(inp + bs, |inp|);
      var a' := a.(phase := Copy(a.phase.remaining - 1), pos := a.pos + 8, out := a.out + [b]);
      assert Step(a, B) == Some(a');
      ReachesStep(a, B, a');
      CopyRun(a', inp + [b], bs[1..]);
      assert a.out + [b] + bs[1..] == a.out + bs;
      ReachesTrans(a, B, a', a.(phase := Copy(a.phase.remaining - |bs|), pos := a.pos + 8 * |bs|, out := a.out + bs));
    }
  }

  lemma StoredByteAt(inp: seq<Byte>, i: nat)
    requires i < |inp|
    ensures 8 * i + 8 <= |BytesBits(inp)| && ReadBits(BytesBits(inp), 8 * i, 8) == inp[i]
  {
    BytesBitsAt(inp, i);
    ByteVal(inp[i]);
  }
}
