/** A whole stream of blocks is decoded to the bytes that the blocks stand for. */
module StreamRoundTrip {
  import opened Bits
  import opened Canonical
  import opened TableSpace
  import opened Lz77
  import opened InflateSpec
  import opened InflateRun
  import opened InflateInput
  import opened Inflate
  import opened BlockSpec
  import opened BlockRoundTrip
  import opened Blocks
  import opened Streaming
  import opened BitWriter
  import opened Encoder

  /** The tables of the block's codes fit the decoder's table space. */
  predicate Fit(b: Block) {
    b.DynamicAs? ==> Fits(LENS, b.ll, LENS_BITS) && Fits(DISTS, b.dl, DISTS_BITS)
  }

  predicate AllFit(log: seq<Block>) {
    forall i :: 0 <= i < |log| ==> Fit(log[i])
  }

  /** One block, whatever its kind. */
  lemma OneBlock(a: Abs, B: seq<bool>, b: Block, last: bool)
    requires |B| % 8 == 0 && a.phase == Type && !a.last && Sound(b) && Sensible(a.out, b) && Fit(b)
    requires At(B, a.pos, BlockBits(a.pos, b, last))
    ensures Reaches(a, B, a.(last := last, pos := a.pos + |BlockBits(a.pos, b, last)|, out := Written(a.out, b)))
  {
    hide Reaches, StoredBlock, StaticBlock, DynamicBlock, TreesOk, AllCoded, FixedLit, FixedDist, Fits, Complete, Expand, At;
    match b
    case StoredAs(data) => StoredBlockRoundTrip(a, B, last, data);
    case StaticAs(toks) => StaticBlockRoundTrip(a, B, last, toks);
    case DynamicAs(ll, dl, bl, n, toks) =>
      CompleteAccepted(ll, dl, bl, n, toks);
      DynamicBlockRoundTrip(a, B, last, ll, dl, bl, n, toks);
  }

  lemma CompleteAccepted(ll: seq<nat>, dl: seq<nat>, bl: seq<nat>, n: nat, toks: seq<Token>)
    requires Usable(ll, dl, bl, n, toks) && Fits(LENS, ll, LENS_BITS) && Fits(DISTS, dl, DISTS_BITS)
    ensures Accepted(CODES, bl) && CodesOk(ll, dl)
  {
    hide AllCoded, Fits, Used;
  }

  lemma AtPrefix(B: seq<bool>, E: seq<bool>, F: seq<bool>)
    requires E + F <= B
    ensures E <= B && At(B, |E|, F)
  {
    assert B[|E|..|E| + |F|] == (E + F)[|E|..];
  }

  /** The blocks before the last one. */
  lemma {:induction false} BlocksRoundTrip(B: seq<bool>, log: seq<Block>)
    requires |B| % 8 == 0 && AllSensible(log) && AllSound(log) && AllFit(log) && StreamBits(log, false) <= B
    ensures Reaches(START, B, Abs(Type, false, |StreamBits(log, false)|, Text(log)))
  {
    hide Reaches, BlockBits, Sound, Sensible, Written, At, Fit;
    if log == [] {
      ReachesSelf(START, B);
    } else {
      var n := |log| - 1;
      var s := StreamBits(log[..n], false);
      var e := BlockBits(|s|, log[n], false);
      NoFill(s + e);
      AtPrefix(B, s, e);
      BlocksRoundTrip(B, log[..n]);
      var a := Abs(Type, false, |s|, Text(log[..n]));
      OneBlock(a, B, log[n], false);
      ReachesTrans(START, B, a, a.(pos := |s| + |e|, out := Text(log)));
    }
  }

  /**
   The round trip: a decoder that starts on the bits of the whole stream finishes it, having
   written the text of the blocks.
   */
  lemma RoundTrip(B: seq<bool>, log: seq<Block>)
    requires log != [] && AllSensible(log) && AllSound(log) && AllFit(log) && B == StreamBits(log, true)
    ensures |B| % 8 == 0 && Reaches(START, B, Abs(Done, true, |B|, Text(log)))
  {
    hide Reaches, BlockBits, Sound, Sensible, Written, At, Fit, StreamBits, Step, Fill;
    var n := |log| - 1;
    var s := StreamBits(log[..n], false);
    var e := BlockBits(|s|, log[n], true);
    StreamEnds(log);
    BlocksRoundTrip(B, log[..n]);
    var a := Abs(Type, false, |s|, Text(log[..n]));
    OneBlock(a, B, log[n], true);
    var b := Abs(Type, true, |s| + |e|, Text(log));
    ReachesTrans(START, B, a, b);
    StepIs(b, B);
    ReachesStep(b, B, Abs(Done, true, |B|, Text(log)));
    ReachesTrans(START, B, b, Abs(Done, true, |B|, Text(log)));
  }

  /** The last block, and zeros up to a byte boundary. */
  lemma StreamEnds(log: seq<Block>)
    requires log != [] && AllSound(log)
    ensures var B, s := StreamBits(log, true), StreamBits(log[..|log| - 1], false);
            var e := BlockBits(|s|, log[|log| - 1], true);
            s <= B && At(B, |s|, e) && |B| == RoundUp(|s| + |e|)
  {
    hide BlockBits, Sound, At;
    var B, s := StreamBits(log, true), StreamBits(log[..|log| - 1], false);
    var e := BlockBits(|s|, log[|log| - 1], true);
    assert B == (s + e) + Fill(|s + e|, true);
    AtPrefix(B, s, e);
  }

  /**
   An inflate stream fed with (parts of) such a stream in any number of calls has written a
   beginning of the text; when it has gone as far as the data goes it has written all of it.
   */
  lemma InflateReads(p: Inflater, data: seq<Byte>, log: seq<Block>)
    requires p.AtRest() && p.reader.inp <= data
    requires log != [] && AllSensible(log) && AllSound(log) && AllFit(log) && BytesBits(data) == StreamBits(log, true)
    ensures p.abs.out <= Text(log)
    ensures Exhausted(p, data) ==> p.abs.out == Text(log) && p.abs.phase == Done && p.mode == DONE
  {
    hide Reaches, BytesBits, Stuck, StreamBits, AllSensible, AllSound, AllFit, Text, Inflater.AtRest;
    var B := BytesBits(data);
    RoundTrip(B, log);
    Grown(p.reader.inp, data);
    AtRestReached(p);
    var e := Abs(Done, true, |B|, Text(log));
    EndStuck(e, B);
    SameTrajectory(START, B, B, e, Pulled(p.reader), p.abs);
    if p.abs.phase.Done? {
      DoneMode(p);
    }
  }

  lemma AtRestReached(p: Inflater)
    requires p.AtRest()
    ensures Reaches(START, Pulled(p.reader), p.abs)
  {
    hide Reaches, BytesBits;
  }

  lemma DoneMode(p: Inflater)
    requires p.AtRest() && p.abs.phase.Done?
    ensures p.mode == DONE
  {
    hide Reaches;
    p.ModeIs(p.abs);
  }

  lemma EndStuck(e: Abs, B: seq<bool>)
    requires ((e.phase.Type? && !e.last) || e.phase.Done?) && |B| % 8 == 0 && e.pos == |B|
    ensures Stuck(e, B)
  {
    hide Step;
    StepIs(e, B);
  }

  /**
   The block round trip: whatever an inflate stream has been fed of the bytes that the block
   encoder has put out, in any number of calls, it has written a beginning of the text that the
   blocks stand for; when it has gone as far as those bytes go it has written all of it and is
   done.  The one thing taken for granted is that no code needs more table space than there is.
   */
  lemma EncodedIsDecoded(e: Encoder, p: Inflater)
    requires e.Logged() && e.ended && e.log != [] && AllSensible(e.log) && AllFit(e.log)
    requires p.AtRest() && p.reader.inp <= e.w.pending
    ensures p.abs.out <= Text(e.log)
    ensures Exhausted(p, e.w.pending) ==> p.abs.out == Text(e.log) && p.mode == DONE
  {
    hide Inflater.AtRest, StreamBits, AllSensible, AllSound, AllFit, Text, Writer.Sent, Writer.Valid, Stuck;
    e.w.NoBuffer();
    InflateReads(p, e.w.pending, e.log);
  }
}
