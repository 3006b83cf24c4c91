/**
 deflate and inflate together: what deflate has put out, whatever the level, the strategy, the
 flushes and the pieces in which it was given its input, inflate turns back into that input.
 */
module DeflateInflate {
  import opened Bits
  import opened InflateSpec
  import opened InflateRun
  import opened InflateInput
  import opened Inflate
  import opened Blocks
  import opened Streaming
  import opened StreamRoundTrip
  import opened BitWriter
  import opened Encoder
  import opened Deflate

  /** A decoder that has not been given more than what leads to e has not gone beyond e. */
  lemma NotBeyond(B: seq<bool>, e: Abs, B1: seq<bool>, b: Abs)
    requires |B| % 8 == 0 && Reaches(START, B, e) && B1 <= B && |B1| <= e.pos && Reaches(START, B1, b)
    requires (e.phase.Type? && !e.last) || e.phase.Done?
    ensures b.out <= e.out
  {
    hide Step;
    StartWf();
    ReachesStable(START, B1, B, b);
    ReachesPos(START, B1, b);
    var m: nat :| Run(START, B, m) == Some(b);
    var n: nat :| Run(START, B, n) == Some(e);
    if m <= n {
      Ahead(START, B, m, b, n, e);
    } else {
      Ahead(START, B, n, e, m, b);
      OnwardTakesBits(B, e, b);
    }
  }

  lemma OnwardTakesBits(B: seq<bool>, e: Abs, b: Abs)
    requires Reaches(e, B, b) && b.pos <= e.pos && ((e.phase.Type? && !e.last) || e.phase.Done?)
    ensures b == e
  {
    hide Step;
    StepIs(e, B);
    var n: nat :| Run(e, B, n) == Some(b);
  }

  /** Where the decoder stands at the end of all that has been sent. */
  ghost function End(log: seq<Block>, ended: bool): Abs
    requires AllSound(log) && AllSensible(log)
  {
    if ended then Abs(Done, true, |StreamBits(log, true)|, Text(log))
    else Abs(Type, false, |StreamBits(log, false)|, Text(log))
  }

  lemma ReachesEnd(log: seq<Block>, ended: bool) returns (B: seq<bool>)
    requires AllSound(log) && AllSensible(log) && AllFit(log) && (ended ==> log != [])
    ensures |B| % 8 == 0 && StreamBits(log, ended) <= B && Reaches(START, B, End(log, ended))
    ensures |StreamBits(log, ended)| % 8 == 0 ==> B == StreamBits(log, ended)
  {
    hide Reaches, StreamBits, AllSound, AllSensible, AllFit, Text;
    var s := StreamBits(log, ended);
    B := s + Zeros(RoundUp(|s|) - |s|);
    if ended {
      RoundTrip(s, log);
      assert B == s;
    } else {
      BlocksRoundTrip(B, log);
    }
  }

  /** The blocks that have been sent make sense, and stand for a beginning of the text. */
  lemma Told(d: Deflater)
    requires d.Valid()
    ensures d.e.Valid() && d.Kept() && AllSensible(d.e.log) && Text(d.e.log) <= d.m.text && (d.e.ended <==> d.finished)
    ensures d.e.ended ==> d.e.log != [] && Text(d.e.log) == d.m.text
  {
    hide AllSensible, Text, Deflater.Kept, Encoder.Valid, Deflater.Pending;
    if !d.finished {
      d.SteadyParts();
    }
  }

  /**
   The round trip.  An inflate stream that has been fed, in any number of calls, some of what
   deflate has put out so far has written a beginning of deflate's input; if it has used up all
   of it, it has written all of the input once a flush or the end of the stream has come through.
   The one thing taken for granted is that no code needs more table space than there is.
   */
  lemma InflateFollows(d: Deflater, p: Inflater)
    requires d.Valid() && AllFit(d.e.log) && p.AtRest() && p.reader.inp <= d.next_out
    ensures p.abs.out <= d.m.text
    ensures d.Synced() && Exhausted(p, d.next_out) ==> p.abs.out == d.m.text
    ensures d.finished && d.next_out == d.e.w.pending && Exhausted(p, d.next_out) ==> p.abs.out == d.m.text && p.mode == DONE
  {
    hide Reaches, StreamBits, AllSound, AllSensible, AllFit, Text, BytesBits, Stuck, Deflater.Valid, Inflater.AtRest,
      Encoder.Parts, Encoder.Counted, Encoder.Held, Writer.Valid, Writer.Sent;
    Told(d);
    var log := d.e.log;
    var e, B1 := End(log, d.e.ended), BytesBits(p.reader.inp);
    var B := ReachesEnd(log, d.e.ended);
    Grown(p.reader.inp, d.next_out);
    AtRestReached(p);
    NotBeyond(B, e, B1, p.abs);
    if d.e.w.bi_valid == 0 && d.next_out == d.e.w.pending {
      d.e.w.NoBuffer();
      AllUsed(p, d.next_out, e);
    }
  }

  /** A decoder that has used up all bits of a stream that leads to e is there. */
  lemma AllUsed(p: Inflater, data: seq<Byte>, e: Abs)
    requires p.AtRest() && p.reader.inp <= data && Reaches(START, BytesBits(data), e) && e.pos == 8 * |data|
    requires (e.phase.Type? && !e.last) || e.phase.Done?
    ensures Exhausted(p, data) ==> p.abs == e && (e.phase.Done? ==> p.mode == DONE)
  {
    hide Reaches, BytesBits, Inflater.AtRest, Stuck, Step;
    StartWf();
    EndStuck(e, BytesBits(data));
    Grown(p.reader.inp, data);
    AtRestReached(p);
    SameTrajectory(START, BytesBits(data), Pulled(p.reader), p.abs, BytesBits(data), e);
    if p.abs.phase.Done? {
      DoneMode(p);
    }
  }
}
