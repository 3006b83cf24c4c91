/** The inflate stream itself on two of the sample files, in whatever calls it is given them. */
module SampleRuns {
  import opened Bits
  import opened InflateSpec
  import opened Inflate
  import opened Streaming
  import opened DeflateInflate
  import opened Samples
  import opened DynamicSample

  /** "pull 17": a block with dynamic codes and nothing in it. */
  lemma Pull17Inflated(p: Inflater)
    requires p.AtRest() && p.reader.inp <= Pull17() && Exhausted(p, Pull17())
    ensures p.mode == DONE && p.abs.out == []
  {
    hide Inflater.AtRest, BytesBits, Pull17;
    Pull17Ends();
    AllUsed(p, Pull17(), Abs(Done, true, 112, []));
  }

  /** "window wrap": 262 zeros. */
  lemma WindowWrapInflated(p: Inflater)
    requires var data: seq<Byte> := [0x63, 0x18, 5, 0x40, 0x0c, 0]; p.AtRest() && p.reader.inp <= data && Exhausted(p, data)
    ensures p.mode == DONE && p.abs.out == Repeat(0, 262)
  {
    hide Inflater.AtRest, BytesBits;
    WindowWrap();
    AllUsed(p, [0x63, 0x18, 5, 0x40, 0x0c, 0], Abs(Done, true, 48, Repeat(0, 262)));
  }
}
