/** Bit strings as byte strings. */
module Packing {
  import opened Bits

  function ByteOf(s: seq<bool>): (b: Byte)
    requires |s| == 8
    ensures b == Val(s)
  {
    EightBits(s);
    Val(s)
  }

  lemma EightBits(s: seq<bool>)
    requires |s| == 8
    ensures Val(s) < 256
  {
    ValBound(s);
    Pow2Values();
  }

  /** The bytes that carry the given bits. */
  function Pack(s: seq<bool>): (bs: seq<Byte>)
    requires |s| % 8 == 0
    ensures |bs| == |s| / 8
  {
    if s == [] then []
    else
      var n := |s| - 8;
      Pack(s[..n]) + [ByteOf(s[n..])]
  }

  lemma {:induction false} BytesBitsPack(s: seq<bool>)
    requires |s| % 8 == 0
    ensures BytesBits(Pack(s)) == s
  {
    if s != [] {
      var n := |s| - 8;
      BytesBitsPack(s[..n]);
      LsbVal(s[n..]);
      SplitAt(s, n);
      assert Pack(s)[..|Pack(s)| - 1] == Pack(s[..n]);
    }
  }
}
