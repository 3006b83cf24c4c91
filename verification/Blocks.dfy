/** A compressed stream as a list of blocks (RFC 1951, section 3.2.3). */
module Blocks {
  import opened Bits
  import opened Canonical
  import opened Alphabet
  import opened Lz77
  import opened InflateSpec
  import opened BlockSpec

  /** What one block says, and how. */
  datatype Block =
    | StoredAs(data: seq<Byte>)
    | StaticAs(toks: seq<Token>)
    | DynamicAs(ll: seq<nat>, dl: seq<nat>, bl: seq<nat>, n: nat, toks: seq<Token>)

  /** The three codes of a dynamic block, fit for its tokens. */
  ghost predicate Usable(ll: seq<nat>, dl: seq<nat>, bl: seq<nat>, n: nat, toks: seq<Token>) {
    && TreesOk(ll, dl, bl, n) && AllCoded(ll, dl, toks) && ll[END_BLOCK] >= 1
    && Complete(ll) && Complete(dl) && Complete(bl)
  }

  ghost predicate Sound(b: Block) {
    match b
    case StoredAs(data) => |data| <= 65535
    case StaticAs(toks) => AllCoded(FixedLit(), FixedDist(), toks) && FixedLit()[END_BLOCK] >= 1
    case DynamicAs(ll, dl, bl, n, toks) => Usable(ll, dl, bl, n, toks)
  }

  /** What sending the trees of a dynamic block takes. */
  ghost function TreesSize(b: Block): nat
    requires Sound(b) && b.DynamicAs?
  {
    |TreesBits(b.ll, b.dl, b.bl, b.n)|
  }

  /** The bits of a block that begins at bit position pos. */
  ghost function BlockBits(pos: nat, b: Block, last: bool): seq<bool>
    requires Sound(b)
  {
    match b
    case StoredAs(data) => StoredBlock(pos, last, data)
    case StaticAs(toks) => StaticBlock(last, toks)
    case DynamicAs(ll, dl, bl, n, toks) => DynamicBlock(last, ll, dl, bl, n, toks)
  }

  /** The last block is filled up to a whole byte. */
  function Fill(n: nat, last: bool): (s: seq<bool>) {
    if last then Zeros(RoundUp(n) - n) else []
  }

  ghost predicate AllSound(log: seq<Block>) {
    forall i :: 0 <= i < |log| ==> Sound(log[i])
  }

  /** All bits of the stream; the last block is marked as such once the stream has ended. */
  ghost function StreamBits(log: seq<Block>, ended: bool): seq<bool>
    requires AllSound(log)
  {
    if log == [] then []
    else
      var s := StreamBits(log[..|log| - 1], false);
      var e := s + BlockBits(|s|, log[|log| - 1], ended);
      e + Fill(|e|, ended)
  }

  lemma NoBlocks()
    ensures AllSound([]) && StreamBits([], false) == []
  {
  }

  lemma StreamSnoc(log: seq<Block>, b: Block, ended: bool)
    requires AllSound(log) && Sound(b)
    ensures AllSound(log + [b])
    ensures var e := StreamBits(log, false) + BlockBits(|StreamBits(log, false)|, b, ended);
            StreamBits(log + [b], ended) == e + Fill(|e|, ended)
  {
    hide BlockBits;
    assert (log + [b])[..|log|] == log;
  }

  /* ---------- what the blocks stand for ---------- */

  /** The block makes sense after what has been written: no match reaches back too far. */
  ghost predicate Sensible(out: seq<Byte>, b: Block) {
    match b
    case StoredAs(_) => true
    case StaticAs(toks) => Valid(out, toks)
    case DynamicAs(_, _, _, _, toks) => Valid(out, toks)
  }

  ghost function Written(out: seq<Byte>, b: Block): seq<Byte>
    requires Sensible(out, b)
  {
    match b
    case StoredAs(data) => out + data
    case StaticAs(toks) => Expand(out, toks)
    case DynamicAs(_, _, _, _, toks) => Expand(out, toks)
  }

  ghost predicate AllSensible(log: seq<Block>)
    decreases |log|, 0
  {
    log == [] || (AllSensible(log[..|log| - 1]) && Sensible(Text(log[..|log| - 1]), log[|log| - 1]))
  }

  ghost function Text(log: seq<Block>): seq<Byte>
    requires AllSensible(log)
    decreases |log|, 1
  {
    if log == [] then [] else Written(Text(log[..|log| - 1]), log[|log| - 1])
  }

  /** The block says toks, or the bytes that toks stand for after out. */
  ghost predicate Says(out: seq<Byte>, b: Block, toks: seq<Token>)
    requires Valid(out, toks)
  {
    match b
    case StoredAs(data) => out + data == Expand(out, toks)
    case StaticAs(ts) => ts == toks
    case DynamicAs(_, _, _, _, ts) => ts == toks
  }

  /** Whichever way the tokens are sent, the text grows by what they stand for. */
  lemma TextSnoc(log: seq<Block>, b: Block, toks: seq<Token>)
    requires AllSensible(log) && Valid(Text(log), toks) && Says(Text(log), b, toks)
    ensures AllSensible(log + [b]) && Text(log + [b]) == Expand(Text(log), toks)
  {
    assert (log + [b])[..|log|] == log;
  }

  /** The tokens make sense after the text of the blocks. */
  ghost predicate TokensFollow(log: seq<Block>, toks: seq<Token>) {
    AllSensible(log) && Valid(Text(log), toks)
  }

  /** They stand for data. */
  ghost predicate BytesFollow(log: seq<Block>, toks: seq<Token>, data: seq<Byte>) {
    TokensFollow(log, toks) && Text(log) + data == Expand(Text(log), toks)
  }

  lemma NoText()
    ensures AllSensible([]) && Text([]) == []
  {
  }
}
