/** The bits of one block, as a function of its tokens and codes (RFC 1951, section 3.2.3). */
module BlockSpec {
  import opened Bits
  import opened Canonical
  import opened Alphabet
  import opened Lz77
  import opened InflateSpec
  import opened RunLength

  predicate LengthCoded(ll: seq<nat>, lc: nat) {
    LengthCode(lc) + 257 < |ll| && ll[LengthCode(lc) + 257] >= 1
  }

  predicate DistCoded(dl: seq<nat>, d: nat) {
    DistCode(d) < |dl| && dl[DistCode(d)] >= 1
  }

  /** The pair can be expressed and its symbols have codes. */
  predicate Coded(ll: seq<nat>, dl: seq<nat>, t: Token) {
    match t
    case Literal(b) => b < |ll| && ll[b] >= 1
    case Match(len, dist) =>
      Expressible(t) && LengthCoded(ll, len - 3) && DistCoded(dl, dist - 1)
  }

  function LengthBits(ll: seq<nat>, lc: nat): seq<bool>
    requires lc < 256 && LengthCoded(ll, lc)
  {
    var c := LengthCode(lc);
    LengthCodeInverse(lc);
    Codeword(ll, c + 257) + (if ExtraLBits()[c] == 0 then [] else Lsb(lc - BaseLength()[c], ExtraLBits()[c]))
  }

  function DistBits(dl: seq<nat>, d: nat): seq<bool>
    requires d < 32768 && DistCoded(dl, d)
  {
    var c := DistCode(d);
    DistCodeInverse(d);
    Codeword(dl, c) + Lsb(d - BaseDist()[c], ExtraDBits()[c])
  }

  function TokenBits(ll: seq<nat>, dl: seq<nat>, t: Token): seq<bool>
    requires Coded(ll, dl, t)
  {
    match t
    case Literal(b) => Codeword(ll, b)
    case Match(len, dist) =>
      hide LengthCoded, DistCoded;
      LengthBits(ll, len - 3) + DistBits(dl, dist - 1)
  }

  predicate AllCoded(ll: seq<nat>, dl: seq<nat>, toks: seq<Token>) {
    forall i :: 0 <= i < |toks| ==> Coded(ll, dl, toks[i])
  }

  function TokensBits(ll: seq<nat>, dl: seq<nat>, toks: seq<Token>): seq<bool>
    requires AllCoded(ll, dl, toks)
  {
    if toks == [] then []
    else TokensBits(ll, dl, toks[..|toks| - 1]) + TokenBits(ll, dl, toks[|toks| - 1])
  }

  /** The compressed data of a block, closed by the end-of-block code. */
  function DataBits(ll: seq<nat>, dl: seq<nat>, toks: seq<Token>): seq<bool>
    requires AllCoded(ll, dl, toks) && END_BLOCK < |ll| && ll[END_BLOCK] >= 1
  {
    TokensBits(ll, dl, toks) + Codeword(ll, END_BLOCK)
  }

  const STORED_BLOCK: nat := 0
  const STATIC_TREES: nat := 1
  const DYN_TREES: nat := 2

  function BlockHeader(kind: nat, last: bool): (s: seq<bool>)
    ensures |s| == 3
  {
    Lsb(2 * kind + Bit(last), 3)
  }

  function StaticBlock(last: bool, toks: seq<Token>): seq<bool>
    requires AllCoded(FixedLit(), FixedDist(), toks) && FixedLit()[END_BLOCK] >= 1
  {
    BlockHeader(STATIC_TREES, last) + DataBits(FixedLit(), FixedDist(), toks)
  }

  /** Code length code lengths in transmission order, the first n of them. */
  function OrderBits(bl: seq<nat>, n: nat): (s: seq<bool>)
    requires |bl| == 19 && n <= 19
    ensures |s| == 3 * n
  {
    if n == 0 then [] else OrderBits(bl, n - 1) + Lsb(bl[DeflateOrder()[n - 1]], 3)
  }

  /** The header of a dynamic block: counts, code length code, and the two length vectors. */
  ghost predicate TreesOk(ll: seq<nat>, dl: seq<nat>, bl: seq<nat>, n: nat) {
    && 257 <= |ll| <= 286 && 1 <= |dl| <= 30 && LengthsOk(ll) && LengthsOk(dl)
    && |bl| == 19 && 4 <= n <= 19
    && (forall i :: 0 <= i < 19 ==> bl[i] < 8)
    && (forall i :: n <= i < 19 ==> bl[DeflateOrder()[i]] == 0)
    && ClsCoded(bl, RunLengths(ll, 0, -1)) && ClsCoded(bl, RunLengths(dl, 0, -1))
  }

  ghost function TreesBits(ll: seq<nat>, dl: seq<nat>, bl: seq<nat>, n: nat): seq<bool>
    requires TreesOk(ll, dl, bl, n)
  {
    Lsb(|ll| - 257, 5) + Lsb(|dl| - 1, 5) + Lsb(n - 4, 4) + OrderBits(bl, n) +
    ClsBits(bl, RunLengths(ll, 0, -1)) + ClsBits(bl, RunLengths(dl, 0, -1))
  }

  ghost function DynamicBlock(last: bool, ll: seq<nat>, dl: seq<nat>, bl: seq<nat>, n: nat, toks: seq<Token>)
    : seq<bool>
    requires TreesOk(ll, dl, bl, n) && AllCoded(ll, dl, toks) && ll[END_BLOCK] >= 1
  {
    BlockHeader(DYN_TREES, last) + TreesBits(ll, dl, bl, n) + DataBits(ll, dl, toks)
  }

  /** A stored block that starts at bit position pos. */
  function StoredBlock(pos: nat, last: bool, data: seq<Byte>): seq<bool>
    requires |data| <= 65535
  {
    BlockHeader(STORED_BLOCK, last) + Zeros(RoundUp(pos + 3) - (pos + 3)) +
    Lsb(|data|, 16) + Lsb(65535 - |data|, 16) + BytesBits(data)
  }
}
