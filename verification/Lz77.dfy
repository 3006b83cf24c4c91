/**
 What a parse means: the literals and back references that deflate produces, and the bytes
 they stand for.
 */
module Lz77 {
  import opened Bits

  const MIN_MATCH: nat := 3
  const MAX_MATCH: nat := 258
  const MAX_DISTANCE: nat := 32768

  datatype Token = Literal(b: Byte) | Match(len: nat, dist: nat)

  /** The pairs the format can express. */
  predicate Expressible(t: Token) {
    t.Match? ==> MIN_MATCH <= t.len <= MAX_MATCH && 1 <= t.dist <= MAX_DISTANCE
  }

  /** A token is meaningful after out when it does not reach back before its beginning. */
  predicate Applicable(out: seq<Byte>, t: Token) {
    t.Match? ==> 1 <= t.dist <= |out|
  }

  /** Byte by byte, so a match may run into the bytes it produces itself. */
  function CopyMatch(out: seq<Byte>, len: nat, dist: nat): (r: seq<Byte>)
    requires 1 <= dist <= |out|
    ensures |r| == |out| + len && out <= r
    decreases len
  {
    if len == 0 then out else CopyMatch(out + [out[|out| - dist]], len - 1, dist)
  }

  function Apply(out: seq<Byte>, t: Token): (r: seq<Byte>)
    requires Applicable(out, t)
    ensures out <= r
  {
    match t
    case Literal(b) => out + [b]
    case Match(len, dist) => CopyMatch(out, len, dist)
  }

  /** Every token can be applied when its turn comes. */
  predicate Valid(out: seq<Byte>, toks: seq<Token>)
    decreases |toks|, 0
  {
    toks == [] ||
    (var n := |toks| - 1;
     Valid(out, toks[..n]) && Applicable(Expand(out, toks[..n]), toks[n]))
  }

  function Expand(out: seq<Byte>, toks: seq<Token>): (r: seq<Byte>)
    requires Valid(out, toks)
    ensures out <= r
    decreases |toks|, 1
  {
    if toks == [] then out
    else Apply(Expand(out, toks[..|toks| - 1]), toks[|toks| - 1])
  }

  lemma ExpandSnoc(out: seq<Byte>, toks: seq<Token>, t: Token)
    requires Valid(out, toks) && Applicable(Expand(out, toks), t)
    ensures Valid(out, toks + [t]) && Expand(out, toks + [t]) == Apply(Expand(out, toks), t)
  {
    assert (toks + [t])[..|toks|] == toks;
  }

  /** A match stands for the bytes that really follow when those repeat dist bytes earlier. */
  lemma {:induction false} CopyMatchIs(text: seq<Byte>, at: nat, len: nat, dist: nat)
    requires 1 <= dist <= at && at + len <= |text|
    requires forall j :: at <= j < at + len ==> text[j] == text[j - dist]
    ensures CopyMatch(text[..at], len, dist) == text[..at + len]
    decreases len
  {
    if len > 0 {
      assert text[at] == text[at - dist];
      assert text[..at] + [text[at]] == text[..at + 1];
      CopyMatchIs(text, at + 1, len - 1, dist);
    }
  }
}
