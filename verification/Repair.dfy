/**
 The repair of overlong codes in gen_bitlen (libz_all/trees.c): as long as too much of the code
 space is taken, a shorter code is made one bit longer and takes an overlong one as its brother.
 */
module Repair {
  import opened Bits

  /** The code space taken by codes[b] codes of each length b up to n, in units of 2^-n. */
  function Space(codes: seq<nat>, n: nat): nat
    requires n < |codes|
  {
    if n == 0 then 0 else 2 * Space(codes, n - 1) + codes[n]
  }

  /** How many codes there are, up to length n. */
  function Total(codes: seq<nat>, n: nat): nat
    requires n < |codes|
  {
    if n == 0 then 0 else Total(codes, n - 1) + codes[n]
  }

  lemma TwiceTimes(d: int, p: int)
    ensures d * (2 * p) == 2 * (d * p)
  {
  }

  lemma {:induction false} SpaceUpdate(codes: seq<nat>, n: nat, b: nat, v: nat)
    requires 1 <= b < |codes| && n < |codes|
    ensures Space(codes[b := v], n) == Space(codes, n) + if b <= n then (v - codes[b]) * Pow2(n - b) else 0
    ensures Total(codes[b := v], n) == Total(codes, n) + if b <= n then v - codes[b] else 0
    decreases n
  {
    if n > 0 {
      SpaceUpdate(codes, n - 1, b, v);
      if b < n {
        TwiceTimes(v - codes[b], Pow2(n - 1 - b));
      } else if b == n {
        assert Pow2(0) == 1;
      }
    }
  }

  /** Without codes shorter than n the space is what the codes of length n take. */
  lemma {:induction false} NoShorter(codes: seq<nat>, n: nat)
    requires 1 <= n < |codes| && forall b :: 1 <= b < n ==> codes[b] == 0
    ensures Space(codes, n) == codes[n] && Total(codes, n) == codes[n]
  {
    if n > 1 {
      NoShorter(codes, n - 1);
    } else {
      assert Space(codes, 0) == 0;
    }
  }

  /**
   excess codes of length max too many: the code space is overdrawn by that much, and there are
   that many codes of length max to spare.
   */
  ghost predicate Overdrawn(codes: seq<nat>, max: nat, excess: nat) {
    && 2 <= max < |codes| && codes[0] == 0
    && Space(codes, max) == Pow2(max) + excess && excess <= codes[max] && Total(codes, max) <= Pow2(max)
  }

  /** There is a shorter code that can be made longer. */
  lemma ShorterExists(codes: seq<nat>, max: nat, excess: nat)
    requires Overdrawn(codes, max, excess) && excess > 0
    ensures exists b :: 1 <= b < max && codes[b] != 0
  {
    if forall b :: 1 <= b < max ==> codes[b] == 0 {
      NoShorter(codes, max);
    }
  }

  function Repaired(codes: seq<nat>, max: nat, b: nat): (r: seq<nat>)
    requires 1 <= b < max < |codes| && codes[b] >= 1 && codes[max] >= 1
    ensures |r| == |codes|
  {
    var c1 := codes[b := codes[b] - 1];
    var c2 := c1[b + 1 := c1[b + 1] + 2];
    c2[max := c2[max] - 1]
  }

  lemma RepairStep(codes: seq<nat>, max: nat, b: nat, excess: nat)
    requires Overdrawn(codes, max, excess) && excess > 0 && 1 <= b < max && codes[b] >= 1
    ensures Overdrawn(Repaired(codes, max, b), max, excess - 1)
    ensures Total(Repaired(codes, max, b), max) == Total(codes, max)
  {
    hide Space, Total;
    var c1 := codes[b := codes[b] - 1];
    var c2 := c1[b + 1 := c1[b + 1] + 2];
    SpaceUpdate(codes, max, b, codes[b] - 1);
    SpaceUpdate(c1, max, b + 1, c1[b + 1] + 2);
    SpaceUpdate(c2, max, max, c2[max] - 1);
    assert Pow2(max - b) == 2 * Pow2(max - (b + 1));
    assert Pow2(0) == 1;
  }

  /** The do-while loop of gen_bitlen. */
  method RepairCounts(bl_count: array<nat>, max_length: nat, overflow: int)
    requires bl_count.Length == 16 && max_length <= 15
    requires overflow > 0 && overflow % 2 == 0 && Overdrawn(bl_count[..], max_length, overflow / 2)
    modifies bl_count
    ensures Overdrawn(bl_count[..], max_length, 0)
    ensures Total(bl_count[..], max_length) == Total(old(bl_count[..]), max_length)
    ensures forall b :: max_length < b < 16 ==> bl_count[b] == old(bl_count[b])
  {
    hide Space, Total, Overdrawn;
    var over := overflow;
    OverdrawnMax(bl_count[..], max_length, over / 2);
    while over > 0
      invariant over >= 0 && over % 2 == 0 && Overdrawn(bl_count[..], max_length, over / 2) && 2 <= max_length
      invariant Total(bl_count[..], max_length) == Total(old(bl_count[..]), max_length)
      invariant forall b :: max_length < b < 16 ==> bl_count[b] == old(bl_count[b])
    {
      ghost var codes: seq<nat> := bl_count[..];
      ShorterExists(codes, max_length, over / 2);
      OverdrawnMax(codes, max_length, over / 2);
      var bits := max_length - 1;
      ghost var b: nat :| 1 <= b < max_length && codes[b] != 0;
      while bl_count[bits] == 0
        invariant b <= bits < max_length
        decreases bits
      {
        assert bl_count[b] == codes[b];
        bits := bits - 1;
      }
      RepairStep(codes, max_length, bits, over / 2);
      bl_count[bits] := bl_count[bits] - 1;
      bl_count[bits + 1] := bl_count[bits + 1] + 2;
      bl_count[max_length] := bl_count[max_length] - 1;
      assert bl_count[..] == Repaired(codes, max_length, bits);
      over := over - 2;
    }
  }

  lemma OverdrawnMax(codes: seq<nat>, max: nat, excess: nat)
    requires Overdrawn(codes, max, excess) && excess > 0
    ensures 2 <= max < |codes| && codes[max] >= 1
  {
  }
}
