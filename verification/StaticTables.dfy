/** The constant tables of trees.c as tr_static_init builds them, and that they are the RFC's alphabets. */
module StaticTables {
  import opened Bits
  import opened Canonical
  import opened Alphabet
  import opened InflateSpec
  import opened FixedCodes
  import opened InfTrees
  import opened BitWriter
  import opened GenCodes

  /** A code for each symbol below |code| that has one in lens, ready to be sent. */
  ghost predicate Sendable(code: seq<nat>, len: seq<nat>, lens: seq<nat>) {
    && |code| == |len|
    && forall s :: 0 <= s < |lens| && s < |code| && lens[s] >= 1 ==> len[s] == lens[s] && CodeFor(code[s], lens, s)
  }

  /** The code whose range v lies in is the only one. */
  lemma {:induction false} FindIs(base: seq<nat>, v: nat, c: nat, k: nat)
    requires c < |base| && base[0] == 0 && k <= c && base[k] <= v
    requires forall i :: k < i <= c ==> v < base[i]
    ensures FindCode(base, v, c) == k
    decreases c
  {
    if k < c {
      FindIs(base, v, c - 1, k);
    }
  }

  lemma {:induction false} LengthBasesGrow(i: nat, j: nat)
    requires i <= j < 28
    ensures BaseLength()[i] <= BaseLength()[j] && (i < j ==> BaseLength()[i] + Pow2(ExtraLBits()[i]) <= BaseLength()[j])
    decreases j
  {
    hide BaseLength, ExtraLBits, Pow2;
    if i < j {
      LengthSteps(j - 1);
      LengthBasesGrow(i, j - 1);
    }
  }

  lemma LengthCodeIs(lc: nat, c: nat)
    requires c < 28 && BaseLength()[c] <= lc < BaseLength()[c] + Pow2(ExtraLBits()[c]) && lc < 255
    ensures LengthCode(lc) == c
  {
    hide FindCode, ExtraLBits, Pow2;
    forall i | c < i <= 27
      ensures lc < BaseLength()[i]
    {
      LengthBasesGrow(c, i);
    }
    FindIs(BaseLength(), lc, 27, c);
  }

  lemma {:induction false} DistBasesGrow(i: nat, j: nat)
    requires i <= j < 30
    ensures BaseDist()[i] <= BaseDist()[j] && (i < j ==> BaseDist()[i] + Pow2(ExtraDBits()[i]) <= BaseDist()[j])
    decreases j
  {
    hide BaseDist, ExtraDBits, Pow2;
    if i < j {
      DistSteps(j - 1);
      DistBasesGrow(i, j - 1);
    }
  }

  lemma DistCodeIs(d: nat, c: nat)
    requires c < 30 && BaseDist()[c] <= d < BaseDist()[c] + Pow2(ExtraDBits()[c])
    ensures DistCode(d) == c
  {
    hide FindCode, ExtraDBits, Pow2;
    forall i | c < i <= 29
      ensures d < BaseDist()[i]
    {
      DistBasesGrow(c, i);
    }
    FindIs(BaseDist(), d, 29, c);
  }

  /** From code 16 on the ranges are made of blocks of 128 distances. */
  lemma FarBases(c: nat)
    requires 16 <= c < 30
    ensures BaseDist()[c] % 128 == 0 && BaseDist()[c] >= 256 && ExtraDBits()[c] >= 7
    ensures BaseDist()[c] / 128 + Pow2(ExtraDBits()[c] - 7) == (if c == 29 then 256 else BaseDist()[c + 1] / 128)
    ensures Pow2(ExtraDBits()[c]) == 128 * Pow2(ExtraDBits()[c] - 7)
  {
    Pow2Values();
  }

  /** The table tells the code of distance d + 1. */
  ghost predicate DistTable(t: seq<nat>) {
    |t| == 512 && forall d: nat :: d < 32768 ==> t[if d < 256 then d else 256 + d / 128] == DistCode(d)
  }

  ghost predicate LengthTable(t: seq<nat>) {
    |t| == 256 && forall lc: nat :: lc < 256 ==> t[lc] == LengthCode(lc)
  }

  /** base holds the bases of the first n codes. */
  ghost predicate BasesUpTo(base: seq<nat>, all: seq<nat>, n: nat) {
    n <= |base| && n <= |all| && forall c :: 0 <= c < n ==> base[c] == all[c]
  }

  /** Mapping length (0..255) to length code (0..28). */
  method LengthCodes(code: array<nat>, base: array<nat>)
    requires code.Length == 256 && base.Length == 29 && code != base
    modifies code, base
    ensures LengthTable(code[..]) && BasesUpTo(base[..], BaseLength(), 28)
  {
    hide BaseLength, ExtraLBits, LengthCode, Pow2;
    var length, c := 0, 0;
    LengthStart();
    while c < 28
      invariant c <= 28 && length == if c < 28 then BaseLength()[c] else 256
      invariant BasesUpTo(base[..], BaseLength(), c)
      invariant length <= 256 && forall lc :: 0 <= lc < length && lc < 255 ==> code[lc] == LengthCode(lc)
    {
      base[c] := length;
      LengthSteps(c);
      LengthWithin(c);
      length := FillLengths(code, length, c);
      c := c + 1;
    }
    code[length - 1] := c;
    LengthLast();
  }

  lemma LengthStart()
    ensures BaseLength()[0] == 0
  {
  }

  lemma LengthLast()
    ensures LengthCode(255) == 28
  {
  }

  lemma LengthWithin(c: nat)
    requires c < 28
    ensures BaseLength()[c] + Pow2(ExtraLBits()[c]) <= 256
  {
    hide BaseLength, ExtraLBits, Pow2;
    LengthBasesGrow(c, 27);
    LengthSteps(27);
  }

  /** All lengths with code c. */
  method FillLengths(code: array<nat>, length: nat, c: nat) returns (next: nat)
    requires code.Length == 256 && c < 28 && length == BaseLength()[c] && length + Pow2(ExtraLBits()[c]) <= 256
    requires forall lc :: 0 <= lc < length ==> code[lc] == LengthCode(lc)
    modifies code
    ensures next == length + Pow2(ExtraLBits()[c])
    ensures forall lc :: 0 <= lc < next && lc < 255 ==> code[lc] == LengthCode(lc)
  {
    hide BaseLength, ExtraLBits, LengthCode, Pow2;
    var many := Power(ExtraLBits()[c]);
    var n := 0;
    while n < many
      invariant n <= many
      invariant forall lc :: 0 <= lc < length + n && lc < 255 ==> code[lc] == LengthCode(lc)
    {
      code[length + n] := c;
      if length + n < 255 {
        LengthCodeIs(length + n, c);
      }
      n := n + 1;
    }
    next := length + n;
  }

  /** Mapping distance (0..32K) to distance code (0..29): in full up to 256, then by its high bits. */
  method DistCodes(code: array<nat>, base: array<nat>)
    requires code.Length == 512 && base.Length == 30 && code != base
    modifies code, base
    ensures DistTable(code[..]) && BasesUpTo(base[..], BaseDist(), 30)
  {
    hide BaseDist, ExtraDBits, DistCode, Pow2;
    var dist, c := 0, 0;
    DistStart();
    while c < 16
      invariant c <= 16 && dist == BaseDist()[c] <= 256
      invariant BasesUpTo(base[..], BaseDist(), c)
      invariant forall d: nat :: d < dist ==> code[d] == DistCode(d)
    {
      base[c] := dist;
      DistSteps(c);
      NearWithin(c);
      dist := FillNear(code, dist, c);
      c := c + 1;
    }
    NearAll();
    assert FarTable(code[..], 2);
    dist := dist / 128;
    while c < 30
      invariant 16 <= c <= 30 && dist == (if c == 30 then 256 else BaseDist()[c] / 128)
      invariant BasesUpTo(base[..], BaseDist(), c) && 2 <= dist <= 256
      invariant FarTable(code[..], dist)
    {
      FarBases(c);
      FarWithin(c);
      base[c] := dist * 128;
      dist := FillFar(code, dist, c);
      c := c + 1;
    }
  }

  lemma DistStart()
    ensures BaseDist()[0] == 0
  {
  }

  lemma NearAll()
    ensures BaseDist()[16] == 256
  {
  }

  lemma NearWithin(c: nat)
    requires c < 16
    ensures BaseDist()[c] + Pow2(ExtraDBits()[c]) <= 256
  {
    hide BaseDist, ExtraDBits, Pow2;
    DistBasesGrow(c, 16);
    NearAll();
  }

  lemma FarWithin(c: nat)
    requires 16 <= c < 30
    ensures BaseDist()[c] / 128 + Pow2(ExtraDBits()[c] - 7) <= 256
  {
    hide BaseDist, ExtraDBits, Pow2;
    FarBases(c);
    if c < 29 {
      DistBasesGrow(c + 1, 29);
      DistSteps(29);
    }
  }

  method FillNear(code: array<nat>, dist: nat, c: nat) returns (next: nat)
    requires code.Length == 512 && c < 16 && dist == BaseDist()[c] && dist + Pow2(ExtraDBits()[c]) <= 256
    requires forall d: nat :: d < dist ==> code[d] == DistCode(d)
    modifies code
    ensures next == dist + Pow2(ExtraDBits()[c])
    ensures forall d: nat :: d < next ==> code[d] == DistCode(d)
  {
    hide BaseDist, ExtraDBits, DistCode, Pow2;
    var many := Power(ExtraDBits()[c]);
    var n := 0;
    while n < many
      invariant n <= many
      invariant forall d: nat :: d < dist + n ==> code[d] == DistCode(d)
    {
      code[dist + n] := c;
      DistCodeIs(dist + n, c);
      n := n + 1;
    }
    next := dist + n;
  }

  /** In full up to distance 256, and the first k blocks of 128. */
  ghost predicate FarTable(t: seq<nat>, k: nat) {
    && |t| == 512 && k <= 256
    && (forall d: nat :: d < 256 ==> t[d] == DistCode(d))
    && forall d: nat :: 256 <= d < 128 * k ==> t[256 + d / 128] == DistCode(d)
  }

  lemma FarNext(t: seq<nat>, k: nat, c: nat)
    requires FarTable(t, k) && 2 <= k < 256 && c < 30
    requires BaseDist()[c] <= 128 * k && 128 * k + 128 <= BaseDist()[c] + Pow2(ExtraDBits()[c])
    ensures FarTable(t[256 + k := c], k + 1)
  {
    hide BaseDist, ExtraDBits, DistCode, Pow2;
    var t' := t[256 + k := c];
    forall d: nat | 256 <= d < 128 * (k + 1)
      ensures t'[256 + d / 128] == DistCode(d)
    {
      if d >= 128 * k {
        DistCodeIs(d, c);
      }
    }
  }

  method FillFar(code: array<nat>, dist: nat, c: nat) returns (next: nat)
    requires code.Length == 512 && 16 <= c < 30 && 128 * dist == BaseDist()[c] && dist >= 2
    requires ExtraDBits()[c] >= 7 && Pow2(ExtraDBits()[c]) == 128 * Pow2(ExtraDBits()[c] - 7)
    requires dist + Pow2(ExtraDBits()[c] - 7) <= 256
    requires FarTable(code[..], dist)
    modifies code
    ensures next == dist + Pow2(ExtraDBits()[c] - 7) && FarTable(code[..], next)
  {
    hide BaseDist, ExtraDBits, DistCode, Pow2, FarTable;
    var many := Power(ExtraDBits()[c] - 7);
    var n := 0;
    while n < many
      invariant n <= many && FarTable(code[..], dist + n)
    {
      ghost var t: seq<nat> := code[..];
      code[256 + dist + n] := c;
      FarNext(t, dist + n, c);
      assert code[..] == t[256 + (dist + n) := c];
      n := n + 1;
    }
    next := dist + n;
  }

  /** The symbols from n0 to last get codes of v bits. */
  method LengthsTo(len: array<nat>, bl_count: array<nat>, n0: nat, last: nat, v: nat)
    requires len != bl_count && bl_count.Length == 16 && v < 16 && n0 <= last < len.Length
    modifies len, bl_count
    ensures forall i :: 0 <= i < len.Length ==> len[i] == if n0 <= i <= last then v else old(len[i])
    ensures forall b :: 0 <= b < 16 ==> bl_count[b] == old(bl_count[b]) + if b == v then last + 1 - n0 else 0
  {
    var n := n0;
    while n <= last
      invariant n0 <= n <= last + 1
      invariant forall i :: 0 <= i < len.Length ==> len[i] == if n0 <= i < n then v else old(len[i])
      invariant forall b :: 0 <= b < 16 ==> bl_count[b] == old(bl_count[b]) + if b == v then n - n0 else 0
    {
      len[n], bl_count[v] := v, bl_count[v] + 1;
      n := n + 1;
    }
  }

  /** The trees for static blocks. */
  method StaticLiteralTree(code: array<nat>, len: array<nat>)
    requires code.Length == len.Length == 288 && code != len
    modifies code, len
    ensures len[..] == FixedLit() && Sendable(code[..], len[..], FixedLit())
  {
    hide FixedLit, Count, Used, CodeFor;
    var bl_count := new nat[16](_ => 0);
    FixedLitComplete();
    LengthsTo(len, bl_count, 0, 143, 8);
    LengthsTo(len, bl_count, 144, 255, 9);
    LengthsTo(len, bl_count, 256, 279, 7);
    LengthsTo(len, bl_count, 280, 287, 8);
    assert len[..] == FixedLit();
    assert len[..287 + 1] == FixedLit();
    forall b | 1 <= b <= MAXBITS
      ensures bl_count[b] == Count(FixedLit(), b)
    {
      FixedLitCount(b);
    }
    GenCodes.GenCodes(code, len, 287, bl_count);
  }

  method StaticDistanceTree(code: array<nat>, len: array<nat>)
    requires code.Length == len.Length == 30 && code != len
    modifies code, len
    ensures len[..] == Repeat(5, 30) && Sendable(code[..], len[..], FixedDist())
  {
    hide CodeOf, Msb, Lsb, Pow2;
    var n := 0;
    while n < 30
      invariant n <= 30 && forall i :: 0 <= i < n ==> len[i] == 5 && CodeFor(code[i], FixedDist(), i)
    {
      len[n] := 5;
      var reversed := BiReverse(n, 5);
      code[n] := reversed;
      FixedDistCode(n);
      n := n + 1;
    }
  }

  /** tr_static_init: all tables, constant from then on. */
  class Tables {
    const length_code: seq<nat>
    const base_length: seq<nat>
    const dist_code: seq<nat>
    const base_dist: seq<nat>
    const ltree_code: seq<nat>
    const ltree_len: seq<nat>
    const dtree_code: seq<nat>
    const dtree_len: seq<nat>

    ghost predicate Valid() {
      && LengthTable(length_code) && BasesUpTo(base_length, BaseLength(), 28)
      && DistTable(dist_code) && BasesUpTo(base_dist, BaseDist(), 30)
      && ltree_len == FixedLit() && Sendable(ltree_code, ltree_len, FixedLit())
      && dtree_len == Repeat(5, 30) && Sendable(dtree_code, dtree_len, FixedDist())
    }

    constructor ()
      ensures Valid()
    {
      hide LengthTable, DistTable, BasesUpTo, Sendable, BaseLength, BaseDist, FixedLit, FixedDist;
      var lc, lb := new nat[256], new nat[29];
      var dc, db := new nat[512], new nat[30];
      var lcode, llen := new nat[288], new nat[288];
      var dcode, dlen := new nat[30], new nat[30];
      LengthCodes(lc, lb);
      DistCodes(dc, db);
      StaticLiteralTree(lcode, llen);
      StaticDistanceTree(dcode, dlen);
      length_code, base_length := lc[..], lb[..];
      dist_code, base_dist := dc[..], db[..];
      ltree_code, ltree_len := lcode[..], llen[..];
      dtree_code, dtree_len := dcode[..], dlen[..];
    }

    /** d_code(dist) */
    function DCode(dist: nat): (c: nat)
      requires Valid() && dist < 32768
      ensures c == DistCode(dist)
    {
      hide DistCode, LengthTable, BasesUpTo, Sendable, FixedLit, FixedDist;
      if dist < 256 then dist_code[dist] else dist_code[256 + dist / 128]
    }
  }
}
