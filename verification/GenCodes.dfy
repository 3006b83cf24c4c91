/** gen_codes (libz_all/trees.c): the codes that belong to the lengths, ready for send_bits. */
module GenCodes {
  import opened Bits
  import opened Canonical
  import opened BitWriter

  /** Sent least significant bit first, the number code stands for is the canonical codeword of s. */
  ghost predicate CodeFor(code: nat, lens: seq<nat>, s: nat)
    requires s < |lens| && lens[s] >= 1
  {
    code < Pow2(lens[s]) && Lsb(code, lens[s]) == Codeword(lens, s)
  }

  ghost predicate CodesFor(codes: seq<nat>, lens: seq<nat>) {
    |lens| <= |codes| && forall s :: 0 <= s < |lens| && lens[s] >= 1 ==> CodeFor(codes[s], lens, s)
  }

  /** next[b] is the code for the next symbol of length b, n symbols having been given theirs. */
  ghost predicate NextCodes(next: seq<nat>, lens: seq<nat>, n: nat) {
    && |next| == MAXBITS + 1 && n <= |lens|
    && forall b :: 1 <= b <= MAXBITS ==> next[b] == FirstCode(lens, b) + Count(lens[..n], b)
  }

  lemma NextCodesStep(next: seq<nat>, lens: seq<nat>, n: nat)
    requires NextCodes(next, lens, n) && n < |lens| && lens[n] <= MAXBITS
    ensures lens[n] == 0 ==> NextCodes(next, lens, n + 1)
    ensures lens[n] > 0 ==> next[lens[n]] == CodeOf(lens, n)
    ensures lens[n] > 0 ==> NextCodes(next[lens[n] := next[lens[n]] + 1], lens, n + 1)
  {
    hide FirstCode;
    assert lens[..n + 1][..n] == lens[..n];
  }

  /** The running code value never leaves 16 bits. */
  lemma RunningCode(lens: seq<nat>, b: nat)
    requires NotOversubscribed(lens) && 1 <= b <= MAXBITS
    ensures FirstCode(lens, b) < 65536
    ensures b > 1 ==> FirstCode(lens, b) == 2 * (FirstCode(lens, b - 1) + Count(lens, b - 1))
    ensures b == 1 ==> FirstCode(lens, b) == 0
  {
    UsedBound(lens, b - 1);
    Pow2Monotone(b - 1, 14);
    Pow2Values();
  }

  method GenCodes(code: array<nat>, len: array<nat>, max_code: nat, bl_count: array<nat>)
    requires code != len && code != bl_count && code.Length == len.Length > max_code
    requires bl_count.Length == MAXBITS + 1 && NotOversubscribed(len[..max_code + 1])
    requires bl_count[0] == 0 && forall b :: 1 <= b <= MAXBITS ==> bl_count[b] == Count(len[..max_code + 1], b)
    modifies code
    ensures CodesFor(code[..], len[..max_code + 1])
    ensures forall s :: 0 <= s < code.Length && (s > max_code || len[s] == 0) ==> code[s] == old(code[s])
  {
    hide FirstCode, Count, CodeOf, NotOversubscribed, CodeFor;
    ghost var lens: seq<nat> := len[..max_code + 1];
    var next := FirstCodes(bl_count, lens);
    var n := 0;
    while n <= max_code
      invariant n <= max_code + 1 && NextCodes(next[..], lens, n) && fresh(next)
      invariant forall s :: 0 <= s < n && lens[s] >= 1 ==> CodeFor(code[s], lens, s)
      invariant forall s :: 0 <= s < code.Length && (s >= n || len[s] == 0) ==> code[s] == old(code[s])
    {
      var l := len[n];
      LengthWithin(lens, n);
      NextCodesStep(next[..], lens, n);
      if l != 0 {
        ghost var before: seq<nat> := next[..];
        CodeFits(lens, n);
        var reversed := BiReverse(next[l], l);
        next[l] := next[l] + 1;
        assert next[..] == before[l := before[l] + 1];
        code[n] := reversed;
        SentReversed(lens, n, reversed);
      }
      n := n + 1;
    }
  }

  lemma LengthWithin(lens: seq<nat>, n: nat)
    requires NotOversubscribed(lens) && n < |lens|
    ensures lens[n] <= MAXBITS
  {
  }

  lemma SentReversed(lens: seq<nat>, n: nat, code: nat)
    requires n < |lens| && lens[n] >= 1 && code < Pow2(lens[n]) && Lsb(code, lens[n]) == Msb(CodeOf(lens, n), lens[n])
    ensures CodeFor(code, lens, n)
  {
  }

  /** The first code of each length; code is a 16-bit variable. */
  method FirstCodes(bl_count: array<nat>, ghost lens: seq<nat>) returns (next: array<nat>)
    requires bl_count.Length == MAXBITS + 1 && NotOversubscribed(lens)
    requires bl_count[0] == 0 && forall b :: 1 <= b <= MAXBITS ==> bl_count[b] == Count(lens, b)
    ensures fresh(next) && next.Length == MAXBITS + 1 && NextCodes(next[..], lens, 0)
  {
    hide FirstCode, NotOversubscribed;
    next := new nat[MAXBITS + 1];
    var code, bits := 0, 1;
    while bits <= MAXBITS
      invariant 1 <= bits <= MAXBITS + 1 && code == if bits == 1 then 0 else FirstCode(lens, bits - 1)
      invariant forall b :: 1 <= b < bits ==> next[b] == FirstCode(lens, b)
    {
      RunningCode(lens, bits);
      code := ((code + bl_count[bits - 1]) * 2) % 65536;
      next[bits] := code;
      bits := bits + 1;
    }
    assert lens[..0] == [];
  }
}
