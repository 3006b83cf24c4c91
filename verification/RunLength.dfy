/**
 The run-length code for code lengths (RFC 1951, section 3.2.7): how scan_tree and send_tree
 cut a length vector into symbols 0..18, and how the decoder puts it together again.
 */
module RunLength {
  import opened Bits
  import opened Canonical
  import opened InflateSpec

  /** A length by itself, a repeat of the previous one, or a run of zeros. */
  datatype Cl = Single(v: nat) | Rep(n: nat) | ZerosShort(n: nat) | ZerosLong(n: nat)

  function ClSymbol(c: Cl): nat {
    match c
    case Single(v) => v
    case Rep(_) => 16
    case ZerosShort(_) => 17
    case ZerosLong(_) => 18
  }

  function ClExtraBits(c: Cl): nat {
    match c
    case Single(_) => 0
    case Rep(_) => 2
    case ZerosShort(_) => 3
    case ZerosLong(_) => 7
  }

  /** The repeat count fits the extra bits sent for it. */
  predicate ClOk(c: Cl) {
    match c
    case Single(v) => v <= 15
    case Rep(n) => 3 <= n <= 6
    case ZerosShort(n) => 3 <= n <= 10
    case ZerosLong(n) => 11 <= n <= 138
  }

  function ClExtra(c: Cl): (s: seq<bool>)
    requires ClOk(c)
    ensures |s| == ClExtraBits(c)
  {
    match c
    case Single(_) => []
    case Rep(n) => Lsb(n - 3, 2)
    case ZerosShort(n) => Lsb(n - 3, 3)
    case ZerosLong(n) => Lsb(n - 11, 7)
  }

  /* ---------- encoding ---------- */

  /** How often lens[n] occurs in a row from n on, counting at most max. */
  function RunLen(lens: seq<nat>, n: nat, max: nat): (r: nat)
    requires n < |lens| && max >= 1
    ensures 1 <= r <= max && n + r <= |lens|
    ensures forall i :: n <= i < n + r ==> lens[i] == lens[n]
    decreases max
  {
    if max == 1 || n + 1 == |lens| || lens[n + 1] != lens[n] then 1
    else 1 + RunLen(lens, n + 1, max - 1)
  }

  /** prev is the length sent last, or -1 at the beginning of a tree. */
  function MaxCount(cur: nat, prev: int): (m: nat)
    ensures m >= 6
  {
    if cur == 0 then 138 else if cur == prev then 6 else 7
  }

  function MinCount(cur: nat, prev: int): nat {
    if cur == 0 || cur == prev then 3 else 4
  }

  function Singles(cur: nat, r: nat): (p: seq<Cl>)
    ensures |p| == r && forall i :: 0 <= i < r ==> p[i] == Single(cur)
  {
    seq(r, _ => Single(cur))
  }

  /** The symbols for a run of r lengths cur. */
  function Piece(cur: nat, prev: int, r: nat): seq<Cl>
    requires r >= 1
  {
    if r < MinCount(cur, prev) then Singles(cur, r)
    else if cur != 0 then (if cur != prev then [Single(cur), Rep(r - 1)] else [Rep(r)])
    else if r <= 10 then [ZerosShort(r)]
    else [ZerosLong(r)]
  }

  function RunLengths(lens: seq<nat>, n: nat, prev: int): seq<Cl>
    requires n <= |lens|
    decreases |lens| - n
  {
    if n == |lens| then []
    else
      var r := RunLen(lens, n, MaxCount(lens[n], prev));
      Piece(lens[n], prev, r) + RunLengths(lens, n + r, lens[n])
  }

  lemma {:induction false} RunLengthsOk(lens: seq<nat>, n: nat, prev: int)
    requires n <= |lens| && LengthsOk(lens)
    ensures forall i :: 0 <= i < |RunLengths(lens, n, prev)| ==> ClOk(RunLengths(lens, n, prev)[i])
    decreases |lens| - n
  {
    if n < |lens| {
      var r := RunLen(lens, n, MaxCount(lens[n], prev));
      RunLengthsOk(lens, n + r, lens[n]);
    }
  }

  /* ---------- decoding ---------- */

  /** Append what one symbol stands for; a repeat needs something to repeat. */
  function PutCl(done: seq<nat>, c: Cl): (r: seq<nat>)
    requires c.Rep? ==> done != []
  {
    match c
    case Single(v) => done + [v]
    case Rep(n) => done + Repeat(done[|done| - 1], n)
    case ZerosShort(n) => done + Repeat(0, n)
    case ZerosLong(n) => done + Repeat(0, n)
  }

  predicate ClsValid(done: seq<nat>, cls: seq<Cl>)
    decreases |cls|
  {
    cls == [] || ((cls[0].Rep? ==> done != []) && ClsValid(PutCl(done, cls[0]), cls[1..]))
  }

  function PutCls(done: seq<nat>, cls: seq<Cl>): (r: seq<nat>)
    requires ClsValid(done, cls)
    ensures done <= r
    decreases |cls|
  {
    if cls == [] then done else PutCls(PutCl(done, cls[0]), cls[1..])
  }

  lemma {:induction false} PutClsAppend(done: seq<nat>, a: seq<Cl>, b: seq<Cl>)
    requires ClsValid(done, a)
    ensures ClsValid(done, a + b) <==> ClsValid(PutCls(done, a), b)
    ensures ClsValid(done, a + b) ==> PutCls(done, a + b) == PutCls(PutCls(done, a), b)
    decreases |a|
  {
    if a == [] {
      assert a + b == b;
    } else {
      assert (a + b)[1..] == a[1..] + b;
      PutClsAppend(PutCl(done, a[0]), a[1..], b);
    }
  }

  lemma {:induction false} PutSingles(done: seq<nat>, cur: nat, r: nat)
    ensures ClsValid(done, Singles(cur, r)) && PutCls(done, Singles(cur, r)) == done + Repeat(cur, r)
    decreases r
  {
    if r == 0 {
      assert done + Repeat(cur, 0) == done;
    } else {
      assert Singles(cur, r)[1..] == Singles(cur, r - 1);
      PutSingles(done + [cur], cur, r - 1);
      RepeatCons(done, cur, r);
    }
  }

  lemma PutPiece(done: seq<nat>, cur: nat, prev: int, r: nat)
    requires r >= 1
    requires prev >= 0 ==> done != [] && done[|done| - 1] == prev
    ensures ClsValid(done, Piece(cur, prev, r)) && PutCls(done, Piece(cur, prev, r)) == done + Repeat(cur, r)
  {
    if r < MinCount(cur, prev) {
      PutSingles(done, cur, r);
    } else if cur != 0 && cur != prev {
      PutOne(done + [cur], Rep(r - 1));
      assert [Single(cur), Rep(r - 1)][1..] == [Rep(r - 1)];
      RepeatCons(done, cur, r);
    } else {
      PutOne(done, Piece(cur, prev, r)[0]);
    }
  }

  lemma PutNone(done: seq<nat>)
    ensures ClsValid(done, []) && PutCls(done, []) == done
  {
  }

  lemma PutOne(done: seq<nat>, c: Cl)
    requires c.Rep? ==> done != []
    ensures ClsValid(done, [c]) && PutCls(done, [c]) == PutCl(done, c)
  {
    assert [c][1..] == [];
  }

  lemma RepeatCons(done: seq<nat>, cur: nat, r: nat)
    requires r >= 1
    ensures done + [cur] + Repeat(cur, r - 1) == done + Repeat(cur, r)
  {
  }

  lemma RunIsRepeat(done: seq<nat>, lens: seq<nat>, n: nat, r: nat)
    requires n < n + r <= |lens| && forall i :: n <= i < n + r ==> lens[i] == lens[n]
    ensures done + Repeat(lens[n], r) + lens[n + r..] == done + lens[n..]
  {
    assert Repeat(lens[n], r) == lens[n..n + r];
    assert lens[n..] == lens[n..n + r] + lens[n + r..];
  }

  /** Decoding what was encoded gives the length vector back. */
  lemma {:induction false} RunLengthRoundTrip(lens: seq<nat>, n: nat, prev: int, done: seq<nat>)
    requires n <= |lens|
    requires prev >= 0 ==> done != [] && done[|done| - 1] == prev
    ensures ClsValid(done, RunLengths(lens, n, prev))
    ensures PutCls(done, RunLengths(lens, n, prev)) == done + lens[n..]
    decreases |lens| - n
  {
    hide Piece, MaxCount, RunLen, PutCls, ClsValid, PutCl;
    if n == |lens| {
      PutNone(done);
      assert done + lens[n..] == done;
    } else {
      var r := RunLen(lens, n, MaxCount(lens[n], prev));
      var p := Piece(lens[n], prev, r);
      PutPiece(done, lens[n], prev, r);
      var done' := done + Repeat(lens[n], r);
      assert done'[|done'| - 1] == lens[n];
      RunLengthRoundTrip(lens, n + r, lens[n], done');
      PutClsAppend(done, p, RunLengths(lens, n + r, lens[n]));
      RunIsRepeat(done, lens, n, r);
    }
  }

  /* ---------- the symbols used ---------- */

  /** How often symbol s of the code length alphabet is sent. */
  function ClCount(cls: seq<Cl>, s: nat): nat {
    if cls == [] then 0
    else ClCount(cls[..|cls| - 1], s) + (if ClSymbol(cls[|cls| - 1]) == s then 1 else 0)
  }

  lemma {:induction false} ClCountAppend(a: seq<Cl>, b: seq<Cl>, s: nat)
    ensures ClCount(a + b, s) == ClCount(a, s) + ClCount(b, s)
  {
    if b == [] {
      assert a + b == a;
    } else {
      var b' := b[..|b| - 1];
      ClCountAppend(a, b', s);
      assert (a + b)[..|a + b| - 1] == a + b';
    }
  }

  lemma {:induction false} ClCountUsed(cls: seq<Cl>, i: nat)
    requires i < |cls|
    ensures ClCount(cls, ClSymbol(cls[i])) >= 1
  {
    if i < |cls| - 1 {
      ClCountUsed(cls[..|cls| - 1], i);
    }
  }

  /* ---------- as bits ---------- */

  /** Every symbol sent has a code. */
  predicate ClsCoded(bl: seq<nat>, cls: seq<Cl>) {
    forall i :: 0 <= i < |cls| ==> ClOk(cls[i]) && ClSymbol(cls[i]) < |bl| && bl[ClSymbol(cls[i])] >= 1
  }

  function ClBits(bl: seq<nat>, c: Cl): seq<bool>
    requires ClOk(c) && ClSymbol(c) < |bl| && bl[ClSymbol(c)] >= 1
  {
    Codeword(bl, ClSymbol(c)) + ClExtra(c)
  }

  function ClsBits(bl: seq<nat>, cls: seq<Cl>): seq<bool>
    requires ClsCoded(bl, cls)
  {
    if cls == [] then [] else ClsBits(bl, cls[..|cls| - 1]) + ClBits(bl, cls[|cls| - 1])
  }

  lemma {:induction false} ClsBitsAppend(bl: seq<nat>, a: seq<Cl>, b: seq<Cl>)
    requires ClsCoded(bl, a) && ClsCoded(bl, b)
    ensures ClsCoded(bl, a + b) && ClsBits(bl, a + b) == ClsBits(bl, a) + ClsBits(bl, b)
  {
    if b == [] {
      assert a + b == a;
    } else {
      var b' := b[..|b| - 1];
      ClsBitsAppend(bl, a, b');
      assert (a + b)[..|a + b| - 1] == a + b';
      Assoc(ClsBits(bl, a), ClsBits(bl, b'), ClBits(bl, b[|b| - 1]));
    }
  }

  lemma Assoc<T>(a: seq<T>, b: seq<T>, c: seq<T>)
    ensures (a + b) + c == a + (b + c)
  {
  }
}
