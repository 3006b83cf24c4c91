/**
 scan_tree and send_tree (libz_all/trees.c): one loop, counting the symbols of the run-length
 code the first time and sending them the second time.
 */
module TreeScan {
  import opened Bits
  import opened Canonical
  import opened RunLength
  import opened BitWriter
  import opened GenCodes

  const GUARD: nat := 65535
  const REP_3_6: nat := 16
  const REPZ_3_10: nat := 17
  const REPZ_11_138: nat := 18

  lemma {:induction false} RunEnds(lens: seq<nat>, s: nat, r: nat, max: nat)
    requires 1 <= r <= max && s + r <= |lens| && forall i :: s <= i < s + r ==> lens[i] == lens[s]
    requires r == max || s + r == |lens| || lens[s + r] != lens[s]
    ensures RunLen(lens, s, max) == r
    decreases r
  {
    if r > 1 {
      assert lens[s + 1] == lens[s];
      RunEnds(lens, s + 1, r - 1, max - 1);
    }
  }

  predicate AllSame(lens: seq<nat>, s: nat, n: nat)
    requires s <= n < |lens|
  {
    forall i :: s <= i < n ==> lens[i] == lens[n]
  }

  /** The symbols E have been dealt with; count lengths in front of n, all equal to the one at n, have not. */
  ghost predicate Scanned(lens: seq<nat>, n: nat, count: nat, prev: int, E: seq<Cl>) {
    && count <= n <= |lens| && (n == |lens| ==> count == 0)
    && (n < |lens| ==> count < MaxCount(lens[n], prev) && AllSame(lens, n - count, n))
    && E + RunLengths(lens, n - count, prev) == RunLengths(lens, 0, -1)
  }

  lemma ScanStart(lens: seq<nat>)
    ensures Scanned(lens, 0, 0, -1, [])
  {
    assert [] + RunLengths(lens, 0, -1) == RunLengths(lens, 0, -1);
  }

  lemma ScanLonger(lens: seq<nat>, n: nat, count: nat, prev: int, E: seq<Cl>)
    requires Scanned(lens, n, count, prev, E) && n + 1 < |lens| && lens[n + 1] == lens[n]
    requires count + 1 < MaxCount(lens[n], prev)
    ensures Scanned(lens, n + 1, count + 1, prev, E)
  {
  }

  /** The run ends at n. */
  lemma ScanPiece(lens: seq<nat>, n: nat, count: nat, prev: int, E: seq<Cl>)
    requires Scanned(lens, n, count, prev, E) && n < |lens|
    requires count + 1 == MaxCount(lens[n], prev) || n + 1 == |lens| || lens[n + 1] != lens[n]
    ensures Scanned(lens, n + 1, 0, lens[n], E + Piece(lens[n], prev, count + 1))
    ensures E + Piece(lens[n], prev, count + 1) <= RunLengths(lens, 0, -1)
  {
    hide Piece, RunLen, RunLengths, MaxCount;
    var p, rest := Piece(lens[n], prev, count + 1), RunLengths(lens, n + 1, lens[n]);
    assert forall i :: n - count <= i < n + 1 ==> lens[i] == lens[n];
    RunLengthsStep(lens, n - count, prev, count + 1);
    Joined(E, p, rest, RunLengths(lens, 0, -1));
    NoRunYet(lens, n + 1, lens[n]);
  }

  lemma Joined<T>(E: seq<T>, p: seq<T>, rest: seq<T>, all: seq<T>)
    requires E + (p + rest) == all
    ensures (E + p) + rest == all && E + p <= all
  {
  }

  lemma NoRunYet(lens: seq<nat>, n: nat, prev: int)
    ensures n < |lens| ==> 0 < MaxCount(lens[n], prev)
  {
  }

  lemma RunLengthsStep(lens: seq<nat>, s: nat, prev: int, r: nat)
    requires 1 <= r && s + r <= |lens| && forall i :: s <= i < s + r ==> lens[i] == lens[s]
    requires r <= MaxCount(lens[s], prev)
    requires r == MaxCount(lens[s], prev) || s + r == |lens| || lens[s + r] != lens[s]
    ensures RunLengths(lens, s, prev) == Piece(lens[s], prev, r) + RunLengths(lens, s + r, lens[s])
  {
    hide Piece, MaxCount, RunLen;
    RunEnds(lens, s, r, MaxCount(lens[s], prev));
  }

  lemma ScanDone(lens: seq<nat>, prev: int, E: seq<Cl>)
    requires Scanned(lens, |lens|, 0, prev, E)
    ensures E == RunLengths(lens, 0, -1)
  {
    assert E + [] == E;
  }

  /** max_count and min_count for the run that begins with the length next. */
  predicate CountsFor(max_count: nat, min_count: nat, next: nat, prev: int) {
    max_count == MaxCount(next, prev) && min_count == MinCount(next, prev)
  }

  lemma {:induction false} SinglesCount(cur: nat, r: nat, s: nat)
    ensures ClCount(Singles(cur, r), s) == if s == cur then r else 0
  {
    if r > 0 {
      SinglesCount(cur, r - 1, s);
      assert Singles(cur, r)[..r - 1] == Singles(cur, r - 1);
    }
  }

  lemma OneCount(c: Cl, s: nat)
    ensures ClCount([c], s) == if s == ClSymbol(c) then 1 else 0
  {
    assert [c][..0] == [];
  }

  lemma PieceCount(cur: nat, prev: int, r: nat, s: nat)
    requires r >= 1
    ensures ClCount(Piece(cur, prev, r), s) ==
      if r < MinCount(cur, prev) then (if s == cur then r else 0)
      else if cur != 0 then (if s == cur && cur != prev then 1 else 0) + (if s == REP_3_6 then 1 else 0)
      else if r <= 10 then (if s == REPZ_3_10 then 1 else 0)
      else (if s == REPZ_11_138 then 1 else 0)
  {
    hide ClCount;
    if r < MinCount(cur, prev) {
      SinglesCount(cur, r, s);
    } else if cur != 0 && cur != prev {
      OneCount(Single(cur), s);
      OneCount(Rep(r - 1), s);
      ClCountAppend([Single(cur)], [Rep(r - 1)], s);
      assert Piece(cur, prev, r) == [Single(cur)] + [Rep(r - 1)];
    } else {
      OneCount(Piece(cur, prev, r)[0], s);
    }
  }

  /** The frequencies of the symbols of one piece are added. */
  method CountPiece(freq: array<nat>, cur: nat, prev: int, count: nat, min_count: nat, ghost E: seq<Cl>, ghost f0: seq<nat>)
    requires freq.Length >= 19 && cur <= 15 && count >= 1 && min_count == MinCount(cur, prev) && |f0| == freq.Length
    requires forall s :: 0 <= s < freq.Length ==> freq[s] == f0[s] + ClCount(E, s)
    modifies freq
    ensures forall s :: 0 <= s < freq.Length ==> freq[s] == f0[s] + ClCount(E + Piece(cur, prev, count), s)
  {
    hide ClCount, Piece;
    forall s: nat | s < freq.Length
      ensures ClCount(E + Piece(cur, prev, count), s) == ClCount(E, s) + ClCount(Piece(cur, prev, count), s)
    {
      ClCountAppend(E, Piece(cur, prev, count), s);
    }
    forall s: nat | s < freq.Length {
      PieceCount(cur, prev, count, s);
    }
    if count < min_count {
      freq[cur] := freq[cur] + count;
    } else if cur != 0 {
      if cur != prev {
        freq[cur] := freq[cur] + 1;
      }
      freq[REP_3_6] := freq[REP_3_6] + 1;
    } else if count <= 10 {
      freq[REPZ_3_10] := freq[REPZ_3_10] + 1;
    } else {
      freq[REPZ_11_138] := freq[REPZ_11_138] + 1;
    }
  }

  /** scan_tree: the frequencies become exactly those of the symbols that send_tree will send. */
  method ScanTree(len: array<nat>, max_code: nat, freq: array<nat>)
    requires len != freq && freq.Length >= 19 && max_code + 1 < len.Length && LengthsOk(len[..max_code + 1])
    modifies len, freq
    ensures len[..] == old(len[..])[max_code + 1 := GUARD]
    ensures forall s :: 0 <= s < freq.Length ==>
      freq[s] == old(freq[s]) + ClCount(RunLengths(old(len[..max_code + 1]), 0, -1), s)
  {
    hide ClCount, Piece, RunLengths;
    ghost var lens: seq<nat> := len[..max_code + 1];
    ghost var f0: seq<nat> := freq[..];
    ghost var E: seq<Cl> := [];
    var prevlen: int := -1;
    var nextlen := len[0];
    var count, max_count, min_count := 0, 7, 4;
    if nextlen == 0 {
      max_count, min_count := 138, 3;
    }
    len[max_code + 1] := GUARD;
    ScanStart(lens);
    NoneCounted(freq.Length);
    var n := 0;
    while n <= max_code
      invariant n <= max_code + 1 && len[..] == old(len[..])[max_code + 1 := GUARD]
      invariant Scanned(lens, n, count, prevlen, E) && nextlen == len[n] && prevlen >= -1
      invariant n <= max_code ==> CountsFor(max_count, min_count, nextlen, prevlen)
      invariant forall s :: 0 <= s < freq.Length ==> freq[s] == f0[s] + ClCount(E, s)
    {
      var curlen := nextlen;
      assert curlen == lens[n];
      nextlen := len[n + 1];
      assert n < max_code ==> nextlen == lens[n + 1];
      count := count + 1;
      if count < max_count && curlen == nextlen {
        ScanLonger(lens, n, count - 1, prevlen, E);
      } else {
        ScanPiece(lens, n, count - 1, prevlen, E);
        CountPiece(freq, curlen, prevlen, count, min_count, E, f0);
        E := E + Piece(curlen, prevlen, count);
        count, prevlen := 0, curlen;
        if nextlen == 0 {
          max_count, min_count := 138, 3;
        } else if curlen == nextlen {
          max_count, min_count := 6, 3;
        } else {
          max_count, min_count := 7, 4;
        }
      }
      n := n + 1;
    }
    ScanDone(lens, prevlen, E);
  }

  lemma NoneCounted(n: nat)
    ensures forall s :: 0 <= s < n ==> ClCount([], s) == 0
  {
  }

  /** send_code: the codeword of symbol c. */
  method SendCode(w: Writer, code: seq<nat>, len: seq<nat>, c: nat, ghost lens: seq<nat>)
    requires w.Valid() && c < |lens| && lens[c] >= 1 && lens[c] <= MAXBITS
    requires c < |code| == |len| && len[c] == lens[c] && CodeFor(code[c], lens, c)
    modifies w
    ensures w.Valid() && w.Sent() == old(w.Sent()) + Codeword(lens, c)
  {
    hide Codeword, Writer.Sent, Writer.Valid, Lsb, Pow2;
    w.SendBits(code[c], len[c]);
  }

  /** A run of a length other than zero: the length itself unless it was the last one sent, and a repeat. */
  method SendRepeated(w: Writer, code: seq<nat>, len: seq<nat>, cur: nat, prev: int, r: nat, ghost bl: seq<nat>)
    requires w.Valid() && cur != 0 && r >= MinCount(cur, prev) && ClsCoded(bl, Piece(cur, prev, r))
    requires |bl| == 19 <= |code| == |len| && len[..19] == bl && LengthsOk(bl) && CodesFor(code, bl)
    modifies w
    ensures w.Valid() && w.Sent() == old(w.Sent()) + ClsBits(bl, Piece(cur, prev, r))
  {
    hide Codeword, ClsBits, LengthsOk, CodesFor, Writer.Sent, Writer.Valid, CodeFor;
    ghost var p, sent := Piece(cur, prev, r), w.Sent();
    var count := r;
    if cur != prev {
      assert p[0] == Single(cur);
      CodeReady(code, len, bl, Single(cur));
      SendCode(w, code, len, cur, bl);
      count := count - 1;
    }
    assert p[|p| - 1] == Rep(count);
    CodeReady(code, len, bl, Rep(count));
    SendRun(w, code, len, REP_3_6, count - 3, 2, bl, Rep(count));
    if cur != prev {
      TwoPieces(bl, cur, count, sent);
    } else {
      ClsOne(bl, Rep(count));
    }
  }

  lemma TwoPieces(bl: seq<nat>, cur: nat, count: nat, sent: seq<bool>)
    requires cur < |bl| && cur <= 15 && bl[cur] >= 1 && ClOk(Rep(count)) && REP_3_6 < |bl| && bl[REP_3_6] >= 1
    requires ClsCoded(bl, [Single(cur), Rep(count)])
    ensures sent + Codeword(bl, cur) + ClBits(bl, Rep(count)) == sent + ClsBits(bl, [Single(cur), Rep(count)])
  {
    hide Codeword, ClsBits;
    var a, b := Single(cur), Rep(count);
    ClsOne(bl, a);
    ClsOne(bl, b);
    ClsBitsAppend(bl, [a], [b]);
    assert [a] + [b] == [Single(cur), Rep(count)];
    assert ClBits(bl, a) == Codeword(bl, cur);
    Assoc(sent, ClBits(bl, a), ClBits(bl, b));
  }

  /** The symbols of one piece are sent. */
  method SendPiece(w: Writer, code: seq<nat>, len: seq<nat>, cur: nat, prev: int, r: nat, min_count: nat,
                   ghost bl: seq<nat>)
    requires w.Valid() && r >= 1 && min_count == MinCount(cur, prev) && ClsCoded(bl, Piece(cur, prev, r))
    requires |bl| == 19 <= |code| == |len| && len[..19] == bl && LengthsOk(bl) && CodesFor(code, bl)
    modifies w
    ensures w.Valid() && w.Sent() == old(w.Sent()) + ClsBits(bl, Piece(cur, prev, r))
  {
    hide Codeword, ClsBits, LengthsOk, CodesFor, Writer.Sent, Writer.Valid, CodeFor;
    ghost var p, sent := Piece(cur, prev, r), w.Sent();
    if r < min_count {
      SendSingles(w, code, len, cur, r, bl);
    } else if cur != 0 {
      SendRepeated(w, code, len, cur, prev, r, bl);
    } else if r <= 10 {
      CodeReady(code, len, bl, p[0]);
      SendRun(w, code, len, REPZ_3_10, r - 3, 3, bl, p[0]);
      ClsOne(bl, p[0]);
    } else {
      CodeReady(code, len, bl, p[0]);
      SendRun(w, code, len, REPZ_11_138, r - 11, 7, bl, p[0]);
      ClsOne(bl, p[0]);
    }
  }

  lemma CodeReady(code: seq<nat>, len: seq<nat>, bl: seq<nat>, c: Cl)
    requires |bl| == 19 <= |code| == |len| && len[..19] == bl && LengthsOk(bl) && CodesFor(code, bl)
    requires ClOk(c) && ClSymbol(c) < |bl| && bl[ClSymbol(c)] >= 1
    ensures var s := ClSymbol(c); len[s] == bl[s] <= MAXBITS && CodeFor(code[s], bl, s)
  {
  }

  lemma ClsNone(bl: seq<nat>)
    ensures ClsCoded(bl, []) && ClsBits(bl, []) == []
  {
  }

  lemma ClsOne(bl: seq<nat>, c: Cl)
    requires ClOk(c) && ClSymbol(c) < |bl| && bl[ClSymbol(c)] >= 1
    ensures ClsCoded(bl, [c]) && ClsBits(bl, [c]) == ClBits(bl, c)
  {
    assert [c][..0] == [];
    assert [] + ClBits(bl, c) == ClBits(bl, c);
  }

  /** A repeat symbol and its count. */
  method SendRun(w: Writer, code: seq<nat>, len: seq<nat>, c: nat, extra: nat, bits: nat,
                 ghost bl: seq<nat>, ghost cl: Cl)
    requires w.Valid() && |bl| == 19 <= |code| == |len| && ClOk(cl) && !cl.Single? && c == ClSymbol(cl)
    requires len[c] == bl[c] && 1 <= bl[c] <= MAXBITS && CodeFor(code[c], bl, c)
    requires bits == ClExtraBits(cl) && extra == cl.n - (if cl.ZerosLong? then 11 else 3)
    modifies w
    ensures w.Valid() && w.Sent() == old(w.Sent()) + ClBits(bl, cl)
  {
    hide Codeword, Writer.Sent, Writer.Valid, CodeFor, Lsb, Pow2;
    SendCode(w, code, len, c, bl);
    Pow2Values();
    w.SendBits(extra, bits);
    assert old(w.Sent()) + Codeword(bl, c) + ClExtra(cl) == old(w.Sent()) + (Codeword(bl, c) + ClExtra(cl));
  }

  method SendSingles(w: Writer, code: seq<nat>, len: seq<nat>, cur: nat, r: nat, ghost bl: seq<nat>)
    requires w.Valid() && r >= 1 && ClsCoded(bl, Singles(cur, r))
    requires |bl| == 19 <= |code| == |len| && len[..19] == bl && LengthsOk(bl) && CodesFor(code, bl)
    modifies w
    ensures w.Valid() && w.Sent() == old(w.Sent()) + ClsBits(bl, Singles(cur, r))
  {
    hide Codeword, ClsBits, LengthsOk, CodesFor, Writer.Sent, Writer.Valid, CodeFor;
    var count := r;
    ghost var k: nat := 0;
    assert Singles(cur, r)[0] == Single(cur);
    CodeReady(code, len, bl, Single(cur));
    assert Singles(cur, 0) == [];
    ClsNone(bl);
    while count != 0
      invariant 0 <= count <= r && k == r - count && w.Valid()
      invariant ClsCoded(bl, Singles(cur, k)) && w.Sent() == old(w.Sent()) + ClsBits(bl, Singles(cur, k))
    {
      ghost var before := ClsBits(bl, Singles(cur, k));
      SendCode(w, code, len, cur, bl);
      ClsOne(bl, Single(cur));
      ClsBitsAppend(bl, Singles(cur, k), [Single(cur)]);
      assert Singles(cur, k + 1) == Singles(cur, k) + [Single(cur)];
      assert ClBits(bl, Single(cur)) == Codeword(bl, cur);
      assert old(w.Sent()) + before + Codeword(bl, cur) == old(w.Sent()) + (before + Codeword(bl, cur));
      count := count - 1;
      k := k + 1;
    }
  }

  /** send_tree: the run-length code of the lengths; the guard has been set by scan_tree. */
  method SendTree(w: Writer, len: array<nat>, max_code: nat, code: seq<nat>, bl_len: seq<nat>, ghost bl: seq<nat>)
    requires w.Valid() && max_code + 1 < len.Length && LengthsOk(len[..max_code + 1]) && len[max_code + 1] == GUARD
    requires |bl| == 19 <= |code| == |bl_len| && bl_len[..19] == bl && LengthsOk(bl) && CodesFor(code, bl)
    requires ClsCoded(bl, RunLengths(len[..max_code + 1], 0, -1))
    modifies w
    ensures w.Valid() && w.Sent() == old(w.Sent()) + ClsBits(bl, RunLengths(len[..max_code + 1], 0, -1))
  {
    hide Piece, RunLengths, ClsBits, CodesFor, ClOk, ClSymbol, Writer.Sent, Writer.Valid;
    ghost var lens: seq<nat> := len[..max_code + 1];
    ghost var E: seq<Cl> := [];
    var prevlen: int := -1;
    var nextlen := len[0];
    var count, max_count, min_count := 0, 7, 4;
    if nextlen == 0 {
      max_count, min_count := 138, 3;
    }
    ScanStart(lens);
    ClsNone(bl);
    var n := 0;
    while n <= max_code
      invariant n <= max_code + 1 && w.Valid()
      invariant Scanned(lens, n, count, prevlen, E) && nextlen == len[n] && prevlen >= -1
      invariant n <= max_code ==> CountsFor(max_count, min_count, nextlen, prevlen)
      invariant ClsCoded(bl, E) && w.Sent() == old(w.Sent()) + ClsBits(bl, E)
    {
      var curlen := nextlen;
      assert curlen == lens[n];
      nextlen := len[n + 1];
      assert n < max_code ==> nextlen == lens[n + 1];
      count := count + 1;
      if count < max_count && curlen == nextlen {
        ScanLonger(lens, n, count - 1, prevlen, E);
      } else {
        ScanPiece(lens, n, count - 1, prevlen, E);
        ghost var p, before := Piece(curlen, prevlen, count), w.Sent();
        PieceCoded(bl, E, p, RunLengths(lens, 0, -1));
        SendPiece(w, code, bl_len, curlen, prevlen, count, min_count, bl);
        ClsBitsAppend(bl, E, p);
        assert old(w.Sent()) + ClsBits(bl, E) + ClsBits(bl, p) == old(w.Sent()) + (ClsBits(bl, E) + ClsBits(bl, p));
        E := E + p;
        count, prevlen := 0, curlen;
        if nextlen == 0 {
          max_count, min_count := 138, 3;
        } else if curlen == nextlen {
          max_count, min_count := 6, 3;
        } else {
          max_count, min_count := 7, 4;
        }
      }
      n := n + 1;
    }
    ScanDone(lens, prevlen, E);
  }

  lemma PieceCoded(bl: seq<nat>, E: seq<Cl>, p: seq<Cl>, all: seq<Cl>)
    requires ClsCoded(bl, all) && E + p <= all
    ensures ClsCoded(bl, p)
  {
    forall i | 0 <= i < |p|
      ensures ClOk(p[i]) && ClSymbol(p[i]) < |bl| && bl[ClSymbol(p[i])] >= 1
    {
      assert p[i] == (E + p)[|E| + i] == all[|E| + i];
    }
  }
}
