/**
 The sliding window of deflate.c, its hash table, and the search for matches: INSERT_STRING,
 longest_match and fill_window.
 */
module Matcher {
  import opened Bits
  import opened Lz77
  import opened ExclusiveOr
  import opened Hash
  import opened Chains
  import opened Search

  const MIN_LOOKAHEAD: nat := 262
  const WIN_INIT: nat := 258
  const NIL: nat := 0

  /** The running key covers the two bytes at a. */
  ghost predicate Covers(p: HashParams, text: seq<Byte>, h: nat, a: nat) {
    a + 1 < |text| && exists x: nat :: h == Update(p, Update(p, x, text[a]), text[a + 1])
  }

  /** The next byte completes the key of the string at a, and covers the two bytes behind it. */
  lemma CoversNext(p: HashParams, text: seq<Byte>, h: nat, a: nat)
    requires Usual(p) && Covers(p, text, h, a) && a + 2 < |text|
    ensures Update(p, h, text[a + 2]) == KeyAt(p, text, a)
    ensures Covers(p, text, Update(p, h, text[a + 2]), a + 1)
  {
    hide Update;
    var x: nat :| h == Update(p, Update(p, x, text[a]), text[a + 1]);
    Forgets(p, x, text[a], text[a + 1], text[a + 2]);
  }

  class Matcher {
    const w_size: nat
    const hash: HashParams
    const max_chain_length: nat
    const good_match: nat
    const nice_match: nat
    const window: array<Byte>
    const prev: array<nat>
    const head: array<nat>
    var ins_h: nat
    var strstart: nat
    var lookahead: nat
    var insert: nat
    var match_start: int
    var prev_length: nat
    var block_start: int
    var high_water: nat
    var next_in: seq<Byte>
    /** All input that has come into the window, what part of it has left the window, and the strings inserted. */
    ghost var text: seq<Byte>
    ghost var base: nat
    ghost var ins: set<nat>
    ghost var top: nat
    /** The strategy uses the hash table. */
    ghost const hashing: bool

    ghost predicate Sizes() {
      && 512 <= w_size <= 32768 && Usual(hash) && hash.bits <= 16 && max_chain_length >= 4
      && window.Length == 2 * w_size && prev.Length == w_size && head.Length == Pow2(hash.bits) && prev != head
      && (window as object) != head && (window as object) != prev
    }

    ghost function Repr(): set<object> {
      {this, window, head, prev}
    }

    /** lm_init and the memory it needs; hash_shift is (hash_bits + MIN_MATCH - 1) / MIN_MATCH. */
    constructor (w_bits: nat, hash_bits: nat, max_chain: nat, good: nat, nice: nat, ghost hashed: bool)
      requires 9 <= w_bits <= 15 && 8 <= hash_bits <= 16 && max_chain >= 4
      ensures Good() && text == [] && next_in == [] && strstart == 0 && block_start == 0 && base == 0
      ensures prev_length == MIN_MATCH - 1 && hashing == hashed
      ensures max_chain_length == max_chain && good_match == good && nice_match == nice
      ensures w_size == Pow2(w_bits) && hash == HashParams(hash_bits, (hash_bits + MIN_MATCH - 1) / MIN_MATCH)
      ensures fresh(window) && fresh(head) && fresh(prev)
    {
      w_size := Pow2(w_bits);
      hash := HashParams(hash_bits, (hash_bits + MIN_MATCH - 1) / MIN_MATCH);
      max_chain_length, good_match, nice_match := max_chain, good, nice;
      window := new Byte[2 * Pow2(w_bits)](_ => 0);
      prev := new nat[Pow2(w_bits)](_ => NIL);
      head := new nat[Pow2(hash_bits)](_ => NIL);
      ins_h, strstart, lookahead, insert, match_start, prev_length := 0, 0, 0, 0, 0, MIN_MATCH - 1;
      block_start, high_water, next_in := 0, 0, [];
      text, base, ins, top, hashing := [], 0, {}, 0, hashed;
      new;
      Pow2Values();
      NoChains(hash, text, base, w_size, head[..], prev[..], top);
    }

    /** MAX_DIST(s) */
    function MaxDist(): (d: nat)
      requires Sizes()
      ensures d == w_size - MIN_LOOKAHEAD
    {
      w_size - MIN_LOOKAHEAD
    }

    /** Where strstart stands in the text. */
    ghost function At(): nat
      reads `base, `strstart
    {
      base + strstart
    }

    /** The window holds the end of the text. */
    ghost predicate Holds()
      reads window, `text, `base
    {
      && base <= |text| <= base + window.Length
      && forall i :: 0 <= i < |text| - base ==> window[i] == text[base + i]
    }

    /** The valid data end lookahead bytes beyond strstart. */
    ghost predicate Ahead()
      reads `strstart, `lookahead, `text, `base
    {
      |text| == base + strstart + lookahead
    }

    ghost predicate Chained()
      reads head, prev, `text, `base, `ins, `top
    {
      && w_size > 0 && ChainsOk(hash, text, base, w_size, head[..], prev[..], ins, top)
      && (top == 0 || top + 1 < |text|)
    }

    /** INSERT_STRING(s, str, hash_head) */
    method InsertString(str: nat) returns (hash_head: nat)
      requires Sizes() && Holds() && Chained() && top <= base + str && base + str + 2 < |text|
      requires Covers(hash, text, ins_h, base + str)
      modifies head, prev, `ins_h, `ins, `top
      ensures Chained() && top == base + str + 1 && Covers(hash, text, ins_h, base + str + 1)
      ensures hash_head < str || hash_head == NIL
      ensures Linked(hash, text, base, ins, hash_head, KeyAt(hash, text, base + str))
      ensures Latest(hash, text, base, ins, hash_head, KeyAt(hash, text, base + str), base + str)
      ensures ins == old(ins) + {base + str}
    {
      hide ChainsOk, Covers, KeyAt, Update, Latest;
      ghost var a := base + str;
      ghost var hd, pv: seq<nat> := head[..], prev[..];
      CoversNext(hash, text, ins_h, a);
      ins_h := Update(hash, ins_h, window[str + (MIN_MATCH - 1)]);
      KeyInTable(hash, text, base, w_size, hd, pv, ins, top, a);
      ChainsInsert(hash, text, base, w_size, hd, pv, ins, top, a);
      hash_head := head[ins_h];
      prev[str % w_size] := hash_head;
      head[ins_h] := str;
      assert head[..] == hd[ins_h := str] && prev[..] == pv[Slot(a, base, w_size) := hash_head];
      ins, top := ins + {a}, a + 1;
    }

    /** The number of bytes that agree, given that the first three do, or MAX_MATCH. */
    method Compare(cur: nat) returns (len: nat)
      requires strstart + MAX_MATCH < window.Length && cur < strstart
      ensures 3 <= len <= MAX_MATCH
      ensures forall i :: strstart + 3 <= i < strstart + len ==> window[i] == window[i - (strstart - cur)]
      ensures len == MAX_MATCH || window[strstart + len] != window[cur + len]
    {
      // Eight comparisons in a row, the end being looked for only after every eighth.
      len := 3;
      while window[strstart + len] == window[cur + len]
        invariant 3 <= len <= MAX_MATCH
        invariant forall i :: strstart + 3 <= i < strstart + len ==> window[i] == window[i - (strstart - cur)]
        decreases MAX_MATCH - len
      {
        if (len - 2) % 8 == 0 && len >= MAX_MATCH {
          break;
        }
        len := len + 1;
      }
    }

    /** The first len bytes at strstart, as far as there are so many, also stand at cur. */
    ghost predicate Agree(cur: int, len: nat)
      reads `strstart, `lookahead, `text, `base
    {
      && 0 <= cur < strstart && base + strstart + lookahead == |text|
      && SameBytes(text, base + strstart, base + cur, if len <= lookahead then len else lookahead)
    }

    lemma AgreeFrom(cur: nat, len: nat)
      requires Sizes() && Holds() && Ahead() && cur < strstart && 3 <= len && lookahead >= 3
      requires Linked(hash, text, base, ins, cur, KeyAt(hash, text, base + strstart)) && cur != NIL
      requires window[strstart] == window[cur] && window[strstart + 1] == window[cur + 1]
      requires strstart + len <= window.Length
      requires forall i :: strstart + 3 <= i < strstart + len ==> window[i] == window[i - (strstart - cur)]
      ensures Agree(cur, len)
    {
      hide KeyAt;
      SkippedByte(hash, text, base + strstart, base + cur);
      var a, d := base + strstart, strstart - cur;
      forall j | a <= j < a + (if len <= lookahead then len else lookahead)
        ensures text[j] == text[j - d]
      {
        var k := j - a;
        assert window[strstart + k] == text[base + (strstart + k)] && window[cur + k] == text[base + (cur + k)];
        assert k >= 3 ==> window[strstart + k] == window[strstart + k - d];
      }
    }

    /** cur can be compared with the string at strstart. */
    ghost predicate Candidate(cur: nat)
      reads `strstart, `lookahead, `text, `base, `ins
    {
      && Sizes() && cur != NIL && cur < strstart && strstart - cur <= MaxDist() && base + strstart + 2 < |text|
      && Linked(hash, text, base, ins, cur, KeyAt(hash, text, base + strstart))
    }

    /**
     The length of the match at cur, or 0 if it cannot be longer than best_len or is less than
     two.  The third byte is not compared.
     */
    method TryMatch(cur: nat, best_len: nat, scan_end1: Byte, scan_end: Byte) returns (n: nat)
      requires Candidate(cur) && Holds() && Ahead() && lookahead >= MIN_MATCH && strstart + MIN_LOOKAHEAD <= window.Length
      requires 1 <= best_len <= MAX_MATCH
      requires scan_end1 == window[strstart + best_len - 1] && scan_end == window[strstart + best_len]
      ensures n <= MAX_MATCH && (n > 0 ==> Agree(cur, n))
      ensures NoMoreThan(text, base + strstart, base + cur, if n > best_len then n else best_len)
    {
      hide Linked, KeyAt, Agree, SameBytes, NoMoreThan;
      if window[cur + best_len] != scan_end || window[cur + best_len - 1] != scan_end1
        || window[cur] != window[strstart] || window[cur + 1] != window[strstart + 1] {
        EndsBefore(cur, best_len);
        return 0;
      }
      n := Compare(cur);
      AgreeFrom(cur, n);
      DiffersAfter(cur, n, best_len);
    }

    lemma AgreeAt(cur: nat, i: nat, k: nat)
      requires Sizes() && Holds() && Ahead() && cur < strstart && strstart + i < window.Length
      requires i < k && SameBytes(text, base + strstart, base + cur, k)
      ensures window[strstart + i] == window[cur + i]
    {
      var j := base + strstart + i;
      assert window[strstart + i] == text[base + (strstart + i)] && window[cur + i] == text[base + (cur + i)];
      assert text[j] == text[j - (strstart - cur)];
    }

    /** Two bytes that differ bound the match. */
    lemma EndsBefore(cur: nat, best_len: nat)
      requires Sizes() && Holds() && Ahead() && cur < strstart && 1 <= best_len && strstart + best_len < window.Length
      requires window[cur + best_len] != window[strstart + best_len] || window[cur + best_len - 1] != window[strstart + best_len - 1]
        || window[cur] != window[strstart] || window[cur + 1] != window[strstart + 1]
      ensures NoMoreThan(text, base + strstart, base + cur, best_len)
    {
      hide Holds, SameBytes;
      var i := if window[cur + best_len] != window[strstart + best_len] then best_len
               else if window[cur + best_len - 1] != window[strstart + best_len - 1] then best_len - 1
               else if window[cur] != window[strstart] then 0 else 1;
      var a, b := base + strstart, base + cur;
      forall k: nat | MIN_MATCH <= k <= MAX_MATCH && SameBytes(text, a, b, k)
        ensures k <= best_len
      {
        if k > best_len {
          AgreeAt(cur, i, k);
        }
      }
    }

    lemma DiffersAfter(cur: nat, n: nat, best_len: nat)
      requires Sizes() && Holds() && Ahead() && cur < strstart && strstart + MAX_MATCH < window.Length && n <= MAX_MATCH
      requires n == MAX_MATCH || window[strstart + n] != window[cur + n]
      ensures NoMoreThan(text, base + strstart, base + cur, if n > best_len then n else best_len)
    {
      hide Holds, SameBytes;
      var a, b := base + strstart, base + cur;
      forall k: nat | MIN_MATCH <= k <= MAX_MATCH && SameBytes(text, a, b, k)
        ensures k <= n
      {
        if n < k {
          AgreeAt(cur, n, k);
        }
      }
    }

    /** How many strings of a chain are looked at, given the length of the previous match. */
    function ChainLength(previous: nat): (n: nat)
      requires Sizes()
      ensures n >= 1
    {
      if previous >= good_match then max_chain_length / 4 else max_chain_length
    }

    /** With these strings inserted, no match on offer at strstart is longer than len, unless len is good enough. */
    ghost predicate LongestAmong(s: set<nat>, previous: nat, len: nat)
      reads `strstart, `text, `base
    {
      Sizes() && NoneLonger(hash, text, base, s, base + strstart, MaxDist(), ChainLength(previous), nice_match, len)
    }

    ghost predicate Longest(previous: nat, len: nat)
      reads `strstart, `text, `base, `ins
    {
      LongestAmong(ins, previous, len)
    }

    /** cur is the head of the hash chain for the string at strstart. */
    ghost predicate First(cur: nat)
      reads `strstart, `text, `base, `ins
    {
      base + strstart + 2 < |text| ==> Latest(hash, text, base, ins, cur, KeyAt(hash, text, base + strstart), base + strstart)
    }

    /** What is known after the search has come to index cur. */
    ghost predicate Followed(cur: nat, best_len: nat, left: int)
      reads `strstart, `text, `base, `ins, `prev_length
    {
      && Sizes() && base + strstart + 2 < |text| && Tried(text, ins, base + cur, base + strstart, best_len)
      && |Between(hash, text, ins, base + cur, base + strstart)| + left == ChainLength(prev_length)
    }

    lemma FollowStart(cur: nat, best_len: nat)
      requires Candidate(cur) && First(cur)
      ensures Followed(cur, best_len, ChainLength(prev_length))
    {
      hide Linked, KeyAt, Latest;
      AtHead(hash, text, base, ins, base + strstart, cur, best_len);
    }

    lemma FollowOn(cur: nat, q: nat, best_len: nat, better: nat, left: int)
      requires Candidate(cur) && q < cur && Followed(cur, best_len, left) && best_len <= better
      requires Latest(hash, text, base, ins, q, KeyAt(hash, text, base + strstart), base + cur)
      requires NoMoreThan(text, base + strstart, base + cur, better)
      ensures Followed(q, better, left - 1)
    {
      hide Linked, KeyAt, Latest, Tried, NoMoreThan;
      OneFurther(hash, text, base, ins, base + strstart, cur, q, best_len, better);
    }

    lemma FollowEnd(first: nat, q: nat, best_len: nat, left: int)
      requires Candidate(first) && q < first && Followed(q, best_len, left)
      requires left <= 0 || q == NIL || strstart - q >= MaxDist()
      ensures Longest(prev_length, best_len)
    {
      hide Linked, KeyAt, Latest, Tried, NoneLonger;
      if left <= 0 {
        ChainUsedUp(hash, text, base, ins, base + strstart, MaxDist(), ChainLength(prev_length), nice_match, best_len, q);
      } else {
        TooFarBack(hash, text, base, ins, base + strstart, MaxDist(), ChainLength(prev_length), nice_match, best_len, first, q);
      }
    }

    lemma FollowLong(best_len: nat)
      requires Sizes() && Ahead() && (best_len >= nice_match || best_len >= lookahead)
      ensures Longest(prev_length, best_len)
    {
      hide NoneLonger;
      LongEnough(hash, text, base, ins, base + strstart, MaxDist(), ChainLength(prev_length), nice_match, best_len);
    }

    /** There is no string on the chain, or even the latest is too far back. */
    lemma NoneInReach(q: nat, previous: nat, len: nat)
      requires Sizes() && First(q) && (q == NIL || strstart - q > MaxDist())
      ensures Longest(previous, len)
    {
      hide NoneLonger, KeyAt, Latest;
      NothingOnOffer(hash, text, base, ins, base + strstart, MaxDist(), ChainLength(previous), nice_match, len, q);
    }

    /** Inserting the string at strstart makes no difference. */
    lemma LongestBefore(was: set<nat>, previous: nat, len: nat)
      requires Longest(previous, len) && (ins == was || ins == was + {base + strstart})
      ensures LongestAmong(was, previous, len)
    {
      hide NoneLonger;
      if ins != was {
        ItselfApart(hash, text, base, was, base + strstart, MaxDist(), ChainLength(previous), nice_match, len);
      }
    }

    lemma LongestCut(best_len: nat)
      requires Ahead() && Longest(prev_length, best_len)
      ensures Longest(prev_length, if best_len <= lookahead then best_len else lookahead)
    {
      hide NoneLonger;
      CutToText(hash, text, base, ins, base + strstart, MaxDist(), ChainLength(prev_length), nice_match, best_len);
    }

    /** The next candidate on the chain. */
    lemma NextCandidate(cur: nat, limit: nat)
      requires Candidate(cur) && Chained() && top <= base + strstart + 1
      requires limit == if strstart > MaxDist() then strstart - MaxDist() else NIL
      ensures prev[cur % w_size] > limit ==> Candidate(prev[cur % w_size])
      ensures prev[cur % w_size] < cur
      ensures Latest(hash, text, base, ins, prev[cur % w_size], KeyAt(hash, text, base + strstart), base + cur)
    {
      hide ChainsOk, Linked, KeyAt, Latest;
      NextLink(hash, text, base, w_size, head[..], prev[..], ins, top, cur, KeyAt(hash, text, base + strstart));
    }

    /** A length above prev_length is that of a true match at match_start. */
    ghost predicate TrueMatch(len: nat)
      reads `match_start, `prev_length, `strstart, `lookahead, `text, `base
    {
      Sizes() && prev_length <= len <= MAX_MATCH && (len > prev_length ==> Agree(match_start, len) && strstart - match_start <= MaxDist())
    }

    /** Look at one string of the chain. */
    method Look(cur: nat, best_len: nat, scan_end1: Byte, scan_end: Byte) returns (best: nat)
      requires Candidate(cur) && Holds() && Ahead() && lookahead >= MIN_MATCH && strstart + MIN_LOOKAHEAD <= window.Length
      requires 1 <= best_len && TrueMatch(best_len)
      requires scan_end1 == window[strstart + best_len - 1] && scan_end == window[strstart + best_len]
      modifies `match_start
      ensures best >= best_len && TrueMatch(best) && NoMoreThan(text, base + strstart, base + cur, best)
    {
      hide Linked, KeyAt, Agree, SameBytes, NoMoreThan, Holds;
      best := best_len;
      var n := TryMatch(cur, best_len, scan_end1, scan_end);
      if n > best_len {
        match_start := cur;
        best := n;
      }
    }

    /** The next string of the chain. */
    lemma Further(cur: nat, limit: nat, best_len: nat, better: nat, left: int)
      requires Candidate(cur) && Chained() && top <= base + strstart + 1 && Followed(cur, best_len, left) && best_len <= better
      requires limit == if strstart > MaxDist() then strstart - MaxDist() else NIL
      requires NoMoreThan(text, base + strstart, base + cur, better)
      ensures var q := prev[cur % w_size]; q < cur && (q > limit ==> Candidate(q)) && Followed(q, better, left - 1)
    {
      hide ChainsOk, Linked, KeyAt, Latest, Followed, NoMoreThan;
      NextCandidate(cur, limit);
      FollowOn(cur, prev[cur % w_size], best_len, better, left);
    }

    lemma NoMatchYet()
      requires Sizes() && prev_length <= MAX_MATCH
      ensures TrueMatch(prev_length)
    {
    }

    lemma TrueMatchIs(len: nat)
      requires TrueMatch(len)
      ensures prev_length <= len <= MAX_MATCH && (len > prev_length ==> Agree(match_start, len) && strstart - match_start <= MaxDist())
    {
    }

    /** The loop of longest_match: follow the chain from its head on. */
    method Follow(cur_match: nat, chain: nat, nice: nat, limit: nat) returns (best_len: nat)
      requires Sizes() && Holds() && Ahead() && Chained() && lookahead >= MIN_MATCH && strstart + MIN_LOOKAHEAD <= window.Length
      requires top <= base + strstart + 1 && 1 <= prev_length <= MAX_MATCH && Candidate(cur_match) && First(cur_match)
      requires chain == ChainLength(prev_length) && nice == (if nice_match > lookahead then lookahead else nice_match)
      requires limit == if strstart > MaxDist() then strstart - MaxDist() else NIL
      modifies `match_start
      ensures TrueMatch(best_len) && Longest(prev_length, best_len)
    {
      hide Candidate, Holds, Chained, Followed, Longest, First, NoMoreThan, TrueMatch, Usual;
      best_len := prev_length;
      NoMatchYet();
      var scan_end1, scan_end := window[strstart + best_len - 1], window[strstart + best_len];
      var cur: nat, chain_length := cur_match, chain;
      FollowStart(cur, best_len);
      while true
        invariant chain_length >= 1 && Candidate(cur) && prev_length <= best_len && TrueMatch(best_len) && cur <= cur_match
        invariant best_len <= MAX_MATCH && scan_end1 == window[strstart + best_len - 1] && scan_end == window[strstart + best_len]
        invariant Followed(cur, best_len, chain_length)
        decreases chain_length
      {
        var was := best_len;
        best_len := Look(cur, best_len, scan_end1, scan_end);
        TrueMatchIs(best_len);
        if best_len > was {
          if best_len >= nice {
            FollowLong(best_len);
            break;
          }
          scan_end1, scan_end := window[strstart + best_len - 1], window[strstart + best_len];
        }
        Further(cur, limit, was, best_len, chain_length);
        cur := prev[cur % w_size];
        chain_length := chain_length - 1;
        if cur <= limit || chain_length == 0 {
          FollowEnd(cur_match, cur, best_len, chain_length);
          break;
        }
      }
    }

    /**
     longest_match for the head cur_match of the hash chain.  A result above prev_length is the
     length of a true match, at match_start.  No match that the chain has to offer within reach
     and within the chain length is longer, unless the result is nice_match at least.
     */
    method LongestMatch(cur_match: nat) returns (len: nat)
      requires Sizes() && Holds() && Ahead() && Chained() && lookahead >= MIN_MATCH && strstart + MIN_LOOKAHEAD <= window.Length
      requires top <= base + strstart + 1 && 1 <= prev_length <= MAX_MATCH
      requires Candidate(cur_match) && First(cur_match)
      modifies `match_start
      ensures len <= lookahead && len <= MAX_MATCH && (len >= prev_length || len == lookahead)
      ensures len > prev_length ==> Agree(match_start, len) && strstart - match_start <= MaxDist()
      ensures Longest(prev_length, len)
    {
      hide Agree, Holds, Chained, Longest, First, Candidate, TrueMatch;
      var chain_length := max_chain_length;
      var nice := nice_match;
      var limit := if strstart > MaxDist() then strstart - MaxDist() else NIL;
      if prev_length >= good_match {
        chain_length := chain_length / 4;
      }
      if nice > lookahead {
        nice := lookahead;
      }
      var best_len := Follow(cur_match, chain_length, nice, limit);
      len := if best_len <= lookahead then best_len else lookahead;
      LongestCut(best_len);
      TrueMatchIs(best_len);
      if len > prev_length {
        AgreeLess(match_start, best_len, len);
      }
    }

    /* ---------- fill_window ---------- */

    /** insert strings in front of strstart have not been inserted yet, for want of a third byte. */
    ghost predicate Good()
      reads `ins_h, `strstart, `lookahead, `insert, `text, `base, `ins, `top, window, head, prev
    {
      && Sizes() && Holds() && Ahead() && Chained()
      && insert <= strstart && insert <= 2 && top <= base + strstart - insert
      && (insert > 0 ==> lookahead + insert < MIN_MATCH)
      && (hashing && lookahead >= MIN_MATCH ==> Covers(hash, text, ins_h, base + strstart))
    }

    /** The same text, at the same place, though the window may have moved. */
    twostate predicate SamePlace()
      reads this
    {
      && base + strstart == old(base + strstart) && base + match_start == old(base + match_start)
      && base + block_start == old(base + block_start)
      && old(text) <= text && text + next_in == old(text + next_in)
    }

    /** Slide the hash table: index m becomes m - wsize, or NIL. */
    method SlideTable(t: array<nat>)
      modifies t
      ensures t[..] == SlidAll(old(t[..]), w_size)
    {
      var n := t.Length;
      while n > 0
        invariant 0 <= n <= t.Length
        invariant forall i :: 0 <= i < n ==> t[i] == old(t[i])
        invariant forall i :: n <= i < t.Length ==> t[i] == Slid(old(t[i]), w_size)
      {
        n := n - 1;
        var m := t[n];
        t[n] := if m >= w_size then m - w_size else NIL;
      }
    }

    method SlideTables()
      requires Sizes() && Chained()
      modifies head, prev
      ensures ChainsOk(hash, text, base + w_size, w_size, head[..], prev[..], ins, top)
    {
      hide ChainsOk;
      ChainsSlide(hash, text, base, w_size, head[..], prev[..], ins, top);
      ghost var pv: seq<nat> := prev[..];
      SlideTable(head);
      assert prev[..] == pv;
      SlideTable(prev);
    }

    method CopyHalf()
      requires Sizes()
      modifies window
      ensures forall i :: 0 <= i < w_size ==> window[i] == old(window[w_size + i])
    {
      forall i | 0 <= i < w_size {
        window[i] := window[w_size + i];
      }
    }

    /** Move the upper half of the window to the lower one. */
    method SlideWindow()
      requires Good() && strstart >= w_size + MaxDist()
      modifies window, head, prev, `match_start, `strstart, `block_start, `base
      ensures Good() && SamePlace() && strstart == old(strstart) - w_size && base == old(base) + w_size
    {
      hide ChainsOk, Covers;
      ghost var was: seq<Byte> := window[..];
      ghost var a := base + strstart;
      SlideTables();
      CopyHalf();
      match_start := match_start - w_size;
      strstart := strstart - w_size;
      block_start := block_start - w_size;
      base := base + w_size;
      assert base + strstart == a;
      HoldsSlid(was);
    }

    lemma HoldsSlid(was: seq<Byte>)
      requires |was| == window.Length == 2 * w_size && w_size <= base <= |text| <= base + w_size
      requires forall i :: 0 <= i < |text| - base + w_size ==> was[i] == text[base - w_size + i]
      requires forall i :: 0 <= i < w_size ==> window[i] == was[w_size + i]
      ensures Holds()
    {
      forall i | 0 <= i < |text| - base
        ensures window[i] == text[base + i]
      {
        assert was[w_size + i] == text[base - w_size + (w_size + i)];
      }
    }

    /** read_buf: as much input as there is, but no more than size bytes. */
    method ReadBuf(size: nat) returns (n: nat)
      requires Sizes() && Holds() && Ahead() && strstart + lookahead + size <= window.Length
      modifies window, `next_in, `lookahead, `text
      ensures n == if |old(next_in)| > size then size else |old(next_in)|
      ensures Holds() && Ahead() && text == old(text) + old(next_in)[..n] && next_in == old(next_in)[n..]
      ensures lookahead == old(lookahead) + n
    {
      n := |next_in|;
      if n > size {
        n := size;
      }
      var end := strstart + lookahead;
      ghost var t := text;
      forall i | 0 <= i < n {
        window[end + i] := next_in[i];
      }
      text := text + next_in[..n];
      next_in := next_in[n..];
      lookahead := lookahead + n;
      forall i | 0 <= i < |text| - base
        ensures window[i] == text[base + i]
      {
        if i >= end {
          assert window[end + (i - end)] == old(next_in)[i - end];
        } else {
          assert text[base + i] == t[base + i];
        }
      }
    }

    /** Initialize the hash value now that there is input, and insert the strings left over. */
    method StartHash()
      requires Sizes() && Holds() && Ahead() && Chained()
      requires insert <= strstart && insert <= 2 && top <= base + strstart - insert
      requires lookahead + insert >= MIN_MATCH
      modifies head, prev, `ins_h, `insert, `ins, `top
      ensures Good() && insert <= old(insert)
      ensures ins == WithAll(old(ins), base + strstart - old(insert), base + strstart - insert)
      ensures insert > 0 ==> lookahead + insert < MIN_MATCH
    {
      hide ChainsOk, KeyAt, Update, Linked, Latest, WithAll;
      var str := strstart - insert;
      ghost var a, s := base + str, ins;
      WithNone(s, a, a);
      FirstTwo(str);
      ins_h := window[str];
      ins_h := Update(hash, ins_h, window[str + 1]);
      while insert > 0
        invariant str == strstart - insert && insert <= strstart && insert <= old(insert) && top <= base + str
        invariant ins == WithAll(s, a, base + str) && a <= base + str
        invariant Chained() && lookahead + insert >= MIN_MATCH && Covers(hash, text, ins_h, base + str)
      {
        WithOneMore(s, a, base + str);
        var hd := InsertString(str);
        str := str + 1;
        insert := insert - 1;
        if lookahead + insert < MIN_MATCH {
          break;
        }
      }
    }

    lemma FirstTwo(str: nat)
      requires Sizes() && Holds() && base + str + 1 < |text|
      ensures Covers(hash, text, Update(hash, window[str], window[str + 1]), base + str)
    {
      hide Key;
      assert window[str] == text[base + str] && window[str + 1] == text[base + (str + 1)];
      FirstKey(hash, window[str]);
      assert Update(hash, window[str], window[str + 1]) == Update(hash, Update(hash, 0, text[base + str]), text[base + str + 1]);
    }

    /** What lies behind the data is filled with zeros as far as longest_match may look. */
    method ZeroAhead()
      requires Good()
      modifies window, `high_water
      ensures Good()
    {
      hide ChainsOk, Covers;
      if high_water < window.Length {
        var curr := strstart + lookahead;
        if high_water < curr {
          var init := window.Length - curr;
          if init > WIN_INIT {
            init := WIN_INIT;
          }
          forall i | curr <= i < curr + init {
            window[i] := 0;
          }
          high_water := curr + init;
        } else if high_water < curr + WIN_INIT {
          var init := curr + WIN_INIT - high_water;
          if init > window.Length - high_water {
            init := window.Length - high_water;
          }
          forall i | high_water <= i < high_water + init {
            window[i] := 0;
          }
          high_water := high_water + init;
        }
      }
    }

    /**
     fill_window: read until there is enough lookahead or no input is left, making room in the
     window and in the hash table.
     */
    method FillWindow()
      requires Good() && lookahead < MIN_LOOKAHEAD
      modifies this, window, head, prev
      ensures Good() && SamePlace() && strstart + MIN_LOOKAHEAD <= window.Length
      ensures lookahead >= MIN_LOOKAHEAD || next_in == []
      ensures old(strstart) >= 1 ==> strstart >= 1
      ensures prev_length == old(prev_length) && insert <= old(insert)
    {
      hide ChainsOk, Covers, Chained, Holds, Good;
      Bounds();
      while true
        invariant Good() && SamePlace() && lookahead < MIN_LOOKAHEAD && prev_length == old(prev_length) && insert <= old(insert)
        invariant old(strstart) >= 1 ==> strstart >= 1
        decreases |next_in|
      {
        Bounds();
        var more := window.Length - lookahead - strstart;
        if strstart >= w_size + MaxDist() {
          SlideWindow();
          Bounds();
          more := more + w_size;
        }
        if next_in == [] {
          break;
        }
        FillOnce(more);
        if lookahead >= MIN_LOOKAHEAD || next_in == [] {
          break;
        }
      }
      Bounds();
      ZeroAhead();
    }

    lemma Bounds()
      requires Good()
      ensures Sizes() && Holds() && Ahead() && strstart + lookahead <= window.Length
    {
    }

    /** One read, and what it makes possible. */
    method FillOnce(more: nat)
      requires Good() && 1 <= more && strstart + lookahead + more <= window.Length && next_in != []
      modifies this, window, head, prev
      ensures Good() && SamePlace() && |next_in| < |old(next_in)| && strstart == old(strstart)
      ensures prev_length == old(prev_length) && insert <= old(insert)
    {
      hide ChainsOk, Covers;
      ghost var t, l := text, lookahead;
      var n := ReadBuf(more);
      assert t + old(next_in) == t + old(next_in)[..n] + old(next_in)[n..];
      ChainsGrow(hash, t, text, base, w_size, head[..], prev[..], ins, top);
      if lookahead + insert >= MIN_MATCH {
        StartHash();
      }
    }

    /* ---------- moving on ---------- */

    /** The string at strstart has been inserted, or it need not be; then strstart can move on. */
    ghost predicate Inserted()
      reads `ins_h, `strstart, `lookahead, `insert, `text, `base, `ins, `top, window, head, prev
    {
      && Sizes() && Holds() && Ahead() && Chained()
      && insert <= strstart && insert <= 2 && top <= base + strstart + 1 - insert
      && (insert > 0 ==> lookahead + insert < MIN_MATCH)
      && (hashing && lookahead >= MIN_MATCH ==> Covers(hash, text, ins_h, base + strstart + 1))
    }

    /** Insert the string at strstart in the dictionary, and find the head of its hash chain. */
    method InsertHere() returns (hash_head: nat)
      requires Good() && hashing
      modifies head, prev, `ins_h, `ins, `top
      ensures Inserted() && First(hash_head) && ins == old(ins) + if lookahead >= MIN_MATCH then {base + strstart} else {}
      ensures hash_head != NIL ==> lookahead >= MIN_MATCH && hash_head < strstart
      ensures hash_head != NIL && strstart - hash_head <= MaxDist() ==> Candidate(hash_head)
    {
      hide ChainsOk, Covers, Linked, KeyAt, Latest;
      hash_head := NIL;
      if lookahead >= MIN_MATCH {
        hash_head := InsertString(strstart);
        LinkedMore(hash_head);
      }
    }

    lemma LinkedMore(q: nat)
      requires base + strstart + 2 < |text|
      ensures Linked(hash, text, base, ins, q, KeyAt(hash, text, base + strstart)) ==>
        Sizes() && q != NIL && q < strstart && strstart - q <= MaxDist() ==> Candidate(q)
    {
    }

    method Next()
      requires Inserted() && lookahead >= 1
      modifies `strstart, `lookahead
      ensures Good() && strstart == old(strstart) + 1
    {
      hide ChainsOk, Covers;
      lookahead := lookahead - 1;
      strstart := strstart + 1;
    }

    /** CLEAR_HASH */
    method ClearHash()
      requires Good()
      modifies head, `ins
      ensures Good() && ins == {}
    {
      hide ChainsOk, Covers;
      var n := 0;
      while n < head.Length
        invariant 0 <= n <= head.Length && prev[..] == old(prev[..])
        invariant forall i :: 0 <= i < n ==> head[i] == NIL
      {
        head[n] := NIL;
        n := n + 1;
      }
      HeadLength();
      ins := {};
      NoChains(hash, text, base, w_size, head[..], prev[..], top);
    }

    lemma HeadLength()
      requires Sizes()
      ensures head.Length == Pow2(hash.bits) && w_size > 0
    {
    }

    /** Forget what is in the window, all of which has been dealt with. */
    method Restart()
      requires Good() && lookahead == 0 && ins == {} && block_start == strstart
      modifies `strstart, `block_start, `insert, `base
      ensures Good() && strstart == 0 && block_start == 0 && insert == 0 && base + strstart == old(base + strstart)
    {
      hide Covers;
      base := base + strstart;
      strstart, block_start, insert := 0, 0, 0;
      NoChainsMoved(old(base));
    }

    lemma NoChainsMoved(b: nat)
      requires ChainsOk(hash, text, b, w_size, head[..], prev[..], {}, top)
      ensures ChainsOk(hash, text, base, w_size, head[..], prev[..], {}, top)
    {
    }

    /** At the end of the data: the last n strings could not be inserted. */
    method SetInsert(n: nat)
      requires Good() && lookahead == 0 && n <= strstart && n <= 2
      modifies `insert
      ensures Good() && insert == n
    {
      hide ChainsOk, Covers;
      insert := n;
    }

    /** Pass n bytes when the hash table is not used. */
    method Pass(n: nat)
      requires Good() && !hashing && n <= lookahead
      modifies `strstart, `lookahead
      ensures Good() && strstart == old(strstart) + n && lookahead == old(lookahead) - n
    {
      hide ChainsOk, Covers;
      lookahead := lookahead - n;
      strstart := strstart + n;
    }

    /** Insert all strings of a match; there are MIN_MATCH bytes ahead of the last one. */
    method InsertMatch(n: nat)
      requires Inserted() && hashing && n >= 2 && n + MIN_MATCH <= lookahead
      modifies head, prev, `ins_h, `ins, `top, `strstart, `lookahead
      ensures Good() && strstart == old(strstart) + n
      ensures ins == WithAll(old(ins), old(At()) + 1, At())
    {
      hide ChainsOk, Covers, Linked, KeyAt, Latest;
      lookahead := lookahead - n;
      var left := n - 1;
      while left != 0
        invariant 0 <= left < n && strstart == old(strstart) + (n - 1 - left)
        invariant ins == WithAll(old(ins), old(At()) + 1, At() + 1)
        invariant Sizes() && Holds() && Chained() && top <= base + strstart + 1
        invariant |text| == base + strstart + left + 1 + lookahead && Covers(hash, text, ins_h, base + strstart + 1)
      {
        strstart := strstart + 1;
        var hd := InsertString(strstart);
        left := left - 1;
      }
      strstart := strstart + 1;
    }

    /** Skip a long match without inserting its strings. */
    method JumpMatch(n: nat)
      requires Inserted() && 1 <= n <= lookahead && lookahead >= MIN_MATCH && strstart + n + 1 < window.Length
      modifies `ins_h, `strstart, `lookahead
      ensures Good() && strstart == old(strstart) + n
    {
      hide ChainsOk, Covers;
      lookahead := lookahead - n;
      strstart := strstart + n;
      ins_h := window[strstart];
      if lookahead >= MIN_MATCH {
        FirstTwo(strstart);
      }
      ins_h := Update(hash, ins_h, window[strstart + 1]);
    }

    /** The strings from lo up to strstart have been inserted, but none behind index max. */
    ghost predicate InsertedTo(s: set<nat>, lo: nat, max: int)
      reads `base, `strstart, `ins
    {
      ins == WithAll(s, lo, base + 1 + if strstart <= max then strstart else max)
    }

    /** Move on by one, and insert the string there if there are MIN_MATCH bytes. */
    method InsertOneOf(max_insert: int, ghost s: set<nat>, ghost lo: nat)
      requires Sizes() && Holds() && Chained() && top + insert <= base + strstart + 1 && base + max_insert + 2 < |text|
      requires InsertedTo(s, lo, max_insert) && lo <= base + strstart + 1
      requires strstart + 1 <= max_insert ==> insert == 0 && Covers(hash, text, ins_h, base + strstart + 1)
      modifies head, prev, `ins_h, `ins, `top, `strstart
      ensures strstart == old(strstart) + 1
      ensures Chained() && top + insert <= base + strstart + 1 && InsertedTo(s, lo, max_insert)
      ensures strstart + 1 <= max_insert ==> insert == 0 && Covers(hash, text, ins_h, base + strstart + 1)
    {
      hide ChainsOk, Covers, Linked, KeyAt, Latest, WithAll;
      strstart := strstart + 1;
      if strstart <= max_insert {
        WithOneMore(s, lo, base + strstart);
        var hd := InsertString(strstart);
      }
    }

    /**
     Insert the strings of the match of length prev_length that begins one byte before strstart,
     but none that has less than MIN_MATCH bytes ahead.
     */
    method InsertDeferred()
      requires Inserted() && hashing && MIN_MATCH <= prev_length <= lookahead + 1 && strstart >= 1
      modifies head, prev, `ins_h, `ins, `top, `strstart, `lookahead, `prev_length
      ensures Good() && strstart == old(strstart) + old(prev_length) - 1
      ensures ins == WithAll(old(ins), old(At()) + 1, if At() + MIN_MATCH - 1 <= |text| then At() else |text| - (MIN_MATCH - 1))
    {
      hide ChainsOk, Covers, Linked, KeyAt, Latest, WithAll;
      ghost var lo, s := At() + 1, ins;
      var max_insert := strstart + lookahead - MIN_MATCH;
      WithNone(s, lo, base + 1 + if strstart <= max_insert then strstart else max_insert);
      lookahead := lookahead - (prev_length - 1);
      prev_length := prev_length - 2;
      while prev_length != 0
        invariant strstart + prev_length == old(strstart) + old(prev_length) - 2 && strstart >= old(strstart)
        invariant |text| == base + strstart + prev_length + 1 + lookahead
        invariant Chained() && top + insert <= base + strstart + 1 && InsertedTo(s, lo, max_insert)
        invariant strstart + 1 <= max_insert ==> insert == 0 && Covers(hash, text, ins_h, base + strstart + 1)
        decreases prev_length
      {
        InsertOneOf(max_insert, s, lo);
        prev_length := prev_length - 1;
      }
      strstart := strstart + 1;
    }

    /** The byte before strstart repeats no more than len times, if it is in the window and at least three times. */
    ghost predicate RunsUpTo(len: nat)
      reads `strstart, `text, `base
    {
      strstart > 0 ==> NoMoreThan(text, base + strstart, base + strstart - 1, len)
    }

    /** How often the byte before strstart repeats: 0, or the length of a match of distance one. */
    method Run() returns (len: nat)
      requires Sizes() && Holds() && Ahead() && strstart + MAX_MATCH < window.Length
      ensures len != 0 ==> MIN_MATCH <= len <= MAX_MATCH && len <= lookahead && strstart > 0
      ensures len != 0 ==> SameBytes(text, base + strstart, base + strstart - 1, len)
      ensures RunsUpTo(len)
    {
      hide Holds, SameBytes, NoMoreThan;
      len := 0;
      if lookahead >= MIN_MATCH && strstart > 0 {
        var byte := window[strstart - 1];
        if byte == window[strstart] && byte == window[strstart + 1] && byte == window[strstart + 2] {
          // Eight comparisons in a row, the end being looked for only after every eighth.
          len := 3;
          while byte == window[strstart + len]
            invariant 3 <= len <= MAX_MATCH
            invariant forall i :: strstart - 1 <= i < strstart + len ==> window[i] == byte
            decreases MAX_MATCH - len
          {
            if (len - 2) % 8 == 0 && len >= MAX_MATCH {
              break;
            }
            len := len + 1;
          }
          DiffersAfter(strstart - 1, len, 0);
          if len > lookahead {
            len := lookahead;
            RunEndsWithText();
          }
          RunIsMatch(len);
        } else {
          NoRun();
        }
      } else if strstart > 0 {
        RunEndsWithText();
      }
    }

    lemma NoRun()
      requires Sizes() && Holds() && Ahead() && strstart >= 1 && strstart + MAX_MATCH < window.Length
      requires window[strstart - 1] != window[strstart] || window[strstart - 1] != window[strstart + 1]
        || window[strstart - 1] != window[strstart + 2]
      ensures NoMoreThan(text, base + strstart, base + strstart - 1, 0)
    {
      hide Holds, SameBytes;
      var i := if window[strstart - 1] != window[strstart] then 0 else if window[strstart] != window[strstart + 1] then 1 else 2;
      var a, b := base + strstart, base + strstart - 1;
      forall k: nat | MIN_MATCH <= k <= MAX_MATCH && SameBytes(text, a, b, k)
        ensures false
      {
        AgreeAt(strstart - 1, i, k);
      }
    }

    lemma RunEndsWithText()
      requires Ahead() && strstart >= 1
      ensures NoMoreThan(text, base + strstart, base + strstart - 1, if lookahead < MIN_MATCH then 0 else lookahead)
    {
    }

    lemma RunIsMatch(len: nat)
      requires Sizes() && Holds() && Ahead() && strstart >= 1 && len <= lookahead && strstart + len <= window.Length
      requires forall i :: strstart - 1 <= i < strstart + len ==> window[i] == window[strstart - 1]
      ensures SameBytes(text, base + strstart, base + strstart - 1, len)
    {
      forall j | base + strstart <= j < base + strstart + len
        ensures text[j] == text[j - 1]
      {
        var i := j - base;
        assert window[i] == text[base + i] && window[i - 1] == text[base + (i - 1)];
      }
    }

    lemma AgreeLess(cur: int, len: nat, less: nat)
      requires Agree(cur, len) && less == if len <= lookahead then len else lookahead
      ensures Agree(cur, less)
    {
    }
  }

  lemma KeyInTable(p: HashParams, text: seq<Byte>, base: nat, w: nat,
                   head: seq<nat>, prev: seq<nat>, ins: set<nat>, top: nat, a: nat)
    requires ChainsOk(p, text, base, w, head, prev, ins, top) && a + 2 < |text|
    ensures KeyAt(p, text, a) < |head|
  {
  }

  lemma FirstKey(p: HashParams, c: Byte)
    requires Usual(p)
    ensures Update(p, 0, c) == c
  {
    hide Xor, Pow2;
    Pow2Values();
    Pow2Monotone(8, p.bits);
    XorZero(c);
    SmallMod(c, Pow2(p.bits));
  }
}
