/**
 The parsing strategies of deflate.c.  Whatever the input, its division into pieces, the level
 and the strategy: what has been tallied stands for exactly the input that has been passed.
 */
module Deflate {
  import opened Bits
  import opened Lz77
  import opened InflateSpec
  import opened Blocks
  import opened BitWriter
  import opened Encoder
  import opened CompressBlock
  import opened Chains
  import opened Matcher

  const Z_NO_FLUSH: nat := 0
  const Z_PARTIAL_FLUSH: nat := 1
  const Z_SYNC_FLUSH: nat := 2
  const Z_FULL_FLUSH: nat := 3
  const Z_FINISH: nat := 4
  const Z_BLOCK: nat := 5
  const Z_FILTERED: nat := 1
  const Z_HUFFMAN_ONLY: nat := 2
  const Z_RLE: nat := 3
  const TOO_FAR: nat := 4096

  datatype BlockState = NeedMore | BlockDone | FinishStarted | FinishDone

  const Z_OK: int := 0
  const Z_STREAM_END: int := 1
  const Z_STREAM_ERROR: int := -2
  const Z_BUF_ERROR: int := -5

  /** RANK: Z_BLOCK comes between Z_NO_FLUSH and Z_PARTIAL_FLUSH. */
  function Rank(f: int): int {
    2 * f - if f > 4 then 9 else 0
  }

  /** Whether the strategy can go on, waits for more input, or has come to the end of it. */
  datatype Supply = Ample | Dry | Out

  /** No match reaches back further than max. */
  predicate Near(toks: seq<Token>, max: nat) {
    forall i :: 0 <= i < |toks| && toks[i].Match? ==> toks[i].dist <= max
  }

  predicate BlockNear(b: Block, max: nat) {
    match b
    case StoredAs(_) => true
    case StaticAs(toks) => Near(toks, max)
    case DynamicAs(_, _, _, _, toks) => Near(toks, max)
  }

  predicate LogNear(log: seq<Block>, max: nat) {
    forall i :: 0 <= i < |log| ==> BlockNear(log[i], max)
  }

  /** The blocks and the tokens behind them stand for the first at bytes of the text, the blocks for the first from. */
  ghost predicate Stands(log: seq<Block>, toks: seq<Token>, text: seq<Byte>, from: int, at: int, near: nat) {
    && LogNear(log, near) && Near(toks, near)
    && TokensFollow(log, toks) && 0 <= from <= at <= |text|
    && Text(log) == text[..from] && Expand(Text(log), toks) == text[..at]
  }

  lemma StandsNothing(near: nat)
    ensures Stands([], [], [], 0, 0, near)
  {
    NoText();
  }

  lemma StandsLiteral(log: seq<Block>, toks: seq<Token>, text: seq<Byte>, from: int, at: int, near: nat)
    requires Stands(log, toks, text, from, at, near) && at < |text|
    ensures Stands(log, toks + [Literal(text[at])], text, from, at + 1, near)
  {
    ExpandSnoc(Text(log), toks, Literal(text[at]));
  }

  lemma StandsMatch(log: seq<Block>, toks: seq<Token>, text: seq<Byte>, from: int, at: int, near: nat, b: nat, len: nat)
    requires Stands(log, toks, text, from, at, near) && at - b <= near && SameBytes(text, at, b, len)
    ensures Stands(log, toks + [Token.Match(len, at - b)], text, from, at + len, near)
  {
    CopyMatchIs(text, at, len, at - b);
    ExpandSnoc(Text(log), toks, Token.Match(len, at - b));
  }

  lemma StandsGrow(log: seq<Block>, toks: seq<Token>, text: seq<Byte>, more: seq<Byte>, from: int, at: int, near: nat)
    requires Stands(log, toks, text, from, at, near) && text <= more
    ensures Stands(log, toks, more, from, at, near)
  {
    assert more[..from] == text[..from] && more[..at] == text[..at];
  }

  /** The bytes of the current block. */
  lemma StandsBytes(log: seq<Block>, toks: seq<Token>, text: seq<Byte>, from: int, at: int, near: nat)
    requires Stands(log, toks, text, from, at, near)
    ensures BytesFollow(log, toks, text[from..at])
  {
    assert text[..from] + text[from..at] == text[..at];
  }

  lemma SentNear(log: seq<Block>, toks: seq<Token>, sent: Block, own: Block, buf: Option<seq<Byte>>,
                 last: bool, only_fixed: bool, near: nat)
    requires LogNear(log, near) && Near(toks, near) && Sound(StaticAs(toks)) && own.DynamicAs? && own.toks == toks && Sound(own)
    requires Sound(sent) && Cheapest(sent, buf, StaticAs(toks), own, last, only_fixed)
    ensures LogNear(log + [sent], near)
  {
    hide Sound, Bytes, Near;
  }

  /** An empty block does not say anything. */
  lemma StandsEmpty(log: seq<Block>, text: seq<Byte>, from: int, at: int, near: nat, b: Block)
    requires Stands(log, [], text, from, at, near) && (b == StaticAs([]) || b == StoredAs([]))
    ensures Stands(log + [b], [], text, from, at, near)
  {
    TextSnoc(log, b, []);
  }

  lemma StandsFlushed(log: seq<Block>, text: seq<Byte>, at: int, near: nat)
    requires LogNear(log, near) && AllSensible(log) && 0 <= at <= |text| && Text(log) == text[..at]
    ensures Stands(log, [], text, at, at, near)
  {
  }

  /** good_length, max_lazy, nice_length and max_chain for a compression level. */
  datatype Config = Config(good: nat, lazy: nat, nice: nat, chain: nat)

  function ConfigurationTable(level: nat): (c: Config)
    requires 1 <= level <= 9
    ensures c.chain >= 4 && c.lazy >= MIN_MATCH
  {
    [Config(4, 4, 8, 4), Config(4, 5, 16, 8), Config(4, 6, 32, 32), Config(4, 4, 16, 16), Config(8, 16, 32, 32),
     Config(8, 16, 128, 128), Config(8, 32, 128, 256), Config(32, 128, 258, 1024), Config(32, 258, 258, 4096)][level - 1]
  }

  lemma LitBufsize(memLevel: nat)
    requires 1 <= memLevel <= 9
    ensures 128 <= Pow2(memLevel + 6) <= 32768
  {
    Pow2Values();
    Pow2Monotone(7, memLevel + 6);
    Pow2Monotone(memLevel + 6, 15);
  }

  const UINT: nat := 0x1_0000_0000

  /** A number as an unsigned int has it. */
  function Unsigned(x: int): (u: nat)
    ensures u < UINT
  {
    x % UINT
  }

  /** The unsigned difference of two indices is their distance, though one of them may be negative. */
  lemma UnsignedDifference(i: nat, j: int)
    requires 0 <= i - j < UINT
    ensures Unsigned(i - Unsigned(j)) == i - j
  {
    var q := j / UINT;
    assert i - Unsigned(j) == UINT * q + (i - j);
    ModUnique(i - Unsigned(j), UINT, q, i - j);
  }

  /** The len bytes from position at - 1 on also stand at position start. */
  ghost predicate PriorMatch(text: seq<Byte>, at: int, start: int, len: nat, max: nat) {
    0 <= start && 1 <= at - 1 - start <= max && len <= MAX_MATCH && SameBytes(text, at - 1, start, len)
  }

  /** Output that has been written stays what it is. */
  lemma KeptMore(out: seq<Byte>, log: seq<Block>, b: Block, ended: bool)
    requires AllSound(log) && Sound(b) && BytesBits(out) <= StreamBits(log, false)
    ensures AllSound(log + [b]) && BytesBits(out) <= StreamBits(log + [b], ended)
  {
    hide BlockBits, Sound, StreamBits, BytesBits;
    StreamSnoc(log, b, ended);
    var s := StreamBits(log, false);
    var e := BlockBits(|s|, b, ended);
    var r := StreamBits(log + [b], ended);
    assert r == (s + e) + Fill(|s + e|, ended);
    assert s <= r;
  }

  class Deflater {
    const m: Matcher
    const e: Encoder
    const max_lazy: nat
    var match_length: nat
    var prev_match: int
    var match_available: bool
    var avail_out: nat
    /** All output that the caller has been given. */
    var next_out: seq<Byte>
    /** FINISH_STATE */
    var finished: bool
    var last_flush: int

    constructor (m: Matcher, e: Encoder, max_lazy: nat)
      ensures this.m == m && this.e == e && this.max_lazy == max_lazy
      ensures match_length == MIN_MATCH - 1 && !match_available && !finished && next_out == []
      ensures last_flush == Z_NO_FLUSH
    {
      this.m, this.e, this.max_lazy := m, e, max_lazy;
      match_length, prev_match, match_available := MIN_MATCH - 1, 0, false;
      avail_out, next_out := 0, [];
      finished, last_flush := false, Z_NO_FLUSH;
    }

    /** deflateInit2_ and deflateReset, for a raw stream. */
    static method DeflateInit2(level: nat, strategy: nat, windowBits: nat, memLevel: nat) returns (d: Deflater)
      requires 1 <= level <= 9 && strategy <= 4 && 8 <= windowBits <= 15 && 1 <= memLevel <= 9
      ensures d.Valid() && !d.finished && d.m.text == [] && d.next_out == [] && d.e.level == level && d.e.strategy == strategy
      ensures var c := ConfigurationTable(level);
              d.m.good_match == c.good && d.max_lazy == c.lazy && d.m.nice_match == c.nice && d.m.max_chain_length == c.chain
      ensures d.m.w_size == Pow2(if windowBits == 8 then 9 else windowBits) && d.m.hash.bits == memLevel + 7
      ensures d.e.lit_bufsize == Pow2(memLevel + 6) && d.last_flush == Z_NO_FLUSH
      ensures fresh(d) && fresh(d.m.Repr()) && fresh(d.e.Repr())
    {
      hide Deflater.Kept, Encoder.Valid, Matcher.Good, Stands, Pow2, Matcher.Holds, Matcher.Ahead;
      var c := ConfigurationTable(level);
      var w_bits := if windowBits == 8 then 9 else windowBits;
      LitBufsize(memLevel);
      var m := new Matcher(w_bits, memLevel + 7, c.chain, c.good, c.nice, strategy != Z_HUFFMAN_ONLY && strategy != Z_RLE);
      var e := Encoder.TrInit(Pow2(memLevel + 6), level, strategy);
      m.Bounds();
      d := new Deflater(m, e, c.lazy);
      StandsNothing(m.MaxDist());
      d.NothingKept();
      d.SteadyStart();
    }

    lemma NothingKept()
      requires next_out == [] && e.Valid()
      ensures Kept()
    {
      hide Encoder.Parts, Encoder.Counted, Encoder.Held, StreamBits;
      NoBytes();
    }

    lemma SteadyStart()
      requires Apart() && Open() && m.Good() && Parsed(At()) && match_length == m.prev_length == MIN_MATCH - 1 && !match_available
      requires m.hashing == (e.strategy != Z_HUFFMAN_ONLY && e.strategy != Z_RLE)
      requires m.insert == 0 && m.strstart == m.block_start == 0 && e.toks == []
      ensures Steady()
    {
      hide Kept, Stands, Encoder.Valid, Matcher.Good;
    }

    ghost predicate Apart() {
      && this !in e.Repr() && m !in e.Repr() && m.window !in e.Repr() && m.head !in e.Repr() && m.prev !in e.Repr()
      && this !in m.Repr() && m.Sizes()
      && e.level > 0 && e.lit_bufsize <= 32768
    }

    /** Output is only added to, and takes up room. */
    twostate predicate GivenMore()
      reads `next_out, `avail_out
    {
      old(next_out) <= next_out && |next_out| + avail_out == old(|next_out| + avail_out)
    }

    /** What the caller has been given is a beginning of what the blocks take. */
    ghost predicate Kept()
      reads `next_out, e`log, e`ended
    {
      AllSound(e.log) && BytesBits(next_out) <= StreamBits(e.log, e.ended)
    }

    /** The encoder can take another token. */
    ghost predicate Open()
      reads `next_out, e, e.Repr()
    {
      e.Valid() && Kept() && !e.ended && e.last_lit < e.lit_bufsize - 1
    }

    /** The encoder has a token at least, or can take one. */
    ghost predicate Busy()
      reads `next_out, e, e.Repr()
    {
      e.Valid() && Kept() && !e.ended
    }

    /** What has been said so far stands for the text up to position at. */
    ghost predicate Parsed(at: int)
      reads m`text, m`base, m`block_start, e`log, e`toks
    {
      m.Sizes() && Stands(e.log, e.toks, m.text, m.base + m.block_start, at, m.MaxDist())
    }

    /** The tokens, with one more, stand for the text up to position at. */
    ghost predicate Extended(toks: seq<Token>, at: int)
      reads m`text, m`base, m`block_start, e`log
    {
      m.Sizes() && Stands(e.log, toks, m.text, m.base + m.block_start, at, m.MaxDist())
    }

    lemma ParsedIs(at: int)
      ensures Parsed(at) <==> Extended(e.toks, at)
    {
      hide Stands;
    }

    lemma SayLiteral(i: nat)
      requires m.Sizes() && m.Holds() && Parsed(m.base + i) && m.base + i < |m.text|
      ensures i < m.window.Length && m.window[i] == m.text[m.base + i] && Extended(e.toks + [Literal(m.window[i])], m.base + i + 1)
    {
      hide Stands;
      StandsLiteral(e.log, e.toks, m.text, m.base + m.block_start, m.base + i, m.MaxDist());
    }

    lemma SayMatch(i: nat, j: int, len: nat)
      requires Apart() && Parsed(m.base + i) && MIN_MATCH <= len <= MAX_MATCH
      requires 0 <= m.base + j && 1 <= i - j <= m.MaxDist() && SameBytes(m.text, m.base + i, m.base + j, len)
      ensures i - j <= 32768 && Extended(e.toks + [Token.Match(len, i - j)], m.base + i + len)
    {
      hide Stands, Encoder.Repr;
      StandsMatch(e.log, e.toks, m.text, m.base + m.block_start, m.base + i, m.MaxDist(), m.base + j, len);
    }

    lemma ToEncoder()
      requires Apart() && Open()
      ensures e.Valid() && e.last_lit < e.lit_bufsize - 1 && !e.ended && Kept() && m.Sizes()
      ensures e.last_lit == |e.toks|
      ensures m !in e.Repr() && m.window !in e.Repr() && this !in e.Repr()
    {
      hide Kept, Encoder.Parts, Encoder.Counted, Encoder.Logged, Buffered, Encoder.Repr;
    }

    lemma FromEncoder(bflush: bool)
      requires e.Valid() && Kept() && !e.ended && e.toks != []
      requires bflush == (e.last_lit == e.lit_bufsize - 1)
      ensures Busy() && (bflush || Open()) && e.last_lit == |e.toks|
    {
      hide Kept, Encoder.Apart, Encoder.Counted, Encoder.Logged, Buffered, Encoder.Repr;
    }

    /** _tr_tally_lit(s, s->window[i], bflush) */
    method TallyLiteral(i: nat) returns (bflush: bool)
      requires Apart() && Open() && m.Holds() && Parsed(m.base + i) && m.base + i < |m.text|
      modifies e.Repr()
      ensures Busy() && (bflush || Open()) && Parsed(m.base + i + 1) && e.log == old(e.log)
      ensures e.toks == old(e.toks) + [Literal(m.text[m.base + i])] && e.last_lit != 0
    {
      hide Kept, Open, Busy, Parsed, Apart, Extended, Matcher.Holds, Encoder.Valid;
      ToEncoder();
      SayLiteral(i);
      bflush := e.TallyLit(m.window[i]);
      ParsedIs(m.base + i + 1);
      FromEncoder(bflush);
    }

    /** _tr_tally_dist for a match of length len at index i with the string at index j */
    method TallyMatch(i: nat, j: int, len: nat) returns (bflush: bool)
      requires Apart() && Open() && Parsed(m.base + i) && MIN_MATCH <= len <= MAX_MATCH
      requires 0 <= m.base + j && 1 <= i - j <= m.MaxDist() && SameBytes(m.text, m.base + i, m.base + j, len)
      modifies e.Repr()
      ensures Busy() && (bflush || Open()) && Parsed(m.base + i + len) && e.log == old(e.log)
      ensures e.toks == old(e.toks) + [Token.Match(len, i - j)] && e.last_lit != 0
    {
      hide Kept, Open, Busy, Parsed, Apart, Extended, Encoder.Valid, SameBytes;
      ToEncoder();
      SayMatch(i, j, len);
      UnsignedDifference(i, j);
      bflush := e.TallyDist(Unsigned(i - Unsigned(j)), len - MIN_MATCH);
      ParsedIs(m.base + i + len);
      FromEncoder(bflush);
    }

    /** flush_pending: as much as there is room for. */
    method FlushPending()
      requires e.Valid() && Apart() && Kept()
      modifies e.w, `avail_out, `next_out
      ensures e.Valid() && Kept() && (old(e.w.bi_valid) == 0 ==> e.w.bi_valid == 0)
      ensures next_out <= e.w.pending && GivenMore() && (avail_out > 0 ==> next_out == e.w.pending)
      ensures old(e.w.bi_valid) == 0 ==> e.w.pending == old(e.w.pending)
    {
      hide Encoder.Valid, Kept;
      e.FlushBits();
      OutputSoFar();
      var len := |e.w.pending| - |next_out|;
      if len > avail_out {
        len := avail_out;
      }
      next_out := next_out + e.w.pending[|next_out|..|next_out| + len];
      assert next_out == e.w.pending[..|next_out|];
      avail_out := avail_out - len;
      OutputKept();
    }

    lemma OutputSoFar()
      requires e.Valid() && Kept() && e.w.bi_valid <= 7
      ensures next_out <= e.w.pending
    {
      hide Encoder.Parts, Encoder.Counted, Encoder.Held, StreamBits, BytesBits, AllSound, Lsb;
      var s := BytesBits(next_out);
      assert s == e.w.Sent()[..|s|];
      assert BytesBits(e.w.pending) == e.w.Sent()[..8 * |e.w.pending|];
      SameBytesBits(next_out, e.w.pending);
    }

    lemma OutputKept()
      requires e.Valid() && next_out <= e.w.pending
      ensures Kept()
    {
      hide Encoder.Parts, Encoder.Counted, Encoder.Held, StreamBits, BytesBits, AllSound, Lsb;
      Grown(next_out, e.w.pending);
    }

    /** FLUSH_BLOCK_ONLY: the block ends at strstart. */
    method FlushBlock(last: bool)
      requires Apart() && Busy() && m.Holds() && m.Ahead() && Parsed(m.base + m.strstart)
      requires m.block_start >= 0 ==> m.strstart - m.block_start <= 65535
      modifies e.Repr(), m`block_start, `avail_out, `next_out
      ensures e.Valid() && Kept() && e.ended == last && Parsed(m.base + m.strstart) && m.block_start == m.strstart
      ensures LogNear(e.log, m.MaxDist()) && (avail_out > 0 ==> next_out == e.w.pending)
      ensures e.toks == [] && AllSensible(e.log) && Text(e.log) == m.text[..m.base + m.strstart] && e.log != []
      ensures !last ==> Open()
      ensures GivenMore()
    {
      hide Encoder.Parts, Encoder.Counted, Encoder.Logged, Encoder.Held, Stands, Cheapest, Sound, BlockBits, AllSensible,
        Text, Expand, TokensFollow, BytesFollow, Valid, Near, LogNear, Kept;
      ghost var log, toks, from, at := e.log, e.toks, m.base + m.block_start, m.base + m.strstart;
      StandsBytes(log, toks, m.text, from, at, m.MaxDist());
      StandsFacts(log, toks, m.text, from, at, m.MaxDist());
      KeptNow();
      var buf: Option<seq<Byte>> := None;
      if m.block_start >= 0 {
        buf := Some(m.window[m.block_start..m.strstart]);
        WindowBytes();
      }
      ghost var sent, own;
      sent, own := e.FlushBlock(buf, m.strstart - m.block_start, last);
      m.block_start := m.strstart;
      SentNear(log, toks, sent, own, buf, last, e.strategy == Z_FIXED, m.MaxDist());
      StandsFlushed(e.log, m.text, at, m.MaxDist());
      StillKept(log, sent);
      FlushPending();
      NotFull();
    }

    lemma StillKept(log: seq<Block>, b: Block)
      requires AllSound(log) && BytesBits(next_out) <= StreamBits(log, false) && e.log == log + [b] && e.Valid()
      ensures Kept()
    {
      hide Sound, StreamBits, BytesBits, Encoder.Parts, Encoder.Counted, Encoder.Held;
      assert Sound(e.log[|log|]);
      KeptMore(next_out, log, b, e.ended);
    }

    lemma KeptNow()
      requires Kept() && !e.ended
      ensures AllSound(e.log) && BytesBits(next_out) <= StreamBits(e.log, false)
    {
    }

    lemma NotFull()
      requires e.Valid() && Kept() && (e.toks == [] || e.last_lit == 0)
      ensures !e.ended ==> Open()
    {
      hide Encoder.Counted, Encoder.Logged, Buffered;
    }

    /* ---------- what holds between the steps of every strategy ---------- */

    /** Text and input are what they were, only that input may have become text. */
    twostate predicate SameInput()
      reads m`text, m`next_in
    {
      old(m.text) <= m.text && m.text + m.next_in == old(m.text + m.next_in)
    }

    /** The position in the text. */
    ghost function At(): nat
      reads m`base, m`strstart
    {
      m.base + m.strstart
    }

    ghost function Left(): int
      reads m`base, m`strstart, m`text, m`next_in
    {
      |m.text| + |m.next_in| - At()
    }

    ghost predicate Idle(at: int)
      reads m`ins_h, m`strstart, m`lookahead, m`insert, m`text, m`base, m`ins, m`top, m`block_start
      reads `next_out, m.window, m.head, m.prev, e, e.Repr()
    {
      Apart() && Open() && m.Good() && Parsed(at)
    }

    lemma Width(at: int)
      requires Idle(at)
      ensures m.Sizes() && m.window.Length <= 65536
    {
    }

    lemma PoisedWidth(at: int)
      requires Poised(at)
      ensures m.Sizes() && m.window.Length <= 65536
    {
    }

    lemma IdleParts(at: int)
      requires Idle(at)
      ensures Apart() && Open() && Busy() && m.Good() && Parsed(at) && m.Ahead() && Left() >= 0 && m.Sizes()
    {
      hide Kept, Stands, Encoder.Valid, Matcher.Chained, Matcher.Holds;
    }

    /** All blocks have been sent, and they stand for all of the text. */
    ghost predicate AllSent()
      reads `next_out, m`text, m`lookahead, e, e.Repr()
    {
      e.Valid() && Kept() && m.lookahead == 0 && e.toks == [] && AllSensible(e.log) && Text(e.log) == m.text
    }

    ghost predicate Finished()
      reads `next_out, m`text, m`lookahead, e, e.Repr()
    {
      Apart() && AllSent() && e.ended && e.log != [] && LogNear(e.log, m.MaxDist())
    }

    /** Nothing is gone over twice, and towards the end of the stream a call for more room has got somewhere. */
    twostate predicate Forward(new bs: BlockState, flush: nat)
      reads m`base, m`strstart
    {
      At() >= old(At()) && (bs.NeedMore? && flush == Z_FINISH ==> At() > old(At()))
    }

    /** With lazy matching the byte before strstart may still be undecided. */
    ghost function Deferred(): int
      reads `match_available
    {
      if match_available then 1 else 0
    }

    /** Why a strategy returns, and what holds then. */
    ghost predicate Returned(bs: BlockState, flush: nat)
      reads `avail_out, `next_out, `match_available, m`ins_h, m`strstart, m`lookahead, m`insert, m`text, m`base, m`ins, m`top
      reads m`block_start, m`next_in, m.window, m.head, m.prev, e, e.Repr()
    {
      hide Idle, Finished, AllSent, Encoder.Repr;
      match bs
      case NeedMore =>
        Idle(At() - Deferred()) && (avail_out == 0 || (flush == Z_NO_FLUSH && m.next_in == [] && m.lookahead < MIN_LOOKAHEAD))
      case BlockDone => Idle(At()) && AllSent() && m.next_in == [] && flush != Z_FINISH && m.block_start == m.strstart && !match_available
      case FinishStarted => Finished() && m.next_in == [] && avail_out == 0 && flush == Z_FINISH
      case FinishDone => Finished() && m.next_in == [] && next_out == e.w.pending && flush == Z_FINISH
    }

    /** fill_window(s) */
    method Fill(ghost at: int)
      requires Idle(at) && m.lookahead < MIN_LOOKAHEAD
      modifies m, m.window, m.head, m.prev
      ensures Idle(at) && m.SamePlace() && m.strstart + MIN_LOOKAHEAD <= m.window.Length
      ensures m.lookahead >= MIN_LOOKAHEAD || m.next_in == []
      ensures m.prev_length == old(m.prev_length) && m.insert <= old(m.insert)
      ensures old(m.strstart) >= 1 ==> m.strstart >= 1
    {
      hide Kept, Stands, Encoder.Valid, Matcher.Good;
      ghost var t := m.text;
      m.FillWindow();
      StandsGrow(e.log, e.toks, t, m.text, m.base + m.block_start, at, m.MaxDist());
    }

    /** Make sure that there is enough lookahead, except at the end of the input. */
    method Lookahead(enough: nat, flush: nat, ghost at: int) returns (supply: Supply)
      requires Idle(at) && 1 <= enough <= MIN_LOOKAHEAD
      modifies m, m.window, m.head, m.prev
      ensures Idle(at) && At() == old(At()) && SameInput() && m.insert <= old(m.insert) && m.prev_length == old(m.prev_length)
      ensures m.base + m.match_start == old(m.base + m.match_start) && m.strstart - m.block_start == old(m.strstart - m.block_start)
      ensures old(m.strstart) >= 1 ==> m.strstart >= 1
      ensures supply == Dry ==> flush == Z_NO_FLUSH && m.lookahead < enough && m.next_in == []
      ensures supply == Out ==> m.lookahead == 0 && m.next_in == [] && m.strstart + MIN_LOOKAHEAD <= m.window.Length
      ensures supply == Ample ==> m.lookahead >= 1 && m.strstart + enough <= m.window.Length
    {
      hide Kept, Idle, Poised, Moved, Open, Busy, Parsed, Apart, Better, MatchBefore, PriorMatch, Stands, Encoder.Valid,
        Encoder.Repr, Matcher.Good, Matcher.Inserted, Matcher.Holds, Matcher.Ahead, Matcher.Chained, Matcher.Sizes,
        Matcher.Agree, Matcher.Candidate, Matcher.Repr;
      IdleParts(at);
      m.Bounds();
      if m.lookahead < enough {
        Fill(at);
        if m.lookahead < enough && flush == Z_NO_FLUSH {
          return Dry;
        }
        if m.lookahead == 0 {
          return Out;
        }
      }
      supply := Ample;
    }

    /** FLUSH_BLOCK(s, 0), if the block has become full */
    method FlushIfFull(bflush: bool) returns (leave: bool)
      requires Moved(bflush)
      requires m.block_start >= 0 ==> m.strstart - m.block_start <= 65535
      modifies e.Repr(), m`block_start, `avail_out, `next_out
      ensures Idle(At()) && (leave ==> avail_out == 0)
      ensures (e.toks == old(e.toks) && m.block_start == old(m.block_start)) || (e.toks == [] && m.block_start == m.strstart)
      ensures m.strstart == old(m.strstart) && m.base == old(m.base) && m.prev_length == old(m.prev_length)
      ensures m.match_start == old(m.match_start)
      ensures match_length == old(match_length) && match_available == old(match_available)
      ensures GivenMore()
    {
      hide Kept, Stands, Encoder.Parts, Encoder.Counted, Encoder.Logged, Matcher.Chained, Matcher.Holds;
      leave := false;
      if bflush {
        FlushBlock(false);
        leave := avail_out == 0;
      }
    }

    /** The end of every strategy: the last block is sent. */
    method EndBlocks(flush: nat) returns (bs: BlockState)
      requires Apart() && Busy() && m.Good() && Parsed(At()) && m.lookahead == 0 && m.next_in == []
      requires (m.block_start >= 0 ==> m.strstart - m.block_start <= 65535) && !match_available
      modifies e.Repr(), m`block_start, `avail_out, `next_out
      ensures Returned(bs, flush) && (flush == Z_FINISH ==> !bs.NeedMore?)
      ensures (e.toks == old(e.toks) && m.block_start == old(m.block_start)) || (e.toks == [] && m.block_start == m.strstart)
      ensures GivenMore()
    {
      hide Kept, Stands, Encoder.Parts, Encoder.Counted, Encoder.Logged, Matcher.Chained, Matcher.Holds, AllSensible, Text, Expand;
      EndOfText();
      if flush == Z_FINISH {
        FlushBlock(true);
        bs := if avail_out == 0 then FinishStarted else FinishDone;
      } else if e.last_lit != 0 {
        FlushBlock(false);
        bs := if avail_out == 0 then NeedMore else BlockDone;
      } else {
        bs := BlockDone;
        NothingLeft();
        NotFull();
      }
    }

    lemma EndOfText()
      requires m.Good() && m.lookahead == 0
      ensures m.Holds() && m.Ahead() && m.text == m.text[..At()]
    {
      hide Matcher.Chained, Matcher.Holds;
    }

    lemma NothingLeft()
      requires e.Valid() && e.last_lit == 0 && Parsed(At()) && m.Ahead() && m.lookahead == 0
      ensures e.toks == [] && AllSensible(e.log) && Text(e.log) == m.text && m.block_start == m.strstart
    {
      hide Encoder.Parts, Encoder.Counted, Encoder.Logged;
      assert m.text[..At()] == m.text;
      assert |m.text[..m.base + m.block_start]| == |m.text|;
    }

    /** What is left for the next call, and the last blocks. */
    method LastBlocks(flush: nat, n: nat) returns (bs: BlockState)
      requires Idle(At()) && m.lookahead == 0 && m.next_in == [] && !match_available && m.strstart + MIN_LOOKAHEAD <= m.window.Length
      requires n <= m.strstart && n <= 2
      modifies e.Repr(), m`insert, m`block_start, `avail_out, `next_out
      ensures Returned(bs, flush) && m.insert == n && (flush == Z_FINISH ==> !bs.NeedMore?)
      ensures (e.toks == old(e.toks) && m.block_start == old(m.block_start)) || (e.toks == [] && m.block_start == m.strstart)
      ensures GivenMore()
    {
      hide Kept, Stands, Encoder.Valid, Matcher.Good, Idle, Open, Busy, Parsed, Returned, Matcher.Ahead;
      IdleParts(At());
      m.SetInsert(n);
      bs := EndBlocks(flush);
    }

    lemma Waits(flush: nat)
      requires Idle(At() - Deferred())
      requires avail_out == 0 || (flush == Z_NO_FLUSH && m.next_in == [] && m.lookahead < MIN_LOOKAHEAD)
      ensures Returned(NeedMore, flush)
    {
      hide Kept, Idle;
    }

    /** The string at strstart has been inserted. */
    ghost predicate Poised(at: int)
      reads m`ins_h, m`strstart, m`lookahead, m`insert, m`text, m`base, m`ins, m`top, m`block_start
      reads `next_out, m.window, m.head, m.prev, e, e.Repr()
    {
      Apart() && Open() && m.Inserted() && Parsed(at)
    }

    /** A token has been tallied and strstart has moved behind it. */
    ghost predicate Moved(bflush: bool)
      reads m`ins_h, m`strstart, m`lookahead, m`insert, m`text, m`base, m`ins, m`top, m`block_start
      reads `next_out, m.window, m.head, m.prev, e, e.Repr()
    {
      Apart() && Busy() && (bflush || Open()) && m.Good() && Parsed(At())
    }

    lemma PoisedParts(at: int)
      requires Poised(at)
      ensures Apart() && Open() && m.Inserted() && Parsed(at) && m.Sizes() && m.Holds() && m.Ahead()
    {
      hide Kept, Stands, Encoder.Valid, Matcher.Chained, Matcher.Holds;
    }

    lemma Distinct()
      requires Apart()
      ensures this !in e.Repr() && m !in e.Repr() && m.window !in e.Repr() && m.head !in e.Repr() && m.prev !in e.Repr()
      ensures e in e.Repr() && m.Sizes() && m.window.Length <= 65536
    {
    }

    lemma HasMoved(bflush: bool)
      requires Apart() && Busy() && (bflush || Open()) && m.Good() && Parsed(At())
      ensures Moved(bflush)
    {
      hide Kept, Open, Busy, Parsed, Apart, Matcher.Good;
    }

    /* ---------- deflate_huff ---------- */

    /** As long as there are only literals the block has as many bytes as tokens. */
    ghost predicate ByteTokens()
      reads m`strstart, m`block_start, e`toks
    {
      m.strstart - m.block_start == |e.toks|
    }

    /** The token for a step of n bytes from index i on: a match with the string at index start, or a literal. */
    ghost function TokenFor(i: int, n: nat, start: int): (t: Token)
      reads m`text, m`base
    {
      if n >= MIN_MATCH && i > start then Token.Match(n, i - start)
      else if 0 <= m.base + i < |m.text| then Literal(m.text[m.base + i]) else Literal(0)
    }

    /** It has been tallied. */
    twostate predicate Tallied(new i: int, new n: nat, new start: int)
      reads m`text, m`base, e`toks
    {
      e.toks == old(e.toks) + [old(TokenFor(i, n, start))]
    }

    /** A literal when the hash table is not used. */
    method PlainLiteral() returns (bflush: bool)
      requires Idle(At()) && !m.hashing && m.lookahead >= 1
      modifies e.Repr(), m`strstart, m`lookahead
      ensures Moved(bflush) && m.strstart == old(m.strstart) + 1 && Tallied(old(m.strstart), 1, 0)
      ensures next_out == old(next_out) && avail_out == old(avail_out) && match_length == old(match_length)
    {
      hide Kept, Idle, Poised, Moved, Open, Busy, Parsed, Apart, Stands, SameBytes, Encoder.Valid,
        Matcher.Good, Matcher.Inserted, Matcher.Holds, Matcher.Chained, Matcher.Sizes, Matcher.Repr;
      IdleParts(At());
      Distinct();
      m.Bounds();
      bflush := TallyLiteral(m.strstart);
      m.Pass(1);
      HasMoved(bflush);
    }

    /** The match when the hash table is not used. */
    method PlainMatch() returns (bflush: bool)
      requires Idle(At()) && !m.hashing && MIN_MATCH <= match_length <= MAX_MATCH && Runs()
      modifies e.Repr(), m`strstart, m`lookahead, `match_length
      ensures Moved(bflush) && m.strstart == old(m.strstart) + old(match_length) && match_length == 0
      ensures next_out == old(next_out) && avail_out == old(avail_out)
      ensures e.toks == old(e.toks) + [Token.Match(old(match_length), 1)]
    {
      hide Kept, Idle, Poised, Moved, Open, Busy, Parsed, Apart, Stands, SameBytes, Encoder.Valid,
        Matcher.Good, Matcher.Inserted, Matcher.Holds, Matcher.Ahead, Matcher.Chained, Matcher.Repr;
      IdleParts(At());
      Distinct();
      bflush := TallyMatch(m.strstart, m.strstart - 1, match_length);
      m.Pass(match_length);
      match_length := 0;
      HasMoved(bflush);
    }

    /** match_length bytes at strstart repeat the byte in front of them. */
    ghost predicate Runs()
      reads `match_length, m`text, m`base, m`strstart, m`lookahead
    {
      match_length <= m.lookahead && m.strstart >= 1
      && SameBytes(m.text, m.base + m.strstart, m.base + m.strstart - 1, match_length)
    }

    method FindRun()
      requires Idle(At()) && m.strstart + MAX_MATCH < m.window.Length
      modifies `match_length
      ensures Idle(At()) && (match_length >= MIN_MATCH ==> match_length <= MAX_MATCH && Runs())
      ensures m.RunsUpTo(match_length)
    {
      hide Kept, Idle, SameBytes, Matcher.Good, Matcher.Chained, Encoder.Valid;
      Separated(At());
      IdleParts(At());
      m.Bounds();
      match_length := m.Run();
    }

    lemma FewBytes(bflush: bool)
      requires Moved(bflush) && ByteTokens()
      ensures m.strstart - m.block_start <= 65535
    {
      hide Kept, Parsed, Matcher.Good, Encoder.Apart, Encoder.Counted, Encoder.Logged, Buffered, Encoder.Repr;
    }

    /** Output a literal byte. */
    method HuffStep() returns (leave: bool)
      requires Idle(At()) && !m.hashing && ByteTokens() && m.lookahead >= 1
      modifies e.Repr(), m`strstart, m`lookahead, m`block_start, `avail_out, `next_out
      ensures Idle(At()) && ByteTokens() && (leave ==> avail_out == 0) && m.strstart == old(m.strstart) + 1
      ensures GivenMore()
    {
      hide Idle, Moved, Apart;
      Separated(At());
      var bflush := PlainLiteral();
      FewBytes(bflush);
      leave := FlushIfFull(bflush);
    }

    lemma Separated(at: int)
      requires Idle(at)
      ensures this !in e.Repr() && m !in e.Repr()
    {
      hide Kept, Parsed, Open, Matcher.Good, Matcher.Sizes;
    }

    method DeflateHuff(flush: nat) returns (bs: BlockState)
      requires Idle(At()) && !m.hashing && m.insert == 0 && ByteTokens() && !match_available
      modifies `match_length, `prev_match, `match_available, `avail_out, `next_out, m, m.Repr(), e.Repr()
      ensures SameInput() && Returned(bs, flush) && m.insert == 0 && ByteTokens() && !match_available
      ensures GivenMore() && Forward(bs, flush)
    {
      hide Kept, Stands, Encoder.Valid, Matcher.Good, AllSensible, Text, Idle, Open, Parsed, AllSent, Returned, Matcher.Ahead;
      while true
        invariant Idle(At()) && m.insert == 0 && ByteTokens() && SameInput() && GivenMore() && !match_available && At() >= old(At())
        decreases Left()
      {
        IdleParts(At());
        var supply := Lookahead(1, flush, At());
        if supply == Dry {
          Waits(flush);
          return NeedMore;
        } else if supply == Out {
          break;
        }
        match_length := 0;
        var leave := HuffStep();
        if leave {
          Waits(flush);
          return NeedMore;
        }
      }
      bs := LastBlocks(flush, 0);
    }

    /* ---------- deflate_rle ---------- */

    /** Emit a match of distance one if there is a run of MIN_MATCH or longer, or else a literal. */
    method RleToken() returns (bflush: bool, ghost n: nat)
      requires Idle(At()) && !m.hashing && m.lookahead >= 1 && m.strstart + MAX_MATCH < m.window.Length
      modifies e.Repr(), m`strstart, m`lookahead, `match_length
      ensures Moved(bflush) && n <= MAX_MATCH && m.strstart == old(m.strstart) + if n >= MIN_MATCH then n else 1
      ensures next_out == old(next_out) && avail_out == old(avail_out)
      ensures old(m.RunsUpTo(n)) && Tallied(old(m.strstart), n, old(m.strstart) - 1)
    {
      hide Idle, Moved, Apart, Runs, Matcher.RunsUpTo;
      FindRun();
      n := match_length;
      if match_length >= MIN_MATCH {
        bflush := PlainMatch();
      } else {
        bflush := PlainLiteral();
      }
    }

    /** Take the longest run, if there is one, or else a literal. */
    method RleStep() returns (leave: bool, ghost n: nat)
      requires Idle(At()) && !m.hashing && m.lookahead >= 1 && m.strstart + MAX_MATCH < m.window.Length
      modifies e.Repr(), m`strstart, m`lookahead, m`block_start, `match_length, `avail_out, `next_out
      ensures Idle(At()) && (leave ==> avail_out == 0) && m.strstart == old(m.strstart) + if n >= MIN_MATCH then n else 1
      ensures old(m.RunsUpTo(n)) && (Tallied(old(m.strstart), n, old(m.strstart) - 1) || e.toks == [])
      ensures GivenMore()
    {
      hide Kept, Idle, Poised, Moved, Open, Busy, Parsed, Apart, Better, MatchBefore, PriorMatch, Stands, Encoder.Valid,
        Encoder.Repr, Matcher.Good, Matcher.Inserted, Matcher.Holds, Matcher.Ahead, Matcher.Chained, Matcher.Sizes,
        Matcher.Agree, Matcher.Candidate, Matcher.Repr, Matcher.RunsUpTo, TokenFor;
      Width(At());
      var bflush;
      bflush, n := RleToken();
      leave := FlushIfFull(bflush);
    }

    method DeflateRle(flush: nat) returns (bs: BlockState)
      requires Idle(At()) && !m.hashing && m.insert == 0 && !match_available
      modifies `match_length, `prev_match, `match_available, `avail_out, `next_out, m, m.Repr(), e.Repr()
      ensures SameInput() && Returned(bs, flush) && m.insert == 0 && !match_available
      ensures GivenMore() && Forward(bs, flush)
    {
      hide Kept, Stands, Encoder.Valid, Matcher.Good, AllSensible, Text, Idle, Open, Parsed, AllSent, Returned, Matcher.Ahead;
      while true
        invariant Idle(At()) && m.insert == 0 && SameInput() && GivenMore() && !match_available && At() >= old(At())
        decreases Left()
      {
        IdleParts(At());
        var supply := Lookahead(MAX_MATCH + 1, flush, At());
        if supply == Dry {
          Waits(flush);
          return NeedMore;
        } else if supply == Out {
          break;
        }
        ghost var n;
        var leave;
        leave, n := RleStep();
        if leave {
          Waits(flush);
          return NeedMore;
        }
      }
      bs := LastBlocks(flush, 0);
    }

    /* ---------- deflate_fast ---------- */

    lemma Reachable(at: int)
      requires Poised(at)
      ensures m.Sizes() && m.Holds() && m.Ahead() && m.Chained() && m.top <= m.base + m.strstart + 1
    {
      hide Kept, Stands, Encoder.Valid, Matcher.Chained, Matcher.Holds;
    }

    /** Insert the string at strstart, if it has MIN_MATCH bytes, and find the head of its hash chain. */
    method Insert(ghost at: int) returns (hash_head: nat)
      requires Idle(at) && m.hashing
      modifies m`ins_h, m`ins, m`top, m.head, m.prev
      ensures Poised(at) && m.First(hash_head)
      ensures m.ins == old(m.ins) + if m.lookahead >= MIN_MATCH then {m.base + m.strstart} else {}
      ensures hash_head != NIL && m.strstart - hash_head <= m.MaxDist() ==> m.Candidate(hash_head) && m.lookahead >= MIN_MATCH
    {
      hide Kept, Stands, Encoder.Valid, Matcher.Good, Matcher.Inserted, Matcher.Candidate, Open, Matcher.Holds, Matcher.First;
      hash_head := m.InsertHere();
    }

    /** The match at strstart that has been found, if it is better than the previous one. */
    ghost predicate Better()
      reads `match_length, m`prev_length, m`match_start, m`strstart, m`lookahead, m`text, m`base
    {
      && m.Sizes() && MIN_MATCH - 1 <= match_length <= MAX_MATCH
      && (match_length >= MIN_MATCH && match_length > m.prev_length ==>
            m.Agree(m.match_start, match_length) && m.strstart - m.match_start <= m.MaxDist() && match_length <= m.lookahead)
    }

    method LongestHere(hash_head: nat, ghost at: int)
      requires Poised(at) && m.Candidate(hash_head) && m.First(hash_head) && m.lookahead >= MIN_MATCH
      requires m.strstart + MIN_LOOKAHEAD <= m.window.Length && MIN_MATCH - 1 <= m.prev_length <= MAX_MATCH
      modifies m`match_start, `match_length
      ensures Better() && Poised(at) && m.Longest(m.prev_length, match_length)
    {
      hide Kept, Stands, Encoder.Valid, Matcher.Good, Matcher.Chained, Matcher.Holds, Matcher.Candidate, Matcher.Agree, SameBytes,
        Matcher.Sizes, Matcher.Ahead, Matcher.Inserted, Open, Parsed, Matcher.First, Matcher.Longest;
      PoisedParts(at);
      Reachable(at);
      match_length := m.LongestMatch(hash_head);
    }

    /** Insert the string at strstart, and find the longest match. */
    method Find() returns (ghost n: nat)
      requires Idle(At()) && m.hashing && m.lookahead >= 1 && m.strstart + MIN_LOOKAHEAD <= m.window.Length
      requires match_length < MIN_MATCH && m.prev_length == MIN_MATCH - 1
      modifies m`match_start, m`ins_h, m`ins, m`top, m.head, m.prev, `match_length
      ensures Poised(At()) && match_length <= MAX_MATCH
      ensures match_length >= MIN_MATCH ==> m.Agree(m.match_start, match_length) && m.strstart - m.match_start <= m.MaxDist()
      ensures match_length >= MIN_MATCH ==> match_length <= m.lookahead
      ensures n == match_length && old(m.Longest(m.prev_length, n))
    {
      hide Idle, Poised, Apart, Encoder.Repr, Matcher.Repr, Matcher.Candidate, Matcher.Agree, Matcher.First, Matcher.LongestAmong, Matcher.Sizes;
      Width(At());
      ghost var ins := m.ins;
      var hash_head := Insert(At());
      if hash_head != NIL && m.strstart - hash_head <= m.MaxDist() {
        LongestHere(hash_head, At());
      } else {
        m.NoneInReach(hash_head, m.prev_length, match_length);
      }
      m.LongestBefore(ins, m.prev_length, match_length);
      n := match_length;
    }

    /** Output the match; its strings are inserted only if it is not too long. */
    method FastMatch() returns (bflush: bool)
      requires Poised(At()) && m.hashing && MIN_MATCH <= match_length <= MAX_MATCH && m.strstart + MIN_LOOKAHEAD <= m.window.Length
      requires m.Agree(m.match_start, match_length) && m.strstart - m.match_start <= m.MaxDist() && match_length <= m.lookahead
      modifies e.Repr(), m`strstart, m`lookahead, m`ins_h, m`ins, m`top, m.head, m.prev, `match_length
      ensures Moved(bflush) && m.strstart == old(m.strstart) + old(match_length) && match_length == 0
      ensures next_out == old(next_out) && avail_out == old(avail_out)
      ensures Tallied(old(m.strstart), old(match_length), m.match_start)
      ensures m.ins == if old(match_length <= max_lazy && m.lookahead - match_length >= MIN_MATCH)
        then WithAll(old(m.ins), old(At()) + 1, At()) else old(m.ins)
    {
      hide Kept, Idle, Poised, Moved, Open, Busy, Parsed, Apart, Stands, SameBytes, Matcher.Agree, WithAll, Encoder.Valid,
        Matcher.Good, Matcher.Inserted, Matcher.Holds, Matcher.Ahead, Matcher.Chained, Matcher.Sizes, Matcher.Repr;
      PoisedParts(At());
      Distinct();
      AgreeIs();
      bflush := TallyMatch(m.strstart, m.match_start, match_length);
      if match_length <= max_lazy && m.lookahead - match_length >= MIN_MATCH {
        m.InsertMatch(match_length);
      } else {
        m.JumpMatch(match_length);
      }
      match_length := 0;
      HasMoved(bflush);
    }

    lemma AgreeIs()
      requires m.Sizes() && m.Agree(m.match_start, match_length) && m.strstart - m.match_start <= m.MaxDist() && match_length <= m.lookahead
      ensures 0 <= m.base + m.match_start && 1 <= m.strstart - m.match_start
      ensures SameBytes(m.text, m.base + m.strstart, m.base + m.match_start, match_length)
    {
      hide SameBytes;
    }

    /** No match, output a literal byte. */
    method FastLiteral() returns (bflush: bool)
      requires Poised(At()) && m.lookahead >= 1
      modifies e.Repr(), m`strstart, m`lookahead
      ensures Moved(bflush) && m.strstart == old(m.strstart) + 1 && match_length == old(match_length)
      ensures next_out == old(next_out) && avail_out == old(avail_out) && Tallied(old(m.strstart), 1, 0)
    {
      hide Kept, Idle, Poised, Moved, Open, Busy, Parsed, Apart, Stands, SameBytes, Encoder.Valid,
        Matcher.Good, Matcher.Inserted, Matcher.Holds, Matcher.Chained, Matcher.Sizes, Matcher.Repr;
      PoisedParts(At());
      Distinct();
      bflush := TallyLiteral(m.strstart);
      m.Next();
      HasMoved(bflush);
    }

    /** Take the longest match at strstart, if there is one, or else a literal. */
    method FastToken() returns (bflush: bool, ghost n: nat)
      requires Idle(At()) && m.hashing && m.lookahead >= 1 && m.strstart + MIN_LOOKAHEAD <= m.window.Length
      requires match_length < MIN_MATCH && m.prev_length == MIN_MATCH - 1
      modifies e.Repr(), m`strstart, m`lookahead, m`match_start, m`ins_h, m`ins, m`top, m.head, m.prev, `match_length
      ensures Moved(bflush) && n <= MAX_MATCH && m.strstart == old(m.strstart) + (if n >= MIN_MATCH then n else 1) && match_length < MIN_MATCH
      ensures next_out == old(next_out) && avail_out == old(avail_out)
      ensures old(m.Longest(MIN_MATCH - 1, n)) && Tallied(old(m.strstart), n, m.match_start)
    {
      hide Kept, Idle, Poised, Moved, Open, Busy, Parsed, Apart, Better, MatchBefore, PriorMatch, Stands, Encoder.Valid,
        Encoder.Repr, Matcher.Good, Matcher.Inserted, Matcher.Holds, Matcher.Ahead, Matcher.Chained, Matcher.Sizes,
        Matcher.Agree, Matcher.Candidate, Matcher.Repr, Matcher.Longest;
      n := Find();
      if match_length >= MIN_MATCH {
        bflush := FastMatch();
      } else {
        bflush := FastLiteral();
      }
    }

    /** No match on offer is longer than the one that is taken, unless that is good enough. */
    method FastStep() returns (leave: bool, ghost n: nat)
      requires Idle(At()) && m.hashing && m.lookahead >= 1 && m.strstart + MIN_LOOKAHEAD <= m.window.Length
      requires match_length < MIN_MATCH && m.prev_length == MIN_MATCH - 1
      modifies e.Repr(), m`strstart, m`lookahead, m`block_start, m`match_start, m`ins_h, m`ins, m`top, m.head, m.prev
      modifies `match_length, `avail_out, `next_out
      ensures Idle(At()) && (leave ==> avail_out == 0) && match_length < MIN_MATCH
      ensures m.strstart == old(m.strstart) + if n >= MIN_MATCH then n else 1
      ensures old(m.Longest(MIN_MATCH - 1, n)) && (Tallied(old(m.strstart), n, m.match_start) || e.toks == [])
      ensures GivenMore()
    {
      hide Kept, Idle, Poised, Moved, Open, Busy, Parsed, Apart, Better, MatchBefore, PriorMatch, Stands, Encoder.Valid,
        Encoder.Repr, Matcher.Good, Matcher.Inserted, Matcher.Holds, Matcher.Ahead, Matcher.Chained, Matcher.Sizes,
        Matcher.Agree, Matcher.Candidate, Matcher.Repr, Matcher.Longest, TokenFor;
      Width(At());
      var bflush;
      bflush, n := FastToken();
      leave := FlushIfFull(bflush);
    }

    method DeflateFast(flush: nat) returns (bs: BlockState)
      requires Idle(At()) && m.hashing && !match_available && match_length < MIN_MATCH && m.prev_length == MIN_MATCH - 1
      modifies `match_length, `prev_match, `match_available, `avail_out, `next_out, m, m.Repr(), e.Repr()
      ensures SameInput() && Returned(bs, flush) && !match_available
      ensures match_length < MIN_MATCH && m.prev_length == MIN_MATCH - 1
      ensures GivenMore() && Forward(bs, flush)
    {
      hide Kept, Stands, Encoder.Valid, Matcher.Good, AllSensible, Text, Idle, Open, Parsed, AllSent, Returned, Matcher.Ahead;
      while true
        invariant Idle(At()) && SameInput() && GivenMore() && !match_available && At() >= old(At())
        invariant match_length < MIN_MATCH && m.prev_length == MIN_MATCH - 1
        decreases Left()
      {
        IdleParts(At());
        var supply := Lookahead(MIN_LOOKAHEAD, flush, At());
        if supply == Dry {
          Waits(flush);
          return NeedMore;
        } else if supply == Out {
          break;
        }
        ghost var n;
        var leave;
        leave, n := FastStep();
        if leave {
          Waits(flush);
          return NeedMore;
        }
      }
      bs := LastBlocks(flush, if m.strstart < MIN_MATCH - 1 then m.strstart else MIN_MATCH - 1);
    }

    /* ---------- deflate_slow ---------- */

    /** A match found at the previous position, of length len at index start, is a true one. */
    ghost predicate MatchBefore(len: nat, start: int)
      reads m`text, m`base, m`strstart
    {
      m.Sizes() && 1 <= m.strstart && PriorMatch(m.text, m.base + m.strstart, m.base + start, len, m.MaxDist())
    }

    /** What is known of the previous position between the steps of lazy matching. */
    ghost predicate Pending()
      reads `match_length, `match_available, m`match_start, m`text, m`base, m`strstart
    {
      && MIN_MATCH - 1 <= match_length <= MAX_MATCH && (match_available ==> m.strstart >= 1)
      && (match_length >= MIN_MATCH ==> match_available && MatchBefore(match_length, m.match_start))
    }

    /**
     Where the window is about to slide by w_size a pending match begins at w_size - 1 or later; it is
     in front of the window afterwards exactly if it begins there, that is if it is as far back as a
     match can be and strstart is the first index at which the window slides.
     */
    lemma PendingInFront()
      requires m.Sizes() && Pending() && match_length >= MIN_MATCH && m.strstart >= m.w_size + m.MaxDist()
      ensures m.match_start - m.w_size >= -1
      ensures m.match_start - m.w_size < 0 <==> m.strstart == m.w_size + m.MaxDist() && m.strstart - 1 - m.match_start == m.MaxDist()
    {
    }

    /** What is known of the previous match. */
    ghost predicate Earlier()
      reads `match_available, `prev_match, m`prev_length, m`text, m`base, m`strstart
    {
      && MIN_MATCH - 1 <= m.prev_length <= MAX_MATCH && (match_available ==> m.strstart >= 1)
      && (m.prev_length >= MIN_MATCH ==> match_available && MatchBefore(m.prev_length, prev_match))
    }

    lemma EarlierIs(len: nat, start: int)
      requires m.prev_length == len && prev_match == start && MIN_MATCH - 1 <= len <= MAX_MATCH && (match_available ==> m.strstart >= 1)
      requires len >= MIN_MATCH ==> match_available && MatchBefore(len, start)
      ensures Earlier()
    {
      hide MatchBefore;
    }

    /** What is left of a match of length len at index i: a short one is not worth taking if it is far away. */
    function Worth(len: nat, i: nat, start: int): (n: nat) {
      if len <= 5 && (e.strategy == Z_FILTERED || (len == MIN_MATCH && Unsigned(i - Unsigned(start)) > TOO_FAR)) then MIN_MATCH - 1
      else len
    }

    /** The longest match, unless it is not worth taking. */
    method LazySearch(hash_head: nat) returns (ghost n: nat)
      requires Poised(At() - Deferred()) && m.Candidate(hash_head) && m.First(hash_head) && m.lookahead >= MIN_MATCH
      requires m.strstart + MIN_LOOKAHEAD <= m.window.Length && MIN_MATCH - 1 <= m.prev_length <= MAX_MATCH
      modifies m`match_start, `match_length
      ensures Better() && Poised(At() - Deferred()) && m.Longest(m.prev_length, n) && match_length == Worth(n, m.strstart, m.match_start)
    {
      hide Poised, Apart, Open, Parsed, Matcher.Candidate, Matcher.Agree, Matcher.Sizes, Matcher.MaxDist, Matcher.Inserted,
        Matcher.Holds, Matcher.Ahead, Matcher.First, Matcher.Longest;
      LongestHere(hash_head, At() - Deferred());
      n := match_length;
      PoisedParts(At() - Deferred());
      Distinct();
      if match_length <= 5 && (e.strategy == Z_FILTERED
          || (match_length == MIN_MATCH && Unsigned(m.strstart - Unsigned(m.match_start)) > TOO_FAR)) {
        match_length := MIN_MATCH - 1;
      }
    }

    /** The match of the previous position becomes the previous match. */
    method Shelve(ghost at: int)
      requires Poised(at) && Pending()
      modifies m`prev_length, `match_length, `prev_match
      ensures Poised(at) && Better() && Earlier() && MIN_MATCH - 1 <= m.prev_length <= MAX_MATCH
      ensures m.prev_length == old(match_length) && prev_match == m.match_start && match_length == MIN_MATCH - 1
    {
      hide Poised, Apart, Encoder.Repr, Open, Parsed, Matcher.Inserted, Matcher.Agree, MatchBefore, Earlier;
      PoisedParts(at);
      Distinct();
      m.prev_length, prev_match := match_length, m.match_start;
      match_length := MIN_MATCH - 1;
      EarlierIs(m.prev_length, prev_match);
    }

    /** Insert the string at strstart; the match of the previous position becomes the previous match. */
    method InsertLazily() returns (hash_head: nat)
      requires Idle(At() - Deferred()) && Pending() && m.hashing
      modifies m`prev_length, m`ins_h, m`ins, m`top, m.head, m.prev, `match_length, `prev_match
      ensures Poised(At() - Deferred()) && Better() && Earlier() && MIN_MATCH - 1 <= m.prev_length <= MAX_MATCH
      ensures hash_head != NIL && m.strstart - hash_head <= m.MaxDist() ==> m.Candidate(hash_head) && m.lookahead >= MIN_MATCH
      ensures m.First(hash_head) && m.ins == old(m.ins) + if m.lookahead >= MIN_MATCH then {m.base + m.strstart} else {}
      ensures m.prev_length == old(match_length) && prev_match == m.match_start && match_length == MIN_MATCH - 1
    {
      hide Idle, Poised, Apart, Encoder.Repr, Open, Parsed, Matcher.Inserted, Matcher.Sizes, Matcher.Candidate, Matcher.Agree,
        Better, MatchBefore, Earlier, Matcher.First, Pending;
      Width(At() - Deferred());
      hash_head := Insert(At() - Deferred());
      Shelve(At() - Deferred());
    }

    /** Look for a match better than the previous one, unless that is long enough. */
    method SearchLazily(hash_head: nat) returns (ghost n: nat)
      requires Poised(At() - Deferred()) && Better() && Earlier() && m.First(hash_head) && match_length == MIN_MATCH - 1
      requires hash_head != NIL && m.strstart - hash_head <= m.MaxDist() ==> m.Candidate(hash_head) && m.lookahead >= MIN_MATCH
      requires m.strstart + MIN_LOOKAHEAD <= m.window.Length && MIN_MATCH - 1 <= m.prev_length <= MAX_MATCH
      modifies m`match_start, `match_length
      ensures Poised(At() - Deferred()) && Better() && Earlier()
      ensures if m.prev_length < max_lazy then m.Longest(m.prev_length, n) && match_length == Worth(n, m.strstart, m.match_start)
              else match_length == MIN_MATCH - 1
    {
      hide Poised, Better, Earlier, Matcher.Candidate, Matcher.Sizes, Matcher.First, Matcher.Longest;
      PoisedWidth(At() - Deferred());
      n := match_length;
      if hash_head != NIL && m.prev_length < max_lazy && m.strstart - hash_head <= m.MaxDist() {
        n := LazySearch(hash_head);
      } else if m.prev_length < max_lazy {
        m.NoneInReach(hash_head, m.prev_length, n);
      }
    }

    /** Insert the string at strstart and look for a match better than the previous one. */
    method FindLazily() returns (ghost n: nat)
      requires Idle(At() - Deferred()) && Pending() && m.hashing
      requires m.strstart + MIN_LOOKAHEAD <= m.window.Length
      modifies m`match_start, m`prev_length, m`ins_h, m`ins, m`top, m.head, m.prev, `match_length, `prev_match
      ensures Poised(At() - Deferred()) && Better() && Earlier()
      ensures m.prev_length == old(match_length) && prev_match == old(m.match_start)
      ensures if old(match_length) < max_lazy then old(m.Longest(match_length, n)) && match_length == Worth(n, m.strstart, m.match_start)
              else match_length == MIN_MATCH - 1
    {
      hide Idle, Poised, Pending, Better, Earlier, Matcher.Candidate, Matcher.Sizes, Matcher.First, Matcher.LongestAmong, Worth;
      ghost var ins := m.ins;
      var hash_head := InsertLazily();
      n := SearchLazily(hash_head);
      if m.prev_length < max_lazy {
        m.LongestBefore(ins, m.prev_length, n);
      }
    }

    /** The current match is not better: output the previous one. */
    method SlowMatch() returns (bflush: bool)
      requires Poised(At() - 1) && m.hashing && MIN_MATCH <= m.prev_length && MatchBefore(m.prev_length, prev_match)
      modifies e.Repr(), m`strstart, m`lookahead, m`prev_length, m`ins_h, m`ins, m`top, m.head, m.prev
      modifies `match_length, `match_available
      ensures Moved(bflush) && m.strstart == old(m.strstart) + old(m.prev_length) - 1
      ensures Tallied(old(m.strstart) - 1, old(m.prev_length), old(prev_match)) && m.match_start == old(m.match_start)
      ensures !match_available && match_length == MIN_MATCH - 1
      ensures next_out == old(next_out) && avail_out == old(avail_out)
    {
      hide Kept, Idle, Stands, Encoder.Valid, Matcher.Good, Matcher.Chained, Matcher.Holds, SameBytes, PriorMatch, Matcher.Sizes,
        Open, Parsed;
      PoisedParts(At() - 1);
      Distinct();
      BeforeIs(m.prev_length, prev_match);
      bflush := TallyMatch(m.strstart - 1, prev_match, m.prev_length);
      m.InsertDeferred();
      match_available := false;
      match_length := MIN_MATCH - 1;
    }

    lemma BeforeIs(len: nat, start: int)
      requires MatchBefore(len, start) && m.Ahead()
      ensures m.Sizes() && m.strstart >= 1 && len <= MAX_MATCH && 0 <= m.base + start && 1 <= m.strstart - 1 - start <= m.MaxDist()
      ensures SameBytes(m.text, m.base + m.strstart - 1, m.base + start, len) && len <= m.lookahead + 1
    {
    }

    lemma WithinText(len: nat, start: int)
      requires MatchBefore(len, start) && m.Ahead()
      ensures len <= m.lookahead + 1
    {
    }

    /** No match at the previous position, or a better one now: output a single literal. */
    method SlowLiteral()
      requires Poised(At() - 1) && m.lookahead >= 1 && m.strstart >= 1
      requires m.block_start >= 0 ==> m.strstart - m.block_start <= 65535
      modifies e.Repr(), m`strstart, m`lookahead, m`block_start, `avail_out, `next_out
      ensures Idle(At() - 1) && m.strstart == old(m.strstart) + 1 && m.base == old(m.base) && m.text == old(m.text)
      ensures m.match_start == old(m.match_start) && match_length == old(match_length)
      ensures match_available == old(match_available)
      ensures GivenMore() && (e.toks == [] || Tallied(old(m.strstart) - 1, 1, 0))
    {
      hide Kept, Stands, Encoder.Valid, Matcher.Good, Matcher.Chained;
      var bflush := TallyLiteral(m.strstart - 1);
      if bflush {
        FlushBlock(false);
      }
      m.Next();
    }

    /** There is no previous match to compare with, wait for the next step to decide. */
    method SlowWait()
      requires Poised(At()) && m.lookahead >= 1
      modifies m`strstart, m`lookahead, `match_available
      ensures Idle(At() - 1) && m.strstart == old(m.strstart) + 1 && match_available
    {
      hide Kept, Stands, Encoder.Valid, Matcher.Good, Matcher.Chained, Matcher.Holds;
      match_available := true;
      m.Next();
    }

    /** More text, and the window possibly moved. */
    lemma StillPending(t: seq<Byte>)
      requires m.Sizes() && t <= m.text && MIN_MATCH - 1 <= match_length <= MAX_MATCH && (match_available ==> m.strstart >= 1)
      requires match_length >= MIN_MATCH ==>
        match_available && PriorMatch(t, m.base + m.strstart, m.base + m.match_start, match_length, m.MaxDist())
      ensures Pending()
    {
    }

    /** The last literal, if it is still undecided. */
    method LastLiteral()
      requires Idle(At() - Deferred()) && Pending() && m.lookahead == 0
      modifies e.Repr(), `match_available
      ensures Apart() && Busy() && m.Good() && Parsed(At()) && Pending() && !match_available
    {
      hide Kept, Stands, Encoder.Valid, Matcher.Good, Matcher.Chained, SameBytes;
      m.Bounds();
      if match_length >= MIN_MATCH {
        WithinText(match_length, m.match_start);
      }
      if match_available {
        var bflush := TallyLiteral(m.strstart - 1);
        match_available := false;
      }
    }

    /**
     What follows from the length of the previous match, its start, and the length of the match at
     strstart: if that is not better the previous match is taken, and otherwise the byte in front is
     a literal, if it is still undecided, and the match at strstart is kept.
     */
    twostate predicate Chosen(new previous: nat, new start: int, new better: nat)
      reads `match_length, `match_available, m`strstart, m`text, m`base, e`toks
    {
      if previous >= MIN_MATCH && better <= previous then
        m.strstart == old(m.strstart) + previous - 1 && !match_available && match_length == MIN_MATCH - 1
        && (e.toks == [] || Tallied(old(m.strstart) - 1, previous, start))
      else
        m.strstart == old(m.strstart) + 1 && match_available && match_length == better
        && (e.toks == [] || if old(match_available) then Tallied(old(m.strstart) - 1, 1, 0) else e.toks == old(e.toks))
    }

    /** There is no previous match, or the current one is longer. */
    method SlowOnward()
      requires Poised(At() - Deferred()) && Better() && m.lookahead >= 1 && (match_available ==> m.strstart >= 1)
      requires m.strstart + MIN_LOOKAHEAD <= m.window.Length && (m.prev_length < MIN_MATCH || match_length > m.prev_length)
      modifies e.Repr(), m`strstart, m`lookahead, m`block_start, `match_available, `avail_out, `next_out
      ensures Idle(At() - Deferred()) && Pending() && Chosen(old(m.prev_length), old(prev_match), old(match_length))
      ensures GivenMore() && m.match_start == old(m.match_start)
    {
      hide Kept, Idle, Poised, Moved, Open, Busy, Parsed, Apart, Better, MatchBefore, PriorMatch, Stands, Encoder.Valid,
        Encoder.Repr, Matcher.Good, Matcher.Inserted, Matcher.Holds, Matcher.Ahead, Matcher.Chained, Matcher.Sizes,
        Matcher.Agree, Matcher.Candidate, Matcher.Repr;
      PoisedWidth(At() - Deferred());
      BetterIs();
      if match_available {
        SlowLiteral();
      } else {
        SlowWait();
      }
      StillPending(m.text);
    }

    lemma BetterIs()
      requires Better() && (m.prev_length < MIN_MATCH || match_length > m.prev_length)
      ensures MIN_MATCH - 1 <= match_length <= MAX_MATCH
      ensures match_length >= MIN_MATCH ==>
        PriorMatch(m.text, m.base + m.strstart + 1, m.base + m.match_start, match_length, m.MaxDist())
    {
    }

    /** The previous match is taken, and the block sent if it is full. */
    method SlowTake() returns (leave: bool)
      requires Poised(At() - 1) && m.hashing && MIN_MATCH <= m.prev_length && MatchBefore(m.prev_length, prev_match)
      requires m.strstart + MIN_LOOKAHEAD <= m.window.Length && m.prev_length <= MAX_MATCH
      modifies e.Repr(), m`strstart, m`lookahead, m`block_start, m`prev_length, m`ins_h, m`ins, m`top, m.head, m.prev
      modifies `match_length, `match_available, `avail_out, `next_out
      ensures Idle(At() - Deferred()) && Pending() && (leave ==> avail_out == 0) && m.strstart > old(m.strstart)
      ensures GivenMore() && !match_available && match_length == MIN_MATCH - 1 && m.strstart == old(m.strstart) + old(m.prev_length) - 1
      ensures (e.toks == [] || Tallied(old(m.strstart) - 1, old(m.prev_length), old(prev_match))) && m.match_start == old(m.match_start)
    {
      hide Kept, Idle, Poised, Moved, Open, Busy, Parsed, Apart, Better, MatchBefore, PriorMatch, Stands, Encoder.Valid,
        Encoder.Repr, Matcher.Good, Matcher.Inserted, Matcher.Holds, Matcher.Ahead, Matcher.Chained, Matcher.Sizes,
        Matcher.Agree, Matcher.Candidate, Matcher.Repr, TokenFor;
      PoisedWidth(At() - 1);
      var bflush := SlowMatch();
      leave := FlushIfFull(bflush);
    }

    /** Take the previous match or go on. */
    method SlowChoose() returns (leave: bool)
      requires Poised(At() - Deferred()) && Better() && Earlier() && m.hashing && m.lookahead >= 1
      requires m.strstart + MIN_LOOKAHEAD <= m.window.Length
      modifies e.Repr(), m`strstart, m`lookahead, m`block_start, m`prev_length, m`ins_h, m`ins, m`top
      modifies m.head, m.prev, `match_length, `match_available, `avail_out, `next_out
      ensures Idle(At() - Deferred()) && Pending() && (leave ==> avail_out == 0) && m.strstart > old(m.strstart)
      ensures GivenMore() && Chosen(old(m.prev_length), old(prev_match), old(match_length)) && m.match_start == old(m.match_start)
    {
      hide Kept, Idle, Poised, Moved, Open, Busy, Parsed, Apart, Better, MatchBefore, PriorMatch, Stands, Encoder.Valid,
        Encoder.Repr, Matcher.Good, Matcher.Inserted, Matcher.Holds, Matcher.Ahead, Matcher.Chained, Matcher.Sizes,
        Matcher.Agree, Matcher.Candidate, Matcher.Repr, TokenFor;
      BetterRange();
      if m.prev_length >= MIN_MATCH && match_length <= m.prev_length {
        leave := SlowTake();
      } else {
        var literal := match_available;
        SlowOnward();
        leave := literal && avail_out == 0;
      }
    }

    /** A match is taken only if none at the next position is better, unless it is so long that none is looked for. */
    method SlowStep() returns (leave: bool, ghost n: nat)
      requires Idle(At() - Deferred()) && Pending() && m.hashing && m.lookahead >= 1
      requires m.strstart + MIN_LOOKAHEAD <= m.window.Length
      modifies e.Repr(), m`strstart, m`lookahead, m`block_start, m`match_start, m`prev_length, m`ins_h, m`ins, m`top
      modifies m.head, m.prev, `match_length, `match_available, `prev_match, `avail_out, `next_out
      ensures Idle(At() - Deferred()) && Pending() && (leave ==> avail_out == 0) && m.strstart > old(m.strstart)
      ensures GivenMore() && (old(match_length) < max_lazy ==> old(m.Longest(match_length, n)))
      ensures Chosen(old(match_length), old(m.match_start),
        if old(match_length) < max_lazy then Worth(n, old(m.strstart), m.match_start) else MIN_MATCH - 1)
    {
      hide Kept, Idle, Poised, Pending, Better, Earlier, Encoder.Repr, Matcher.Sizes, Matcher.Repr, Matcher.Longest;
      n := FindLazily();
      leave := SlowChoose();
    }

    lemma BetterRange()
      requires Better()
      ensures MIN_MATCH - 1 <= match_length <= MAX_MATCH
    {
    }

    method SlowLookahead(flush: nat) returns (supply: Supply)
      requires Idle(At() - Deferred()) && Pending()
      modifies m, m.window, m.head, m.prev
      ensures Idle(At() - Deferred()) && Pending() && At() == old(At()) && SameInput()
      ensures supply == Dry ==> flush == Z_NO_FLUSH && m.lookahead < MIN_LOOKAHEAD && m.next_in == []
      ensures supply == Out ==> m.lookahead == 0 && m.next_in == [] && m.strstart + MIN_LOOKAHEAD <= m.window.Length
      ensures supply == Ample ==> m.lookahead >= 1 && m.strstart + MIN_LOOKAHEAD <= m.window.Length
    {
      hide Kept, Stands, Encoder.Valid, Matcher.Good, Idle, Open, Parsed, PriorMatch, Matcher.Ahead;
      ghost var t, at := m.text, At() - Deferred();
      Width(at);
      assert Pending();
      supply := Lookahead(MIN_LOOKAHEAD, flush, at);
      StillPending(t);
    }

    /** The strings at the end could not be inserted, for want of a third byte. */
    method KeepLast()
      requires Apart() && Busy() && m.Good() && Parsed(At()) && Pending() && m.lookahead == 0
      modifies m`insert
      ensures Apart() && Busy() && m.Good() && Parsed(At()) && Pending()
    {
      hide Kept, Busy, Stands, Matcher.Good, Parsed, Pending;
      m.SetInsert(if m.strstart < MIN_MATCH - 1 then m.strstart else MIN_MATCH - 1);
    }

    /** The last literal, and what is left for the next call. */
    method SlowLast()
      requires Idle(At() - Deferred()) && Pending() && m.lookahead == 0
      modifies e.Repr(), `match_available, m`insert
      ensures Apart() && Busy() && m.Good() && Parsed(At()) && Pending() && !match_available
      ensures next_out == old(next_out) && avail_out == old(avail_out)
    {
      hide Kept, Idle, Open, Busy, Stands, Matcher.Good, Parsed, Pending, Encoder.Valid;
      Separated(At() - Deferred());
      LastLiteral();
      KeepLast();
    }

    /** The last literal and the last block. */
    method SlowEnd(flush: nat) returns (bs: BlockState)
      requires Idle(At() - Deferred()) && Pending() && m.lookahead == 0 && m.next_in == []
      requires m.strstart + MIN_LOOKAHEAD <= m.window.Length
      modifies e.Repr(), `match_available, m`insert, m`block_start, `avail_out, `next_out
      ensures Returned(bs, flush) && Pending() && GivenMore() && m.text == old(m.text) && m.next_in == old(m.next_in)
      ensures flush == Z_FINISH ==> !bs.NeedMore?
    {
      hide Kept, Stands, Encoder.Valid, Matcher.Good, AllSensible, Text, Idle, Open, Busy, Parsed, AllSent, Returned, Pending, Matcher.Ahead;
      ghost var at := At() - Deferred();
      Width(at);
      SlowLast();
      bs := EndBlocks(flush);
    }

    method DeflateSlow(flush: nat) returns (bs: BlockState)
      requires Idle(At() - Deferred()) && Pending() && m.hashing
      modifies `match_length, `prev_match, `match_available, `avail_out, `next_out, m, m.Repr(), e.Repr()
      ensures SameInput() && Returned(bs, flush) && Pending()
      ensures GivenMore() && Forward(bs, flush)
    {
      hide Kept, Stands, Encoder.Valid, Matcher.Good, AllSensible, Text, Idle, Open, Parsed, AllSent, Returned, Pending, Matcher.Ahead;
      while true
        invariant Idle(At() - Deferred()) && SameInput() && GivenMore() && Pending() && At() >= old(At())
        decreases Left()
      {
        IdleParts(At() - Deferred());
        var supply := SlowLookahead(flush);
        if supply == Dry {
          Waits(flush);
          return NeedMore;
        } else if supply == Out {
          break;
        }
        ghost var n;
        var leave;
        leave, n := SlowStep();
        if leave {
          Waits(flush);
          return NeedMore;
        }
      }
      bs := SlowEnd(flush);
    }

    /* ---------- deflate ---------- */

    /** What holds between calls, for the function that the strategy and the level select. */
    ghost predicate Steady()
      reads `match_length, `match_available, `prev_match, `finished, `next_out, m, m.Repr(), e, e.Repr()
    {
      hide Idle, Pending, ByteTokens, Encoder.Repr;
      if e.strategy == Z_HUFFMAN_ONLY then
        Idle(At()) && !m.hashing && m.insert == 0 && ByteTokens() && !match_available
      else if e.strategy == Z_RLE then
        Idle(At()) && !m.hashing && m.insert == 0 && !match_available
      else if e.level <= 3 then
        Idle(At()) && m.hashing && !match_available && match_length < MIN_MATCH && m.prev_length == MIN_MATCH - 1
      else
        Idle(At() - Deferred()) && Pending() && m.hashing
    }

    ghost predicate Valid()
      reads `match_length, `match_available, `prev_match, `finished, `next_out, m, m.Repr(), e, e.Repr()
    {
      if finished then Finished() else Steady()
    }

    /** strm->next_in, strm->avail_in and strm->avail_out */
    method Supplied(input: seq<Byte>, room: nat)
      requires Valid()
      modifies m`next_in, `avail_out
      ensures Valid() && m.next_in == input && avail_out == room
    {
      hide Kept, Stands, Encoder.Valid, Matcher.Good, AllSensible, Text, LogNear, PriorMatch;
      m.next_in := input;
      avail_out := room;
    }

    /** The compression function for the strategy and the level. */
    method Compress(flush: nat) returns (bs: BlockState)
      requires Steady() && !finished
      modifies `match_length, `prev_match, `match_available, `avail_out, `next_out, m, m.Repr(), e.Repr()
      ensures SameInput() && Returned(bs, flush)
      ensures bs.NeedMore? || bs.BlockDone? ==> Steady()
      ensures finished == old(finished) && last_flush == old(last_flush)
      ensures GivenMore() && Forward(bs, flush)
    {
      hide Kept, Idle, Finished, AllSent;
      if e.strategy == Z_HUFFMAN_ONLY {
        bs := DeflateHuff(flush);
      } else if e.strategy == Z_RLE {
        bs := DeflateRle(flush);
      } else if e.level <= 3 {
        bs := DeflateFast(flush);
      } else {
        bs := DeflateSlow(flush);
      }
    }

    /** A flush has ended the block at the end of the text. */
    ghost predicate BlockOver()
      reads m`ins_h, m`strstart, m`lookahead, m`insert, m`text, m`base, m`ins, m`top, m`block_start
      reads `next_out, m.window, m.head, m.prev, e, e.Repr()
    {
      Idle(At()) && e.toks == [] && m.lookahead == 0 && m.block_start == m.strstart
    }

    /** An empty block may follow. */
    lemma RoomForEmpty(b: Block)
      requires BlockOver() && (b == StaticAs([]) || b == StoredAs([]))
      ensures Apart() && m.Good() && e.Valid() && !e.ended && e.toks == [] && m.lookahead == 0 && m.block_start == m.strstart
      ensures AllSound(e.log) && BytesBits(next_out) <= StreamBits(e.log, false)
      ensures m.Sizes() && Stands(e.log + [b], [], m.text, m.base + m.block_start, At(), m.MaxDist())
    {
      hide Encoder.Valid, Matcher.Good, Stands, StreamBits, AllSound;
      KeptNow();
      StandsEmpty(e.log, m.text, m.base + m.block_start, At(), m.MaxDist(), b);
    }

    /** It has been sent. */
    lemma EmptySent(log: seq<Block>, b: Block)
      requires Apart() && m.Good() && e.Valid() && !e.ended && e.toks == [] && m.lookahead == 0 && m.block_start == m.strstart
      requires AllSound(log) && BytesBits(next_out) <= StreamBits(log, false) && e.log == log + [b]
      requires m.Sizes() && Stands(e.log, [], m.text, m.base + m.block_start, At(), m.MaxDist())
      ensures BlockOver()
    {
      hide Encoder.Valid, Matcher.Good, Stands, StreamBits, AllSound, Kept;
      StillKept(log, b);
      NotFull();
    }

    method MarkPartial()
      requires BlockOver()
      modifies e.w, e`log
      ensures BlockOver() && e.log == old(e.log) + [StaticAs([])]
    {
      hide Kept, BlockOver, Encoder.Valid, Matcher.Good, Stands, StreamBits, AllSound, BytesBits;
      RoomForEmpty(StaticAs([]));
      ghost var log := e.log;
      e.Align();
      EmptySent(log, StaticAs([]));
    }

    method MarkStored()
      requires BlockOver()
      modifies e.w, e`log
      ensures BlockOver() && e.w.bi_valid == 0 && e.log == old(e.log) + [StoredAs([])]
    {
      hide Kept, BlockOver, Encoder.Valid, Matcher.Good, Stands, StreamBits, AllSound, BytesBits;
      RoomForEmpty(StoredAs([]));
      ghost var log := e.log;
      e.TrStoredBlock([]);
      EmptySent(log, StoredAs([]));
    }

    /** Matches will not reach back across this point. */
    method ForgetHistory()
      requires BlockOver()
      modifies m.head, m`ins, m`strstart, m`block_start, m`insert, m`base
      ensures BlockOver() && m.ins == {} && m.insert == 0
    {
      hide Kept, Stands, Encoder.Valid, Matcher.Chained, Matcher.Holds;
      m.ClearHash();
      if m.lookahead == 0 {
        m.Restart();
      }
    }

    /** The mark that follows a flushed block, and with Z_FULL_FLUSH no string that a match could go back to. */
    ghost predicate Marked(flush: nat)
      reads m`ins, e`log
    {
      && (flush == Z_PARTIAL_FLUSH ==> e.log != [] && e.log[|e.log| - 1] == StaticAs([]))
      && (flush == Z_SYNC_FLUSH || flush == Z_FULL_FLUSH ==> e.log != [] && e.log[|e.log| - 1] == StoredAs([]))
      && (flush == Z_FULL_FLUSH ==> m.ins == {})
    }

    /** After a block that a flush has ended: what makes the flush known to inflate. */
    method MarkFlush(flush: nat)
      requires BlockOver()
      modifies e.w, e`log, m.head, m`ins, m`strstart, m`block_start, m`insert, m`base
      ensures BlockOver() && (m.insert == 0 || m.insert == old(m.insert))
      ensures flush == Z_SYNC_FLUSH || flush == Z_FULL_FLUSH ==> e.w.bi_valid == 0
      ensures Marked(flush) && (flush == Z_BLOCK ==> e.log == old(e.log)) && (flush != Z_FULL_FLUSH ==> m.ins == old(m.ins))
    {
      hide BlockOver, Encoder.Repr, Matcher.Repr;
      if flush == Z_PARTIAL_FLUSH {
        MarkPartial();
      } else if flush != Z_BLOCK {
        MarkStored();
        if flush == Z_FULL_FLUSH {
          ForgetHistory();
        }
      }
    }

    /** Whatever the strategy keeps besides what every strategy keeps, after the end of a block. */
    ghost predicate Settled(insert: nat)
      reads `match_length, `match_available, m`prev_length
    {
      && !match_available
      && if e.strategy == Z_HUFFMAN_ONLY || e.strategy == Z_RLE then !m.hashing && insert == 0
         else m.hashing && match_length < MIN_MATCH && if e.level <= 3 then m.prev_length == MIN_MATCH - 1 else match_length == MIN_MATCH - 1
    }

    lemma SteadySettles()
      requires Steady() && !match_available
      ensures Settled(m.insert)
    {
      hide Kept, Idle;
    }

    lemma SettledSteady(insert: nat)
      requires Settled(insert) && BlockOver() && (m.insert == 0 || m.insert == insert)
      ensures Steady()
    {
      hide Kept, Idle, AllSensible, Text, Encoder.Repr, Encoder.Valid;
      NothingPending(insert);
    }

    lemma NothingPending(insert: nat)
      requires Settled(insert)
      ensures e.strategy != Z_HUFFMAN_ONLY && e.strategy != Z_RLE && e.level > 3 ==> Pending()
    {
    }

    /** flush_pending between blocks */
    method FlushSome()
      requires Valid()
      modifies e.w, `avail_out, `next_out
      ensures Valid() && next_out <= e.w.pending && (avail_out > 0 ==> next_out == e.w.pending) && GivenMore()
      ensures old(e.w.bi_valid) == 0 ==> e.w.bi_valid == 0 && e.w.pending == old(e.w.pending)
    {
      hide Kept, Stands, Encoder.Valid, Matcher.Good, AllSensible, Text, LogNear, PriorMatch;
      FlushPending();
    }

    /** flush_pending after the block that a flush has ended. */
    method FlushOver()
      requires BlockOver()
      modifies e.w, `avail_out, `next_out
      ensures BlockOver() && GivenMore() && e.log == old(e.log)
      ensures old(e.w.bi_valid) == 0 && avail_out > 0 ==> Synced()
    {
      hide Kept, Stands, Encoder.Valid, Matcher.Good, AllSensible, Text, LogNear, PriorMatch;
      SaidAll();
      FlushPending();
      NotFull();
    }

    lemma SaidAll()
      requires BlockOver()
      ensures AllSent()
    {
      hide Kept, Encoder.Valid, Matcher.Chained, Matcher.Holds;
      StandsFacts(e.log, e.toks, m.text, m.base + m.block_start, At(), m.MaxDist());
      assert m.text[..At()] == m.text;
    }

    /** Everything has come out, up to a byte boundary. */
    ghost predicate Synced()
      reads `next_out, m`text, m`lookahead, e, e.Repr()
    {
      AllSent() && e.w.bi_valid == 0 && next_out == e.w.pending
    }

    /** What follows a block that a flush has ended. */
    method EndFlush(flush: nat)
      requires Steady() && !finished && BlockOver() && !match_available
      modifies e.w, e`log, m.head, m`ins, m`strstart, m`block_start, m`insert, m`base, `avail_out, `next_out
      ensures Steady() && GivenMore()
      ensures Marked(flush) && ((flush == Z_SYNC_FLUSH || flush == Z_FULL_FLUSH) && avail_out > 0 ==> Synced())
    {
      hide Kept, BlockOver, Steady, Synced, Settled;
      SteadySettles();
      ghost var insert := m.insert;
      MarkFlush(flush);
      FlushOver();
      SettledSteady(insert);
    }

    /** Every level of compression has a function, and every flush value ends a call as it should. */
    method Work(flush: nat) returns (bs: BlockState)
      requires Valid() && !finished
      modifies this, m, m.Repr(), e.Repr()
      ensures Valid() && SameInput() && GivenMore() && last_flush == old(last_flush) && (finished <==> bs.FinishStarted? || bs.FinishDone?)
      ensures Ended(bs, flush) && (flush == Z_FINISH ==> Forward(bs, flush))
      ensures finished ==> flush == Z_FINISH
    {
      hide Kept, Idle, Finished, AllSent, Steady, Synced;
      bs := Compress(flush);
      match bs {
        case NeedMore =>
        case FinishStarted => finished := true;
        case FinishDone => finished := true;
        case BlockDone =>
          BlockIsDone(flush);
          EndFlush(flush);
      }
    }

    /** What each kind of return means for the caller. */
    ghost predicate Ended(bs: BlockState, flush: nat)
      reads `avail_out, `next_out, m`next_in, m`text, m`lookahead, m`ins, e, e.Repr()
    {
      match bs
      case NeedMore => avail_out == 0 || (flush == Z_NO_FLUSH && m.next_in == [])
      case BlockDone =>
        flush != Z_FINISH && m.next_in == [] && Marked(flush)
        && ((flush == Z_SYNC_FLUSH || flush == Z_FULL_FLUSH) && avail_out > 0 ==> Synced())
      case FinishStarted => m.next_in == [] && avail_out == 0
      case FinishDone => m.next_in == [] && next_out == e.w.pending && flush == Z_FINISH
    }

    lemma BlockIsDone(flush: nat)
      requires Returned(BlockDone, flush)
      ensures BlockOver() && !match_available && flush != Z_FINISH
    {
      hide Kept, Idle, AllSensible, Text, Encoder.Valid;
    }

    method SetLastFlush(flush: int)
      requires Valid()
      modifies `last_flush
      ensures Valid() && last_flush == flush
    {
      hide Kept, Steady, Finished, Valid, Matcher.Sizes;
      Separate();
      last_flush := flush;
    }

    lemma Separate()
      requires Valid()
      ensures this !in m.Repr() && this !in e.Repr()
    {
      hide Kept, AllSent, Encoder.Valid, Matcher.Good, Parsed, Pending, Encoder.Repr, Matcher.Repr;
    }

    lemma SteadyParts()
      requires Steady()
      ensures e.Valid() && Kept() && !e.ended && AllSensible(e.log) && Text(e.log) <= m.text
    {
      hide Kept, Encoder.Valid, Matcher.Good, Pending, AllSensible, Text, Expand, LogNear, Near;
    }

    lemma NothingWaiting()
      requires Finished() && |e.w.pending| <= |next_out|
      ensures next_out == e.w.pending
    {
      hide Encoder.Parts, Encoder.Counted, Encoder.Held, AllSensible, Text, LogNear;
      OutputSoFar();
    }

    lemma WholeBytes()
      requires Valid() && finished
      ensures e.w.bi_valid == 0
    {
      hide Kept, Encoder.Parts, Encoder.Counted, Encoder.Held, AllSensible, Text, LogNear, StreamBits, AllSound;
    }

    /** Start a new block or continue the current one. */
    method Proceed(flush: nat) returns (ret: int)
      requires Valid() && avail_out > 0 && (finished ==> m.next_in == [] && flush == Z_FINISH && next_out == e.w.pending)
      modifies this, m, m.Repr(), e.Repr()
      ensures Valid() && SameInput() && GivenMore() && Done(ret, flush) && (flush == Z_FINISH ==> Nearer(ret))
      ensures old(finished) ==> finished && m.text == old(m.text) && e.log == old(e.log) && e.ended == old(e.ended)
      ensures last_flush == if ret == Z_OK && avail_out == 0 then -1 else old(last_flush)
      ensures finished && !old(finished) ==> flush == Z_FINISH && m.next_in == []
    {
      hide Kept, Steady, Finished, AllSent;
      if m.next_in != [] || m.lookahead != 0 || (flush != Z_NO_FLUSH && !finished) {
        NoLookahead();
        var bs := Work(flush);
        if bs.NeedMore? || bs.FinishStarted? || avail_out == 0 {
          if avail_out == 0 {
            SetLastFlush(-1);
          }
          return Z_OK;
        }
      }
      ret := if flush != Z_FINISH then Z_OK else Z_STREAM_END;
    }

    /** What the result says about a call that had something to do. */
    ghost predicate Done(ret: int, flush: nat)
      reads `avail_out, `next_out, `finished, m`next_in, m`text, m`lookahead, m`ins, e, e.Repr()
    {
      && (ret == Z_OK || ret == Z_STREAM_END)
      && (ret == Z_STREAM_END <==> flush == Z_FINISH && avail_out > 0)
      && (ret == Z_STREAM_END ==> finished && m.next_in == [] && next_out == e.w.pending)
      && (ret == Z_OK && avail_out > 0 ==> m.next_in == [])
      && (ret == Z_OK && avail_out > 0 ==> Marked(flush))
      && (ret == Z_OK && avail_out > 0 && (flush == Z_SYNC_FLUSH || flush == Z_FULL_FLUSH) ==> Synced())
    }

    /** A call with Z_FINISH that has to be repeated has gone on in the text, sent the last block, or only put out more. */
    twostate predicate Nearer(new ret: int)
      reads m`base, m`strstart, `finished, e`log, e`ended
    {
      ret == Z_OK ==>
        || At() > old(At())
        || (At() == old(At()) && (finished && !old(finished)))
        || (At() == old(At()) && finished == old(finished) && e.log == old(e.log) && e.ended == old(e.ended))
    }

    /** Output waits that there was no room for. */
    ghost function Waiting(): int
      reads `next_out, e.w`pending
    {
      |e.w.pending| - |next_out|
    }

    /** A call for which there is nothing to do: no room, a flush over again without any input, or input after the end. */
    ghost predicate Idling(input: seq<Byte>, room: nat, flush: nat)
      reads `finished, `last_flush, `next_out, e.w`pending
    {
      || room == 0
      || (Waiting() <= 0 && input == [] && Rank(flush) <= Rank(last_flush) && flush != Z_FINISH)
      || (finished && input != [] && Waiting() < room)
    }

    /**
     deflate(strm, flush) for a raw stream, with next_in, avail_in given by input and avail_out by
     room.  Input becomes text, and output is added to.  Z_OK with room left means that all input
     has been taken, and after a flush that blocks that stand for all of it have been put out up to
     a byte boundary; Z_STREAM_END means that the whole stream has been put out.
     */
    method Deflate(input: seq<Byte>, room: nat, flush: nat) returns (ret: int)
      requires Valid() && flush <= Z_BLOCK
      modifies this, m, m.Repr(), e.Repr()
      ensures Valid()
      ensures old(m.text) <= m.text && m.text + m.next_in == old(m.text) + input
      ensures old(next_out) <= next_out && |next_out| + avail_out == |old(next_out)| + room
      ensures ret == Z_STREAM_ERROR <==> old(finished) && flush != Z_FINISH
      ensures ret == Z_BUF_ERROR <==> ret != Z_STREAM_ERROR && old(Idling(input, room, flush))
      ensures ret == Z_STREAM_ERROR || ret == Z_BUF_ERROR || Done(ret, flush)
      ensures ret == Z_STREAM_ERROR || ret == Z_BUF_ERROR || old(finished) ==>
        m.text == old(m.text) && e.log == old(e.log) && e.ended == old(e.ended) && finished == old(finished)
      ensures finished && !old(finished) ==> flush == Z_FINISH && m.next_in == []
      ensures flush == Z_FINISH ==> Nearer(ret)
      ensures last_flush == if ret == Z_STREAM_ERROR || room == 0 then old(last_flush) else if ret == Z_OK && avail_out == 0 then -1 else flush
    {
      hide Kept, Steady, Finished, AllSent, Synced;
      Supplied(input, room);
      if finished && flush != Z_FINISH {
        return Z_STREAM_ERROR;
      }
      if avail_out == 0 {
        return Z_BUF_ERROR;
      }
      var old_flush := last_flush;
      SetLastFlush(flush);
      if finished {
        WholeBytes();
      }
      if |e.w.pending| > |next_out| {
        FlushSome();
        if avail_out == 0 {
          SetLastFlush(-1);
          return Z_OK;
        }
      } else if m.next_in == [] && Rank(flush) <= Rank(old_flush) && flush != Z_FINISH {
        return Z_BUF_ERROR;
      }
      if finished && m.next_in != [] {
        return Z_BUF_ERROR;
      }
      if finished {
        NothingWaiting();
      }
      ret := Proceed(flush);
    }

    /** The text that is still to be gone through. */
    ghost function ToTake(): int
      reads `finished, m`base, m`strstart, m`text, m`next_in
    {
      if finished then 0 else Left()
    }

    /** The bits that are still to be put out. */
    ghost function ToPutOut(): int
      reads `next_out, e`log, e`ended
    {
      if AllSound(e.log) then |StreamBits(e.log, e.ended)| - 8 * |next_out| else 0
    }

    lemma ToDo()
      requires Valid()
      ensures AllSound(e.log) && ToPutOut() >= 0 && ToTake() >= 0
    {
      hide AllSensible, Text, LogNear, Encoder.Valid, StreamBits, Pending, AllSound, Idle, BytesBits;
      if !finished {
        SteadyParts();
        IdleParts(At() - if e.strategy == Z_HUFFMAN_ONLY || e.strategy == Z_RLE || e.level <= 3 then 0 else Deferred());
      }
    }

    lemma SameRest(text: seq<Byte>, rest: seq<Byte>, input: seq<Byte>)
      requires text + rest == text + input
      ensures rest == input
    {
      assert rest == (text + rest)[|text|..];
    }

    /** The loop of gz_comp for Z_FINISH: with any room at all for each call, the stream gets to its end. */
    method Finish(input: seq<Byte>, room: nat) returns (ret: int)
      requires Valid() && room > 0
      modifies this, m, m.Repr(), e.Repr()
      ensures Valid() && finished && old(next_out) <= next_out
      ensures ret == Z_BUF_ERROR <==> old(finished) && input != []
      ensures ret == Z_STREAM_END <==> ret != Z_BUF_ERROR
      ensures ret == Z_STREAM_END ==> m.text == old(m.text) + input && next_out == e.w.pending
      ensures ret == Z_BUF_ERROR ==> m.text == old(m.text) && e.log == old(e.log)
    {
      hide Valid, StreamBits, AllSound, Matcher.Repr, Encoder.Repr;
      ret := Deflate(input, room, Z_FINISH);
      if old(finished) {
        SameRest(m.text, m.next_in, input);
      }
      while ret == Z_OK
        invariant Valid() && old(next_out) <= next_out && old(m.text) <= m.text && m.text + m.next_in == old(m.text) + input
        invariant ret == Z_OK || ret == Z_STREAM_END || ret == Z_BUF_ERROR
        invariant ret == Z_STREAM_END ==> finished && m.next_in == [] && next_out == e.w.pending
        invariant old(finished) ==> finished && m.next_in == input && e.log == old(e.log)
        invariant old(finished) && input != [] ==> ret != Z_STREAM_END
        invariant !old(finished) && finished ==> m.next_in == []
        invariant ret == Z_BUF_ERROR ==> old(finished) && input != []
        decreases ret == Z_OK, ToTake(), !finished, ToPutOut()
      {
        ToDo();
        ghost var text, rest := m.text, m.next_in;
        ret := Deflate(m.next_in, room, Z_FINISH);
        assert |m.text + m.next_in| == |text + rest|;
        if old(finished) {
          SameRest(text, m.next_in, rest);
        }
      }
    }

    lemma NoLookahead()
      requires Valid()
      ensures finished ==> m.lookahead == 0
    {
      hide Kept, Steady, AllSensible, Text;
    }

    lemma WindowBytes()
      requires m.Holds() && m.Ahead() && 0 <= m.block_start <= m.strstart
      ensures m.strstart <= m.window.Length
      ensures m.window[m.block_start..m.strstart] == m.text[m.base + m.block_start..m.base + m.strstart]
    {
    }

    lemma StandsFacts(log: seq<Block>, toks: seq<Token>, text: seq<Byte>, from: int, at: int, near: nat)
      requires Stands(log, toks, text, from, at, near)
      ensures LogNear(log, near) && Near(toks, near) && TokensFollow(log, toks) && from <= at <= |text| && Expand(Text(log), toks) == text[..at]
    {
    }
  }
}
