/** Blocks (libz_all/trees.c): collecting tokens, building the trees, and choosing how to send them. */
module Encoder {
  import opened Bits
  import opened Canonical
  import opened Alphabet
  import opened Lz77
  import opened InflateSpec
  import opened FixedCodes
  import opened RunLength
  import opened BlockSpec
  import opened BitWriter
  import opened GenCodes
  import opened StaticTables
  import opened TreeScan
  import opened ForcedCodes
  import opened Levels
  import opened TreeCosts
  import opened Tally
  import opened TreeFacts
  import opened CompressBlock
  import opened BuildTree
  import opened Blocks
  import opened Huffman
  import opened FreqWidth

  const Z_FIXED: nat := 4

  /** What a block is reckoned to take, in whole bytes; of a stored block its header is not counted. */
  ghost function Bytes(b: Block, last: bool): nat
    requires Sound(b)
  {
    if b.StoredAs? then |b.data| + 4 else (|BlockBits(0, b, last)| + 7) / 8
  }

  /**
   Of the ways to send a block, the bytes themselves if they are still there, the tokens with the
   fixed codes, and the tokens with codes of their own, this one takes the fewest bytes.  With
   only_fixed own codes are not allowed, though a stored block still has to be as short as they would be.
   */
  ghost predicate Cheapest(sent: Block, buf: Option<seq<Byte>>, fixed: Block, own: Block, last: bool, only_fixed: bool)
    requires Sound(sent) && Sound(fixed) && Sound(own)
  {
    && (sent == fixed || sent == own || (buf.Some? && sent == StoredAs(buf.value)))
    && Bytes(sent, last) <= Bytes(fixed, last)
    && (only_fixed ==> !sent.DynamicAs?)
    && (!only_fixed ==> Bytes(sent, last) <= Bytes(own, last))
    && (sent.StoredAs? <==> buf.Some? && |buf.value| + 4 <= Bytes(fixed, last) && |buf.value| + 4 <= Bytes(own, last))
    && (sent.DynamicAs? ==> Bytes(own, last) < Bytes(fixed, last))
  }

  /** A stored block from bit n on: its header, up to seven bits of filling, and the rest. */
  lemma StoredBits(n: nat, data: seq<Byte>, last: bool)
    requires Sound(StoredAs(data))
    ensures 8 * (|data| + 4) + 3 <= |BlockBits(n, StoredAs(data), last)| <= 8 * (|data| + 4) + 10
  {
  }

  lemma SamePlace(n: nat, b: Block, last: bool)
    requires Sound(b) && !b.StoredAs?
    ensures BlockBits(n, b, last) == BlockBits(0, b, last)
  {
  }

  /** Wherever the block begins, it takes no more than a few bits, for headers and filling, beyond the shortest way. */
  lemma NearlyShortest(n: nat, sent: Block, buf: Option<seq<Byte>>, fixed: Block, own: Block, last: bool, way: Block)
    requires Sound(sent) && Sound(fixed) && Sound(own) && fixed.StaticAs? && own.DynamicAs?
    requires Cheapest(sent, buf, fixed, own, last, false)
    requires Sound(way) && (way == fixed || way == own || (buf.Some? && way == StoredAs(buf.value)))
    ensures |BlockBits(n, sent, last)| <= |BlockBits(n, way, last)| + 17
  {
    hide BlockBits, Sound;
    if sent.StoredAs? {
      StoredBits(n, sent.data, last);
    } else {
      SamePlace(n, sent, last);
    }
    if way.StoredAs? {
      StoredBits(n, way.data, last);
    } else {
      SamePlace(n, way, last);
    }
  }

  class Encoder {
    const w: Writer
    const b: TreeBuilder
    const t: Tables
    const lfc: array<nat>
    const ldl: array<nat>
    const dfc: array<nat>
    const ddl: array<nat>
    const bfc: array<nat>
    const bdl: array<nat>
    const d_buf: array<nat>
    const l_buf: array<nat>
    const lit_bufsize: nat
    const level: nat
    const strategy: nat
    var last_lit: nat
    /** The tokens of the current block, and the blocks sent so far. */
    ghost var toks: seq<Token>
    ghost var log: seq<Block>
    ghost var ended: bool

    /** The arrays have their sizes and none is used twice. */
    ghost predicate Parts() {
      && t.Valid() && b.Shape(lfc, ldl, L_CODES) && b.Shape(dfc, ddl, D_CODES) && b.Shape(bfc, bdl, BL_CODES)
      && lfc != dfc && lfc != ddl && lfc != bfc && lfc != bdl && ldl != dfc && ldl != ddl && ldl != bfc && ldl != bdl
      && dfc != bfc && dfc != bdl && ddl != bfc && ddl != bdl
      && d_buf.Length == l_buf.Length == lit_bufsize && 2 <= lit_bufsize <= 32768 && d_buf != l_buf
      && Apart(d_buf) && Apart(l_buf)
    }

    ghost predicate Apart(a: array<nat>) {
      && a != lfc && a != ldl && a != dfc && a != ddl && a != bfc && a != bdl
      && a != b.heap && a != b.depth && a != b.bl_count
    }

    /** The frequencies are those of the tokens. */
    ghost predicate Counted()
      reads lfc, dfc, bfc, `toks, b`opt_len, b`static_len
    {
      && lfc.Length >= L_CODES && dfc.Length >= D_CODES && AllExpressible(toks)
      && lfc[..L_CODES] == LitFreq(toks) && dfc[..D_CODES] == DistFreq(toks)
      && (forall s :: 0 <= s < bfc.Length && s < BL_CODES ==> bfc[s] == 0)
      && b.opt_len == 0 && b.static_len == 0
    }

    ghost predicate Held()
      reads d_buf, l_buf, `toks, `last_lit
    {
      last_lit == |toks| < d_buf.Length && Buffered(d_buf[..], l_buf[..], toks)
    }

    /** What has been sent is the blocks in the log. */
    ghost predicate Logged()
      reads w, `log, `ended
    {
      w.Valid() && AllSound(log) && w.Sent() == StreamBits(log, ended) && (ended ==> w.bi_valid == 0)
    }

    ghost predicate Valid()
      reads this, w, b`opt_len, b`static_len, lfc, dfc, bfc, d_buf, l_buf
    {
      Parts() && Counted() && Held() && Logged()
    }

    ghost function Repr(): set<object> {
      {this, w, b, b.heap, b.depth, b.bl_count, lfc, ldl, dfc, ddl, bfc, bdl, d_buf, l_buf}
    }

    /** No weight in the trees of the current block needs more than 16 bits. */
    lemma CountersFit(f: seq<nat>, elems: nat)
      requires Valid() && elems <= |f| && (f[..elems] == Forced(LitFreq(toks)) || f[..elems] == Forced(DistFreq(toks)))
      ensures Weight(Leaves(f, elems), f) <= MAX_FREQ
    {
      hide Logged, Tables.Valid, BuildTree.TreeBuilder.Shape, Buffered, Apart;
      SixteenBits(toks, f, elems);
    }

    /** _tr_flush_bits */
    method FlushBits()
      requires Valid()
      modifies w
      ensures Valid() && w.bi_valid <= 7
      ensures old(w.bi_valid) == 0 ==> w.bi_valid == 0 && w.pending == old(w.pending)
    {
      hide Writer.Valid, Writer.Sent, StreamBits, AllSound, Parts, Counted, Held;
      w.BiFlush();
    }

    /** init_block: no tokens yet; the end-of-block code is always sent. */
    method InitBlock()
      requires Parts()
      modifies `last_lit, `toks, b`opt_len, b`static_len, lfc, dfc, bfc
      ensures Counted() && Held() && toks == [] && last_lit == 0
    {
      hide BuildTree.TreeBuilder.Shape, Tables.Valid;
      ShapeLengths();
      for n := 0 to L_CODES
        invariant forall i :: 0 <= i < n ==> lfc[i] == 0
      {
        lfc[n] := 0;
      }
      for n := 0 to D_CODES
        invariant forall i :: 0 <= i < n ==> dfc[i] == 0
        invariant forall i :: 0 <= i < L_CODES ==> lfc[i] == 0
      {
        dfc[n] := 0;
      }
      for n := 0 to BL_CODES
        invariant forall i :: 0 <= i < n ==> bfc[i] == 0
        invariant forall i :: 0 <= i < L_CODES ==> lfc[i] == 0
        invariant forall i :: 0 <= i < D_CODES ==> dfc[i] == 0
      {
        bfc[n] := 0;
      }
      lfc[END_BLOCK] := 1;
      b.opt_len, b.static_len := 0, 0;
      last_lit := 0;
      toks := [];
      FreqStart();
      assert lfc[..L_CODES] == seq(L_CODES, s => 0)[END_BLOCK := 1];
      assert dfc[..D_CODES] == seq(D_CODES, c => 0);
    }

    lemma ShapeLengths()
      requires Parts()
      ensures lfc.Length == ldl.Length == 573 && dfc.Length == ddl.Length == 61 && bfc.Length == bdl.Length == 39
    {
    }

    constructor (lit_bufsize: nat, level: nat, strategy: nat)
      requires 2 <= lit_bufsize <= 32768
      ensures Parts() && w.Valid() && w.Sent() == [] && fresh(Repr())
      ensures this.lit_bufsize == lit_bufsize && this.level == level && this.strategy == strategy
    {
      lfc, ldl, dfc, ddl := new nat[573], new nat[573], new nat[61], new nat[61];
      bfc, bdl := new nat[39], new nat[39];
      d_buf, l_buf := new nat[lit_bufsize], new nat[lit_bufsize];
      b := new TreeBuilder();
      t := new Tables();
      w := new Writer();
      this.lit_bufsize, this.level, this.strategy := lit_bufsize, level, strategy;
      new;
      hide Writer.Sent, Writer.Valid, Tables.Valid;
    }

    /** _tr_init: nothing has been sent. */
    static method TrInit(lit_bufsize: nat, level: nat, strategy: nat) returns (s: Encoder)
      requires 2 <= lit_bufsize <= 32768
      ensures fresh(s.Repr()) && s.Valid() && s.toks == [] && s.last_lit == 0 && s.log == [] && !s.ended
      ensures s.lit_bufsize == lit_bufsize && s.level == level && s.strategy == strategy
    {
      hide Encoder.Parts, Encoder.Valid, Writer.Sent, Writer.Valid;
      s := new Encoder(lit_bufsize, level, strategy);
      s.BeginStream();
    }

    method BeginStream()
      requires Parts() && w.Valid() && w.Sent() == []
      modifies `last_lit, `toks, `log, `ended, b`opt_len, b`static_len, lfc, dfc, bfc
      ensures Valid() && toks == [] && last_lit == 0 && log == [] && !ended
    {
      hide Counted, Held, Writer.Sent, Writer.Valid, Tables.Valid, BuildTree.TreeBuilder.Shape;
      NoBlocks();
      log, ended := [], false;
      InitBlock();
    }

    /** The token k goes into the buffers. */
    method Record(d: nat, l: nat, ghost k: Token)
      requires Held() && last_lit + 1 < d_buf.Length && d_buf != l_buf && Recorded(d, l, k)
      modifies d_buf, l_buf, `last_lit, `toks
      ensures Held() && toks == old(toks) + [k] && last_lit == old(last_lit) + 1
    {
      hide Recorded;
      BufferedSnoc(d_buf[..], l_buf[..], toks, k, d, l);
      ghost var ds, ls: seq<nat> := d_buf[..], l_buf[..];
      d_buf[last_lit] := d;
      l_buf[last_lit] := l;
      assert d_buf[..] == ds[|toks| := d] && l_buf[..] == ls[|toks| := l];
      last_lit := last_lit + 1;
      toks := toks + [k];
    }

    /** _tr_tally_lit: true when the block must be flushed. */
    method TallyLit(c: Byte) returns (flush: bool)
      requires Valid() && last_lit < lit_bufsize - 1
      modifies d_buf, l_buf, lfc, `last_lit, `toks
      ensures Valid() && toks == old(toks) + [Literal(c)] && flush == (last_lit == lit_bufsize - 1)
    {
      hide Logged, Tables.Valid, BuildTree.TreeBuilder.Shape, Buffered, LitFreq, DistFreq, LitSymbol;
      ghost var k := Literal(c);
      ghost var f: seq<nat> := lfc[..L_CODES];
      ShapeLengths();
      LitFreqSnoc(toks, k);
      DistFreqSnoc(toks, k);
      SymbolOf(k);
      Record(0, c, k);
      lfc[c] := lfc[c] + 1;
      assert lfc[..L_CODES] == f[c := f[c] + 1];
      flush := last_lit == lit_bufsize - 1;
    }

    /** _tr_tally_dist: a match, its length given less MIN_MATCH. */
    method TallyDist(distance: nat, length: nat) returns (flush: bool)
      requires Valid() && last_lit < lit_bufsize - 1
      requires 1 <= distance <= MAX_DISTANCE && length <= MAX_MATCH - MIN_MATCH
      modifies d_buf, l_buf, lfc, dfc, `last_lit, `toks
      ensures Valid() && toks == old(toks) + [Token.Match(length + MIN_MATCH, distance)]
      ensures flush == (last_lit == lit_bufsize - 1)
    {
      hide Logged, Tables.Valid, BuildTree.TreeBuilder.Shape, Buffered, LitFreq, DistFreq, LitSymbol, DistCode, LengthCode;
      ghost var k := Token.Match(length + MIN_MATCH, distance);
      ghost var f, g: seq<nat> := lfc[..L_CODES], dfc[..D_CODES];
      ShapeLengths();
      LitFreqSnoc(toks, k);
      DistFreqSnoc(toks, k);
      SymbolOf(k);
      Record(distance, length, k);
      LengthAt(t, length);
      var s, c := t.length_code[length] + LITERALS + 1, t.DCode(distance - 1);
      lfc[s] := lfc[s] + 1;
      dfc[c] := dfc[c] + 1;
      assert lfc[..L_CODES] == f[s := f[s] + 1];
      assert dfc[..D_CODES] == g[c := g[c] + 1];
      flush := last_lit == lit_bufsize - 1;
    }

    /** The literal tree: its codes, and what they and the fixed codes cost. */
    method LitTree() returns (lmax: nat)
      requires Parts() && Counted()
      modifies b, b.heap, b.depth, b.bl_count, lfc, ldl
      ensures lmax < L_CODES && lfc.Length == ldl.Length && lmax + 1 < ldl.Length
      ensures TreeOf(Forced(LitFreq(toks)), ldl[..lmax + 1], 15) && CodesFor(lfc[..], ldl[..lmax + 1])
      ensures b.opt_len == Dot(LitFreq(toks), ldl[..L_CODES]) + Dot(LitFreq(toks), LExtra())
      ensures b.static_len == Dot(LitFreq(toks), FixedLit()) + Dot(LitFreq(toks), LExtra())
    {
      hide Tables.Valid, TreeOf, CodesFor, Forced, LeastCost, LitFreq, DistFreq, Dot, Complete, NonZero, MaxCode,
        ExtraOf, Pow2, FixedLit, FixedDist, AllExpressible;
      ShapeLengths();
      FewExtra();
      StaticLens(t);
      ghost var cut;
      lmax, cut := b.BuildTree(lfc, ldl, L_CODES, 15, LITERALS + 1, ExtraLBits(), t.ltree_len);
    }

    /** The distance tree. */
    method DistTree() returns (dmax: nat)
      requires Parts() && AllExpressible(toks) && D_CODES <= dfc.Length && dfc[..D_CODES] == DistFreq(toks)
      modifies b, b.heap, b.depth, b.bl_count, dfc, ddl
      ensures dmax < D_CODES && dfc.Length == ddl.Length && dmax + 1 < ddl.Length
      ensures TreeOf(Forced(DistFreq(toks)), ddl[..dmax + 1], 15) && CodesFor(dfc[..], ddl[..dmax + 1])
      ensures b.opt_len == old(b.opt_len) + Dot(DistFreq(toks), ddl[..D_CODES]) + Dot(DistFreq(toks), DExtra())
      ensures b.static_len == old(b.static_len) + Dot(DistFreq(toks), Repeat(5, 30)) + Dot(DistFreq(toks), DExtra())
    {
      hide Tables.Valid, TreeOf, CodesFor, Forced, LeastCost, LitFreq, DistFreq, Dot, Complete, NonZero, MaxCode,
        ExtraOf, Pow2, FixedLit, FixedDist, AllExpressible;
      ShapeLengths();
      FewExtra();
      StaticLens(t);
      ghost var cut;
      dmax, cut := b.BuildTree(dfc, ddl, D_CODES, 15, 0, ExtraDBits(), t.dtree_len);
    }

    /**
     The literal and distance trees.  opt_len and static_len are now the numbers of bits that the
     block's data takes with them and with the fixed codes.
     */
    method BuildDataTrees() returns (lmax: nat, dmax: nat)
      requires Parts() && Counted()
      modifies b, b.heap, b.depth, b.bl_count, lfc, ldl, dfc, ddl
      ensures lmax < L_CODES && dmax < D_CODES && lfc.Length == ldl.Length && dfc.Length == ddl.Length
      ensures lmax + 1 < ldl.Length && dmax + 1 < ddl.Length
      ensures DataTrees(ldl[..lmax + 1], ddl[..dmax + 1], toks)
      ensures CodesFor(lfc[..], ldl[..lmax + 1]) && CodesFor(dfc[..], ddl[..dmax + 1])
      ensures b.opt_len == |DataBits(ldl[..lmax + 1], ddl[..dmax + 1], toks)|
      ensures b.static_len == |DataBits(FixedLit(), FixedDist(), toks)|
    {
      hide Tables.Valid, TreeOf, CodesFor, Forced, LitFreq, DistFreq, Dot, Complete, NonZero, MaxCode,
        ExtraOf, Pow2, FixedLit, FixedDist, DataBits, AllCoded, AllExpressible, SameLengths, Codeword, LExtra, DExtra;
      ShapeLengths();
      lmax := LitTree();
      ghost var lv: seq<nat> := ldl[..L_CODES];
      dmax := DistTree();
      ghost var dv: seq<nat> := ddl[..D_CODES];
      assert ldl[..lmax + 1] == lv[..lmax + 1] && ddl[..dmax + 1] == dv[..dmax + 1];
      DataCosts(toks, lv[..lmax + 1], dv[..dmax + 1], lv, dv);
    }

    /** The frequencies of the code length symbols in both trees. */
    method ScanBoth(lmax: nat, dmax: nat)
      requires lmax + 1 < ldl.Length && dmax + 1 < ddl.Length && bfc.Length >= BL_CODES
      requires ldl != ddl && ldl != bfc && ddl != bfc && forall s :: 0 <= s < BL_CODES ==> bfc[s] == 0
      requires LengthsOk(ldl[..lmax + 1]) && LengthsOk(ddl[..dmax + 1])
      modifies ldl, ddl, bfc
      ensures ldl[..] == old(ldl[..])[lmax + 1 := GUARD] && ddl[..] == old(ddl[..])[dmax + 1 := GUARD]
      ensures bfc[..BL_CODES] == ClFreq(RunLengths(old(ldl[..lmax + 1]), 0, -1) + RunLengths(old(ddl[..dmax + 1]), 0, -1))
    {
      hide RunLengths, ClFreq, ClCount, LengthsOk;
      ghost var rl, rd := RunLengths(ldl[..lmax + 1], 0, -1), RunLengths(ddl[..dmax + 1], 0, -1);
      ScanTree(ldl, lmax, bfc);
      ScanTree(ddl, dmax, bfc);
      BothCounted(bfc[..BL_CODES], rl, rd);
    }

    /**
     build_bl_tree: the code for the run-length code of both trees' lengths.  opt_len now also
     has the bits that sending the trees takes.
     */
    method BuildBlTree(lmax: nat, dmax: nat) returns (max_blindex: nat, ghost own: Block)
      requires Parts() && lmax < L_CODES && dmax < D_CODES && lmax + 1 < ldl.Length && dmax + 1 < ddl.Length
      requires bfc.Length >= BL_CODES && forall s :: 0 <= s < BL_CODES ==> bfc[s] == 0
      requires DataTrees(ldl[..lmax + 1], ddl[..dmax + 1], toks)
      modifies b, b.heap, b.depth, b.bl_count, ldl, ddl, bfc, bdl
      ensures max_blindex + 1 <= 19 <= |bdl[..]| && bfc.Length == bdl.Length
      ensures ldl[..] == old(ldl[..])[lmax + 1 := GUARD] && ddl[..] == old(ddl[..])[dmax + 1 := GUARD]
      ensures own == DynamicAs(old(ldl[..lmax + 1]), old(ddl[..dmax + 1]), bdl[..BL_CODES], max_blindex + 1, toks)
      ensures Sound(own) && CodesFor(bfc[..], own.bl) && b.opt_len == old(b.opt_len) + TreesSize(own)
      ensures b.static_len == old(b.static_len)
    {
      hide Tables.Valid, TreeOf, CodesFor, Forced, LeastCost, Dot, Complete, NonZero, MaxCode, ExtraOf, Pow2, ClFreq,
        TreesBits, RunLengths, ClsCoded, ClCount, DataTrees, Usable, TreesOk, AllCoded, RestZero, TreesSize, Sound;
      ShapeLengths();
      FewExtra();
      ghost var ll, dl: seq<nat> := ldl[..lmax + 1], ddl[..dmax + 1];
      DataLengths(ll, dl, toks);
      ScanBoth(lmax, dmax);
      ghost var cut, bmax;
      bmax, cut := b.BuildTree(bfc, bdl, BL_CODES, 7, 0, BlExtraBits(), []);
      ghost var bl: seq<nat> := bdl[..BL_CODES];
      ghost var s := BlTreeIs(bl, bdl[..bmax + 1], bfc[..], ll, dl);
      max_blindex := LastCode(s);
      own := DynamicAs(ll, dl, bl, max_blindex + 1, toks);
      BlUsable(own);
      b.opt_len := b.opt_len + 3 * (max_blindex + 1) + 5 + 5 + 4;
    }

    /** The number of bit length codes to send, but at least 4: a length by itself (symbol s) is sent. */
    method LastCode(ghost s: nat) returns (max_blindex: nat)
      requires bdl.Length >= BL_CODES && s <= 15 && bdl[s] != 0
      ensures 3 <= max_blindex <= 18
      ensures RestZero(bdl[..BL_CODES], max_blindex + 1)
    {
      hide DeflateOrder, OrderIndex;
      OrderInverse(s);
      LateOrder(s);
      max_blindex := BL_CODES - 1;
      while max_blindex >= 3
        invariant OrderIndex()[s] <= max_blindex <= 18
        invariant forall i :: max_blindex < i < 19 ==>
          DeflateOrder()[i] < BL_CODES && bdl[DeflateOrder()[i]] == 0
      {
        OrderInverse(max_blindex);
        if bdl[DeflateOrder()[max_blindex]] != 0 {
          return;
        }
        max_blindex := max_blindex - 1;
      }
    }

    /** send_all_trees: the counts, the lengths of the bit length codes, and both trees. */
    method SendAllTrees(lcodes: nat, dcodes: nat, blcodes: nat)
      requires w.Valid() && lcodes < ldl.Length && dcodes < ddl.Length && BL_CODES <= bdl.Length == bfc.Length
      requires TreesOk(ldl[..lcodes], ddl[..dcodes], bdl[..BL_CODES], blcodes)
      requires ldl[lcodes] == GUARD && ddl[dcodes] == GUARD && CodesFor(bfc[..], bdl[..BL_CODES])
      modifies w
      ensures w.Valid() && w.Sent() == old(w.Sent()) + TreesBits(ldl[..lcodes], ddl[..dcodes], bdl[..BL_CODES], blcodes)
    {
      hide Writer.Valid, Writer.Sent, RunLengths, ClsBits, ClsCoded, CodesFor, Lsb, Pow2, OrderBits, DeflateOrder;
      ghost var s0, bl: seq<nat> := w.Sent(), bdl[..BL_CODES];
      ghost var ll, dl: seq<nat> := ldl[..lcodes], ddl[..dcodes];
      Pow2Values();
      w.SendBits(lcodes - 257, 5);
      w.SendBits(dcodes - 1, 5);
      w.SendBits(blcodes - 4, 4);
      SendOrder(blcodes, bl);
      ShortLengths(bl);
      SendTree(w, ldl, lcodes - 1, bfc[..], bdl[..], bl);
      SendTree(w, ddl, dcodes - 1, bfc[..], bdl[..], bl);
      SixParts(s0, Lsb(lcodes - 257, 5), Lsb(dcodes - 1, 5), Lsb(blcodes - 4, 4), OrderBits(bl, blcodes),
               ClsBits(bl, RunLengths(ll, 0, -1)), ClsBits(bl, RunLengths(dl, 0, -1)));
    }

    /** The lengths of the bit length codes, in the order they are sent. */
    method SendOrder(blcodes: nat, ghost bl: seq<nat>)
      requires w.Valid() && BL_CODES <= bdl.Length && bl == bdl[..BL_CODES] && blcodes <= 19
      requires forall i :: 0 <= i < 19 ==> bl[i] < 8
      modifies w
      ensures w.Valid() && w.Sent() == old(w.Sent()) + OrderBits(bl, blcodes)
    {
      hide Writer.Valid, Writer.Sent, Lsb, Pow2, DeflateOrder;
      ghost var s0 := w.Sent();
      var rank := 0;
      Pow2Values();
      while rank < blcodes
        invariant rank <= blcodes && w.Valid() && w.Sent() == s0 + OrderBits(bl, rank)
      {
        OrderInverse(rank);
        var v := bdl[DeflateOrder()[rank]];
        assert v == bl[DeflateOrder()[rank]];
        w.SendBits(v, 3);
        assert s0 + OrderBits(bl, rank) + Lsb(v, 3) == s0 + (OrderBits(bl, rank) + Lsb(v, 3));
        rank := rank + 1;
      }
    }

    /** _tr_stored_block: the header, then the data from a byte boundary on, its length in front. */
    method SendStored(data: seq<Byte>, last: bool)
      requires w.Valid() && |data| <= 65535
      modifies w
      ensures w.Valid() && w.bi_valid == 0 && w.Sent() == old(w.Sent()) + StoredBlock(|old(w.Sent())|, last, data)
    {
      hide Writer.Valid, Writer.Sent, Lsb, Pow2, BytesBits;
      ghost var s0 := w.Sent();
      var b := if last then 1 else 0;
      Pow2Values();
      w.SendBits(2 * STORED_BLOCK + b, 3);
      w.BiWindup();
      w.CopyBlock(data);
      ghost var z := Zeros(RoundUp(|s0| + 3) - (|s0| + 3));
      SixParts(s0, BlockHeader(STORED_BLOCK, last), z, Lsb(|data|, 16), Lsb(65535 - |data|, 16), BytesBits(data), []);
      assert BytesBits(data) + [] == BytesBits(data);
    }

    /** The codes of a dynamic block are in place in the tree arrays. */
    ghost predicate TreesReady(own: Block, lmax: nat, dmax: nat, max_blindex: nat)
      reads lfc, ldl, dfc, ddl, bfc, bdl, `toks
    {
      && lmax + 1 < ldl.Length == lfc.Length && dmax + 1 < ddl.Length == dfc.Length && BL_CODES <= bdl.Length == bfc.Length
      && own == DynamicAs(ldl[..lmax + 1], ddl[..dmax + 1], bdl[..BL_CODES], max_blindex + 1, toks) && Sound(own)
      && ldl[lmax + 1] == GUARD && ddl[dmax + 1] == GUARD
      && CodesFor(lfc[..], own.ll) && CodesFor(dfc[..], own.dl) && CodesFor(bfc[..], own.bl)
    }

    /**
     All trees of a block.  As the debug assertion of _tr_flush_block claims, opt_len and
     static_len are exactly the bits that the two ways of sending it take after the block header.
     */
    method BuildTrees() returns (lmax: nat, dmax: nat, max_blindex: nat, ghost own: Block)
      requires Parts() && Counted()
      modifies b, b.heap, b.depth, b.bl_count, lfc, ldl, dfc, ddl, bfc, bdl
      ensures TreesReady(own, lmax, dmax, max_blindex) && own.DynamicAs? && own.toks == toks
      ensures Sound(own) && Sound(StaticAs(toks))
      ensures b.opt_len == |BlockBits(0, own, false)| - 3 && b.static_len == |BlockBits(0, StaticAs(toks), false)| - 3
    {
      hide Tables.Valid, TreeOf, CodesFor, Complete, TreesBits, DataBits, FixedLit, FixedDist,
        LitFreq, DistFreq, TreesOk;
      ShapeLengths();
      lmax, dmax := BuildDataTrees();
      ghost var ll, dl: seq<nat> := ldl[..lmax + 1], ddl[..dmax + 1];
      max_blindex, own := BuildBlTree(lmax, dmax);
      assert ldl[..lmax + 1] == ll && ddl[..dmax + 1] == dl;
    }

    /** A block with the fixed codes. */
    method SendStatic(last: bool)
      requires Parts() && w.Valid() && Held() && Sound(StaticAs(toks))
      modifies w
      ensures w.Valid() && w.Sent() == old(w.Sent()) + StaticBlock(last, toks)
    {
      hide Writer.Valid, Writer.Sent, FixedLit, FixedDist, Lsb, Pow2, DataBits, Complete, Coded, Buffered, Sendable;
      ghost var s0 := w.Sent();
      var v := 2 * STATIC_TREES + if last then 1 else 0;
      Pow2Values();
      w.SendBits(v, 3);
      FixedUsable();
      StaticSendable(t);
      CompressBlock.CompressBlock(w, t, d_buf, l_buf, last_lit, t.ltree_code, t.ltree_len, t.dtree_code, t.dtree_len,
                                  FixedLit(), FixedDist(), toks);
      assert s0 + Lsb(v, 3) + DataBits(FixedLit(), FixedDist(), toks) == s0 + (Lsb(v, 3) + DataBits(FixedLit(), FixedDist(), toks));
    }

    /** A block with codes of its own. */
    method SendDynamic(last: bool, lmax: nat, dmax: nat, max_blindex: nat, ghost own: Block)
      requires Parts() && w.Valid() && Held() && TreesReady(own, lmax, dmax, max_blindex) && own.DynamicAs?
      modifies w
      ensures w.Valid() && w.Sent() == old(w.Sent()) + BlockBits(|old(w.Sent())|, own, last)
    {
      hide Writer.Valid, Writer.Sent, Lsb, Pow2, DataBits, TreesBits, Complete, Coded, Buffered, Sendable, CodesFor,
        BlockBits;
      ghost var s0 := w.Sent();
      var v := 2 * DYN_TREES + if last then 1 else 0;
      Pow2Values();
      w.SendBits(v, 3);
      SendAllTrees(lmax + 1, dmax + 1, max_blindex + 1);
      ShapeLengths();
      CodesSendable(lfc[..], ldl[..], own.ll);
      CodesSendable(dfc[..], ddl[..], own.dl);
      UsableLengths(own);
      CompressBlock.CompressBlock(w, t, d_buf, l_buf, last_lit, lfc[..], ldl[..], dfc[..], ddl[..], own.ll, own.dl, toks);
      DynamicParts(s0, own, last);
    }

    /** The block is sent in one of the three ways. */
    method SendBlock(buf: Option<seq<Byte>>, stored_len: nat, last: bool, opt_lenb: int, static_lenb: int,
                     lmax: nat, dmax: nat, max_blindex: nat, ghost own: Block) returns (ghost sent: Block)
      requires Parts() && w.Valid() && Held() && (buf.Some? ==> |buf.value| == stored_len <= 65535)
      requires !(stored_len + 4 <= opt_lenb && buf.Some?) ==>
        Sound(StaticAs(toks)) && own.DynamicAs? && Sound(own) && TreesReady(own, lmax, dmax, max_blindex)
      modifies w
      ensures w.Valid() && Sound(sent) && w.Sent() == old(w.Sent()) + BlockBits(|old(w.Sent())|, sent, last)
      ensures sent == if stored_len + 4 <= opt_lenb && buf.Some? then StoredAs(buf.value)
                      else if strategy == Z_FIXED || static_lenb == opt_lenb then StaticAs(toks) else own
    {
      hide Writer.Valid, Writer.Sent, Held, Parts, TreesReady, StoredBlock, StaticBlock, DynamicBlock, FixedLit, FixedDist,
        Usable, AllCoded;
      if stored_len + 4 <= opt_lenb && buf.Some? {
        SendStored(buf.value, last);
        sent := StoredAs(buf.value);
      } else if strategy == Z_FIXED || static_lenb == opt_lenb {
        SendStatic(last);
        sent := StaticAs(toks);
      } else {
        SendDynamic(last, lmax, dmax, max_blindex, own);
        sent := own;
      }
    }

    /** A new block begins; the last one is filled up. */
    method EndBlock(last: bool, ghost sent: Block)
      requires Parts() && w.Valid() && !ended && AllSound(log) && Sound(sent)
      requires w.Sent() == StreamBits(log, false) + BlockBits(|StreamBits(log, false)|, sent, last)
      modifies w, b`opt_len, b`static_len, lfc, dfc, bfc, `last_lit, `toks, `log, `ended
      ensures Counted() && Held() && Logged() && toks == [] && log == old(log) + [sent] && ended == last
    {
      hide Writer.Valid, Writer.Sent, Counted, Held, Parts, BlockBits, Sound, StreamBits;
      InitBlock();
      if last {
        w.BiWindup();
      }
      StreamSnoc(log, sent, last);
      log, ended := log + [sent], last;
    }

    /** _tr_flush_block: choose the shortest way to send the tokens collected, and begin a new block. */
    method FlushBlock(buf: Option<seq<Byte>>, stored_len: nat, last: bool) returns (ghost sent: Block, ghost own: Block)
      requires Valid() && !ended && (level == 0 ==> buf.Some?)
      requires buf.Some? ==> |buf.value| == stored_len <= 65535
      modifies this, w, b, b.heap, b.depth, b.bl_count, lfc, ldl, dfc, ddl, bfc, bdl
      ensures Valid() && toks == [] && Sound(sent) && log == old(log) + [sent] && ended == last
      ensures level == 0 ==> sent == StoredAs(buf.value)
      ensures level > 0 ==>
        && Sound(StaticAs(old(toks))) && own.DynamicAs? && own.toks == old(toks) && Sound(own)
        && Cheapest(sent, buf, StaticAs(old(toks)), own, last, strategy == Z_FIXED)
      ensures TokensFollow(old(log), old(toks)) && (buf.Some? ==> BytesFollow(old(log), old(toks), buf.value)) ==>
        AllSensible(log) && Text(log) == Expand(Text(old(log)), old(toks))
    {
      hide Writer.Valid, Writer.Sent, Counted, Held, Tables.Valid, TreesReady, BlockBits, Sound, StreamBits, AllSensible, Text, Expand, Lz77.Valid;
      var lmax, dmax, max_blindex := 0, 0, 0;
      own := StoredAs([]);
      var opt_lenb, static_lenb := stored_len + 5, stored_len + 5;
      if level > 0 {
        lmax, dmax, max_blindex, own := BuildTrees();
        SameSize(own, last);
        SameSize(StaticAs(toks), last);
        opt_lenb := (b.opt_len + 3 + 7) / 8;
        static_lenb := (b.static_len + 3 + 7) / 8;
        if static_lenb <= opt_lenb {
          opt_lenb := static_lenb;
        }
      }
      sent := SendBlock(buf, stored_len, last, opt_lenb, static_lenb, lmax, dmax, max_blindex, own);
      EndBlock(last, sent);
      if TokensFollow(old(log), old(toks)) && (buf.Some? ==> BytesFollow(old(log), old(toks), buf.value)) {
        TextSnoc(old(log), sent, old(toks));
      }
    }

    /** _tr_stored_block between two blocks */
    method TrStoredBlock(data: seq<Byte>)
      requires Valid() && !ended && |data| <= 65535
      modifies w, `log
      ensures Valid() && log == old(log) + [StoredAs(data)] && w.bi_valid == 0
    {
      hide Writer.Valid, Writer.Sent, StreamBits, AllSound, Parts, Counted, Held, StoredBlock, Zeros;
      ghost var s := w.Sent();
      StreamSnoc(log, StoredAs(data), false);
      SendStored(data, false);
      NoFill(s + BlockBits(|s|, StoredAs(data), false));
      log := log + [StoredAs(data)];
    }

    /** _tr_align: an empty block with the fixed codes. */
    method Align()
      requires Valid() && !ended
      modifies w, `log
      ensures Valid() && log == old(log) + [StaticAs([])] && w.bi_valid <= 7
    {
      hide Writer.Valid, Writer.Sent, FixedLit, FixedDist, Lsb, Pow2, Complete, Sendable, Parts, AllSound, StreamBits,
        TokensBits, Counted, Held;
      ghost var s0 := w.Sent();
      Pow2Values();
      FixedHasCodes([]);
      NoTokens(FixedLit(), FixedDist());
      FixedUsable();
      TablesReady();
      StaticSendable(t);
      StreamSnoc(log, StaticAs([]), false);
      w.SendBits(2 * STATIC_TREES, 3);
      CodeAt(t.ltree_code, t.ltree_len, FixedLit(), END_BLOCK);
      SendCode(w, t.ltree_code, t.ltree_len, END_BLOCK, FixedLit());
      EmptyBlock(s0);
      w.BiFlush();
      log := log + [StaticAs([])];
    }

    lemma TablesReady()
      requires Parts()
      ensures t.Valid()
    {
    }
  }

  lemma NoFill(e: seq<bool>)
    ensures e + Fill(|e|, false) == e
  {
  }

  lemma EmptyBlock(s: seq<bool>)
    requires Sound(StaticAs([]))
    ensures s + Lsb(2 * STATIC_TREES, 3) + Codeword(FixedLit(), END_BLOCK)
         == s + BlockBits(|s|, StaticAs([]), false) + Fill(|s + BlockBits(|s|, StaticAs([]), false)|, false)
  {
    hide FixedLit, FixedDist, Codeword, Lsb;
    var h, e := Lsb(2 * STATIC_TREES, 3), Codeword(FixedLit(), END_BLOCK);
    NoTokens(FixedLit(), FixedDist());
    assert [] + e == e;
    assert BlockBits(|s|, StaticAs([]), false) == h + e;
    assert s + h + e == s + (h + e);
    assert s + (h + e) + [] == s + (h + e);
  }

  lemma DynamicParts(s: seq<bool>, own: Block, last: bool)
    requires own.DynamicAs? && Sound(own)
    ensures s + BlockHeader(DYN_TREES, last) + TreesBits(own.ll, own.dl, own.bl, own.n) + DataBits(own.ll, own.dl, own.toks)
         == s + BlockBits(|s|, own, last)
  {
    hide BlockHeader, TreesBits, DataBits, ClsCoded, RunLengths, Complete, Coded;
    var h, tb, db := BlockHeader(DYN_TREES, last), TreesBits(own.ll, own.dl, own.bl, own.n), DataBits(own.ll, own.dl, own.toks);
    assert s + h + tb + db == s + (h + tb + db);
  }

  lemma SameSize(b: Block, last: bool)
    requires Sound(b) && !b.StoredAs?
    ensures |BlockBits(0, b, last)| == |BlockBits(0, b, false)| >= 3
  {
    hide DataBits, TreesBits;
  }

  lemma FixedUsable()
    ensures LengthsOk(FixedLit()) && LengthsOk(FixedDist())
  {
    hide Used;
    FixedLitComplete();
    FixedDistComplete();
  }

  lemma StaticSendable(t: Tables)
    requires t.Valid()
    ensures Sendable(t.ltree_code, t.ltree_len, FixedLit()) && |t.ltree_code| == 288
    ensures Sendable(t.dtree_code, t.dtree_len, FixedDist()) && |t.dtree_code| == 30
  {
  }

  lemma CodesSendable(code: seq<nat>, len: seq<nat>, lens: seq<nat>)
    requires |code| == |len| && CodesFor(code, lens) && lens <= len
    ensures Sendable(code, len, lens)
  {
  }

  lemma UsableLengths(own: Block)
    requires own.DynamicAs? && Sound(own)
    ensures LengthsOk(own.ll) && LengthsOk(own.dl)
  {
  }

  lemma SixParts<T>(s: seq<T>, a: seq<T>, b: seq<T>, c: seq<T>, d: seq<T>, e: seq<T>, f: seq<T>)
    ensures s + a + b + c + d + e + f == s + (a + b + c + d + e + f)
  {
  }

  lemma ShortLengths(bl: seq<nat>)
    requires |bl| == 19 && forall i :: 0 <= i < 19 ==> bl[i] < 8
    ensures LengthsOk(bl)
  {
  }

  lemma LateOrder(s: nat)
    requires s <= 15
    ensures OrderIndex()[s] >= 3
  {
  }

  /** A length other than zero is sent by itself the first time. */
  lemma {:induction false} SomeSingle(lens: seq<nat>, n: nat, prev: int, k: nat) returns (i: nat)
    requires n <= k < |lens| && lens[k] != 0 && prev <= 0
    ensures i < |RunLengths(lens, n, prev)| && RunLengths(lens, n, prev)[i].Single?
    decreases |lens| - n
  {
    hide Piece, RunLen, MaxCount;
    var cur := lens[n];
    var r := RunLen(lens, n, MaxCount(cur, prev));
    var p, rest := Piece(cur, prev, r), RunLengths(lens, n + r, cur);
    if cur != 0 {
      FirstSingle(cur, prev, r);
      i := 0;
    } else {
      i := SomeSingle(lens, n + r, 0, k);
      assert (p + rest)[|p| + i] == rest[i];
      i := |p| + i;
    }
  }

  lemma FirstSingle(cur: nat, prev: int, r: nat)
    requires cur != 0 && cur != prev && r >= 1
    ensures Piece(cur, prev, r) != [] && Piece(cur, prev, r)[0].Single?
  {
  }

  /** So one of the symbols 0..15 has a code. */
  lemma SingleHasCode(ll: seq<nat>, bl: seq<nat>, k: nat) returns (s: nat)
    requires k < |ll| && ll[k] != 0 && ClsCoded(bl, RunLengths(ll, 0, -1))
    ensures s <= 15 && s < |bl| && bl[s] != 0
  {
    hide RunLengths;
    var i := SomeSingle(ll, 0, -1, k);
    s := RunLengths(ll, 0, -1)[i].v;
    assert ClOk(RunLengths(ll, 0, -1)[i]);
  }

  lemma DataLengths(ll: seq<nat>, dl: seq<nat>, toks: seq<Token>)
    requires DataTrees(ll, dl, toks)
    ensures LengthsOk(ll) && LengthsOk(dl) && Complete(ll) && Complete(dl) && END_BLOCK < |ll| && ll[END_BLOCK] >= 1
  {
    TreeLengths(Forced(LitFreq(toks)), ll, 15);
    TreeLengths(Forced(DistFreq(toks)), dl, 15);
  }

  lemma BothCounted(f: seq<nat>, rl: seq<Cl>, rd: seq<Cl>)
    requires |f| == BL_CODES && forall s :: 0 <= s < BL_CODES ==> f[s] == ClCount(rl, s) + ClCount(rd, s)
    ensures f == ClFreq(rl + rd)
  {
    forall s | 0 <= s < BL_CODES
      ensures f[s] == ClFreq(rl + rd)[s]
    {
      ClCountAppend(rl, rd, s);
    }
  }

  /** The code length code, padded to all 19 symbols. */
  lemma BlTreeIs(bl: seq<nat>, lens: seq<nat>, codes: seq<nat>, ll: seq<nat>, dl: seq<nat>) returns (s: nat)
    requires LengthsOk(ll) && LengthsOk(dl) && |bl| == BL_CODES <= |codes| && lens <= bl
    requires TreeOf(Forced(ClFreq(RunLengths(ll, 0, -1) + RunLengths(dl, 0, -1))), lens, 7) && CodesFor(codes, lens)
    requires (forall s :: |lens| <= s < BL_CODES ==> bl[s] == 0) && END_BLOCK < |ll| && ll[END_BLOCK] >= 1
    ensures s <= 15 && bl[s] != 0
    ensures Complete(bl) && CodesFor(codes, bl) && (forall s :: 0 <= s < BL_CODES ==> bl[s] <= 7)
    ensures ClsCoded(bl, RunLengths(ll, 0, -1)) && ClsCoded(bl, RunLengths(dl, 0, -1))
  {
    hide RunLengths, Forced, ClFreq, CodesFor, Complete;
    var rl, rd := RunLengths(ll, 0, -1), RunLengths(dl, 0, -1);
    TreeLengths(Forced(ClFreq(rl + rd)), lens, 7);
    Padding(lens, BL_CODES - |lens|);
    PaddedCodes(codes, lens, BL_CODES - |lens|);
    assert bl == lens + Repeat(0, BL_CODES - |lens|);
    RunLengthsOk(ll, 0, -1);
    RunLengthsOk(dl, 0, -1);
    ClsHaveCodes(rl + rd, lens, bl);
    ClsCodedParts(bl, rl, rd);
    s := SingleHasCode(ll, bl, END_BLOCK);
  }

  /** The lengths from the n-th on, in the order they are sent, are zero. */
  ghost predicate RestZero(bl: seq<nat>, n: nat) {
    |bl| == BL_CODES && forall i :: n <= i < 19 ==> bl[DeflateOrder()[i]] == 0
  }

  lemma BlUsable(b: Block)
    requires b.DynamicAs? && DataTrees(b.ll, b.dl, b.toks) && Complete(b.bl) && 4 <= b.n <= 19 && RestZero(b.bl, b.n)
    requires forall s :: 0 <= s < BL_CODES ==> b.bl[s] <= 7
    requires ClsCoded(b.bl, RunLengths(b.ll, 0, -1)) && ClsCoded(b.bl, RunLengths(b.dl, 0, -1))
    ensures Sound(b)
    ensures TreesSize(b) == var cls := RunLengths(b.ll, 0, -1) + RunLengths(b.dl, 0, -1);
            Dot(ClFreq(cls), b.bl) + Dot(ClFreq(cls), BlExtra()) + 3 * b.n + 14
  {
    hide RunLengths, ClsCoded, Complete, TreeOf, TreesBits, Dot, ClFreq;
    DataLengths(b.ll, b.dl, b.toks);
    TreesCost(b.ll, b.dl, b.bl, b.n);
  }

  /** The trees of the tokens' frequencies. */
  ghost predicate DataTrees(ll: seq<nat>, dl: seq<nat>, toks: seq<Token>) {
    && AllExpressible(toks) && TreeOf(Forced(LitFreq(toks)), ll, 15) && TreeOf(Forced(DistFreq(toks)), dl, 15)
    && AllCoded(ll, dl, toks) && 257 <= |ll| <= 286 && ll[END_BLOCK] >= 1 && 1 <= |dl| <= 30
    && AllCoded(FixedLit(), FixedDist(), toks) && FixedLit()[END_BLOCK] >= 1
  }

  /** Both ways of sending the data have been counted exactly. */
  lemma DataCosts(toks: seq<Token>, ll: seq<nat>, dl: seq<nat>, lv: seq<nat>, dv: seq<nat>)
    requires AllExpressible(toks)
    requires TreeOf(Forced(LitFreq(toks)), ll, 15) && TreeOf(Forced(DistFreq(toks)), dl, 15)
    requires ll <= lv && dl <= dv && |lv| == L_CODES && |dv| == D_CODES
    ensures DataTrees(ll, dl, toks)
    ensures |DataBits(ll, dl, toks)| == Dot(LitFreq(toks), lv) + Dot(LitFreq(toks), LExtra())
                                      + Dot(DistFreq(toks), dv) + Dot(DistFreq(toks), DExtra())
    ensures |DataBits(FixedLit(), FixedDist(), toks)| == Dot(LitFreq(toks), FixedLit()) + Dot(LitFreq(toks), LExtra())
                                                       + Dot(DistFreq(toks), Repeat(5, 30)) + Dot(DistFreq(toks), DExtra())
  {
    hide TreeOf, Forced, LitFreq, DistFreq, Dot, DataBits, FixedLit, FixedDist, LExtra, DExtra, AllCoded;
    TokensHaveCodes(toks, ll, dl);
    DataCost(ll, dl, lv, dv, toks);
    FixedHasCodes(toks);
    FixedSame();
    DataCost(FixedLit(), FixedDist(), FixedLit(), Repeat(5, 30), toks);
  }

  lemma FewExtra()
    ensures Pow2(15) == 32768 && Pow2(7) == 128
    ensures FirstThreeFree(LExtra()) && FirstThreeFree(DExtra()) && FirstThreeFree(BlExtra())
  {
    Pow2Values();
  }

  lemma StaticLens(t: Tables)
    requires t.Valid()
    ensures t.ltree_len == FixedLit() && t.dtree_len == Repeat(5, 30) && t.ltree_len != [] && t.dtree_len != []
  {
  }

  lemma FixedSame()
    ensures SameLengths(FixedLit(), FixedLit()) && SameLengths(FixedDist(), Repeat(5, 30))
  {
  }

  lemma SymbolOf(k: Token)
    requires Expressible(k)
    ensures LitSymbol(k) == if k.Literal? then k.b else LengthCode(k.len - 3) + LITERALS + 1
  {
  }

  lemma BufferedSnoc(ds: seq<nat>, ls: seq<nat>, toks: seq<Token>, k: Token, d: nat, l: nat)
    requires Buffered(ds, ls, toks) && |toks| < |ds| && Recorded(d, l, k)
    ensures Buffered(ds[|toks| := d], ls[|toks| := l], toks + [k])
  {
    hide Recorded;
  }
}
