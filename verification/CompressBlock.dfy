/** The token buffers, and compress_block (libz_all/trees.c), which sends what they hold. */
module CompressBlock {
  import opened Bits
  import opened Canonical
  import opened Alphabet
  import opened Lz77
  import opened BlockSpec
  import opened BitWriter
  import opened GenCodes
  import opened StaticTables
  import opened TreeScan

  /** How a token is kept: distance 0 means a literal, lengths are kept less MIN_MATCH. */
  predicate Recorded(d: nat, l: nat, t: Token) {
    && Expressible(t)
    && match t
       case Literal(b) => d == 0 && l == b
       case Match(len, dist) => d == dist && l == len - MIN_MATCH
  }

  ghost predicate Buffered(d_buf: seq<nat>, l_buf: seq<nat>, toks: seq<Token>) {
    && |toks| <= |d_buf| == |l_buf|
    && forall i :: 0 <= i < |toks| ==> Recorded(d_buf[i], l_buf[i], toks[i])
  }

  lemma CodeAt(code: seq<nat>, len: seq<nat>, lens: seq<nat>, s: nat)
    requires Sendable(code, len, lens) && s < |lens| && s < |code| && lens[s] >= 1 && LengthsOk(lens)
    ensures |code| == |len| && len[s] == lens[s] <= MAXBITS && CodeFor(code[s], lens, s)
  {
  }

  /** The length of a match: its code and the extra bits. */
  method SendLength(w: Writer, t: Tables, lc: nat, lcode: seq<nat>, llen: seq<nat>, ghost ll: seq<nat>)
    requires w.Valid() && t.Valid() && lc < 256 && LengthCoded(ll, lc) && LengthsOk(ll)
    requires Sendable(lcode, llen, ll) && |lcode| >= L_CODES
    modifies w
    ensures w.Valid() && w.Sent() == old(w.Sent()) + LengthBits(ll, lc)
  {
    hide Codeword, CodeFor, Sendable, LengthsOk, LengthCode, ExtraLBits, BaseLength, Lsb, Pow2, Writer.Sent, Writer.Valid,
      Tables.Valid, LExt, LBase;
    LengthAt(t, lc);
    LengthCodeInverse(lc);
    var code := t.length_code[lc];
    CodeAt(lcode, llen, ll, code + LITERALS + 1);
    SendCode(w, lcode, llen, code + LITERALS + 1, ll);
    var extra := ExtraLBits()[code];
    ghost var c := Codeword(ll, code + 257);
    if extra != 0 {
      BaseAt(t, code);
      w.SendBits(lc - t.base_length[code], extra);
      assert old(w.Sent()) + c + Lsb(lc - BaseLength()[code], extra) == old(w.Sent()) + (c + Lsb(lc - BaseLength()[code], extra));
    } else {
      assert c + [] == c;
    }
  }

  lemma LengthAt(t: Tables, lc: nat)
    requires t.Valid() && lc < 256
    ensures |t.length_code| == 256 && t.length_code[lc] == LengthCode(lc)
  {
  }

  lemma BaseAt(t: Tables, code: nat)
    requires t.Valid() && code < 29 && ExtraLBits()[code] != 0
    ensures code < |t.base_length| && t.base_length[code] == BaseLength()[code]
  {
    assert code != 28;
  }

  lemma DistBaseAt(t: Tables, code: nat)
    requires t.Valid() && code < 30
    ensures code < |t.base_dist| && t.base_dist[code] == BaseDist()[code]
  {
  }

  /** The distance of a match. */
  method SendDist(w: Writer, t: Tables, d: nat, dcode: seq<nat>, dlen: seq<nat>, ghost dl: seq<nat>)
    requires w.Valid() && t.Valid() && d < 32768 && DistCoded(dl, d) && LengthsOk(dl)
    requires Sendable(dcode, dlen, dl) && |dcode| >= D_CODES
    modifies w
    ensures w.Valid() && w.Sent() == old(w.Sent()) + DistBits(dl, d)
  {
    hide Codeword, CodeFor, Sendable, LengthsOk, DistCode, ExtraDBits, BaseDist, Lsb, Pow2, Writer.Sent, Writer.Valid,
      Tables.Valid, DExt, DBase;
    DistCodeInverse(d);
    var code := t.DCode(d);
    CodeAt(dcode, dlen, dl, code);
    SendCode(w, dcode, dlen, code, dl);
    var extra := ExtraDBits()[code];
    ghost var c := Codeword(dl, code);
    DistBaseAt(t, code);
    if extra != 0 {
      w.SendBits(d - t.base_dist[code], extra);
    } else {
      NoBits(d - BaseDist()[code]);
    }
    assert old(w.Sent()) + c + Lsb(d - BaseDist()[code], extra) == old(w.Sent()) + (c + Lsb(d - BaseDist()[code], extra));
  }

  lemma NoBits(v: nat)
    ensures Lsb(v, 0) == []
  {
  }

  /** One token out of the buffers. */
  method SendToken(w: Writer, t: Tables, dist: nat, lc: nat, lcode: seq<nat>, llen: seq<nat>, dcode: seq<nat>, dlen: seq<nat>,
                   ghost ll: seq<nat>, ghost dl: seq<nat>, ghost tok: Token)
    requires w.Valid() && t.Valid() && Recorded(dist, lc, tok) && Coded(ll, dl, tok) && LengthsOk(ll) && LengthsOk(dl)
    requires Sendable(lcode, llen, ll) && |lcode| >= L_CODES && Sendable(dcode, dlen, dl) && |dcode| >= D_CODES
    modifies w
    ensures w.Valid() && w.Sent() == old(w.Sent()) + TokenBits(ll, dl, tok)
  {
    hide Codeword, CodeFor, Sendable, LengthsOk, LengthBits, DistBits, LengthCoded, DistCoded, Writer.Sent, Writer.Valid,
      Tables.Valid;
    if dist == 0 {
      CodeAt(lcode, llen, ll, lc);
      SendCode(w, lcode, llen, lc, ll);
    } else {
      SendLength(w, t, lc, lcode, llen, ll);
      SendDist(w, t, dist - 1, dcode, dlen, dl);
      assert old(w.Sent()) + LengthBits(ll, lc) + DistBits(dl, dist - 1)
          == old(w.Sent()) + (LengthBits(ll, lc) + DistBits(dl, dist - 1));
    }
  }

  lemma TokensBitsSnoc(ll: seq<nat>, dl: seq<nat>, toks: seq<Token>, n: nat)
    requires AllCoded(ll, dl, toks) && n < |toks|
    ensures TokensBits(ll, dl, toks[..n + 1]) == TokensBits(ll, dl, toks[..n]) + TokenBits(ll, dl, toks[n])
  {
    assert toks[..n + 1][..n] == toks[..n];
  }

  /** compress_block: all tokens in the buffers, and the end-of-block code. */
  method CompressBlock(w: Writer, t: Tables, d_buf: array<nat>, l_buf: array<nat>, last_lit: nat,
                       lcode: seq<nat>, llen: seq<nat>, dcode: seq<nat>, dlen: seq<nat>,
                       ghost ll: seq<nat>, ghost dl: seq<nat>, ghost toks: seq<Token>)
    requires w.Valid() && t.Valid() && last_lit == |toks| && Buffered(d_buf[..], l_buf[..], toks)
    requires AllCoded(ll, dl, toks) && LengthsOk(ll) && LengthsOk(dl) && END_BLOCK < |ll| && ll[END_BLOCK] >= 1
    requires Sendable(lcode, llen, ll) && |lcode| >= L_CODES && Sendable(dcode, dlen, dl) && |dcode| >= D_CODES
    modifies w
    ensures w.Valid() && w.Sent() == old(w.Sent()) + DataBits(ll, dl, toks)
  {
    hide Codeword, CodeFor, Sendable, LengthsOk, TokenBits, Coded, Recorded, Writer.Sent, Writer.Valid, Tables.Valid,
      TokensBits;
    ghost var s0 := w.Sent();
    var lx := 0;
    NoTokens(ll, dl);
    assert toks[..0] == [];
    if last_lit != 0 {
      while lx < last_lit
        invariant lx <= last_lit && w.Valid()
        invariant AllCoded(ll, dl, toks[..lx]) && w.Sent() == s0 + TokensBits(ll, dl, toks[..lx])
      {
        var dist := d_buf[lx];
        var lc := l_buf[lx];
        assert Recorded(d_buf[..][lx], l_buf[..][lx], toks[lx]);
        SendToken(w, t, dist, lc, lcode, llen, dcode, dlen, ll, dl, toks[lx]);
        TokensBitsSnoc(ll, dl, toks, lx);
        assert s0 + TokensBits(ll, dl, toks[..lx]) + TokenBits(ll, dl, toks[lx])
            == s0 + (TokensBits(ll, dl, toks[..lx]) + TokenBits(ll, dl, toks[lx]));
        lx := lx + 1;
      }
    }
    assert toks[..last_lit] == toks;
    CodeAt(lcode, llen, ll, END_BLOCK);
    SendCode(w, lcode, llen, END_BLOCK, ll);
    assert s0 + TokensBits(ll, dl, toks) + Codeword(ll, END_BLOCK) == s0 + (TokensBits(ll, dl, toks) + Codeword(ll, END_BLOCK));
  }

  lemma NoTokens(ll: seq<nat>, dl: seq<nat>)
    ensures AllCoded(ll, dl, []) && TokensBits(ll, dl, []) == []
  {
  }
}
