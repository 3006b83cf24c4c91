/**
 The other direction of zread (gzip_all/zuncompress.c): how a list of codes is written to a file, so
 that every reader gets back what the codes say, and how a text is put into codes.
 */
module LzwFile {
  import opened Bits
  import opened Packing
  import opened Lzw
  import opened Uncompress

  /* ---------- codes ---------- */

  /** The codes make sense one after the other. */
  predicate Sayable(p: Params, d: Dict, codes: seq<nat>)
    decreases codes
  {
    codes == [] ||
    (codes[0] < Pow2(p.maxbits) && Say(p, d, codes[0]).Said? && Sayable(p, Say(p, d, codes[0]).dict, codes[1..]))
  }

  /** What they say. */
  function Spoken(p: Params, d: Dict, codes: seq<nat>): seq<Byte>
    requires Sayable(p, d, codes)
    decreases codes
  {
    if codes == [] then [] else Say(p, d, codes[0]).s + Spoken(p, Say(p, d, codes[0]).dict, codes[1..])
  }

  /* ---------- the file ---------- */

  /** A code goes into a group of its own if the width changes or the group has eight codes of n bits already. */
  function OpensGroup(p: Params, free: nat, n: nat, k: nat, clear: bool): bool {
    clear || free > MaxCode(p, n) || k == 8
  }

  function NextWidth(p: Params, free: nat, n: nat, clear: bool): (w: nat) {
    if clear then INIT_BITS else if free > MaxCode(p, n) then n + 1 else n
  }

  /** The codes of the group after one more. */
  function InGroup(p: Params, free: nat, n: nat, k: nat, clear: bool): (k': nat)
    requires k <= 8
    ensures 1 <= k' <= 8
  {
    if OpensGroup(p, free, n, k, clear) then 1 else k + 1
  }

  /** What fills up the group before a new one is opened. */
  function GroupGap(p: Params, free: nat, n: nat, k: nat, clear: bool): (gap: nat)
    requires k <= 8
  {
    if OpensGroup(p, free, n, k, clear) then n * (8 - k) else 0
  }

  /**
   The bits of the codes, where k codes of n bits are in the current group.  A group that is not
   the last one is filled up.
   */
  function CodeBits(p: Params, d: Dict, n: nat, k: nat, clear: bool, codes: seq<nat>): (s: seq<bool>)
    requires Sayable(p, d, codes) && k <= 8
    decreases codes
  {
    if codes == [] then []
    else
      var free := |d.strings|;
      var w := NextWidth(p, free, n, clear);
      Zeros(GroupGap(p, free, n, k, clear)) + Lsb(codes[0], w)
      + CodeBits(p, Say(p, d, codes[0]).dict, w, InGroup(p, free, n, k, clear), IsClear(p, codes[0]), codes[1..])
  }

  function Begin(p: Params): Dict {
    Dict(Singles(p.block), [])
  }

  /** Magic number, third byte, and the codes. */
  function FileOf(p: Params, codes: seq<nat>): (input: seq<Byte>)
    requires ParamsOk(p) && Sayable(p, Begin(p), codes)
  {
    hide CodeBits, Sayable, Pack, Pow2, Singles, Zeros;
    var bits := CodeBits(p, Begin(p), INIT_BITS, 8, false, codes);
    [0x1f, 0x9d, (if p.block then 0x80 else 0) + p.maxbits] + Pack(bits + Zeros(Missing(|bits|)))
  }

  /** What is missing of a whole byte. */
  function Missing(n: nat): (z: nat)
    ensures z < 8 && (n + z) % 8 == 0
  {
    (8 - n % 8) % 8
  }

  /* ---------- reading it ---------- */

  /** The reader is behind k codes of n bits of a group, and what comes next are the codes. */
  ghost predicate Facing(p: Params, m: Mach, input: seq<Byte>, k: nat, codes: seq<nat>) {
    && MachOk(p, m, input) && Reached(p, input, m) && Sayable(p, m.dict, codes) && k <= 8
    && |m.dict.strings| <= Pow2(m.reader.n_bits) && (m.clear ==> |m.dict.strings| <= FIRST)
    && Ahead(CursorOf(m.reader), input, k, CodeBits(p, m.dict, m.reader.n_bits, k, m.clear, codes))
  }

  /** Behind the last code of a group, and at the beginning, the next one comes where the next group begins. */
  function Place(c: Cursor, k: nat): int {
    if k == 8 then 8 * c.end else c.pos
  }

  /** The group has room for 8 - k codes, unless the file is over before. */
  predicate GroupEnds(c: Cursor, total: nat, k: nat)
    requires k <= 8
  {
    && c.n >= INIT_BITS && 0 <= Place(c, k)
    && (if k == 8 then 8 * c.end < c.pos + c.n
        else if c.pos + c.n * (8 - k) <= 8 * total then 8 * c.end == c.pos + c.n * (8 - k)
        else c.end == total)
  }

  /** From bit at on there are these bits, and zeros up to a whole byte. */
  ghost predicate BitsFrom(input: seq<Byte>, at: int, bits: seq<bool>) {
    0 <= at && 0 <= 8 * |input| - at - |bits| < 8 && BytesBits(input)[at..] == bits + Zeros(8 * |input| - at - |bits|)
  }

  ghost predicate Ahead(c: Cursor, input: seq<Byte>, k: nat, bits: seq<bool>)
    requires k <= 8
  {
    GroupEnds(c, |input|, k) && BitsFrom(input, Place(c, k), bits)
  }

  /** The place of the next code. */
  lemma SeekPlace(p: Params, c: Cursor, total: nat, k: nat, free: nat, clear: bool)
    requires k <= 8 && GroupEnds(c, total, k)
    requires Place(c, k) + GroupGap(p, free, c.n, k, clear) + NextWidth(p, free, c.n, clear) <= 8 * total
    ensures var c', k' := Seek(p, c, total, free, clear), InGroup(p, free, c.n, k, clear);
            && c'.n == NextWidth(p, free, c.n, clear) && c'.pos == Place(c, k) + GroupGap(p, free, c.n, k, clear)
            && Place(c'.(pos := c'.pos + c'.n), k') == c'.pos + c'.n && GroupEnds(c'.(pos := c'.pos + c'.n), total, k')
  {
    hide MaxCode;
    GroupLeft(c.n, k);
    GroupLeft(NextWidth(p, free, c.n, clear), 1);
  }

  /** The first of the bits are those of a code, and the others come behind it. */
  lemma CodeFirst(input: seq<Byte>, at: int, gap: nat, code: nat, w: nat, rest: seq<bool>)
    requires BitsFrom(input, at, Zeros(gap) + Lsb(code, w) + rest) && code < Pow2(w)
    ensures IsField(input, at + gap, w, code) && BitsFrom(input, at + gap + w, rest)
  {
    hide BytesBits, Lsb, Val, Pow2;
    var bits := Zeros(gap) + Lsb(code, w) + rest;
    var z := 8 * |input| - at - |bits|;
    var all := BytesBits(input)[at..];
    assert |all| == gap + w + |rest| + z;
    assert all[gap..gap + w] == Lsb(code, w);
    assert all[gap + w..] == rest + Zeros(z);
    SamePart(BytesBits(input), at, gap, w);
    ValLsb(code, w);
    SmallMod(code, Pow2(w));
  }

  lemma SeekNext(p: Params, c: Cursor, input: seq<Byte>, k: nat, free: nat, clear: bool, code: nat, rest: seq<bool>)
    requires k <= 8 && code < Pow2(NextWidth(p, free, c.n, clear))
    requires Ahead(c, input, k, Zeros(GroupGap(p, free, c.n, k, clear)) + Lsb(code, NextWidth(p, free, c.n, clear)) + rest)
    ensures var c' := Seek(p, c, |input|, free, clear);
            && c'.n == NextWidth(p, free, c.n, clear) && c'.pos >= 0 && c'.pos + c'.n <= 8 * |input| && IsField(input, c'.pos, c'.n, code)
            && Ahead(c'.(pos := c'.pos + c'.n), input, InGroup(p, free, c.n, k, clear), rest)
  {
    hide BytesBits, Lsb, Val, MaxCode, Pow2, GroupEnds, Seek, IsField, OpensGroup, NextWidth, GroupGap, InGroup;
    CodeFirst(input, Place(c, k), GroupGap(p, free, c.n, k, clear), code, NextWidth(p, free, c.n, clear), rest);
    SeekPlace(p, c, |input|, k, free, clear);
  }

  lemma SamePart(s: seq<bool>, at: nat, gap: nat, w: nat)
    requires at + gap + w <= |s|
    ensures s[at..][gap..gap + w] == s[at + gap..at + gap + w] && s[at..][gap + w..] == s[at + gap + w..]
  {
  }

  /** A code that makes sense is the next entry at most. */
  lemma CodeRange(p: Params, d: Dict, n: nat, clear: bool, code: nat)
    requires ParamsOk(p) && DictOk(p, d) && Say(p, d, code).Said? && code < Pow2(p.maxbits)
    requires INIT_BITS <= n <= p.maxbits && |d.strings| <= Pow2(n) && (clear ==> |d.strings| <= FIRST)
    requires |d.strings| > MaxCode(p, n) ==> n < p.maxbits
    ensures code < Pow2(NextWidth(p, |d.strings|, n, clear))
    ensures |Say(p, d, code).dict.strings| <= Pow2(NextWidth(p, |d.strings|, n, clear))
    ensures IsClear(p, code) ==> |Say(p, d, code).dict.strings| <= FIRST
  {
    hide Singles;
    Pow2Values();
    Pow2Monotone(INIT_BITS, n);
    assert Pow2(n + 1) == 2 * Pow2(n);
    assert code <= |d.strings|;
  }

  /** The codes in front of the reader, taken apart. */
  lemma FirstBits(p: Params, d: Dict, n: nat, k: nat, clear: bool, codes: seq<nat>)
    requires Sayable(p, d, codes) && k <= 8 && codes != []
    ensures codes[0] < Pow2(p.maxbits) && Say(p, d, codes[0]).Said? && Sayable(p, Say(p, d, codes[0]).dict, codes[1..])
    ensures var free := |d.strings|;
            var w := NextWidth(p, free, n, clear);
            CodeBits(p, d, n, k, clear, codes) == Zeros(GroupGap(p, free, n, k, clear)) + Lsb(codes[0], w)
              + CodeBits(p, Say(p, d, codes[0]).dict, w, InGroup(p, free, n, k, clear), IsClear(p, codes[0]), codes[1..])
  {
    hide Say, MaxCode, Zeros, Lsb, Pow2, GroupGap, InGroup;
  }

  lemma MachParts(p: Params, m: Mach, input: seq<Byte>)
    requires MachOk(p, m, input)
    ensures ParamsOk(p) && ReaderOk(p, m.reader, input) && DictOk(p, m.dict) && INIT_BITS <= m.reader.n_bits <= p.maxbits
    ensures m.reader.maxcode == MaxCode(p, m.reader.n_bits) && (|m.dict.strings| > m.reader.maxcode ==> m.reader.n_bits < p.maxbits)
  {
    hide DictOk;
  }

  /** The next code is read, and what it says is put out. */
  lemma OneCode(p: Params, m: Mach, input: seq<Byte>, k: nat, codes: seq<nat>) returns (m': Mach, k': nat)
    requires Facing(p, m, input, k, codes) && codes != []
    ensures Facing(p, m', input, k', codes[1..]) && m'.out == m.out + Say(p, m.dict, codes[0]).s
    ensures Say(p, m.dict, codes[0]).Said? && m'.dict == Say(p, m.dict, codes[0]).dict
  {
    hide Say, DictOk, ReaderOk, Reached, Fetch, MachOk, MaxCode, CodeBits, Sayable, Lsb, Zeros, Pow2, Ahead, Seek, IsField,
      CursorOf, GroupGap, InGroup, NextWidth;
    var d, r, code := m.dict, m.reader, codes[0];
    var c := CursorOf(r);
    MachParts(p, m, input);
    CursorWidth(r);
    FirstBits(p, d, r.n_bits, k, m.clear, codes);
    CodeRange(p, d, r.n_bits, m.clear, code);
    var w := NextWidth(p, |d.strings|, c.n, m.clear);
    k' := InGroup(p, |d.strings|, c.n, k, m.clear);
    WidthEnough(p, |d.strings|, c.n, m.clear);
    SeekNext(p, c, input, k, |d.strings|, m.clear, code, CodeBits(p, Say(p, d, code).dict, w, k', IsClear(p, code), codes[1..]));
    Taken(p, r, input, |d.strings|, m.clear, code, w);
    var g := Fetch(p, r, input, |d.strings|, m.clear);
    CursorWidth(g.reader);
    StepSaid(p, m, input, code);
    m' := Step(p, m, input).mach;
    ReachedNext(p, input, m);
  }

  lemma WidthEnough(p: Params, free: nat, n: nat, clear: bool)
    requires n >= INIT_BITS
    ensures NextWidth(p, free, n, clear) >= INIT_BITS
  {
  }

  lemma CursorWidth(r: Reader)
    ensures CursorOf(r).n == r.n_bits
  {
  }

  /** The code is fetched from where it is. */
  lemma Taken(p: Params, r: Reader, input: seq<Byte>, free: nat, clear: bool, code: nat, w: nat)
    requires ParamsOk(p) && ReaderOk(p, r, input) && (free > r.maxcode ==> r.n_bits < p.maxbits) && w >= 1
    requires var c := Seek(p, CursorOf(r), |input|, free, clear); c.n == w && c.pos >= 0 && c.pos + w <= 8 * |input| && IsField(input, c.pos, w, code)
    ensures var g, c := Fetch(p, r, input, free, clear), Seek(p, CursorOf(r), |input|, free, clear);
            g.code == code && CursorOf(g.reader) == c.(pos := c.pos + c.n)
  {
    hide ReaderOk, Fetch, Seek, CursorOf, Val, BytesBits, Pow2;
    FetchIsField(p, r, input, free, clear);
  }

  lemma StepSaid(p: Params, m: Mach, input: seq<Byte>, code: nat)
    requires MachOk(p, m, input) && Fetch(p, m.reader, input, |m.dict.strings|, m.clear).code == code && Say(p, m.dict, code).Said?
    ensures var g := Fetch(p, m.reader, input, |m.dict.strings|, m.clear);
            Step(p, m, input) == More(Mach(g.reader, Say(p, m.dict, code).dict, IsClear(p, code), m.out + Say(p, m.dict, code).s))
  {
    hide Fetch, Say, MachOk;
  }

  /** There are no more codes, and the reader finds the end. */
  lemma NoMoreCodes(p: Params, m: Mach, input: seq<Byte>, k: nat)
    requires Facing(p, m, input, k, [])
    ensures Step(p, m, input).End?
  {
    hide Say, DictOk, ReaderOk, Reached, Fetch, MaxCode, Lsb, Pow2, IsField, Val, BytesBits;
    var r := m.reader;
    MachParts(p, m, input);
    AtLast(p, CursorOf(r), input, k, |m.dict.strings|, m.clear);
    FetchIsField(p, r, input, |m.dict.strings|, m.clear);
  }

  lemma AtLast(p: Params, c: Cursor, input: seq<Byte>, k: nat, free: nat, clear: bool)
    requires k <= 8 && Ahead(c, input, k, [])
    ensures Seek(p, c, |input|, free, clear).pos == 8 * |input|
  {
    hide MaxCode, BytesBits;
    GroupLeft(c.n, k);
    assert c.pos + c.n > 8 * c.end;
  }

  /** All codes are read, and what they say is put out. */
  lemma {:induction false} AllCodes(p: Params, m: Mach, input: seq<Byte>, k: nat, codes: seq<nat>) returns (m': Mach)
    requires Facing(p, m, input, k, codes)
    ensures Sayable(p, m.dict, codes) && MachOk(p, m', input) && Reached(p, input, m') && Step(p, m', input).End?
    ensures m'.out == m.out + Spoken(p, m.dict, codes)
    decreases codes
  {
    hide Say, MachOk, Reached, Ahead, CodeBits, Step, Pow2;
    if codes == [] {
      NoMoreCodes(p, m, input, k);
      m' := m;
    } else {
      var next, k1 := OneCode(p, m, input, k, codes);
      m' := AllCodes(p, next, input, k1, codes[1..]);
    }
  }

  /** At the beginning of the file. */
  lemma FacingStart(p: Params, codes: seq<nat>)
    requires ParamsOk(p) && Sayable(p, Begin(p), codes)
    ensures Facing(p, Start(p), FileOf(p, codes), 8, codes)
  {
    hide Sayable, CodeBits, BytesBits, Pack;
    var input := FileOf(p, codes);
    var bits := CodeBits(p, Begin(p), INIT_BITS, 8, false, codes);
    StartOk(p, input);
    ReachedStart(p, input);
    BytesBitsAppend(input[..3], input[3..]);
    assert input == input[..3] + input[3..];
    BytesBitsPack(bits + Zeros(Missing(|bits|)));
    assert (BytesBits(input[..3]) + (bits + Zeros(Missing(|bits|))))[24..] == bits + Zeros(Missing(|bits|));
    Pow2Values();
  }

  lemma FileHeader(p: Params, codes: seq<nat>)
    requires ParamsOk(p) && Sayable(p, Begin(p), codes)
    ensures HeaderOk(FileOf(p, codes)) && HeaderParams(FileOf(p, codes)) == p
  {
    hide Sayable, CodeBits, Pack;
  }

  lemma PrefixOfPrefix(a: seq<Byte>, b: seq<Byte>, c: seq<Byte>)
    requires a <= b && b <= c
    ensures a <= c
  {
  }

  /**
   Whatever codes the file has been made of, and whatever reads its bytes are asked for in: no read
   fails, what has been delivered is a beginning of what the codes say, and at the end it is all of it.
   */
  lemma FileIsRead(p: Params, codes: seq<nat>, z: ZState)
    requires ParamsOk(p) && Sayable(p, Begin(p), codes) && z.Valid() && z.input == FileOf(p, codes)
    ensures z.state != FAILED && z.out <= Spoken(p, Begin(p), codes)
    ensures z.state == S_EOF ==> z.out == Spoken(p, Begin(p), codes)
  {
    hide Sayable, Spoken, FileOf, MachOk, Reached, Step, Facing, ZState.Middle, HeaderOk, HeaderParams, AtEnd, Broken;
    FileHeader(p, codes);
    FacingStart(p, codes);
    var e := AllCodes(p, Start(p), z.input, 8, codes);
    assert e.out == Spoken(p, Begin(p), codes);
    if z.state != S_START {
      z.HasRun();
      SameRun(p, z.input, e, z.mach);
      PrefixOfPrefix(z.out, z.mach.out, e.out);
    }
  }

  /* ---------- from a text to codes ---------- */

  /** Single bytes are their own codes, and a clear code stands for nothing. */
  ghost predicate Letters(p: Params, d: Dict) {
    DictOk(p, d) && (forall c :: 0 <= c < 256 ==> d.strings[c] == [c]) && (p.block ==> d.strings[CLEAR] == [])
  }

  /** Of the codes below c the one with the longest string that the data begin with. */
  function LongestCode(d: Dict, data: seq<Byte>, c: nat): (r: nat)
    requires data != []
  {
    if c <= 256 then data[0]
    else
      var r, s := LongestCode(d, data, c - 1), Meaning(d, c - 1);
      if s <= data && |s| > |Meaning(d, r)| then c - 1 else r
  }

  lemma {:induction false} LongestCodeSays(p: Params, d: Dict, data: seq<Byte>, c: nat)
    requires Letters(p, d) && data != [] && 256 <= c
    ensures var r := LongestCode(d, data, c);
            r < c && !IsClear(p, r) && Meaning(d, r) != [] && Meaning(d, r) <= data
    ensures forall b :: 0 <= b < c && Meaning(d, b) <= data ==> |Meaning(d, b)| <= |Meaning(d, LongestCode(d, data, c))|
  {
    if c > 256 {
      LongestCodeSays(p, d, data, c - 1);
    }
  }

  /** The codes that there are: those of the table, and the next one if there is room for it. */
  function Known(p: Params, d: Dict): (n: nat) {
    if |d.strings| < Pow2(p.maxbits) then |d.strings| + 1 else |d.strings|
  }

  lemma BeginsWithLetters(p: Params)
    requires ParamsOk(p)
    ensures Letters(p, Begin(p)) && |Begin(p).strings| < Pow2(p.maxbits)
  {
    Pow2Values();
    Pow2Monotone(12, p.maxbits);
  }

  lemma LettersKept(p: Params, d: Dict, s: seq<Byte>)
    requires ParamsOk(p) && Letters(p, d) && s != []
    ensures Letters(p, Entered(p, d, s))
  {
  }

  /** The longest string each time, and a clear code when the table is full. */
  ghost function Codes(p: Params, d: Dict, data: seq<Byte>): (codes: seq<nat>)
    requires ParamsOk(p) && Letters(p, d)
    decreases |data|, if |d.strings| < Pow2(p.maxbits) then 0 else 1
  {
    hide Letters, Pow2, Meaning, Entered, LongestCode, Known, Singles;
    if data == [] then []
    else if p.block && |d.strings| >= Pow2(p.maxbits) then
      BeginsWithLetters(p);
      [CLEAR] + Codes(p, Begin(p), data)
    else
      var code := LongestCode(d, data, Known(p, d));
      var s := Meaning(d, code);
      EnoughKnown(p, d);
      LongestCodeSays(p, d, data, Known(p, d));
      LettersKept(p, d, s);
      [code] + Codes(p, Entered(p, d, s), data[|s|..])
  }

  lemma EnoughKnown(p: Params, d: Dict)
    requires Letters(p, d)
    ensures 256 <= Known(p, d) <= Pow2(p.maxbits)
  {
  }

  /** The codes say the text. */
  lemma {:induction false} CodesSayData(p: Params, d: Dict, data: seq<Byte>)
    requires ParamsOk(p) && Letters(p, d)
    ensures Sayable(p, d, Codes(p, d, data)) && Spoken(p, d, Codes(p, d, data)) == data
    decreases |data|, if |d.strings| < Pow2(p.maxbits) then 0 else 1
  {
    hide Letters, Pow2, Meaning, Entered, LongestCode, Known, Singles;
    if data == [] {
    } else if p.block && |d.strings| >= Pow2(p.maxbits) {
      BeginsWithLetters(p);
      CodesSayData(p, Begin(p), data);
      ClearSaid(p, d, Codes(p, Begin(p), data));
    } else {
      var code := LongestCode(d, data, Known(p, d));
      var s := Meaning(d, code);
      EnoughKnown(p, d);
      LongestCodeSays(p, d, data, Known(p, d));
      LettersKept(p, d, s);
      CodesSayData(p, Entered(p, d, s), data[|s|..]);
      assert s + data[|s|..] == data;
      var codes := Codes(p, Entered(p, d, s), data[|s|..]);
      assert ([code] + codes)[1..] == codes;
    }
  }

  lemma ClearSaid(p: Params, d: Dict, codes: seq<nat>)
    requires ParamsOk(p) && p.block && Sayable(p, Begin(p), codes)
    ensures Sayable(p, d, [CLEAR] + codes) && Spoken(p, d, [CLEAR] + codes) == Spoken(p, Begin(p), codes)
  {
    hide Singles, Pow2;
    assert ([CLEAR] + codes)[1..] == codes;
    Pow2Values();
    Pow2Monotone(12, p.maxbits);
  }

  /** The text as a file. */
  ghost function Compressed(p: Params, data: seq<Byte>): (input: seq<Byte>)
    requires ParamsOk(p)
  {
    hide Letters, CodeBits, Pack, Sayable, Spoken;
    BeginsWithLetters(p);
    CodesSayData(p, Begin(p), data);
    FileOf(p, Codes(p, Begin(p), data))
  }

  /** The round trip, for every text, with and without a clear code and for every width. */
  lemma RoundTrip(p: Params, data: seq<Byte>, z: ZState)
    requires ParamsOk(p) && z.Valid() && z.input == Compressed(p, data)
    ensures z.state != FAILED && z.out <= data && (z.state == S_EOF ==> z.out == data)
  {
    hide Letters, Sayable, Spoken, FileOf, ZState.Valid;
    BeginsWithLetters(p);
    CodesSayData(p, Begin(p), data);
    FileIsRead(p, Codes(p, Begin(p), data), z);
  }

  /* ---------- two files ---------- */

  lemma SayA(block: bool)
    ensures var p, d := Params(block, 16), Dict(Singles(block) + [[97, 97]], [97, 97]);
            && Sayable(p, Begin(p), [97, if block then 257 else 256])
            && Spoken(p, Begin(p), [97, if block then 257 else 256]) == [97, 97, 97]
  {
    hide Singles;
    Pow2Values();
    var p, next := Params(block, 16), if block then 257 else 256;
    var d := Begin(p);
    assert Say(p, d, 97) == Said(Dict(d.strings, [97]), [97]) by { LetterA(block); }
    var e := Dict(d.strings, [97]);
    assert Say(p, e, next) == Said(Entered(p, e, [97, 97]), [97, 97]);
    assert [97, next][1..] == [next] && [next][1..] == [];
    assert Sayable(p, e, [next]) && Spoken(p, e, [next]) == [97, 97] + [];
    assert Spoken(p, d, [97, next]) == [97] + Spoken(p, e, [next]);
  }

  lemma LetterA(block: bool)
    ensures Singles(block)[97] == [97]
  {
  }

  /** The bits of two codes of nine bits. */
  lemma TwoCodes(p: Params, next: nat)
    requires p.maxbits == 16 && next == (if p.block then 257 else 256) && Sayable(p, Begin(p), [97, next])
    ensures CodeBits(p, Begin(p), 9, 8, false, [97, next]) == Lsb(97, 9) + Lsb(next, 9)
  {
    hide Lsb, Singles;
    Pow2Values();
    var d := Begin(p);
    assert Say(p, d, 97).Said? && Say(p, d, 97).dict.strings == d.strings;
    var e := Say(p, d, 97).dict;
    assert [97, next][1..] == [next] && [next][1..] == [];
    assert CodeBits(p, e, 9, 1, false, [next]) == Zeros(0) + Lsb(next, 9) + [];
    assert CodeBits(p, d, 9, 8, false, [97, next]) == Zeros(0) + Lsb(97, 9) + CodeBits(p, e, 9, 1, false, [next]);
  }

  lemma PackOf(bytes: seq<Byte>, bits: seq<bool>)
    requires BytesBits(bytes) == bits
    ensures |bits| % 8 == 0 && Pack(bits) == bytes
  {
    hide BytesBits, Pack;
    BytesBitsPack(bits);
    SameBytesBits(bytes, Pack(bits));
    SameBytesBits(Pack(bits), bytes);
  }

  lemma LsbValues()
    ensures Lsb(97, 9) == Lsb(0x61, 8) + [false] && Lsb(0, 8) == Zeros(8)
    ensures Lsb(2, 8) == [false, true] + Zeros(6)
    ensures Lsb(257, 9) == [true] + Zeros(7) + [true] && Lsb(256, 9) == Zeros(8) + [true]
  {
    hide Lsb, Shr;
    NineBits(97);
    NineBits(256);
    NineBits(257);
    LsbMod(256, 8);
    LsbMod(257, 8);
    Pow2Values();
    LsbZeros(8);
    LsbZeros(7);
    LsbZeros(6);
    LsbBit(1, 7);
    LsbBit(1, 6);
    LsbBit(2, 7);
  }

  lemma NineBits(v: nat)
    requires v < 512
    ensures Lsb(v, 9) == Lsb(v, 8) + [v >= 256]
  {
    hide Lsb, Shr, Pow2;
    LsbSplit(v, 8, 1);
    ShrIsDiv(v, 8);
    Pow2Values();
    LsbBit(Shr(v, 8), 0);
    NoBits(Shr(v, 8) / 2);
  }

  lemma NoBits(v: nat)
    ensures Lsb(v, 0) == []
  {
  }

  lemma LsbBit(v: nat, n: nat)
    ensures Lsb(v, n + 1) == [v % 2 == 1] + Lsb(v / 2, n)
  {
  }

  lemma SampleBits()
    ensures BytesBits([0x61, 2, 2]) == Lsb(97, 9) + Lsb(257, 9) + Zeros(6)
    ensures BytesBits([0x61, 0, 2]) == Lsb(97, 9) + Lsb(256, 9) + Zeros(6)
  {
    hide BytesBits, Lsb;
    ThreeBytes(0x61, 2, 2);
    ThreeBytes(0x61, 0, 2);
    LsbValues();
  }

  lemma ThreeBytes(a: Byte, b: Byte, c: Byte)
    ensures BytesBits([a, b, c]) == Lsb(a, 8) + Lsb(b, 8) + Lsb(c, 8)
  {
    hide Lsb;
    assert [a, b, c][..2] == [a, b] && [a, b][..1] == [a] && [a][..0] == [];
    assert BytesBits([a]) == Lsb(a, 8);
    assert BytesBits([a, b]) == Lsb(a, 8) + Lsb(b, 8);
  }

  /** The codes 97 and the next entry: "1f 9d 90 61 02 02", and with the third byte 10 "1f 9d 10 61 00 02". */
  lemma SampleFiles()
    ensures Sayable(Params(true, 16), Begin(Params(true, 16)), [97, 257]) && Sayable(Params(false, 16), Begin(Params(false, 16)), [97, 256])
    ensures FileOf(Params(true, 16), [97, 257]) == [0x1f, 0x9d, 0x90, 0x61, 2, 2]
    ensures FileOf(Params(false, 16), [97, 256]) == [0x1f, 0x9d, 0x10, 0x61, 0, 2]
  {
    hide BytesBits, Lsb, Pack, CodeBits, Sayable, Zeros;
    SayA(true);
    SayA(false);
    TwoCodes(Params(true, 16), 257);
    TwoCodes(Params(false, 16), 256);
    SampleBits();
    PackOf([0x61, 2, 2], Lsb(97, 9) + Lsb(257, 9) + Zeros(6));
    PackOf([0x61, 0, 2], Lsb(97, 9) + Lsb(256, 9) + Zeros(6));
  }

  /** Both are read as three times the letter a. */
  lemma SamplesRead(z: ZState)
    requires z.Valid() && (z.input == [0x1f, 0x9d, 0x90, 0x61, 2, 2] || z.input == [0x1f, 0x9d, 0x10, 0x61, 0, 2])
    ensures z.state != FAILED && z.out <= [97, 97, 97] && (z.state == S_EOF ==> z.out == [97, 97, 97])
  {
    hide Sayable, Spoken, FileOf, ZState.Valid;
    SampleFiles();
    SayA(true);
    SayA(false);
    if z.input[2] == 0x90 {
      FileIsRead(Params(true, 16), [97, 257], z);
    } else {
      FileIsRead(Params(false, 16), [97, 256], z);
    }
  }
}
