/**
 Two limits of zread (gzip_all/zuncompress.c): what becomes of a file that ends within its first
 code, and how long the strings are that go through its stack.
 */
module LzwLimits {
  import opened Bits
  import opened Packing
  import opened Lzw

  /** A file with no more than eight bits after its header. */
  function ShortFile(b: Byte): (input: seq<Byte>) {
    [0x1f, 0x9d, 0x90, b]
  }

  /** The input ends within the first code, but a code is made of it all the same, with zeros from the empty buffer. */
  lemma ShortGroup(b: Byte)
    ensures var p := Params(true, 16);
            && MachOk(p, Start(p), ShortFile(b)) && 8 * (|ShortFile(b)| - 3) < INIT_BITS
            && Step(p, Start(p), ShortFile(b)).More? && Step(p, Start(p), ShortFile(b)).mach.out == [b]
  {
    hide Val, BytesBits, Lsb, MachOk;
    var p, input := Params(true, 16), ShortFile(b);
    StartOk(p, input);
    var r := Refilled(p, Start(p).reader, input, FIRST, false);
    var g := r.gbuf;
    assert g == [b] + seq(BITS, _ => 0);
    BytesBitsAt(g, 0);
    BytesBitsAt(g, 1);
    var S := BytesBits(g);
    assert S[0..9] == S[0..8] + S[8..9];
    assert S[8..9] == S[8..16][..1];
    ValAppend(S[0..8], S[8..9]);
    ValLsb(b, 8);
    ValPrefix(Lsb(0, 8), 1);
    ValLsb(0, 8);
    Pow2Values();
    assert Field(r) == b;
    OneByteSaid(p, b);
  }

  lemma OneByteSaid(p: Params, b: Byte)
    ensures Say(p, Dict(Singles(true), []), b).Said? && Say(p, Dict(Singles(true), []), b).s == [b]
  {
  }

  /* ---------- no string is longer ---------- */

  /** The most bytes that the string of code c can have; a clear code takes the place of one string. */
  function Longest(p: Params, c: int): int {
    if c < 256 then 1 else if p.block then c - 255 else c - 254
  }

  ghost predicate Short(p: Params, d: Dict) {
    (forall c :: 0 <= c < |d.strings| ==> |d.strings[c]| <= Longest(p, c)) && |d.prev| <= Longest(p, |d.strings| - 1)
  }

  lemma ShortKept(p: Params, d: Dict, code: nat)
    requires DictOk(p, d) && Short(p, d) && Say(p, d, code).Said? && code < Pow2(p.maxbits)
    ensures Short(p, Say(p, d, code).dict)
  {
    var d' := Say(p, d, code).dict;
    if !IsClear(p, code) {
      assert |Meaning(d, code)| <= Longest(p, |d'.strings| - 1);
    }
  }

  lemma {:induction false} RunShort(p: Params, m: Mach, input: seq<Byte>, n: nat)
    requires MachOk(p, m, input) && Short(p, m.dict) && Run(p, m, input, n).More?
    ensures Short(p, Run(p, m, input, n).mach.dict)
    decreases n
  {
    hide Fetch, Say, Short, DictOk, ReaderOk;
    if n > 0 {
      FetchKeeps(p, m.reader, input, |m.dict.strings|, m.clear);
      CodeFits(p, m.reader, input, |m.dict.strings|, m.clear);
      ShortKept(p, m.dict, Fetch(p, m.reader, input, |m.dict.strings|, m.clear).code);
      StepKeeps(p, m, input);
      RunShort(p, Step(p, m, input).mach, input, n - 1);
    }
  }

  /** No code of any file stands for more bytes than this. */
  lemma StringsBounded(p: Params, input: seq<Byte>, m: Mach)
    requires Reached(p, input, m)
    ensures |m.dict.prev| <= Longest(p, Pow2(p.maxbits) - 1)
  {
    hide Run, ReaderOk, Fetch;
    var n: nat :| Run(p, Start(p), input, n) == More(m);
    RunShort(p, Start(p), input, n);
    Pow2Monotone(12, p.maxbits);
    Pow2Values();
  }

  /* ---------- a file with the longest string ---------- */

  function Repeated(n: nat): (s: seq<Byte>)
    ensures |s| == n
  {
    seq(n, _ => 97)
  }

  /** The dictionary after 97 and n codes of the next entry. */
  function Ramp(n: nat): Dict {
    Dict(Singles(false) + seq(n, i requires i >= 0 => Repeated(i + 2)), Repeated(n + 1))
  }

  lemma RampStarts(p: Params)
    requires !p.block
    ensures Say(p, Dict(Singles(false), []), 97) == Said(Ramp(0), [97])
  {
    assert Repeated(1) == [97];
    assert Singles(false) + [] == Singles(false);
  }

  /** Each of these strings is one longer than the one before. */
  lemma RampGrows(p: Params, n: nat)
    requires !p.block && CLEAR + n < Pow2(p.maxbits)
    ensures Say(p, Ramp(n), CLEAR + n) == Said(Ramp(n + 1), Repeated(n + 2))
  {
    var d := Ramp(n);
    assert d.prev + [d.prev[0]] == Repeated(n + 2);
    assert d.strings + [Repeated(n + 2)] == Ramp(n + 1).strings;
  }

  /** The codes of the file, and the widths in which they are to be written. */
  function RampCode(i: nat): nat {
    if i == 0 then 97 else 255 + i
  }

  function RampWidth(i: nat): (n: nat)
    ensures INIT_BITS <= n <= BITS
  {
    if i <= 256 then 9
    else if i <= 768 then 10
    else if i <= 1792 then 11
    else if i <= 3840 then 12
    else if i <= 7936 then 13
    else if i <= 16128 then 14
    else if i <= 32512 then 15
    else 16
  }

  /** Only the codes of nine bits do not fill their groups: seven are missing in the last. */
  function Gap(i: nat): nat {
    if i == 257 then 63 else 0
  }

  function RampBits(n: nat): seq<bool> {
    if n == 0 then [] else RampBits(n - 1) + Zeros(Gap(n - 1)) + Lsb(RampCode(n - 1), RampWidth(n - 1))
  }

  /** Whole bytes, and more than another group after the last code. */
  function Padding(n: nat): nat {
    if n % 8 == 0 then 192 else 200 - n % 8
  }

  function RampFile(n: nat): (input: seq<Byte>) {
    [0x1f, 0x9d, 0x10] + Pack(RampBits(n) + Zeros(Padding(|RampBits(n)|)))
  }

  lemma {:induction false} RampPrefix(i: nat, n: nat)
    requires i <= n
    ensures RampBits(i) <= RampBits(n)
    decreases n - i
  {
    if i < n {
      RampPrefix(i + 1, n);
    }
  }

  /** Code i is in the file, behind the codes before it. */
  lemma CodeInFile(n: nat, i: nat)
    requires i < n && RampCode(i) < Pow2(RampWidth(i))
    ensures var pos := 24 + |RampBits(i)| + Gap(i);
            IsField(RampFile(n), pos, RampWidth(i), RampCode(i)) && pos + RampWidth(i) + 192 <= 8 * |RampFile(n)|
  {
    hide Val, BytesBits, Lsb, RampCode, RampWidth, Gap, Padding, Pack, RampBits;
    var head: seq<Byte> := [0x1f, 0x9d, 0x10];
    var all := RampBits(n) + Zeros(Padding(|RampBits(n)|));
    var w := RampWidth(i);
    PaddedWhole(|RampBits(n)|);
    BytesBitsAppend(head, Pack(all));
    BytesBitsPack(all);
    RampPrefix(i + 1, n);
    LastBits(i);
    var at := |RampBits(i)| + Gap(i);
    assert (BytesBits(head) + all)[24 + at..24 + at + w] == all[at..at + w] == RampBits(i + 1)[at..at + w];
    ValLsb(RampCode(i), w);
    SmallMod(RampCode(i), Pow2(w));
  }

  lemma PaddedWhole(n: nat)
    ensures (n + Padding(n)) % 8 == 0 && Padding(n) >= 192
  {
  }

  lemma LastBits(i: nat)
    ensures var at := |RampBits(i)| + Gap(i);
            && |RampBits(i + 1)| == at + RampWidth(i)
            && RampBits(i + 1)[at..at + RampWidth(i)] == Lsb(RampCode(i), RampWidth(i))
  {
    hide Lsb, RampCode, RampWidth;
  }

  /** How many codes of its group have been read after i codes. */
  function InGroup(i: nat): (k: nat)
    requires i >= 1
    ensures 1 <= k <= 8
  {
    if i <= 257 then (i - 1) % 8 + 1 else (i - 2) % 8 + 1
  }

  /** The place in the file after i codes. */
  ghost predicate Placed(i: nat, c: Cursor) {
    i >= 1 && c.n == RampWidth(i - 1) && c.pos == 24 + |RampBits(i)| && 8 * c.end == c.pos + c.n * (8 - InGroup(i))
  }

  /** The codes become wider where a group ends, but for the first time. */
  lemma RampWidens(i: nat)
    requires 1 <= i <= 65280
    ensures 255 + i < Pow2(RampWidth(i))
    ensures RampWidth(i) == RampWidth(i - 1) + if 255 + i > MaxCode(Params(false, 16), RampWidth(i - 1)) then 1 else 0
    ensures RampWidth(i) != RampWidth(i - 1) ==> i == 257 || InGroup(i) == 8
    ensures InGroup(i + 1) == if i == 257 || InGroup(i) == 8 then 1 else InGroup(i) + 1
    ensures i == 257 ==> RampWidth(i - 1) == 9 && InGroup(i) == 1
  {
    Pow2Values();
  }

  lemma RampSeek(total: nat, i: nat, c: Cursor)
    requires Placed(i, c) && i <= 65280 && c.pos + 63 + 128 <= 8 * total
    ensures var c' := Seek(Params(false, 16), c, total, 255 + i, false);
            && c'.pos == 24 + |RampBits(i)| + Gap(i) && c'.n == RampWidth(i)
            && Placed(i + 1, c'.(pos := c'.pos + c'.n))
  {
    hide RampBits, MaxCode, InGroup, RampWidth;
    RampWidens(i);
    LastBits(i);
    GroupLeft(c.n, InGroup(i));
    var c' := Seek(Params(false, 16), c, total, 255 + i, false);
    if InGroup(i) == 8 || i == 257 {
      assert 8 * c.end == c.pos + Gap(i);
      assert c'.pos == 8 * c.end && c'.end == c.end + c'.n;
      GroupLeft(c'.n, 1);
    } else {
      assert c' == c;
    }
  }

  /** The run over the file has come to the i-th of these codes. */
  ghost predicate RampAt(n: nat, i: nat, m: Mach) {
    && MachOk(Params(false, 16), m, RampFile(n)) && Reached(Params(false, 16), RampFile(n), m)
    && i >= 1 && m.dict == Ramp(i - 1) && !m.clear && Placed(i, CursorOf(m.reader))
  }

  /** The next code, whatever has led to its place. */
  lemma RampFetch(n: nat, i: nat, r: Reader, free: nat)
    requires i < n && ReaderOk(Params(false, 16), r, RampFile(n)) && (free > r.maxcode ==> r.n_bits < 16)
    requires var c := Seek(Params(false, 16), CursorOf(r), |RampFile(n)|, free, false);
             c.pos == 24 + |RampBits(i)| + Gap(i) && c.n == RampWidth(i) && RampCode(i) < Pow2(c.n)
    ensures var g, c := Fetch(Params(false, 16), r, RampFile(n), free, false), Seek(Params(false, 16), CursorOf(r), |RampFile(n)|, free, false);
            g.code == RampCode(i) && CursorOf(g.reader) == c.(pos := c.pos + c.n)
  {
    hide RampFile, RampBits, RampCode, RampWidth, Gap, ReaderOk, Fetch, Seek, Pow2, BytesBits, Val;
    CodeInFile(n, i);
    FetchIsField(Params(false, 16), r, RampFile(n), free, false);
  }

  lemma RampFirst(n: nat) returns (m: Mach)
    requires n >= 1
    ensures RampAt(n, 1, m) && m.dict.prev == Repeated(1)
  {
    hide RampFile, RampBits, ReaderOk, Fetch, Pow2, BytesBits, Val, Say, Reached, DictOk;
    var p, input := Params(false, 16), RampFile(n);
    var m0 := Start(p);
    Pow2Values();
    CodeInFile(n, 0);
    NoBitsYet();
    StartOk(p, input);
    ReachedStart(p, input);
    RampFetch(n, 0, m0.reader, 256);
    RampStarts(p);
    ReachedNext(p, input, m0);
    LastBits(0);
    m := Step(p, m0, input).mach;
  }

  lemma NoBitsYet()
    ensures RampBits(0) == []
  {
  }

  lemma RampNext(n: nat, i: nat, m: Mach) returns (m': Mach)
    requires RampAt(n, i, m) && i < n && i <= 65280
    ensures RampAt(n, i + 1, m') && m'.dict.prev == Repeated(i + 1)
  {
    hide RampFile, RampBits, ReaderOk, Fetch, Pow2, BytesBits, Val, Say, Reached, Seek, DictOk, Placed, MaxCode;
    var p, input := Params(false, 16), RampFile(n);
    Pow2Values();
    RampWidens(i);
    CodeInFile(n, i);
    RampFits(n, i, CursorOf(m.reader));
    RampSeek(|input|, i, CursorOf(m.reader));
    RampFetch(n, i, m.reader, 255 + i);
    RampGrows(p, i - 1);
    ReachedNext(p, input, m);
    m' := Step(p, m, input).mach;
  }

  lemma RampFits(n: nat, i: nat, c: Cursor)
    requires Placed(i, c) && i < n && i <= 65280
    ensures c.pos + 63 + 128 <= 8 * |RampFile(n)|
  {
    hide RampFile, RampBits, Pow2, MaxCode;
    RampWidens(i);
    CodeInFile(n, i);
  }

  lemma {:induction false} RampRun(n: nat, i: nat) returns (m: Mach)
    requires 1 <= i <= n && i <= 65281
    ensures RampAt(n, i, m) && m.dict.prev == Repeated(i)
  {
    hide RampAt, Repeated;
    if i == 1 {
      m := RampFirst(n);
    } else {
      var before := RampRun(n, i - 1);
      m := RampNext(n, i - 1, before);
    }
  }

  /**
   Of a file without a clear code, with codes of up to 16 bits, that says the next entry again and
   again the last string has one byte more than (1 << BITS) - 256.
   */
  lemma LongestString()
    ensures exists input, m :: Reached(Params(false, 16), input, m) && |m.dict.prev| == 65281
  {
    hide RampFile, MachOk, Reached, Placed;
    var n := 65281;
    var m := RampRun(n, n);
    assert Reached(Params(false, 16), RampFile(n), m);
  }

  /** So the bound holds for all files with a given third byte exactly if it says otherwise. */
  lemma StackBoundIff(p: Params)
    requires ParamsOk(p)
    ensures (forall input, m :: Reached(p, input, m) ==> |m.dict.prev| <= 65536 - 256) <==> p.block || p.maxbits < 16
  {
    hide Reached;
    Pow2Values();
    Pow2Monotone(p.maxbits, 16);
    if p.block || p.maxbits < 16 {
      if p.maxbits < 16 {
        Pow2Monotone(p.maxbits, 15);
      }
      forall input, m | Reached(p, input, m) ensures |m.dict.prev| <= 65280 {
        StringsBounded(p, input, m);
      }
    } else {
      LongestString();
    }
  }
}
