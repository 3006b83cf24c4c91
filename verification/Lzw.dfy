/**
 LZW as a dictionary of strings, and the code stream of compress: codes of growing width, packed
 low bits first into groups of eight codes (gzip_all/zuncompress.c).
 */
module Lzw {
  import opened Bits

  const CLEAR: nat := 256
  const FIRST: nat := 257
  const INIT_BITS: nat := 9
  const BITS: nat := 16

  /** From the third byte of the header: whether there is a clear code, and the width of the longest codes. */
  datatype Params = Params(block: bool, maxbits: nat)

  predicate ParamsOk(p: Params) {
    12 <= p.maxbits <= BITS
  }

  /* ---------- the dictionary ---------- */

  /** All strings known, by code, and the last one said; that is empty at the beginning and after a clear code. */
  datatype Dict = Dict(strings: seq<seq<Byte>>, prev: seq<Byte>)

  /** The clear code takes the place of a string. */
  function Singles(block: bool): (s: seq<seq<Byte>>)
    ensures |s| == if block then FIRST else CLEAR
  {
    seq(if block then FIRST else CLEAR, i requires i >= 0 => if i < 256 then [i] else [])
  }

  datatype Saying = Wrong | Said(dict: Dict, s: seq<Byte>)

  predicate IsClear(p: Params, code: nat) {
    p.block && code == CLEAR
  }

  /** The string of a code; the code of the next entry stands for the last string and its first byte once more. */
  function Meaning(d: Dict, code: nat): (s: seq<Byte>) {
    if code < |d.strings| then d.strings[code]
    else if code == |d.strings| && d.prev != [] then d.prev + [d.prev[0]]
    else []
  }

  /** The last string with the first byte of this one is entered, as long as there is room. */
  function Entered(p: Params, d: Dict, s: seq<Byte>): Dict
    requires s != []
  {
    Dict(if |d.strings| < Pow2(p.maxbits) && d.prev != [] then d.strings + [d.prev + [s[0]]] else d.strings, s)
  }

  function Say(p: Params, d: Dict, code: nat): Saying {
    if IsClear(p, code) then Said(Dict(Singles(true), []), [])
    else
      var s := Meaning(d, code);
      if s == [] then Wrong else Said(Entered(p, d, s), s)
  }

  ghost predicate DictOk(p: Params, d: Dict) {
    && (if p.block then FIRST else CLEAR) <= |d.strings| <= Pow2(p.maxbits)
    && (forall c :: 0 <= c < |d.strings| ==> d.strings[c] != [] || IsClear(p, c))
  }

  lemma SayKeeps(p: Params, d: Dict, code: nat)
    requires ParamsOk(p) && DictOk(p, d) && Say(p, d, code).Said?
    ensures DictOk(p, Say(p, d, code).dict)
  {
    Pow2Values();
    Pow2Monotone(12, p.maxbits);
  }

  /* ---------- the code stream ---------- */

  /** A group of codes: their width, the first code that needs more bits, the buffer and what of it is used. */
  datatype Reader = Reader(n_bits: nat, maxcode: nat, gbuf: seq<Byte>, size: int, roffset: nat, at: nat)

  /** As long as a whole code is left in it the buffer holds the bytes of the input in front of at. */
  ghost predicate ReaderOk(p: Params, r: Reader, input: seq<Byte>) {
    && |r.gbuf| == BITS + 1 && INIT_BITS <= r.n_bits <= p.maxbits && r.at <= |input|
    && r.maxcode == MaxCode(p, r.n_bits)
    && r.size <= 7 * r.n_bits + 1 && r.roffset <= 8 * r.n_bits
    && (r.roffset < r.size ==> Loaded(r, input))
  }

  /** The bytes of the group in the buffer. */
  function Held(r: Reader): int {
    (r.size + r.n_bits - 1) / 8
  }

  ghost predicate Loaded(r: Reader, input: seq<Byte>) {
    var len := Held(r);
    0 <= len <= r.at <= |input| && len <= |r.gbuf| && r.size == 8 * len - (r.n_bits - 1) && r.gbuf[..len] == input[r.at - len..r.at]
  }

  /** The width that the table asks for. */
  function Width(p: Params, r: Reader, free: nat, clear: bool): (n: nat) {
    if clear then INIT_BITS else if free > r.maxcode then r.n_bits + 1 else r.n_bits
  }

  function MaxCode(p: Params, n: nat): nat {
    if n == p.maxbits then Pow2(p.maxbits) else Pow2(n) - 1
  }

  predicate NeedsGroup(r: Reader, free: nat, clear: bool) {
    clear || r.roffset >= r.size || free > r.maxcode
  }

  /** The next group: at most eight codes, what is left of the old buffer stays in it. */
  function Refilled(p: Params, r: Reader, input: seq<Byte>, free: nat, clear: bool): (r': Reader)
    requires |r.gbuf| == BITS + 1 && r.at <= |input| && Width(p, r, free, clear) <= BITS
    ensures |r'.gbuf| == BITS + 1 && r.at <= r'.at <= |input|
  {
    var n := Width(p, r, free, clear);
    var len := if |input| - r.at < n then |input| - r.at else n;
    Reader(n, MaxCode(p, n), input[r.at..r.at + len] + r.gbuf[len..], 8 * len - (n - 1), 0, r.at + len)
  }

  /** The code in the buffer: n_bits bits from roffset on. */
  function Field(r: Reader): nat
    requires |r.gbuf| == BITS + 1 && r.roffset + r.n_bits <= 8 * BITS
  {
    Val(BytesBits(r.gbuf)[r.roffset..r.roffset + r.n_bits])
  }

  function Passed(r: Reader): Reader {
    r.(roffset := r.roffset + r.n_bits)
  }

  /** When there is nothing left the code is -1. */
  datatype Got = Got(reader: Reader, code: int)

  ghost function Fetch(p: Params, r: Reader, input: seq<Byte>, free: nat, clear: bool): Got
    requires ParamsOk(p) && ReaderOk(p, r, input) && (free > r.maxcode ==> r.n_bits < p.maxbits)
  {
    if NeedsGroup(r, free, clear) then
      var r' := Refilled(p, r, input, free, clear);
      if r'.at == r.at then Got(r', -1) else Got(Passed(r'), Field(r'))
    else Got(Passed(r), Field(r))
  }

  lemma RefillKeeps(p: Params, r: Reader, input: seq<Byte>, free: nat, clear: bool)
    requires ParamsOk(p) && ReaderOk(p, r, input) && (free > r.maxcode ==> r.n_bits < p.maxbits)
    ensures ReaderOk(p, Refilled(p, r, input, free, clear), input)
  {
  }

  lemma FetchKeeps(p: Params, r: Reader, input: seq<Byte>, free: nat, clear: bool)
    requires ParamsOk(p) && ReaderOk(p, r, input) && (free > r.maxcode ==> r.n_bits < p.maxbits)
    ensures var g := Fetch(p, r, input, free, clear);
            ReaderOk(p, g.reader, input) && g.code >= -1 && r.at <= g.reader.at
            && (g.code >= 0 ==> g.reader.at > r.at || (r.roffset < r.size && g.reader.size == r.size && g.reader.roffset > r.roffset))
  {
    hide Val, BytesBits, Field, Refilled, MaxCode, Pow2, Loaded, ReaderOk;
    ReaderBounds(p, r, input);
    RefillKeeps(p, r, input, free, clear);
    RefilledAt(p, r, input, free, clear);
    if NeedsGroup(r, free, clear) {
      PassedKeeps(p, Refilled(p, r, input, free, clear), input);
    } else {
      PassedKeeps(p, r, input);
    }
  }

  lemma ReaderBounds(p: Params, r: Reader, input: seq<Byte>)
    requires ParamsOk(p) && ReaderOk(p, r, input)
    ensures |r.gbuf| == BITS + 1 && INIT_BITS <= r.n_bits <= p.maxbits && r.at <= |input| && r.size <= 7 * r.n_bits + 1
  {
  }

  lemma PassedKeeps(p: Params, r: Reader, input: seq<Byte>)
    requires ParamsOk(p) && ReaderOk(p, r, input) && (r.roffset < r.size || r.roffset == 0)
    ensures ReaderOk(p, Passed(r), input) && r.n_bits >= 1
  {
  }

  lemma RefilledAt(p: Params, r: Reader, input: seq<Byte>, free: nat, clear: bool)
    requires |r.gbuf| == BITS + 1 && r.at <= |input| && Width(p, r, free, clear) <= BITS
    ensures var r' := Refilled(p, r, input, free, clear); r'.at >= r.at && r'.roffset == 0 && r'.n_bits == Width(p, r, free, clear)
    ensures var r' := Refilled(p, r, input, free, clear); r'.size == 8 * (r'.at - r.at) - (r'.n_bits - 1)
  {
  }

  /** Codes are not wider than they may be. */
  lemma CodeFits(p: Params, r: Reader, input: seq<Byte>, free: nat, clear: bool)
    requires ParamsOk(p) && ReaderOk(p, r, input) && (free > r.maxcode ==> r.n_bits < p.maxbits)
    ensures Fetch(p, r, input, free, clear).code < Pow2(p.maxbits) <= 0x10000
  {
    hide Val, BytesBits, Pow2;
    RefillKeeps(p, r, input, free, clear);
    var r1 := if NeedsGroup(r, free, clear) then Refilled(p, r, input, free, clear) else r;
    ValBound(BytesBits(r1.gbuf)[r1.roffset..r1.roffset + r1.n_bits]);
    Pow2Monotone(r1.n_bits, p.maxbits);
    Pow2Monotone(p.maxbits, 16);
    Pow2Values();
  }

  /* ---------- where the codes are in the file ---------- */

  /** The width of the codes, the end of the group and the bit where the next code begins. */
  datatype Cursor = Cursor(n: nat, end: nat, pos: int)

  function CursorOf(r: Reader): Cursor {
    Cursor(r.n_bits, r.at, 8 * r.at - (r.size + r.n_bits - 1) + r.roffset)
  }

  /**
   The place of the next code in a file of total bytes. A group of codes of n bits takes n bytes,
   or what is left of the file; the next one begins where it ends, when there is no whole code left
   in it, when the codes become wider, and after a clear code.
   */
  function Seek(p: Params, c: Cursor, total: nat, free: nat, clear: bool): Cursor {
    var wider := free > MaxCode(p, c.n);
    var n := if clear then INIT_BITS else if wider then c.n + 1 else c.n;
    if clear || wider || c.pos + c.n > 8 * c.end then
      Cursor(n, if total - c.end < n then total else c.end + n, 8 * c.end)
    else c
  }

  /** What is left of a group of eight codes of n bits after k of them. */
  lemma GroupLeft(n: nat, k: nat)
    requires k <= 8 && n >= 1
    ensures n * (8 - k) < n <==> k == 8
    ensures k < 8 ==> n * (8 - k) == n + n * (8 - (k + 1))
    ensures k == 1 ==> n * (8 - k) == 7 * n
    ensures k == 8 ==> n * (8 - k) == 0
  {
    if k < 8 {
      MulAtLeast(n, 8 - k);
    }
  }

  /** The n bits of the file from bit pos on are there and make up the code. */
  ghost predicate IsField(input: seq<Byte>, pos: int, n: nat, code: int) {
    0 <= pos && pos + n <= 8 * |input| && code == Val(BytesBits(input)[pos..pos + n])
  }

  lemma BitsOfPiece(input: seq<Byte>, at: nat, len: nat, rest: seq<Byte>, o: nat, n: nat)
    requires at + len <= |input| && o + n <= 8 * len
    ensures BytesBits(input[at..at + len] + rest)[o..o + n] == BytesBits(input)[8 * at + o..8 * at + o + n]
  {
    hide BytesBits;
    var a, b, c := input[..at], input[at..at + len], input[at + len..];
    assert input == a + b + c;
    BytesBitsAppend(a + b, c);
    BytesBitsAppend(a, b);
    BytesBitsAppend(b, rest);
    var x, y, z := BytesBits(a), BytesBits(b), BytesBits(c);
    assert ((x + y) + z)[8 * at + o..8 * at + o + n] == y[o..o + n];
    assert (y + BytesBits(rest))[o..o + n] == y[o..o + n];
  }

  /** What is in the group is what is in the file. */
  lemma FieldOfGroup(r: Reader, input: seq<Byte>)
    requires |r.gbuf| == BITS + 1 && Loaded(r, input) && r.roffset + r.n_bits <= 8 * Held(r) && Held(r) <= BITS
    ensures IsField(input, CursorOf(r).pos, r.n_bits, Field(r))
  {
    hide Val, BytesBits;
    var len := Held(r);
    assert r.gbuf == input[r.at - len..r.at] + r.gbuf[len..];
    BitsOfPiece(input, r.at - len, len, r.gbuf[len..], r.roffset, r.n_bits);
  }

  lemma RefilledLoaded(p: Params, r: Reader, input: seq<Byte>, free: nat, clear: bool)
    requires |r.gbuf| == BITS + 1 && r.at <= |input| && Width(p, r, free, clear) <= BITS
    ensures var r' := Refilled(p, r, input, free, clear);
            Loaded(r', input) && Held(r') == r'.at - r.at <= BITS && r'.roffset == 0 && r'.n_bits == Width(p, r, free, clear)
            && r'.at == if |input| - r.at < r'.n_bits then |input| else r.at + r'.n_bits
  {
  }

  /**
   Each code is taken from the place that Seek says: there is none exactly at the end of the file,
   and it is the field at that place exactly if the field does not go beyond the end of the file.
   It does so only in a last group that is not empty and too short for a single code.
   */
  lemma FetchIsField(p: Params, r: Reader, input: seq<Byte>, free: nat, clear: bool)
    requires ParamsOk(p) && ReaderOk(p, r, input) && (free > r.maxcode ==> r.n_bits < p.maxbits)
    ensures var g, c := Fetch(p, r, input, free, clear), Seek(p, CursorOf(r), |input|, free, clear);
            && (g.code == -1 <==> c.pos == 8 * |input|)
            && (g.code != -1 ==> CursorOf(g.reader) == c.(pos := c.pos + c.n))
            && (g.code != -1 ==> (IsField(input, c.pos, c.n, g.code) <==> c.pos + c.n <= 8 * |input|))
            && (g.code != -1 && c.pos + c.n > 8 * |input| ==> c.pos == 8 * r.at < 8 * |input| == 8 * c.end && NeedsGroup(r, free, clear))
  {
    hide Val, BytesBits, Field;
    if NeedsGroup(r, free, clear) {
      RefilledLoaded(p, r, input, free, clear);
      var r' := Refilled(p, r, input, free, clear);
      if r'.n_bits <= 8 * Held(r') {
        FieldOfGroup(r', input);
      }
    } else {
      FieldOfGroup(r, input);
    }
  }

  /** A code that is made up is the last one. */
  lemma MadeUpIsLast(p: Params, r: Reader, input: seq<Byte>, free: nat, clear: bool, free': nat, clear': bool)
    requires ParamsOk(p) && ReaderOk(p, r, input) && (free > r.maxcode ==> r.n_bits < p.maxbits)
    requires var g, c := Fetch(p, r, input, free, clear), Seek(p, CursorOf(r), |input|, free, clear);
             g.code != -1 && c.pos + c.n > 8 * |input| && (free' > g.reader.maxcode ==> g.reader.n_bits < p.maxbits)
    ensures var g := Fetch(p, r, input, free, clear);
            ReaderOk(p, g.reader, input) && Fetch(p, g.reader, input, free', clear').code == -1
  {
    hide Fetch, ReaderOk;
    var g := Fetch(p, r, input, free, clear);
    FetchKeeps(p, r, input, free, clear);
    FetchIsField(p, r, input, free, clear);
    FetchIsField(p, g.reader, input, free', clear');
  }

  /* ---------- the whole machine ---------- */

  datatype Mach = Mach(reader: Reader, dict: Dict, clear: bool, out: seq<Byte>)

  datatype Turn = End(reader: Reader) | Fail | More(mach: Mach)

  ghost predicate MachOk(p: Params, m: Mach, input: seq<Byte>) {
    ParamsOk(p) && ReaderOk(p, m.reader, input) && DictOk(p, m.dict)
    && (|m.dict.strings| > m.reader.maxcode ==> m.reader.n_bits < p.maxbits)
  }

  ghost function Start(p: Params): Mach {
    Mach(Reader(INIT_BITS, Pow2(INIT_BITS) - 1, seq(BITS + 1, _ => 0), 0, 0, 3), Dict(Singles(p.block), []), false, [])
  }

  /** One code. */
  ghost function Step(p: Params, m: Mach, input: seq<Byte>): Turn
    requires MachOk(p, m, input)
  {
    var g := Fetch(p, m.reader, input, |m.dict.strings|, m.clear);
    if g.code < 0 then End(g.reader)
    else
      match Say(p, m.dict, g.code)
      case Wrong => Fail
      case Said(d, s) => More(Mach(g.reader, d, IsClear(p, g.code), m.out + s))
  }

  lemma StepKeeps(p: Params, m: Mach, input: seq<Byte>)
    requires MachOk(p, m, input) && Step(p, m, input).More?
    ensures MachOk(p, Step(p, m, input).mach, input)
  {
    hide Fetch, Say, DictOk, ReaderOk;
    var g := Fetch(p, m.reader, input, |m.dict.strings|, m.clear);
    FetchKeeps(p, m.reader, input, |m.dict.strings|, m.clear);
    SayKeeps(p, m.dict, g.code);
    MaxCodeEnough(p, g.reader, input, Say(p, m.dict, g.code).dict);
  }

  /** Codes of the greatest width are enough for a full table. */
  lemma MaxCodeEnough(p: Params, r: Reader, input: seq<Byte>, d: Dict)
    requires ReaderOk(p, r, input) && DictOk(p, d)
    ensures |d.strings| > r.maxcode ==> r.n_bits < p.maxbits
  {
  }

  lemma StartOk(p: Params, input: seq<Byte>)
    requires ParamsOk(p) && |input| >= 3
    ensures MachOk(p, Start(p), input)
  {
    Pow2Values();
    Pow2Monotone(12, p.maxbits);
  }

  /** After n codes. */
  ghost function Run(p: Params, m: Mach, input: seq<Byte>, n: nat): (t: Turn)
    requires MachOk(p, m, input)
    ensures t.More? ==> MachOk(p, t.mach, input) && m.out <= t.mach.out
    decreases n
  {
    if n == 0 then More(m)
    else
      match Step(p, m, input)
      case More(m') =>
        StepKeeps(p, m, input);
        StepAdds(p, m, input);
        Run(p, m', input, n - 1)
      case t => t
  }

  lemma StepAdds(p: Params, m: Mach, input: seq<Byte>)
    requires MachOk(p, m, input) && Step(p, m, input).More?
    ensures m.out <= Step(p, m, input).mach.out
  {
    hide Fetch, Say, MachOk;
  }

  lemma {:induction false} RunOn(p: Params, m: Mach, input: seq<Byte>, k: nat, n: nat)
    requires MachOk(p, m, input) && Run(p, m, input, k).More?
    ensures Run(p, m, input, k + n) == Run(p, Run(p, m, input, k).mach, input, n)
    decreases k
  {
    hide Step, MachOk;
    if k > 0 {
      StepKeeps(p, m, input);
      RunOn(p, Step(p, m, input).mach, input, k - 1, n);
      assert k + n - 1 == k - 1 + n;
    }
  }

  ghost predicate Reached(p: Params, input: seq<Byte>, m: Mach) {
    MachOk(p, Start(p), input) && exists n: nat :: Run(p, Start(p), input, n) == More(m)
  }

  lemma ReachedStart(p: Params, input: seq<Byte>)
    requires ParamsOk(p) && |input| >= 3
    ensures Reached(p, input, Start(p))
  {
    StartOk(p, input);
    assert Run(p, Start(p), input, 0) == More(Start(p));
  }

  lemma ReachedNext(p: Params, input: seq<Byte>, m: Mach)
    requires Reached(p, input, m) && MachOk(p, m, input) && Step(p, m, input).More?
    ensures Reached(p, input, Step(p, m, input).mach) && MachOk(p, Step(p, m, input).mach, input)
  {
    hide Step, MachOk;
    var n: nat :| Run(p, Start(p), input, n) == More(m);
    StepKeeps(p, m, input);
    RunOn(p, Start(p), input, n, 1);
    assert Run(p, m, input, 1) == Run(p, Step(p, m, input).mach, input, 0);
    assert Run(p, Start(p), input, n + 1) == More(Step(p, m, input).mach);
  }

  /** Two places in the same run: what one has put out is the beginning of what the other has, and the end is the end. */
  lemma SameRun(p: Params, input: seq<Byte>, a: Mach, b: Mach)
    requires Reached(p, input, a) && Reached(p, input, b) && MachOk(p, a, input) && MachOk(p, b, input)
    ensures a.out <= b.out || b.out <= a.out
    ensures !Step(p, a, input).More? ==> b.out <= a.out
    ensures !Step(p, a, input).More? && !Step(p, b, input).More? ==> a == b
  {
    hide Step, MachOk;
    var m: nat :| Run(p, Start(p), input, m) == More(a);
    var n: nat :| Run(p, Start(p), input, n) == More(b);
    if m <= n {
      RunOn(p, Start(p), input, m, n - m);
      assert Run(p, a, input, n - m) == More(b);
    } else {
      RunOn(p, Start(p), input, n, m - n);
      assert Run(p, b, input, m - n) == More(a);
    }
  }
}
