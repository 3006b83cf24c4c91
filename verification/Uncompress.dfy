/**
 gzip_all/zuncompress.c: zread with its table of prefixes and suffixes, its output stack and its
 code buffer, proved to deliver what the dictionary of strings says, in pieces of any size.
 */
module Uncompress {
  import opened Bits
  import opened Lzw

  /** Enough for the longest string that a table of 65536 entries can hold, and one byte. */
  const STACK_SIZE: nat := 65281

  /** FAILED stands for S_MIDDLE after a read that has returned -1; no read may follow. */
  datatype State = S_START | S_MIDDLE | S_EOF | FAILED

  function Backwards(s: seq<Byte>): (r: seq<Byte>)
    ensures |r| == |s|
  {
    if s == [] then [] else [s[|s| - 1]] + Backwards(s[..|s| - 1])
  }

  lemma LastFirst(s: seq<Byte>)
    requires s != []
    ensures Backwards(s) == [s[|s| - 1]] + Backwards(s[..|s| - 1])
  {
  }

  /* ---------- the table ---------- */

  /** Entry c of the table says what the dictionary says: a prefix with a smaller code, and a last byte. */
  ghost predicate EntryOk(p: Params, strings: seq<seq<Byte>>, c: nat, prefix: nat, suffix: Byte)
    requires c < |strings|
  {
    if c < 256 then strings[c] == [suffix]
    else IsClear(p, c) || (prefix < c && !IsClear(p, prefix) && strings[c] == strings[prefix] + [suffix])
  }

  ghost predicate TableOk(p: Params, strings: seq<seq<Byte>>, prefixes: seq<nat>, suffixes: seq<Byte>) {
    && |strings| <= |prefixes| == |suffixes|
    && forall c :: 0 <= c < |strings| ==> EntryOk(p, strings, c, prefixes[c], suffixes[c])
  }

  /** No string is longer than its code allows. */
  lemma {:induction false} StringLength(p: Params, strings: seq<seq<Byte>>, prefixes: seq<nat>, suffixes: seq<Byte>, c: nat)
    requires TableOk(p, strings, prefixes, suffixes) && c < |strings| && !IsClear(p, c)
    ensures 1 <= |strings[c]| <= if c < 256 then 1 else if p.block then c - 255 else c - 254
    decreases c
  {
    assert EntryOk(p, strings, c, prefixes[c], suffixes[c]);
    if c >= 256 {
      StringLength(p, strings, prefixes, suffixes, prefixes[c]);
    }
  }

  /** What the table says about code c, as one step of the way down to a single byte. */
  lemma StringParts(p: Params, strings: seq<seq<Byte>>, prefixes: seq<nat>, suffixes: seq<Byte>, c: nat)
    requires TableOk(p, strings, prefixes, suffixes) && c < |strings| && !IsClear(p, c)
    ensures strings[c] != []
    ensures c >= 256 ==> prefixes[c] < c && !IsClear(p, prefixes[c]) && strings[c] == strings[prefixes[c]] + [suffixes[c]]
    ensures c < 256 ==> strings[c] == [suffixes[c]]
  {
    assert EntryOk(p, strings, c, prefixes[c], suffixes[c]);
    if c >= 256 {
      StringLength(p, strings, prefixes, suffixes, c);
    }
  }

  lemma TableGrows(p: Params, strings: seq<seq<Byte>>, prefixes: seq<nat>, suffixes: seq<Byte>, old_code: nat, x: Byte)
    requires TableOk(p, strings, prefixes, suffixes) && CLEAR <= |strings| < |prefixes| && !IsClear(p, |strings|)
    requires old_code < |strings| && !IsClear(p, old_code)
    ensures TableOk(p, strings + [strings[old_code] + [x]], prefixes[|strings| := old_code], suffixes[|strings| := x])
  {
    var n := |strings|;
    var more, ps, ss := strings + [strings[old_code] + [x]], prefixes[n := old_code], suffixes[n := x];
    forall c | 0 <= c < |more| ensures EntryOk(p, more, c, ps[c], ss[c]) {
      if c < n {
        assert EntryOk(p, strings, c, prefixes[c], suffixes[c]);
      }
    }
  }

  lemma TableCleared(p: Params, prefixes: seq<nat>, suffixes: seq<Byte>)
    requires |prefixes| == |suffixes| >= FIRST && forall c :: 0 <= c < 256 ==> suffixes[c] == c
    ensures TableOk(p, Singles(p.block), prefixes, suffixes)
  {
    forall c | 0 <= c < |Singles(p.block)| ensures EntryOk(p, Singles(p.block), c, prefixes[c], suffixes[c]) {
    }
  }

  /* ---------- bits of a code ---------- */

  /** Low order bits from byte b, high order bits from the next one. */
  lemma TwoParts(g: seq<Byte>, b: nat, r: nat, hi: nat)
    requires r < 8 && hi <= 8 && b + 1 < |g|
    ensures Val(BytesBits(g)[8 * b + r..8 * b + 8 + hi]) == g[b] / Pow2(r) + Pow2(8 - r) * (g[b + 1] % Pow2(hi))
  {
    hide Val, BytesBits, Pow2;
    var S := BytesBits(g);
    PartsOfByte(g, b, r);
    PartsOfByte(g, b + 1, hi);
    var x, y := S[8 * b + r..8 * b + 8], S[8 * b + 8..8 * b + 8 + hi];
    assert S[8 * b + r..8 * b + 8 + hi] == x + y;
    ValAppend(x, y);
  }

  /** With eight bits in the middle. */
  lemma ThreeParts(g: seq<Byte>, b: nat, r: nat, hi: nat)
    requires r < 8 && hi <= 8 && b + 2 < |g|
    ensures Val(BytesBits(g)[8 * b + r..8 * b + 16 + hi]) ==
              g[b] / Pow2(r) + Pow2(8 - r) * g[b + 1] + Pow2(16 - r) * (g[b + 2] % Pow2(hi))
  {
    hide Val, BytesBits, Pow2;
    var S := BytesBits(g);
    TwoParts(g, b, r, 8);
    PartsOfByte(g, b + 2, hi);
    Pow2Values();
    var x, y := S[8 * b + r..8 * b + 16], S[8 * b + 16..8 * b + 16 + hi];
    assert S[8 * b + r..8 * b + 16 + hi] == x + y;
    ValAppend(x, y);
  }

  /** The upper bits of byte i from bit k on, and its lower k bits. */
  lemma PartsOfByte(g: seq<Byte>, i: nat, k: nat)
    requires i < |g| && k <= 8
    ensures Val(BytesBits(g)[8 * i + k..8 * i + 8]) == g[i] / Pow2(k)
    ensures Val(BytesBits(g)[8 * i..8 * i + k]) == g[i] % Pow2(k)
  {
    hide Val, BytesBits, Lsb;
    var s := Lsb(g[i], 8);
    BytesBitsAt(g, i);
    assert BytesBits(g)[8 * i + k..8 * i + 8] == s[k..];
    assert BytesBits(g)[8 * i..8 * i + k] == s[..k];
    ValPrefix(s, k);
    ValLsb(g[i], 8);
    Pow2Values();
  }

  /* ---------- zread ---------- */

  /** The magic number, and a code width that can be handled. */
  predicate HeaderOk(input: seq<Byte>) {
    |input| >= 3 && input[0] == 0x1f && input[1] == 0x9d && 12 <= input[2] % 0x20 <= BITS
  }

  function HeaderParams(input: seq<Byte>): (p: Params)
    requires HeaderOk(input)
    ensures ParamsOk(p)
  {
    Params(input[2] >= 0x80, input[2] % 0x20)
  }

  /** The dictionary that the table stands for. */
  ghost predicate Stands(p: Params, d: Dict, prefixes: seq<nat>, suffixes: seq<Byte>, free_ent: nat, oldcode: int, finchar: Byte) {
    && |d.strings| == free_ent && TableOk(p, d.strings, prefixes, suffixes)
    && (forall c :: 0 <= c < 256 && c < |suffixes| ==> suffixes[c] == c)
    && (if oldcode == -1 then d.prev == []
        else 0 <= oldcode < free_ent && !IsClear(p, oldcode) && d.prev == d.strings[oldcode] && d.prev != [] && finchar == d.prev[0])
  }

  /** incode is the code of s: an entry of the table, or the next one. */
  ghost predicate CodeOf(p: Params, d: Dict, incode: nat, s: seq<Byte>) {
    && !IsClear(p, incode) && s != []
    && (if incode < |d.strings| then s == d.strings[incode]
        else incode == |d.strings| < Pow2(p.maxbits) && d.prev != [] && s == d.prev + [d.prev[0]])
  }

  /** Once the new entry is made incode is in the table. */
  lemma EntryMade(p: Params, d: Dict, prefixes: seq<nat>, suffixes: seq<Byte>, oldcode: int, f0: Byte, incode: nat, s: seq<Byte>)
    requires Stands(p, d, prefixes, suffixes, |d.strings|, oldcode, f0) && CodeOf(p, d, incode, s) && DictOk(p, d)
    requires |prefixes| == 0x10000 && ParamsOk(p)
    ensures oldcode == -1 || |d.strings| == Pow2(p.maxbits) ==>
      Stands(p, Entered(p, d, s), prefixes, suffixes, |d.strings|, incode, s[0])
    ensures oldcode != -1 && |d.strings| < Pow2(p.maxbits) ==>
      && |d.strings| < |prefixes| && oldcode >= 0
      && Stands(p, Entered(p, d, s), prefixes[|d.strings| := oldcode], suffixes[|d.strings| := s[0]], |d.strings| + 1, incode, s[0])
  {
    hide TableOk;
    Pow2Values();
    Pow2Monotone(p.maxbits, 16);
    TableSizes(p, d.strings, prefixes, suffixes);
    if oldcode != -1 && |d.strings| < Pow2(p.maxbits) {
      TableGrows(p, d.strings, prefixes, suffixes, oldcode, s[0]);
    }
  }

  lemma TableSizes(p: Params, strings: seq<seq<Byte>>, prefixes: seq<nat>, suffixes: seq<Byte>)
    requires TableOk(p, strings, prefixes, suffixes)
    ensures |strings| <= |prefixes| == |suffixes|
  {
  }

  lemma ReaderRange(p: Params, r: Reader, input: seq<Byte>)
    requires ReaderOk(p, r, input)
    ensures r.at <= |input|
  {
  }

  lemma DictRange(p: Params, d: Dict)
    requires DictOk(p, d)
    ensures |d.strings| <= Pow2(p.maxbits)
  {
  }

  /** The last group of the input is being looked at. */
  ghost predicate AtEnd(p: Params, m: Mach, input: seq<Byte>) {
    MachOk(p, m, input) && Reached(p, input, m) && Step(p, m, input).End?
  }

  /** The stream is wrong where the run has come to m. */
  ghost predicate Broken(p: Params, m: Mach, input: seq<Byte>) {
    MachOk(p, m, input) && Reached(p, input, m) && Step(p, m, input).Fail?
  }

  lemma RefilledIs(p: Params, r: Reader, input: seq<Byte>, free: nat, clear: bool)
    requires |r.gbuf| == BITS + 1 && r.at <= |input| && Width(p, r, free, clear) <= BITS
    ensures var n := Width(p, r, free, clear);
            var len := if |input| - r.at < n then |input| - r.at else n;
            var r' := Refilled(p, r, input, free, clear);
            && r'.n_bits == n && r'.maxcode == MaxCode(p, n) && r'.gbuf == input[r.at..r.at + len] + r.gbuf[len..]
            && r'.size == 8 * len - (n - 1) && r'.roffset == 0 && r'.at == r.at + len
  {
  }

  datatype Next = AtEof | BadStream | Cleared | OnStack

  class ZState {
    /** What is in front of the file and the file. */
    const input: seq<Byte>
    const prefix: array<nat>
    const suffix: array<Byte>
    const de_stack: array<Byte>
    const gbuf: array<Byte>
    var state: State
    var at: nat
    var n_bits: nat
    var maxbits: nat
    var maxcode: nat
    var maxmaxcode: nat
    var free_ent: nat
    var block_compress: bool
    var clear_flg: bool
    var oldcode: int
    var incode: nat
    var finchar: Byte
    var stackp: nat
    var roffset: nat
    var size: int
    /** The machine after the codes so far, the dictionary before the last of them, and what has been delivered. */
    ghost var mach: Mach
    ghost var before: Dict
    ghost var out: seq<Byte>

    ghost predicate Sizes() {
      && prefix.Length == suffix.Length == 0x10000 && de_stack.Length == STACK_SIZE && gbuf.Length == BITS + 1
      && suffix != de_stack && suffix != gbuf && de_stack != gbuf
      && (prefix as object) != suffix && (prefix as object) != de_stack && (prefix as object) != gbuf
    }

    ghost function Repr(): set<object> {
      {this, prefix, suffix, de_stack, gbuf}
    }

    /** zdopen */
    constructor (input: seq<Byte>)
      ensures Valid() && this.input == input && state == S_START && out == []
      ensures fresh(Repr())
    {
      this.input := input;
      prefix, suffix := new nat[0x10000](_ => 0), new Byte[0x10000](_ => 0);
      de_stack, gbuf := new Byte[STACK_SIZE](_ => 0), new Byte[BITS + 1](_ => 0);
      state, at, n_bits, maxbits, maxcode, maxmaxcode := S_START, 0, 0, 0, 0, 0;
      free_ent, block_compress, clear_flg := 0, false, false;
      oldcode, incode, finchar, stackp, roffset, size := 0, 0, 0, 0, 0, 0;
      mach, before, out := Mach(Reader(0, 0, [], 0, 0, 0), Dict([], []), false, []), Dict([], []), [];
    }

    function P(): Params
      reads `block_compress, `maxbits
    {
      Params(block_compress, maxbits)
    }

    ghost predicate ReaderIs(r: Reader)
      reads `n_bits, `maxcode, gbuf, `size, `roffset, `at
    {
      r == Reader(n_bits, maxcode, gbuf[..], size, roffset, at)
    }

    ghost predicate DictIs(d: Dict)
      reads `block_compress, `maxbits, prefix, suffix, `free_ent, `oldcode, `finchar
    {
      Stands(P(), d, prefix[..], suffix[..], free_ent, oldcode, finchar)
    }

    /** The run has come to mach. */
    ghost predicate Running()
      reads `block_compress, `maxbits, `maxmaxcode, `mach, `n_bits, `maxcode, gbuf, `size, `roffset, `at
    {
      && HeaderOk(input) && P() == HeaderParams(input) && maxmaxcode == Pow2(maxbits)
      && MachOk(P(), mach, input) && Reached(P(), input, mach) && ReaderIs(mach.reader)
    }

    /** Between codes: all has been delivered. */
    ghost predicate Between()
      reads `block_compress, `maxbits, `maxmaxcode, `mach, `n_bits, `maxcode, gbuf, `size, `roffset, `at
      reads prefix, suffix, `free_ent, `oldcode, `finchar, `clear_flg, `stackp, `out
    {
      Running() && DictIs(mach.dict) && clear_flg == mach.clear && stackp == 0 && out == mach.out
    }

    /** The table is as before; finchar already belongs to the new string. */
    ghost predicate Waiting()
      reads `block_compress, `maxbits, prefix, suffix, `free_ent, `oldcode, `before
    {
      exists f :: Stands(P(), before, prefix[..], suffix[..], free_ent, oldcode, f)
    }

    /** A code has been taken, and what it stands for is on the stack; the new entry has not been made yet. */
    ghost predicate Middle()
      reads `block_compress, `maxbits, `maxmaxcode, `mach, `n_bits, `maxcode, gbuf, `size, `roffset, `at
      reads prefix, suffix, `free_ent, `oldcode, `clear_flg, `stackp, `out, `before, `incode, `finchar, de_stack
    {
      && Running() && !clear_flg && !mach.clear && CodeOf(P(), before, incode, mach.dict.prev) && finchar == mach.dict.prev[0]
      && DictOk(P(), before) && mach.dict == Entered(P(), before, mach.dict.prev)
      && Waiting()
      && stackp <= de_stack.Length && mach.out == out + Backwards(de_stack[..stackp])
    }

    ghost predicate Valid()
      reads this, Repr()
    {
      Sizes() &&
      match state
      case S_START => out == [] && at == 0 && !clear_flg && (forall i :: 0 <= i < gbuf.Length ==> gbuf[i] == 0) && size == 0 && roffset == 0
      case S_MIDDLE => Middle() && stackp > 0
      case S_EOF => HeaderOk(input) && AtEnd(HeaderParams(input), mach, input) && out == mach.out
      case FAILED => (!HeaderOk(input) && out == []) || (HeaderOk(input) && Broken(HeaderParams(input), mach, input) && out <= mach.out)
    }

    /** The header, and the first 256 entries of the table. */
    method Header() returns (ok: bool)
      requires Valid() && state == S_START
      modifies `at, `maxbits, `block_compress, `maxmaxcode, `maxcode, `n_bits, `free_ent, `oldcode, `stackp, `mach, prefix, suffix
      ensures ok <==> HeaderOk(input)
      ensures ok ==> Between()
    {
      hide MachOk, Reached, TableOk, Pow2, Between, Start;
      if |input| < 3 || input[0] != 0x1f || input[1] != 0x9d {
        return false;
      }
      at := 3;
      block_compress, maxbits := input[2] / 0x80 == 1, input[2] % 0x20;
      maxmaxcode := Pow2(maxbits);
      if maxbits > BITS || maxbits < 12 {
        return false;
      }
      SingleBytes();
      Begin();
      ok := true;
    }

    method Begin()
      requires Sizes() && HeaderOk(input) && P() == HeaderParams(input) && maxmaxcode == Pow2(maxbits)
      requires size == roffset == 0 && at == 3 && !clear_flg && out == []
      requires (forall c :: 0 <= c < 256 ==> suffix[c] == c) && (forall i :: 0 <= i < gbuf.Length ==> gbuf[i] == 0)
      modifies `maxcode, `n_bits, `free_ent, `oldcode, `stackp, `mach
      ensures Between()
    {
      hide MachOk, Reached, TableOk, Pow2, Between, Start;
      n_bits := INIT_BITS;
      maxcode := Pow2(n_bits) - 1;
      free_ent := if block_compress then FIRST else 256;
      oldcode, stackp := -1, 0;
      mach := Start(P());
      Begun();
    }

    /** Everything is as at the start of the run. */
    lemma Begun()
      requires Sizes() && HeaderOk(input) && P() == HeaderParams(input) && maxmaxcode == Pow2(maxbits) && mach == Start(P())
      requires n_bits == INIT_BITS && maxcode == Pow2(n_bits) - 1 && size == roffset == 0 && at == 3
      requires (forall c :: 0 <= c < 256 ==> suffix[c] == c) && (forall i :: 0 <= i < gbuf.Length ==> gbuf[i] == 0)
      requires free_ent == (if block_compress then FIRST else 256) && oldcode == -1 && stackp == 0 && !clear_flg && out == []
      ensures Between()
    {
      hide MachOk, Reached, TableOk, Pow2;
      ReachedStart(P(), input);
      StartOk(P(), input);
      TableCleared(P(), prefix[..], suffix[..]);
      assert gbuf[..] == seq(BITS + 1, _ => 0);
    }

    /** The first 256 entries of the table. */
    method SingleBytes()
      requires Sizes()
      modifies prefix, suffix
      ensures forall c :: 0 <= c < 256 ==> suffix[c] == c
    {
      var code := 256;
      while code > 0
        invariant 0 <= code <= 256
        invariant forall c :: code <= c < 256 ==> suffix[c] == c
      {
        code := code - 1;
        prefix[code], suffix[code] := 0, code;
      }
    }

    /** What there is of the code stream. */
    ghost predicate Streaming(r: Reader)
      reads `block_compress, `maxbits, `maxmaxcode, `n_bits, `maxcode, gbuf, `size, `roffset, `at, `free_ent
    {
      && gbuf.Length == BITS + 1 && maxmaxcode == Pow2(maxbits) && ParamsOk(P())
      && ReaderIs(r) && ReaderOk(P(), r, input) && (free_ent > maxcode ==> n_bits < maxbits)
    }

    lemma RunningStream()
      requires Sizes() && Running() && free_ent == |mach.dict.strings|
      ensures Streaming(mach.reader)
    {
      hide DictOk, ReaderOk, Reached;
    }

    /** getcode */
    method GetCode(ghost r: Reader) returns (code: int)
      requires Streaming(r)
      modifies `n_bits, `maxcode, `clear_flg, gbuf, `size, `roffset, `at
      ensures code == Fetch(P(), r, input, free_ent, old(clear_flg)).code
      ensures code >= 0 ==> !clear_flg && ReaderIs(Fetch(P(), r, input, free_ent, old(clear_flg)).reader)
      ensures var c := Seek(P(), CursorOf(r), |input|, free_ent, old(clear_flg));
              && (code == -1 <==> c.pos == 8 * |input|)
              && (code != -1 ==> (IsField(input, c.pos, c.n, code) <==> c.pos + c.n <= 8 * |input|))
              && (code != -1 && c.pos + c.n > 8 * |input| ==> 8 * r.at == c.pos < 8 * |input| == 8 * c.end)
    {
      hide Val, BytesBits, Pow2, Fetch, Seek, IsField, Refilled, MaxCode, Width, Field, Loaded;
      FetchIsField(P(), r, input, free_ent, clear_flg);
      FetchParts(P(), r, input, free_ent, clear_flg);
      if clear_flg || roffset >= size || free_ent > maxcode {
        var more := FillBuffer(r);
        if !more {
          return -1;
        }
        code := TakeField(Refilled(P(), r, input, free_ent, old(clear_flg)));
      } else {
        code := TakeField(r);
      }
    }

    method TakeField(ghost r: Reader) returns (code: nat)
      requires gbuf.Length == BITS + 1 && ReaderIs(r) && INIT_BITS <= n_bits <= BITS && roffset + n_bits <= 8 * BITS
      modifies `roffset
      ensures code == Field(r) && ReaderIs(Passed(r))
    {
      hide Val, BytesBits;
      code := Extract();
      roffset := roffset + n_bits;
    }

    lemma FetchParts(p: Params, r: Reader, input: seq<Byte>, free: nat, clear: bool)
      requires ParamsOk(p) && ReaderOk(p, r, input) && (free > r.maxcode ==> r.n_bits < p.maxbits)
      ensures var g, r' := Fetch(p, r, input, free, clear), Refilled(p, r, input, free, clear);
              if NeedsGroup(r, free, clear) then
                if r'.at == r.at then g.code == -1
                else g == Got(Passed(r'), Field(r')) && INIT_BITS <= r'.n_bits <= BITS && r'.roffset + r'.n_bits <= 8 * BITS
              else g == Got(Passed(r), Field(r)) && r.roffset + r.n_bits <= 8 * BITS
    {
      hide Field, Pow2;
    }

    /** Longer codes if the next entry will be too big, and short ones again after a clear code. */
    method Widen(ghost r: Reader)
      requires Streaming(r)
      modifies `n_bits, `maxcode, `clear_flg
      ensures n_bits == Width(P(), r, free_ent, old(clear_flg)) <= BITS && maxcode == MaxCode(P(), n_bits) && !clear_flg
    {
      if free_ent > maxcode {
        n_bits := n_bits + 1;
        maxcode := if n_bits == maxbits then maxmaxcode else Pow2(n_bits) - 1;
      }
      if clear_flg {
        n_bits := INIT_BITS;
        maxcode := Pow2(n_bits) - 1;
        clear_flg := false;
      }
    }

    /** A new buffer full. */
    method FillBuffer(ghost r: Reader) returns (more: bool)
      requires Streaming(r)
      modifies `n_bits, `maxcode, `clear_flg, gbuf, `size, `roffset, `at
      ensures Width(P(), r, free_ent, old(clear_flg)) <= BITS
      ensures more <==> Refilled(P(), r, input, free_ent, old(clear_flg)).at > r.at
      ensures more ==> !clear_flg && ReaderIs(Refilled(P(), r, input, free_ent, old(clear_flg)))
    {
      hide Pow2, Width, MaxCode, Refilled;
      ghost var clear := clear_flg;
      Widen(r);
      ghost var r1 := Refilled(P(), r, input, free_ent, clear);
      RefilledIs(P(), r, input, free_ent, clear);
      var len := Read();
      at := at + len;
      if len == 0 {
        return false;
      }
      size, roffset := 8 * len - (n_bits - 1), 0;
      more := true;
      ReaderSame(r1);
    }

    lemma ReaderSame(r: Reader)
      requires r.n_bits == n_bits && r.maxcode == maxcode && r.gbuf == gbuf[..] && r.size == size && r.roffset == roffset && r.at == at
      ensures ReaderIs(r)
    {
    }

    /** n_bits bytes of input, or as many as there are. */
    method Read() returns (len: nat)
      requires gbuf.Length == BITS + 1 && n_bits <= BITS && at <= |input|
      modifies gbuf
      ensures len == (if |input| - at < n_bits then |input| - at else n_bits)
      ensures gbuf[..] == input[at..at + len] + old(gbuf[..])[len..]
    {
      len := 0;
      while len < n_bits && at + len < |input|
        invariant len <= n_bits && at + len <= |input|
        invariant forall i :: 0 <= i < gbuf.Length ==> gbuf[i] == if i < len then input[at + i] else old(gbuf[i])
      {
        gbuf[len] := input[at + len];
        len := len + 1;
      }
    }

    /** The code at roffset, put together from two or three bytes. */
    method Extract() returns (gcode: nat)
      requires gbuf.Length == BITS + 1 && INIT_BITS <= n_bits <= BITS && roffset + n_bits <= 8 * BITS
      ensures gcode == Val(BytesBits(gbuf[..])[roffset..roffset + n_bits])
    {
      hide Val, BytesBits, Pow2;
      var bp, r := roffset / 8, roffset % 8;
      var bits := n_bits - (8 - r);
      var scale, low := Pow2(8 - r), Pow2(r);
      gcode := gbuf[bp] / low;
      if bits >= 8 {
        var mask, top := Pow2(bits - 8), Pow2(16 - r);
        gcode := gcode + scale * gbuf[bp + 1];
        ThreeParts(gbuf[..], bp, r, bits - 8);
        gcode := gcode + top * (gbuf[bp + 2] % mask);
      } else {
        var mask := Pow2(bits);
        TwoParts(gbuf[..], bp, r, bits);
        gcode := gcode + scale * (gbuf[bp + 1] % mask);
      }
    }

    /** The string of code, last byte first. */
    method Unwind(code: nat, ghost d: Dict)
      requires Sizes() && TableOk(P(), d.strings, prefix[..], suffix[..]) && code < |d.strings| && !IsClear(P(), code)
      requires stackp + |d.strings[code]| <= de_stack.Length
      modifies `stackp, `finchar, de_stack
      ensures stackp == old(stackp) + |d.strings[code]| && d.strings[code] != [] && finchar == d.strings[code][0]
      ensures Backwards(de_stack[..stackp]) == d.strings[code] + Backwards(old(de_stack[..stackp]))
    {
      hide TableOk;
      ghost var s0, whole := de_stack[..stackp], d.strings[code];
      var c: nat := code;
      StringParts(P(), d.strings, prefix[..], suffix[..], c);
      TableSizes(P(), d.strings, prefix[..], suffix[..]);
      while c >= 256
        invariant c < |d.strings| && !IsClear(P(), c) && d.strings[c] != [] && d.strings[c][0] == whole[0]
        invariant stackp + |d.strings[c]| == |s0| + |whole| <= de_stack.Length
        invariant d.strings[c] + Backwards(de_stack[..stackp]) == whole + Backwards(s0)
        decreases c
      {
        StringParts(P(), d.strings, prefix[..], suffix[..], c);
        StringParts(P(), d.strings, prefix[..], suffix[..], prefix[c]);
        Push(suffix[c]);
        c := prefix[c];
      }
      StringParts(P(), d.strings, prefix[..], suffix[..], c);
      finchar := suffix[c];
      Push(suffix[c]);
    }

    method Push(x: Byte)
      requires stackp < de_stack.Length
      modifies `stackp, de_stack
      ensures stackp == old(stackp) + 1 && Backwards(de_stack[..stackp]) == [x] + Backwards(old(de_stack[..stackp]))
    {
      ghost var s := de_stack[..stackp];
      de_stack[stackp] := x;
      stackp := stackp + 1;
      assert de_stack[..stackp] == s + [x];
      assert (s + [x])[..|s|] == s;
    }

    /** CLEAR */
    method Clear(ghost r1: Reader)
      requires Sizes() && HeaderOk(input) && P() == HeaderParams(input) && maxmaxcode == Pow2(maxbits)
      requires MachOk(P(), mach, input) && Reached(P(), input, mach) && ReaderIs(r1) && !clear_flg && stackp == 0 && out == mach.out
      requires Step(P(), mach, input) == More(Mach(r1, Dict(Singles(true), []), true, mach.out)) && block_compress
      requires forall c :: 0 <= c < 256 ==> suffix[c] == c
      modifies prefix, `clear_flg, `free_ent, `oldcode, `mach
      ensures Between()
    {
      hide MachOk, Reached, TableOk, Pow2, Step;
      NoPrefixes();
      clear_flg := true;
      free_ent := FIRST;
      oldcode := -1;
      ReachedNext(P(), input, mach);
      mach := Step(P(), mach, input).mach;
      TableCleared(P(), prefix[..], suffix[..]);
    }

    method NoPrefixes()
      requires Sizes()
      modifies prefix
    {
      var code := 256;
      while code > 0
        invariant 0 <= code <= 256
      {
        code := code - 1;
        prefix[code] := 0;
      }
    }

    /** The string of the code goes onto the stack; s is what it stands for. */
    method Stack(code: nat, ghost d: Dict, ghost s: seq<Byte>) returns (ok: bool)
      requires Sizes() && DictIs(d) && stackp == 0 && s == Meaning(d, code) && code < Pow2(maxbits) <= 0x10000 && !IsClear(P(), code)
      requires free_ent <= 0x10000
      modifies `stackp, `finchar, de_stack, `incode
      ensures ok <==> s != []
      ensures ok ==> incode == code && CodeOf(P(), d, code, s) && finchar == s[0]
      ensures ok ==> stackp == |s| <= de_stack.Length && Backwards(de_stack[..stackp]) == s
    {
      hide TableOk;
      assert Backwards(de_stack[..0]) == [];
      incode := code;
      if code >= free_ent {
        if code > free_ent || oldcode == -1 {
          return false;
        }
        StringLength(P(), d.strings, prefix[..], suffix[..], oldcode);
        Push(finchar);
        Unwind(oldcode, d);
      } else {
        StringLength(P(), d.strings, prefix[..], suffix[..], code);
        Unwind(code, d);
      }
      ok := true;
    }

    /** The code just taken is not a clear code. */
    method String(code: nat, ghost r1: Reader, ghost d: Dict, ghost s: seq<Byte>) returns (ok: bool)
      requires Sizes() && HeaderOk(input) && P() == HeaderParams(input) && maxmaxcode == Pow2(maxbits) && d == mach.dict
      requires MachOk(P(), mach, input) && Reached(P(), input, mach) && ReaderIs(r1) && !clear_flg && stackp == 0 && out == mach.out
      requires DictIs(d) && s == Meaning(d, code) && code < Pow2(maxbits) <= 0x10000 && !IsClear(P(), code) && free_ent <= 0x10000
      requires Step(P(), mach, input) == if s == [] then Fail else More(Mach(r1, Entered(P(), d, s), false, mach.out + s))
      modifies `stackp, `finchar, de_stack, `incode, `mach, `before
      ensures if ok then Middle() && stackp > 0 else mach == old(mach) && s == []
    {
      hide MachOk, Reached, TableOk, Pow2, Step, CodeOf, DictOk, Middle, Stands, Backwards, Meaning;
      ghost var f := finchar;
      ok := Stack(code, d, s);
      if ok {
        before := d;
        MachParts(mach);
        ReachedNext(P(), input, mach);
        mach := Step(P(), mach, input).mach;
        Pushed(s, f);
      }
    }

    lemma Pushed(s: seq<Byte>, f: Byte)
      requires Running() && !clear_flg && !mach.clear && CodeOf(P(), before, incode, s) && finchar == s[0]
      requires mach.dict.prev == s && mach.dict == Entered(P(), before, s) && DictOk(P(), before)
      requires Stands(P(), before, prefix[..], suffix[..], free_ent, oldcode, f)
      requires stackp <= de_stack.Length && mach.out == out + Backwards(de_stack[..stackp])
      ensures Middle()
    {
      hide MachOk, Reached, TableOk, Pow2, Step, CodeOf, DictOk, Entered, Backwards;
    }

    lemma MachParts(m: Mach)
      requires MachOk(P(), m, input)
      ensures DictOk(P(), m.dict) && ReaderOk(P(), m.reader, input)
    {
      hide DictOk, ReaderOk;
    }

    /** What the code says: CLEAR, or a string. */
    method Obey(code: nat, ghost r1: Reader) returns (next: Next)
      requires Sizes() && HeaderOk(input) && P() == HeaderParams(input) && maxmaxcode == Pow2(maxbits) && DictIs(mach.dict)
      requires MachOk(P(), mach, input) && Reached(P(), input, mach) && ReaderIs(r1) && !clear_flg && stackp == 0 && out == mach.out
      requires code < Pow2(maxbits) <= 0x10000 && free_ent <= 0x10000
      requires Turned(code, r1)
      modifies `clear_flg, prefix, `free_ent, `oldcode, `mach, `stackp, `finchar, de_stack, `incode, `before
      ensures match next
        case AtEof => false
        case BadStream => mach == old(mach) && Broken(P(), mach, input) && out == mach.out
        case Cleared => Between()
        case OnStack => Middle() && stackp > 0
    {
      hide MachOk, Reached, TableOk, Pow2, Step, Meaning;
      if code == CLEAR && block_compress {
        Clear(r1);
        return Cleared;
      }
      var ok := String(code, r1, mach.dict, Meaning(mach.dict, code));
      next := if ok then OnStack else BadStream;
    }

    /** The step of the machine that takes this code, by what the code is. */
    ghost predicate Turned(code: nat, r1: Reader)
      requires MachOk(P(), mach, input)
      reads `block_compress, `maxbits, `mach
    {
      if IsClear(P(), code) then Step(P(), mach, input) == More(Mach(r1, Dict(Singles(true), []), true, mach.out))
      else
        var s := Meaning(mach.dict, code);
        Step(P(), mach, input) == if s == [] then Fail else More(Mach(r1, Entered(P(), mach.dict, s), false, mach.out + s))
    }

    /** The next code, and what it stands for. */
    method NextCode() returns (next: Next)
      requires Sizes() && Between()
      modifies `n_bits, `maxcode, `clear_flg, gbuf, `size, `roffset, `at
      modifies prefix, `free_ent, `oldcode, `mach, `stackp, `finchar, de_stack, `incode, `before
      ensures match next
        case AtEof => mach == old(mach) && AtEnd(P(), mach, input) && out == mach.out
        case BadStream => mach == old(mach) && Broken(P(), mach, input) && out == mach.out
        case Cleared => Between()
        case OnStack => Middle() && stackp > 0
      ensures HeaderOk(input) && P() == HeaderParams(input)
      ensures next.Cleared? || next.OnStack? ==>
        old(at) < at <= |input| || (at == old(at) && size == old(size) && old(roffset) < roffset && old(roffset < size))
    {
      hide MachOk, Reached, TableOk, Pow2, Step, Fetch, ReaderOk, DictOk, Meaning, Seek, CursorOf, IsField, Middle, Singles, Entered;
      ghost var r, d, clear := mach.reader, mach.dict, clear_flg;
      RunningStream();
      MachParts(mach);
      FetchKeeps(P(), r, input, free_ent, clear);
      CodeFits(P(), r, input, free_ent, clear);
      StepIs();
      DictRange(P(), d);
      ghost var r1 := Fetch(P(), r, input, free_ent, clear).reader;
      ReaderRange(P(), r1, input);
      var code := GetCode(r);
      if code < 0 {
        return AtEof;
      }
      next := Obey(code, r1);
    }

    lemma StepIs()
      requires MachOk(P(), mach, input)
      ensures var g := Fetch(P(), mach.reader, input, |mach.dict.strings|, mach.clear);
              if g.code < 0 then Step(P(), mach, input).End? else Turned(g.code, g.reader)
    {
      hide Fetch, ReaderOk, DictOk, Meaning;
    }

    /** As much of the stack as fits goes out. */
    method Deliver(count: nat) returns (bytes: seq<Byte>)
      requires Sizes() && Middle()
      modifies `stackp, `out
      ensures Middle() && out == old(out) + bytes && |bytes| <= count && (stackp > 0 ==> |bytes| == count)
    {
      hide MachOk, Reached, TableOk, Pow2, Step, CodeOf, DictOk, Waiting, Backwards;
      bytes := [];
      ghost var o := out;
      while stackp > 0 && |bytes| < count
        invariant Middle() && out == o + bytes && |bytes| <= count
        decreases stackp
      {
        LastFirst(de_stack[..stackp]);
        assert de_stack[..stackp][..stackp - 1] == de_stack[..stackp - 1];
        stackp := stackp - 1;
        var x := de_stack[stackp];
        assert out + ([x] + Backwards(de_stack[..stackp])) == (out + [x]) + Backwards(de_stack[..stackp]);
        bytes := bytes + [x];
        out := out + [x];
      }
    }

    /** Generate the new entry, and remember the previous code. */
    method NewEntry()
      requires Sizes() && Middle() && stackp == 0
      modifies prefix, suffix, `free_ent, `oldcode
      ensures Between()
    {
      hide MachOk, Reached, TableOk, Pow2, Step, CodeOf, DictOk;
      ghost var d, s := before, mach.dict.prev;
      ghost var f :| Stands(P(), d, prefix[..], suffix[..], free_ent, oldcode, f);
      EntryMade(P(), d, prefix[..], suffix[..], oldcode, f, incode, s);
      DictRange(P(), d);
      assert Backwards(de_stack[..0]) == [];
      ghost var ps, ss := prefix[..], suffix[..];
      if free_ent < maxmaxcode && oldcode != -1 {
        var o: nat := oldcode;
        prefix[free_ent] := o;
        suffix[free_ent] := finchar;
        assert prefix[..] == ps[free_ent := o] && suffix[..] == ss[free_ent := finchar];
        free_ent := free_ent + 1;
      }
      oldcode := incode;
    }

    /** One round: a code, unless one is in the middle of being put out, and as much of its string as there is room for. */
    method Round(middle: bool, count: nat) returns (next: Next, bytes: seq<Byte>)
      requires Sizes() && if middle then Middle() && stackp > 0 else Between()
      modifies `n_bits, `maxcode, `clear_flg, gbuf, `size, `roffset, `at
      modifies prefix, suffix, `free_ent, `oldcode, `mach, `stackp, `finchar, de_stack, `incode, `before, `out
      ensures HeaderOk(input) && P() == HeaderParams(input) && |bytes| <= count
      ensures next.AtEof? ==> AtEnd(P(), mach, input) && out == mach.out == old(out) && bytes == []
      ensures next.BadStream? ==> Broken(P(), mach, input) && out == mach.out == old(out) && bytes == []
      ensures next.Cleared? ==> Between() && out == old(out) + bytes
      ensures next.OnStack? ==> Middle() && stackp > 0 && out == old(out) + bytes && |bytes| == count
      ensures next.Cleared? ==>
        || old(at) < at <= |input|
        || (at == old(at) && size == old(size) && ((old(roffset) < roffset && old(roffset < size)) || (middle && roffset == old(roffset))))
    {
      hide Middle, Between, AtEnd, Broken, HeaderParams, P;
      next, bytes := OnStack, [];
      if !middle {
        next := NextCode();
        if !next.OnStack? {
          return;
        }
      } else {
        HeaderRead();
      }
      bytes := Deliver(count);
      if stackp == 0 {
        NewEntry();
        next := Cleared;
      }
    }

    lemma HeaderRead()
      requires Middle()
      ensures HeaderOk(input) && P() == HeaderParams(input)
    {
      hide MachOk, Reached, CodeOf, DictOk, Waiting, Backwards;
    }

    /**
     zread: num bytes of output, or fewer at the end of the file, or -1 for a file that is not in
     the format.
     */
    method Zread(num: nat) returns (r: int, bytes: seq<Byte>)
      requires Valid() && state != FAILED
      modifies this, prefix, suffix, de_stack, gbuf
      ensures Valid() && (r == -1 <==> state == FAILED)
      ensures r == -1 ==> bytes == [] && out == old(out)
      ensures r != -1 ==> r == |bytes| <= num && out == old(out) + bytes && (r < num ==> state == S_EOF)
    {
      hide Middle, Between, AtEnd, Broken, HeaderOk, HeaderParams;
      bytes := [];
      if num == 0 || state == S_EOF {
        return 0, bytes;
      }
      var middle := state == S_MIDDLE;
      if state == S_START {
        var ok := Header();
        if !ok {
          state := FAILED;
          return -1, bytes;
        }
      }
      ghost var out0 := out;
      var more;
      while true
        invariant Sizes() && (if middle then Middle() && stackp > 0 else Between())
        invariant |bytes| <= num && out == out0 + bytes
        decreases |input| - at, size - roffset, middle
      {
        var next;
        next, more := Round(middle, num - |bytes|);
        bytes := bytes + more;
        match next {
          case Cleared =>
            middle := false;
          case OnStack =>
            state := S_MIDDLE;
            return num, bytes;
          case AtEof =>
            state := S_EOF;
            return |bytes|, bytes;
          case BadStream =>
            state := FAILED;
            out := out0;
            return -1, [];
        }
      }
    }

    lemma NoRun()
      requires Valid() && !HeaderOk(input)
      ensures out == [] && state != S_EOF
    {
      hide MachOk, Reached, Step, Waiting, CodeOf, DictOk, Backwards;
    }

    /** What has been delivered belongs to the run. */
    lemma HasRun()
      requires Valid() && HeaderOk(input) && state != S_START
      ensures MachOk(HeaderParams(input), mach, input) && Reached(HeaderParams(input), input, mach) && out <= mach.out
      ensures state == S_EOF ==> Step(HeaderParams(input), mach, input).End? && out == mach.out
      ensures state == FAILED ==> Step(HeaderParams(input), mach, input).Fail?
    {
      hide MachOk, Reached, Step, Waiting, CodeOf, DictOk, Backwards;
    }
  }

  /**
   Whatever the sizes of the reads: what one reader of a file has been given is the beginning of
   what another one has been given; at the end of the file it is all there is; and then the file
   is not found to be wrong by any other.
   */
  lemma ReadSizesDoNotMatter(a: ZState, b: ZState)
    requires a.Valid() && b.Valid() && a.input == b.input
    ensures a.out <= b.out || b.out <= a.out
    ensures a.state == S_EOF ==> b.out <= a.out && b.state != FAILED
    ensures a.state == S_EOF && b.state == S_EOF ==> a.out == b.out
  {
    hide MachOk, Reached, Step, CodeOf, DictOk, Backwards, ZState.Middle;
    if a.state != S_START && b.state != S_START && HeaderOk(a.input) {
      a.HasRun();
      b.HasRun();
      SameRun(HeaderParams(a.input), a.input, a.mach, b.mach);
    } else if !HeaderOk(a.input) {
      a.NoRun();
      b.NoRun();
    }
  }
}
