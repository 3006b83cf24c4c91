/**
 The decoder as an abstract machine over the bit stream, for raw DEFLATE data.  One step
 consumes a fixed piece of input (a field, a code, one stored byte) or writes one byte.  There
 are no buffers, no bit accumulator, no window and no tables here: the state knows only the
 position in the stream, the code lengths in force and everything written so far.
 */
module InflateSpec {
  import opened Bits
  import opened Canonical
  import opened Alphabet
  import opened TableSpace

  function DeflateOrder(): (r: seq<nat>)
    ensures |r| == 19
  {
    [16, 17, 18, 0, 8, 7, 9, 6, 10, 5, 11, 4, 12, 3, 13, 2, 14, 1, 15]
  }

  /** Where each code length symbol stands in DeflateOrder(). */
  function OrderIndex(): (r: seq<nat>)
    ensures |r| == 19
  {
    [3, 17, 15, 13, 11, 9, 7, 5, 4, 6, 8, 10, 12, 14, 16, 18, 0, 1, 2]
  }

  lemma OrderInverse(i: nat)
    requires i < 19
    ensures DeflateOrder()[i] < 19 && OrderIndex()[DeflateOrder()[i]] == i
    ensures OrderIndex()[i] < 19 && DeflateOrder()[OrderIndex()[i]] == i
  {
  }

  const LENS_BITS: nat := 9
  const DISTS_BITS: nat := 6
  const CODES_BITS: nat := 7

  datatype Phase =
    | Type
    | Stored
    | Copy(remaining: nat)
    | Table
    | LenLens(nlen: nat, ndist: nat, ncode: nat, read: seq<nat>)
    | CodeLens(nlen: nat, ndist: nat, cl: seq<nat>, lens: seq<nat>)
    | Len(ll: seq<nat>, dl: seq<nat>)
    | LenExt(ll: seq<nat>, dl: seq<nat>, length: nat, extra: nat)
    | Dist(ll: seq<nat>, dl: seq<nat>, length: nat)
    | DistExt(ll: seq<nat>, dl: seq<nat>, length: nat, offset: nat, extra: nat)
    | Match(ll: seq<nat>, dl: seq<nat>, length: nat, offset: nat)
    | Lit(ll: seq<nat>, dl: seq<nat>, value: Byte)
    | Done
    | Bad

  /** last: the current block is the final one; pos: bits consumed; out: bytes written. */
  datatype Abs = Abs(phase: Phase, last: bool, pos: nat, out: seq<Byte>)

  const START: Abs := Abs(Type, false, 0, [])

  function Repeat(v: nat, n: nat): (r: seq<nat>)
    ensures |r| == n && forall i :: 0 <= i < n ==> r[i] == v
  {
    seq(n, _ => v)
  }

  /** The fixed codes (RFC 1951, section 3.2.6). */
  function FixedLit(): (r: seq<nat>)
    ensures |r| == 288
  {
    Repeat(8, 144) + Repeat(9, 112) + Repeat(7, 24) + Repeat(8, 8)
  }
  function FixedDist(): (r: seq<nat>)
    ensures |r| == 32
  {
    Repeat(5, 32)
  }

  /** The code length code's lengths, from the ones read in transmission order. */
  function CodeLengthLens(read: seq<nat>): (r: seq<nat>)
    requires |read| <= 19
    ensures |r| == 19
  {
    seq(19, i requires 0 <= i < 19 => if OrderIndex()[i] < |read| then read[OrderIndex()[i]] else 0)
  }

  /**
   The order of section 3.2.7 of RFC 1951, position by position: the lengths come for the symbols
   16, 17, 18, 0, 8, 7, 9, 6, 10, 5, 11, 4, 12, 3, 13, 2, 14, 1, 15, and what is not sent is zero.
   */
  lemma TransmissionOrder(read: seq<nat>)
    requires |read| <= 19
    ensures var c, r := CodeLengthLens(read), read + Repeat(0, 19 - |read|);
            && c[16] == r[0] && c[17] == r[1] && c[18] == r[2] && c[0] == r[3] && c[8] == r[4] && c[7] == r[5] && c[9] == r[6]
            && c[6] == r[7] && c[10] == r[8] && c[5] == r[9] && c[11] == r[10] && c[4] == r[11] && c[12] == r[12]
            && c[3] == r[13] && c[13] == r[14] && c[2] == r[15] && c[14] == r[16] && c[1] == r[17] && c[15] == r[18]
  {
  }

  function RoundUp(pos: nat): (r: nat)
    ensures r % 8 == 0 && pos <= r < pos + 8
  {
    (pos + 7) / 8 * 8
  }

  /** n bits at pos, read as a number. */
  function ReadBits(B: seq<bool>, pos: nat, n: nat): (v: nat)
    requires pos + n <= |B|
    ensures v < Pow2(n)
  {
    ValBound(B[pos..pos + n]);
    Val(B[pos..pos + n])
  }

  datatype Option<T> = None | Some(value: T)

  /**
   One step, or None when the state is final or the stream ends before the step's input.
   */
  ghost function Step(a: Abs, B: seq<bool>): (r: Option<Abs>)
    requires |B| % 8 == 0 && a.pos <= |B|
    ensures r.Some? ==> a.pos <= r.value.pos <= |B| && a.out <= r.value.out && |r.value.out| <= |a.out| + 1
  {
    hide StepType, StepStored, StepTable, StepLenLens, StepCodeLens, StepLen, StepDist, StepMatch;
    match a.phase
    case Type => StepType(a, B)
    case Stored => StepStored(a, B)
    case Copy(n) =>
      if n == 0 then Some(a.(phase := Type))
      else if a.pos + 8 > |B| then None
      else
        Pow2Values();
        Some(a.(phase := Copy(n - 1), pos := a.pos + 8, out := a.out + [ReadBits(B, a.pos, 8)]))
    case Table => StepTable(a, B)
    case LenLens(nlen, ndist, ncode, read) => StepLenLens(a, B)
    case CodeLens(nlen, ndist, cl, lens) => StepCodeLens(a, B)
    case Len(ll, dl) => StepLen(a, B)
    case LenExt(ll, dl, length, extra) =>
      if a.pos + extra > |B| then None
      else Some(a.(phase := Dist(ll, dl, length + ReadBits(B, a.pos, extra)), pos := a.pos + extra))
    case Dist(ll, dl, length) => StepDist(a, B)
    case DistExt(ll, dl, length, offset, extra) =>
      if a.pos + extra > |B| then None
      else
        Some(a.(phase := Match(ll, dl, length, offset + ReadBits(B, a.pos, extra)), pos := a.pos + extra))
    case Match(ll, dl, length, offset) => Some(StepMatch(a))
    case Lit(ll, dl, value) => Some(a.(phase := Len(ll, dl), out := a.out + [value]))
    case Done => None
    case Bad => None
  }

  /** Step by phase. */
  lemma StepIs(a: Abs, B: seq<bool>)
    requires |B| % 8 == 0 && a.pos <= |B|
    ensures a.phase.Type? ==> Step(a, B) == StepType(a, B)
    ensures a.phase.Stored? ==> Step(a, B) == StepStored(a, B)
    ensures a.phase.Table? ==> Step(a, B) == StepTable(a, B)
    ensures a.phase.LenLens? ==> Step(a, B) == StepLenLens(a, B)
    ensures a.phase.CodeLens? ==> Step(a, B) == StepCodeLens(a, B)
    ensures a.phase.Len? ==> Step(a, B) == StepLen(a, B)
    ensures a.phase.Dist? ==> Step(a, B) == StepDist(a, B)
    ensures a.phase.Match? ==> Step(a, B) == Some(StepMatch(a))
    ensures a.phase.Lit? ==> Step(a, B) == Some(a.(phase := Len(a.phase.ll, a.phase.dl), out := a.out + [a.phase.value]))
    ensures a.phase.Done? || a.phase.Bad? ==> Step(a, B) == None
  {
    hide StepType, StepStored, StepTable, StepLenLens, StepCodeLens, StepLen, StepDist, StepMatch;
  }

  /** What a block header leads to. */
  function AfterHeader(a: Abs, last: bool, kind: nat): (r: Abs)
    ensures r.pos == a.pos + 3 && r.out == a.out
  {
    var b := a.(last := last, pos := a.pos + 3);
    match kind
    case 0 => b.(phase := Stored)
    case 1 => b.(phase := Len(FixedLit(), FixedDist()))
    case 2 => b.(phase := Table)
    case _ => b.(phase := Bad)
  }

  ghost function StepType(a: Abs, B: seq<bool>): (r: Option<Abs>)
    requires a.phase.Type? && |B| % 8 == 0 && a.pos <= |B|
    ensures r.Some? ==> a.pos <= r.value.pos <= |B| && r.value.out == a.out
  {
    if a.last then Some(a.(phase := Done, pos := RoundUp(a.pos)))
    else if a.pos + 3 > |B| then None
    else Some(AfterHeader(a, B[a.pos], ReadBits(B, a.pos + 1, 2)))
  }

  /** The length of a stored block is sent twice, the second time complemented. */
  function AfterStoredLen(a: Abs, len: nat, nlen: nat): (r: Abs)
    ensures a.pos <= r.pos <= a.pos + 32 && r.out == a.out
  {
    if len != 65535 - nlen then a.(phase := Bad) else a.(phase := Copy(len), pos := a.pos + 32)
  }

  ghost function StepStored(a: Abs, B: seq<bool>): (r: Option<Abs>)
    requires a.phase.Stored? && |B| % 8 == 0 && a.pos <= |B|
    ensures r.Some? ==> a.pos <= r.value.pos <= |B| && r.value.out == a.out
  {
    if a.pos % 8 != 0 then Some(a.(pos := RoundUp(a.pos)))
    else if a.pos + 32 > |B| then None
    else
      Some(AfterStoredLen(a, ReadBits(B, a.pos, 16), ReadBits(B, a.pos + 16, 16)))
  }

  /** What the counts at the beginning of a dynamic block lead to. */
  function AfterCounts(a: Abs, nlen: nat, ndist: nat, ncode: nat): (r: Abs)
    ensures r.pos == a.pos + 14 && r.out == a.out
  {
    a.(phase := if nlen > 286 || ndist > 30 then Bad else LenLens(nlen, ndist, ncode, []), pos := a.pos + 14)
  }

  ghost function StepTable(a: Abs, B: seq<bool>): (r: Option<Abs>)
    requires a.phase.Table? && a.pos <= |B|
    ensures r.Some? ==> a.pos <= r.value.pos <= |B| && r.value.out == a.out
  {
    if a.pos + 14 > |B| then None
    else
      Some(AfterCounts(a, ReadBits(B, a.pos, 5) + 257, ReadBits(B, a.pos + 5, 5) + 1, ReadBits(B, a.pos + 10, 4) + 4))
  }

  ghost function StepLenLens(a: Abs, B: seq<bool>): (r: Option<Abs>)
    requires a.phase.LenLens? && a.pos <= |B|
    ensures r.Some? ==> a.pos <= r.value.pos <= |B| && r.value.out == a.out
  {
    var LenLens(nlen, ndist, ncode, read) := a.phase;
    if |read| < ncode then
      if a.pos + 3 > |B| then None
      else Some(a.(phase := LenLens(nlen, ndist, ncode, read + [ReadBits(B, a.pos, 3)]), pos := a.pos + 3))
    else if |read| <= 19 && Accepted(CODES, CodeLengthLens(read)) then
      Some(a.(phase := CodeLens(nlen, ndist, CodeLengthLens(read), [])))
    else Some(a.(phase := Bad))
  }

  /** The code lengths have all been read: check them and start on the data. */
  ghost function FinishLens(a: Abs): (r: Abs)
    requires a.phase.CodeLens? && |a.phase.lens| == a.phase.nlen + a.phase.ndist
    ensures r.pos == a.pos && r.out == a.out && (r.phase.Bad? || r.phase.Len?)
  {
    var CodeLens(nlen, ndist, cl, lens) := a.phase;
    var ll, dl := lens[..nlen], lens[nlen..];
    if nlen <= END_BLOCK || lens[END_BLOCK] == 0 then a.(phase := Bad)
    else if !Accepted(LENS, ll) || !Fits(LENS, ll, LENS_BITS) then a.(phase := Bad)
    else if !Accepted(DISTS, dl) || !Fits(DISTS, dl, DISTS_BITS) then a.(phase := Bad)
    else a.(phase := Len(ll, dl))
  }

  /** Append a run of code lengths unless it runs over the end. */
  function AddRun(a: Abs, pos: nat, v: nat, n: nat): (r: Abs)
    requires a.phase.CodeLens?
    ensures r.pos == pos && r.out == a.out
  {
    var CodeLens(nlen, ndist, cl, lens) := a.phase;
    if |lens| + n > nlen + ndist then a.(phase := Bad, pos := pos)
    else a.(phase := CodeLens(nlen, ndist, cl, lens + Repeat(v, n)), pos := pos)
  }

  /** What a code length symbol of n bits leads to, once its repeat count can be read. */
  function AfterCodeLen(a: Abs, B: seq<bool>, s: nat, n: nat): (r: Option<Abs>)
    requires a.phase.CodeLens? && a.pos + n <= |B|
    ensures r.Some? ==> a.pos <= r.value.pos <= |B| && r.value.out == a.out
  {
    var lens, p := a.phase.lens, a.pos + n;
    if s < 16 then Some(AddRun(a, p, s, 1))
    else if s == 16 then
      if p + 2 > |B| then None
      else if lens == [] then Some(a.(phase := Bad, pos := p))
      else Some(AddRun(a, p + 2, lens[|lens| - 1], 3 + ReadBits(B, p, 2)))
    else if s == 17 then
      if p + 3 > |B| then None else Some(AddRun(a, p + 3, 0, 3 + ReadBits(B, p, 3)))
    else
      if p + 7 > |B| then None else Some(AddRun(a, p + 7, 0, 11 + ReadBits(B, p, 7)))
  }

  /**
   The list in section 3.2.7 of RFC 1951: 16 copies the previous length 3 to 6 times, by 2 bits, and 17
   and 18 repeat a length of zero 3 to 10 times, by 3 bits, and 11 to 138 times, by 7 bits.
   */
  lemma RepeatCounts(a: Abs, B: seq<bool>, s: nat, n: nat)
    requires a.phase.CodeLens? && 16 <= s <= 18 && a.pos + n + 7 <= |B| && a.phase.lens != []
    requires |a.phase.lens| + 138 <= a.phase.nlen + a.phase.ndist
    ensures var lens, low, high, e := a.phase.lens, [3, 3, 11][s - 16], [6, 10, 138][s - 16], [2, 3, 7][s - 16];
            var k := low + ReadBits(B, a.pos + n, e);
            && low <= k <= high && high - low == Pow2(e) - 1
            && AfterCodeLen(a, B, s, n) == Some(a.(
                 phase := a.phase.(lens := lens + Repeat(if s == 16 then lens[|lens| - 1] else 0, k)), pos := a.pos + n + e))
  {
    hide ReadBits;
    Pow2Values();
  }

  ghost function StepCodeLens(a: Abs, B: seq<bool>): (r: Option<Abs>)
    requires a.phase.CodeLens? && a.pos <= |B|
    ensures r.Some? ==> a.pos <= r.value.pos <= |B| && r.value.out == a.out
  {
    if |a.phase.lens| == a.phase.nlen + a.phase.ndist then Some(FinishLens(a))
    else
      match DecodeSym(a.phase.cl, B[a.pos..])
      case NeedMore => None
      case Invalid =>
        // An unused entry of the table has value 0 and one bit, and is not told apart here.
        Some(AddRun(a, a.pos + 1, 0, 1))
      case Symbol(s, n) => AfterCodeLen(a, B, s, n)
  }

  /** What a literal/length code of n bits leads to. */
  function AfterLen(a: Abs, s: nat, n: nat): (r: Abs)
    requires a.phase.Len?
    ensures r.pos == a.pos + n && r.out == a.out && r.last == a.last
  {
    var Len(ll, dl) := a.phase;
    var b := a.(pos := a.pos + n);
    if s < END_BLOCK then b.(phase := Lit(ll, dl, s))
    else if s == END_BLOCK then b.(phase := Type)
    else if s - 257 >= 29 then b.(phase := Bad)
    else b.(phase := LenExt(ll, dl, LBase()[s - 257], LExt()[s - 257] - 16))
  }

  ghost function StepLen(a: Abs, B: seq<bool>): (r: Option<Abs>)
    requires a.phase.Len? && a.pos <= |B|
    ensures r.Some? ==> a.pos <= r.value.pos <= |B| && r.value.out == a.out
  {
    match DecodeSym(a.phase.ll, B[a.pos..])
    case NeedMore => None
    case Invalid => Some(a.(phase := Bad, pos := a.pos + 1))
    case Symbol(s, n) => Some(AfterLen(a, s, n))
  }

  function AfterDist(a: Abs, s: nat, n: nat): (r: Abs)
    requires a.phase.Dist?
    ensures r.pos == a.pos + n && r.out == a.out && r.last == a.last
  {
    var Dist(ll, dl, length) := a.phase;
    var b := a.(pos := a.pos + n);
    if s >= 30 then b.(phase := Bad)
    else b.(phase := DistExt(ll, dl, length, DBase()[s], DExt()[s] - 16))
  }

  ghost function StepDist(a: Abs, B: seq<bool>): (r: Option<Abs>)
    requires a.phase.Dist? && a.pos <= |B|
    ensures r.Some? ==> a.pos <= r.value.pos <= |B| && r.value.out == a.out
  {
    match DecodeSym(a.phase.dl, B[a.pos..])
    case NeedMore => None
    case Invalid => Some(a.(phase := Bad, pos := a.pos + 1))
    case Symbol(s, n) => Some(AfterDist(a, s, n))
  }

  /** Copy one byte of a match; a distance beyond the output so far is an error. */
  function StepMatch(a: Abs): (r: Abs)
    requires a.phase.Match?
    ensures r.pos == a.pos && a.out <= r.out && |r.out| <= |a.out| + 1
  {
    var Match(ll, dl, length, offset) := a.phase;
    if offset > |a.out| then a.(phase := Bad)
    else if offset == 0 || length == 0 then a.(phase := Len(ll, dl))
    else
      a.(phase := if length == 1 then Len(ll, dl) else Match(ll, dl, length - 1, offset),
         out := a.out + [a.out[|a.out| - offset]])
  }
}
