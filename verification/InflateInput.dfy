/**
 What the states of inflate() read: each method pulls and drops the bits of one state and is
 proved to take the corresponding step of the abstract decoder, or to find its input missing.
 */
module InflateInput {
  import opened Bits
  import opened Canonical
  import opened Alphabet
  import opened InflateSpec
  import opened InflateRun
  import opened InfTrees
  import opened InflateTable
  import opened TableLookup
  import opened Accumulator
  import opened InflateSteps

  /** The bits pulled so far. */
  ghost function Pulled(reader: BitReader): (B: seq<bool>)
    reads reader
    ensures |B| % 8 == 0
  {
    BytesBits(reader.inp)
  }

  ghost predicate Input(reader: BitReader, a: Abs)
    reads reader
  {
    reader.Accum() && reader.bits <= 32 && a.pos == 8 * |reader.inp| - reader.bits
  }

  /** At most seven bits more than the steps taken needed have been pulled, or else the next step needs them too. */
  ghost predicate Tight(reader: BitReader, a: Abs)
    reads reader
  {
    reader.bits < 8 || Stuck(a, Pulled(reader))
  }

  ghost predicate Ready(reader: BitReader, a: Abs)
    reads reader
  {
    Input(reader, a) && Tight(reader, a) && Wf(a)
  }

  /** b is reached from a using bits that have been pulled; no input is lost. */
  twostate predicate Advanced(reader: BitReader, new a: Abs, new b: Abs)
    reads reader
  {
    && Ready(reader, b) && Reaches(a, Pulled(reader), b)
    && reader.Whole() == old(reader.Whole()) && old(reader.inp) <= reader.inp
  }

  /** The next step needs input that is not there. */
  twostate predicate Starved(reader: BitReader, new a: Abs)
    reads reader
  {
    Advanced(reader, a, a) && reader.next_in == [] && Stuck(a, Pulled(reader))
  }

  /** b is where the next step leads, with the bits that have been pulled for it. */
  twostate lemma Arrive(reader: BitReader, new a: Abs, new b: Abs)
    requires reader.Accum() && reader.Whole() == old(reader.Whole()) && old(reader.inp) <= reader.inp
    requires Wf(a) && a.pos <= |Pulled(reader)| && Step(a, Pulled(reader)) == Some(b)
    requires reader.bits < 8 && b.pos == 8 * |reader.inp| - reader.bits
    ensures Advanced(reader, a, b)
  {
    hide Wf, Reaches, BytesBits, Step, Stuck;
    OneStep(a, Pulled(reader), b);
  }

  /** There is no next step with what there is. */
  twostate lemma Wait(reader: BitReader, new a: Abs)
    requires reader.Accum() && reader.Whole() == old(reader.Whole()) && old(reader.inp) <= reader.inp && reader.bits <= 32
    requires Wf(a) && a.pos == 8 * |reader.inp| - reader.bits && Step(a, Pulled(reader)).None? && reader.next_in == []
    ensures Starved(reader, a)
  {
    hide Wf, Reaches, BytesBits, Step;
    NoStep(a, Pulled(reader));
  }

  /** The next step is possible exactly when n more bits are there. */
  ghost predicate Takes(a: Abs, n: nat) {
    forall B: seq<bool> :: |B| % 8 == 0 && a.pos <= |B| ==> (Step(a, B).Some? <==> a.pos + n <= |B|)
  }

  /** How many bits the next step takes, in the states that read fields of a known size. */
  function FieldBits(a: Abs): nat {
    match a.phase
    case Type => if a.last then 0 else 3
    case Table => 14
    case LenLens(_, _, ncode, read) => if |read| < ncode then 3 else 0
    case LenExt(_, _, _, extra) => extra
    case DistExt(_, _, _, _, extra) => extra
    case _ => 0
  }

  lemma TakesField(a: Abs)
    requires FieldBits(a) > 0
    ensures Takes(a, FieldBits(a))
  {
    hide ReadBits, StepStored, StepCodeLens, StepLen, StepDist, StepMatch, Accepted;
  }

  /** NEEDBITS(n) for a step of n bits */
  method Need(reader: BitReader, n: nat, ghost a: Abs) returns (ok: bool)
    requires Ready(reader, a) && 0 < n <= 24 && n == FieldBits(a)
    modifies reader
    ensures reader.Accum() && reader.Whole() == old(reader.Whole()) && old(reader.inp) <= reader.inp
    ensures a.pos == 8 * |reader.inp| - reader.bits
    ensures ok ==> n <= reader.bits < n + 8
    ensures !ok ==> Starved(reader, a)
  {
    hide Advanced, Starved, Wf, Step, BytesBits, FieldBits;
    TakesField(a);
    ok := reader.NeedBits(n);
    if !ok {
      Wait(reader, a);
    }
  }

  method HeaderBits(reader: BitReader, ghost a: Abs) returns (ok: bool, last: bool, kind: nat)
    requires Ready(reader, a) && a.phase.Type? && !a.last
    modifies reader
    ensures !ok ==> Starved(reader, a)
    ensures ok ==> reader.bits < 8 && kind < 4 && Advanced(reader, a, AfterHeader(a, last, kind))
  {
    hide Advanced, Starved, Wf, Reaches, BytesBits, Val, Step;
    last, kind := false, 0;
    ok := Need(reader, 3, a);
    if ok {
      FieldAt(reader.inp, reader.bits, 0, 1);
      FieldAt(reader.inp, reader.bits, 1, 2);
      OneBit(reader.Pending());
      var b := reader.LowBitsOf(1);
      last := b == 1;
      reader.DropBits(1);
      kind := reader.LowBitsOf(2);
      reader.DropBits(2);
      StepIs(a, Pulled(reader));
    Arrive(reader, a, AfterHeader(a, last, kind));
    }
  }

  /** The end of the last block: the rest of its last byte is dropped. */
  method EndBits(reader: BitReader, ghost a: Abs)
    requires Ready(reader, a) && a.phase.Type? && a.last
    modifies reader
    ensures Advanced(reader, a, a.(phase := Done, pos := RoundUp(a.pos))) && reader.bits < 8
  {
    hide Advanced, Starved, Wf, Reaches, BytesBits, Val, Step;
    ToByte(|reader.inp|, reader.bits);
    reader.ByteBits();
    StepIs(a, Pulled(reader));
    Arrive(reader, a, a.(phase := Done, pos := RoundUp(a.pos)));
  }

  /** Where the length fields of a stored block begin. */
  function Aligned(a: Abs): (b: Abs)
    ensures b.phase == a.phase && b.out == a.out && b.last == a.last
  {
    a.(pos := RoundUp(a.pos))
  }

  method StoredBits(reader: BitReader, ghost a: Abs) returns (ok: bool, len: nat, nlen: nat)
    requires Ready(reader, a) && a.phase.Stored?
    modifies reader
    ensures !ok ==>
      Advanced(reader, a, Aligned(a)) && reader.next_in == [] && Stuck(Aligned(a), Pulled(reader))
    ensures ok ==> Advanced(reader, a, AfterStoredLen(Aligned(a), len, nlen))
    ensures ok && len == 65535 - nlen ==> reader.bits == 0 && len <= 65535
  {
    hide Reaches, BytesBits, Val, Stuck, AfterStoredLen;
    ToByte(|reader.inp|, reader.bits);
    AlignStep(a, Pulled(reader));
    ghost var before := reader.inp;
    AlignedReady(reader, a);
    reader.ByteBits();
    ok, len, nlen := StoredFields(reader, Aligned(a));
    Grown(before, reader.inp);
    ReachesStable(a, BytesBits(before), Pulled(reader), Aligned(a));
    if ok {
      ReachesTrans(a, Pulled(reader), Aligned(a), AfterStoredLen(Aligned(a), len, nlen));
    }
  }

  /** With a whole byte or more at hand the position is aligned already. */
  lemma AlignedReady(reader: BitReader, a: Abs)
    requires Ready(reader, a) && a.phase.Stored?
    ensures reader.bits < 8 || (Aligned(a) == a && reader.bits % 8 == 0)
  {
    hide BytesBits;
  }

  /** hold & 0xffff and hold >> 16 */
  method Halves(reader: BitReader) returns (lo: nat, hi: nat)
    requires reader.Accum() && reader.bits == 32
    ensures var p := 8 * |reader.inp| - 32;
            && p + 32 <= |Pulled(reader)|
            && lo == ReadBits(Pulled(reader), p, 16) && hi == ReadBits(Pulled(reader), p + 16, 16)
  {
    hide Advanced, Starved, BytesBits, Val, ReadBits, Pow2;
    FieldAt(reader.inp, reader.bits, 0, 16);
    FieldAt(reader.inp, reader.bits, 16, 16);
    ghost var s := reader.Pending();
    lo := reader.LowBitsOf(16);
    var both := reader.LowBitsOf(32);
    hi := ShiftRight(both, 16);
    HighHalf(s);
  }

  method StoredFields(reader: BitReader, ghost a: Abs) returns (ok: bool, len: nat, nlen: nat)
    requires Ready(reader, a) && a.phase.Stored? && a.pos % 8 == 0
    modifies reader
    ensures !ok ==> Starved(reader, a)
    ensures ok ==> Advanced(reader, a, AfterStoredLen(a, len, nlen))
    ensures ok && len == 65535 - nlen ==> reader.bits == 0 && len <= 65535
  {
    hide Wf, Reaches, BytesBits, Val, Step, StepStored, ReadBits, Stuck;
    len, nlen := 0, 0;
    StuckStored(a, Pulled(reader));
    ok := reader.NeedBits(32);
    if ok {
      len, nlen := Halves(reader);
      StoredStep(a, Pulled(reader), len, nlen);
      if len == 65535 - nlen {
        reader.InitBits();
      }
    } else {
      StuckStored(a, Pulled(reader));
      ReachesSelf(a, Pulled(reader));
    }
  }

  lemma StuckStored(a: Abs, B: seq<bool>)
    requires a.phase.Stored? && a.pos % 8 == 0 && |B| % 8 == 0 && a.pos <= |B|
    ensures Stuck(a, B) <==> a.pos + 32 > |B|
  {
    hide Step, ReadBits;
    StepIs(a, B);
  }

  lemma StoredStep(a: Abs, B: seq<bool>, len: nat, nlen: nat)
    requires Wf(a) && a.phase.Stored? && a.pos % 8 == 0 && |B| % 8 == 0 && a.pos + 32 <= |B|
    requires len == ReadBits(B, a.pos, 16) && nlen == ReadBits(B, a.pos + 16, 16)
    ensures Reaches(a, B, AfterStoredLen(a, len, nlen)) && Wf(AfterStoredLen(a, len, nlen))
    ensures len != 65535 - nlen ==> Stuck(AfterStoredLen(a, len, nlen), B)
    ensures len <= 65535
  {
    hide Step, Reaches, Wf, ReadBits;
    Pow2Values();
    StepIs(a, B);
    OneStep(a, B, AfterStoredLen(a, len, nlen));
    if len != 65535 - nlen {
      StepIs(a.(phase := Bad), B);
    }
  }

  lemma AlignStep(a: Abs, B: seq<bool>)
    requires a.phase.Stored? && |B| % 8 == 0 && a.pos <= |B|
    ensures Reaches(a, B, Aligned(a)) && Wf(Aligned(a))
  {
    hide Step, Reaches;
    StepIs(a, B);
    if a.pos % 8 == 0 {
      ReachesSelf(a, B);
    } else {
      OneStep(a, B, Aligned(a));
    }
  }

  lemma HighHalf(s: seq<bool>)
    requires |s| >= 32
    ensures Shr(Val(s[..32]), 16) == Val(s[16..][..16])
  {
    LsbPrefixOf(s[..32], 16);
    assert s[..32][16..] == s[16..][..16];
  }

  /** Up to n stored bytes, taken without going through the accumulator. */
  method StoredBytes(reader: BitReader, n: nat, ghost a: Abs) returns (bs: seq<Byte>, ghost b: Abs)
    requires Ready(reader, a) && a.phase.Copy? && n <= a.phase.remaining && n <= |reader.next_in|
    modifies reader
    ensures |bs| == n && reader.bits == 0
    ensures b == a.(phase := Copy(a.phase.remaining - n), pos := a.pos + 8 * n, out := a.out + bs)
    ensures Advanced(reader, a, b) && reader.bits < 8
  {
    hide Reaches, BytesBits, Val;
    bs := reader.TakeBytes(n);
    CopyRun(a, old(reader.inp), bs);
    b := a.(phase := Copy(a.phase.remaining - n), pos := a.pos + 8 * n, out := a.out + bs);
  }

  lemma TableStep(a: Abs, B: seq<bool>, nlen: nat, ndist: nat, ncode: nat)
    requires a.phase.Table? && |B| % 8 == 0 && a.pos + 14 <= |B|
    requires nlen == ReadBits(B, a.pos, 5) + 257 && ndist == ReadBits(B, a.pos + 5, 5) + 1
    requires ncode == ReadBits(B, a.pos + 10, 4) + 4
    ensures Step(a, B) == Some(AfterCounts(a, nlen, ndist, ncode))
  {
    hide Step, ReadBits, AfterCounts;
    StepIs(a, B);
  }

  method CountBits(reader: BitReader, ghost a: Abs) returns (ok: bool, nlen: nat, ndist: nat, ncode: nat)
    requires Ready(reader, a) && a.phase.Table?
    modifies reader
    ensures !ok ==> Starved(reader, a)
    ensures ok ==> reader.bits < 8 && Advanced(reader, a, AfterCounts(a, nlen, ndist, ncode))
  {
    hide Advanced, Starved, Wf, Reaches, BytesBits, Val, Step, ReadBits, AfterCounts;
    nlen, ndist, ncode := 0, 0, 0;
    ok := Need(reader, 14, a);
    if ok {
      FieldAt(reader.inp, reader.bits, 0, 5);
      FieldAt(reader.inp, reader.bits, 5, 5);
      FieldAt(reader.inp, reader.bits, 10, 4);
      ghost var s := reader.Pending();
      nlen := reader.LowBitsOf(5);
      reader.DropBits(5);
      ndist := reader.LowBitsOf(5);
      reader.DropBits(5);
      assert s[5..][5..] == s[10..];
      ncode := reader.LowBitsOf(4);
      reader.DropBits(4);
      nlen, ndist, ncode := nlen + 257, ndist + 1, ncode + 4;
      TableStep(a, Pulled(reader), nlen, ndist, ncode);
      Arrive(reader, a, AfterCounts(a, nlen, ndist, ncode));
    }
  }

  method LenLenBits(reader: BitReader, ghost a: Abs) returns (ok: bool, v: nat)
    requires Ready(reader, a) && a.phase.LenLens? && |a.phase.read| < a.phase.ncode
    modifies reader
    ensures !ok ==> Starved(reader, a)
    ensures ok ==> reader.bits < 8 && v < 8 && Advanced(reader, a, a.(phase := a.phase.(read := a.phase.read + [v]), pos := a.pos + 3))
  {
    hide Advanced, Starved, Wf, Reaches, BytesBits, Val, Step;
    v := 0;
    ok := Need(reader, 3, a);
    if ok {
      Pow2Values();
      FieldAt(reader.inp, reader.bits, 0, 3);
      assert reader.Pending()[0..] == reader.Pending();
      v := reader.LowBitsOf(3);
      reader.DropBits(3);
      StepIs(a, Pulled(reader));
    Arrive(reader, a, a.(phase := a.phase.(read := a.phase.read + [v]), pos := a.pos + 3));
    }
  }

  /** The extra bits of a length or a distance, if it has any. */
  method ExtraBits(reader: BitReader, n: nat, ghost a: Abs) returns (ok: bool, v: nat)
    requires Ready(reader, a) && n <= 13 && n == FieldBits(a) && (a.phase.LenExt? || a.phase.DistExt?)
    modifies reader
    ensures !ok ==> Starved(reader, a)
    ensures ok ==>
      && reader.Accum() && reader.Whole() == old(reader.Whole()) && old(reader.inp) <= reader.inp
      && reader.bits < 8 && a.pos + n == 8 * |reader.inp| - reader.bits
      && v == ReadBits(Pulled(reader), a.pos, n)
  {
    hide Advanced, Starved, Wf, Reaches, BytesBits, Val, Step;
    v := 0;
    if n != 0 {
      ok := Need(reader, n, a);
      if ok {
        FieldAt(reader.inp, reader.bits, 0, n);
        assert reader.Pending()[0..] == reader.Pending();
        v := reader.LowBitsOf(n);
        reader.DropBits(n);
      }
    } else {
      ok := true;
      ExtraStep(a, Pulled(reader));
    }
  }

  lemma ExtraStep(a: Abs, B: seq<bool>)
    requires |B| % 8 == 0 && a.pos + FieldBits(a) <= |B| && (a.phase.LenExt? || a.phase.DistExt?)
    ensures FieldBits(a) == 0 ==> ReadBits(B, a.pos, 0) == 0
    ensures Step(a, B) == Some(AfterExtra(a, ReadBits(B, a.pos, FieldBits(a))))
  {
  }

  /** The base value of a length or distance with its extra bits added. */
  function AfterExtra(a: Abs, v: nat): (b: Abs)
    requires a.phase.LenExt? || a.phase.DistExt?
    ensures b.pos == a.pos + FieldBits(a) && b.out == a.out && b.last == a.last
  {
    match a.phase
    case LenExt(ll, dl, length, extra) => a.(phase := Dist(ll, dl, length + v), pos := a.pos + extra)
    case DistExt(ll, dl, length, offset, extra) =>
      a.(phase := Match(ll, dl, length, offset + v), pos := a.pos + extra)
  }

  method Extra(reader: BitReader, n: nat, ghost a: Abs) returns (ok: bool, v: nat)
    requires Ready(reader, a) && n <= 13 && n == FieldBits(a) && (a.phase.LenExt? || a.phase.DistExt?)
    modifies reader
    ensures !ok ==> Starved(reader, a)
    ensures ok ==> reader.bits < 8 && Advanced(reader, a, AfterExtra(a, v))
  {
    hide Advanced, Starved, Wf, Reaches, BytesBits, Val, Step, AfterExtra, FieldBits, ReadBits;
    ok, v := ExtraBits(reader, n, a);
    if ok {
      ExtraStep(a, Pulled(reader));
      Arrive(reader, a, AfterExtra(a, v));
    }
  }

  /* ---------- codes ---------- */

  /** here.op & 32 */
  predicate EndOp(op: nat) {
    op / 32 % 2 == 1
  }

  /** here.op & 64 */
  predicate BadOp(op: nat) {
    op / 64 % 2 == 1
  }

  /** How inflate interprets the entry found for a literal/length code of n bits. */
  function AfterLenEntry(a: Abs, here: Code, n: nat): (b: Abs)
    requires a.phase.Len? && (here.op == 0 ==> here.val < 256)
    ensures b.pos == a.pos + n && b.out == a.out && b.last == a.last
  {
    var Len(ll, dl) := a.phase;
    a.(phase :=
         if here.op == 0 then Lit(ll, dl, here.val)
         else if EndOp(here.op) then Type
         else if BadOp(here.op) then Bad
         else LenExt(ll, dl, here.val, here.op % 16),
       pos := a.pos + n)
  }

  function AfterDistEntry(a: Abs, here: Code, n: nat): (b: Abs)
    requires a.phase.Dist?
    ensures b.pos == a.pos + n && b.out == a.out && b.last == a.last
  {
    var Dist(ll, dl, length) := a.phase;
    a.(phase := if BadOp(here.op) then Bad else DistExt(ll, dl, length, here.val, here.op % 16), pos := a.pos + n)
  }

  /** An entry for a length code: the base value, and the number of extra bits in op. */
  predicate IsBase(e: Code, base: nat, extra: nat) {
    e.op >= 16 && e.val == base && e.op % 16 == extra - 16
  }

  lemma LenEntryOps(s: nat, bits: nat)
    requires s < 288
    ensures s < 256 ==> Entry(LENS, s, bits).op == 0 && Entry(LENS, s, bits).val == s
    ensures s == 256 ==> EndOp(Entry(LENS, s, bits).op) && Entry(LENS, s, bits).op != 0
    ensures s > 256 ==> LenEntryIsBase(s, Entry(LENS, s, bits))
  {
    hide LExt, LBase;
    if s > 256 {
      LengthExtraKinds(s - 257);
    }
  }

  predicate LenEntryIsBase(s: nat, e: Code)
    requires 256 < s < 288
  {
    && e.op != 0 && !EndOp(e.op) && (s >= 286 <==> BadOp(e.op))
    && (s < 286 ==> IsBase(e, LBase()[s - 257], LExt()[s - 257]))
  }

  predicate DistEntryIsBase(s: nat, e: Code)
    requires s < 32
  {
    && (s >= 30 <==> BadOp(e.op))
    && (s < 30 ==> IsBase(e, DBase()[s], DExt()[s]))
  }

  lemma DistEntryOps(s: nat, bits: nat)
    requires s < 32
    ensures DistEntryIsBase(s, Entry(DISTS, s, bits))
  {
    hide DExt, DBase;
    DistExtraKinds(s);
  }

  /** The entry found says what the code's own decoding says. */
  lemma LenEntryIs(a: Abs, B: seq<bool>, here: Code, drop: nat)
    requires a.phase.Len? && |B| % 8 == 0 && a.pos <= |B|
    requires Decoded(here, drop, LENS, DecodeSym(a.phase.ll, B[a.pos..]))
    ensures here.op == 0 ==> here.val < 256
    ensures Step(a, B) == Some(AfterLenEntry(a, here, drop + here.bits))
  {
    hide DecodeSym, Step, Entry, LExt, LBase, DExt, DBase;
    StepIs(a, B);
    var r := DecodeSym(a.phase.ll, B[a.pos..]);
    if r.Symbol? {
      LenEntryOps(r.sym, here.bits);
    }
  }

  lemma DistEntryIs(a: Abs, B: seq<bool>, here: Code, drop: nat)
    requires a.phase.Dist? && |B| % 8 == 0 && a.pos <= |B|
    requires Decoded(here, drop, DISTS, DecodeSym(a.phase.dl, B[a.pos..]))
    ensures Step(a, B) == Some(AfterDistEntry(a, here, drop + here.bits))
  {
    hide DecodeSym, Step, Entry, LExt, LBase, DExt, DBase;
    StepIs(a, B);
    var r := DecodeSym(a.phase.dl, B[a.pos..]);
    if r.Symbol? {
      DistEntryOps(r.sym, here.bits);
    }
  }

  lemma DecodedLength(lens: seq<nat>, bits: seq<bool>, kind: Kind, here: Code, drop: nat)
    requires Decoded(here, drop, kind, DecodeSym(lens, bits))
    ensures drop + here.bits >= 1
  {
  }

  /** All there is to know before a literal/length code is read. */
  lemma LenReady(reader: BitReader, a: Abs)
    requires Ready(reader, a) && a.phase.Len?
    ensures reader.Accum() && reader.bits <= 32 && a.pos == 8 * |reader.inp| - reader.bits && Wf(a)
    ensures reader.Pending() == Pulled(reader)[a.pos..]
    ensures reader.bits < 8 || DecodeSym(a.phase.ll, reader.Pending()).NeedMore?
  {
    hide Wf, BytesBits, Val, Step, DecodeSym;
    StepIs(a, Pulled(reader));
  }

  lemma DistReady(reader: BitReader, a: Abs)
    requires Ready(reader, a) && a.phase.Dist?
    ensures reader.Accum() && reader.bits <= 32 && a.pos == 8 * |reader.inp| - reader.bits && Wf(a)
    ensures reader.Pending() == Pulled(reader)[a.pos..]
    ensures reader.bits < 8 || DecodeSym(a.phase.dl, reader.Pending()).NeedMore?
  {
    hide Wf, BytesBits, Val, Step, DecodeSym;
    StepIs(a, Pulled(reader));
  }

  method ReadLenCode(reader: BitReader, table: seq<Code>, root: nat, ghost a: Abs) returns (ok: bool, here: Code, ghost n: nat)
    requires Ready(reader, a) && a.phase.Len? && TableFor(table, LENS, a.phase.ll, root)
    modifies reader
    ensures !ok ==> Starved(reader, a)
    ensures ok && here.op == 0 ==> here.val < 256
    ensures ok ==> reader.bits < 8 && Advanced(reader, a, AfterLenEntry(a, here, n)) && n >= 1
  {
    hide Wf, Reaches, BytesBits, Val, Step, DecodeSym, Decoded, TableFor, AfterLenEntry, Ready, Advanced, Starved;
    LenReady(reader, a);
    var drop;
    ok, here, drop := reader.Decode(table, root, LENS, a.phase.ll);
    ghost var B := Pulled(reader);
    n := 0;
    if ok {
      LenEntryIs(a, B, here, drop);
      DecodedLength(a.phase.ll, B[a.pos..], LENS, here, drop);
      n := drop + here.bits;
      reader.DropBits(drop);
      reader.DropBits(here.bits);
      Arrive(reader, a, AfterLenEntry(a, here, n));
    } else {
      LenWaits(a, B);
      Wait(reader, a);
    }
  }

  lemma LenWaits(a: Abs, B: seq<bool>)
    requires |B| % 8 == 0 && a.pos <= |B|
    requires (a.phase.Len? && DecodeSym(a.phase.ll, B[a.pos..]) == NeedMore) || (a.phase.Dist? && DecodeSym(a.phase.dl, B[a.pos..]) == NeedMore)
    ensures Step(a, B) == None
  {
    hide Step, DecodeSym;
    StepIs(a, B);
  }

  method ReadDistCode(reader: BitReader, table: seq<Code>, root: nat, ghost a: Abs) returns (ok: bool, here: Code, ghost n: nat)
    requires Ready(reader, a) && a.phase.Dist? && TableFor(table, DISTS, a.phase.dl, root)
    modifies reader
    ensures !ok ==> Starved(reader, a)
    ensures ok ==> reader.bits < 8 && Advanced(reader, a, AfterDistEntry(a, here, n)) && n >= 1
  {
    hide Wf, Reaches, BytesBits, Val, Step, DecodeSym, Decoded, TableFor, AfterDistEntry, Ready, Advanced, Starved;
    DistReady(reader, a);
    var drop;
    ok, here, drop := reader.Decode(table, root, DISTS, a.phase.dl);
    ghost var B := Pulled(reader);
    n := 0;
    if ok {
      DistEntryIs(a, B, here, drop);
      DecodedLength(a.phase.dl, B[a.pos..], DISTS, here, drop);
      n := drop + here.bits;
      reader.DropBits(drop);
      reader.DropBits(here.bits);
      Arrive(reader, a, AfterDistEntry(a, here, n));
    } else {
      LenWaits(a, B);
      Wait(reader, a);
    }
  }

  /** The entry found for a code length symbol stands for that symbol, or for 0 when the code is void. */
  lemma CodeLenEntryIs(a: Abs, B: seq<bool>, here: Code)
    requires a.phase.CodeLens? && |a.phase.lens| < a.phase.nlen + a.phase.ndist && |B| % 8 == 0 && a.pos <= |B|
    requires Decoded(here, 0, CODES, DecodeSym(a.phase.cl, B[a.pos..])) && a.pos + here.bits <= |B|
    ensures Step(a, B) == AfterCodeLen(a, B, here.val, here.bits)
  {
    hide DecodeSym, Step, AddRun;
    StepIs(a, B);
  }

  /** How many extra bits follow a code length symbol, and the least repeat count. */
  function RepeatExtra(s: nat): (e: nat)
    ensures e <= 7
  {
    if s < 16 then 0 else if s == 16 then 2 else if s == 17 then 3 else 7
  }

  /** The code of a code length symbol and all bits of its repeat count. */
  method CodeLenSym(reader: BitReader, table: seq<Code>, root: nat, ghost a: Abs) returns (ok: bool, here: Code)
    requires Ready(reader, a) && a.phase.CodeLens? && |a.phase.lens| < a.phase.nlen + a.phase.ndist
    requires TableFor(table, CODES, a.phase.cl, root)
    modifies reader
    ensures !ok ==> Starved(reader, a)
    ensures ok ==>
      && reader.Accum() && reader.Whole() == old(reader.Whole()) && old(reader.inp) <= reader.inp
      && a.pos == 8 * |reader.inp| - reader.bits
      && here.bits + RepeatExtra(here.val) <= reader.bits < here.bits + RepeatExtra(here.val) + 8
      && Step(a, Pulled(reader)) == AfterCodeLen(a, Pulled(reader), here.val, here.bits)
      && 1 <= here.bits
  {
    hide Wf, Reaches, BytesBits, Val, Step, DecodeSym, Decoded, TableFor, AfterCodeLen, Waiting, First, IsLink, Pow2;
    ok, here := CodeLenEntry(reader, table, root, a);
    if !ok {
      return;
    }
    ghost var before, inp0 := Pulled(reader), reader.inp;
    if here.val >= 16 {
      ok := reader.NeedBits(here.bits + RepeatExtra(here.val));
    }
    Grown(inp0, reader.inp);
    CodeLenLater(a, before, Pulled(reader), here);
    if !ok {
      NoStep(a, Pulled(reader));
    }
  }

  /** The entry of the symbol at hand. */
  method CodeLenEntry(reader: BitReader, table: seq<Code>, root: nat, ghost a: Abs) returns (ok: bool, here: Code)
    requires Ready(reader, a) && a.phase.CodeLens? && |a.phase.lens| < a.phase.nlen + a.phase.ndist
    requires TableFor(table, CODES, a.phase.cl, root)
    modifies reader
    ensures !ok ==> Starved(reader, a)
    ensures ok ==>
      && reader.Accum() && reader.Whole() == old(reader.Whole()) && old(reader.inp) <= reader.inp && reader.bits <= 32
      && a.pos == 8 * |reader.inp| - reader.bits && here.bits <= reader.bits < here.bits + RepeatExtra(here.val) + 8
      && Decoded(here, 0, CODES, DecodeSym(a.phase.cl, Pulled(reader)[a.pos..])) && Wf(a)
  {
    hide Wf, Reaches, BytesBits, Val, Step, DecodeSym, Decoded, TableFor, AfterCodeLen, Waiting, First, IsLink, Pow2;
    ghost var was := Pulled(reader);
    ok, here := reader.DecodeRoot(table, root, CODES, a.phase.cl);
    StepIs(a, Pulled(reader));
    if !ok {
      NoStep(a, Pulled(reader));
      return;
    }
    NoLinks(table, a.phase.cl, root, reader.hold);
    Grown(old(reader.inp), reader.inp);
    CodeLenTight(table, root, a, was, Pulled(reader), here);
  }

  /** The bits at hand when the code is found do not go far beyond what it needs. */
  lemma CodeLenTight(table: seq<Code>, root: nat, a: Abs, was: seq<bool>, B: seq<bool>, here: Code)
    requires Wf(a) && a.phase.CodeLens? && |a.phase.lens| < a.phase.nlen + a.phase.ndist
    requires TableFor(table, CODES, a.phase.cl, root)
    requires |B| % 8 == 0 && a.pos + here.bits <= |B| && was <= B && a.pos <= |was|
    requires |was| < a.pos + 8 || Stuck(a, was)
    requires B != was || Waiting(a.phase.cl, was[a.pos..]) ==> Waiting(a.phase.cl, B[a.pos..])
    requires Decoded(here, 0, CODES, DecodeSym(a.phase.cl, B[a.pos..]))
    ensures |B| < a.pos + here.bits + RepeatExtra(here.val) + 8
  {
    hide Wf, DecodeSym, Decoded, TableFor, Step;
    if Waiting(a.phase.cl, B[a.pos..]) {
      WaitedFor(CODES, table, root, a.phase.cl, B[a.pos..], here, 0);
    } else {
      CodeLenEntryIs(a, B, here);
    }
  }

  lemma CodeLenLater(a: Abs, before: seq<bool>, B: seq<bool>, here: Code)
    requires Wf(a) && a.phase.CodeLens? && |a.phase.lens| < a.phase.nlen + a.phase.ndist
    requires |before| % 8 == 0 && |B| % 8 == 0 && a.pos + here.bits <= |before| && before <= B
    requires Decoded(here, 0, CODES, DecodeSym(a.phase.cl, before[a.pos..]))
    ensures Step(a, B) == AfterCodeLen(a, B, here.val, here.bits) && 1 <= here.bits
    ensures here.val >= 16 && a.pos + here.bits + RepeatExtra(here.val) > |B| ==> Step(a, B) == None
  {
    hide DecodeSym, Step;
    assert before[a.pos..] <= B[a.pos..];
    DecodeSymStable(CODES, a.phase.cl, before[a.pos..], B[a.pos..]);
    DecodedLength(a.phase.cl, B[a.pos..], CODES, here, 0);
    CodeLenEntryIs(a, B, here);
  }

  /** The repeat count of symbols 16 to 18. */
  method RepeatBits(reader: BitReader, here: Code, prev: nat, ghost a: Abs) returns (v: nat, n: nat)
    requires reader.Accum() && a.pos == 8 * |reader.inp| - reader.bits && here.val >= 16
    requires here.bits + RepeatExtra(here.val) <= reader.bits
    requires a.phase.CodeLens? && (here.val == 16 ==> a.phase.lens != [] && prev == a.phase.lens[|a.phase.lens| - 1])
    modifies reader`hold, reader`bits
    ensures reader.Accum() && reader.bits == old(reader.bits) - here.bits - RepeatExtra(here.val)
    ensures AfterCodeLen(a, Pulled(reader), here.val, here.bits)
         == Some(AddRun(a, a.pos + here.bits + RepeatExtra(here.val), v, n))
  {
    hide Advanced, Starved, BytesBits, Val, Pow2, AddRun;
    var e := RepeatExtra(here.val);
    FieldAt(reader.inp, reader.bits, here.bits, e);
    reader.DropBits(here.bits);
    v := if here.val == 16 then prev else 0;
    n := reader.LowBitsOf(e);
    n := n + (if here.val < 18 then 3 else 11);
    reader.DropBits(e);
  }

  /**
   One code length symbol: n lengths of value v, or bad if there is no length yet to repeat.
   prev is the last length so far.
   */
  method CodeLenBits(reader: BitReader, table: seq<Code>, root: nat, first: bool, prev: nat, ghost a: Abs)
    returns (ok: bool, bad: bool, v: nat, n: nat, ghost used: nat)
    requires Ready(reader, a) && a.phase.CodeLens? && |a.phase.lens| < a.phase.nlen + a.phase.ndist
    requires TableFor(table, CODES, a.phase.cl, root)
    requires first <==> a.phase.lens == []
    requires !first ==> prev == a.phase.lens[|a.phase.lens| - 1]
    modifies reader
    ensures !ok ==> Starved(reader, a)
    ensures ok && bad ==> Advanced(reader, a, a.(phase := Bad, pos := a.pos + used))
    ensures ok && !bad ==> reader.bits < 8 && Advanced(reader, a, AddRun(a, a.pos + used, v, n)) && used >= 1
  {
    hide Wf, Reaches, BytesBits, Val, Step, TableFor, AddRun, Pow2;
    var here;
    bad, v, n, used := false, 0, 0, 0;
    ok, here := CodeLenSym(reader, table, root, a);
    if ok {
      ghost var b;
      used := here.bits;
      if here.val < 16 {
        reader.DropBits(here.bits);
        v, n := here.val, 1;
        b := AddRun(a, a.pos + used, v, n);
      } else if here.val == 16 && first {
        reader.DropBits(here.bits);
        bad := true;
        b := a.(phase := Bad, pos := a.pos + used);
        StepIs(b, Pulled(reader));
      } else {
        used := used + RepeatExtra(here.val);
        v, n := RepeatBits(reader, here, prev, a);
        b := AddRun(a, a.pos + used, v, n);
      }
      OneStep(a, Pulled(reader), b);
    }
  }
}
