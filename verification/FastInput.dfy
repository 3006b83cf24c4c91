/**
 What inflate_fast reads (libz_all/inffast.c): bytes are pulled without looking whether there
 are any, so the accumulator runs ahead of what has been consumed.  Each method is proved to
 take a step of the abstract decoder that depends on the consumed bits only.
 */
module FastInput {
  import opened Bits
  import opened Canonical
  import opened Alphabet
  import opened TableSpace
  import opened InflateSpec
  import opened InflateRun
  import opened InfTrees
  import opened InflateTable
  import opened TableLookup
  import opened Accumulator
  import opened InflateSteps
  import opened InflateInput

  /** The states inflate_fast goes through. */
  predicate InData(p: Phase) {
    p.Len? || p.LenExt? || p.Dist? || p.DistExt? || p.Match? || p.Lit?
  }

  /** The bytes of the stream that have been consumed at least in part. */
  function Consumed(B: seq<bool>, pos: nat): (C: seq<bool>)
    requires |B| % 8 == 0 && pos <= |B|
    ensures |C| % 8 == 0 && pos <= |C| <= |B| && C <= B
  {
    B[..RoundUp(pos)]
  }

  /** b is reached from a, and nothing beyond the bytes b has got to matters for that. */
  ghost predicate ReachesBy(a: Abs, B: seq<bool>, b: Abs) {
    |B| % 8 == 0 && b.pos <= |B| && Reaches(a, Consumed(B, b.pos), b)
  }

  lemma DecodeLocal(lens: seq<nat>, bits: seq<bool>, k: nat)
    requires NotOversubscribed(lens) && k <= |bits|
    requires DecodeSym(lens, bits).Symbol? ==> DecodeSym(lens, bits).len <= k
    requires DecodeSym(lens, bits).Invalid? ==> 1 <= k
    requires !DecodeSym(lens, bits).NeedMore?
    ensures DecodeSym(lens, bits[..k]) == DecodeSym(lens, bits)
  {
    match DecodeSym(lens, bits)
    case Symbol(s, n) =>
      assert IsCodeOf(lens, s, bits[..k]);
      DecodeSymIs(lens, bits[..k], s);
    case Invalid =>
      if t: nat :| IsCodeOf(lens, t, bits[..k]) {
        assert IsCodeOf(lens, t, bits);
      }
  }

  /** A step depends on no bits beyond the ones it consumes. */
  lemma StepLocal(a: Abs, B: seq<bool>, b: Abs)
    requires Wf(a) && InData(a.phase) && |B| % 8 == 0 && a.pos <= b.pos <= |B| && Step(a, B) == Some(b)
    ensures Step(a, Consumed(B, b.pos)) == Some(b)
  {
    hide CodesOk, DecodeSym, ReadBits, Accepted, AfterLen, AfterDist, Consumed, StepMatch, NotOversubscribed;
    var C := Consumed(B, b.pos);
    match a.phase
    case Len(ll, dl) =>
      CodesUsable(ll, dl);
      DecodeLocal(ll, B[a.pos..], |C| - a.pos);
      assert B[a.pos..][..|C| - a.pos] == C[a.pos..];
    case Dist(ll, dl, length) =>
      CodesUsable(ll, dl);
      DecodeLocal(dl, B[a.pos..], |C| - a.pos);
      assert B[a.pos..][..|C| - a.pos] == C[a.pos..];
    case LenExt(ll, dl, length, extra) => ReadStable(C, B, a.pos, extra);
    case DistExt(ll, dl, length, offset, extra) => ReadStable(C, B, a.pos, extra);
    case Match(ll, dl, length, offset) =>
    case Lit(ll, dl, value) =>
  }

  lemma ReachesByStep(a0: Abs, B: seq<bool>, a: Abs, b: Abs)
    requires Wf(a0) && Wf(a) && InData(a.phase) && a0.pos <= a.pos
    requires ReachesBy(a0, B, a) && Step(a, B) == Some(b)
    ensures ReachesBy(a0, B, b) && Wf(b) && a0.pos <= b.pos
  {
    hide Wf, Step, Reaches;
    var C := Consumed(B, b.pos);
    StepLocal(a, B, b);
    ReachesStable(a0, Consumed(B, a.pos), C, a);
    OneStep(a, C, b);
    ReachesTrans(a0, C, a, b);
  }

  lemma ReachesByMore(a: Abs, B: seq<bool>, more: seq<bool>, b: Abs)
    requires ReachesBy(a, B, b) && B <= more && |more| % 8 == 0
    ensures ReachesBy(a, more, b)
  {
    assert Consumed(more, b.pos) == Consumed(B, b.pos);
  }

  /** inflate_fast has come from a0 to a; what is in the accumulator comes after that. */
  ghost predicate Fast(reader: BitReader, a0: Abs, a: Abs)
    reads reader
  {
    && reader.Accum() && reader.bits <= 32 && a.pos == 8 * |reader.inp| - reader.bits
    && Wf(a0) && Wf(a) && a0.pos <= a.pos && ReachesBy(a0, Pulled(reader), a)
  }

  /** Input has only moved from the buffer into the accumulator. */
  twostate predicate Moved(reader: BitReader, new count: nat)
    reads reader
  {
    && reader.Whole() == old(reader.Whole()) && old(reader.inp) <= reader.inp
    && |reader.inp| == |old(reader.inp)| + count
  }

  /** Pull one byte, unguarded. */
  method PullOne(reader: BitReader, ghost a0: Abs, ghost a: Abs)
    requires Fast(reader, a0, a) && reader.bits <= 24 && reader.next_in != []
    modifies reader
    ensures Fast(reader, a0, a) && reader.bits == old(reader.bits) + 8 && Moved(reader, 1)
  {
    hide Wf, Reaches, BytesBits;
    ghost var B := Pulled(reader);
    reader.Pup();
    Grown(old(reader.inp), reader.inp);
    ReachesByMore(a0, B, Pulled(reader), a);
  }

  /** Make sure of 15 bits: two bytes, unguarded. */
  method PullTwo(reader: BitReader, ghost a0: Abs, ghost a: Abs) returns (ghost count: nat)
    requires Fast(reader, a0, a) && (reader.bits < 15 ==> |reader.next_in| >= 2)
    modifies reader
    ensures Fast(reader, a0, a) && reader.bits >= 15 && Moved(reader, count) && count <= 2
    ensures count > 0 ==> reader.bits <= 30
  {
    hide Fast;
    FastBits(reader, a0, a);
    count := 0;
    if reader.bits < 15 {
      PullOne(reader, a0, a);
      PullOne(reader, a0, a);
      count := 2;
    }
  }

  lemma FastBits(reader: BitReader, a0: Abs, a: Abs)
    requires Fast(reader, a0, a)
    ensures reader.Accum() && reader.bits <= 32 && a.pos == 8 * |reader.inp| - reader.bits
    ensures Wf(a0) && Wf(a) && ReachesBy(a0, Pulled(reader), a)
  {
  }

  /** Look a code up when there are enough bits for any code; a link is followed after dropping its bits. */
  method FastCode(reader: BitReader, table: seq<Code>, root: nat, kind: Kind, ghost lens: seq<nat>)
    returns (here: Code, ghost drop: nat)
    requires reader.Accum() && reader.bits >= 15 && TableFor(table, kind, lens, root)
    modifies reader`hold, reader`bits
    ensures reader.Accum() && reader.bits == old(reader.bits) - drop - here.bits && 1 <= drop + here.bits <= 15
    ensures Decoded(here, drop, kind, old(DecodeSym(lens, reader.Pending())))
  {
    hide DecodeSym, Pow2, TableFor, Entry, Decoded, Val, Shr, Lsb, BytesBits, SymbolOk, BitReader.Pending, Agrees, First, IsLink;
    TableUsable(table, kind, lens, root);
    ghost var s, h := reader.Pending(), reader.hold;
    DecodeSymEnough(lens, s);
    here := reader.LookUp(table, root, kind, lens);
    drop := 0;
    if IsLink(here) {
      reader.DropBits(here.bits);
      drop := here.bits;
      LinkedEntry(table, kind, lens, root, s, h);
      var i := Mask(reader.hold, here.op);
      here := table[here.val + i];
    }
    DecodedLength(lens, s, kind, here, drop);
    DecodedMax(lens, s, kind, here, drop);
    reader.DropBits(here.bits);
  }

  lemma LinkedEntry(T: seq<Code>, kind: Kind, lens: seq<nat>, root: nat, s: seq<bool>, h: nat)
    requires TableFor(T, kind, lens, root) && h == Val(s) && |s| >= 15
    requires Pow2(root) <= |T| && IsLink(First(T, root, h))
    ensures var e := First(T, root, h);
            && e.bits == root && SecondIndex(e, root, h) < |T|
            && Decoded(T[SecondIndex(e, root, h)], root, kind, DecodeSym(lens, s))
  {
    hide DecodeSym, TableFor, Entry, Val, Shr, Lsb, SymbolOk, NotOversubscribed, First, Pow2, SecondIndex;
    TableUsable(T, kind, lens, root);
    TableCorrect(T, kind, lens, root, h, |s|);
    LsbVal(s);
    DecodeSymEnough(lens, s);
  }

  lemma DecodedMax(lens: seq<nat>, bits: seq<bool>, kind: Kind, here: Code, drop: nat)
    requires NotOversubscribed(lens) && Decoded(here, drop, kind, DecodeSym(lens, bits))
    ensures drop + here.bits <= 15
  {
  }

  /** here.op & 16 */
  predicate BaseOp(op: nat) {
    op / 16 % 2 == 1
  }

  /** inflate_fast tests the kinds of entries in another order than inflate. */
  lemma BaseOps(here: Code, drop: nat, kind: Kind, r: Lookup)
    requires Decoded(here, drop, kind, r) && kind != CODES
    ensures kind == LENS ==> (BaseOp(here.op) <==> here.op != 0 && !EndOp(here.op) && !BadOp(here.op))
    ensures kind == DISTS ==> (BaseOp(here.op) <==> !BadOp(here.op))
  {
    hide LExt, LBase, DExt, DBase;
    if r.Symbol? {
      if kind == LENS {
        LenOps(r.sym, here.bits);
      } else {
        DistOps(r.sym, here.bits);
      }
    }
  }

  lemma LenOps(s: nat, bits: nat)
    requires s < 288
    ensures var op := Entry(LENS, s, bits).op; BaseOp(op) <==> op != 0 && !EndOp(op) && !BadOp(op)
  {
    hide BaseOp, EndOp, BadOp, LExt, LBase;
    if s > 256 {
      LengthExtraKinds(s - 257);
    }
    OpKinds(Entry(LENS, s, bits).op);
  }

  /** The kinds of all the values that an op of a literal/length entry has. */
  lemma OpKinds(op: nat)
    ensures op == 0 || op == 96 || op == 72 || op == 78 ==> !BaseOp(op) && (op == 0 || EndOp(op) || BadOp(op))
    ensures 16 <= op <= 29 ==> BaseOp(op) && !EndOp(op) && !BadOp(op)
  {
  }

  lemma DistOps(s: nat, bits: nat)
    requires s < 32
    ensures var op := Entry(DISTS, s, bits).op; BaseOp(op) <==> !BadOp(op)
  {
    hide DExt, DBase, LExt, LBase;
    DistExtraKinds(s);
  }

  /** A literal/length code: at most two bytes are pulled for it. */
  method FastLen(reader: BitReader, table: seq<Code>, root: nat, ghost a0: Abs, ghost a: Abs)
    returns (here: Code, ghost n: nat, ghost count: nat)
    requires Fast(reader, a0, a) && a.phase.Len? && TableFor(table, LENS, a.phase.ll, root)
    requires reader.bits < 15 ==> |reader.next_in| >= 2
    modifies reader
    ensures here.op == 0 ==> here.val < 256
    ensures Fast(reader, a0, AfterLenEntry(a, here, n)) && 1 <= n <= 15
    ensures Moved(reader, count) && count <= 2 && reader.bits == old(reader.bits) + 8 * count - n
    ensures count > 0 ==> reader.bits < 30
    ensures Step(a, Pulled(reader)) == Some(AfterLenEntry(a, here, n))
    ensures BaseOp(here.op) <==> here.op != 0 && !EndOp(here.op) && !BadOp(here.op)
  {
    hide Wf, Reaches, ReachesBy, BytesBits, Val, Step, DecodeSym, Decoded, TableFor, AfterLenEntry;
    count := PullTwo(reader, a0, a);
    ghost var drop;
    here, drop := FastCode(reader, table, root, LENS, a.phase.ll);
    n := drop + here.bits;
    LenEntryIs(a, Pulled(reader), here, drop);
    BaseOps(here, drop, LENS, DecodeSym(a.phase.ll, Pulled(reader)[a.pos..]));
    ReachesByStep(a0, Pulled(reader), a, AfterLenEntry(a, here, n));
  }

  method FastDist(reader: BitReader, table: seq<Code>, root: nat, ghost a0: Abs, ghost a: Abs)
    returns (here: Code, ghost n: nat, ghost count: nat)
    requires Fast(reader, a0, a) && a.phase.Dist? && TableFor(table, DISTS, a.phase.dl, root)
    requires reader.bits < 15 ==> |reader.next_in| >= 2
    modifies reader
    ensures Fast(reader, a0, AfterDistEntry(a, here, n)) && 1 <= n <= 15
    ensures Moved(reader, count) && count <= 2 && reader.bits == old(reader.bits) + 8 * count - n
    ensures count > 0 ==> reader.bits < 30
    ensures BaseOp(here.op) <==> !BadOp(here.op)
  {
    hide Wf, Reaches, ReachesBy, BytesBits, Val, Step, DecodeSym, Decoded, TableFor, AfterDistEntry;
    count := PullTwo(reader, a0, a);
    ghost var drop;
    here, drop := FastCode(reader, table, root, DISTS, a.phase.dl);
    n := drop + here.bits;
    DistEntryIs(a, Pulled(reader), here, drop);
    BaseOps(here, drop, DISTS, DecodeSym(a.phase.dl, Pulled(reader)[a.pos..]));
    ReachesByStep(a0, Pulled(reader), a, AfterDistEntry(a, here, n));
  }

  /** Extra bits: a byte is pulled if there are too few, and another one if that is not enough. */
  method FastExtra(reader: BitReader, op: nat, ghost a0: Abs, ghost a: Abs) returns (v: nat, ghost count: nat)
    requires Fast(reader, a0, a) && (a.phase.LenExt? || a.phase.DistExt?) && op == FieldBits(a) <= 13
    requires reader.bits < op ==> |reader.next_in| >= 1
    requires reader.bits + 8 < op ==> |reader.next_in| >= 2
    modifies reader
    ensures Fast(reader, a0, AfterExtra(a, v))
    ensures Moved(reader, count) && count <= 2 && reader.bits == old(reader.bits) + 8 * count - op
    ensures count > 0 ==> reader.bits < 8
    ensures op <= 8 ==> count <= 1
  {
    hide Wf, Reaches, ReachesBy, BytesBits, Val, Step, AfterExtra, ReadBits, FieldBits;
    count := 0;
    if reader.bits < op {
      PullOne(reader, a0, a);
      count := 1;
      if reader.bits < op {
        PullOne(reader, a0, a);
        count := 2;
      }
    }
    FieldAt(reader.inp, reader.bits, 0, op);
    assert reader.Pending()[0..] == reader.Pending();
    v := reader.LowBitsOf(op);
    reader.DropBits(op);
    ExtraStep(a, Pulled(reader));
    ReachesByStep(a0, Pulled(reader), a, AfterExtra(a, v));
  }

  /**
   The rest of a length and distance pair, after a length code that took r0 bytes and left base
   and op extra bits: six bytes are enough for all of it, since it takes at most 48 bits.
   */
  method FastPair(reader: BitReader, base: nat, op: nat, table: seq<Code>, root: nat, ghost a0: Abs, ghost a: Abs,
                  ghost used: nat, ghost bits0: nat, ghost r0: nat)
    returns (ok: bool, len: nat, dist: nat, ghost b: Abs, ghost count: nat)
    requires Fast(reader, a0, a) && a.phase.LenExt? && a.phase.length == base && a.phase.extra == op
    requires TableFor(table, DISTS, a.phase.dl, root)
    requires used <= 15 && r0 <= 2 && bits0 + 8 * r0 == used + reader.bits && r0 + |reader.next_in| >= 6
    modifies reader
    ensures Fast(reader, a0, b) && b.pos >= a.pos && b.out == a.out && b.last == a.last
    ensures Moved(reader, count) && r0 + count <= 6
    ensures !ok ==> b.phase == Bad
    ensures ok ==> b.phase == Match(a.phase.ll, a.phase.dl, len, dist) && 3 <= len <= 258 && 1 <= dist <= 32768
  {
    hide Fast, TableFor, BadOp, BaseOp, Wf, Step, Reaches, ReachesBy, DecodeSym, CodesOk, BytesBits, BitReader.Accum;
    PairBounds(reader, a0, a);
    var v, here, w; ghost var n, c1, c2, c3;
    v, c1 := FastExtra(reader, op, a0, a);
    len := base + v;
    b := AfterExtra(a, v);
    here, n, c2 := FastDist(reader, table, root, a0, b);
    b := AfterDistEntry(b, here, n);
    dist, count := 0, c1 + c2;
    ok := BaseOp(here.op);
    if ok {
      PairBounds(reader, a0, b);
      w, c3 := FastExtra(reader, here.op % 16, a0, b);
      dist := here.val + w;
      b := AfterExtra(b, w);
      count := count + c3;
      PairBounds(reader, a0, b);
    }
  }

  lemma PairBounds(reader: BitReader, a0: Abs, a: Abs)
    requires Fast(reader, a0, a)
    ensures a.phase.LenExt? ==> a.phase.extra <= 5
    ensures a.phase.DistExt? ==> a.phase.extra <= 13
    ensures a.phase.Match? ==> 1 <= a.phase.length <= 258 && 1 <= a.phase.offset <= 32768
    ensures a.phase.LenExt? ==> 3 <= a.phase.length
    ensures a.phase.DistExt? ==> 3 <= a.phase.length
  {
  }

  /** A code that has not been complete with the bits at hand ends beyond them. */
  lemma FirstCovers(a: Abs, before: seq<bool>, B: seq<bool>, b: Abs)
    requires Wf(a) && a.phase.Len? && Stuck(a, before)
    requires |B| % 8 == 0 && before <= B && Step(a, B) == Some(b) && |before| > a.pos
    ensures b.pos > |before|
  {
    hide DecodeSym, Fits, Step, NotOversubscribed;
    StepIs(a, before);
    StepIs(a, B);
    var ll := a.phase.ll;
    CodesUsable(ll, a.phase.dl);
    assert before[a.pos..] <= B[a.pos..];
    match DecodeSym(ll, B[a.pos..])
    case NeedMore =>
    case Symbol(s, n) => DecodeSymNeedsThem(ll, before[a.pos..], B[a.pos..]);
    case Invalid => WaitingNotInvalid(ll, before[a.pos..], B[a.pos..]);
  }

  lemma WaitingNotInvalid(lens: seq<nat>, bits: seq<bool>, more: seq<bool>)
    requires DecodeSym(lens, bits).NeedMore? && bits != []
    ensures !DecodeSym(lens, more).Invalid?
  {
    hide Complete;
  }
}
