/**
 The input side of inflate: the bit accumulator with its NEEDBITS, BITS, DROPBITS and PULLBYTE
 operations, and the decoding of one code through the tables (libz_all/inflate.c).
 */
module Accumulator {
  import opened Bits
  import opened Canonical
  import opened InfTrees
  import opened InflateTable
  import opened TableLookup

  /** v mod 2^n, that is v & ((1 << n) - 1). */
  method Mask(v: nat, n: nat) returns (r: nat)
    ensures r == Val(Lsb(v, n)) == v % Pow2(n)
  {
    var p := Power(n);
    r := v % p;
    ValLsb(v, n);
  }

  method ShiftRight(v: nat, n: nat) returns (r: nat)
    ensures r == Shr(v, n)
  {
    hide Pow2, Shr;
    var p := Power(n);
    r := v / p;
    ShrIsDiv(v, n);
  }

  lemma LsbPrefixOf(s: seq<bool>, n: nat)
    requires n <= |s|
    ensures Lsb(Val(s), n) == s[..n]
    ensures Shr(Val(s), n) == Val(s[n..])
  {
    ValPrefix(s, n);
    ShrIsDiv(Val(s), n);
    LsbMod(Val(s), n);
    LsbVal(s[..n]);
  }

  /** here, after drop bits of link, is what the code's own decoding says. */
  ghost predicate Decoded(here: Code, drop: nat, kind: Kind, r: Lookup) {
    || (r.Symbol? && r.len == drop + here.bits && SymbolOk(kind, r.sym) && here == Entry(kind, r.sym, here.bits))
    || (r == Invalid && here == INVALID_ENTRY && drop == 0)
  }

  /** Of the bits at hand at most the last eight are more than the next code needs. */
  ghost predicate Waiting(lens: seq<nat>, s: seq<bool>) {
    |s| < 8 || DecodeSym(lens, s).NeedMore? || DecodeSym(lens, s[..|s| - 8]).NeedMore?
  }

  class BitReader {
    var next_in: seq<Byte>
    var hold: nat
    var bits: nat
    ghost var inp: seq<Byte>

    constructor ()
      ensures Accum() && bits == 0 && inp == [] && next_in == []
    {
      next_in, hold, bits, inp := [], 0, 0, [];
    }

    /** The bits that have been pulled but not dropped. */
    ghost function Pending(): (s: seq<bool>)
      requires bits <= 8 * |inp|
      reads this
      ensures |s| == bits
    {
      BytesBits(inp)[8 * |inp| - bits..]
    }

    /** The accumulator holds exactly the pending bits, zeros above them. */
    ghost predicate Accum()
      reads this
    {
      bits <= 8 * |inp| && hold == Val(Pending())
    }

    /** Everything that will have been read once the input at hand is used up. */
    ghost function Whole(): seq<Byte>
      reads this
    {
      inp + next_in
    }

    /** hold += *next++ << bits, without looking whether there is a byte. */
    method Pup()
      requires Accum() && next_in != []
      modifies this
      ensures Accum() && Whole() == old(Whole())
      ensures inp == old(inp) + [old(next_in)[0]] && next_in == old(next_in)[1..] && bits == old(bits) + 8
      ensures Pending() == old(Pending()) + Lsb(old(next_in)[0], 8)
    {
      hide Val, Lsb, BytesBits, Pow2;
      var p := Power(bits);
      ghost var s := Pending();
      ghost var b := next_in[0];
      Appended(inp, b, bits);
      ValAppend(s, Lsb(b, 8));
      ByteVal(b);
      hold := hold + p * next_in[0];
      bits := bits + 8;
      assert inp + next_in == inp + [b] + next_in[1..];
      inp := inp + [next_in[0]];
      next_in := next_in[1..];
    }

    method PullByte() returns (ok: bool)
      requires Accum()
      modifies this
      ensures Accum() && Whole() == old(Whole())
      ensures ok <==> old(next_in) != []
      ensures !ok ==> inp == old(inp) && next_in == [] && bits == old(bits) && Pending() == old(Pending())
      ensures ok ==> inp == old(inp) + [old(next_in)[0]] && next_in == old(next_in)[1..] && bits == old(bits) + 8
      ensures ok ==> Pending() == old(Pending()) + Lsb(old(next_in)[0], 8)
    {
      ok := next_in != [];
      if ok {
        Pup();
      }
    }

    method NeedBits(n: nat) returns (ok: bool)
      requires Accum()
      modifies this
      ensures Accum() && Whole() == old(Whole()) && old(inp) <= inp
      ensures 8 * |inp| - bits == old(8 * |inp| - bits) && bits >= old(bits)
      ensures ok ==> bits >= n && (bits == old(bits) || bits < n + 8)
      ensures !ok ==> bits < n && next_in == []
      ensures old(Pending()) <= Pending()
      ensures n % 8 == 0 && old(bits) % 8 == 0 && old(bits) <= n && ok ==> bits == n
    {
      hide Val, Lsb, BytesBits, Pow2;
      while bits < n
        invariant Accum() && Whole() == old(Whole()) && old(inp) <= inp
        invariant 8 * |inp| - bits == old(8 * |inp| - bits) && bits >= old(bits)
        invariant bits == old(bits) || bits < n + 8
        invariant old(Pending()) <= Pending()
        invariant bits % 8 == old(bits) % 8
        decreases |next_in|
      {
        ghost var before := Pending();
        var more := PullByte();
        if !more {
          return false;
        }
        assert before <= Pending();
      }
      ok := true;
    }

    /** INITBITS */
    method InitBits()
      requires Accum()
      modifies this`hold, this`bits
      ensures Accum() && bits == 0 && Pending() == []
    {
      hold := 0;
      bits := 0;
    }

    /** BYTEBITS: drop the rest of a partly read byte. */
    method ByteBits()
      requires Accum()
      modifies this`hold, this`bits
      ensures Accum() && bits == old(bits) - old(bits) % 8
    {
      DropBits(bits % 8);
    }

    /** next += n with no bits pending: n bytes are taken as they are. */
    method TakeBytes(n: nat) returns (taken: seq<Byte>)
      requires Accum() && bits == 0 && n <= |next_in|
      modifies this`next_in, this`inp
      ensures Accum() && Whole() == old(Whole()) && bits == 0
      ensures taken == old(next_in[..n]) && next_in == old(next_in[n..]) && inp == old(inp) + taken
    {
      taken := next_in[..n];
      inp := inp + taken;
      next_in := next_in[n..];
      assert Pending() == [];
    }

    /**
     in -= bits >> 3: give back the whole bytes that are left over.  They are bytes of this
     call's input, which began with start.
     */
    method GiveBack(start: seq<Byte>, ghost inp0: seq<Byte>)
      requires Accum() && inp0 <= inp && Whole() == inp0 + start
      requires bits / 8 <= |inp| - |inp0|
      modifies this
      ensures Accum() && Whole() == old(Whole()) && bits == old(bits) % 8
      ensures inp == old(inp)[..|old(inp)| - old(bits) / 8]
    {
      hide Val, Lsb, BytesBits, Pow2;
      var len := bits / 8;
      ghost var s, was := Pending(), inp;
      var taken := |start| - |next_in|;
      next_in := start[taken - len..];
      inp := inp[..|inp| - len];
      HandedBack(was, bits);
      hold := Mask(hold, bits % 8);
      LsbPrefixOf(s, bits % 8);
      bits := bits % 8;
    }

    /** Decode with the root table: pull bytes until the entry found has all its bits. */
    method DecodeRoot(table: seq<Code>, root: nat, kind: Kind, ghost lens: seq<nat>)
      returns (ok: bool, here: Code)
      requires Accum() && TableFor(table, kind, lens, root)
      requires bits <= 32
      modifies this
      ensures Accum() && Whole() == old(Whole()) && old(inp) <= inp
      ensures 8 * |inp| - bits == old(8 * |inp| - bits) && old(bits) <= bits <= 32
      ensures bits != old(bits) || old(Waiting(lens, Pending())) ==> Waiting(lens, Pending())
      ensures !ok ==> next_in == [] && DecodeSym(lens, Pending()) == NeedMore
      ensures Pow2(root) <= |table|
      ensures ok ==> here.bits <= bits && here == First(table, root, hold)
      ensures ok && !IsLink(here) ==> Decoded(here, 0, kind, DecodeSym(lens, Pending()))
      ensures ok && IsLink(here) ==> here.bits == root
    {
      hide Val, Lsb, BytesBits, Pow2, TableFor, DecodeSym, Entry, Shr, Agrees, SymbolOk, Waiting, First, Decoded, IsLink;
      TableUsable(table, kind, lens, root);
      here := INVALID_ENTRY;
      while true
        invariant Accum() && Whole() == old(Whole()) && old(inp) <= inp && old(bits) <= bits
        invariant 8 * |inp| - bits == old(8 * |inp| - bits)
        invariant bits != old(bits) || old(Waiting(lens, Pending())) ==> Waiting(lens, Pending())
        invariant bits <= 32
        decreases |next_in|
      {
        here := LookUp(table, root, kind, lens);
        if here.bits <= bits {
          break;
        }
        ok := PullNext(lens);
        if !ok {
          return;
        }
      }
      ok := true;
    }

    /** Decode with the sub-table that last links to. */
    method DecodeSub(table: seq<Code>, root: nat, last: Code, kind: Kind, ghost lens: seq<nat>)
      returns (ok: bool, here: Code)
      requires Accum() && TableFor(table, kind, lens, root) && Waiting(lens, Pending())
      requires IsLink(last) && last.bits == root <= bits <= 32
      requires Pow2(root) <= |table| && last == First(table, root, hold)
      modifies this
      ensures Accum() && Whole() == old(Whole()) && old(inp) <= inp
      ensures 8 * |inp| - bits == old(8 * |inp| - bits) && old(bits) <= bits <= 32
      ensures Waiting(lens, Pending())
      ensures !ok ==> next_in == [] && DecodeSym(lens, Pending()) == NeedMore
      ensures ok ==> root + here.bits <= bits && Decoded(here, root, kind, DecodeSym(lens, Pending()))
    {
      hide Val, Lsb, BytesBits, Pow2, TableFor, DecodeSym, Entry, Shr, Agrees, SymbolOk, Waiting, First, Decoded, IsLink;
      TableUsable(table, kind, lens, root);
      here := last;
      while true
        invariant Accum() && Whole() == old(Whole()) && old(inp) <= inp && old(bits) <= bits <= 32
        invariant 8 * |inp| - bits == old(8 * |inp| - bits)
        invariant Waiting(lens, Pending()) && last == First(table, root, hold)
        decreases |next_in|
      {
        here := LookUpSecond(table, root, last, kind, lens);
        if last.bits + here.bits <= bits {
          break;
        }
        ghost var before := Pending();
        ok := PullNext(lens);
        if !ok {
          return;
        }
        SameRootEntry(table, root, before, Pending());
      }
      ok := true;
    }

    /**
     Decode one code: first in the root table and then, if the entry found is a link, in the
     sub-table, pulling a byte whenever the entry needs more bits than there are.  The first drop
     bits belong to the link.
     */
    method Decode(table: seq<Code>, root: nat, kind: Kind, ghost lens: seq<nat>)
      returns (ok: bool, here: Code, drop: nat)
      requires Accum() && TableFor(table, kind, lens, root)
      requires bits <= 32 && (bits < 8 || DecodeSym(lens, Pending()).NeedMore?)
      modifies this
      ensures Accum() && Whole() == old(Whole()) && old(inp) <= inp
      ensures 8 * |inp| - bits == old(8 * |inp| - bits) && old(bits) <= bits <= 32
      ensures !ok ==> next_in == [] && DecodeSym(lens, Pending()) == NeedMore
      ensures ok ==> drop + here.bits <= bits < drop + here.bits + 8
      ensures ok ==> Decoded(here, drop, kind, DecodeSym(lens, Pending()))
    {
      hide Val, Lsb, BytesBits, Pow2, TableFor, DecodeSym, Entry, Shr, Agrees, SymbolOk, Waiting, First, Decoded, IsLink;
      StartWaiting(lens, Pending());
      ok, here := DecodeRoot(table, root, kind, lens);
      drop := 0;
      if ok && IsLink(here) {
        drop := here.bits;
        ok, here := DecodeSub(table, root, here, kind, lens);
      }
      if ok {
        WaitedFor(kind, table, root, lens, Pending(), here, drop);
      }
    }

    /** table[BITS(root)] */
    method LookUp(table: seq<Code>, root: nat, kind: Kind, ghost lens: seq<nat>) returns (here: Code)
      requires Accum() && TableFor(table, kind, lens, root)
      ensures Pow2(root) <= |table| && here == First(table, root, hold)
      ensures here.bits > bits ==> DecodeSym(lens, Pending()) == NeedMore
      ensures !IsLink(here) && here.bits <= bits ==> Decoded(here, 0, kind, DecodeSym(lens, Pending()))
      ensures IsLink(here) ==> here.bits == root
    {
      hide Val, Lsb, BytesBits, Pow2, DecodeSym, Entry, Shr, LensOk, Accepted, Complete, AllPlaced, SymbolOk;
      var i := Mask(hold, root);
      TableCorrect(table, kind, lens, root, hold, bits);
      LsbVal(Pending());
      IndexBits(hold, root);
      here := table[i];
    }

    /** table[last.val + (BITS(last.bits + last.op) >> last.bits)] */
    method LookUpSecond(table: seq<Code>, root: nat, last: Code, kind: Kind, ghost lens: seq<nat>) returns (here: Code)
      requires Accum() && TableFor(table, kind, lens, root)
      requires Pow2(root) <= |table| && IsLink(last) && last == First(table, root, hold)
      requires last.bits == root <= bits
      ensures last.bits + here.bits > bits ==> DecodeSym(lens, Pending()) == NeedMore
      ensures last.bits + here.bits <= bits ==> Decoded(here, last.bits, kind, DecodeSym(lens, Pending()))
    {
      hide Val, Lsb, BytesBits, Pow2, DecodeSym, Entry, Shr, TableFor, SymbolOk;
      var both := Mask(hold, last.bits + last.op);
      var i := ShiftRight(both, last.bits);
      TableCorrect(table, kind, lens, root, hold, bits);
      LsbVal(Pending());
      MiddleBits(hold, root, last.op);
      here := table[last.val + i];
    }

    /** PULLBYTE while waiting for the rest of a code. */
    method PullNext(ghost lens: seq<nat>) returns (ok: bool)
      requires Accum() && DecodeSym(lens, Pending()) == NeedMore && NotOversubscribed(lens)
      modifies this
      ensures Accum() && Whole() == old(Whole()) && old(inp) <= inp
      ensures 8 * |inp| - bits == old(8 * |inp| - bits) && old(bits) <= bits <= 32
      ensures !ok ==> next_in == [] && Pending() == old(Pending()) && bits == old(bits)
      ensures ok ==> |next_in| == old(|next_in|) - 1 && old(Pending()) <= Pending()
      ensures ok ==> Waiting(lens, Pending())
    {
      hide Val, Lsb, BytesBits, Pow2, DecodeSym, NotOversubscribed;
      ghost var before := Pending();
      if |before| >= MAXBITS {
        DecodeSymEnough(lens, before);
      }
      ok := PullByte();
      if ok {
        assert Pending()[..|Pending()| - 8] == before;
      }
    }

    /** BITS(n) */
    method LowBitsOf(n: nat) returns (v: nat)
      requires Accum() && n <= bits
      ensures v == Val(Pending()[..n]) < Pow2(n)
    {
      v := Mask(hold, n);
      LsbPrefixOf(Pending(), n);
      ValBound(Pending()[..n]);
    }

    method DropBits(n: nat)
      requires Accum() && n <= bits
      modifies this`hold, this`bits
      ensures Accum() && bits == old(bits) - n && Pending() == old(Pending())[n..]
      ensures hold == Shr(old(hold), n)
    {
      LsbPrefixOf(Pending(), n);
      hold := ShiftRight(hold, n);
      bits := bits - n;
    }
  }

  /** Without its last whole bytes the accumulator has the first bits it had. */
  lemma HandedBack(inp: seq<Byte>, bits: nat)
    requires bits <= 8 * |inp|
    ensures var less := inp[..|inp| - bits / 8];
            BytesBits(less)[8 * |less| - bits % 8..] == BytesBits(inp)[8 * |inp| - bits..][..bits % 8]
  {
    hide BytesBits;
    var k := |inp| - bits / 8;
    BytesBitsAppend(inp[..k], inp[k..]);
    SplitAt(inp, k);
  }

  lemma TableUsable(table: seq<Code>, kind: Kind, lens: seq<nat>, root: nat)
    requires TableFor(table, kind, lens, root)
    ensures NotOversubscribed(lens) && Accepted(kind, lens)
  {
  }

  lemma StartWaiting(lens: seq<nat>, s: seq<bool>)
    requires |s| < 8 || DecodeSym(lens, s).NeedMore?
    ensures Waiting(lens, s)
  {
  }

  lemma WaitedFor(kind: Kind, table: seq<Code>, root: nat, lens: seq<nat>, s: seq<bool>, here: Code, drop: nat)
    requires TableFor(table, kind, lens, root)
    requires Waiting(lens, s) && Decoded(here, drop, kind, DecodeSym(lens, s)) && drop + here.bits <= |s|
    ensures |s| < drop + here.bits + 8
  {
    hide TableFor, LensOk, Accepted, Complete, AllPlaced, Entry;
    var r := DecodeSym(lens, s);
    if |s| >= 8 {
      var t := s[..|s| - 8];
      if r.Symbol? {
        DecodeSymNeedsThem(lens, t, s);
      } else {
        assert !Complete(lens);
      }
    }
  }

  lemma MiddleBits(h: nat, a: nat, b: nat)
    ensures Shr(h % Pow2(a + b), a) == Val(Lsb(Shr(h, a), b))
  {
    var s := Lsb(h, a + b);
    ValLsb(h, a + b);
    LsbPrefixOf(s, a);
    LsbSplit(h, a, b);
    assert s[a..] == Lsb(Shr(h, a), b);
  }

  /** The root entry depends on the first root bits only. */
  lemma SameRootEntry(table: seq<Code>, root: nat, s: seq<bool>, t: seq<bool>)
    requires root <= |s| && s <= t && Pow2(root) <= |table|
    ensures First(table, root, Val(s)) == First(table, root, Val(t))
  {
    assert t[..root] == s[..root];
    ValPrefix(s, root);
    ValPrefix(t, root);
  }

  lemma Appended(inp: seq<Byte>, b: Byte, bits: nat)
    requires bits <= 8 * |inp|
    ensures BytesBits(inp + [b])[8 * |inp| - bits..] == BytesBits(inp)[8 * |inp| - bits..] + Lsb(b, 8)
  {
    hide Lsb, BytesBits;
    BytesBitsSnoc(inp, b);
    DropOfAppend(BytesBits(inp), Lsb(b, 8), 8 * |inp| - bits);
  }

  lemma BytesBitsSnoc(inp: seq<Byte>, b: Byte)
    ensures BytesBits(inp + [b]) == BytesBits(inp) + Lsb(b, 8)
  {
    hide Lsb;
    assert (inp + [b])[..|inp|] == inp;
  }

  lemma DropOfAppend<T>(s: seq<T>, t: seq<T>, k: nat)
    requires k <= |s|
    ensures (s + t)[k..] == s[k..] + t
  {
  }

  lemma ByteVal(b: Byte)
    ensures Val(Lsb(b, 8)) == b
  {
    ValLsb(b, 8);
    Pow2Values();
  }
}
