/**
 The hash chains of deflate.c: head[] and the modulo-indexed prev[], related to the text that
 has gone through the window.  Window index i stands for position base + i of the text.
 */
module Chains {
  import opened Bits
  import opened Hash

  function KeyAt(p: HashParams, text: seq<Byte>, a: nat): (h: nat)
    requires a + 2 < |text|
    ensures h < Pow2(p.bits)
  {
    Key(p, text[a], text[a + 1], text[a + 2])
  }

  /** Index q is NIL or an inserted string with key h. */
  ghost predicate Linked(p: HashParams, text: seq<Byte>, base: nat, ins: set<nat>, q: nat, h: nat) {
    q == 0 || (base + q in ins && base + q + 2 < |text| && KeyAt(p, text, base + q) == h)
  }

  /** No inserted string in front of a that has key h, and is in the window behind index 0, comes after index q. */
  ghost predicate Latest(p: HashParams, text: seq<Byte>, base: nat, ins: set<nat>, q: nat, h: nat, a: nat) {
    forall b :: b in ins && base < b < a && b + 2 < |text| && KeyAt(p, text, b) == h ==> b <= base + q
  }

  /** ins and the positions from lo up to hi. */
  ghost function WithAll(ins: set<nat>, lo: nat, hi: int): set<nat>
    decreases hi - lo
  {
    if hi <= lo then ins else WithAll(ins, lo, hi - 1) + {hi - 1}
  }

  lemma WithOneMore(ins: set<nat>, lo: nat, hi: nat)
    requires lo <= hi
    ensures WithAll(ins, lo, hi + 1) == WithAll(ins, lo, hi) + {hi}
  {
  }

  lemma WithNone(ins: set<nat>, lo: nat, hi: int)
    requires hi <= lo
    ensures WithAll(ins, lo, hi) == ins
  {
  }

  function Slot(a: nat, base: nat, w: nat): (i: nat)
    requires base <= a && w > 0
    ensures i < w
  {
    (a - base) % w
  }

  /** The link of string a leads to the latest string with the same key in front of it, or nowhere. */
  ghost predicate LinkOk(p: HashParams, text: seq<Byte>, base: nat, w: nat, prev: seq<nat>, ins: set<nat>, a: nat)
    requires base <= a && |prev| == w > 0
  {
    var q := prev[Slot(a, base, w)];
    && a + 2 < |text| && Linked(p, text, base, ins, q, KeyAt(p, text, a))
    && (q == 0 || base + q < a) && Latest(p, text, base, ins, q, KeyAt(p, text, a), a)
  }

  /**
   All inserted strings are below top.  The heads of the chains are the latest strings with their
   keys, and the links of those strings whose place in prev[] has not been taken by a later one
   are as they should be.
   */
  ghost predicate ChainsOk(p: HashParams, text: seq<Byte>, base: nat, w: nat,
                           head: seq<nat>, prev: seq<nat>, ins: set<nat>, top: nat) {
    && |head| == Pow2(p.bits) && |prev| == w > 0
    && (forall a :: a in ins ==> a < top && a + 2 < |text|)
    && (forall h :: 0 <= h < |head| ==> Linked(p, text, base, ins, head[h], h) && Latest(p, text, base, ins, head[h], h, top))
    && (forall a :: a in ins && a >= base && a + w > top ==> LinkOk(p, text, base, w, prev, ins, a))
  }

  /** No multiple of w is strictly between 0 and w. */
  lemma NoMultiple(w: nat, k: int, d: nat)
    requires d == w * k
    ensures d == 0 || d >= w
  {
    if k >= 1 {
      MulLe(w, 1, k);
    } else {
      MulLe(w, k, 0);
    }
  }

  lemma SlotsDiffer(a: nat, b: nat, base: nat, w: nat)
    requires base <= a < b < a + w
    ensures Slot(a, base, w) != Slot(b, base, w)
  {
    if Slot(a, base, w) == Slot(b, base, w) {
      NoMultiple(w, (b - base) / w - (a - base) / w, b - a);
    }
  }

  /** What was said of an index is still true when a later string has been inserted. */
  lemma LinkedStill(p: HashParams, text: seq<Byte>, base: nat, ins: set<nat>, q: nat, h: nat, b: nat, a: nat)
    requires Linked(p, text, base, ins, q, h) && Latest(p, text, base, ins, q, h, b) && b <= a
    ensures Linked(p, text, base, ins + {a}, q, h) && Latest(p, text, base, ins + {a}, q, h, b)
  {
    hide KeyAt;
  }

  /** A string with another key does not become the head. */
  lemma LatestStill(p: HashParams, text: seq<Byte>, base: nat, ins: set<nat>, q: nat, h: nat, a: nat)
    requires Latest(p, text, base, ins, q, h, a) && a + 2 < |text| && KeyAt(p, text, a) != h
    ensures Latest(p, text, base, ins, q, h, a + 1)
  {
    hide KeyAt;
  }

  lemma LatestLess(p: HashParams, text: seq<Byte>, base: nat, ins: set<nat>, q: nat, h: nat, a: nat, top: nat)
    requires Latest(p, text, base, ins, q, h, top) && forall b :: b in ins ==> b < top
    ensures Latest(p, text, base, ins, q, h, a)
  {
    hide KeyAt;
  }

  /** INSERT_STRING keeps the chains. */
  lemma ChainsInsert(p: HashParams, text: seq<Byte>, base: nat, w: nat,
                     head: seq<nat>, prev: seq<nat>, ins: set<nat>, top: nat, a: nat)
    requires ChainsOk(p, text, base, w, head, prev, ins, top) && top <= a && base <= a && a + 2 < |text|
    ensures var h := KeyAt(p, text, a);
            && (head[h] == 0 || base + head[h] < a) && Linked(p, text, base, ins, head[h], h)
            && Latest(p, text, base, ins + {a}, head[h], h, a)
            && ChainsOk(p, text, base, w, head[h := a - base], prev[Slot(a, base, w) := head[h]], ins + {a}, a + 1)
  {
    hide KeyAt, Slot, Latest;
    var h := KeyAt(p, text, a);
    var head', prev', ins' := head[h := a - base], prev[Slot(a, base, w) := head[h]], ins + {a};
    assert Linked(p, text, base, ins, head[h], h);
    forall g | 0 <= g < |head'|
      ensures Linked(p, text, base, ins', head'[g], g) && Latest(p, text, base, ins', head'[g], g, a + 1)
    {
      LatestLess(p, text, base, ins, head[g], g, a, top);
      LinkedStill(p, text, base, ins, head[g], g, a, a);
      if g == h {
        ItselfLatest(p, text, base, ins', a, h);
      } else {
        LatestStill(p, text, base, ins', head[g], g, a);
      }
    }
    LatestLess(p, text, base, ins, head[h], h, a, top);
    LinkedStill(p, text, base, ins, head[h], h, a, a);
    forall b | b in ins' && b >= base && b + w > a + 1
      ensures LinkOk(p, text, base, w, prev', ins', b)
    {
      if b != a {
        assert b in ins;
        SlotsDiffer(b, a, base, w);
        assert LinkOk(p, text, base, w, prev, ins, b);
        LinkedStill(p, text, base, ins, prev[Slot(b, base, w)], KeyAt(p, text, b), b, a);
      }
    }
  }

  lemma ItselfLatest(p: HashParams, text: seq<Byte>, base: nat, ins: set<nat>, a: nat, h: nat)
    requires base <= a
    ensures Latest(p, text, base, ins, a - base, h, a + 1)
  {
  }

  lemma KeyGrow(p: HashParams, text: seq<Byte>, more: seq<Byte>, a: nat)
    requires text <= more && a + 2 < |text|
    ensures KeyAt(p, more, a) == KeyAt(p, text, a)
  {
    hide Key;
  }

  lemma LatestGrow(p: HashParams, text: seq<Byte>, more: seq<Byte>, base: nat, ins: set<nat>, q: nat, h: nat, a: nat)
    requires text <= more && Latest(p, text, base, ins, q, h, a) && forall b :: b in ins ==> b + 2 < |text|
    ensures Latest(p, more, base, ins, q, h, a)
  {
    hide KeyAt;
    forall b | b in ins && base < b < a && KeyAt(p, more, b) == h
      ensures b <= base + q
    {
      KeyGrow(p, text, more, b);
    }
  }

  /** New input does not disturb them. */
  lemma ChainsGrow(p: HashParams, text: seq<Byte>, more: seq<Byte>, base: nat, w: nat,
                   head: seq<nat>, prev: seq<nat>, ins: set<nat>, top: nat)
    requires ChainsOk(p, text, base, w, head, prev, ins, top) && text <= more
    ensures ChainsOk(p, more, base, w, head, prev, ins, top)
  {
    hide KeyAt, Slot;
    forall h | 0 <= h < |head|
      ensures Linked(p, more, base, ins, head[h], h) && Latest(p, more, base, ins, head[h], h, top)
    {
      LatestGrow(p, text, more, base, ins, head[h], h, top);
      assert Linked(p, text, base, ins, head[h], h);
      if head[h] != 0 {
        KeyGrow(p, text, more, base + head[h]);
      }
    }
    forall a | a in ins && a >= base && a + w > top
      ensures LinkOk(p, more, base, w, prev, ins, a)
    {
      assert LinkOk(p, text, base, w, prev, ins, a);
      var q := prev[Slot(a, base, w)];
      KeyGrow(p, text, more, a);
      LatestGrow(p, text, more, base, ins, q, KeyAt(p, text, a), a);
      if q != 0 {
        KeyGrow(p, text, more, base + q);
      }
    }
  }

  /** An index after the window has moved up by w: what has left it becomes NIL. */
  function Slid(q: nat, w: nat): nat {
    if q >= w then q - w else 0
  }

  function SlidAll(s: seq<nat>, w: nat): (r: seq<nat>)
    ensures |r| == |s|
  {
    seq(|s|, i requires 0 <= i < |s| => Slid(s[i], w))
  }

  lemma SlotSlid(a: nat, base: nat, w: nat)
    requires base + w <= a && w > 0
    ensures Slot(a, base + w, w) == Slot(a, base, w)
  {
    var x := a - base;
    ModUnique(x - w, w, x / w - 1, x % w);
  }

  /** Sliding head[] and prev[] keeps the chains. */
  lemma ChainsSlide(p: HashParams, text: seq<Byte>, base: nat, w: nat,
                    head: seq<nat>, prev: seq<nat>, ins: set<nat>, top: nat)
    requires ChainsOk(p, text, base, w, head, prev, ins, top)
    ensures ChainsOk(p, text, base + w, w, SlidAll(head, w), SlidAll(prev, w), ins, top)
  {
    hide KeyAt, Slot;
    forall h | 0 <= h < |head|
      ensures Linked(p, text, base + w, ins, SlidAll(head, w)[h], h) && Latest(p, text, base + w, ins, SlidAll(head, w)[h], h, top)
    {
      assert Linked(p, text, base, ins, head[h], h);
    }
    forall a | a in ins && a >= base + w && a + w > top
      ensures LinkOk(p, text, base + w, w, SlidAll(prev, w), ins, a)
    {
      assert LinkOk(p, text, base, w, prev, ins, a);
      SlotSlid(a, base, w);
    }
  }

  lemma NoChains(p: HashParams, text: seq<Byte>, base: nat, w: nat, head: seq<nat>, prev: seq<nat>, top: nat)
    requires |head| == Pow2(p.bits) && |prev| == w > 0 && forall h :: 0 <= h < |head| ==> head[h] == 0
    ensures ChainsOk(p, text, base, w, head, prev, {}, top)
  {
  }

  /**
   The next string on the chain of a: if it is not NIL it lies further back and has the same key,
   and none between the two has it.
   */
  lemma NextLink(p: HashParams, text: seq<Byte>, base: nat, w: nat,
                 head: seq<nat>, prev: seq<nat>, ins: set<nat>, top: nat, cur: nat, h: nat)
    requires ChainsOk(p, text, base, w, head, prev, ins, top)
    requires cur != 0 && Linked(p, text, base, ins, cur, h) && base + cur + w > top
    ensures var q := prev[cur % w];
            Linked(p, text, base, ins, q, h) && (q == 0 || q < cur) && Latest(p, text, base, ins, q, h, base + cur)
  {
    hide KeyAt;
    assert LinkOk(p, text, base, w, prev, ins, base + cur);
    assert Slot(base + cur, base, w) == cur % w;
  }

  /* ---------- matches ---------- */

  /** The len bytes at a also stand at the earlier position b. */
  ghost predicate SameBytes(text: seq<Byte>, a: nat, b: nat, len: nat) {
    && b < a && a + len <= |text|
    && forall j :: a <= j < a + len ==> text[j] == text[j - (a - b)]
  }

  /** Byte 2 need not be compared: it is equal when the keys and the first two bytes are. */
  lemma SkippedByte(p: HashParams, text: seq<Byte>, a: nat, b: nat)
    requires Usual(p) && a + 2 < |text| && b + 2 < |text| && KeyAt(p, text, a) == KeyAt(p, text, b)
    requires text[a] == text[b] && text[a + 1] == text[b + 1]
    ensures text[a + 2] == text[b + 2]
  {
    ThirdByte(p, text[a], text[a + 1], text[a + 2], text[b + 2]);
  }
}
