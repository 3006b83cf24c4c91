/** What longest_match is to find: the strings on offer, and what following a hash chain comes to. */
module Search {
  import opened Bits
  import opened Lz77
  import opened Hash
  import opened Chains

  /** The inserted strings between b and a that have the same key as a. */
  ghost function Between(p: HashParams, text: seq<Byte>, ins: set<nat>, b: nat, a: nat): set<nat>
    requires a + 2 < |text|
  {
    set c | c in ins && b < c < a && KeyAt(p, text, c) == KeyAt(p, text, a)
  }

  /**
   k bytes at a also stand at b, an inserted string in the window behind index 0, with less than
   chain strings of the same key in between; it is less than max bytes back, or just max bytes if
   it is the latest one.
   */
  ghost predicate OnOffer(p: HashParams, text: seq<Byte>, base: nat, ins: set<nat>, a: nat, max: nat, chain: nat, b: nat, k: nat) {
    && a + 2 < |text| && MIN_MATCH <= k <= MAX_MATCH && b in ins && base < b && SameBytes(text, a, b, k)
    && var later := Between(p, text, ins, b, a);
       |later| < chain && a - b <= max && (a - b == max ==> later == {})
  }

  /** A match of length len is as good as any on offer, or good enough. */
  ghost predicate NoneLonger(p: HashParams, text: seq<Byte>, base: nat, ins: set<nat>, a: nat, max: nat, chain: nat, nice: nat, len: nat) {
    forall b: nat, k: nat :: OnOffer(p, text, base, ins, a, max, chain, b, k) ==> k <= len || nice <= len
  }

  /** Not more than best bytes agree. */
  ghost predicate NoMoreThan(text: seq<Byte>, a: nat, b: nat, best: nat) {
    forall k: nat :: MIN_MATCH <= k <= MAX_MATCH && SameBytes(text, a, b, k) ==> k <= best
  }

  /** No inserted string behind position from agrees with the one at a in more than best bytes. */
  ghost predicate Tried(text: seq<Byte>, ins: set<nat>, from: nat, a: nat, best: nat) {
    forall b: nat, k: nat :: b in ins && from < b && MIN_MATCH <= k <= MAX_MATCH && SameBytes(text, a, b, k) ==> k <= best
  }

  lemma SameKey(p: HashParams, text: seq<Byte>, a: nat, b: nat, k: nat)
    requires SameBytes(text, a, b, k) && k >= MIN_MATCH
    ensures KeyAt(p, text, b) == KeyAt(p, text, a)
  {
    hide Key;
    assert text[a] == text[b] && text[a + 1] == text[a + 1 - (a - b)] && text[a + 2] == text[a + 2 - (a - b)];
  }

  /** No string has been passed over before the head of the chain. */
  lemma AtHead(p: HashParams, text: seq<Byte>, base: nat, ins: set<nat>, a: nat, q: nat, best: nat)
    requires a + 2 < |text| && Latest(p, text, base, ins, q, KeyAt(p, text, a), a)
    ensures Between(p, text, ins, base + q, a) == {} && Tried(text, ins, base + q, a, best)
  {
    hide KeyAt, SameBytes;
    forall b: nat, k: nat | b in ins && base + q < b && MIN_MATCH <= k <= MAX_MATCH && SameBytes(text, a, b, k)
      ensures false
    {
      Earlier(text, a, b, k);
      SameKey(p, text, a, b, k);
    }
  }

  lemma Earlier(text: seq<Byte>, a: nat, b: nat, k: nat)
    requires SameBytes(text, a, b, k)
    ensures b < a && a + k <= |text|
  {
  }

  /** One step along the chain, from index cur to index q. */
  lemma OneFurther(p: HashParams, text: seq<Byte>, base: nat, ins: set<nat>, a: nat, cur: nat, q: nat, best: nat, better: nat)
    requires a + 2 < |text| && cur != 0 && base + cur < a && Linked(p, text, base, ins, cur, KeyAt(p, text, a)) && q < cur
    requires Latest(p, text, base, ins, q, KeyAt(p, text, a), base + cur)
    requires Tried(text, ins, base + cur, a, best) && best <= better
    requires NoMoreThan(text, a, base + cur, better)
    ensures Tried(text, ins, base + q, a, better)
    ensures Between(p, text, ins, base + q, a) == Between(p, text, ins, base + cur, a) + {base + cur}
    ensures |Between(p, text, ins, base + q, a)| == |Between(p, text, ins, base + cur, a)| + 1
  {
    hide KeyAt, SameBytes;
    forall b: nat, k: nat | b in ins && base + q < b && MIN_MATCH <= k <= MAX_MATCH && SameBytes(text, a, b, k)
      ensures k <= better
    {
      Earlier(text, a, b, k);
      SameKey(p, text, a, b, k);
    }
    assert Between(p, text, ins, base + q, a) == Between(p, text, ins, base + cur, a) + {base + cur};
  }

  /** The match is long enough. */
  lemma LongEnough(p: HashParams, text: seq<Byte>, base: nat, ins: set<nat>, a: nat, max: nat, chain: nat, nice: nat, best: nat)
    requires a <= |text| && (best >= nice || best >= |text| - a)
    ensures NoneLonger(p, text, base, ins, a, max, chain, nice, best)
  {
    hide KeyAt, SameBytes, Between;
    forall b: nat, k: nat | OnOffer(p, text, base, ins, a, max, chain, b, k)
      ensures k <= best || nice <= best
    {
      Earlier(text, a, b, k);
    }
  }

  /** The rest of the chain is too far back. */
  lemma TooFarBack(p: HashParams, text: seq<Byte>, base: nat, ins: set<nat>, a: nat, max: nat, chain: nat, nice: nat, best: nat, first: nat, q: nat)
    requires a + 2 < |text| && first != 0 && Linked(p, text, base, ins, first, KeyAt(p, text, a)) && q < first && base + first < a
    requires Tried(text, ins, base + q, a, best) && (q == 0 || a - (base + q) >= max)
    ensures NoneLonger(p, text, base, ins, a, max, chain, nice, best)
  {
    hide KeyAt, SameBytes;
    forall b: nat, k: nat | OnOffer(p, text, base, ins, a, max, chain, b, k)
      ensures k <= best
    {
      if b < base + first {
        assert base + first in Between(p, text, ins, b, a);
      }
    }
  }

  /** The chain has been followed far enough. */
  lemma ChainUsedUp(p: HashParams, text: seq<Byte>, base: nat, ins: set<nat>, a: nat, max: nat, chain: nat, nice: nat, best: nat, q: nat)
    requires a + 2 < |text| && Tried(text, ins, base + q, a, best) && |Between(p, text, ins, base + q, a)| >= chain
    ensures NoneLonger(p, text, base, ins, a, max, chain, nice, best)
  {
    hide KeyAt, SameBytes;
    forall b: nat, k: nat | OnOffer(p, text, base, ins, a, max, chain, b, k)
      ensures k <= best
    {
      if b <= base + q {
        Subset(Between(p, text, ins, base + q, a), Between(p, text, ins, b, a));
      }
    }
  }

  lemma Subset(s: set<nat>, t: set<nat>)
    requires s <= t
    ensures |s| <= |t|
  {
    assert t == s + (t - s);
  }

  /** Nothing can be longer than the rest of the text. */
  lemma CutToText(p: HashParams, text: seq<Byte>, base: nat, ins: set<nat>, a: nat, max: nat, chain: nat, nice: nat, best: nat)
    requires a <= |text| && NoneLonger(p, text, base, ins, a, max, chain, nice, best)
    ensures NoneLonger(p, text, base, ins, a, max, chain, nice, if best <= |text| - a then best else |text| - a)
  {
    if best > |text| - a {
      LongEnough(p, text, base, ins, a, max, chain, nice, |text| - a);
    }
  }

  /** With nothing on the chain, or only what is too far back, there is nothing on offer. */
  lemma NothingOnOffer(p: HashParams, text: seq<Byte>, base: nat, ins: set<nat>, a: nat, max: nat, chain: nat, nice: nat, len: nat, q: nat)
    requires a + 2 < |text| ==> Latest(p, text, base, ins, q, KeyAt(p, text, a), a) && (q == 0 || a - (base + q) > max)
    ensures NoneLonger(p, text, base, ins, a, max, chain, nice, len)
  {
    hide KeyAt, SameBytes;
    forall b: nat, k: nat | OnOffer(p, text, base, ins, a, max, chain, b, k)
      ensures false
    {
      Earlier(text, a, b, k);
      SameKey(p, text, a, b, k);
    }
  }

  /** Whether the string at a has been inserted itself does not matter. */
  lemma ItselfApart(p: HashParams, text: seq<Byte>, base: nat, ins: set<nat>, a: nat, max: nat, chain: nat, nice: nat, len: nat)
    requires NoneLonger(p, text, base, ins + {a}, a, max, chain, nice, len)
    ensures NoneLonger(p, text, base, ins, a, max, chain, nice, len)
  {
    hide KeyAt, SameBytes;
    forall b: nat, k: nat | OnOffer(p, text, base, ins, a, max, chain, b, k)
      ensures k <= len || nice <= len
    {
      assert Between(p, text, ins + {a}, b, a) == Between(p, text, ins, b, a);
      assert OnOffer(p, text, base, ins + {a}, a, max, chain, b, k);
    }
  }
}
