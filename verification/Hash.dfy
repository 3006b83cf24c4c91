/** The rolling hash of deflate.c: UPDATE_HASH. */
module Hash {
  import opened Bits
  import opened ExclusiveOr

  /** hash_bits and hash_shift, as deflateInit2_ chooses them. */
  datatype HashParams = HashParams(bits: nat, shift: nat)

  /** The oldest byte no longer takes part after MIN_MATCH steps, and the newest one does with all its bits. */
  predicate Usual(p: HashParams) {
    p.bits >= 8 && 3 * p.shift >= p.bits
  }

  function Update(p: HashParams, h: nat, c: Byte): (r: nat)
    ensures r < Pow2(p.bits)
  {
    Xor(h * Pow2(p.shift), c) % Pow2(p.bits)
  }

  /** The key of three bytes. */
  function Key(p: HashParams, a: Byte, b: Byte, c: Byte): (r: nat)
    ensures r < Pow2(p.bits)
  {
    Update(p, Update(p, Update(p, 0, a), b), c)
  }

  lemma ModMod(x: nat, m: nat)
    requires m >= 1
    ensures (x % m) % m == x % m
  {
  }

  lemma ScaledMod(x: nat, k: nat, m: nat)
    requires m >= 1
    ensures ((x % m) * k) % m == (x * k) % m
  {
    var q, r := x / m, x % m;
    assert x == m * q + r;
    var y := (r * k) / m;
    assert x * k == m * (q * k) + r * k by {
      assert (m * q + r) * k == m * q * k + r * k;
    }
    ModUnique(x * k, m, q * k + y, (r * k) % m);
  }

  /** The key without masking in between. */
  lemma UpdateMod(p: HashParams, h: nat, g: nat, c: Byte)
    requires h % Pow2(p.bits) == g % Pow2(p.bits)
    ensures Update(p, h, c) == Update(p, g, c)
  {
    hide Xor, Pow2;
    var m, k := Pow2(p.bits), Pow2(p.shift);
    ScaledMod(h, k, m);
    ScaledMod(g, k, m);
    assert (h * k) % m == (g * k) % m;
    XorMod(h * k, c, p.bits);
    XorMod(g * k, c, p.bits);
  }

  /** Shifting n positions at a time moves h out by 2^n. */
  lemma UpdateSplit(p: HashParams, h: nat, c: Byte)
    ensures Update(p, h, c) % Pow2(p.bits) == Xor(h * Pow2(p.shift), Update(p, 0, c)) % Pow2(p.bits)
  {
    hide Xor;
    var m, x := Pow2(p.bits), h * Pow2(p.shift);
    XorZero(c);
    XorMod(x, c, p.bits);
    XorMod(x, c % m, p.bits);
    ModMod(c, m);
    ModMod(Xor(x, c), m);
  }

  /** What was hashed before three bytes does not matter. */
  lemma Forgets(p: HashParams, h: nat, a: Byte, b: Byte, c: Byte)
    requires Usual(p)
    ensures Update(p, Update(p, Update(p, h, a), b), c) == Key(p, a, b, c)
  {
    hide Xor, Update;
    var m, k := Pow2(p.bits), Pow2(p.shift);
    var a0 := Update(p, 0, a);
    var b0 := Update(p, a0, b);
    UpdateSplit(p, h, a);
    UpdateMod(p, Update(p, h, a), Xor(h * k, a0), b);
    Carry(p, h * k, a0, b);
    UpdateMod(p, Update(p, Xor(h * k, a0), b), Xor(h * k * k, b0), c);
    Carry(p, h * k * k, b0, c);
    Vanishes(p, h);
    XorMod(h * k * k * k, Update(p, b0, c), p.bits);
    XorZero(Update(p, b0, c) % m);
    SmallMod(Update(p, Xor(h * k * k, b0), c), m);
    SmallMod(Update(p, b0, c), m);
  }

  /** An additive part of the key goes through an update by itself. */
  lemma Carry(p: HashParams, x: nat, h: nat, c: Byte)
    ensures Update(p, Xor(x, h), c) % Pow2(p.bits) == Xor(x * Pow2(p.shift), Update(p, h, c)) % Pow2(p.bits)
  {
    hide Xor;
    var m, k := Pow2(p.bits), Pow2(p.shift);
    XorShift(x, h, p.shift);
    XorAssoc(x * k, h * k, c);
    ModMod(Xor(Xor(x, h) * k, c), m);
    XorMod(x * k, Xor(h * k, c), p.bits);
    XorMod(x * k, Xor(h * k, c) % m, p.bits);
    ModMod(Xor(h * k, c), m);
  }

  lemma Vanishes(p: HashParams, h: nat)
    requires Usual(p)
    ensures (h * Pow2(p.shift) * Pow2(p.shift) * Pow2(p.shift)) % Pow2(p.bits) == 0
  {
    hide Pow2;
    var k, e := Pow2(p.shift), 3 * p.shift - p.bits;
    Pow2Add(p.shift, p.shift);
    Pow2Add(2 * p.shift, p.shift);
    Pow2Add(e, p.bits);
    assert h * k * k * k == h * (k * k * k) by {
      assert h * k * k == h * (k * k);
      assert h * (k * k) * k == h * ((k * k) * k);
    }
    assert h * (Pow2(e) * Pow2(p.bits)) == (h * Pow2(e)) * Pow2(p.bits);
    ModUnique(h * k * k * k, Pow2(p.bits), h * Pow2(e), 0);
  }

  /** Equal keys of strings that begin with the same two bytes: the third bytes are equal as well. */
  lemma ThirdByte(p: HashParams, a: Byte, b: Byte, c: Byte, d: Byte)
    requires Usual(p) && Key(p, a, b, c) == Key(p, a, b, d)
    ensures c == d
  {
    hide Xor;
    var m, x := Pow2(p.bits), Update(p, Update(p, 0, a), b) * Pow2(p.shift);
    Pow2Values();
    Pow2Monotone(8, p.bits);
    XorMod(x, c, p.bits);
    XorMod(x, d, p.bits);
    SmallMod(c, m);
    SmallMod(d, m);
    XorCancel(x % m, c, d);
  }
}
