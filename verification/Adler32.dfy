/**
 adler32.c: the two sums of RFC 1950, section 8.2, with the remainders put off as long as 32 bits
 allow, the reductions without division, and the combination of the sums of two pieces of data.
 */
module Adler32 {
  import opened Bits

  const BASE: nat := 65521
  const NMAX: nat := 5552
  const MAX_WORD: nat := 0xffffffff

  /* ---------- the sums ---------- */

  /** a and all bytes */
  function Sum1(a: nat, s: seq<Byte>): (t: nat)
    ensures t >= a
  {
    if s == [] then a else Sum1(a, s[..|s| - 1]) + s[|s| - 1]
  }

  /** b and the first sum after each of the bytes */
  function Sum2(a: nat, b: nat, s: seq<Byte>): (t: nat) {
    if s == [] then b else Sum2(a, b, s[..|s| - 1]) + Sum1(a, s)
  }

  /** The checksum of data. */
  function Adler(data: seq<Byte>): (r: nat) {
    Pack(Sum1(1, data) % BASE, Sum2(1, 0, data) % BASE)
  }

  function Pack(a: nat, b: nat): nat {
    a + 0x10000 * b
  }

  function Low(adler: nat): (a: nat)
    ensures a < 0x10000
  {
    adler % 0x10000
  }

  function High(adler: nat): (b: nat)
    ensures b < 0x10000
  {
    adler / 0x10000 % 0x10000
  }

  lemma Unpack(a: nat, b: nat)
    requires a < 0x10000 && b < 0x10000
    ensures Low(Pack(a, b)) == a && High(Pack(a, b)) == b
  {
  }

  /** Both halves are remainders: what adler32 returns, and 1 to begin with. */
  predicate Proper(adler: nat) {
    adler <= MAX_WORD && Low(adler) < BASE && High(adler) < BASE
  }

  lemma ProperPack(a: nat, b: nat)
    requires a < BASE && b < BASE
    ensures Proper(Pack(a, b))
  {
    hide Low, High;
    Unpack(a, b);
  }

  lemma {:induction false} Sum1Is(a: nat, s: seq<Byte>)
    ensures Sum1(a, s) == a + Sum1(0, s)
  {
    if s != [] {
      Sum1Is(a, s[..|s| - 1]);
    }
  }

  lemma {:induction false} Sum2Is(a: nat, b: nat, s: seq<Byte>)
    ensures Sum2(a, b, s) == b + |s| * a + Sum2(0, 0, s)
  {
    if s != [] {
      var n := |s| - 1;
      Sum1Is(a, s);
      Sum2Is(a, b, s[..n]);
      assert |s| * a == n * a + a;
    }
  }

  lemma {:induction false} SumsAppend(a: nat, b: nat, s: seq<Byte>, t: seq<Byte>)
    ensures Sum1(a, s + t) == Sum1(Sum1(a, s), t)
    ensures Sum2(a, b, s + t) == Sum2(Sum1(a, s), Sum2(a, b, s), t)
    decreases |t|
  {
    if t == [] {
      assert s + t == s;
    } else {
      var n := |t| - 1;
      SumsAppend(a, b, s, t[..n]);
      assert (s + t)[..|s + t| - 1] == s + t[..n];
    }
  }

  lemma SumsSnoc(a: nat, b: nat, s: seq<Byte>, x: Byte)
    ensures Sum1(a, s + [x]) == Sum1(a, s) + x && Sum2(a, b, s + [x]) == Sum2(a, b, s) + Sum1(a, s) + x
  {
    assert (s + [x])[..|s|] == s;
  }

  /** Nothing has checksum 1, a zero byte 0x00010001 and "abc" 0x024d0127. */
  lemma Samples()
    ensures Adler([]) == 1 && Adler([0]) == 0x0001_0001 && Adler([97, 98, 99]) == 0x024d_0127
  {
    hide Sum1, Sum2;
    assert [] + [0] == [0] && ([] + [97]) + [98] + [99] == [97, 98, 99];
    SumsSnoc(1, 0, [], 0);
    SumsSnoc(1, 0, [], 97);
    SumsSnoc(1, 0, [] + [97], 98);
    SumsSnoc(1, 0, [] + [97] + [98], 99);
    NoSums(1, 0);
  }

  lemma NoSums(a: nat, b: nat)
    ensures Sum1(a, []) == a && Sum2(a, b, []) == b
  {
  }

  /* ---------- remainders ---------- */

  lemma SameMod(x: nat, y: nat, k: int)
    requires x == y + BASE * k
    ensures x % BASE == y % BASE
  {
    ModUnique(x, BASE, y / BASE + k, y % BASE);
  }

  lemma SameSums(a: nat, b: nat, s: seq<Byte>)
    ensures Sum1(a, s) % BASE == Sum1(a % BASE, s) % BASE
    ensures Sum2(a, b, s) % BASE == Sum2(a % BASE, b % BASE, s) % BASE
  {
    hide Sum1, Sum2;
    Sum1Is(a, s);
    Sum1Is(a % BASE, s);
    Sum2Is(a, b, s);
    Sum2Is(a % BASE, b % BASE, s);
    var q, p, n := a / BASE, b / BASE, |s|;
    assert Sum1(a, s) == Sum1(a % BASE, s) + BASE * q;
    assert n * a == n * (a % BASE) + BASE * (n * q) by {
      assert a == a % BASE + BASE * q;
      Spread(n, a % BASE, BASE, q);
    }
    assert Sum2(a, b, s) == Sum2(a % BASE, b % BASE, s) + BASE * (p + n * q);
    SameMod(Sum1(a, s), Sum1(a % BASE, s), q);
    SameMod(Sum2(a, b, s), Sum2(a % BASE, b % BASE, s), p + n * q);
  }

  lemma Spread(n: nat, r: nat, d: nat, q: nat)
    ensures n * (r + d * q) == n * r + d * (n * q)
  {
  }

  /* ---------- how long the remainders can be put off ---------- */

  /** The most that the second sum can come to after n bytes, from remainders. */
  function Most(n: nat): nat {
    255 * (n * (n + 1) / 2) + (n + 1) * (BASE - 1)
  }

  lemma MostNext(n: nat)
    ensures Most(n + 1) == Most(n) + 255 * (n + 1) + BASE - 1
  {
    assert (n + 1) * (n + 2) == n * (n + 1) + 2 * (n + 1);
  }

  lemma {:induction false} MostGrows(m: nat, n: nat)
    requires m <= n
    ensures Most(m) <= Most(n)
    decreases n - m
  {
    hide Most;
    if m < n {
      MostNext(m);
      MostGrows(m + 1, n);
    }
  }

  /** NMAX is the largest number of bytes with which nothing can overflow. */
  lemma NmaxIsLargest(n: nat)
    ensures Most(n) <= MAX_WORD <==> n <= NMAX
  {
    assert Most(NMAX) <= MAX_WORD < Most(NMAX + 1);
    if n <= NMAX {
      MostGrows(n, NMAX);
    } else {
      MostGrows(NMAX + 1, n);
    }
  }

  lemma {:induction false} SumsBounded(a: nat, b: nat, s: seq<Byte>)
    requires a < BASE && b < BASE
    ensures Sum1(a, s) <= 255 * |s| + BASE - 1 && Sum2(a, b, s) <= Most(|s|)
  {
    hide Most;
    MostNone();
    if s != [] {
      SumsBounded(a, b, s[..|s| - 1]);
      MostNext(|s| - 1);
    }
  }

  lemma MostNone()
    ensures Most(0) == BASE - 1
  {
  }

  /** There are data for which it does overflow one byte later. */
  lemma {:induction false} AllOnes(n: nat)
    ensures |Full(n)| == n && Sum1(BASE - 1, Full(n)) == 255 * n + BASE - 1 && Sum2(BASE - 1, BASE - 1, Full(n)) == Most(n)
  {
    hide Most;
    MostNone();
    if n > 0 {
      AllOnes(n - 1);
      assert Full(n)[..n - 1] == Full(n - 1);
      MostNext(n - 1);
    }
  }

  function Full(n: nat): (s: seq<Byte>) {
    seq(n, _ => 255)
  }

  /* ---------- reductions without division ---------- */

  /** CHOP: 65536 is 15 more than BASE. */
  function Chop(a: nat): nat {
    a % 0x10000 + (a / 0x10000 * 16 - a / 0x10000)
  }

  lemma ChopSame(a: nat)
    ensures Chop(a) % BASE == a % BASE && Chop(a) <= a && Chop(a) <= 0xffff + 15 * (a / 0x10000)
  {
    assert a == Chop(a) + BASE * (a / 0x10000);
    SameMod(a, Chop(a), a / 0x10000);
  }

  /** MOD28 */
  method Mod28(a: nat) returns (r: nat)
    requires a < 0x10000000
    ensures r == a % BASE
  {
    r := Chop(a);
    ChopSame(a);
    if r >= BASE {
      r := r - BASE;
    }
  }

  /** MOD28 is right exactly as long as what CHOP leaves is less than twice BASE. */
  lemma Mod28Iff(a: nat)
    ensures (if Chop(a) >= BASE then Chop(a) - BASE else Chop(a)) == a % BASE <==> Chop(a) < 2 * BASE
  {
    hide Chop;
    ChopSame(a);
  }

  /** MOD */
  method Mod(a: nat) returns (r: nat)
    requires a <= MAX_WORD
    ensures r == a % BASE
  {
    ChopSame(a);
    r := Mod28(Chop(a));
  }

  lemma TwiceChopped(a: nat)
    ensures 225 * (a / 0x1_0000_0000) + a % 0x1_0000_0000 <= a
    ensures (225 * (a / 0x1_0000_0000) + a % 0x1_0000_0000) % BASE == a % BASE
  {
    var t := a / 0x1_0000_0000;
    var x := 225 * t + a % 0x1_0000_0000;
    assert a == x + BASE * (65551 * t);
    SameMod(a, x, 65551 * t);
  }

  /** MOD63 */
  method Mod63(len: nat) returns (r: nat)
    requires len < 0x8000_0000_0000_0000
    ensures r == len % BASE
  {
    var a, tmp := len, len / 0x1_0000_0000;
    TwiceChopped(a);
    a := a % 0x1_0000_0000 + (tmp * 256 - tmp * 32 + tmp);
    assert a < 0x80_0000_0000;
    ChopSame(a);
    a := Chop(a);
    ChopSame(a);
    a := Chop(a);
    r := if a >= BASE then a - BASE else a;
  }

  /* ---------- adler32 ---------- */

  /** DO1, as long as neither sum overflows. */
  method Do1(adler: nat, sum2: nat, x: Byte, ghost a: nat, ghost b: nat, ghost s: seq<Byte>) returns (adler': nat, sum2': nat)
    requires a < BASE && b < BASE && adler == Sum1(a, s) && sum2 == Sum2(a, b, s) && |s| < NMAX
    ensures adler' == Sum1(a, s + [x]) && sum2' == Sum2(a, b, s + [x]) && adler' <= MAX_WORD && sum2' <= MAX_WORD
  {
    hide Sum1, Sum2, Most;
    SumsSnoc(a, b, s, x);
    SumsBounded(a, b, s + [x]);
    NmaxIsLargest(|s| + 1);
    adler' := adler + x;
    sum2' := sum2 + adler';
  }

  /** n bytes from index i on, not more than NMAX since the last remainders. */
  method DoMany(adler: nat, sum2: nat, buf: seq<Byte>, i: nat, n: nat, ghost a: nat, ghost b: nat, ghost j: nat)
    returns (adler': nat, sum2': nat)
    requires a < BASE && b < BASE && j <= i && i + n <= |buf| && i + n - j <= NMAX
    requires adler == Sum1(a, buf[j..i]) && sum2 == Sum2(a, b, buf[j..i])
    ensures adler' == Sum1(a, buf[j..i + n]) && sum2' == Sum2(a, b, buf[j..i + n])
  {
    hide Sum1, Sum2;
    adler', sum2' := adler, sum2;
    var k: nat := 0;
    while k < n
      invariant k <= n && adler' == Sum1(a, buf[j..i + k]) && sum2' == Sum2(a, b, buf[j..i + k])
    {
      assert buf[j..i + k + 1] == buf[j..i + k] + [buf[i + k]];
      adler', sum2' := Do1(adler', sum2', buf[i + k], a, b, buf[j..i + k]);
      k := k + 1;
    }
  }

  /** The halves are the sums over the first i bytes, reduced. */
  ghost predicate Upto(a0: nat, b0: nat, buf: seq<Byte>, i: nat, a: nat, b: nat) {
    i <= |buf| && a == Sum1(a0, buf[..i]) % BASE && b == Sum2(a0, b0, buf[..i]) % BASE
  }

  lemma UptoStart(a: nat, b: nat, buf: seq<Byte>)
    requires a < BASE && b < BASE
    ensures Upto(a, b, buf, 0, a, b)
  {
    assert buf[..0] == [];
  }

  lemma UptoNext(a0: nat, b0: nat, buf: seq<Byte>, j: nat, i: nat, a: nat, b: nat)
    requires Upto(a0, b0, buf, j, a, b) && j <= i <= |buf|
    ensures Upto(a0, b0, buf, i, Sum1(a, buf[j..i]) % BASE, Sum2(a, b, buf[j..i]) % BASE)
  {
    hide Sum1, Sum2;
    assert buf[..i] == buf[..j] + buf[j..i];
    SumsAppend(a0, b0, buf[..j], buf[j..i]);
    SameSums(Sum1(a0, buf[..j]), Sum2(a0, b0, buf[..j]), buf[j..i]);
  }

  /** adler32, in the build without division: any length, one remainder for every NMAX bytes. */
  method Adler32(adler: nat, buf: seq<Byte>) returns (r: nat)
    requires Proper(adler)
    ensures r == Pack(Sum1(Low(adler), buf) % BASE, Sum2(Low(adler), High(adler), buf) % BASE)
  {
    hide Sum1, Sum2, Upto, Most;
    ghost var a0, b0 := Low(adler), High(adler);
    var sum1: nat, sum2: nat, i: nat := Low(adler), High(adler), 0;
    UptoStart(a0, b0, buf);
    if |buf| == 1 {
      sum1, sum2 := OneByte(sum1, sum2, buf);
      return Pack(sum1, sum2);
    }
    if |buf| < 16 {
      sum1, sum2 := FewBytes(sum1, sum2, buf);
      return Pack(sum1, sum2);
    }
    while |buf| - i >= NMAX
      invariant i <= |buf| && Upto(a0, b0, buf, i, sum1, sum2) && sum1 < BASE && sum2 < BASE
      decreases |buf| - i
    {
      sum1, sum2 := Chunk(buf, i, NMAX, sum1, sum2, a0, b0);
      i := i + NMAX;
    }
    if i < |buf| {
      sum1, sum2 := Chunk(buf, i, |buf| - i, sum1, sum2, a0, b0);
    }
    WholeUpto(a0, b0, buf, sum1, sum2, i);
    r := Pack(sum1, sum2);
  }

  lemma WholeUpto(a0: nat, b0: nat, buf: seq<Byte>, a: nat, b: nat, i: nat)
    requires Upto(a0, b0, buf, |buf|, a, b)
    ensures a == Sum1(a0, buf) % BASE && b == Sum2(a0, b0, buf) % BASE
  {
    assert buf[..|buf|] == buf;
  }

  /** n bytes from i on in groups of 16 and then one by one, and the remainders. */
  method Chunk(buf: seq<Byte>, i: nat, n: nat, sum1: nat, sum2: nat, ghost a0: nat, ghost b0: nat) returns (s1: nat, s2: nat)
    requires i + n <= |buf| && n <= NMAX && sum1 < BASE && sum2 < BASE && Upto(a0, b0, buf, i, sum1, sum2)
    ensures Upto(a0, b0, buf, i + n, s1, s2) && s1 < BASE && s2 < BASE
  {
    hide Sum1, Sum2, Upto, Most;
    s1, s2 := sum1, sum2;
    NoneYet(sum1, sum2, buf, i);
    var k: nat := 0;
    while n - k >= 16
      invariant k <= n && s1 == Sum1(sum1, buf[i..i + k]) && s2 == Sum2(sum1, sum2, buf[i..i + k])
      decreases n - k
    {
      s1, s2 := DoMany(s1, s2, buf, i + k, 16, sum1, sum2, i);
      k := k + 16;
    }
    s1, s2 := DoMany(s1, s2, buf, i + k, n - k, sum1, sum2, i);
    SumsBounded(sum1, sum2, buf[i..i + n]);
    NmaxIsLargest(n);
    UptoNext(a0, b0, buf, i, i + n, sum1, sum2);
    s1 := Mod(s1);
    s2 := Mod(s2);
  }

  lemma NoneYet(a: nat, b: nat, buf: seq<Byte>, i: nat)
    requires i <= |buf|
    ensures Sum1(a, buf[i..i]) == a && Sum2(a, b, buf[i..i]) == b
  {
    assert buf[i..i] == [];
  }

  /** In case the caller likes doing a byte at a time. */
  method OneByte(sum1: nat, sum2: nat, buf: seq<Byte>) returns (s1: nat, s2: nat)
    requires |buf| == 1 && sum1 < BASE && sum2 < BASE
    ensures s1 == Sum1(sum1, buf) % BASE && s2 == Sum2(sum1, sum2, buf) % BASE
  {
    assert buf[..0] == [] && Sum1(sum1, []) == sum1;
    assert Sum1(sum1, buf) == sum1 + buf[0];
    assert Sum2(sum1, sum2, buf) == sum2 + (sum1 + buf[0]);
    s1 := sum1 + buf[0];
    if s1 >= BASE {
      s1 := s1 - BASE;
    }
    s2 := sum2 + s1;
    SameMod(sum2 + (sum1 + buf[0]), s2, if sum1 + buf[0] >= BASE then 1 else 0);
    if s2 >= BASE {
      s2 := s2 - BASE;
    }
  }

  /** In case short lengths are provided: the first sum can exceed BASE only once. */
  method FewBytes(sum1: nat, sum2: nat, buf: seq<Byte>) returns (s1: nat, s2: nat)
    requires |buf| < 16 && sum1 < BASE && sum2 < BASE
    ensures s1 == Sum1(sum1, buf) % BASE && s2 == Sum2(sum1, sum2, buf) % BASE
  {
    hide Sum1, Sum2;
    NoneYet(sum1, sum2, buf, 0);
    s1, s2 := DoMany(sum1, sum2, buf, 0, |buf|, sum1, sum2, 0);
    assert buf[0..|buf|] == buf;
    SumsBounded(sum1, sum2, buf);
    MostGrows(|buf|, 15);
    if s1 >= BASE {
      s1 := s1 - BASE;
    }
    s2 := Mod28(s2);
  }

  /** A checksum can be continued: the empty one is 1. */
  lemma AdlerContinues(data: seq<Byte>, more: seq<Byte>)
    ensures Proper(Adler(data)) && Adler([]) == 1
    ensures Adler(data + more) ==
      Pack(Sum1(Low(Adler(data)), more) % BASE, Sum2(Low(Adler(data)), High(Adler(data)), more) % BASE)
  {
    hide Sum1, Sum2;
    var none: seq<Byte> := [];
    NoneYet(1, 0, none, 0);
    assert none[0..0] == none;
    Unpack(Sum1(1, data) % BASE, Sum2(1, 0, data) % BASE);
    SumsAppend(1, 0, data, more);
    SameSums(Sum1(1, data), Sum2(1, 0, data), more);
  }

  /* ---------- adler32_combine_ ---------- */

  /** The sums of both pieces, from their sums and the length of the second one. */
  lemma SumsOfBoth(s: seq<Byte>, t: seq<Byte>)
    ensures Sum1(1, s + t) == Sum1(1, s) + Sum1(1, t) - 1
    ensures Sum2(1, 0, s + t) == Sum2(1, 0, s) + Sum2(1, 0, t) + |t| * Sum1(1, s) - |t|
  {
    hide Sum1, Sum2;
    SumsAppend(1, 0, s, t);
    Sum1Is(Sum1(1, s), t);
    Sum1Is(1, t);
    Sum2Is(Sum1(1, s), Sum2(1, 0, s), t);
    Sum2Is(1, 0, t);
  }

  method Adler32Combine(adler1: nat, adler2: nat, len2: int) returns (r: nat)
    requires Proper(adler1) && Proper(adler2) && len2 < 0x8000_0000_0000_0000
    ensures len2 < 0 ==> r == 0xffffffff
    ensures len2 >= 0 ==>
      r == Pack((Low(adler1) + Low(adler2) + BASE - 1) % BASE,
                (High(adler1) + High(adler2) + len2 % BASE * Low(adler1) + BASE - len2 % BASE) % BASE)
  {
    hide Low, High, Pack;
    if len2 < 0 {
      return 0xffffffff;
    }
    var rem := Mod63(len2);
    var sum1 := Low(adler1);
    Product(rem, sum1);
    var sum2 := Mod(rem * sum1);
    ghost var rest := High(adler1) + High(adler2) + BASE - rem;
    PutOff(rem * sum1, rest);
    sum1 := sum1 + Low(adler2) + BASE - 1;
    sum2 := sum2 + High(adler1) + High(adler2) + BASE - rem;
    TwoSubtractions(sum1);
    DoubleSubtraction(sum2);
    if sum1 >= BASE {
      sum1 := sum1 - BASE;
    }
    if sum1 >= BASE {
      sum1 := sum1 - BASE;
    }
    if sum2 >= 2 * BASE {
      sum2 := sum2 - 2 * BASE;
    }
    if sum2 >= BASE {
      sum2 := sum2 - BASE;
    }
    r := Pack(sum1, sum2);
  }

  lemma PutOff(x: nat, y: nat)
    ensures (x + y) % BASE == (x % BASE + y) % BASE
  {
    SameMod(x + y, x % BASE + y, x / BASE);
  }

  lemma TwoSubtractions(x: nat)
    requires x < 3 * BASE
    ensures var y := if x >= BASE then x - BASE else x; (if y >= BASE then y - BASE else y) == x % BASE
  {
  }

  lemma DoubleSubtraction(x: nat)
    requires x < 4 * BASE
    ensures var y := if x >= 2 * BASE then x - 2 * BASE else x; (if y >= BASE then y - BASE else y) == x % BASE
  {
  }

  lemma Product(x: nat, y: nat)
    requires x < BASE && y < BASE
    ensures x * y <= MAX_WORD
  {
    MulLe(x, y, BASE);
  }

  /** What it returns for the checksums of two pieces of data is the checksum of both. */
  method CombineTwo(s: seq<Byte>, t: seq<Byte>, adler1: nat, adler2: nat) returns (r: nat)
    requires adler1 == Adler(s) && adler2 == Adler(t) && |t| < 0x8000_0000_0000_0000
    ensures r == Adler(s + t)
  {
    hide Sum1, Sum2, Pack, Low, High;
    Unpack(Sum1(1, s) % BASE, Sum2(1, 0, s) % BASE);
    ProperPack(Sum1(1, s) % BASE, Sum2(1, 0, s) % BASE);
    ProperPack(Sum1(1, t) % BASE, Sum2(1, 0, t) % BASE);
    Unpack(Sum1(1, t) % BASE, Sum2(1, 0, t) % BASE);
    r := Adler32Combine(adler1, adler2, |t|);
    SumsOfBoth(s, t);
    FirstSum(Sum1(1, s), Sum1(1, t));
    SecondSum(Sum1(1, s), Sum2(1, 0, s), Sum2(1, 0, t), |t|);
  }

  lemma FirstSum(x: nat, y: nat)
    requires x >= 1
    ensures (x + y - 1) % BASE == (x % BASE + y % BASE + BASE - 1) % BASE
  {
    var z := x % BASE + y % BASE + BASE - 1;
    assert x + y - 1 == z + BASE * (x / BASE + y / BASE - 1);
    SameMod(x + y - 1, z, x / BASE + y / BASE - 1);
  }

  lemma SecondSum(x: nat, p: nat, q: nat, n: nat)
    requires x >= 1
    ensures p + q + n * x - n >= 0
    ensures (p + q + n * x - n) % BASE == (p % BASE + q % BASE + n % BASE * (x % BASE) + BASE - n % BASE) % BASE
  {
    MulAtLeastOne(n, x);
    var u, v := x % BASE, n % BASE;
    var z := p % BASE + q % BASE + v * u + BASE - v;
    Expanded(v, n / BASE, u, x / BASE);
    var k := v * (x / BASE) + u * (n / BASE) + BASE * (n / BASE * (x / BASE));
    assert n * x == v * u + BASE * k;
    assert p + q + n * x - n == z + BASE * (p / BASE + q / BASE + k - 1 - n / BASE);
    SameMod(p + q + n * x - n, z, p / BASE + q / BASE + k - 1 - n / BASE);
  }

  lemma MulAtLeastOne(n: nat, x: nat)
    requires x >= 1
    ensures n * x >= n
  {
    assert n * (x - 1) >= 0;
  }

  lemma Expanded(v: nat, m: nat, u: nat, y: nat)
    ensures (v + BASE * m) * (u + BASE * y) == v * u + BASE * (v * y + u * m + BASE * (m * y))
  {
    assert (v + BASE * m) * (u + BASE * y) == v * u + v * (BASE * y) + (BASE * m) * u + (BASE * m) * (BASE * y);
  }
}
