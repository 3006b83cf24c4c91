/** Exclusive or on natural numbers, bit by bit, and how it goes together with shifts and masks. */
module ExclusiveOr {
  import opened Bits

  /** a ^ b */
  function Xor(a: nat, b: nat): (c: nat) {
    if a == 0 then b else if b == 0 then a
    else (a % 2 + b % 2) % 2 + 2 * Xor(a / 2, b / 2)
  }

  lemma Halves(r: nat, q: nat)
    requires r < 2
    ensures (r + 2 * q) % 2 == r && (r + 2 * q) / 2 == q
  {
  }

  lemma XorUnfold(a: nat, b: nat)
    requires a != 0 && b != 0
    ensures Xor(a, b) == (a % 2 + b % 2) % 2 + 2 * Xor(a / 2, b / 2)
  {
  }

  lemma XorStep(a: nat, b: nat)
    ensures Xor(a, b) % 2 == (a % 2 + b % 2) % 2 && Xor(a, b) / 2 == Xor(a / 2, b / 2)
  {
    hide Xor;
    if a == 0 || b == 0 {
      XorZero(a);
      XorZero(b);
      XorZero(a / 2);
      XorZero(b / 2);
    } else {
      XorUnfold(a, b);
      Halves((a % 2 + b % 2) % 2, Xor(a / 2, b / 2));
    }
  }

  lemma XorIs(c: nat, d: nat)
    requires c % 2 == d % 2 && c / 2 == d / 2
    ensures c == d
  {
  }

  lemma {:induction false} XorCommutes(a: nat, b: nat)
    ensures Xor(a, b) == Xor(b, a)
  {
    if a != 0 && b != 0 {
      XorCommutes(a / 2, b / 2);
    }
  }

  lemma {:induction false} XorAssoc(a: nat, b: nat, c: nat)
    ensures Xor(Xor(a, b), c) == Xor(a, Xor(b, c))
    decreases a + b + c
  {
    hide Xor;
    if a == 0 || b == 0 || c == 0 {
      XorZero(a);
      XorZero(b);
      XorZero(c);
      XorZero(Xor(a, b));
      XorZero(Xor(b, c));
    } else {
      XorStep(a, b);
      XorStep(b, c);
      XorStep(Xor(a, b), c);
      XorStep(a, Xor(b, c));
      XorAssoc(a / 2, b / 2, c / 2);
      XorIs(Xor(Xor(a, b), c), Xor(a, Xor(b, c)));
    }
  }

  lemma XorZero(a: nat)
    ensures Xor(a, 0) == a && Xor(0, a) == a
  {
  }

  lemma {:induction false} XorSelf(a: nat)
    ensures Xor(a, a) == 0
  {
    if a != 0 {
      XorSelf(a / 2);
    }
  }

  lemma {:induction false} XorBound(a: nat, b: nat, n: nat)
    requires a < Pow2(n) && b < Pow2(n)
    ensures Xor(a, b) < Pow2(n)
  {
    if n > 0 {
      XorBound(a / 2, b / 2, n - 1);
      XorStep(a, b);
    }
  }

  /** The low n bits of v. */
  function Low(v: nat, n: nat): (r: nat) {
    if n == 0 then 0 else v % 2 + 2 * Low(v / 2, n - 1)
  }

  lemma {:induction false} LowIsMod(v: nat, n: nat)
    ensures Low(v, n) == v % Pow2(n)
  {
    if n > 0 {
      LowIsMod(v / 2, n - 1);
      ModTwice(v, Pow2(n - 1));
    }
  }

  lemma LowStep(v: nat, n: nat)
    requires n > 0
    ensures Low(v, n) % 2 == v % 2 && Low(v, n) / 2 == Low(v / 2, n - 1)
  {
    Halves(v % 2, Low(v / 2, n - 1));
  }

  lemma {:induction false} XorLow(a: nat, b: nat, n: nat)
    ensures Low(Xor(a, b), n) == Xor(Low(a, n), Low(b, n))
  {
    hide Xor;
    if n == 0 {
      XorZero(0);
    } else {
      XorStep(a, b);
      LowStep(a, n);
      LowStep(b, n);
      LowStep(Xor(a, b), n);
      XorStep(Low(a, n), Low(b, n));
      XorLow(a / 2, b / 2, n - 1);
      XorIs(Low(Xor(a, b), n), Xor(Low(a, n), Low(b, n)));
    }
  }

  /** Masking: only the low bits matter for the low bits. */
  lemma XorMod(a: nat, b: nat, n: nat)
    ensures Xor(a, b) % Pow2(n) == Xor(a % Pow2(n), b % Pow2(n))
  {
    hide Xor, Low, Pow2;
    LowIsMod(a, n);
    LowIsMod(b, n);
    LowIsMod(Xor(a, b), n);
    XorLow(a, b, n);
  }

  lemma {:induction false} XorShr(a: nat, b: nat, n: nat)
    ensures Shr(Xor(a, b), n) == Xor(Shr(a, n), Shr(b, n))
  {
    hide Xor;
    if n > 0 {
      XorStep(a, b);
      XorShr(a / 2, b / 2, n - 1);
    }
  }

  lemma {:induction false} XorShift(a: nat, b: nat, n: nat)
    ensures Xor(a * Pow2(n), b * Pow2(n)) == Xor(a, b) * Pow2(n)
  {
    hide Xor;
    if n > 0 {
      var x, y := a * Pow2(n - 1), b * Pow2(n - 1);
      XorShift(a, b, n - 1);
      TimesTwice(a, Pow2(n - 1));
      TimesTwice(b, Pow2(n - 1));
      TimesTwice(Xor(a, b), Pow2(n - 1));
      XorStep(2 * x, 2 * y);
    }
  }

  lemma TimesTwice(a: nat, p: nat)
    ensures a * (2 * p) == 2 * (a * p)
  {
  }

  /** What is on one side cancels. */
  lemma XorCancel(x: nat, a: nat, b: nat)
    requires Xor(x, a) == Xor(x, b)
    ensures a == b
  {
    XorAssoc(x, x, a);
    XorAssoc(x, x, b);
    XorSelf(x);
  }

  lemma {:induction false} XorDisjoint(a: nat, b: nat, n: nat)
    requires b < Pow2(n)
    ensures Xor(a * Pow2(n), b) == a * Pow2(n) + b
  {
    hide Xor;
    if n == 0 {
      XorZero(a);
    } else {
      var x := a * Pow2(n - 1);
      TimesTwice(a, Pow2(n - 1));
      XorStep(2 * x, b);
      XorDisjoint(a, b / 2, n - 1);
    }
  }
}
