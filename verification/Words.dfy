/** Unsigned machine words as natural numbers, with the bitwise operators the
    sources use.  `And`, `Or` and `Xor` work digit by digit in base two; shifts
    are multiplication and division by a power of two. */
module Words {

  const U64: nat := 0x1_0000_0000_0000_0000
  const U32: nat := 0x1_0000_0000
  const INT_LIMIT: nat := 0x8000_0000

  /** A size cast to a signed 32-bit integer. */
  function IntCast(n: nat): int { (n + INT_LIMIT) % U32 - INT_LIMIT }

  lemma CastExact(n: nat)
    requires n < U64
    ensures IntCast(n) == n <==> n < INT_LIMIT
  {
  }

  function Pow2(k: nat): (p: nat)
    ensures p > 0
  {
    if k == 0 then 1 else 2 * Pow2(k - 1)
  }

  function And(a: nat, b: nat): nat {
    if a == 0 then 0 else 2 * And(a / 2, b / 2) + (if a % 2 == 1 && b % 2 == 1 then 1 else 0)
  }

  function Or(a: nat, b: nat): nat
    decreases a + b
  {
    if a == 0 && b == 0 then 0
    else 2 * Or(a / 2, b / 2) + (if a % 2 == 1 || b % 2 == 1 then 1 else 0)
  }

  function Xor(a: nat, b: nat): nat
    decreases a + b
  {
    if a == 0 && b == 0 then 0 else 2 * Xor(a / 2, b / 2) + (if a % 2 == b % 2 then 0 else 1)
  }

  /** a << k, without the cut at the word's width. */
  function Shl(a: nat, k: nat): nat {
    if k == 0 then a else 2 * Shl(a, k - 1)
  }

  /** a >> k */
  function Shr(a: nat, k: nat): nat {
    if k == 0 then a else Shr(a / 2, k - 1)
  }

  /** The low k bits of a. */
  function Low(a: nat, k: nat): (r: nat)
    ensures r < Pow2(k)
  {
    if k == 0 then 0 else 2 * Low(a / 2, k - 1) + a % 2
  }

  /** The number whose low k bits are those of lo and whose higher bits are hi. */
  function Cat(hi: nat, lo: nat, k: nat): nat {
    if k == 0 then hi else 2 * Cat(hi, lo / 2, k - 1) + lo % 2
  }

  lemma {:induction false} Pow2Add(a: nat, b: nat)
    ensures Pow2(a + b) == Pow2(a) * Pow2(b)
  {
    if a > 0 { Pow2Add(a - 1, b); }
  }

  lemma {:induction false} CatParts(a: nat, k: nat)
    ensures Cat(Shr(a, k), Low(a, k), k) == a
  {
    if k > 0 { CatParts(a / 2, k - 1); }
  }

  lemma {:induction false} CatInverse(hi: nat, lo: nat, k: nat)
    requires lo < Pow2(k)
    ensures Shr(Cat(hi, lo, k), k) == hi && Low(Cat(hi, lo, k), k) == lo
  {
    if k > 0 { CatInverse(hi, lo / 2, k - 1); }
  }

  lemma {:induction false} ShlIsCat(hi: nat, lo: nat, k: nat)
    requires lo < Pow2(k)
    ensures Shl(hi, k) + lo == Cat(hi, lo, k)
  {
    if k > 0 { ShlIsCat(hi, lo / 2, k - 1); }
  }

  lemma {:induction false} CatBound(hi: nat, lo: nat, a: nat, b: nat)
    requires hi < Pow2(a)
    ensures Cat(hi, lo, b) < Pow2(a + b)
  {
    if b > 0 { CatBound(hi, lo / 2, a, b - 1); }
  }

  lemma {:induction false} LowSmall(a: nat, k: nat)
    requires a < Pow2(k)
    ensures Low(a, k) == a
  {
    if k > 0 { LowSmall(a / 2, k - 1); }
  }

  /** The low k bits are the remainder by 2^k, and shifting multiplies. */
  lemma {:induction false} LowMod(a: nat, k: nat)
    ensures Low(a, k) == a % Pow2(k)
  {
    if k > 0 {
      LowMod(a / 2, k - 1);
      ModHalf(a, Pow2(k - 1));
    }
  }

  lemma ModHalf(a: nat, p: nat)
    requires p > 0
    ensures a % (2 * p) == 2 * (a / 2 % p) + a % 2
  {
    var q, r := a / 2 / p, a / 2 % p;
    DivModParts(a / 2, p);
    assert a == 2 * (q * p + r) + a % 2;
    MulDouble(q, p);
    RemainderUnique(a, 2 * p, q, 2 * r + a % 2);
  }

  lemma MulLe(x: nat, y: nat, d: nat)
    requires x <= y
    ensures x * d <= y * d
  {
  }

  lemma DivModParts(a: nat, p: nat)
    requires p > 0
    ensures a == a / p * p + a % p && a / p >= 0
  {
  }

  lemma MulDouble(q: nat, p: nat)
    ensures q * (2 * p) == 2 * (q * p)
  {
  }

  lemma RemainderUnique(a: nat, d: nat, q: nat, r: nat)
    requires r < d && a == q * d + r
    ensures a % d == r
  {
    var q', r' := a / d, a % d;
    DivModParts(a, d);
    if q' < q {
      MulLe(q' + 1, q, d);
    } else if q < q' {
      MulLe(q + 1, q', d);
    }
  }

  lemma {:induction false} ShlMul(a: nat, k: nat)
    ensures Shl(a, k) == a * Pow2(k)
  {
    if k > 0 { ShlMul(a, k - 1); }
  }

  lemma {:induction false} LowEven(n: nat, w: nat)
    requires w > 0
    ensures Low(2 * n, w) == 2 * Low(n, w - 1)
  {
    assert 2 * n / 2 == n;
  }

  /** Masking with 2^k - 1 keeps the low k bits. */
  lemma {:induction false} AndMask(a: nat, k: nat)
    ensures And(a, Pow2(k) - 1) == Low(a, k)
  {
    if k == 0 {
      AndZero(a);
    } else {
      AndMask(a / 2, k - 1);
      AndOnes(a, Pow2(k - 1));
    }
  }

  lemma AndStep(a: nat, b: nat)
    ensures And(a, b) == 2 * And(a / 2, b / 2) + (if a % 2 == 1 && b % 2 == 1 then 1 else 0)
  {
  }

  lemma AndOnes(a: nat, p: nat)
    requires p > 0
    ensures And(a, 2 * p - 1) == 2 * And(a / 2, p - 1) + a % 2
  {
    assert (2 * p - 1) / 2 == p - 1 && (2 * p - 1) % 2 == 1;
  }

  lemma {:induction false} AndComm(a: nat, b: nat)
    ensures And(a, b) == And(b, a)
    decreases a + b
  {
    if a == 0 || b == 0 {
      AndZero(a);
      AndZero(b);
    } else {
      AndComm(a / 2, b / 2);
    }
  }

  lemma {:induction false} AndZero(a: nat)
    ensures And(a, 0) == 0
  {
    if a != 0 { AndZero(a / 2); }
  }

  /** OR of a number with k low zero bits and a number below 2^k puts the two side by side. */
  lemma {:induction false} OrDisjoint(hi: nat, lo: nat, k: nat)
    requires lo < Pow2(k)
    ensures Or(Shl(hi, k), lo) == Cat(hi, lo, k) == Or(lo, Shl(hi, k))
  {
    if k == 0 {
      OrZero(hi);
    } else {
      OrDisjoint(hi, lo / 2, k - 1);
      OrStep(Shl(hi, k), lo);
      OrStep(lo, Shl(hi, k));
    }
  }

  lemma OrStep(a: nat, b: nat)
    ensures Or(a, b) == 2 * Or(a / 2, b / 2) + (if a % 2 == 1 || b % 2 == 1 then 1 else 0)
  {
  }

  lemma {:induction false} OrZero(a: nat)
    ensures Or(a, 0) == a == Or(0, a)
  {
    if a != 0 { OrZero(a / 2); }
  }

  lemma {:induction false} XorZero(a: nat)
    ensures Xor(a, 0) == a == Xor(0, a)
  {
    if a != 0 { XorZero(a / 2); }
  }

  lemma {:induction false} XorSelf(a: nat)
    ensures Xor(a, a) == 0
  {
    if a != 0 { XorSelf(a / 2); }
  }

  lemma {:induction false} XorAssoc(a: nat, b: nat, c: nat)
    ensures Xor(Xor(a, b), c) == Xor(a, Xor(b, c))
    decreases a + b + c
  {
    if a == 0 && b == 0 {
      XorZero(c);
    } else if c == 0 {
      XorZero(Xor(a, b));
      XorZero(b);
    } else {
      XorAssoc(a / 2, b / 2, c / 2);
      XorHalf(a, b);
      XorHalf(b, c);
      XorStep(Xor(a, b), c);
      XorStep(a, Xor(b, c));
    }
  }

  lemma XorStep(a: nat, b: nat)
    ensures Xor(a, b) == 2 * Xor(a / 2, b / 2) + (if a % 2 == b % 2 then 0 else 1)
  {
  }

  lemma {:induction false} XorHalf(a: nat, b: nat)
    ensures Xor(a, b) / 2 == Xor(a / 2, b / 2)
    ensures Xor(a, b) % 2 == (if a % 2 == b % 2 then 0 else 1)
  {
    if a != 0 || b != 0 {
      assert Xor(a, b) == 2 * Xor(a / 2, b / 2) + (if a % 2 == b % 2 then 0 else 1);
    }
  }

  lemma {:induction false} XorCat(a: nat, b: nat, c: nat, d: nat, k: nat)
    requires b < Pow2(k) && d < Pow2(k)
    ensures Xor(b, d) < Pow2(k)
    ensures Xor(Cat(a, b, k), Cat(c, d, k)) == Cat(Xor(a, c), Xor(b, d), k)
  {
    if k > 0 {
      XorCat(a, b / 2, c, d / 2, k - 1);
      CatStep(a, b, k);
      CatStep(c, d, k);
      XorStep(Cat(a, b, k), Cat(c, d, k));
      XorHalf(b, d);
    }
  }

  lemma CatStep(a: nat, b: nat, k: nat)
    requires k > 0
    ensures Cat(a, b, k) / 2 == Cat(a, b / 2, k - 1) && Cat(a, b, k) % 2 == b % 2
  {
  }

  lemma XorBound(b: nat, d: nat, k: nat)
    requires b < Pow2(k) && d < Pow2(k)
    ensures Xor(b, d) < Pow2(k)
  {
    XorCat(0, b, 0, d, k);
  }
}
