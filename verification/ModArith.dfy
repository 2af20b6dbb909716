/** Modular arithmetic shared by the STARK, FROST and VDF models: powers, congruence,
    primes, Euclid's lemma, Fermat's little theorem and inverses by exponentiation. */
module ModArith {

  // ---------- powers and polynomials ----------

  /** The value at x of the polynomial with these coefficients, lowest first. */
  function Poly(c: seq<int>, x: int): int {
    if c == [] then 0 else c[0] + x * Poly(c[1..], x)
  }

  function Pow(b: int, e: nat): int {
    if e == 0 then 1 else b * Pow(b, e - 1)
  }

  /** Powers of two. */
  function Pow2(k: nat): (r: nat)
    ensures r >= 1
  {
    if k == 0 then 1 else 2 * Pow2(k - 1)
  }

  /** Python's three-argument pow for a positive modulus and a non-negative exponent. */
  function PowMod(b: int, e: nat, n: int): int
    requires n > 0
  {
    Pow(b, e) % n
  }

  lemma {:induction false} PowAdd(b: int, x: nat, y: nat)
    ensures Pow(b, x + y) == Pow(b, x) * Pow(b, y)
  {
    if x > 0 {
      PowAdd(b, x - 1, y);
      MulAssoc(b, Pow(b, x - 1), Pow(b, y));
      assert x + y - 1 == x - 1 + y;
    }
  }

  lemma {:induction false} PowMul(b: int, x: nat, y: nat)
    ensures x * y >= 0 && Pow(b, x * y) == Pow(Pow(b, x), y)
  {
    if y > 0 {
      PowMul(b, x, y - 1);
      assert x * y == x + x * (y - 1);
      PowAdd(b, x, x * (y - 1));
    }
  }

  lemma {:induction false} PowOne(e: nat)
    ensures Pow(1, e) == 1
  {
    if e > 0 { PowOne(e - 1); }
  }

  lemma {:induction false} PowPositive(b: int, e: nat)
    requires b > 0
    ensures Pow(b, e) > 0
  {
    if e > 0 { PowPositive(b, e - 1); }
  }

  lemma {:induction false} PowDistributes(a: int, b: int, e: nat)
    ensures Pow(a * b, e) == Pow(a, e) * Pow(b, e)
  {
    if e > 0 {
      PowDistributes(a, b, e - 1);
      var u, v := Pow(a, e - 1), Pow(b, e - 1);
      assert (a * b) * (u * v) == (a * u) * (b * v) by { MulShuffle(a, b, u, v); }
    }
  }

  /** An odd power of a negation is the negation of the power. */
  lemma {:induction false} PowNegOdd(b: int, e: nat)
    requires e % 2 == 1
    ensures Pow(-b, e) == -Pow(b, e)
    decreases e
  {
    if e > 1 {
      PowNegOdd(b, e - 2);
      var u := Pow(b, e - 2);
      assert Pow(b, e) == b * (b * u);
      assert Pow(-b, e) == (-b) * ((-b) * (-u));
      assert (-b) * ((-b) * (-u)) == -(b * (b * u));
    }
  }

  lemma MulAssoc(a: int, b: int, c: int)
    ensures a * (b * c) == (a * b) * c
  {}

  lemma MulShuffle(a: int, b: int, u: int, v: int)
    ensures (a * b) * (u * v) == (a * u) * (b * v)
  {
    assert (a * b) * (u * v) == a * (b * (u * v));
    assert b * (u * v) == u * (b * v);
  }

  // ---------- congruence ----------

  /** Two integers leave the same remainder modulo n. */
  predicate Cong(a: int, b: int, n: int)
    requires n > 0
  {
    a % n == b % n
  }

  /** Quotient and remainder are unique. */
  lemma ModUnique(a: int, q: int, r: int, n: int)
    requires n > 0 && 0 <= r < n && a == q * n + r
    ensures a % n == r && a / n == q
  {
    var k := a / n - q;
    assert a == (a / n) * n + a % n;
    assert k * n == r - a % n by { assert (a / n) * n - q * n == k * n; }
    MulSmallIsZero(k, n);
  }

  lemma MulSmallIsZero(k: int, n: int)
    requires n > 0 && -n < k * n < n
    ensures k == 0
  {}

  lemma CongIntro(a: int, b: int, k: int, n: int)
    requires n > 0 && a == b + k * n
    ensures Cong(a, b, n)
  {
    assert b == (b / n) * n + b % n;
    assert a == (b / n + k) * n + b % n;
    ModUnique(a, b / n + k, b % n, n);
  }

  lemma CongElim(a: int, b: int, n: int) returns (k: int)
    requires n > 0 && Cong(a, b, n)
    ensures a == b + k * n
  {
    k := a / n - b / n;
    assert a == (a / n) * n + a % n && b == (b / n) * n + b % n;
    assert k * n == (a / n) * n - (b / n) * n;
  }

  lemma CongMod(a: int, n: int)
    requires n > 0
    ensures Cong(a % n, a, n) && 0 <= a % n < n
  {
    ModUnique(a % n, 0, a % n, n);
  }

  lemma ModSmall(a: int, n: int)
    requires 0 <= a < n
    ensures a % n == a
  {
    ModUnique(a, 0, a, n);
  }

  lemma CongTrans(a: int, b: int, c: int, n: int)
    requires n > 0 && Cong(a, b, n) && Cong(b, c, n)
    ensures Cong(a, c, n)
  {}

  lemma CongSym(a: int, b: int, n: int)
    requires n > 0 && Cong(a, b, n)
    ensures Cong(b, a, n)
  {}

  lemma CongReflexive(a: int, n: int)
    requires n > 0
    ensures Cong(a, a, n)
  {}

  /** From a through b and c to d, the first link read backwards. */
  lemma CongChain(a: int, b: int, c: int, d: int, n: int)
    requires n > 0 && Cong(b, a, n) && Cong(b, c, n) && Cong(c, d, n)
    ensures Cong(a, d, n)
  {}

  lemma CongAdd(a: int, b: int, c: int, d: int, n: int)
    requires n > 0 && Cong(a, b, n) && Cong(c, d, n)
    ensures Cong(a + c, b + d, n)
  {
    var k := CongElim(a, b, n);
    var l := CongElim(c, d, n);
    assert k * n + l * n == (k + l) * n;
    CongIntro(a + c, b + d, k + l, n);
  }

  lemma CongSub(a: int, b: int, c: int, d: int, n: int)
    requires n > 0 && Cong(a, b, n) && Cong(c, d, n)
    ensures Cong(a - c, b - d, n)
  {
    var k := CongElim(a, b, n);
    var l := CongElim(c, d, n);
    assert k * n - l * n == (k - l) * n;
    CongIntro(a - c, b - d, k - l, n);
  }

  lemma CongMul(a: int, b: int, c: int, d: int, n: int)
    requires n > 0 && Cong(a, b, n) && Cong(c, d, n)
    ensures Cong(a * c, b * d, n)
  {
    var k := CongElim(a, b, n);
    var l := CongElim(c, d, n);
    calc {
      a * c;
      (b + k * n) * (d + l * n);
      b * d + b * (l * n) + (k * n) * (d + l * n);
      { assert b * (l * n) == (b * l) * n; assert (k * n) * (d + l * n) == (k * (d + l * n)) * n; }
      b * d + (b * l) * n + (k * (d + l * n)) * n;
      b * d + (b * l + k * (d + l * n)) * n;
    }
    CongIntro(a * c, b * d, b * l + k * (d + l * n), n);
  }

  lemma {:induction false} CongPow(a: int, b: int, e: nat, n: int)
    requires n > 0 && Cong(a, b, n)
    ensures Cong(Pow(a, e), Pow(b, e), n)
  {
    if e > 0 {
      CongPow(a, b, e - 1, n);
      CongMul(a, b, Pow(a, e - 1), Pow(b, e - 1), n);
    }
  }

  /** Congruent reduced residues are equal. */
  lemma CongReduced(a: int, b: int, n: int)
    requires n > 0 && 0 <= a < n && 0 <= b < n && Cong(a, b, n)
    ensures a == b
  {
    ModSmall(a, n);
    ModSmall(b, n);
  }

  lemma CongZeroIff(a: int, b: int, n: int)
    requires n > 0
    ensures Cong(a, b, n) <==> (a - b) % n == 0
  {
    if Cong(a, b, n) {
      var k := CongElim(a, b, n);
      ModUnique(a - b, k, 0, n);
    }
    if (a - b) % n == 0 {
      CongIntro(a, b, (a - b) / n, n);
    }
  }

  // ---------- primes ----------

  ghost predicate Prime(p: int) {
    2 <= p && forall m :: 2 <= m < p ==> p % m != 0
  }

  lemma PrimeBound(p: int)
    requires Prime(p)
    ensures p >= 2
  {}

  /** Euclid's lemma, by descent on the first factor. */
  lemma {:induction false} EuclidDescent(p: int, a: int, b: int)
    requires Prime(p) && 0 < a < p && (a * b) % p == 0
    ensures b % p == 0
    decreases a
  {
    if a > 1 {
      var q, r := p / a, p % a;
      assert p == q * a + r && 0 < r < a;
      var k := (a * b) / p;
      assert a * b == k * p;
      calc {
        r * b;
        (p - q * a) * b;
        p * b - q * (a * b);
        p * b - q * (k * p);
        (b - q * k) * p;
      }
      ModUnique(r * b, b - q * k, 0, p);
      EuclidDescent(p, r, b);
    }
  }

  lemma Euclid(p: int, a: int, b: int)
    requires Prime(p) && (a * b) % p == 0
    ensures a % p == 0 || b % p == 0
  {
    if a % p != 0 {
      CongMod(a, p);
      CongMul(a % p, a, b, b, p);
      EuclidDescent(p, a % p, b);
    }
  }

  /** A factor that a prime does not divide can be cancelled. */
  lemma CongCancel(d: int, u: int, v: int, p: int)
    requires Prime(p) && d % p != 0 && Cong(d * u, d * v, p)
    ensures Cong(u, v, p)
  {
    CongZeroIff(d * u, d * v, p);
    assert d * u - d * v == d * (u - v);
    Euclid(p, d, u - v);
    CongZeroIff(u, v, p);
  }

  lemma {:induction false} PowNonzero(b: int, e: nat, p: int)
    requires Prime(p) && b % p != 0
    ensures Pow(b, e) % p != 0
  {
    if e == 0 {
      ModSmall(1, p);
    } else {
      PowNonzero(b, e - 1, p);
      if Pow(b, e) % p == 0 { Euclid(p, b, Pow(b, e - 1)); }
    }
  }

  // ---------- Fermat's little theorem ----------

  function Choose(n: nat, k: nat): nat {
    if k == 0 then 1 else if n == 0 then 0 else Choose(n - 1, k - 1) + Choose(n - 1, k)
  }

  lemma {:induction false} ChooseBeyond(n: nat, k: nat)
    requires k > n
    ensures Choose(n, k) == 0
  {
    if n > 0 { ChooseBeyond(n - 1, k - 1); ChooseBeyond(n - 1, k); }
  }

  lemma {:induction false} ChooseSelf(n: nat)
    ensures Choose(n, n) == 1
  {
    if n > 0 { ChooseSelf(n - 1); ChooseBeyond(n - 1, n); }
  }

  lemma {:induction false} ChooseAbsorb(n: nat, k: nat)
    requires n > 0 && k > 0
    ensures k * Choose(n, k) == n * Choose(n - 1, k - 1)
  {
    if n == 1 {
      if k > 1 { ChooseBeyond(1, k); ChooseBeyond(0, k - 1); }
    } else {
      ChooseAbsorb(n - 1, k);
      if k > 1 {
        ChooseAbsorb(n - 1, k - 1);
        AbsorbStep(n, k, Choose(n - 1, k - 1), Choose(n - 1, k), Choose(n - 2, k - 2), Choose(n - 2, k - 1));
      }
    }
  }

  lemma AbsorbStep(n: int, k: int, a: int, b: int, c: int, d: int)
    requires a == c + d && k * b == (n - 1) * d && (k - 1) * a == (n - 1) * c
    ensures k * (a + b) == n * a
  {
    calc {
      k * (a + b);
      (k - 1) * a + a + k * b;
      (n - 1) * c + a + (n - 1) * d;
      (n - 1) * (c + d) + a;
      n * a;
    }
  }

  lemma PrimeDividesChoose(p: int, k: nat)
    requires Prime(p) && 0 < k < p
    ensures Choose(p, k) % p == 0
  {
    ChooseAbsorb(p, k);
    ModUnique(k * Choose(p, k), Choose(p - 1, k - 1), 0, p);
    EuclidDescent(p, k, Choose(p, k));
  }

  /** The first m + 1 terms of the binomial expansion of (a + 1)^n. */
  function BinomialSum(n: nat, m: nat, a: int): int {
    Choose(n, m) * Pow(a, m) + if m == 0 then 0 else BinomialSum(n, m - 1, a)
  }

  lemma {:induction false} BinomialSumPascal(n: nat, m: nat, a: int)
    ensures BinomialSum(n + 1, m, a)
         == BinomialSum(n, m, a) + if m == 0 then 0 else a * BinomialSum(n, m - 1, a)
  {
    if m > 0 {
      BinomialSumPascal(n, m - 1, a);
      var rest := if m == 1 then 0 else BinomialSum(n, m - 2, a);
      PascalStep(a, Choose(n, m - 1), Choose(n, m), Pow(a, m - 1), rest);
    }
  }

  lemma PascalStep(a: int, c: int, d: int, w: int, t: int)
    ensures (c + d) * (a * w) + a * t == d * (a * w) + a * (c * w + t)
  {
    assert c * (a * w) == a * (c * w);
    assert (c + d) * (a * w) == c * (a * w) + d * (a * w);
    assert a * (c * w + t) == a * (c * w) + a * t;
  }

  lemma EmptyProduct(a: int)
    ensures Pow(a + 1, 0) == BinomialSum(0, 0, a)
  {}

  lemma TopTermVanishes(n: nat, a: int)
    requires n > 0
    ensures BinomialSum(n - 1, n, a) == BinomialSum(n - 1, n - 1, a)
  {
    ChooseBeyond(n - 1, n);
  }

  lemma PowStep(a: int, e: nat)
    requires e > 0
    ensures Pow(a, e) == a * Pow(a, e - 1)
  {}

  lemma {:induction false} BinomialTheorem(n: nat, a: int)
    ensures Pow(a + 1, n) == BinomialSum(n, n, a)
  {
    hide *;
    if n > 0 {
      BinomialTheorem(n - 1, a);
      BinomialSumPascal(n - 1, n, a);
      TopTermVanishes(n, a);
      PowStep(a + 1, n);
    } else {
      EmptyProduct(a);
    }
  }

  lemma {:induction false} BinomialSumModPrime(p: int, m: nat, a: int)
    requires Prime(p) && m < p
    ensures Cong(BinomialSum(p, m, a), 1, p)
  {
    hide Prime, Choose, Cong, Pow;
    if m > 0 {
      BinomialSumModPrime(p, m - 1, a);
      PrimeDividesChoose(p, m);
      TermVanishes(Choose(p, m), Pow(a, m), BinomialSum(p, m - 1, a), p);
      CongTrans(BinomialSum(p, m, a), BinomialSum(p, m - 1, a), 1, p);
    } else {
      FirstTerm(p, a);
    }
  }

  lemma FirstTerm(p: nat, a: int)
    requires p > 0
    ensures Cong(BinomialSum(p, 0, a), 1, p)
  {}

  lemma TermVanishes(c: int, w: int, rest: int, p: int)
    requires p > 0 && c % p == 0
    ensures Cong(c * w + rest, rest, p)
  {
    var k := c / p;
    assert c * w == (k * p) * w == (k * w) * p;
    CongIntro(c * w + rest, rest, k * w, p);
  }

  lemma {:induction false} FermatNat(p: int, a: nat)
    requires Prime(p)
    ensures Cong(Pow(a, p), a, p)
  {
    if a > 0 {
      FermatNat(p, a - 1);
      BinomialTheorem(p, a - 1);
      BinomialSumModPrime(p, p - 1, a - 1);
      ChooseSelf(p);
      CongAdd(Pow(a - 1, p), a - 1, BinomialSum(p, p - 1, a - 1), 1, p);
    }
  }

  /** Fermat's little theorem: a prime p and a base it does not divide give a^(p-1) = 1 mod p. */
  lemma Fermat(p: int, a: int)
    requires Prime(p) && a % p != 0
    ensures Cong(Pow(a, p - 1), 1, p)
  {
    hide *;
    PrimeBound(p);
    var r := a % p;
    CongMod(a, p);
    FermatNat(p, r);
    CongPow(r, a, p, p);
    PowStep(a, p);
    CongChain(Pow(a, p), Pow(r, p), r, a, p);
    CongCancel(a, Pow(a, p - 1), 1, p);
  }

  /** Exponentiation by p - 2 inverts modulo a prime. */
  lemma InverseByPower(a: int, p: int)
    requires Prime(p) && a % p != 0
    ensures Cong(a * PowMod(a, p - 2, p), 1, p)
  {
    Fermat(p, a);
    CongMod(Pow(a, p - 2), p);
    CongMul(a, a, PowMod(a, p - 2, p), Pow(a, p - 2), p);
  }
}
