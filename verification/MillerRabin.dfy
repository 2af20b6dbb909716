/** The Miller-Rabin test with trial division and fixed witnesses. */
module MillerRabin {
  import opened Collections
  import opened ModArith

  const SMALL_PRIMES: seq<int> := [2, 3, 5, 7, 11, 13, 17, 19, 23, 29, 31, 37]

  /** The slice small_primes[:rounds], negative counts included. */
  function Witnesses(rounds: int): (w: seq<int>)
    ensures |w| <= 12
  {
    if rounds >= 12 then SMALL_PRIMES
    else if rounds >= 0 then SMALL_PRIMES[..rounds]
    else if rounds > -12 then SMALL_PRIMES[..12 + rounds]
    else []
  }

  /** n - 1 = d * 2^s with d odd. */
  function OddPart(m: nat): (d: nat)
    requires m >= 1
    ensures d >= 1 && d % 2 == 1
  {
    if m % 2 == 0 then OddPart(m / 2) else m
  }

  function TwoExponent(m: nat): nat
    requires m >= 1
  {
    if m % 2 == 0 then TwoExponent(m / 2) + 1 else 0
  }

  lemma {:induction false} Decomposition(m: nat)
    requires m >= 1
    ensures OddPart(m) * Pow2(TwoExponent(m)) == m
  {
    if m % 2 == 0 {
      Decomposition(m / 2);
      DoubleProduct(OddPart(m / 2), Pow2(TwoExponent(m / 2)), m);
    }
  }

  lemma DoubleProduct(d: nat, t: nat, m: nat)
    requires m % 2 == 0 && d * t == m / 2
    ensures d * (2 * t) == m
  {}

  /** n passes the test to base a: a^d = 1, or a^(d 2^r) = -1 for some r < s. */
  ghost predicate StrongProbablePrime(n: int, a: int, d: nat, s: nat)
    requires n >= 2
  {
    Pow(a, d) % n == 1 || exists r :: HitsMinusOne(n, a, d, s, r)
  }

  ghost predicate HitsMinusOne(n: int, a: int, d: nat, s: nat, r: int)
    requires n >= 2
  {
    0 <= r < s && Pow(a, d * Pow2(r)) % n == n - 1
  }

  /** What the whole test accepts. */
  ghost predicate ProbablyPrime(n: int, rounds: int) {
    n >= 2
    && (n in SMALL_PRIMES
        || ((forall p :: p in SMALL_PRIMES ==> n % p != 0)
            && forall a :: a in Witnesses(rounds) ==>
                 a >= n || StrongProbablePrime(n, a, OddPart(n - 1), TwoExponent(n - 1))))
  }

  // ---------- the loops of the source ----------

  method Decompose(m: nat) returns (d: nat, s: nat)
    requires m >= 1
    ensures d == OddPart(m) && s == TwoExponent(m)
  {
    d, s := m, 0;
    while d % 2 == 0
      invariant d >= 1 && OddPart(d) == OddPart(m) && TwoExponent(d) + s == TwoExponent(m)
      decreases d
    {
      d := d / 2;
      s := s + 1;
    }
  }

  lemma SquareOfPower(n: int, a: int, e: nat, x: int)
    requires n >= 2 && x == Pow(a, e) % n
    ensures (x * x) % n == Pow(a, 2 * e) % n
  {
    CongMod(Pow(a, e), n);
    CongMul(x, Pow(a, e), x, Pow(a, e), n);
    PowAdd(a, e, e);
  }

  method Round(n: int, a: int, d: nat, s: nat) returns (ok: bool)
    requires n >= 3 && s >= 1
    ensures ok <==> StrongProbablePrime(n, a, d, s)
  {
    var x := Pow(a, d) % n;
    assert d * Pow2(0) == d;
    if x == 1 { return true; }
    if x == n - 1 {
      assert HitsMinusOne(n, a, d, s, 0);
      return true;
    }
    var i := 0;
    while i < s - 1
      invariant 0 <= i <= s - 1
      invariant x == Pow(a, d * Pow2(i)) % n
      invariant forall r :: 0 <= r <= i ==> !HitsMinusOne(n, a, d, s, r)
    {
      SquareOfPower(n, a, d * Pow2(i), x);
      DoubleExponent(d, i);
      x := (x * x) % n;
      i := i + 1;
      if x == n - 1 {
        assert HitsMinusOne(n, a, d, s, i);
        return true;
      }
    }
    return false;
  }

  lemma DoubleExponent(d: nat, i: nat)
    ensures 2 * (d * Pow2(i)) == d * Pow2(i + 1)
  {}

  /** None of the small primes is a multiple of another. */
  lemma SmallPrimesIndependent(i: nat, j: nat)
    requires i < j < 12
    ensures SMALL_PRIMES[j] % SMALL_PRIMES[i] != 0
  {}

  /** Trial division: the verdict it reaches, or no verdict for a survivor. */
  method TrialDivision(n: int) returns (decided: bool, verdict: bool)
    requires n >= 2
    ensures decided && verdict <==> n in SMALL_PRIMES
    ensures !decided ==> forall p :: p in SMALL_PRIMES ==> n % p != 0
    ensures decided && !verdict ==> exists p :: p in SMALL_PRIMES && n % p == 0
  {
    var i := 0;
    while i < |SMALL_PRIMES|
      invariant 0 <= i <= |SMALL_PRIMES|
      invariant forall k :: 0 <= k < i ==> n != SMALL_PRIMES[k] && n % SMALL_PRIMES[k] != 0
    {
      if n == SMALL_PRIMES[i] { return true, true; }
      if n % SMALL_PRIMES[i] == 0 {
        assert SMALL_PRIMES[i] in SMALL_PRIMES;
        LaterPrimesSurvive(n, i);
        return true, false;
      }
      i := i + 1;
    }
    return false, false;
  }

  lemma LaterPrimesSurvive(n: int, i: nat)
    requires n >= 2 && i < 12 && n % SMALL_PRIMES[i] == 0
    requires forall k :: 0 <= k <= i ==> n != SMALL_PRIMES[k]
    ensures n !in SMALL_PRIMES
  {
    if n in SMALL_PRIMES {
      var j :| 0 <= j < 12 && SMALL_PRIMES[j] == n;
      SmallPrimesIndependent(i, j);
    }
  }

  method IsProbablePrime(n: int, rounds: int) returns (b: bool)
    ensures b <==> ProbablyPrime(n, rounds)
  {
    if n < 2 { return false; }
    var decided, verdict := TrialDivision(n);
    if decided { return verdict; }
    assert n % SMALL_PRIMES[0] != 0 by { assert SMALL_PRIMES[0] in SMALL_PRIMES; }
    var d, s := Decompose(n - 1);
    var witnesses := Witnesses(rounds);
    var k := 0;
    while k < |witnesses|
      invariant 0 <= k <= |witnesses|
      invariant forall m :: 0 <= m < k ==> witnesses[m] >= n || StrongProbablePrime(n, witnesses[m], d, s)
    {
      if witnesses[k] < n {
        var ok := Round(n, witnesses[k], d, s);
        if !ok {
          assert witnesses[k] in Witnesses(rounds);
          return false;
        }
      }
      k := k + 1;
    }
    return true;
  }

  // ---------- what passing a round means ----------

  /** n - 1 halved k times leaves e, without a remainder. */
  predicate Halving(e: nat, k: nat, n: int) {
    e * Pow2(k) == n - 1
  }

  /** The square root a^e of a^(2e) is 1 or -1 when a^(2e) is 1. */
  predicate TrivialRoot(n: int, a: int, e: nat)
    requires n >= 2
  {
    Pow(a, 2 * e) % n == 1 ==> Pow(a, e) % n == 1 || Pow(a, e) % n == n - 1
  }

  /** Fermat's condition to base a, and on the way from the odd part of n - 1 up to n - 1 no step from a
      value other than 1 or -1 to 1. */
  ghost predicate LooksPrime(n: int, a: int)
    requires n >= 2
  {
    Pow(a, n - 1) % n == 1 && forall e: nat, k: nat :: k >= 1 && Halving(e, k, n) ==> TrivialRoot(n, a, e)
  }

  /** Every halving of m is a doubling of its odd part. */
  lemma {:induction false} HalvingIsDoubling(e: nat, k: nat, m: nat)
    requires m >= 1 && e * Pow2(k) == m
    ensures k <= TwoExponent(m) && e == OddPart(m) * Pow2(TwoExponent(m) - k)
    decreases k
  {
    if k == 0 {
      Decomposition(m);
    } else {
      HalfHalving(e, Pow2(k - 1), m);
      HalvingIsDoubling(e, k - 1, m / 2);
    }
  }

  lemma HalfHalving(e: nat, t: nat, m: nat)
    requires e * (2 * t) == m
    ensures m % 2 == 0 && e * t == m / 2
  {
    TwiceProduct(e, t);
    HalfOf(e * t, m);
  }

  lemma TwiceProduct(e: int, t: int)
    ensures e * (2 * t) == 2 * (e * t)
  {}

  lemma HalfOf(u: int, m: int)
    requires 2 * u == m
    ensures m % 2 == 0 && u == m / 2
  {}

  lemma DoublingIsHalving(m: nat, r: nat)
    requires m >= 1 && r <= TwoExponent(m)
    ensures OddPart(m) * Pow2(r) * Pow2(TwoExponent(m) - r) == m
  {
    Decomposition(m);
    SplitPower(OddPart(m), r, TwoExponent(m) - r);
  }

  lemma {:induction false} SplitPower(d: nat, r: nat, k: nat)
    ensures (d * Pow2(r)) * Pow2(k) == d * Pow2(r + k)
    decreases k
  {
    if k > 0 {
      SplitPower(d, r, k - 1);
      DoubleExponent(d, r + k - 1);
      MulAssoc(d * Pow2(r), 2, Pow2(k - 1));
      assert (d * Pow2(r)) * Pow2(k) == 2 * ((d * Pow2(r)) * Pow2(k - 1));
    }
  }

  /** Squaring 1 or -1 gives 1. */
  lemma UnitSquared(n: int, a: int, e: nat)
    requires n >= 2 && (Pow(a, e) % n == 1 || Pow(a, e) % n == n - 1)
    ensures Pow(a, 2 * e) % n == 1
  {
    var x := Pow(a, e) % n;
    SquareOfPower(n, a, e, x);
    if x == n - 1 { MinusOneSquared(n); } else { ModSmall(1, n); }
  }

  lemma MinusOneSquared(n: int)
    requires n >= 2
    ensures ((n - 1) * (n - 1)) % n == 1
  {
    ModUnique((n - 1) * (n - 1), n - 2, 1, n);
  }

  /** From the step that is 1 or -1 on, every later one is 1. */
  lemma {:induction false} StaysOne(n: int, a: int, d: nat, r: nat, k: nat)
    requires n >= 2 && r <= k
    requires Pow(a, d * Pow2(r)) % n == 1 || Pow(a, d * Pow2(r)) % n == n - 1
    ensures k > r ==> Pow(a, d * Pow2(k)) % n == 1
    ensures Pow(a, d * Pow2(k)) % n == 1 || Pow(a, d * Pow2(k)) % n == n - 1
    decreases k
  {
    if k > r {
      StaysOne(n, a, d, r, k - 1);
      UnitSquared(n, a, d * Pow2(k - 1));
      DoubleExponent(d, k - 1);
    }
  }

  /** Going down from a^(d 2^k) = 1 through trivial roots, the first value that is not 1 is -1. */
  lemma {:induction false} DescendFromOne(n: int, a: int, d: nat, s: nat, k: nat)
    requires n >= 2 && k <= s && Pow(a, d * Pow2(k)) % n == 1
    requires forall r: nat :: r < s ==> TrivialRoot(n, a, d * Pow2(r))
    ensures StrongProbablePrime(n, a, d, s)
    decreases k
  {
    hide TrivialRoot;
    if k == 0 {
      assert d * Pow2(0) == d;
    } else {
      DoubleExponent(d, k - 1);
      var x := Pow(a, d * Pow2(k - 1)) % n;
      assert x == 1 || x == n - 1 by { RootOf(n, a, d * Pow2(k - 1)); }
      if x == 1 {
        DescendFromOne(n, a, d, s, k - 1);
      } else {
        assert HitsMinusOne(n, a, d, s, k - 1);
      }
    }
  }

  lemma RootOf(n: int, a: int, e: nat)
    requires n >= 2 && TrivialRoot(n, a, e) && Pow(a, 2 * e) % n == 1
    ensures Pow(a, e) % n == 1 || Pow(a, e) % n == n - 1
  {}

  /** A round passed through -1, or through 1 at its start, is followed by ones and preceded by none. */
  lemma StrongRoots(n: int, a: int, d: nat, s: nat, r: nat)
    requires n >= 3 && r < s && StrongProbablePrime(n, a, d, s)
    ensures TrivialRoot(n, a, d * Pow2(r)) && Pow(a, d * Pow2(s)) % n == 1
  {
    assert d * Pow2(0) == d;
    var hit := 0;
    if Pow(a, d) % n != 1 { hit :| HitsMinusOne(n, a, d, s, hit); }
    StaysOne(n, a, d, hit, s);
    if r >= hit {
      StaysOne(n, a, d, hit, r);
    } else {
      DoubleExponent(d, r);
      if Pow(a, d * Pow2(r + 1)) % n == 1 { StaysOne(n, a, d, r + 1, hit); }
    }
  }

  /** A round accepts an odd n exactly when n looks prime to its base. */
  lemma RoundMeaning(n: int, a: int)
    requires n >= 3 && n % 2 == 1
    ensures StrongProbablePrime(n, a, OddPart(n - 1), TwoExponent(n - 1)) <==> LooksPrime(n, a)
  {
    hide StrongProbablePrime, TrivialRoot, OddPart, TwoExponent, Pow2;
    var d, s := OddPart(n - 1), TwoExponent(n - 1);
    Decomposition(n - 1);
    EvenExponent(n - 1);
    if StrongProbablePrime(n, a, d, s) {
      StrongRoots(n, a, d, s, 0);
      forall e: nat, k: nat | k >= 1 && Halving(e, k, n) ensures TrivialRoot(n, a, e) {
        HalvingIsDoubling(e, k, n - 1);
        StrongRoots(n, a, d, s, s - k);
      }
    }
    if LooksPrime(n, a) {
      forall r: nat | r < s ensures TrivialRoot(n, a, d * Pow2(r)) {
        DoublingIsHalving(n - 1, r);
        assert Halving(d * Pow2(r), s - r, n);
      }
      DescendFromOne(n, a, d, s, s);
    }
  }

  lemma EvenExponent(m: nat)
    requires m >= 1 && m % 2 == 0
    ensures TwoExponent(m) >= 1
  {}

  /** The i-th small prime is among the bases that this many rounds use, as Python slices. */
  predicate Used(i: nat, rounds: int) {
    i < 12 && if rounds >= 0 then i < rounds else i < 12 + rounds
  }

  lemma UsedIsWitness(a: int, rounds: int)
    ensures a in Witnesses(rounds) <==> exists i: nat :: Used(i, rounds) && a == SMALL_PRIMES[i]
  {
    var w := Witnesses(rounds);
    if a in w {
      var i: nat :| i < |w| && w[i] == a;
      assert Used(i, rounds) && SMALL_PRIMES[i] == a;
    }
    if i: nat :| Used(i, rounds) && a == SMALL_PRIMES[i] {
      assert w[i] == a;
    }
  }

  /** What acceptance means above the small primes: none of them divides n, and n looks prime to the base
      of every round. */
  lemma AcceptedExactly(n: int, rounds: int)
    requires n > 37
    ensures ProbablyPrime(n, rounds) <==>
      (forall p :: p in SMALL_PRIMES ==> n % p != 0)
      && forall i: nat :: Used(i, rounds) ==> LooksPrime(n, SMALL_PRIMES[i])
  {
    hide StrongProbablePrime, LooksPrime, OddPart, TwoExponent, Witnesses;
    AboveSmallPrimes(n);
    if forall p :: p in SMALL_PRIMES ==> n % p != 0 {
      assert n % 2 == 1 by { assert SMALL_PRIMES[0] in SMALL_PRIMES; }
      if ProbablyPrime(n, rounds) {
        forall i: nat | Used(i, rounds) ensures LooksPrime(n, SMALL_PRIMES[i]) {
          UsedIsWitness(SMALL_PRIMES[i], rounds);
          AboveSmallPrimes(n);
          RoundMeaning(n, SMALL_PRIMES[i]);
        }
      }
      if forall i: nat :: Used(i, rounds) ==> LooksPrime(n, SMALL_PRIMES[i]) {
        forall a | a in Witnesses(rounds) && a < n
          ensures StrongProbablePrime(n, a, OddPart(n - 1), TwoExponent(n - 1))
        {
          UsedIsWitness(a, rounds);
          RoundMeaning(n, a);
        }
      }
    }
  }

  lemma AboveSmallPrimes(n: int)
    requires n > 37
    ensures n !in SMALL_PRIMES && forall a :: a in SMALL_PRIMES ==> 2 <= a < n
  {}

  /** Exponents 2e and 2e + 1 from e. */
  lemma PowerStep(n: int, a: int, e: nat, x: int)
    requires n >= 2 && x == Pow(a, e) % n
    ensures Pow(a, 2 * e) % n == (x * x) % n && Pow(a, 2 * e + 1) % n == (a * (x * x)) % n
  {
    SquareOfPower(n, a, e, x);
    CongReflexive(a, n);
    CongMul(a, a, x * x, Pow(a, 2 * e), n);
  }

  lemma PowerOf881()
    ensures Pow(2, 881) % 1763 == 1355
  {
    hide Pow;
    assert Pow(2, 3) == 8 by { SmallPower(); }
    PowerStep(1763, 2, 3, 8);
    PowerStep(1763, 2, 6, 64);
    PowerStep(1763, 2, 13, 1140);
    PowerStep(1763, 2, 27, 538);
    PowerStep(1763, 2, 55, 624);
    PowerStep(1763, 2, 110, 1516);
    PowerStep(1763, 2, 220, 1067);
    PowerStep(1763, 2, 440, 1354);
  }

  lemma SmallPower()
    ensures Pow(2, 3) == 8
  {
    assert Pow(2, 2) == 4;
  }

  /** The rounds matter: 1763 = 41 * 43 survives the trial division, and is accepted only by a test without
      rounds. */
  lemma CompositeRejected(rounds: int)
    ensures ProbablyPrime(1763, rounds) <==> rounds == 0 || rounds <= -12
    ensures 1763 == 41 * 43
  {
    hide Pow, Witnesses;
    PowerOf881();
    Survives1763();
    assert OddPart(1762) == 881 && TwoExponent(1762) == 1 by { assert OddPart(881) == 881 && TwoExponent(881) == 0; }
    assert 881 * Pow2(0) == 881;
    UsedIsWitness(2, rounds);
    if rounds == 0 || rounds <= -12 { assert Witnesses(rounds) == [] by { NoRounds(rounds); } }
    if rounds > 0 || -12 < rounds < 0 { assert Used(0, rounds) && SMALL_PRIMES[0] == 2; }
  }

  lemma NoRounds(rounds: int)
    requires rounds == 0 || rounds <= -12
    ensures Witnesses(rounds) == []
  {}

  lemma Survives1763()
    ensures 1763 !in SMALL_PRIMES && forall p :: p in SMALL_PRIMES ==> 1763 % p != 0
  {}

  // ---------- no prime is rejected ----------

  /** Modulo a prime, 1 has no square roots besides 1 and -1. */
  lemma RootsOfOne(n: int, x: int)
    requires Prime(n) && (x * x) % n == 1
    ensures x % n == 1 || x % n == n - 1
  {
    ModSmall(1, n);
    CongZeroIff(x * x, 1, n);
    assert x * x - 1 == (x - 1) * (x + 1);
    Euclid(n, x - 1, x + 1);
    if (x - 1) % n == 0 {
      CongZeroIff(x, 1, n);
    } else {
      CongZeroIff(x, -1, n);
      ModUnique(-1, -1, n - 1, n);
    }
  }

  /** A prime looks prime to every base it does not divide. */
  lemma PrimesLookPrime(n: int, a: int)
    requires Prime(n) && a % n != 0
    ensures LooksPrime(n, a)
  {
    ModSmall(1, n);
    Fermat(n, a);
    forall e: nat, k: nat | k >= 1 && Halving(e, k, n) ensures TrivialRoot(n, a, e) {
      var x := Pow(a, e) % n;
      SquareOfPower(n, a, e, x);
      if (x * x) % n == 1 {
        RootsOfOne(n, x);
        ModSmall(x, n);
      }
    }
  }

  /** Every prime passes, whatever the number of rounds. */
  lemma PrimesAccepted(n: int, rounds: int)
    requires Prime(n)
    ensures ProbablyPrime(n, rounds)
  {
    hide StrongProbablePrime, LooksPrime, OddPart, TwoExponent;
    if n !in SMALL_PRIMES {
      forall p | p in SMALL_PRIMES ensures n % p != 0 {
        if n < p { ModSmall(n, p); }
      }
      assert n % 2 == 1 by { assert SMALL_PRIMES[0] in SMALL_PRIMES; }
      forall a | a in Witnesses(rounds) && a < n
        ensures StrongProbablePrime(n, a, OddPart(n - 1), TwoExponent(n - 1))
      {
        assert a in SMALL_PRIMES && a >= 2;
        ModSmall(a, n);
        PrimesLookPrime(n, a);
        RoundMeaning(n, a);
      }
    }
  }

  // ---------- below 41^2 the test is exact ----------

  lemma SmallDivisor(c: int) returns (p: int)
    requires 2 <= c <= 40
    ensures p in SMALL_PRIMES && p <= c && c % p == 0
    ensures c <= 6 ==> p <= 5
  {
    p := if c % 2 == 0 then 2 else if c % 3 == 0 then 3 else if c % 5 == 0 then 5 else c;
  }

  lemma DividesProduct(p: int, c: int, k: int)
    requires p >= 1 && c % p == 0
    ensures (c * k) % p == 0
  {
    var m := c / p;
    assert c == m * p;
    assert c * k == (m * k) * p;
    ModUnique(c * k, m * k, 0, p);
  }

  lemma CofactorAtLeastTwo(n: int, m: int, o: int)
    requires 0 < m < n && n == o * m
    ensures o >= 2
  {}

  lemma RootBound(c: int, k: int, b: int)
    requires 0 <= c <= k && c * k < b * b && b > 0
    ensures c < b
  {}

  /** A composite has a factor no larger than its square root. */
  lemma SmallFactor(n: int, m: int) returns (c: int, k: int)
    requires 2 <= m < n && n % m == 0
    ensures 2 <= c <= k && c * k == n && c < n
  {
    var o := n / m;
    assert n == o * m;
    CofactorAtLeastTwo(n, m, o);
    if m <= o { c, k := m, o; } else { c, k := o, m; }
  }

  /** Below 41^2 the trial division alone decides, so the test accepts exactly the primes. */
  lemma ExactBelow1681(n: int, rounds: int)
    requires n < 1681
    ensures ProbablyPrime(n, rounds) <==> Prime(n)
  {
    if Prime(n) {
      PrimesAccepted(n, rounds);
    } else if n >= 2 {
      var m :| 2 <= m < n && n % m == 0;
      var c, k := SmallFactor(n, m);
      RootBound(c, k, 41);
      if n <= 48 { RootBound(c, k, 7); }
      var p := SmallDivisor(c);
      DividesProduct(p, c, k);
      if n in SMALL_PRIMES { NoSmallPrimeFactor(n, p); }
    }
  }

  lemma NoSmallPrimeFactor(n: int, p: int)
    requires n in SMALL_PRIMES && p in SMALL_PRIMES && p <= 5 && p < n
    ensures n % p != 0
  {}
}
