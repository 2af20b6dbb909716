/** The field of the STARK module and its power-of-two evaluation domains. */
module StarkField {
  import opened ModArith

  /** The NTT-friendly prime 119 * 2^23 + 1. */
  const P := 998244353
  const TWO_ADICITY := 23

  /** Two to that power, the size of the largest domain. */
  const MAX_DOMAIN := 8388608

  const PRIMITIVE_ROOT := 3

  /** The generator of the subgroup of order 2^23. */
  function Omega(): int {
    PowMod(PRIMITIVE_ROOT, (P - 1) / MAX_DOMAIN, P)
  }

  function Felt(x: int): int {
    x % P
  }

  function FieldInv(x: int): int {
    PowMod(Felt(x), P - 2, P)
  }

  /** The order-n subgroup, listed as the powers of its generator. */
  function Generator(n: int): int
    requires 1 <= n <= MAX_DOMAIN
  {
    PowMod(Omega(), MAX_DOMAIN / n, P)
  }

  function Domain(n: int): (d: seq<int>)
    requires 1 <= n <= MAX_DOMAIN
    ensures |d| == n
  {
    seq(n, i requires 0 <= i < n => PowMod(Felt(Generator(n)), i, P))
  }

  predicate PowerOfTwo(n: int) {
    n >= 1 && (n == 1 || (n % 2 == 0 && PowerOfTwo(n / 2)))
  }

  // ---------- the order of the generator ----------

  lemma SquareStep(b: int, e: nat, r: int, s: int)
    requires Cong(Pow(b, e), r, P) && (r * r) % P == s % P
    ensures Cong(Pow(b, 2 * e), s, P)
  {
    PowAdd(b, e, e);
    CongMul(Pow(b, e), r, Pow(b, e), r, P);
  }

  lemma OddStep(b: int, e: nat, r: int, s: int)
    requires Cong(Pow(b, e), r, P) && (b * r) % P == s % P
    ensures Cong(Pow(b, e + 1), s, P)
  {
    CongMul(b, b, Pow(b, e), r, P);
  }

  lemma OmegaPower28(g: int)
    requires g == PRIMITIVE_ROOT
    ensures Cong(Pow(g, 28), 26617260, P)
  {
    hide Cong;
    assert Pow(g, 1) == g * Pow(g, 0);
    SquareStep(g, 1, 3, 9);
    OddStep(g, 2, 9, 27);
    SquareStep(g, 3, 27, 729);
    OddStep(g, 6, 729, 2187);
    SquareStep(g, 7, 2187, 4782969);
    SquareStep(g, 14, 4782969, 26617260);
  }

  lemma OmegaPower29(g: int)
    requires g == PRIMITIVE_ROOT
    ensures Cong(Pow(g, 29), 79851780, P)
  {
    hide Cong, Pow;
    OmegaPower28(g);
    OddStep(g, 28, 26617260, 79851780);
  }

  lemma OmegaPower59(g: int)
    requires g == PRIMITIVE_ROOT
    ensures Cong(Pow(g, 59), 3748461, P)
  {
    hide Cong, Pow;
    OmegaPower29(g);
    SquareStep(g, 29, 79851780, 1249487);
    OddStep(g, 58, 1249487, 3748461);
  }

  /** The generator, by square-and-multiply on 119 = 1110111 in binary. */
  lemma OmegaPower(g: int)
    requires g == PRIMITIVE_ROOT
    ensures Cong(Pow(g, 119), 15311432, P)
  {
    hide Cong, Pow;
    OmegaPower59(g);
    SquareStep(g, 59, 3748461, 670600046);
    OddStep(g, 118, 670600046, 15311432);
  }

  lemma OmegaSquares4(w: int, e: nat)
    requires Cong(Pow(w, e), 15311432, P)
    ensures Cong(Pow(w, 16 * e), 363395222, P)
  {
    hide Cong, Pow;
    SquareStep(w, e, 15311432, 267099868);
    SquareStep(w, 2 * e, 267099868, 733596141);
    SquareStep(w, 4 * e, 733596141, 565042129);
    SquareStep(w, 8 * e, 565042129, 363395222);
  }

  lemma OmegaSquares8(w: int, e: nat)
    requires Cong(Pow(w, e), 363395222, P)
    ensures Cong(Pow(w, 16 * e), 968855178, P)
  {
    hide Cong, Pow;
    SquareStep(w, e, 363395222, 996173970);
    SquareStep(w, 2 * e, 996173970, 24514907);
    SquareStep(w, 4 * e, 24514907, 629671588);
    SquareStep(w, 8 * e, 629671588, 968855178);
  }

  lemma OmegaSquares12(w: int, e: nat)
    requires Cong(Pow(w, e), 968855178, P)
    ensures Cong(Pow(w, 16 * e), 584193783, P)
  {
    hide Cong, Pow;
    SquareStep(w, e, 968855178, 666702199);
    SquareStep(w, 2 * e, 666702199, 350007156);
    SquareStep(w, 4 * e, 350007156, 63912897);
    SquareStep(w, 8 * e, 63912897, 584193783);
  }

  lemma OmegaSquares16(w: int, e: nat)
    requires Cong(Pow(w, e), 584193783, P)
    ensures Cong(Pow(w, 16 * e), 781712469, P)
  {
    hide Cong, Pow;
    SquareStep(w, e, 584193783, 258648936);
    SquareStep(w, 2 * e, 258648936, 166035806);
    SquareStep(w, 4 * e, 166035806, 476477967);
    SquareStep(w, 8 * e, 476477967, 781712469);
  }

  lemma OmegaSquares19(w: int, e: nat)
    requires Cong(Pow(w, e), 781712469, P)
    ensures Cong(Pow(w, 8 * e), 929031873, P)
  {
    hide Cong, Pow;
    SquareStep(w, e, 781712469, 922799308);
    SquareStep(w, 2 * e, 922799308, 452798380);
    SquareStep(w, 4 * e, 452798380, 929031873);
  }

  lemma OmegaSquares22(w: int, e: nat)
    requires Cong(Pow(w, e), 929031873, P)
    ensures Cong(Pow(w, 8 * e), -1, P)
  {
    hide Cong, Pow;
    SquareStep(w, e, 929031873, 372528824);
    SquareStep(w, 2 * e, 372528824, 911660635);
    SquareStep(w, 4 * e, 911660635, -1);
  }

  /** Squaring the generator 22 times gives -1, so its order is exactly 2^23. */
  lemma OmegaHalfOrder(w: int)
    requires Cong(w, 15311432, P)
    ensures Cong(Pow(w, 4194304), -1, P)
  {
    assert Pow(w, 1) == w * Pow(w, 0);
    OmegaSquares4(w, 1);
    OmegaSquares8(w, 16);
    OmegaSquares12(w, 256);
    OmegaSquares16(w, 4096);
    OmegaSquares19(w, 65536);
    OmegaSquares22(w, 524288);
  }

  // ---------- the inverse of two ----------

  lemma FirstPower(b: int)
    requires b == 2
    ensures Cong(Pow(b, 1), 2, P)
  {
    assert Pow(b, 1) == b * Pow(b, 0);
  }

  lemma TwoPower29(b: int)
    requires b == 2
    ensures Cong(Pow(b, 29), 536870912, P)
  {
    hide Cong, Pow;
    FirstPower(b);
    SquareStep(b, 1, 2, 4);
    OddStep(b, 2, 4, 8);
    SquareStep(b, 3, 8, 64);
    OddStep(b, 6, 64, 128);
    SquareStep(b, 7, 128, 16384);
    SquareStep(b, 14, 16384, 268435456);
    OddStep(b, 28, 268435456, 536870912);
  }

  lemma TwoPower59(b: int)
    requires b == 2
    ensures Cong(Pow(b, 59), 840200159, P)
  {
    hide Cong, Pow;
    TwoPower29(b);
    SquareStep(b, 29, 536870912, 919222256);
    OddStep(b, 58, 919222256, 840200159);
  }

  lemma TwoPower118(b: int)
    requires Cong(Pow(b, 59), 840200159, P)
    ensures Cong(Pow(b, 118), 873756348, P)
  {
    hide Cong, Pow;
    SquareStep(b, 59, 840200159, 873756348);
  }

  lemma TwoPower119(b: int)
    requires b == 2
    ensures Cong(Pow(b, 119), 749268343, P)
  {
    hide Cong, Pow;
    TwoPower59(b);
    TwoPower118(b);
    OddStep(b, 118, 873756348, 749268343);
  }

  lemma TwoSquares4(b: int, e: nat)
    requires Cong(Pow(b, e), 749268343, P)
    ensures Cong(Pow(b, 16 * e), 564515440, P)
  {
    hide Cong, Pow;
    SquareStep(b, e, 749268343, 854599625);
    SquareStep(b, 2 * e, 854599625, 275981743);
    SquareStep(b, 4 * e, 275981743, 121229115);
    SquareStep(b, 8 * e, 121229115, 564515440);
  }

  lemma TwoSquares8(b: int, e: nat)
    requires Cong(Pow(b, e), 564515440, P)
    ensures Cong(Pow(b, 16 * e), 319351757, P)
  {
    hide Cong, Pow;
    SquareStep(b, e, 564515440, 500482297);
    SquareStep(b, 2 * e, 500482297, 929671676);
    SquareStep(b, 4 * e, 929671676, 972782536);
    SquareStep(b, 8 * e, 972782536, 319351757);
  }

  lemma TwoSquares12(b: int, e: nat)
    requires Cong(Pow(b, e), 319351757, P)
    ensures Cong(Pow(b, 16 * e), 900830825, P)
  {
    hide Cong, Pow;
    SquareStep(b, e, 319351757, 216733819);
    SquareStep(b, 2 * e, 216733819, 307971575);
    SquareStep(b, 4 * e, 307971575, 823085725);
    SquareStep(b, 8 * e, 823085725, 900830825);
  }

  lemma TwoSquares16(b: int, e: nat)
    requires Cong(Pow(b, e), 900830825, P)
    ensures Cong(Pow(b, 16 * e), 158463934, P)
  {
    hide Cong, Pow;
    SquareStep(b, e, 900830825, 765263132);
    SquareStep(b, 2 * e, 765263132, 896052152);
    SquareStep(b, 4 * e, 896052152, 842947365);
    SquareStep(b, 8 * e, 842947365, 158463934);
  }

  lemma TwoSquares19(b: int, e: nat)
    requires Cong(Pow(b, e), 158463934, P)
    ensures Cong(Pow(b, 8 * e), 625715529, P)
  {
    hide Cong, Pow;
    SquareStep(b, e, 158463934, 645684063);
    SquareStep(b, 2 * e, 645684063, 624949902);
    SquareStep(b, 4 * e, 624949902, 625715529);
  }

  lemma TwoSquares22(b: int, e: nat)
    requires Cong(Pow(b, e), 625715529, P)
    ensures Cong(Pow(b, 8 * e), 1, P)
  {
    hide Cong, Pow;
    SquareStep(b, e, 625715529, 911660635);
    SquareStep(b, 2 * e, 911660635, 998244352);
    SquareStep(b, 4 * e, 998244352, 1);
  }

  /** 2^((P-1)/2) = 1, so exponentiation by P - 2 inverts two. */
  lemma TwoInverse(b: int)
    requires b == 2
    ensures Cong(b * FieldInv(b), 1, P)
  {
    TwoPower119(b);
    TwoSquares4(b, 119);
    TwoSquares8(b, 1904);
    TwoSquares12(b, 30464);
    TwoSquares16(b, 487424);
    TwoSquares19(b, 7798784);
    TwoSquares22(b, 62390272);
    SquareStep(b, 499122176, 1, 1);
    CongMod(Pow(b, P - 2), P);
    CongMul(b, b, FieldInv(b), Pow(b, P - 2), P);
    assert Pow(b, P - 1) == b * Pow(b, P - 2);
  }

  // ---------- subgroups ----------

  /** dom lists the powers of g, and g is a square root chain of -1 inside the 2^23 subgroup. */
  ghost predicate Subgroup(dom: seq<int>, g: int) {
    && |dom| >= 1
    && PowerOfTwo(|dom|)
    && Cong(Pow(g, MAX_DOMAIN), 1, P)
    && (|dom| >= 2 ==> Cong(Pow(g, |dom| / 2), -1, P))
    && forall i :: 0 <= i < |dom| ==> 0 <= dom[i] < P && Cong(dom[i], Pow(g, i), P)
  }

  lemma {:induction false} PowerOfTwoDivides(n: int, k: nat, top: int)
    requires PowerOfTwo(n) && n <= top == Pow2(k)
    ensures (top / n) * n == top
    decreases k
  {
    if n > 1 {
      var m, half := n / 2, Pow2(k - 1);
      PowerOfTwoDivides(m, k - 1, half);
      var q := half / m;
      assert q * n == 2 * (q * m);
      ModUnique(top, q, 0, n);
    }
  }

  lemma PowerOfTwoHalf(n: int)
    requires PowerOfTwo(n) && n >= 2
    ensures n % 2 == 0 && PowerOfTwo(n / 2) && 2 * (n / 2) == n
  {}

  lemma Cofactor(n: int)
    requires PowerOfTwo(n) && n <= MAX_DOMAIN
    ensures (MAX_DOMAIN / n) * n == MAX_DOMAIN
  {
    assert Pow2(4) == 16 && Pow2(8) == 256 && Pow2(12) == 4096 && Pow2(16) == 65536;
    assert Pow2(20) == 1048576 && Pow2(TWO_ADICITY) == MAX_DOMAIN;
    PowerOfTwoDivides(n, TWO_ADICITY, MAX_DOMAIN);
  }

  /** A power of the generator raised to a cofactor is a power of -1 or 1. */
  lemma GeneratorOrder(n: int, g: int)
    requires PowerOfTwo(n) && n <= MAX_DOMAIN && g == Felt(Generator(n))
    ensures Cong(Pow(g, MAX_DOMAIN), 1, P)
    ensures n >= 2 ==> Cong(Pow(g, n / 2), -1, P)
  {
    hide Cong, Pow, PowerOfTwo, Omega, Generator;
    PowerOfTwoShape(n);
    var w, m := Omega(), MAX_DOMAIN / n;
    OmegaValue();
    Cofactor(n);
    GeneratorIsPower(n, w, m);
    OmegaHalfOrder(w);
    SquareStep(w, 4194304, -1, 1);
    FullOrder(g, w, m);
    if n >= 2 {
      PowerOfGenerator(g, w, m, n / 2);
      HalfProduct(m, n);
      CongTrans(Pow(g, n / 2), Pow(w, 4194304), -1, P);
    }
  }

  lemma OmegaValue()
    ensures Cong(Omega(), 15311432, P)
  {
    hide Cong, Pow;
    OmegaPower(PRIMITIVE_ROOT);
    CongMod(Pow(PRIMITIVE_ROOT, 119), P);
    CongTrans(Omega(), Pow(PRIMITIVE_ROOT, 119), 15311432, P);
  }

  lemma GeneratorIsPower(n: int, w: int, m: int)
    requires 1 <= n <= MAX_DOMAIN && w == Omega() && m == MAX_DOMAIN / n
    ensures Cong(Felt(Generator(n)), Pow(w, m), P)
  {
    hide Cong, Pow, Omega;
    CongMod(Pow(w, m), P);
    CongMod(Generator(n), P);
    CongTrans(Felt(Generator(n)), Generator(n), Pow(w, m), P);
  }

  lemma PowerOfTwoShape(n: int)
    requires PowerOfTwo(n)
    ensures n >= 1 && (n >= 2 ==> n % 2 == 0)
  {}

  lemma FullOrder(g: int, w: int, m: nat)
    requires Cong(g, Pow(w, m), P) && Cong(Pow(w, MAX_DOMAIN), 1, P)
    ensures Cong(Pow(g, MAX_DOMAIN), 1, P)
  {
    hide Cong, Pow;
    PowerOfGenerator(g, w, m, MAX_DOMAIN);
    CongPow(Pow(w, MAX_DOMAIN), 1, m, P);
    PowMul(w, MAX_DOMAIN, m);
    PowOne(m);
    CongTrans(Pow(g, MAX_DOMAIN), Pow(w, m * MAX_DOMAIN), 1, P);
  }

  lemma HalfProduct(m: int, n: int)
    requires n % 2 == 0 && m * n == MAX_DOMAIN
    ensures m * (n / 2) == 4194304
  {
    var h := n / 2;
    assert n == 2 * h && m * n == 2 * (m * h);
  }

  lemma PowerOfGenerator(g: int, w: int, m: nat, e: nat)
    requires Cong(g, Pow(w, m), P)
    ensures m * e >= 0 && Cong(Pow(g, e), Pow(w, m * e), P)
  {
    CongPow(g, Pow(w, m), e, P);
    PowMul(w, m, e);
  }

  /** The domain of the source is such a subgroup. */
  lemma DomainIsSubgroup(n: int)
    requires PowerOfTwo(n) && n <= MAX_DOMAIN
    ensures Subgroup(Domain(n), Felt(Generator(n)))
  {
    var g := Felt(Generator(n));
    GeneratorOrder(n, g);
    forall i | 0 <= i < n ensures 0 <= Domain(n)[i] < P && Cong(Domain(n)[i], Pow(g, i), P) {
      CongMod(Pow(g, i), P);
    }
  }

  /** Exponentiation by P - 2 inverts every domain element. */
  lemma DomainInverse(dom: seq<int>, g: int, i: nat)
    requires Subgroup(dom, g) && i < |dom|
    ensures Cong(dom[i] * FieldInv(dom[i]), 1, P)
  {
    var x := dom[i];
    ModSmall(x, P);
    CongPow(x, Pow(g, i), MAX_DOMAIN, P);
    PowMul(g, i, MAX_DOMAIN);
    PowMul(g, MAX_DOMAIN, i);
    CongPow(Pow(g, MAX_DOMAIN), 1, i, P);
    PowOne(i);
    PowMul(x, MAX_DOMAIN, 119);
    CongPow(Pow(x, MAX_DOMAIN), 1, 119, P);
    PowOne(119);
    CongMod(Pow(x, P - 2), P);
    CongMul(x, x, FieldInv(x), Pow(x, P - 2), P);
    assert Pow(x, P - 1) == x * Pow(x, P - 2);
  }

  /** The upper half of a domain is the negation of its lower half. */
  lemma HalfNegated(dom: seq<int>, g: int, i: nat)
    requires Subgroup(dom, g) && |dom| >= 2 && i < |dom| / 2
    ensures |dom| % 2 == 0 && Cong(dom[i + |dom| / 2], -dom[i], P)
  {
    NegatedElement(g, i, |dom| / 2, dom[i]);
  }

  lemma NegatedElement(g: int, i: nat, m: nat, x: int)
    requires Cong(x, Pow(g, i), P) && Cong(Pow(g, m), -1, P)
    ensures Cong(Pow(g, i + m), -x, P)
  {
    PowAdd(g, i, m);
    CongMul(Pow(g, i), x, Pow(g, m), -1, P);
  }

  lemma PowSquare(g: int, e: nat)
    ensures Pow(g * g, e) == Pow(g, 2 * e)
  {
    PowMul(g, 2, e);
    assert Pow(g, 2) == g * Pow(g, 1) == g * (g * Pow(g, 0));
  }

  lemma SquaredElement(x: int, g: int, i: nat)
    requires Cong(x, Pow(g, i), P)
    ensures Cong((x * x) % P, Pow(g * g, i), P)
  {
    CongMod(x * x, P);
    CongMul(x, Pow(g, i), x, Pow(g, i), P);
    PowAdd(g, i, i);
    PowSquare(g, i);
  }

  /** Squaring the first half of a domain gives the domain of half the size. */
  lemma SquaredSubgroup(dom: seq<int>, g: int, half: seq<int>)
    requires Subgroup(dom, g) && |dom| >= 2 && |half| == |dom| / 2
    requires forall i :: 0 <= i < |half| ==> half[i] == (dom[i] * dom[i]) % P
    ensures Subgroup(half, g * g)
  {
    PowerOfTwoHalf(|dom|);
    SquareStep(g, MAX_DOMAIN, 1, 1);
    PowSquare(g, MAX_DOMAIN);
    if |half| >= 2 {
      PowSquare(g, |half| / 2);
      PowerOfTwoHalf(|half|);
    }
    forall i | 0 <= i < |half| ensures 0 <= half[i] < P && Cong(half[i], Pow(g * g, i), P) {
      SquaredElement(dom[i], g, i);
    }
  }
}
