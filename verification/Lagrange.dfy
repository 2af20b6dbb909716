/** Lagrange interpolation at zero over Z_q, with the inverses taken by exponentiation. */
module Lagrange {
  import opened ModArith

  // ---------- the coefficient of the source ----------

  /** One factor of the numerator (-j) or of the denominator (i - j). */
  function Factor(i: int, j: int, numerator: bool): int {
    if numerator then -j else i - j
  }

  /** The product of the factors of every node other than i. */
  function Product(i: int, nodes: seq<int>, numerator: bool): int {
    if nodes == [] then 1
    else
      var j := nodes[|nodes| - 1];
      Product(i, nodes[..|nodes| - 1], numerator) * (if j == i then 1 else Factor(i, j, numerator))
  }

  function Coefficient(i: int, nodes: seq<int>, q: int): int
    requires q >= 2
  {
    ((Product(i, nodes, true) % q) * PowMod(Product(i, nodes, false) % q, q - 2, q)) % q
  }

  method LagrangeCoefficient(i: int, nodes: seq<int>, q: int) returns (lambda: int)
    requires q >= 2
    ensures lambda == Coefficient(i, nodes, q)
  {
    var num, den := 1, 1;
    var k := 0;
    ModSmall(1, q);
    while k < |nodes|
      invariant 0 <= k <= |nodes|
      invariant num == Product(i, nodes[..k], true) % q
      invariant den == Product(i, nodes[..k], false) % q
    {
      var j := nodes[k];
      assert nodes[..k + 1][..k] == nodes[..k];
      if j != i {
        ReduceFactor(Product(i, nodes[..k], true), -j, q);
        ReduceFactor(Product(i, nodes[..k], false), i - j, q);
        num := (num * (-j)) % q;
        den := (den * (i - j)) % q;
      }
      k := k + 1;
    }
    assert nodes[..k] == nodes;
    lambda := (num * PowMod(den, q - 2, q)) % q;
  }

  lemma ReduceFactor(a: int, b: int, q: int)
    requires q > 0
    ensures ((a % q) * b) % q == (a * b) % q
  {
    CongMod(a, q);
    CongMul(a % q, a, b, b, q);
  }

  // ---------- removing a node ----------

  function Without<T>(s: seq<T>, k: nat): (r: seq<T>)
    requires k < |s|
    ensures |r| == |s| - 1
  {
    s[..k] + s[k + 1..]
  }

  lemma {:induction false} ProductRemove(i: int, nodes: seq<int>, k: nat, numerator: bool)
    requires k < |nodes| && nodes[k] != i
    ensures Product(i, nodes, numerator)
         == Product(i, Without(nodes, k), numerator) * Factor(i, nodes[k], numerator)
  {
    var last := |nodes| - 1;
    var rest := Without(nodes, k);
    if k == last {
      assert rest == nodes[..last];
    } else {
      ProductRemove(i, nodes[..last], k, numerator);
      assert rest[..last - 1] == Without(nodes[..last], k);
      assert rest[last - 1] == nodes[last];
      MulSwap(Product(i, Without(nodes[..last], k), numerator), Factor(i, nodes[k], numerator),
              if nodes[last] == i then 1 else Factor(i, nodes[last], numerator));
    }
  }

  lemma MulSwap(u: int, f: int, w: int)
    ensures (u * f) * w == (u * w) * f
  {}

  /** Pairwise distinct modulo q. */
  ghost predicate DistinctModulo(nodes: seq<int>, q: int)
    requires q > 0
  {
    forall a, b :: 0 <= a < b < |nodes| ==> !Cong(nodes[a], nodes[b], q)
  }

  lemma DistinctWithout(nodes: seq<int>, k: nat, q: int)
    requires q > 0 && DistinctModulo(nodes, q) && k < |nodes|
    ensures DistinctModulo(Without(nodes, k), q)
    ensures forall x :: x in Without(nodes, k) ==> x in nodes && !Cong(x, nodes[k], q)
  {
    var r := Without(nodes, k);
    forall a | 0 <= a < |r| ensures r[a] == nodes[if a < k then a else a + 1] {}
  }

  lemma NonzeroProduct(a: int, b: int, q: int)
    requires Prime(q) && a % q != 0 && b % q != 0
    ensures (a * b) % q != 0
  {
    if (a * b) % q == 0 { Euclid(q, a, b); }
  }

  lemma {:induction false} DenominatorNonzero(i: int, nodes: seq<int>, q: int)
    requires Prime(q) && forall x :: x in nodes && x != i ==> !Cong(x, i, q)
    ensures Product(i, nodes, false) % q != 0
  {
    if nodes == [] {
      ModSmall(1, q);
    } else {
      var last := |nodes| - 1;
      var j := nodes[last];
      DenominatorNonzero(i, nodes[..last], q);
      if j != i {
        CongZeroIff(i, j, q);
        assert j in nodes && !Cong(j, i, q);
        NonzeroProduct(Product(i, nodes[..last], false), i - j, q);
      }
    }
  }

  /** The coefficient really is the quotient of the two products. */
  lemma CoefficientIsQuotient(i: int, nodes: seq<int>, q: int)
    requires Prime(q) && forall x :: x in nodes && x != i ==> !Cong(x, i, q)
    ensures Cong(Coefficient(i, nodes, q) * Product(i, nodes, false), Product(i, nodes, true), q)
  {
    DenominatorNonzero(i, nodes, q);
    ReducedQuotient(Product(i, nodes, true), Product(i, nodes, false), q);
  }

  lemma ReducedQuotient(num: int, den: int, q: int)
    requires Prime(q) && den % q != 0
    ensures Cong((((num % q) * PowMod(den % q, q - 2, q)) % q) * den, num, q)
  {
    var n, d := num % q, den % q;
    CongMod(den, q);
    CongMod(num, q);
    InverseByPower(d, q);
    QuotientCancels(n, d, PowMod(d, q - 2, q), num, den, q);
  }

  lemma QuotientCancels(n: int, d: int, inv: int, num: int, den: int, q: int)
    requires q > 0 && Cong(n, num, q) && Cong(d, den, q) && Cong(d * inv, 1, q)
    ensures Cong(((n * inv) % q) * den, num, q)
  {
    hide Cong;
    var r := (n * inv) % q;
    CongMod(n * inv, q);
    CongSym(d, den, q);
    CongMul(r, n * inv, den, d, q);
    CongMul(n, num, d * inv, 1, q);
    assert (n * inv) * d == n * (d * inv);
    CongTrans(r * den, (n * inv) * d, num, q);
  }

  /** Dropping the node b multiplies the coefficient of i by (i - b) / (-b). */
  lemma CoefficientPeel(i: int, nodes: seq<int>, k: nat, q: int)
    requires Prime(q) && DistinctModulo(nodes, q) && k < |nodes| && i in Without(nodes, k)
    ensures Cong(Coefficient(i, nodes, q) * (i - nodes[k]), Coefficient(i, Without(nodes, k), q) * (-nodes[k]), q)
  {
    var b, rest := nodes[k], Without(nodes, k);
    DistinctWithout(nodes, k, q);
    DistinctFrom(i, nodes, q);
    DistinctFrom(i, rest, q);
    CoefficientIsQuotient(i, nodes, q);
    CoefficientIsQuotient(i, rest, q);
    ProductRemove(i, nodes, k, true);
    ProductRemove(i, nodes, k, false);
    DenominatorNonzero(i, rest, q);
    CancelDenominator(Coefficient(i, nodes, q), Coefficient(i, rest, q),
                      Product(i, rest, true), Product(i, rest, false), i - b, -b, q);
  }

  lemma CancelDenominator(u: int, v: int, num: int, den: int, d: int, e: int, q: int)
    requires Prime(q) && den % q != 0
    requires Cong(u * (den * d), num * e, q) && Cong(v * den, num, q)
    ensures Cong(u * d, v * e, q)
  {
    CongMul(v * den, num, e, e, q);
    assert den * (u * d) == u * (den * d);
    assert den * (v * e) == (v * den) * e;
    CongCancel(den, u * d, v * e, q);
  }

  lemma DistinctFrom(i: int, nodes: seq<int>, q: int)
    requires q > 0 && DistinctModulo(nodes, q) && i in nodes
    ensures forall x :: x in nodes && x != i ==> !Cong(x, i, q)
  {
    forall x | x in nodes && x != i ensures !Cong(x, i, q) {
      var a :| 0 <= a < |nodes| && nodes[a] == x;
      var b :| 0 <= b < |nodes| && nodes[b] == i;
      if a < b { assert !Cong(nodes[a], nodes[b], q); } else { assert !Cong(nodes[b], nodes[a], q); }
    }
  }

  // ---------- weighted sums ----------

  /** The sum of w(x) f(x) over a list of nodes. The weights stay a function value, so that sums
      can be manipulated without unfolding the coefficients. */
  ghost function Weighted(over: seq<int>, w: int -> int, f: int -> int): int {
    if over == [] then 0
    else Weighted(over[..|over| - 1], w, f) + w(over[|over| - 1]) * f(over[|over| - 1])
  }

  lemma {:induction false} WeightedRemove(over: seq<int>, k: nat, w: int -> int, f: int -> int)
    requires k < |over|
    ensures Weighted(over, w, f) == Weighted(Without(over, k), w, f) + w(over[k]) * f(over[k])
  {
    var last, rest := |over| - 1, Without(over, k);
    if k == last {
      assert rest == over[..last];
    } else {
      WeightedRemove(over[..last], k, w, f);
      assert rest[..last - 1] == Without(over[..last], k);
      assert rest[last - 1] == over[last];
    }
  }

  /** f = u g + v h pointwise splits the weighted sum. */
  lemma {:induction false} WeightedLinear(over: seq<int>, w: int -> int, f: int -> int, g: int -> int, h: int -> int,
                                          u: int, v: int)
    requires forall x {:trigger g(x), h(x)} :: f(x) == u * g(x) + v * h(x)
    ensures Weighted(over, w, f) == u * Weighted(over, w, g) + v * Weighted(over, w, h)
  {
    if over != [] {
      var x, init := over[|over| - 1], over[..|over| - 1];
      WeightedLinear(init, w, f, g, h, u, v);
      LinearStep(w(x), u, v, g(x), h(x), Weighted(init, w, g), Weighted(init, w, h));
    }
  }

  lemma LinearStep(c: int, u: int, v: int, g: int, h: int, a: int, b: int)
    ensures u * a + v * b + c * (u * g + v * h) == u * (a + c * g) + v * (b + c * h)
  {
    assert c * (u * g + v * h) == u * (c * g) + v * (c * h);
    assert u * (a + c * g) == u * a + u * (c * g);
    assert v * (b + c * h) == v * b + v * (c * h);
  }

  /** w gives the coefficients of the nodes. */
  ghost predicate IsWeight(w: int -> int, nodes: seq<int>, q: int)
    requires q >= 2
  {
    forall x {:trigger Coefficient(x, nodes, q)} :: w(x) == Coefficient(x, nodes, q)
  }

  /** On every listed node, w(x) (x - b) = w'(x) (-b) modulo q. */
  ghost predicate PeeledWeight(over: seq<int>, w: int -> int, w': int -> int, b: int, q: int)
    requires q > 0
  {
    forall i :: 0 <= i < |over| ==> Cong(w(over[i]) * (over[i] - b), w'(over[i]) * (-b), q)
  }

  /** Summing (x - b) f(x) over all nodes is summing -b f(x) over the nodes without b. */
  lemma {:induction false} PeelOver(over: seq<int>, w: int -> int, w': int -> int, b: int,
                                    f: int -> int, g: int -> int, q: int)
    requires q > 0 && forall x {:trigger g(x)} :: g(x) == (x - b) * f(x)
    requires PeeledWeight(over, w, w', b, q)
    ensures Cong(Weighted(over, w, g), (-b) * Weighted(over, w', f), q)
  {
    if over != [] {
      var x, init := over[|over| - 1], over[..|over| - 1];
      PeelOver(init, w, w', b, f, g, q);
      PeelStep(x - b, -b, w(x), w'(x), f(x), Weighted(init, w, g), Weighted(init, w', f), q);
    }
  }

  lemma PeelStep(d: int, e: int, u: int, v: int, y: int, s: int, w: int, q: int)
    requires q > 0 && Cong(u * d, v * e, q) && Cong(s, e * w, q)
    ensures Cong(s + u * (d * y), e * (w + v * y), q)
  {
    CongMul(u * d, v * e, y, y, q);
    assert u * (d * y) == (u * d) * y;
    CongAdd(s, e * w, (u * d) * y, (v * e) * y, q);
    assert (v * e) * y == e * (v * y);
    assert e * (w + v * y) == e * w + e * (v * y);
  }

  lemma Peel(nodes: seq<int>, k: nat, w: int -> int, w': int -> int, f: int -> int, g: int -> int, q: int)
    requires Prime(q) && DistinctModulo(nodes, q) && k < |nodes|
    requires IsWeight(w, nodes, q) && IsWeight(w', Without(nodes, k), q)
    requires forall x {:trigger g(x)} :: g(x) == (x - nodes[k]) * f(x)
    ensures Cong(Weighted(nodes, w, g), (-nodes[k]) * Weighted(Without(nodes, k), w', f), q)
  {
    PeelWeights(nodes, k, w, w', q);
    PeelSums(nodes, k, w, w', f, g, q);
  }

  lemma PeelSums(nodes: seq<int>, k: nat, w: int -> int, w': int -> int, f: int -> int, g: int -> int, q: int)
    requires q > 0 && k < |nodes| && PeeledWeight(Without(nodes, k), w, w', nodes[k], q)
    requires forall x {:trigger g(x)} :: g(x) == (x - nodes[k]) * f(x)
    ensures Cong(Weighted(nodes, w, g), (-nodes[k]) * Weighted(Without(nodes, k), w', f), q)
  {
    hide *;
    PeelOver(Without(nodes, k), w, w', nodes[k], f, g, q);
    DropZero(nodes, k, w, f, g);
  }

  /** The term of b itself vanishes. */
  lemma DropZero(nodes: seq<int>, k: nat, w: int -> int, f: int -> int, g: int -> int)
    requires k < |nodes| && forall x {:trigger g(x)} :: g(x) == (x - nodes[k]) * f(x)
    ensures Weighted(nodes, w, g) == Weighted(Without(nodes, k), w, g)
  {
    WeightedRemove(nodes, k, w, g);
    var b := nodes[k];
    assert g(b) == (b - b) * f(b) == 0;
    ZeroTerm(w(b), g(b));
  }

  lemma PeelWeights(nodes: seq<int>, k: nat, w: int -> int, w': int -> int, q: int)
    requires Prime(q) && DistinctModulo(nodes, q) && k < |nodes|
    requires IsWeight(w, nodes, q) && IsWeight(w', Without(nodes, k), q)
    ensures PeeledWeight(Without(nodes, k), w, w', nodes[k], q)
  {
    var rest := Without(nodes, k);
    forall i | 0 <= i < |rest| ensures Cong(w(rest[i]) * (rest[i] - nodes[k]), w'(rest[i]) * (-nodes[k]), q) {
      CoefficientPeel(rest[i], nodes, k, q);
    }
  }

  lemma ZeroTerm(c: int, y: int)
    requires y == 0
    ensures c * y == 0
  {}

  // ---------- interpolation ----------

  /** Synthetic division by (x - b). */
  function Quotient(c: seq<int>, b: int): (r: seq<int>)
    ensures |r| == if c == [] then 0 else |c| - 1
  {
    if |c| <= 1 then [] else [Poly(c[1..], b)] + Quotient(c[1..], b)
  }

  lemma {:induction false} Division(c: seq<int>, b: int, x: int)
    ensures Poly(c, x) == Poly(c, b) + (x - b) * Poly(Quotient(c, b), x)
  {
    if |c| == 1 {
      assert Poly(c[1..], x) == 0 == Poly(c[1..], b);
    } else if |c| > 1 {
      Division(c[1..], b, x);
      var s, t := Poly(c[1..], b), Poly(Quotient(c[1..], b), x);
      assert ([s] + Quotient(c[1..], b))[1..] == Quotient(c[1..], b);
      DivisionStep(x, b, s, t);
    }
  }

  lemma DivisionStep(x: int, b: int, s: int, t: int)
    ensures x * (s + (x - b) * t) == b * s + (x - b) * (s + x * t)
  {
    assert x * ((x - b) * t) == (x - b) * (x * t);
    assert x * (s + (x - b) * t) == x * s + x * ((x - b) * t);
    assert (x - b) * (s + x * t) == (x - b) * s + (x - b) * (x * t);
    assert x * s == b * s + (x - b) * s;
  }

  lemma SingleNode(a: int, w: int -> int, f: int -> int, q: int)
    requires Prime(q) && IsWeight(w, [a], q)
    ensures Weighted([a], w, f) == f(a)
  {
    assert Product(a, [a], true) == 1 == Product(a, [a], false);
    ModSmall(1, q);
    PowOne(q - 2);
    assert w(a) == Coefficient(a, [a], q) == 1;
    assert Weighted([], w, f) == 0;
  }

  /** The coefficients add up to one. */
  lemma {:induction false} WeightsSumToOne(nodes: seq<int>, w: int -> int, one: int -> int, q: int)
    requires Prime(q) && DistinctModulo(nodes, q) && nodes != [] && IsWeight(w, nodes, q)
    requires forall x {:trigger one(x)} :: one(x) == 1
    ensures Cong(Weighted(nodes, w, one), 1, q)
    decreases |nodes|, 1
  {
    if |nodes| == 1 {
      assert nodes == [nodes[0]];
      SingleNode(nodes[0], w, one, q);
    } else {
      var a, b := nodes[0], nodes[|nodes| - 1];
      var ga, gb := x => (x - a) * one(x), x => (x - b) * one(x);
      PeelOne(nodes, 0, w, one, ga, q);
      PeelOne(nodes, |nodes| - 1, w, one, gb, q);
      WeightedLinear(nodes, w, gb, ga, one, 1, a - b);
      assert !Cong(nodes[0], nodes[|nodes| - 1], q);
      TwoPeels(a, b, Weighted(nodes, w, ga), Weighted(nodes, w, gb), Weighted(nodes, w, one), q);
    }
  }

  lemma {:induction false} PeelOne(nodes: seq<int>, k: nat, w: int -> int, one: int -> int, g: int -> int, q: int)
    requires Prime(q) && DistinctModulo(nodes, q) && k < |nodes| && |nodes| >= 2 && IsWeight(w, nodes, q)
    requires forall x {:trigger one(x)} :: one(x) == 1
    requires forall x {:trigger g(x)} :: g(x) == (x - nodes[k]) * one(x)
    ensures Cong(Weighted(nodes, w, g), -nodes[k], q)
    decreases |nodes|, 0
  {
    var rest := Without(nodes, k);
    var w' := (x: int) => Coefficient(x, rest, q);
    DistinctWithout(nodes, k, q);
    Peel(nodes, k, w, w', one, g, q);
    WeightsSumToOne(rest, w', one, q);
    CongMul(-nodes[k], -nodes[k], Weighted(rest, w', one), 1, q);
  }

  lemma TwoPeels(a: int, b: int, wa: int, wb: int, w: int, q: int)
    requires Prime(q) && Cong(wa, -a, q) && Cong(wb, -b, q) && wb == 1 * wa + (a - b) * w && !Cong(a, b, q)
    ensures Cong(w, 1, q)
  {
    CongSub(wb, -b, wa, -a, q);
    assert (a - b) * 1 == -b - -a;
    CongZeroIff(a, b, q);
    CongCancel(a - b, w, 1, q);
  }

  lemma ShortPoly(c: seq<int>, x: int)
    requires |c| <= 1
    ensures Poly(c, x) == Poly(c, 0)
  {
    if |c| == 1 { assert Poly(c[1..], x) == 0 == Poly(c[1..], 0); }
  }

  /** f takes the values of the polynomial. */
  ghost predicate IsPoly(f: int -> int, c: seq<int>) {
    forall x {:trigger Poly(c, x)} :: f(x) == Poly(c, x)
  }

  /** A polynomial with no more coefficients than nodes is recovered at zero. */
  lemma {:induction false} InterpolatesAtZero(nodes: seq<int>, w: int -> int, c: seq<int>, f: int -> int, q: int)
    requires Prime(q) && DistinctModulo(nodes, q) && nodes != [] && |c| <= |nodes|
    requires IsWeight(w, nodes, q) && IsPoly(f, c)
    ensures Cong(Weighted(nodes, w, f), Poly(c, 0), q)
    decreases |nodes|
  {
    hide Weighted, Poly, Cong, Coefficient, PowMod, Product, Pow, Prime;
    PrimeBound(q);
    if |nodes| == 1 {
      OneNode(nodes, w, c, f, q);
    } else {
      var last := |nodes| - 1;
      var rest, quo := Without(nodes, last), Quotient(c, nodes[last]);
      var w', h := (x: int) => Coefficient(x, rest, q), (x: int) => Poly(quo, x);
      var one, g := (x: int) => 1, (x: int) => (x - nodes[last]) * h(x);
      DistinctWithout(nodes, last, q);
      InterpolatesAtZero(rest, w', quo, h, q);
      Peel(nodes, last, w, w', h, g, q);
      WeightsSumToOne(nodes, w, one, q);
      SplitByDivision(nodes, w, c, nodes[last], f, one, g, h);
      CombineParts(Poly(c, nodes[last]), -nodes[last], Weighted(nodes, w, one), Weighted(nodes, w, g),
                   Weighted(rest, w', h), Poly(quo, 0), q);
    }
  }

  lemma OneNode(nodes: seq<int>, w: int -> int, c: seq<int>, f: int -> int, q: int)
    requires Prime(q) && |nodes| == 1 && |c| <= 1 && IsWeight(w, nodes, q) && IsPoly(f, c) && DistinctModulo(nodes, q)
    ensures Cong(Weighted(nodes, w, f), Poly(c, 0), q)
  {
    assert nodes == [nodes[0]];
    SingleNode(nodes[0], w, f, q);
    ShortPoly(c, nodes[0]);
  }

  lemma SplitByDivision(nodes: seq<int>, w: int -> int, c: seq<int>, b: int,
                        f: int -> int, one: int -> int, g: int -> int, h: int -> int)
    requires IsPoly(f, c) && IsPoly(h, Quotient(c, b))
    requires forall x {:trigger one(x)} :: one(x) == 1
    requires forall x {:trigger g(x)} :: g(x) == (x - b) * h(x)
    ensures Weighted(nodes, w, f) == Poly(c, b) * Weighted(nodes, w, one) + 1 * Weighted(nodes, w, g)
    ensures Poly(c, 0) == Poly(c, b) + (-b) * Poly(Quotient(c, b), 0)
  {
    forall x ensures f(x) == Poly(c, b) * one(x) + 1 * g(x) { Division(c, b, x); }
    WeightedLinear(nodes, w, f, one, g, Poly(c, b), 1);
    Division(c, b, 0);
  }

  lemma CombineParts(v: int, e: int, one: int, g: int, h: int, r: int, q: int)
    requires q > 0 && Cong(one, 1, q) && Cong(g, e * h, q) && Cong(h, r, q)
    ensures Cong(v * one + 1 * g, v + e * r, q)
  {
    CongMul(v, v, one, 1, q);
    CongMul(e, e, h, r, q);
    CongAdd(v * one, v * 1, g, e * r, q);
  }
}
