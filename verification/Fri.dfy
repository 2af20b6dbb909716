/** Reed-Solomon codewords and the FRI fold: what one fold computes, its symmetry under swapping
    the two halves, and its meaning on the committed polynomial. */
module Fri {
  import opened Collections
  import opened ModArith
  import opened Bytes
  import opened StarkField

  type felt = x: int | 0 <= x < P

  // ---------- evaluation ----------

  /** Horner's rule with a reduction at every step. */
  function Evaluate(coeffs: seq<int>, x: int): felt {
    if coeffs == [] then 0 else (Evaluate(coeffs[1..], x) * x + coeffs[0]) % P
  }

  method EvaluateByHorner(coeffs: seq<int>, x: int) returns (acc: felt)
    ensures acc == Evaluate(coeffs, x)
  {
    acc := 0;
    var i := |coeffs|;
    while i > 0
      invariant 0 <= i <= |coeffs|
      invariant acc == Evaluate(coeffs[i..], x)
    {
      assert coeffs[i - 1..][1..] == coeffs[i..];
      i := i - 1;
      acc := (acc * x + coeffs[i]) % P;
    }
    assert coeffs[0..] == coeffs;
  }

  lemma {:induction false} EvaluateIsPoly(c: seq<int>, x: int)
    ensures Cong(Evaluate(c, x), Poly(c, x), P)
  {
    if c != [] {
      EvaluateIsPoly(c[1..], x);
      var e, q := Evaluate(c[1..], x), Poly(c[1..], x);
      CongMul(e, q, x, x, P);
      CongAdd(e * x, q * x, c[0], c[0], P);
      CongMod(e * x + c[0], P);
    }
  }

  lemma {:induction false} PolyCong(c: seq<int>, x: int, y: int)
    requires Cong(x, y, P)
    ensures Cong(Poly(c, x), Poly(c, y), P)
  {
    if c != [] {
      PolyCong(c[1..], x, y);
      CongMul(x, y, Poly(c[1..], x), Poly(c[1..], y), P);
      CongAdd(c[0], c[0], x * Poly(c[1..], x), y * Poly(c[1..], y), P);
    }
  }

  function Codeword(c: seq<int>, dom: seq<int>): (r: seq<felt>)
    ensures |r| == |dom|
  {
    seq(|dom|, i requires 0 <= i < |dom| => Evaluate(c, dom[i]))
  }

  // ---------- one fold ----------

  function FoldValue(left: int, right: int, x: int, beta: int): felt {
    var even := ((left + right) * FieldInv(2)) % P;
    var odd := (((left - right) * FieldInv(2)) * FieldInv(x)) % P;
    (even + beta * odd) % P
  }

  function FoldCode(code: seq<felt>, dom: seq<int>, beta: int): (r: seq<felt>)
    requires |code| == |dom| && |code| % 2 == 0
    ensures |r| == |code| / 2
  {
    seq(|code| / 2, i requires 0 <= i < |code| / 2 => FoldValue(code[i], code[i + |code| / 2], dom[i], beta))
  }

  function FoldDomain(dom: seq<int>): (r: seq<int>)
    ensures |r| == |dom| / 2
  {
    seq(|dom| / 2, i requires 0 <= i < |dom| / 2 => (dom[i] * dom[i]) % P)
  }

  /** None is the STARKError of an odd codeword. */
  method Fold(code: seq<felt>, dom: seq<int>, beta: int) returns (r: Option<(seq<felt>, seq<int>)>)
    requires |code| == |dom|
    ensures r == if |code| % 2 == 0 then Some((FoldCode(code, dom, beta), FoldDomain(dom))) else None
  {
    var n := |code|;
    if n % 2 != 0 { return None; }
    var folded: seq<felt> := [];
    var domain: seq<int> := [];
    var i := 0;
    while i < n / 2
      invariant 0 <= i <= n / 2
      invariant folded == FoldCode(code, dom, beta)[..i]
      invariant domain == FoldDomain(dom)[..i]
    {
      var x := dom[i];
      folded := folded + [FoldValue(code[i], code[i + n / 2], x, beta)];
      domain := domain + [(x * x) % P];
      i := i + 1;
    }
    assert folded == FoldCode(code, dom, beta) && domain == FoldDomain(dom);
    return Some((folded, domain));
  }

  // ---------- query positions ----------

  function Position(idx: int, n: int): (r: nat)
    requires n >= 1
    ensures r < n
  {
    idx % n
  }

  /** The position half a domain away. */
  function Mirror(left: int, n: int): (r: nat)
    requires n >= 1
    ensures r < n
  {
    (left + n / 2) % n
  }

  /** The position in the next, half as long layer. */
  function Descend(left: int, n: int): (r: nat)
    requires n >= 2
    ensures r < n / 2
  {
    left % (n / 2)
  }

  // ---------- symmetry of the fold ----------

  lemma FieldInvNegation(x: int, y: int)
    requires Cong(y, -x, P)
    ensures Cong(FieldInv(y), -FieldInv(x), P)
  {
    CongMod(x, P);
    CongMod(y, P);
    CongSub(0, 0, x % P, x, P);
    var e := P - 2;
    CongPow(y % P, -(x % P), e, P);
    PowNegOdd(x % P, e);
    CongMod(Pow(x % P, e), P);
    CongMod(Pow(y % P, e), P);
    CongSub(0, 0, FieldInv(x), Pow(x % P, e), P);
  }

  /** Swapping the two values and negating the point folds to the same value. */
  lemma FoldSwap(left: int, right: int, x: int, y: int, beta: int)
    requires Cong(y, -x, P)
    ensures FoldValue(right, left, y, beta) == FoldValue(left, right, x, beta)
  {
    FieldInvNegation(x, y);
    var d := (left - right) * FieldInv(2);
    var u, v := FieldInv(x), FieldInv(y);
    assert (right - left) * FieldInv(2) == -d by { NegateProduct(left, right, FieldInv(2)); }
    CongMul(-d, -d, v, -u, P);
    assert (-d) * (-u) == d * u;
  }

  lemma NegateProduct(a: int, b: int, c: int)
    ensures (b - a) * c == -((a - b) * c)
  {}

  /** At a query in either half, folding the opened pair gives the entry of the next layer. */
  lemma FoldAtQuery(code: seq<felt>, dom: seq<int>, g: int, beta: int, i: nat)
    requires |code| == |dom| && |dom| >= 2 && Subgroup(dom, g) && i < |dom|
    ensures |dom| % 2 == 0
    ensures FoldValue(code[i], code[Mirror(i, |dom|)], dom[i], beta)
         == FoldCode(code, dom, beta)[Descend(i, |dom|)]
  {
    PowerOfTwoHalf(|dom|);
    MirrorIndex(i, |dom| / 2);
    if i >= |dom| / 2 {
      var j := i - |dom| / 2;
      HalfNegated(dom, g, j);
      FoldSwap(code[j], code[i], dom[j], dom[i], beta);
    }
  }

  lemma MirrorIndex(i: nat, m: nat)
    requires i < 2 * m
    ensures Mirror(i, 2 * m) == if i < m then i + m else i - m
    ensures Descend(i, 2 * m) == if i < m then i else i - m
  {
    assert (2 * m) / 2 == m;
    if i < m {
      ModSmall(i, m);
      ModSmall(i + m, 2 * m);
    } else {
      ModUnique(i + m, 1, i - m, 2 * m);
      ModUnique(i, 1, i - m, m);
    }
  }

  // ---------- meaning of the fold ----------

  function PolyEven(c: seq<int>, y: int): int
    decreases |c|
  {
    if c == [] then 0 else c[0] + y * PolyEven(if |c| == 1 then [] else c[2..], y)
  }

  function PolyOdd(c: seq<int>, y: int): int {
    if |c| < 2 then 0 else c[1] + y * PolyOdd(c[2..], y)
  }

  /** The coefficients of f_even + beta * f_odd. */
  function FoldCoeffs(c: seq<int>, beta: int): (r: seq<int>)
    ensures |r| == (|c| + 1) / 2
  {
    if |c| < 2 then c else [c[0] + beta * c[1]] + FoldCoeffs(c[2..], beta)
  }

  lemma {:induction false} PolySplit(c: seq<int>, x: int)
    ensures Poly(c, x) == PolyEven(c, x * x) + x * PolyOdd(c, x * x)
    decreases |c|
  {
    if |c| == 1 {
      assert Poly(c[1..], x) == 0 && PolyEven(c[1..], x * x) == 0;
    } else if |c| >= 2 {
      assert c[1..][1..] == c[2..];
      PolySplit(c[2..], x);
      var e, o := PolyEven(c[2..], x * x), PolyOdd(c[2..], x * x);
      SplitStep(c[0], c[1], x, e, o);
    }
  }

  lemma SplitStep(a: int, b: int, x: int, e: int, o: int)
    ensures a + x * (b + x * (e + x * o)) == (a + x * x * e) + x * (b + x * x * o)
  {
    calc {
      x * (b + x * (e + x * o));
      x * b + x * (x * (e + x * o));
      { assert x * (x * (e + x * o)) == x * (x * e) + x * (x * (x * o)); }
      x * b + x * (x * e) + x * (x * (x * o));
      { assert x * (x * e) == x * x * e && x * (x * o) == x * x * o; }
      x * b + x * x * e + x * (x * x * o);
      x * x * e + x * (b + x * x * o);
    }
  }

  lemma {:induction false} PolyFoldCoeffs(c: seq<int>, beta: int, y: int)
    ensures Poly(FoldCoeffs(c, beta), y) == PolyEven(c, y) + beta * PolyOdd(c, y)
    decreases |c|
  {
    if |c| == 1 {
      assert Poly(c[1..], y) == 0 && PolyEven(c[1..], y) == 0;
    } else if |c| >= 2 {
      PolyFoldCoeffs(c[2..], beta, y);
      var f := FoldCoeffs(c[2..], beta);
      assert ([c[0] + beta * c[1]] + f)[1..] == f;
      FoldStep(c[0], c[1], beta, y, PolyEven(c[2..], y), PolyOdd(c[2..], y));
    }
  }

  lemma FoldStep(a: int, b: int, beta: int, y: int, e: int, o: int)
    ensures a + beta * b + y * (e + beta * o) == (a + y * e) + beta * (b + y * o)
  {
    assert y * (beta * o) == beta * (y * o);
    assert y * (e + beta * o) == y * e + y * (beta * o);
    assert beta * (b + y * o) == beta * b + beta * (y * o);
  }

  /** The fold recovers both halves: even = E(x^2) and odd = O(x^2). */
  lemma FoldValueMeaning(left: int, right: int, x: int, beta: int, e: int, o: int)
    requires Cong(left, e + x * o, P) && Cong(right, e - x * o, P)
    requires Cong(x * FieldInv(x), 1, P)
    ensures Cong(FoldValue(left, right, x, beta), e + beta * o, P)
  {
    var half, u := FieldInv(2), FieldInv(x);
    TwoInverse(2);
    var a, b := (left + right) * half, (left - right) * half;
    assert Cong(a, e, P) by {
      CongAdd(left, e + x * o, right, e - x * o, P);
      CongMul(left + right, 2 * e, half, half, P);
      CongMul(2 * half, 1, e, e, P);
      assert (2 * half) * e == (2 * e) * half;
    }
    assert Cong(b, x * o, P) by {
      CongSub(left, e + x * o, right, e - x * o, P);
      CongMul(left - right, 2 * (x * o), half, half, P);
      CongMul(2 * half, 1, x * o, x * o, P);
      assert (2 * half) * (x * o) == (2 * (x * o)) * half;
    }
    assert Cong(b * u, o, P) by {
      CongMul(b, x * o, u, u, P);
      CongMul(x * u, 1, o, o, P);
      assert (x * u) * o == (x * o) * u;
    }
    CongMod(a, P);
    CongMod(b * u, P);
    var even, odd := a % P, (b * u) % P;
    CongMul(beta, beta, odd, o, P);
    CongAdd(even, e, beta * odd, beta * o, P);
    CongMod(even + beta * odd, P);
  }

  /** Folding the codeword of f with beta gives the codeword of f_even + beta * f_odd on the
      squared half-domain. */
  lemma FoldPreservesMeaning(c: seq<int>, dom: seq<int>, g: int, beta: int)
    requires Subgroup(dom, g) && |dom| >= 2
    ensures |dom| % 2 == 0
    ensures FoldCode(Codeword(c, dom), dom, beta) == Codeword(FoldCoeffs(c, beta), FoldDomain(dom))
  {
    PowerOfTwoHalf(|dom|);
    var m := |dom| / 2;
    forall i | 0 <= i < m
      ensures FoldCode(Codeword(c, dom), dom, beta)[i] == Codeword(FoldCoeffs(c, beta), FoldDomain(dom))[i]
    {
      HalfNegated(dom, g, i);
      DomainInverse(dom, g, i);
      FoldedEntry(c, dom[i], dom[i + m], beta);
    }
  }

  lemma FoldedEntry(c: seq<int>, x: int, y: int, beta: int)
    requires Cong(y, -x, P) && Cong(x * FieldInv(x), 1, P)
    ensures FoldValue(Evaluate(c, x), Evaluate(c, y), x, beta) == Evaluate(FoldCoeffs(c, beta), (x * x) % P)
  {
    var s := x * x;
    var e, o := PolyEven(c, s), PolyOdd(c, s);
    EvaluateIsPoly(c, x);
    PolySplit(c, x);
    EvaluateIsPoly(c, y);
    PolyCong(c, y, -x);
    PolySplit(c, -x);
    assert (-x) * (-x) == s;
    assert (-x) * o == -(x * o);
    FoldValueMeaning(Evaluate(c, x), Evaluate(c, y), x, beta, e, o);
    var f := FoldCoeffs(c, beta);
    PolyFoldCoeffs(c, beta, s);
    EvaluateIsPoly(f, s % P);
    CongMod(s, P);
    PolyCong(f, s % P, s);
    CongReduced(FoldValue(Evaluate(c, x), Evaluate(c, y), x, beta), Evaluate(f, s % P), P);
  }
}
