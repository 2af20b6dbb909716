/** The Wesolowski verifiable delay function over a Schnorr group. */
module Vdf {
  import opened Collections
  import opened ModArith
  import opened Bytes

  type pos = x: int | x >= 1 witness 1

  /** The hash-to-prime map, the same for prover and verifier. */
  type HashToPrime = (int, int, int) -> pos

  datatype Evaluation = Evaluation(x: int, y: int, proof: int, delay: int)

  /** The delay is hashed in eight bytes. */
  predicate Encodable(delay: int) {
    0 <= delay < Pow(256, 8)
  }

  /** Repeated squaring. None is the ValueError of a negative delay or an input outside (0, p). */
  method Evaluate(p: int, x: int, delay: int) returns (r: Option<int>)
    requires p >= 2
    ensures r == if delay >= 0 && 0 < x < p then Some(PowMod(x, Pow2(delay), p)) else None
  {
    if delay < 0 || !(0 < x < p) { return None; }
    var y := x;
    var i := 0;
    ModSmall(x, p);
    assert Pow2(0) == 1 && Pow(x, 1) == x * Pow(x, 0);
    while i < delay
      invariant 0 <= i <= delay
      invariant y == PowMod(x, Pow2(i), p)
    {
      Squaring(x, Pow2(i), p);
      y := (y * y) % p;
      i := i + 1;
    }
    return Some(y);
  }

  lemma Squaring(x: int, e: int, p: int)
    requires p >= 2 && e >= 0
    ensures (PowMod(x, e, p) * PowMod(x, e, p)) % p == PowMod(x, 2 * e, p)
  {
    CongMod(Pow(x, e), p);
    CongMul(PowMod(x, e, p), Pow(x, e), PowMod(x, e, p), Pow(x, e), p);
    PowAdd(x, e, e);
  }

  /** The honest evaluation, with the quotient 2^T div l in the exponent of the proof. */
  function Honest(p: int, h: HashToPrime, x: int, delay: nat): Evaluation
    requires p >= 2
  {
    var y := PowMod(x, Pow2(delay), p);
    Evaluation(x, y, PowMod(x, Pow2(delay) / h(x, y, delay), p), delay)
  }

  /** None is an exception: a bad input, or a delay too long to hash. */
  method Prove(p: int, h: HashToPrime, x: int, delay: int) returns (r: Option<Evaluation>)
    requires p >= 2
    ensures r == if Encodable(delay) && 0 < x < p then Some(Honest(p, h, x, delay)) else None
  {
    var y := Evaluate(p, x, delay);
    if y.None? || !Encodable(delay) { return None; }
    var prime := h(x, y.value, delay);
    var q := Pow2(delay) / prime;
    return Some(Evaluation(x, y.value, PowMod(x, q, p), delay));
  }

  /** None is an exception from hashing the delay. */
  function Verify(p: int, h: HashToPrime, e: Evaluation): Option<bool>
    requires p >= 2
  {
    if !(0 < e.x < p) || !(0 < e.y < p) || !(0 <= e.proof < p) then Some(false)
    else if !Encodable(e.delay) then None
    else
      var prime := h(e.x, e.y, e.delay);
      var r := Pow2(e.delay) % prime;
      Some((PowMod(e.proof, prime, p) * PowMod(e.x, r, p)) % p == e.y)
  }

  /** pi^l * x^r = x^(2^T) when 2^T = q l + r. */
  lemma ProofEquation(p: int, x: int, l: pos, total: nat)
    requires p >= 2
    ensures total / l >= 0 && total % l >= 0
    ensures (PowMod(PowMod(x, total / l, p), l, p) * PowMod(x, total % l, p)) % p == PowMod(x, total, p)
  {
    var q, r := total / l, total % l;
    assert total == q * l + r;
    var pi := PowMod(x, q, p);
    CongMod(Pow(x, q), p);
    CongPow(pi, Pow(x, q), l, p);
    PowMul(x, q, l);
    CongMod(Pow(pi, l), p);
    CongMod(Pow(x, r), p);
    CongMul(PowMod(pi, l, p), Pow(x, q * l), PowMod(x, r, p), Pow(x, r), p);
    PowAdd(x, q * l, r);
  }

  /** Over a prime modulus every proof the prover returns is accepted. */
  lemma HonestAccepted(p: int, h: HashToPrime, x: int, delay: nat)
    requires Prime(p) && 0 < x < p && Encodable(delay)
    ensures Verify(p, h, Honest(p, h, x, delay)) == Some(true)
  {
    var y := PowMod(x, Pow2(delay), p);
    ModSmall(x, p);
    PowNonzero(x, Pow2(delay), p);
    ProofEquation(p, x, h(x, y, delay), Pow2(delay));
  }

  /** With the honest proof element for its prime, an output is accepted exactly when it is the
      delayed output: no other y passes. */
  lemma ExactForHonestProof(p: int, h: HashToPrime, e: Evaluation)
    requires p >= 2 && 0 < e.x < p && 0 < e.y < p && Encodable(e.delay)
    requires e.proof == PowMod(e.x, Pow2(e.delay) / h(e.x, e.y, e.delay), p)
    ensures Verify(p, h, e) == Some(e.y == PowMod(e.x, Pow2(e.delay), p))
  {
    CongMod(Pow(e.x, Pow2(e.delay) / h(e.x, e.y, e.delay)), p);
    ProofEquation(p, e.x, h(e.x, e.y, e.delay), Pow2(e.delay));
  }

  // ---------- which proof elements are accepted ----------

  /** Exponents count modulo p - 1. */
  lemma ExponentWraps(a: int, k: nat, p: int)
    requires Prime(p) && a % p != 0
    ensures k * (p - 1) >= 0 && Cong(Pow(a, 1 + k * (p - 1)), a, p)
  {
    hide Cong, Pow, Prime;
    PrimeBound(p);
    PowMul(a, p - 1, k);
    Fermat(p, a);
    CongPow(Pow(a, p - 1), 1, k, p);
    PowOne(k);
    PowStep(a, 1 + k * (p - 1));
    CongReflexive(a, p);
    CongMul(a, a, Pow(a, k * (p - 1)), 1, p);
  }

  /** The inverse of x, as a power of it. */
  function Inverse(x: int, p: int): int
    requires p >= 2
  {
    Pow(x, p - 2)
  }

  lemma PowerUndone(x: int, r: nat, p: int)
    requires Prime(p) && x % p != 0
    ensures p >= 2 && Cong(Pow(Inverse(x, p), r) * Pow(x, r), 1, p)
  {
    hide Cong, Pow, Prime;
    PrimeBound(p);
    PowStep(x, p - 1);
    Fermat(p, x);
    PowDistributes(Inverse(x, p), x, r);
    CongPow(Inverse(x, p) * x, 1, r, p);
    PowOne(r);
  }

  /** What a proof element has to be raised to: the output over x^(2^T mod l). */
  function Target(p: int, x: int, y: int, r: nat): int
    requires p >= 2
  {
    y * Pow(Inverse(x, p), r)
  }

  /** An equation with a power of x is one with its target. */
  lemma EquationAsTarget(p: int, x: int, y: int, r: nat, u: int)
    requires Prime(p) && x % p != 0
    ensures p >= 2 && (Cong(u * Pow(x, r), y, p) <==> Cong(u, Target(p, x, y, r), p))
  {
    hide Cong, Pow, Prime, Inverse;
    PowerUndone(x, r, p);
    var power, inverse := Pow(x, r), Pow(Inverse(x, p), r);
    CongReflexive(u, p);
    CongReflexive(y, p);
    CongReflexive(power, p);
    CongReflexive(inverse, p);
    CongMul(u, u, inverse * power, 1, p);
    CongMul(y, y, inverse * power, 1, p);
    if Cong(u * power, y, p) {
      CongMul(u * power, y, inverse, inverse, p);
      assert u * power * inverse == u * (inverse * power);
      CongChain(u, u * (inverse * power), y * inverse, y * inverse, p);
    }
    if Cong(u, y * inverse, p) {
      CongMul(u, y * inverse, power, power, p);
      assert y * inverse * power == y * (inverse * power);
      CongTrans(u * power, y * (inverse * power), y * 1, p);
    }
  }

  /** Over a prime modulus, when the hashed prime l is invertible modulo p - 1, with inverse m, every output
      has exactly one accepted proof element, whatever the delay. So over a group of known order acceptance
      alone does not say that the output is the delayed one; it says so for the honest proof element. */
  lemma OneElementAccepted(p: int, h: HashToPrime, e: Evaluation, m: nat, k: nat)
    requires Prime(p) && 0 < e.x < p && 0 < e.y < p && 0 <= e.proof < p && Encodable(e.delay)
    requires m * h(e.x, e.y, e.delay) == 1 + k * (p - 1)
    ensures p >= 2
    ensures var r := Pow2(e.delay) % h(e.x, e.y, e.delay);
      Verify(p, h, e) == Some(e.proof == PowMod(Target(p, e.x, e.y, r), m, p))
  {
    hide Cong, Pow, Prime, Target;
    PrimeBound(p);
    var l, r := h(e.x, e.y, e.delay), Pow2(e.delay) % h(e.x, e.y, e.delay);
    var target := Target(p, e.x, e.y, r);
    ModSmall(e.x, p);
    ModSmall(e.y, p);
    Reduced(p, e.proof, l, e.x, r, e.y);
    EquationAsTarget(p, e.x, e.y, r, Pow(e.proof, l));
    TargetNonzero(p, e.x, e.y, r);
    RootExactly(p, e.proof, target, l, m, k);
  }

  /** What the verifier answers, whatever it is given: nothing on reduced values with a delay too long to hash,
      and yes exactly on reduced values that satisfy its equation. */
  lemma AnswerExactly(p: int, h: HashToPrime, e: Evaluation)
    requires p >= 2
    ensures var reduced := 0 < e.x < p && 0 < e.y < p && 0 <= e.proof < p;
      && (Verify(p, h, e).None? <==> reduced && !Encodable(e.delay))
      && (Verify(p, h, e) == Some(true) <==>
            && reduced && Encodable(e.delay)
            && var l := h(e.x, e.y, e.delay);
               Cong(Pow(e.proof, l) * Pow(e.x, Pow2(e.delay) % l), e.y, p))
  {
    hide Cong, Pow, PowMod;
    if 0 < e.x < p && 0 < e.y < p && 0 <= e.proof < p && Encodable(e.delay) {
      var l := h(e.x, e.y, e.delay);
      Reduced(p, e.proof, l, e.x, Pow2(e.delay) % l, e.y);
    }
  }

  function AlwaysFive(): HashToPrime {
    (_, _, _) => 5
  }

  /** Modulo 7, with 5 as the hashed prime: two squared once is four, and three has its element, six. */
  lemma ThreeHasAnElement()
    ensures PowMod(2, Pow2(1), 7) == 4 && Verify(7, AlwaysFive(), Evaluation(2, 3, 6, 1)) == Some(true)
  {
    WideBounds();
    assert Pow2(1) == 2 && Pow(2, 2) == 4;
    assert Pow(6, 2) == 36;
    assert Pow(6, 3) == 216;
    assert Pow(6, 4) == 1296;
    assert Pow(6, 5) == 7776;
    assert 7776 == 1110 * 7 + 6;
  }

  lemma TargetNonzero(p: int, x: int, y: int, r: nat)
    requires Prime(p) && x % p != 0 && y % p != 0
    ensures p >= 2 && Target(p, x, y, r) % p != 0
  {
    PrimeBound(p);
    PowNonzero(x, p - 2, p);
    PowNonzero(Inverse(x, p), r, p);
    if Target(p, x, y, r) % p == 0 {
      Euclid(p, y, Pow(Inverse(x, p), r));
    }
  }

  /** The check of the verifier, without the intermediate reductions. */
  lemma Reduced(p: int, pi: int, l: nat, x: int, r: nat, y: int)
    requires p >= 2 && 0 <= y < p
    ensures (PowMod(pi, l, p) * PowMod(x, r, p)) % p == y <==> Cong(Pow(pi, l) * Pow(x, r), y, p)
  {
    CongMod(Pow(pi, l), p);
    CongMod(Pow(x, r), p);
    CongMul(PowMod(pi, l, p), Pow(pi, l), PowMod(x, r, p), Pow(x, r), p);
    ModSmall(y, p);
  }

  /** Where exponents l and m undo each other modulo p - 1, c^m is the only l-th root of c. */
  lemma RootExactly(p: int, pi: int, c: int, l: nat, m: nat, k: nat)
    requires Prime(p) && 0 <= pi < p && c % p != 0 && l >= 1 && m * l == 1 + k * (p - 1)
    ensures p >= 2 && (Cong(Pow(pi, l), c, p) <==> pi == PowMod(c, m, p))
  {
    hide Cong, Pow, Prime;
    PrimeBound(p);
    CongMod(Pow(c, m), p);
    PowMul(c, m, l);
    PowMul(pi, l, m);
    ExponentWraps(c, k, p);
    if Cong(Pow(pi, l), c, p) {
      RootNonzero(p, pi, c, l);
      ExponentWraps(pi, k, p);
      CongPow(Pow(pi, l), c, m, p);
      assert l * m == m * l;
      CongSym(Pow(pi, m * l), pi, p);
      CongTrans(pi, Pow(pi, m * l), Pow(c, m), p);
      CongSym(PowMod(c, m, p), Pow(c, m), p);
      CongTrans(pi, Pow(c, m), PowMod(c, m, p), p);
      CongReduced(pi, PowMod(c, m, p), p);
    }
    if pi == PowMod(c, m, p) {
      CongPow(pi, Pow(c, m), l, p);
      CongTrans(Pow(pi, l), Pow(c, m * l), c, p);
    }
  }

  lemma RootNonzero(p: int, pi: int, c: int, l: nat)
    requires p >= 2 && 0 <= pi < p && l >= 1 && c % p != 0 && Cong(Pow(pi, l), c, p)
    ensures pi % p != 0
  {
    ModSmall(pi, p);
    if pi == 0 {
      assert Pow(pi, l) == pi * Pow(pi, l - 1);
    }
  }

  // ---------- delays ----------

  lemma {:induction false} Pow2Add(a: nat, b: nat)
    ensures Pow2(a + b) == Pow2(a) * Pow2(b)
  {
    if a > 0 { Pow2Add(a - 1, b); }
  }

  /** Delays compose: evaluating for a and then for b more ticks is evaluating for a + b. */
  lemma DelaysCompose(p: int, x: int, a: nat, b: nat)
    requires p >= 2
    ensures PowMod(PowMod(x, Pow2(a), p), Pow2(b), p) == PowMod(x, Pow2(a + b), p)
  {
    Pow2Add(a, b);
    CongMod(Pow(x, Pow2(a)), p);
    CongPow(PowMod(x, Pow2(a), p), Pow(x, Pow2(a)), Pow2(b), p);
    PowMul(x, Pow2(a), Pow2(b));
  }
}
