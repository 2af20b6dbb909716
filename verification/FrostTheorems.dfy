/** Any t of n dealt shares, with any nonces and in any order, aggregate to a signature that the
    plain Schnorr verifier accepts. */
module FrostTheorems {
  import opened Collections
  import opened ModArith
  import opened Bytes
  import opened Lagrange
  import opened Frost

  // ---------- shares are points of the polynomial ----------

  lemma {:induction false} EvaluateModIsPoly(c: seq<int>, x: int, q: int)
    requires q >= 1
    ensures Cong(EvaluateMod(c, x, q), Poly(c, x), q)
  {
    if c != [] {
      EvaluateModIsPoly(c[1..], x, q);
      var e, p := EvaluateMod(c[1..], x, q), Poly(c[1..], x);
      CongMul(e, p, x, x, q);
      CongAdd(e * x, p * x, c[0], c[0], q);
      CongMod(e * x + c[0], q);
    }
  }

  lemma {:induction false} ShareAt(c: seq<int>, n: nat, q: int, i: nat)
    requires q >= 1 && i < n
    ensures |ShamirShares(c, n, q)| == n
    ensures ShamirShares(c, n, q)[i] == (i + 1, EvaluateMod(c, i + 1, q))
    decreases n
  {
    if n > 1 { ShareAt(c, n - 1, q, if i < n - 1 then i else 0); }
  }

  // ---------- the signing session ----------

  /** Dealt key material: c is the polynomial, its constant the secret reduced modulo q. */
  datatype Session = Session(grp: Group, secret: nat, tail: seq<int>, n: nat, ws: seq<NonceWitness>, message: bytes)

  function Coefficients(s: Session): seq<int>
    requires Moduli(s.grp)
  {
    [s.secret % s.grp.q] + s.tail
  }

  function PublicKey(s: Session): nat
    requires Moduli(s.grp)
  {
    PowMod(s.grp.g, s.secret, s.grp.p)
  }

  function Dealt(s: Session): seq<FrostShare>
    requires Moduli(s.grp)
  {
    DealtShares(ShamirShares(Coefficients(s), s.n, s.grp.q), PublicKey(s))
  }

  function Commitments(s: Session): (r: seq<NonceCommitment>)
    requires Moduli(s.grp)
    ensures |r| == |s.ws|
  {
    seq(|s.ws|, i requires 0 <= i < |s.ws| => CommitNonces(s.grp, s.ws[i]))
  }

  /** At least t distinct participants of 1..n sign, and n < q. */
  ghost predicate ValidSession(s: Session) {
    && ValidGroup(s.grp)
    && |s.tail| + 1 <= |s.ws|
    && s.n < s.grp.q
    && (forall i :: 0 <= i < |s.ws| ==> 1 <= s.ws[i].index <= s.n)
    && (forall i, j :: 0 <= i < j < |s.ws| ==> s.ws[i].index != s.ws[j].index)
  }

  ghost function HonestShare(h: Hash, s: Session, k: nat): SignatureShare
    requires ValidSession(s) && k < |s.ws|
  {
    SessionShares(s);
    ShareOf(h, s.grp, Dealt(s)[s.ws[k].index - 1], s.ws[k], s.message, Commitments(s))
  }

  lemma SessionShares(s: Session)
    requires ValidSession(s)
    ensures Moduli(s.grp) && |Dealt(s)| == s.n
    ensures forall i :: 1 <= i <= s.n ==>
      Dealt(s)[i - 1] == FrostShare(i, EvaluateMod(Coefficients(s), i, s.grp.q), PublicKey(s))
  {
    if s.n > 0 { ShareAt(Coefficients(s), s.n, s.grp.q, 0); }
    forall i | 1 <= i <= s.n
      ensures Dealt(s)[i - 1] == FrostShare(i, EvaluateMod(Coefficients(s), i, s.grp.q), PublicKey(s))
    {
      ShareAt(Coefficients(s), s.n, s.grp.q, i - 1);
    }
  }

  ghost function HonestShares(h: Hash, s: Session): (r: seq<SignatureShare>)
    requires ValidSession(s)
    ensures |r| == |s.ws|
  {
    seq(|s.ws|, i requires 0 <= i < |s.ws| => HonestShare(h, s, i))
  }

  // ---------- sums of shares ----------

  function TotalZ(shares: seq<SignatureShare>): int {
    if shares == [] then 0 else TotalZ(shares[..|shares| - 1]) + shares[|shares| - 1].z
  }

  lemma {:induction false} SumIsTotal(shares: seq<SignatureShare>, q: int)
    requires q >= 2
    ensures Cong(SumOfShares(shares, q), TotalZ(shares), q) && 0 <= SumOfShares(shares, q) < q
  {
    if shares != [] {
      var init, z := shares[..|shares| - 1], shares[|shares| - 1].z;
      SumIsTotal(init, q);
      CongAdd(SumOfShares(init, q), TotalZ(init), z, z, q);
      CongMod(SumOfShares(init, q) + z, q);
    }
  }

  lemma {:induction false} TotalRemove(shares: seq<SignatureShare>, k: nat)
    requires k < |shares|
    ensures TotalZ(shares) == TotalZ(Without(shares, k)) + shares[k].z
  {
    var last, rest := |shares| - 1, Without(shares, k);
    if k == last {
      assert rest == shares[..last];
    } else {
      TotalRemove(shares[..last], k);
      assert rest[..last - 1] == Without(shares[..last], k);
      assert rest[last - 1] == shares[last];
    }
  }

  lemma MultisetWithout<T>(s: seq<T>, k: nat)
    requires k < |s|
    ensures multiset(Without(s, k)) == multiset(s) - multiset{s[k]}
  {
    assert s == s[..k] + [s[k]] + s[k + 1..];
  }

  /** Aggregation does not depend on the order of the shares. */
  lemma {:induction false} TotalPermutation(a: seq<SignatureShare>, b: seq<SignatureShare>)
    requires multiset(a) == multiset(b)
    ensures TotalZ(a) == TotalZ(b)
    decreases |a|
  {
    if a == [] {
      assert |multiset(b)| == 0;
    } else {
      var last := |a| - 1;
      assert a[last] in multiset(b);
      var k :| 0 <= k < |b| && b[k] == a[last];
      TotalRemove(a, last);
      TotalRemove(b, k);
      MultisetWithout(a, last);
      MultisetWithout(b, k);
      TotalPermutation(Without(a, last), Without(b, k));
    }
  }

  // ---------- nonces ----------

  function SumOf(xs: seq<int>): int {
    if xs == [] then 0 else SumOf(xs[..|xs| - 1]) + xs[|xs| - 1]
  }

  /** The effective nonce d_i + e_i rho_i of every signer. */
  function Nonces(h: Hash, s: Session): (r: seq<nat>)
    requires Moduli(s.grp)
    ensures |r| == |s.ws|
  {
    seq(|s.ws|, i requires 0 <= i < |s.ws| => EffectiveNonce(h, s, s.ws[i]))
  }

  function EffectiveNonce(h: Hash, s: Session, w: NonceWitness): nat
    requires Moduli(s.grp)
  {
    w.d + w.e * BindingFactor(h, s.grp.q, w.index, s.message, Commitments(s))
  }

  lemma {:induction false} SumNonnegative(xs: seq<nat>)
    ensures SumOf(xs) >= 0
  {
    if xs != [] { SumNonnegative(xs[..|xs| - 1]); }
  }

  lemma CommittedNonce(g: int, d: nat, e: nat, rho: nat, r: int, sum: nat, p: int)
    requires p >= 2 && Cong(r, Pow(g, sum), p)
    ensures d + e * rho >= 0
    ensures Cong((r * PowMod(g, d, p) * PowMod(PowMod(g, e, p), rho, p)) % p, Pow(g, sum + (d + e * rho)), p)
  {
    var dd, ee := PowMod(g, d, p), PowMod(g, e, p);
    CongMod(Pow(g, d), p);
    CongMod(Pow(g, e), p);
    CongPow(ee, Pow(g, e), rho, p);
    PowMul(g, e, rho);
    CongMod(Pow(ee, rho), p);
    CongMul(r, Pow(g, sum), dd, Pow(g, d), p);
    CongMul(r * dd, Pow(g, sum) * Pow(g, d), PowMod(ee, rho, p), Pow(g, e * rho), p);
    CongMod(r * dd * PowMod(ee, rho, p), p);
    PowAdd(g, sum, d);
    PowAdd(g, sum + d, e * rho);
  }

  /** The sum of the nonces is the discrete logarithm of the group commitment. */
  lemma {:induction false} GroupProductIsPower(h: Hash, s: Session, k: nat)
    requires Moduli(s.grp) && k <= |s.ws|
    ensures SumOf(Nonces(h, s)[..k]) >= 0
    ensures Cong(GroupProduct(h, s.grp, s.message, Commitments(s), k), Pow(s.grp.g, SumOf(Nonces(h, s)[..k])), s.grp.p)
  {
    var nonces := Nonces(h, s);
    SumNonnegative(nonces[..k]);
    if k > 0 {
      GroupProductIsPower(h, s, k - 1);
      assert nonces[..k][..k - 1] == nonces[..k - 1];
      var w, cs := s.ws[k - 1], Commitments(s);
      CommittedNonce(s.grp.g, w.d, w.e, BindingFactor(h, s.grp.q, w.index, s.message, cs),
                     GroupProduct(h, s.grp, s.message, cs, k - 1), SumOf(nonces[..k - 1]), s.grp.p);
    }
  }

  // ---------- exponents ----------

  /** Exponents congruent modulo the order give congruent powers. */
  lemma PowModOrder(g: int, p: int, q: int, a: nat)
    requires p >= 2 && q >= 2 && Cong(Pow(g, q), 1, p)
    ensures Cong(Pow(g, a), Pow(g, a % q), p)
  {
    var m, r := a / q, a % q;
    assert a == q * m + r;
    PowAdd(g, q * m, r);
    PowMul(g, q, m);
    CongPow(Pow(g, q), 1, m, p);
    PowOne(m);
    CongMul(Pow(g, q * m), 1, Pow(g, r), Pow(g, r), p);
  }

  lemma ExponentsCong(g: int, p: int, q: int, a: nat, b: nat)
    requires p >= 2 && q >= 2 && Cong(Pow(g, q), 1, p) && Cong(a, b, q)
    ensures Cong(Pow(g, a), Pow(g, b), p)
  {
    PowModOrder(g, p, q, a);
    PowModOrder(g, p, q, b);
  }

  /** Powers of an element of finite order are invertible, so never zero modulo p. */
  lemma PowerNotZero(g: int, p: int, q: int, k: nat)
    requires p >= 2 && q >= 2 && Cong(Pow(g, q), 1, p)
    ensures Pow(g, k) % p != 0
  {
    if Pow(g, k) % p == 0 {
      var m := k * (q - 1);
      PowAdd(g, k, m);
      assert k + m == q * k;
      PowMul(g, q, k);
      CongPow(Pow(g, q), 1, k, p);
      PowOne(k);
      ModSmall(0, p);
      CongMul(Pow(g, k), 0, Pow(g, m), Pow(g, m), p);
      ModSmall(1, p);
    }
  }

  // ---------- the responses add up ----------

  lemma ResponseStep(nonce: int, lambda: int, point: int, y: int, c: int, z: int, total: int, sum: int, w: int, q: int)
    requires q >= 2 && Cong(point, y, q) && Cong(total, sum + c * w, q)
    requires z == (nonce + lambda * point * c) % q
    ensures Cong(total + z, (sum + nonce) + c * (w + lambda * y), q)
  {
    CongMul(lambda, lambda, point, y, q);
    CongMul(lambda * point, lambda * y, c, c, q);
    CongAdd(nonce, nonce, lambda * point * c, lambda * y * c, q);
    CongMod(nonce + lambda * point * c, q);
    CongAdd(total, sum + c * w, z, nonce + lambda * y * c, q);
    assert c * (w + lambda * y) == c * w + lambda * y * c;
  }

  /** Responses of the form z_i = nonce_i + w(x_i) f(x_i) c sum to nonce + c times the weighted sum. */
  lemma {:induction false} PartialResponses(zs: seq<int>, nonces: seq<int>, points: seq<int>, nodes: seq<int>,
                                            w: int -> int, f: int -> int, c: int, k: nat, q: int)
    requires q >= 2 && k <= |zs| == |nonces| == |points| == |nodes|
    requires forall i :: 0 <= i < |zs| ==> Cong(points[i], f(nodes[i]), q)
    requires forall i :: 0 <= i < |zs| ==> zs[i] == (nonces[i] + w(nodes[i]) * points[i] * c) % q
    ensures Cong(SumOf(zs[..k]), SumOf(nonces[..k]) + c * Weighted(nodes[..k], w, f), q)
  {
    if k > 0 {
      PartialResponses(zs, nonces, points, nodes, w, f, c, k - 1, q);
      assert zs[..k][..k - 1] == zs[..k - 1] && nonces[..k][..k - 1] == nonces[..k - 1];
      assert nodes[..k][..k - 1] == nodes[..k - 1];
      var x := nodes[k - 1];
      ResponseStep(nonces[k - 1], w(x), points[k - 1], f(x), c, zs[k - 1],
                   SumOf(zs[..k - 1]), SumOf(nonces[..k - 1]), Weighted(nodes[..k - 1], w, f), q);
    }
  }

  function Zs(shares: seq<SignatureShare>): (r: seq<int>)
    ensures |r| == |shares|
  {
    seq(|shares|, i requires 0 <= i < |shares| => shares[i].z)
  }

  lemma {:induction false} TotalIsSum(shares: seq<SignatureShare>)
    ensures TotalZ(shares) == SumOf(Zs(shares))
  {
    if shares != [] {
      TotalIsSum(shares[..|shares| - 1]);
      assert Zs(shares)[..|shares| - 1] == Zs(shares[..|shares| - 1]);
    }
  }

  /** The dealt share of each signer, a point of the polynomial. */
  function Points(s: Session): (r: seq<int>)
    requires Moduli(s.grp)
    ensures |r| == |s.ws|
  {
    seq(|s.ws|, i requires 0 <= i < |s.ws| => EvaluateMod(Coefficients(s), s.ws[i].index, s.grp.q))
  }

  function SessionChallenge(h: Hash, s: Session): (c: nat)
    requires Moduli(s.grp)
  {
    ChallengeOf(h, s.grp.q, PublicKey(s), GroupProduct(h, s.grp, s.message, Commitments(s), |s.ws|), s.message)
  }

  /** Response i has the form nonce + weight * point * challenge. */
  ghost predicate ResponseForm(h: Hash, s: Session, w: int -> int, z: int, k: nat)
    requires Moduli(s.grp) && k < |s.ws|
  {
    z == (Nonces(h, s)[k] + w(Indices(Commitments(s))[k]) * Points(s)[k] * SessionChallenge(h, s)) % s.grp.q
  }

  lemma HonestResponse(h: Hash, s: Session, w: int -> int, k: nat)
    requires ValidSession(s) && k < |s.ws|
    requires IsWeight(w, Indices(Commitments(s)), s.grp.q)
    ensures HonestShares(h, s)[k].index == s.ws[k].index
    ensures ResponseForm(h, s, w, HonestShares(h, s)[k].z, k)
  {
    hide Prime, Coefficient, Product, BindingFactor, ChallengeOf, GroupProduct;
    SessionShares(s);
    var nodes, x := Indices(Commitments(s)), s.ws[k].index;
    assert w(x) == Coefficient(x, nodes, s.grp.q);
    var share := Dealt(s)[x - 1];
    assert share == FrostShare(x, Points(s)[k], PublicKey(s));
    assert HonestShares(h, s)[k] == ShareOf(h, s.grp, share, s.ws[k], s.message, Commitments(s));
  }

  lemma PointsOnPolynomial(s: Session, f: int -> int)
    requires ValidSession(s) && forall x {:trigger f(x)} :: f(x) == Poly(Coefficients(s), x)
    ensures forall i :: 0 <= i < |s.ws| ==> Cong(Points(s)[i], f(Indices(Commitments(s))[i]), s.grp.q)
  {
    forall i | 0 <= i < |s.ws| ensures Cong(Points(s)[i], f(Indices(Commitments(s))[i]), s.grp.q) {
      EvaluateModIsPoly(Coefficients(s), s.ws[i].index, s.grp.q);
    }
  }

  lemma IndicesDistinct(s: Session)
    requires ValidSession(s)
    ensures DistinctModulo(Indices(Commitments(s)), s.grp.q)
  {
    var nodes, q := Indices(Commitments(s)), s.grp.q;
    forall a, b | 0 <= a < b < |nodes| ensures !Cong(nodes[a], nodes[b], q) {
      ModSmall(nodes[a], q);
      ModSmall(nodes[b], q);
      assert s.ws[a].index != s.ws[b].index;
    }
  }

  /** The responses of any t or more signers sum to nonce + challenge * secret. */
  lemma ResponsesSum(h: Hash, s: Session)
    requires ValidSession(s)
    ensures Cong(TotalZ(HonestShares(h, s)), SumOf(Nonces(h, s)) + SessionChallenge(h, s) * s.secret, s.grp.q)
  {
    var nodes, q, poly := Indices(Commitments(s)), s.grp.q, Coefficients(s);
    var w, f := (x: int) => Coefficient(x, nodes, q), (x: int) => Poly(poly, x);
    assert IsWeight(w, nodes, q) && IsPoly(f, poly);
    PointsOnPolynomial(s, f);
    assert Poly(poly, 0) == s.secret % q;
    var zs := Zs(HonestShares(h, s));
    forall k | 0 <= k < |s.ws| ensures ResponseForm(h, s, w, zs[k], k) {
      HonestResponse(h, s, w, k);
    }
    hide *;
    IndicesDistinct(s);
    InterpolatesAtZero(nodes, w, poly, f, q);
    TotalIsSum(HonestShares(h, s));
    SumOfForms(h, s, zs, w, f);
  }

  lemma SumOfForms(h: Hash, s: Session, zs: seq<int>, w: int -> int, f: int -> int)
    requires Moduli(s.grp) && |zs| == |s.ws|
    requires Cong(Weighted(Indices(Commitments(s)), w, f), s.secret % s.grp.q, s.grp.q)
    requires forall i :: 0 <= i < |zs| ==> Cong(Points(s)[i], f(Indices(Commitments(s))[i]), s.grp.q)
    requires forall k :: 0 <= k < |zs| ==> ResponseForm(h, s, w, zs[k], k)
    ensures Cong(SumOf(zs), SumOf(Nonces(h, s)) + SessionChallenge(h, s) * s.secret, s.grp.q)
  {
    hide Cong, Weighted, SumOf, Nonces, Points, SessionChallenge, Indices;
    var nonces, nodes, c, q := Nonces(h, s), Indices(Commitments(s)), SessionChallenge(h, s), s.grp.q;
    PartialResponses(zs, nonces, Points(s), nodes, w, f, c, |zs|, q);
    assert zs[..|zs|] == zs && nonces[..|zs|] == nonces && nodes[..|zs|] == nodes;
    SecretTerm(c, Weighted(nodes, w, f), s.secret, SumOf(nonces), q);
    CongTrans(SumOf(zs), SumOf(nonces) + c * Weighted(nodes, w, f), SumOf(nonces) + c * s.secret, q);
  }

  lemma SecretTerm(c: int, w: int, secret: int, sum: int, q: int)
    requires q >= 2 && Cong(w, secret % q, q)
    ensures Cong(sum + c * w, sum + c * secret, q)
  {
    CongMod(secret, q);
    CongMul(c, c, w, secret, q);
    CongAdd(sum, sum, c * w, c * secret, q);
  }

  /** Verification of R = g^k, s = k + c x under Y = g^x. */
  lemma SchnorrEquation(g: int, p: int, q: int, r: nat, k: nat, s: nat, c: nat, secret: nat)
    requires p >= 2 && q >= 2 && Cong(Pow(g, q), 1, p)
    requires Cong(r, Pow(g, k), p) && Cong(s, k + c * secret, q)
    ensures PowMod(g, s, p) == (r * PowMod(PowMod(g, secret, p), c, p)) % p
  {
    var y := PowMod(g, secret, p);
    ExponentsCong(g, p, q, s, k + c * secret);
    CongMod(Pow(g, secret), p);
    CongPow(y, Pow(g, secret), c, p);
    PowMul(g, secret, c);
    assert secret * c == c * secret;
    CongMod(Pow(y, c), p);
    CongMul(r, Pow(g, k), PowMod(y, c, p), Pow(g, c * secret), p);
    PowAdd(g, k, c * secret);
  }

  /** Threshold correctness: any order of the shares of at least t distinct signers, any nonces,
      any message. */
  lemma ThresholdSignatureVerifies(h: Hash, s: Session, shares: seq<SignatureShare>)
    requires ValidSession(s)
    requires multiset(shares) == multiset(HonestShares(h, s))
    ensures var sig := AggregateSpec(h, s.grp, shares, Commitments(s), s.message);
      sig.Some? && Verify(h, s.grp, PublicKey(s), s.message, sig.value)
  {
    hide Cong, SumOf, TotalZ, SumOfShares, Dealt, Verify, AggregateSpec, Prime, HonestShare, Commitments;
    SessionModuli(s);
    var honest, total := HonestShares(h, s), SumOfShares(shares, s.grp.q);
    HonestAggregate(h, s, shares);
    SumIsTotal(shares, s.grp.q);
    TotalPermutation(shares, honest);
    ResponsesSum(h, s);
    CongTrans(total, TotalZ(honest), SumOf(Nonces(h, s)) + SessionChallenge(h, s) * s.secret, s.grp.q);
    SessionAccepted(h, s, total);
  }

  lemma SessionModuli(s: Session)
    requires ValidSession(s)
    ensures Moduli(s.grp)
  {}

  lemma SessionAccepted(h: Hash, s: Session, total: nat)
    requires ValidSession(s) && total < s.grp.q
    requires Cong(total, SumOf(Nonces(h, s)) + SessionChallenge(h, s) * s.secret, s.grp.q)
    ensures Verify(h, s.grp, PublicKey(s), s.message,
                   Signature(GroupProduct(h, s.grp, s.message, Commitments(s), |s.ws|), total))
  {
    var nonces := Nonces(h, s);
    GroupProductIsPower(h, s, |s.ws|);
    assert nonces[..|s.ws|] == nonces;
    SignatureAccepted(h, s.grp, s.secret, s.message, GroupProduct(h, s.grp, s.message, Commitments(s), |s.ws|),
                      SumOf(nonces), total, SessionChallenge(h, s));
  }

  lemma HonestAggregate(h: Hash, s: Session, shares: seq<SignatureShare>)
    requires ValidSession(s)
    requires multiset(shares) == multiset(HonestShares(h, s))
    ensures AggregateSpec(h, s.grp, shares, Commitments(s), s.message)
      == Some(Signature(GroupProduct(h, s.grp, s.message, Commitments(s), |s.ws|), SumOfShares(shares, s.grp.q)))
  {
    HonestIndices(h, s);
    SameSigners(shares, HonestShares(h, s), Commitments(s));
  }

  lemma SignatureAccepted(h: Hash, grp: Group, secret: nat, message: bytes, r: nat, k: nat, s: nat, c: nat)
    requires ValidGroup(grp) && r < grp.p && s < grp.q
    requires c == ChallengeOf(h, grp.q, PowMod(grp.g, secret, grp.p), r, message)
    requires Cong(r, Pow(grp.g, k), grp.p) && Cong(s, k + c * secret, grp.q)
    ensures Verify(h, grp, PowMod(grp.g, secret, grp.p), message, Signature(r, s))
  {
    PowerNotZero(grp.g, grp.p, grp.q, k);
    ModSmall(r, grp.p);
    SchnorrEquation(grp.g, grp.p, grp.q, r, k, s, c, secret);
  }

  lemma HonestIndices(h: Hash, s: Session)
    requires ValidSession(s)
    ensures forall k :: 0 <= k < |s.ws| ==> HonestShares(h, s)[k].index == Commitments(s)[k].index
  {
    var w := (x: int) => Coefficient(x, Indices(Commitments(s)), s.grp.q);
    forall k | 0 <= k < |s.ws| ensures HonestShares(h, s)[k].index == s.ws[k].index {
      hide Coefficient, HonestShares, ResponseForm;
      HonestResponse(h, s, w, k);
    }
  }

  lemma SameSigners(shares: seq<SignatureShare>, honest: seq<SignatureShare>, cs: seq<NonceCommitment>)
    requires multiset(shares) == multiset(honest) && |honest| == |cs|
    requires forall i :: 0 <= i < |cs| ==> honest[i].index == cs[i].index
    ensures ShareIndices(shares) == SignerIndices(cs)
  {
    forall x ensures x in ShareIndices(shares) <==> x in SignerIndices(cs) {
      if x in ShareIndices(shares) {
        var sh :| sh in shares && sh.index == x;
        assert sh in multiset(honest);
        var i :| 0 <= i < |honest| && honest[i] == sh;
        assert cs[i] in cs;
      }
      if x in SignerIndices(cs) {
        var c :| c in cs && c.index == x;
        var i :| 0 <= i < |cs| && cs[i] == c;
        assert honest[i] in multiset(shares);
      }
    }
  }

  // ---------- uniqueness of the response ----------

  /** A generator of prime order q has no smaller positive order. */
  lemma {:induction false} OrderDescent(g: int, p: int, q: int, d: nat)
    requires p >= 2 && Prime(q) && 0 < d < q && Cong(Pow(g, q), 1, p) && Cong(Pow(g, d), 1, p)
    ensures Cong(g, 1, p)
    decreases d
  {
    if d == 1 {
      assert Pow(g, 1) == g * Pow(g, 0);
    } else {
      var m, r := q / d, q % d;
      assert q == d * m + r;
      PowAdd(g, d * m, r);
      PowMul(g, d, m);
      CongPow(Pow(g, d), 1, m, p);
      PowOne(m);
      CongMul(Pow(g, d * m), 1, Pow(g, r), Pow(g, r), p);
      OrderDescent(g, p, q, r);
    }
  }

  /** Equal powers below the order have equal exponents. */
  lemma ExponentUnique(g: int, p: int, q: int, a: nat, b: nat)
    requires p >= 2 && Prime(q) && a <= b < q && Cong(Pow(g, q), 1, p) && !Cong(g, 1, p)
    requires Cong(Pow(g, a), Pow(g, b), p)
    ensures a == b
  {
    if a < b {
      DifferenceIsPeriod(g, p, q, a, b - a);
      OrderDescent(g, p, q, b - a);
    }
  }

  /** Multiplying both powers by the inverse g^(q - a) of the lower one. */
  lemma DifferenceIsPeriod(g: int, p: int, q: nat, a: nat, d: nat)
    requires p >= 2 && a <= q && Cong(Pow(g, q), 1, p) && Cong(Pow(g, a), Pow(g, a + d), p)
    ensures Cong(Pow(g, d), 1, p)
  {
    hide Cong, Pow;
    var i := q - a;
    PowAdd(g, a, i);
    PowAdd(g, a + d, i);
    PowAdd(g, q, d);
    CongReflexive(Pow(g, i), p);
    CongReflexive(Pow(g, d), p);
    CongMul(Pow(g, a), Pow(g, a + d), Pow(g, i), Pow(g, i), p);
    CongMul(Pow(g, q), 1, Pow(g, d), Pow(g, d), p);
    CongSym(Pow(g, q + d), Pow(g, d), p);
    CongSym(Pow(g, q), Pow(g, q + d), p);
    CongTrans(Pow(g, d), Pow(g, q + d), Pow(g, q), p);
    CongTrans(Pow(g, d), Pow(g, q), 1, p);
  }

  /** Under one commitment, key and message the verifier accepts at most one response, so any
      altered response is rejected. */
  lemma ResponseUnique(h: Hash, grp: Group, publicKey: nat, message: bytes, r: int, s: int, s': int)
    requires ValidGroup(grp) && !Cong(grp.g, 1, grp.p)
    requires Verify(h, grp, publicKey, message, Signature(r, s))
    requires Verify(h, grp, publicKey, message, Signature(r, s'))
    ensures s == s'
  {
    if s <= s' { ExponentUnique(grp.g, grp.p, grp.q, s, s'); } else { ExponentUnique(grp.g, grp.p, grp.q, s', s); }
  }
}
