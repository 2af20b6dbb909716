/** FROST threshold Schnorr signatures: trusted-dealer Shamir shares, two-nonce commitments,
    partial signatures, aggregation, and plain Schnorr verification. */
module Frost {
  import opened Collections
  import opened ModArith
  import opened Bytes
  import opened Lagrange

  /** The Schnorr group: g has prime order q modulo p. */
  datatype Group = Group(p: int, q: int, g: int)

  ghost predicate ValidGroup(grp: Group) {
    grp.p >= 2 && Prime(grp.q) && Cong(Pow(grp.g, grp.q), 1, grp.p)
  }

  predicate Moduli(grp: Group) {
    grp.p >= 2 && grp.q >= 2
  }

  datatype FrostShare = FrostShare(index: nat, secretShare: int, groupPublicKey: nat)
  datatype NonceCommitment = NonceCommitment(index: nat, dCommit: nat, eCommit: nat)
  datatype NonceWitness = NonceWitness(index: nat, d: nat, e: nat)
  datatype SignatureShare = SignatureShare(index: nat, z: int)
  datatype Signature = Signature(rCommit: int, s: int)

  // ---------- key generation ----------

  /** Horner's rule in Z_q. */
  function EvaluateMod(c: seq<int>, x: int, q: int): int
    requires q >= 1
  {
    if c == [] then 0 else (EvaluateMod(c[1..], x, q) * x + c[0]) % q
  }

  function ShamirShares(c: seq<int>, n: nat, q: int): seq<(nat, int)>
    requires q >= 1
  {
    if n == 0 then [] else ShamirShares(c, n - 1, q) + [(n, EvaluateMod(c, n, q))]
  }

  method EvaluateByHorner(c: seq<int>, x: int, q: int) returns (y: int)
    requires q >= 1
    ensures y == EvaluateMod(c, x, q)
  {
    y := 0;
    var i := |c|;
    while i > 0
      invariant 0 <= i <= |c| && y == EvaluateMod(c[i..], x, q)
    {
      assert c[i - 1..][1..] == c[i..];
      i := i - 1;
      y := (y * x + c[i]) % q;
    }
    assert c[0..] == c;
  }

  method ShamirSplit(c: seq<int>, n: nat, q: int) returns (out: seq<(nat, int)>)
    requires q >= 1
    ensures out == ShamirShares(c, n, q)
  {
    out := [];
    for x := 1 to n + 1
      invariant out == ShamirShares(c, x - 1, q)
    {
      var y := EvaluateByHorner(c, x, q);
      out := out + [(x, y)];
    }
  }

  function DealtShares(raw: seq<(nat, int)>, publicKey: nat): seq<FrostShare> {
    seq(|raw|, i requires 0 <= i < |raw| => FrostShare(raw[i].0, raw[i].1, publicKey))
  }

  /** The random secret and polynomial tail are inputs; None is the FROSTError of a threshold
      outside 1..n. */
  method Keygen(grp: Group, n: int, t: int, secret: nat, tail: seq<int>) returns (r: Option<seq<FrostShare>>)
    requires Moduli(grp) && (1 <= t <= n ==> |tail| == t - 1)
    ensures r.Some? <==> 1 <= t <= n
    ensures r.Some? ==>
      r.value == DealtShares(ShamirShares([secret % grp.q] + tail, n, grp.q), PowMod(grp.g, secret, grp.p))
  {
    if !(1 <= t <= n) { return None; }
    var raw := ShamirSplit([secret % grp.q] + tail, n, grp.q);
    return Some(DealtShares(raw, PowMod(grp.g, secret, grp.p)));
  }

  // ---------- nonces ----------

  function CommitNonces(grp: Group, w: NonceWitness): NonceCommitment
    requires Moduli(grp)
  {
    NonceCommitment(w.index, PowMod(grp.g, w.d, grp.p), PowMod(grp.g, w.e, grp.p))
  }

  // ---------- hashes ----------

  function EncodeCommitments(cs: seq<NonceCommitment>): bytes {
    if cs == [] then []
    else
      ToBytes(cs[0].index, 4) + ToBytes(cs[0].dCommit, 256) + ToBytes(cs[0].eCommit, 256)
        + EncodeCommitments(cs[1..])
  }

  function BindingFactor(h: Hash, q: int, index: nat, message: bytes, cs: seq<NonceCommitment>): (rho: nat)
    requires q >= 2
    ensures rho < q
  {
    FromBytes(h(Ascii("penumbra-frost-rho-v1") + ToBytes(index, 4) + message + EncodeCommitments(cs))) % q
  }

  function ChallengeOf(h: Hash, q: int, publicKey: nat, rCommit: nat, message: bytes): (c: nat)
    requires q >= 2
    ensures c < q
  {
    FromBytes(h(Ascii("penumbra-frost-challenge-v1") + ToBytes(rCommit, 256) + ToBytes(publicKey, 256) + message)) % q
  }

  /** The product of D_i * E_i^rho_i over a prefix, reduced at every step. */
  function GroupProduct(h: Hash, grp: Group, message: bytes, cs: seq<NonceCommitment>, k: nat): (r: nat)
    requires Moduli(grp) && k <= |cs|
    ensures r < grp.p
  {
    if k == 0 then 1
    else
      var c := cs[k - 1];
      (GroupProduct(h, grp, message, cs, k - 1) * c.dCommit
        * PowMod(c.eCommit, BindingFactor(h, grp.q, c.index, message, cs), grp.p)) % grp.p
  }

  method GroupCommitment(h: Hash, grp: Group, message: bytes, cs: seq<NonceCommitment>) returns (r: nat)
    requires Moduli(grp)
    ensures r == GroupProduct(h, grp, message, cs, |cs|)
  {
    r := 1;
    for k := 0 to |cs|
      invariant r == GroupProduct(h, grp, message, cs, k)
    {
      var rho := BindingFactor(h, grp.q, cs[k].index, message, cs);
      r := (r * cs[k].dCommit * PowMod(cs[k].eCommit, rho, grp.p)) % grp.p;
    }
  }

  // ---------- signing ----------

  function Indices(cs: seq<NonceCommitment>): (r: seq<int>)
    ensures |r| == |cs|
  {
    seq(|cs|, i requires 0 <= i < |cs| => cs[i].index)
  }

  /** z_i = d_i + e_i rho_i + lambda_i s_i c mod q. */
  function ShareOf(h: Hash, grp: Group, share: FrostShare, w: NonceWitness, message: bytes,
                   cs: seq<NonceCommitment>): SignatureShare
    requires Moduli(grp)
  {
    var rho := BindingFactor(h, grp.q, share.index, message, cs);
    var c := ChallengeOf(h, grp.q, share.groupPublicKey, GroupProduct(h, grp, message, cs, |cs|), message);
    var lambda := Coefficient(share.index, Indices(cs), grp.q);
    SignatureShare(share.index, (w.d + w.e * rho + lambda * share.secretShare * c) % grp.q)
  }

  /** None is a FROSTError: disagreeing indices or a signer outside the active set. */
  method SignShare(h: Hash, grp: Group, share: FrostShare, w: NonceWitness, message: bytes, cs: seq<NonceCommitment>)
    returns (r: Option<SignatureShare>)
    requires Moduli(grp)
    ensures r == if share.index == w.index && share.index in Indices(cs)
                 then Some(ShareOf(h, grp, share, w, message, cs)) else None
  {
    if share.index != w.index || share.index !in Indices(cs) { return None; }
    var rho := BindingFactor(h, grp.q, share.index, message, cs);
    var groupCommit := GroupCommitment(h, grp, message, cs);
    var c := ChallengeOf(h, grp.q, share.groupPublicKey, groupCommit, message);
    var lambda := LagrangeCoefficient(share.index, Indices(cs), grp.q);
    return Some(SignatureShare(share.index, (w.d + w.e * rho + lambda * share.secretShare * c) % grp.q));
  }

  function SumOfShares(shares: seq<SignatureShare>, q: int): int
    requires q >= 2
  {
    if shares == [] then 0
    else (SumOfShares(shares[..|shares| - 1], q) + shares[|shares| - 1].z) % q
  }

  function ShareIndices(shares: seq<SignatureShare>): set<nat> {
    set s | s in shares :: s.index
  }

  function SignerIndices(cs: seq<NonceCommitment>): set<nat> {
    set c | c in cs :: c.index
  }

  function AggregateSpec(h: Hash, grp: Group, shares: seq<SignatureShare>, cs: seq<NonceCommitment>, message: bytes)
    : Option<Signature>
    requires Moduli(grp)
  {
    if ShareIndices(shares) != SignerIndices(cs) then None
    else Some(Signature(GroupProduct(h, grp, message, cs, |cs|), SumOfShares(shares, grp.q)))
  }

  /** None is the FROSTError of shares and commitments from different signers. */
  method Aggregate(h: Hash, grp: Group, shares: seq<SignatureShare>, cs: seq<NonceCommitment>, message: bytes)
    returns (r: Option<Signature>)
    requires Moduli(grp)
    ensures r == AggregateSpec(h, grp, shares, cs, message)
  {
    if ShareIndices(shares) != SignerIndices(cs) { return None; }
    var rCommit := GroupCommitment(h, grp, message, cs);
    var total := 0;
    for k := 0 to |shares|
      invariant total == SumOfShares(shares[..k], grp.q)
    {
      assert shares[..k + 1][..k] == shares[..k];
      total := (total + shares[k].z) % grp.q;
    }
    assert shares[..|shares|] == shares;
    return Some(Signature(rCommit, total));
  }

  // ---------- verification ----------

  /** Plain Schnorr: g^s = R * Y^c, on reduced components. */
  predicate Verify(h: Hash, grp: Group, publicKey: nat, message: bytes, sig: Signature)
    requires Moduli(grp)
  {
    && 0 < sig.rCommit < grp.p
    && 0 <= sig.s < grp.q
    && var c := ChallengeOf(h, grp.q, publicKey, sig.rCommit, message);
       PowMod(grp.g, sig.s, grp.p) == (sig.rCommit * PowMod(publicKey, c, grp.p)) % grp.p
  }
}
