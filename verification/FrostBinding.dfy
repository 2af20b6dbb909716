/** What FROST signatures and binding factors are tied to: the challenge to commitment, key and message,
    and the factor to signer, message and commitments. */
module FrostBinding {
  import opened Collections
  import opened ModArith
  import opened Bytes
  import opened Frost
  import opened FrostTheorems

  // ---------- preimages ----------

  /** Tag, commitment and key in 256 bytes each, and the message last. */
  function ChallengeInput(publicKey: nat, rCommit: nat, message: bytes): bytes {
    Ascii("penumbra-frost-challenge-v1") + (ToBytes(rCommit, 256) + (ToBytes(publicKey, 256) + message))
  }

  /** Tag, signer in four bytes, the message, and the encoded commitments last. */
  function FactorInput(index: nat, message: bytes, cs: seq<NonceCommitment>): bytes {
    Ascii("penumbra-frost-rho-v1") + (ToBytes(index, 4) + (message + EncodeCommitments(cs)))
  }

  /** Numbers within the widths that the encodings give them. */
  predicate Encodable(c: NonceCommitment) {
    c.index < Pow(256, 4) && c.dCommit < Pow(256, 256) && c.eCommit < Pow(256, 256)
  }

  lemma ChallengeInputInjective(pk: nat, r: nat, m: bytes, pk': nat, r': nat, m': bytes)
    requires pk < Pow(256, 256) && pk' < Pow(256, 256) && r < Pow(256, 256) && r' < Pow(256, 256)
    requires ChallengeInput(pk, r, m) == ChallengeInput(pk', r', m')
    ensures pk == pk' && r == r' && m == m'
  {
    hide Pow, Ascii, ToBytes;
    var tag := Ascii("penumbra-frost-challenge-v1");
    ConcatInjective(tag, ToBytes(r, 256) + (ToBytes(pk, 256) + m), tag, ToBytes(r', 256) + (ToBytes(pk', 256) + m'));
    ConcatInjective(ToBytes(r, 256), ToBytes(pk, 256) + m, ToBytes(r', 256), ToBytes(pk', 256) + m');
    ConcatInjective(ToBytes(pk, 256), m, ToBytes(pk', 256), m');
    ToBytesInjective(r, r', 256);
    ToBytesInjective(pk, pk', 256);
  }

  lemma {:induction false} EncodingLength(cs: seq<NonceCommitment>)
    ensures |EncodeCommitments(cs)| == 516 * |cs|
  {
    hide ToBytes;
    if cs != [] {
      EncodingLength(cs[1..]);
    }
  }

  lemma FirstCommitment(c: NonceCommitment, rest: bytes, d: NonceCommitment, more: bytes)
    requires Encodable(c) && Encodable(d)
    requires ToBytes(c.index, 4) + ToBytes(c.dCommit, 256) + ToBytes(c.eCommit, 256) + rest
          == ToBytes(d.index, 4) + ToBytes(d.dCommit, 256) + ToBytes(d.eCommit, 256) + more
    ensures c == d && rest == more
  {
    hide Pow, ToBytes;
    ConcatInjective(ToBytes(c.index, 4) + ToBytes(c.dCommit, 256) + ToBytes(c.eCommit, 256), rest,
                    ToBytes(d.index, 4) + ToBytes(d.dCommit, 256) + ToBytes(d.eCommit, 256), more);
    ConcatInjective(ToBytes(c.index, 4) + ToBytes(c.dCommit, 256), ToBytes(c.eCommit, 256),
                    ToBytes(d.index, 4) + ToBytes(d.dCommit, 256), ToBytes(d.eCommit, 256));
    ConcatInjective(ToBytes(c.index, 4), ToBytes(c.dCommit, 256), ToBytes(d.index, 4), ToBytes(d.dCommit, 256));
    ToBytesInjective(c.index, d.index, 4);
    ToBytesInjective(c.dCommit, d.dCommit, 256);
    ToBytesInjective(c.eCommit, d.eCommit, 256);
  }

  lemma {:induction false} EncodingInjective(cs: seq<NonceCommitment>, ds: seq<NonceCommitment>)
    requires EncodeCommitments(cs) == EncodeCommitments(ds)
    requires forall c :: c in cs || c in ds ==> Encodable(c)
    ensures cs == ds
  {
    hide ToBytes, Encodable;
    EncodingLength(cs);
    EncodingLength(ds);
    if cs != [] {
      assert cs[0] in cs && ds[0] in ds;
      FirstCommitment(cs[0], EncodeCommitments(cs[1..]), ds[0], EncodeCommitments(ds[1..]));
      EncodingInjective(cs[1..], ds[1..]);
      assert cs == [cs[0]] + cs[1..] && ds == [ds[0]] + ds[1..];
    }
  }

  lemma TaggedPair(i: nat, x: bytes, j: nat, y: bytes)
    requires i < Pow(256, 4) && j < Pow(256, 4)
    requires Ascii("penumbra-frost-rho-v1") + (ToBytes(i, 4) + x)
          == Ascii("penumbra-frost-rho-v1") + (ToBytes(j, 4) + y)
    ensures i == j && x == y
  {
    hide *;
    var tag := Ascii("penumbra-frost-rho-v1");
    ConcatInjective(tag, ToBytes(i, 4) + x, tag, ToBytes(j, 4) + y);
    ConcatInjective(ToBytes(i, 4), x, ToBytes(j, 4), y);
    ToBytesInjective(i, j, 4);
  }

  lemma FactorInputs(i: nat, m: bytes, cs: seq<NonceCommitment>, j: nat, m': bytes, ds: seq<NonceCommitment>)
    requires FactorInput(i, m, cs) == FactorInput(j, m', ds)
    ensures Ascii("penumbra-frost-rho-v1") + (ToBytes(i, 4) + (m + EncodeCommitments(cs)))
         == Ascii("penumbra-frost-rho-v1") + (ToBytes(j, 4) + (m' + EncodeCommitments(ds)))
  {}

  lemma FactorInputInjective(i: nat, m: bytes, cs: seq<NonceCommitment>, j: nat, m': bytes, ds: seq<NonceCommitment>)
    requires i < Pow(256, 4) && j < Pow(256, 4) && forall c :: c in cs || c in ds ==> Encodable(c)
    requires FactorInput(i, m, cs) == FactorInput(j, m', ds)
    ensures i == j && m + EncodeCommitments(cs) == m' + EncodeCommitments(ds)
    ensures |cs| == |ds| ==> m == m' && cs == ds
  {
    hide *;
    FactorInputs(i, m, cs, j, m', ds);
    TaggedPair(i, m + EncodeCommitments(cs), j, m' + EncodeCommitments(ds));
    if |cs| == |ds| {
      EncodingLength(cs);
      EncodingLength(ds);
      ConcatInjective(m, EncodeCommitments(cs), m', EncodeCommitments(ds));
      EncodingInjective(cs, ds);
    }
  }

  lemma {:induction false} EncodingAppends(cs: seq<NonceCommitment>, ds: seq<NonceCommitment>)
    ensures EncodeCommitments(cs + ds) == EncodeCommitments(cs) + EncodeCommitments(ds)
  {
    hide ToBytes;
    if cs == [] {
      assert cs + ds == ds;
    } else {
      EncodingAppends(cs[1..], ds);
      assert (cs + ds)[1..] == cs[1..] + ds;
      var c := cs[0];
      var head := ToBytes(c.index, 4) + ToBytes(c.dCommit, 256) + ToBytes(c.eCommit, 256);
      assert EncodeCommitments(cs + ds) == head + EncodeCommitments(cs[1..] + ds);
      assert EncodeCommitments(cs) == head + EncodeCommitments(cs[1..]);
    }
  }

  // ---------- challenges and binding factors ----------

  /** No collision among digests is none modulo q either, when q exceeds every digest. */
  lemma DigestsBelow(h: Hash, inputs: set<bytes>, q: int)
    requires Digests(h) && InjectiveOn(h, inputs) && q >= Pow(256, 32)
    ensures q > 0 && InjectiveModulo(h, inputs, q)
  {
    hide Pow, FromBytes;
    PowPositive(256, 32);
    forall x, y | x in inputs && y in inputs && FromBytes(h(x)) % q == FromBytes(h(y)) % q ensures x == y {
      FromBytesBound(h(x));
      FromBytesBound(h(y));
      ModSmall(FromBytes(h(x)), q);
      ModSmall(FromBytes(h(y)), q);
      FromBytesInjective(h(x), h(y));
    }
  }

  lemma ChallengeIsInput(h: Hash, q: int, pk: nat, r: nat, m: bytes)
    requires q >= 2
    ensures ChallengeOf(h, q, pk, r, m) == FromBytes(h(ChallengeInput(pk, r, m))) % q
  {
    hide Ascii, ToBytes, FromBytes;
    var tag, a, b := Ascii("penumbra-frost-challenge-v1"), ToBytes(r, 256), ToBytes(pk, 256);
    assert tag + a + b + m == tag + (a + (b + m));
  }

  lemma FactorIsInput(h: Hash, q: int, i: nat, m: bytes, cs: seq<NonceCommitment>)
    requires q >= 2
    ensures BindingFactor(h, q, i, m, cs) == FromBytes(h(FactorInput(i, m, cs))) % q
  {
    hide Ascii, ToBytes, FromBytes, EncodeCommitments;
    var tag, a, b := Ascii("penumbra-frost-rho-v1"), ToBytes(i, 4), EncodeCommitments(cs);
    assert tag + a + m + b == tag + (a + (m + b));
  }

  /** One challenge belongs to one key, one commitment and one message. */
  lemma ChallengeBinds(h: Hash, q: int, pk: nat, r: nat, m: bytes, pk': nat, r': nat, m': bytes)
    requires Digests(h) && q >= Pow(256, 32) && q >= 2
    requires pk < Pow(256, 256) && pk' < Pow(256, 256) && r < Pow(256, 256) && r' < Pow(256, 256)
    requires InjectiveOn(h, {ChallengeInput(pk, r, m), ChallengeInput(pk', r', m')})
    ensures ChallengeOf(h, q, pk, r, m) == ChallengeOf(h, q, pk', r', m') <==> pk == pk' && r == r' && m == m'
  {
    hide Pow, ChallengeInput, ChallengeOf, FromBytes;
    var x, y := ChallengeInput(pk, r, m), ChallengeInput(pk', r', m');
    DigestsBelow(h, {x, y}, q);
    ChallengeIsInput(h, q, pk, r, m);
    ChallengeIsInput(h, q, pk', r', m');
    if x == y { ChallengeInputInjective(pk, r, m, pk', r', m'); }
  }

  /** One binding factor belongs to one signer, one message and one list of commitments, among lists of
      one length, such as those of one session. */
  lemma FactorBinds(h: Hash, q: int, i: nat, m: bytes, cs: seq<NonceCommitment>,
                    j: nat, m': bytes, ds: seq<NonceCommitment>)
    requires Digests(h) && q >= Pow(256, 32) && q >= 2 && i < Pow(256, 4) && j < Pow(256, 4)
    requires forall c :: c in cs || c in ds ==> Encodable(c)
    requires InjectiveOn(h, {FactorInput(i, m, cs), FactorInput(j, m', ds)}) && |cs| == |ds|
    ensures BindingFactor(h, q, i, m, cs) == BindingFactor(h, q, j, m', ds) <==> i == j && m == m' && cs == ds
  {
    hide Pow, FactorInput, BindingFactor, FromBytes, Encodable;
    var x, y := FactorInput(i, m, cs), FactorInput(j, m', ds);
    DigestsBelow(h, {x, y}, q);
    FactorIsInput(h, q, i, m, cs);
    FactorIsInput(h, q, j, m', ds);
    if x == y { FactorInputInjective(i, m, cs, j, m', ds); }
  }

  /** Across lists of different lengths it does not: commitments at the front of the list can as well be
      the end of the message, under any hash. */
  lemma FactorShifts(h: Hash, q: int, i: nat, m: bytes, cs: seq<NonceCommitment>, ds: seq<NonceCommitment>)
    requires q >= 2
    ensures BindingFactor(h, q, i, m, cs + ds) == BindingFactor(h, q, i, m + EncodeCommitments(cs), ds)
  {
    hide FromBytes, FactorInput, BindingFactor, EncodeCommitments;
    FactorIsInput(h, q, i, m, cs + ds);
    FactorIsInput(h, q, i, m + EncodeCommitments(cs), ds);
    EncodingAppends(cs, ds);
    SameFactorInput(i, m, cs, ds);
  }

  lemma SameFactorInput(i: nat, m: bytes, cs: seq<NonceCommitment>, ds: seq<NonceCommitment>)
    requires EncodeCommitments(cs + ds) == EncodeCommitments(cs) + EncodeCommitments(ds)
    ensures FactorInput(i, m, cs + ds) == FactorInput(i, m + EncodeCommitments(cs), ds)
  {
    hide ToBytes, Ascii, EncodeCommitments;
    var a, b := EncodeCommitments(cs), EncodeCommitments(ds);
    assert m + (a + b) == (m + a) + b;
  }

  // ---------- signatures ----------

  /** The verifier's equation ties the response to the power of the key, so with an invertible commitment
      two accepting challenges raise the key to congruent powers. */
  lemma SameKeyPower(grp: Group, y: nat, r: int, inverse: int, s: nat, c: nat, c': nat)
    requires Moduli(grp) && Cong(r * inverse, 1, grp.p)
    requires PowMod(grp.g, s, grp.p) == (r * PowMod(y, c, grp.p)) % grp.p
    requires PowMod(grp.g, s, grp.p) == (r * PowMod(y, c', grp.p)) % grp.p
    ensures Cong(Pow(y, c), Pow(y, c'), grp.p)
  {
    hide Pow;
    var p, u, v := grp.p, PowMod(y, c, grp.p), PowMod(y, c', grp.p);
    CongReflexive(inverse, p);
    CongMul(r * u, r * v, inverse, inverse, p);
    CancelInverse(r, inverse, u, p);
    CancelInverse(r, inverse, v, p);
    CongMod(Pow(y, c), p);
    CongMod(Pow(y, c'), p);
  }

  lemma CancelInverse(r: int, inverse: int, u: int, p: int)
    requires p > 0 && Cong(r * inverse, 1, p)
    ensures Cong(r * u * inverse, u, p)
  {
    hide Cong;
    assert r * u * inverse == (r * inverse) * u;
    CongReflexive(u, p);
    CongMul(r * inverse, 1, u, u, p);
  }

  /** A signature is about one message: under a key of order q and with an invertible commitment, the
      verifier accepts it for no other. */
  lemma SignatureBinds(h: Hash, grp: Group, publicKey: nat, inverse: int, sig: Signature, m: bytes, m': bytes)
    requires ValidGroup(grp) && Pow(256, 32) <= grp.q && grp.p <= Pow(256, 256) && publicKey < grp.p
    requires Cong(Pow(publicKey, grp.q), 1, grp.p) && !Cong(publicKey, 1, grp.p)
    requires Cong(sig.rCommit * inverse, 1, grp.p)
    requires Verify(h, grp, publicKey, m, sig) && Verify(h, grp, publicKey, m', sig) && Digests(h)
    requires InjectiveOn(h, {ChallengeInput(publicKey, sig.rCommit, m), ChallengeInput(publicKey, sig.rCommit, m')})
    ensures m == m'
  {
    hide Cong, Pow, ChallengeInput, ChallengeOf, Prime;
    PrimeBound(grp.q);
    var c, c' := ChallengeOf(h, grp.q, publicKey, sig.rCommit, m), ChallengeOf(h, grp.q, publicKey, sig.rCommit, m');
    SameKeyPower(grp, publicKey, sig.rCommit, inverse, sig.s, c, c');
    SameExponent(publicKey, grp.p, grp.q, c, c');
    ChallengeBinds(h, grp.q, publicKey, sig.rCommit, m, publicKey, sig.rCommit, m');
  }

  lemma SameExponent(y: int, p: int, q: int, a: nat, b: nat)
    requires p >= 2 && Prime(q) && a < q && b < q && Cong(Pow(y, q), 1, p) && !Cong(y, 1, p)
    requires Cong(Pow(y, a), Pow(y, b), p)
    ensures a == b
  {
    if a <= b { ExponentUnique(y, p, q, a, b); } else { ExponentUnique(y, p, q, b, a); }
  }

  /** A power of g has order q, and is not one unless its exponent is a multiple of q. */
  lemma KeyOrder(grp: Group, secret: nat)
    requires ValidGroup(grp) && !Cong(grp.g, 1, grp.p) && secret % grp.q != 0
    ensures var y := PowMod(grp.g, secret, grp.p);
      0 <= y < grp.p && Cong(Pow(y, grp.q), 1, grp.p) && !Cong(y, 1, grp.p)
  {
    hide Cong, Pow, Prime;
    var g, p, q := grp.g, grp.p, grp.q;
    PrimeBound(q);
    CongMod(Pow(g, secret), p);
    CongPow(PowMod(g, secret, p), Pow(g, secret), q, p);
    PowMul(g, secret, q);
    PowMul(g, q, secret);
    MulCommutes(q, secret);
    CongPow(Pow(g, q), 1, secret, p);
    PowOne(secret);
    CongTrans(Pow(PowMod(g, secret, p), q), Pow(g, secret * q), 1, p);
    if Cong(PowMod(g, secret, p), 1, p) {
      CongSym(PowMod(g, secret, p), Pow(g, secret), p);
      CongTrans(Pow(g, secret), PowMod(g, secret, p), 1, p);
      PowModOrder(g, p, q, secret);
      CongSym(Pow(g, secret), Pow(g, secret % q), p);
      CongTrans(Pow(g, secret % q), Pow(g, secret), 1, p);
      OrderDescent(g, p, q, secret % q);
    }
  }

  lemma MulCommutes(a: int, b: int)
    ensures a * b == b * a
  {}

  lemma PowerInvertible(g: int, p: int, q: int, r: int, k: nat) returns (inverse: int)
    requires p >= 2 && q >= 2 && Cong(Pow(g, q), 1, p) && Cong(r, Pow(g, k), p)
    ensures Cong(r * inverse, 1, p)
  {
    hide Cong, Pow;
    var m := k * (q - 1);
    inverse := Pow(g, m);
    PowAdd(g, k, m);
    assert k + m == q * k;
    PowMul(g, q, k);
    CongPow(Pow(g, q), 1, k, p);
    PowOne(k);
    CongReflexive(inverse, p);
    CongMul(r, Pow(g, k), inverse, inverse, p);
    CongTrans(r * inverse, Pow(g, q * k), 1, p);
  }

  /** What an honest session produces is a signature of its message alone, and with its response alone:
      any other message and any other response are rejected. */
  lemma HonestSignatureBinds(h: Hash, s: Session, shares: seq<SignatureShare>, m': bytes, response: int)
    requires ValidSession(s) && multiset(shares) == multiset(HonestShares(h, s)) && Digests(h)
    requires s.secret % s.grp.q != 0 && !Cong(s.grp.g, 1, s.grp.p)
    requires Pow(256, 32) <= s.grp.q && s.grp.p <= Pow(256, 256)
    requires var r := GroupProduct(h, s.grp, s.message, Commitments(s), |s.ws|);
      InjectiveOn(h, {ChallengeInput(PublicKey(s), r, s.message), ChallengeInput(PublicKey(s), r, m')})
    ensures var made := AggregateSpec(h, s.grp, shares, Commitments(s), s.message);
      && made.Some?
      && (Verify(h, s.grp, PublicKey(s), m', made.value) <==> m' == s.message)
      && (Verify(h, s.grp, PublicKey(s), s.message, made.value.(s := response)) <==> response == made.value.s)
  {
    hide Cong, Pow, Prime, HonestShares, Dealt, Commitments, GroupProduct, SumOfShares, ChallengeInput, InjectiveOn,
      ChallengeOf, Nonces;
    ThresholdSignatureVerifies(h, s, shares);
    var made := AggregateSpec(h, s.grp, shares, Commitments(s), s.message).value;
    KeyOrder(s.grp, s.secret);
    GroupProductIsPower(h, s, |s.ws|);
    var nonces := Nonces(h, s);
    var inverse := PowerInvertible(s.grp.g, s.grp.p, s.grp.q, made.rCommit, SumOf(nonces[..|s.ws|]));
    if Verify(h, s.grp, PublicKey(s), m', made) {
      SignatureBinds(h, s.grp, PublicKey(s), inverse, made, s.message, m');
    }
    if Verify(h, s.grp, PublicKey(s), s.message, made.(s := response)) {
      ResponseUnique(h, s.grp, PublicKey(s), s.message, made.rCommit, made.s, response);
    }
  }

  ghost predicate Signs(shares: seq<SignatureShare>, i: nat) {
    exists s :: s in shares && s.index == i
  }

  ghost predicate Commits(cs: seq<NonceCommitment>, i: nat) {
    exists c :: c in cs && c.index == i
  }

  /** The aggregator accepts shares exactly when the participants that sign are those that committed. */
  lemma AggregateExactly(
      h: Hash, grp: Group, shares: seq<SignatureShare>, cs: seq<NonceCommitment>, message: bytes)
    requires Moduli(grp)
    ensures AggregateSpec(h, grp, shares, cs, message).Some? <==> forall i: nat :: Signs(shares, i) <==> Commits(cs, i)
  {
    hide GroupProduct, SumOfShares, Signs, Commits, ShareIndices, SignerIndices;
    var a, b := ShareIndices(shares), SignerIndices(cs);
    forall i: nat ensures (i in a <==> Signs(shares, i)) && (i in b <==> Commits(cs, i)) {
      Participants(shares, cs, i);
    }
    if forall i: nat :: Signs(shares, i) <==> Commits(cs, i) {
      assert forall i: nat :: i in a <==> i in b;
      assert a == b;
    }
  }

  lemma Participants(shares: seq<SignatureShare>, cs: seq<NonceCommitment>, i: nat)
    ensures i in ShareIndices(shares) <==> Signs(shares, i)
    ensures i in SignerIndices(cs) <==> Commits(cs, i)
  {}
}
