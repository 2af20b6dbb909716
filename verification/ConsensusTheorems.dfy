/** Two conflicting finalisations always convict: their signers overlap in at least 2*threshold - T
    of the stake, and each signer in the overlap can be slashed on the strength of the two lists. */
module ConsensusTheorems {
  import opened Collections
  import opened Bytes
  import opened ModArith
  import opened Consensus

  ghost function Elements(s: seq<bytes>): set<bytes> {
    set x | x in s
  }

  // ---------- weights of sets ----------

  lemma TakeOut(a: set<bytes>, b: set<bytes>, k: bytes)
    requires k in a
    ensures (a - {k}) + b == if k in b then a + b else a + b - {k}
    ensures (a - {k}) * b == if k in b then a * b - {k} else a * b
  {}

  lemma {:induction false} InclusionExclusion(stakes: map<bytes, int>, a: set<bytes>, b: set<bytes>)
    ensures SetWeight(stakes, a) + SetWeight(stakes, b) == SetWeight(stakes, a + b) + SetWeight(stakes, a * b)
    decreases |a|
  {
    if a == {} {
      assert a + b == b && a * b == {};
    } else {
      var k :| k in a;
      hide SetWeight;
      InclusionExclusion(stakes, a - {k}, b);
      TakeOut(a, b, k);
      SetWeightRemove(stakes, a, k);
      if k in b {
        SetWeightRemove(stakes, a * b, k);
      } else {
        SetWeightRemove(stakes, a + b, k);
      }
    }
  }

  ghost predicate NonNegative(stakes: map<bytes, int>) {
    forall k :: k in stakes ==> stakes[k] >= 0
  }

  /** No set of keys, inside or outside the mapping, outweighs the whole mapping. */
  lemma {:induction false} WeightBounded(stakes: map<bytes, int>, keys: set<bytes>)
    requires NonNegative(stakes)
    ensures 0 <= SetWeight(stakes, keys) <= SetWeight(stakes, stakes.Keys)
    decreases |keys|
  {
    InclusionExclusion(stakes, keys, stakes.Keys - keys);
    WeightNonNegative(stakes, keys);
    WeightNonNegative(stakes, stakes.Keys - keys);
    assert keys * (stakes.Keys - keys) == {};
    assert keys + (stakes.Keys - keys) == stakes.Keys + (keys - stakes.Keys);
    InclusionExclusion(stakes, stakes.Keys, keys - stakes.Keys);
    assert stakes.Keys * (keys - stakes.Keys) == {};
    OutsidersWeighNothing(stakes, keys - stakes.Keys);
  }

  lemma {:induction false} WeightNonNegative(stakes: map<bytes, int>, keys: set<bytes>)
    requires NonNegative(stakes)
    ensures SetWeight(stakes, keys) >= 0
    decreases |keys|
  {
    if keys != {} {
      var k :| k in keys;
      SetWeightRemove(stakes, keys, k);
      WeightNonNegative(stakes, keys - {k});
    }
  }

  lemma {:induction false} OutsidersWeighNothing(stakes: map<bytes, int>, keys: set<bytes>)
    requires keys !! stakes.Keys
    ensures SetWeight(stakes, keys) == 0
    decreases |keys|
  {
    if keys != {} {
      var k :| k in keys;
      SetWeightRemove(stakes, keys, k);
      OutsidersWeighNothing(stakes, keys - {k});
    }
  }

  // ---------- what a finalisation says ----------

  /** The valid pairs are the submitted pairs that verify. */
  lemma {:induction false} ValidSubmitted(bls: Bls, message: bytes, signed: seq<Signed>)
    ensures forall p :: p in ValidOf(bls, message, signed) <==> p in signed && bls.verify(p.0, message, p.1)
  {
    if signed != [] {
      var front, last := signed[..|signed| - 1], signed[|signed| - 1];
      ValidSubmitted(bls, message, front);
      assert signed == front + [last];
    }
  }

  lemma {:induction false} ValidDistinct(bls: Bls, message: bytes, signed: seq<Signed>)
    requires Distinct(KeysOf(signed))
    ensures Distinct(KeysOf(ValidOf(bls, message, signed)))
  {
    if signed != [] {
      var front, last := signed[..|signed| - 1], signed[|signed| - 1];
      assert forall i :: 0 <= i < |front| ==> KeysOf(front)[i] == KeysOf(signed)[i];
      ValidDistinct(bls, message, front);
      ValidSubmitted(bls, message, front);
      var valid := ValidOf(bls, message, front);
      forall i | 0 <= i < |valid| ensures valid[i].0 != last.0 {
        assert valid[i] in front;
        var j :| 0 <= j < |front| && front[j] == valid[i];
        assert KeysOf(signed)[j] != KeysOf(signed)[|front|];
      }
      forall i, j | 0 <= i < j < |valid| ensures valid[i].0 != valid[j].0 {
        assert KeysOf(valid)[i] != KeysOf(valid)[j];
      }
    }
  }

  ghost predicate SignedBy(bls: Bls, message: bytes, signed: seq<Signed>, key: bytes, signature: bytes) {
    (key, signature) in signed && bls.verify(key, message, signature)
  }

  /** A finality bundle lists keys with submitted signatures that verify, as often as they were
      submitted, and meets the threshold. */
  lemma FinalityMeaning(
      bls: Bls, blockHash: bytes, height: int, signed: seq<Signed>, rule: Rule)
    returns (keys: seq<bytes>)
    requires FinaliseSpec(bls, blockHash, height, signed, rule).Finalised?
    ensures keys == FinaliseSpec(bls, blockHash, height, signed, rule).pubkeys
    ensures 0 <= height < HEIGHT_BOUND && rule.denominator != 0
    ensures Distinct(KeysOf(signed)) ==> Distinct(keys)
    ensures forall k :: k in keys ==> exists s :: SignedBy(bls, SignPayload(blockHash, height), signed, k, s)
    ensures Threshold(rule.numerator, TotalOf(rule.quorum, signed), rule.denominator)
         <= if rule.quorum.ByCount? then |keys| else Weight(rule.quorum.stakes, keys)
    ensures TotalOf(rule.quorum, signed) > 0
  {
    var message := SignPayload(blockHash, height);
    var valid := ValidOf(bls, message, signed);
    ValidSubmitted(bls, message, signed);
    if Distinct(KeysOf(signed)) { ValidDistinct(bls, message, signed); }
    keys := KeysOf(valid);
    forall k | k in keys ensures exists s :: SignedBy(bls, message, signed, k, s) {
      var i :| 0 <= i < |keys| && keys[i] == k;
      assert valid[i] in valid && valid[i] == (k, valid[i].1);
      assert SignedBy(bls, message, signed, k, valid[i].1);
    }
  }

  /** The scheme accepts only keys and signatures of the sizes it produces. */
  ghost predicate ChecksSizes(bls: Bls) {
    forall k, m, s :: bls.verify(k, m, s) ==> |k| == PUBLIC_KEY_BYTES && |s| == SIGNATURE_BYTES
  }

  /** The two submitted lists hold signatures of this key that convict it. */
  ghost predicate Convicted(
      bls: Bls, key: bytes, height: int, a: bytes, signedA: seq<Signed>, b: bytes, signedB: seq<Signed>)
  {
    exists s, t :: (key, s) in signedA && (key, t) in signedB
      && VerifyEvidence(bls, Evidence(key, height, a, s, b, t)) == Some(true)
  }

  lemma SharedSignerConvicted(
      bls: Bls, key: bytes, height: nat, a: bytes, signedA: seq<Signed>, b: bytes, signedB: seq<Signed>)
    requires ChecksSizes(bls) && a != b && height < HEIGHT_BOUND
    requires exists s :: SignedBy(bls, SignPayload(a, height), signedA, key, s)
    requires exists t :: SignedBy(bls, SignPayload(b, height), signedB, key, t)
    ensures Convicted(bls, key, height, a, signedA, b, signedB)
  {
    var s :| SignedBy(bls, SignPayload(a, height), signedA, key, s);
    var t :| SignedBy(bls, SignPayload(b, height), signedB, key, t);
    assert VerifyEvidence(bls, Evidence(key, height, a, s, b, t)) == Some(true);
  }

  /** The keys of a finality bundle. */
  ghost function Bundled(bls: Bls, blockHash: bytes, height: int, signed: seq<Signed>, rule: Rule): set<bytes>
    requires FinaliseSpec(bls, blockHash, height, signed, rule).Finalised?
  {
    Elements(FinaliseSpec(bls, blockHash, height, signed, rule).pubkeys)
  }

  lemma TwoThirds(total: int)
    ensures 3 * (2 * Threshold(2, total, 3) - total) >= total
  {}

  lemma WeightOverlap(stakes: map<bytes, int>, a: seq<bytes>, b: seq<bytes>, total: int, threshold: int)
    requires NonNegative(stakes) && CountedOnce(stakes, a) && CountedOnce(stakes, b)
      && SetWeight(stakes, stakes.Keys) <= total
    requires Weight(stakes, a) >= threshold && Weight(stakes, b) >= threshold
    ensures SetWeight(stakes, Elements(a) * Elements(b)) >= 2 * threshold - total
  {
    WeightOfRepeats(stakes, a);
    WeightOfRepeats(stakes, b);
    InclusionExclusion(stakes, Elements(a), Elements(b));
    WeightBounded(stakes, Elements(a) + Elements(b));
  }

  /** Accountable safety by stake: when two different blocks of one height are both finalised under
      the same stakes, no bundle counting a stake twice, the keys in both bundles carry at least
      2*threshold - T of the stake, which is at least T/3 at two thirds, and the submitted signatures
      convict every one of them. */
  lemma AccountableSafety(
      bls: Bls, a: bytes, b: bytes, height: int, signedA: seq<Signed>, signedB: seq<Signed>, rule: Rule)
    requires a != b && ChecksSizes(bls)
    requires rule.quorum.ByStake? && NonNegative(rule.quorum.stakes)
    requires SetWeight(rule.quorum.stakes, rule.quorum.stakes.Keys) <= TotalOf(rule.quorum, signedA)
    requires FinaliseSpec(bls, a, height, signedA, rule).Finalised?
    requires FinaliseSpec(bls, b, height, signedB, rule).Finalised?
    requires CountedOnce(rule.quorum.stakes, FinaliseSpec(bls, a, height, signedA, rule).pubkeys)
    requires CountedOnce(rule.quorum.stakes, FinaliseSpec(bls, b, height, signedB, rule).pubkeys)
    ensures rule.denominator != 0
    ensures var total := TotalOf(rule.quorum, signedA);
      var shared := Bundled(bls, a, height, signedA, rule) * Bundled(bls, b, height, signedB, rule);
      && SetWeight(rule.quorum.stakes, shared) >= 2 * Threshold(rule.numerator, total, rule.denominator) - total
      && (rule.numerator == 2 && rule.denominator == 3 ==> 3 * SetWeight(rule.quorum.stakes, shared) >= total > 0)
      && forall k :: k in shared ==> Convicted(bls, k, height, a, signedA, b, signedB)
  {
    var ka := FinalityMeaning(bls, a, height, signedA, rule);
    var kb := FinalityMeaning(bls, b, height, signedB, rule);
    hide FinaliseSpec, FloorDiv, SetWeight, SignPayload;
    var total := TotalOf(rule.quorum, signedA);
    WeightOverlap(rule.quorum.stakes, ka, kb, total, Threshold(rule.numerator, total, rule.denominator));
    TwoThirds(total);
    forall k | k in Elements(ka) * Elements(kb) ensures Convicted(bls, k, height, a, signedA, b, signedB) {
      SharedSignerConvicted(bls, k, height, a, signedA, b, signedB);
    }
  }

  /** The same by count, for bundles of distinct keys drawn from a known set of n validators. */
  lemma AccountableSafetyByCount(
      bls: Bls, a: bytes, b: bytes, height: int, signedA: seq<Signed>, signedB: seq<Signed>, rule: Rule,
      validators: set<bytes>)
    requires a != b && ChecksSizes(bls)
    requires rule.quorum == ByCount(Some(|validators|))
    requires FinaliseSpec(bls, a, height, signedA, rule).Finalised?
    requires FinaliseSpec(bls, b, height, signedB, rule).Finalised?
    requires Distinct(FinaliseSpec(bls, a, height, signedA, rule).pubkeys)
    requires Distinct(FinaliseSpec(bls, b, height, signedB, rule).pubkeys)
    requires Bundled(bls, a, height, signedA, rule) <= validators
      && Bundled(bls, b, height, signedB, rule) <= validators
    ensures rule.denominator != 0
    ensures var shared := Bundled(bls, a, height, signedA, rule) * Bundled(bls, b, height, signedB, rule);
      && |shared| >= 2 * Threshold(rule.numerator, |validators|, rule.denominator) - |validators|
      && (rule.numerator == 2 && rule.denominator == 3 ==> 3 * |shared| >= |validators| > 0)
      && forall k :: k in shared ==> Convicted(bls, k, height, a, signedA, b, signedB)
  {
    var ka := FinalityMeaning(bls, a, height, signedA, rule);
    var kb := FinalityMeaning(bls, b, height, signedB, rule);
    hide FinaliseSpec, FloorDiv, SetWeight, SignPayload;
    DistinctCount(ka);
    DistinctCount(kb);
    UnionCount(Elements(ka), Elements(kb), validators);
    TwoThirds(|validators|);
    forall k | k in Elements(ka) * Elements(kb) ensures Convicted(bls, k, height, a, signedA, b, signedB) {
      SharedSignerConvicted(bls, k, height, a, signedA, b, signedB);
    }
  }

  lemma {:induction false} DistinctCount(keys: seq<bytes>)
    requires Distinct(keys)
    ensures |Elements(keys)| == |keys|
  {
    if keys != [] {
      var front, last := keys[..|keys| - 1], keys[|keys| - 1];
      DistinctCount(front);
      assert Elements(keys) == Elements(front) + {last};
    }
  }

  lemma UnionCount(a: set<bytes>, b: set<bytes>, all: set<bytes>)
    requires a <= all && b <= all
    ensures |a| + |b| <= |all| + |a * b|
  {
    SubsetSize(a + b, all);
    assert |a + b| == |a| + |b| - |a * b|;
  }

  // ---------- repeated pairs ----------

  /** No key of positive stake is repeated. */
  ghost predicate CountedOnce(stakes: map<bytes, int>, keys: seq<bytes>) {
    forall i, j :: 0 <= i < j < |keys| && keys[i] == keys[j] ==> StakeOf(stakes, keys[i]) == 0
  }

  /** The loop adds a stake once per submitted pair, so the weight it reaches is the weight of the
      signers exactly when no key of positive stake is repeated, and exceeds it otherwise. */
  lemma {:induction false} WeightOfRepeats(stakes: map<bytes, int>, keys: seq<bytes>)
    requires NonNegative(stakes)
    ensures Weight(stakes, keys) >= SetWeight(stakes, Elements(keys))
    ensures Weight(stakes, keys) == SetWeight(stakes, Elements(keys)) <==> CountedOnce(stakes, keys)
  {
    if keys != [] {
      var front, last := keys[..|keys| - 1], keys[|keys| - 1];
      WeightOfRepeats(stakes, front);
      if last in front {
        assert Elements(keys) == Elements(front);
        var i :| 0 <= i < |front| && front[i] == last;
        assert keys[i] == keys[|front|];
      } else {
        SetWeightRemove(stakes, Elements(keys), last);
        assert Elements(keys) - {last} == Elements(front);
      }
    }
  }

  /** One of three equal stakeholders finalises alone by submitting its pair twice. */
  lemma RepeatedPairFinalises(bls: Bls, blockHash: bytes, a: bytes, b: bytes, c: bytes, s: bytes)
    requires a != b && b != c && a != c
    requires bls.verify(a, SignPayload(blockHash, 0), s)
    requires bls.fastAggregateVerify([a, a], SignPayload(blockHash, 0), bls.aggregate([s, s]))
    ensures var rule := Rule(2, 3, ByStake(map[a := 1, b := 1, c := 1], None));
      && FinaliseSpec(bls, blockHash, 0, [(a, s), (a, s)], rule) == Finalised([a, a], bls.aggregate([s, s]))
      && SetWeight(rule.quorum.stakes, Elements([a, a])) < Threshold(2, TotalOf(rule.quorum, [(a, s), (a, s)]), 3)
  {
    var stakes := map[a := 1, b := 1, c := 1];
    var signed := [(a, s), (a, s)];
    var message := SignPayload(blockHash, 0);
    SetWeightRemove(stakes, {a, b, c}, a);
    SetWeightRemove(stakes, {b, c}, b);
    SetWeightRemove(stakes, {c}, c);
    SetWeightRemove(stakes, {a}, a);
    assert stakes.Keys == {a, b, c} && {a, b, c} - {a} == {b, c} && {b, c} - {b} == {c};
    assert {c} - {c} == {} && {a} - {a} == {} && Elements([a, a]) == {a};
    assert signed[..1] == [(a, s)] && [(a, s)][..0] == [];
    assert ValidOf(bls, message, [(a, s)]) == [(a, s)];
    assert ValidOf(bls, message, signed) == signed;
    assert KeysOf(signed) == [a, a] && SignaturesOf(signed) == [s, s];
    assert [a, a][..1] == [a] && Weight(stakes, [a]) == 1 && Weight(stakes, [a, a]) == 2;
  }

  // ---------- the honest side ----------

  /** The signed bytes fix both the height and the block hash. */
  lemma PayloadBinds(a: bytes, heightA: nat, b: bytes, heightB: nat)
    requires heightA < HEIGHT_BOUND && heightB < HEIGHT_BOUND
    requires SignPayload(a, heightA) == SignPayload(b, heightB)
    ensures heightA == heightB && a == b
  {
    var tag := Ascii("penumbra-block-sig:v1|");
    assert SignPayload(a, heightA) == tag + (ToBytes(heightA, 8) + a);
    assert SignPayload(b, heightB) == tag + (ToBytes(heightB, 8) + b);
    ConcatInjective(tag, ToBytes(heightA, 8) + a, tag, ToBytes(heightB, 8) + b);
    ConcatInjective(ToBytes(heightA, 8), a, ToBytes(heightB, 8), b);
    WideBounds();
    ToBytesInjective(heightA, heightB, 8);
  }

  /** What a validator has put its name to: at most one block per height, and nothing else verifies. */
  ghost predicate SignsOncePerHeight(bls: Bls, key: bytes, voted: map<nat, bytes>) {
    forall m, s :: bls.verify(key, m, s) ==>
      exists h :: h in voted && h < HEIGHT_BOUND && m == SignPayload(voted[h], h)
  }

  /** No evidence convicts a validator that signs one block per height, whatever heights and hashes
      the evidence mixes. */
  lemma HonestNeverConvicted(bls: Bls, key: bytes, voted: map<nat, bytes>, e: Evidence)
    requires SignsOncePerHeight(bls, key, voted) && e.offender == key
    ensures VerifyEvidence(bls, e) != Some(true)
  {
    if WellFormed(e) && e.height < HEIGHT_BOUND {
      var ma, mb := SignPayload(e.blockA, e.height), SignPayload(e.blockB, e.height);
      if bls.verify(key, ma, e.sigA) && bls.verify(key, mb, e.sigB) {
        var x :| x in voted && x < HEIGHT_BOUND && ma == SignPayload(voted[x], x);
        var y :| y in voted && y < HEIGHT_BOUND && mb == SignPayload(voted[y], y);
        PayloadBinds(e.blockA, e.height, voted[x], x);
        PayloadBinds(e.blockB, e.height, voted[y], y);
      }
    }
  }
}
