/** Exactly when a count of signatures finalises, refuses or raises, and exactly when evidence convicts. */
module ConsensusOutcomes {
  import opened Collections
  import opened Bytes
  import opened ModArith
  import opened Consensus

  // ---------- the valid signatures ----------

  /** Filtering goes pair by pair, in order: what it keeps of two lists is what it keeps of each. */
  lemma {:induction false} ValidByParts(bls: Bls, message: bytes, a: seq<Signed>, b: seq<Signed>)
    ensures ValidOf(bls, message, a + b) == ValidOf(bls, message, a) + ValidOf(bls, message, b)
  {
    if b == [] {
      assert a + b == a;
    } else {
      var last := |b| - 1;
      ValidByParts(bls, message, a, b[..last]);
      assert (a + b)[..|a| + last] == a + b[..last];
    }
  }

  lemma ValidAlone(bls: Bls, message: bytes, s: Signed)
    ensures ValidOf(bls, message, [s]) == if bls.verify(s.0, message, s.1) then [s] else []
  {
    assert [s][..0] == [];
  }

  /** Every pair that verifies is kept as often as it was submitted, and no other. */
  lemma {:induction false} ValidExactly(bls: Bls, message: bytes, signed: seq<Signed>, s: Signed)
    ensures multiset(ValidOf(bls, message, signed))[s]
         == if bls.verify(s.0, message, s.1) then multiset(signed)[s] else 0
  {
    if signed != [] {
      var front, last := signed[..|signed| - 1], signed[|signed| - 1];
      ValidExactly(bls, message, front, s);
      assert signed == front + [last];
    }
  }

  // ---------- the threshold ----------

  /** The threshold is the least count that reaches the fraction of the total, for a denominator of either
      sign. */
  lemma ThresholdIsLeast(numerator: int, total: int, denominator: int)
    requires denominator != 0
    ensures var t := Threshold(numerator, total, denominator);
      if denominator > 0 then (t - 1) * denominator < numerator * total <= t * denominator
      else t * denominator <= numerator * total < (t - 1) * denominator
  {
    var want := numerator * total;
    assert -numerator * total == -want by { NegatedProduct(numerator, total); }
    if denominator > 0 {
      var q := -want / denominator;
      CeilingBounds(want, denominator, q);
    } else {
      var q := want / -denominator;
      assert -(-want) == want;
      FloorBounds(want, -denominator, q);
    }
  }

  lemma NegatedProduct(a: int, b: int)
    ensures -a * b == -(a * b)
  {}

  lemma CeilingBounds(want: int, d: int, q: int)
    requires d > 0 && q == -want / d
    ensures (-q - 1) * d < want <= -q * d
  {
    assert -want == q * d + -want % d;
  }

  lemma FloorBounds(want: int, d: int, q: int)
    requires d > 0 && q == want / d
    ensures -q * -d <= want < (-q - 1) * -d
  {
    assert want == q * d + want % d;
  }

  // ---------- finality ----------

  /** The count of signatures reaches the threshold of a total that is positive. */
  ghost predicate Reaches(rule: Rule, signed: seq<Signed>, valid: seq<Signed>) {
    var total := TotalOf(rule.quorum, signed);
    && total > 0 && rule.denominator != 0
    && Threshold(rule.numerator, total, rule.denominator)
       <= if rule.quorum.ByCount? then |valid| else Weight(rule.quorum.stakes, KeysOf(valid))
  }

  /** Every outcome of a count. It finalises, with the keys of all pairs that verify, exactly when the height fits in
      eight bytes, those pairs reach the threshold and their aggregate verifies; it raises exactly on a height that
      does not fit, a zero denominator under a positive total, or a threshold reached by no signature at all. */
  lemma OutcomeExactly(bls: Bls, blockHash: bytes, height: int, signed: seq<Signed>, rule: Rule)
    ensures var r := FinaliseSpec(bls, blockHash, height, signed, rule);
      if !(0 <= height < 0x1_0000_0000_0000_0000) then r == Raises
      else
        var message := SignPayload(blockHash, height);
        var valid := ValidOf(bls, message, signed);
        var aggregate := bls.aggregate(SignaturesOf(valid));
        && (r.Raises? <==>
              (TotalOf(rule.quorum, signed) > 0 && rule.denominator == 0)
              || (Reaches(rule, signed, valid) && valid == []))
        && (r.Finalised? <==>
              Reaches(rule, signed, valid) && valid != [] && bls.fastAggregateVerify(KeysOf(valid), message, aggregate))
        && (r.Finalised? ==> r.pubkeys == KeysOf(valid) && r.aggregate == aggregate)
  {
    hide ValidOf, Threshold, SignPayload, KeysOf, SignaturesOf, TotalOf, Weight;
  }

  /** Evidence convicts exactly when it names two different blocks at a height that fits, with a key and signatures of
      the scheme's sizes that verify over both; a height too large to encode raises. */
  lemma EvidenceExactly(bls: Bls, e: Evidence)
    ensures var shaped := e.blockA != e.blockB && e.height >= 0 && |e.offender| == 48 && |e.sigA| == |e.sigB| == 96;
      && (VerifyEvidence(bls, e).None? <==> shaped && e.height >= 0x1_0000_0000_0000_0000)
      && (VerifyEvidence(bls, e) == Some(true) <==>
            && shaped && e.height < 0x1_0000_0000_0000_0000
            && bls.verify(e.offender, Ascii("penumbra-block-sig:v1|") + ToBytes(e.height, 8) + e.blockA, e.sigA)
            && bls.verify(e.offender, Ascii("penumbra-block-sig:v1|") + ToBytes(e.height, 8) + e.blockB, e.sigB))
  {
    hide Ascii, ToBytes;
  }
}
