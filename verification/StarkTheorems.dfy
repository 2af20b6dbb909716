/** What the STARK protocol guarantees: honest proofs verify exactly when the domain has at least
    two points, and the folds drive the committed polynomial to its constant. */
module StarkTheorems {
  import opened Collections
  import opened ModArith
  import opened Bytes
  import opened StarkField
  import opened StarkMerkle
  import opened Fri
  import opened StarkProtocol

  // ---------- completeness ----------

  lemma LeafDecodes(code: seq<felt>, i: nat)
    requires i < |code|
    ensures FromBytes(Leaves(code)[i]) == code[i]
  {
    assert Pow(256, 4) == 256 * Pow(256, 3) && Pow(256, 3) == 256 * Pow(256, 2);
    PowAdd(256, 4, 4);
    ToBytesRoundTrip(code[i], 8);
  }

  /** An honestly opened layer passes every check of its round. */
  lemma HonestRoundOk(h: Hash, code: seq<felt>, left: nat, right: nat, expected: Option<int>)
    requires left < |code| && right < |code|
    requires expected == None || expected == Some(code[left])
    ensures RoundOk(h, QueryRound(h, code, Commitment(h, code), left, right), Commitment(h, code),
                    left, right, expected)
  {
    LeafDecodes(code, left);
    LeafDecodes(code, right);
    OpeningVerifies(h, Leaves(code), left);
    OpeningVerifies(h, Leaves(code), right);
  }

  /** The verifier's loop follows the prover's layers: it ends at the prover's transcript,
      expecting the prover's last entry. */
  lemma {:induction false} VerifierFollowsProver(
      h: Hash, t: bytes, code: seq<felt>, dom: seq<int>, g: int, idx: nat, expected: Option<int>)
    requires |code| == |dom| && Subgroup(dom, g)
    requires expected == Some(code[Position(idx, |code|)]) || (expected == None && |code| >= 2)
    ensures var c := CommitPhase(h, t, code, dom);
      Rounds(h, t, idx, dom, expected, c.roots, QueryPhase(h, c.codes, c.roots, idx))
      == Done(c.transcript, Some(c.last[0]))
    decreases |code|
  {
    if |code| == 1 {
      assert Position(idx, 1) == 0;
    } else {
      var root := Commitment(h, code);
      var t' := Absorb(h, t, root);
      var beta := Challenge(h, t', "fri-beta");
      var left := Position(idx, |code|);
      var idx' := Descend(left, |code|);
      HonestLayer(h, code, dom, g, left, beta, expected);
      var code', dom' := FoldCode(code, dom, beta), FoldDomain(dom);
      PositionSmall(idx', |code'|);
      VerifierFollowsProver(h, t', code', dom', g * g, idx', Some(code'[idx']));
      var rest := CommitPhase(h, t', code', dom');
      FirstRound(h, code, root, rest, idx);
      FirstReplay(h, t, idx, dom, expected, root, rest.roots,
                  QueryRound(h, code, root, left, Mirror(left, |code|)), QueryPhase(h, rest.codes, rest.roots, idx'));
    }
  }

  /** One honest layer: its round checks pass, and the opened pair folds to the next layer. */
  lemma HonestLayer(h: Hash, code: seq<felt>, dom: seq<int>, g: int, left: nat, beta: int, expected: Option<int>)
    requires |code| == |dom| && |code| >= 2 && Subgroup(dom, g) && left < |code|
    requires expected == Some(code[left]) || expected == None
    ensures |code| % 2 == 0 && Subgroup(FoldDomain(dom), g * g)
    ensures var right := Mirror(left, |code|);
      && FoldValue(code[left], code[right], dom[left], beta) == FoldCode(code, dom, beta)[Descend(left, |code|)]
      && RoundOk(h, QueryRound(h, code, Commitment(h, code), left, right), Commitment(h, code),
                 left, right, expected)
  {
    PowerOfTwoHalf(|code|);
    SquaredSubgroup(dom, g, FoldDomain(dom));
    FoldAtQuery(code, dom, g, beta, left);
    HonestRoundOk(h, code, left, Mirror(left, |code|), expected);
  }

  lemma PositionSmall(i: nat, n: nat)
    requires i < n
    ensures Position(i, n) == i
  {
    ModSmall(i, n);
  }

  lemma FirstReplay(h: Hash, t: bytes, idx: int, dom: seq<int>, expected: Option<int>,
                    root: bytes, roots: seq<bytes>, r: FriRound, rounds: seq<FriRound>)
    requires |dom| >= 2 && |roots| == |rounds|
    requires RoundOk(h, r, root, Position(idx, |dom|), Mirror(Position(idx, |dom|), |dom|), expected)
    ensures var t' := Absorb(h, t, root);
      var left := Position(idx, |dom|);
      Rounds(h, t, idx, dom, expected, [root] + roots, [r] + rounds)
      == Rounds(h, t', Descend(left, |dom|), FoldDomain(dom),
                Some(FoldValue(r.queriedLeft, r.queriedRight, dom[left], Challenge(h, t', "fri-beta"))),
                roots, rounds)
  {
    assert ([root] + roots)[1..] == roots && ([r] + rounds)[1..] == rounds;
  }

  lemma FirstRound(h: Hash, code: seq<felt>, root: bytes, rest: Commit, idx: nat)
    requires |code| >= 2 && |rest.roots| == |rest.codes| && Foldable(rest.codes)
    ensures Foldable([code] + rest.codes)
    ensures var left := Position(idx, |code|);
      QueryPhase(h, [code] + rest.codes, [root] + rest.roots, idx)
      == [QueryRound(h, code, root, left, Mirror(left, |code|))]
         + QueryPhase(h, rest.codes, rest.roots, Descend(left, |code|))
  {
    assert ([code] + rest.codes)[1..] == rest.codes && ([root] + rest.roots)[1..] == rest.roots;
  }

  lemma {:induction false} PowerBeyond(r: int, k: nat)
    requires PowerOfTwo(r) && r > Pow2(k)
    ensures r / 2 >= Pow2(k)
  {
    if k > 0 {
      PowerBeyond(r / 2, k - 1);
    }
  }

  /** The doubling loop overshoots the largest domain exactly when the request does. */
  lemma DomainFits(need: int)
    ensures GrowDomain(1, need) > MAX_DOMAIN <==> need > MAX_DOMAIN
  {
    assert Pow2(TWO_ADICITY) == MAX_DOMAIN by { LargestDomain(); }
    if GrowDomain(1, need) > MAX_DOMAIN {
      PowerBeyond(GrowDomain(1, need), TWO_ADICITY);
    }
  }

  lemma LargestDomain()
    ensures Pow2(TWO_ADICITY) == MAX_DOMAIN
  {
    assert Pow2(8) == 256 * Pow2(0) && Pow2(16) == 256 * Pow2(8) && Pow2(23) == 128 * Pow2(16);
  }

  /** Exactly when an honest proof exists and verifies: the prover fails only on an empty
      coefficient list or an oversized domain, and otherwise the verifier accepts if and only if
      the requested codeword has at least two entries. */
  lemma Completeness(h: Hash, coeffs: seq<int>, blowup: int, transcript: bytes)
    ensures var proof := ProveSpec(h, coeffs, blowup, transcript);
      && (proof.None? <==> coeffs == [] || |coeffs| * blowup > MAX_DOMAIN)
      && (proof.Some? ==>
            (VerifySpec(h, proof.value, transcript) == Accept <==> |coeffs| * blowup >= 2)
            && (|coeffs| * blowup < 2 ==> VerifySpec(h, proof.value, transcript) == Reject))
  {
    var size := GrowDomain(1, |coeffs| * blowup);
    DomainFits(|coeffs| * blowup);
    if coeffs != [] && size <= MAX_DOMAIN {
      if size == 1 {
        assert CommitPhase(h, transcript, Codeword(coeffs, Domain(1)), Domain(1)).roots == [];
      } else {
        HonestProofAccepted(h, coeffs, size, transcript);
      }
    }
  }

  lemma HonestProofAccepted(h: Hash, coeffs: seq<int>, size: int, transcript: bytes)
    requires coeffs != [] && 2 <= size <= MAX_DOMAIN && PowerOfTwo(size)
    ensures VerifySpec(h, ProofFrom(h, coeffs, size, transcript), transcript) == Accept
  {
    var dom := Domain(size);
    var c := CommitPhase(h, transcript, Codeword(coeffs, dom), dom);
    var query := Position(Challenge(h, c.transcript, "fri-query"), size);
    var proof := ProofFrom(h, coeffs, size, transcript);
    HonestReplay(h, Codeword(coeffs, dom), size, transcript, query);
    PositionSmall(query, size);
    ModSmall(c.last[0], P);
    assert FinalChecks(h, proof, c.transcript, Some(c.last[0])) == Accept;
  }

  lemma HonestReplay(h: Hash, code: seq<felt>, size: int, transcript: bytes, query: nat)
    requires 2 <= size <= MAX_DOMAIN && PowerOfTwo(size) && |code| == size && query < size
    ensures var c := CommitPhase(h, transcript, code, Domain(size));
      Rounds(h, transcript, query, Domain(size), None, c.roots, QueryPhase(h, c.codes, c.roots, query))
      == Done(c.transcript, Some(c.last[0]))
  {
    DomainIsSubgroup(size);
    VerifierFollowsProver(h, transcript, code, Domain(size), Felt(Generator(size)), query, None);
  }

  /** What an honest proof claims is true of its polynomial: the evaluation is the value at the query point,
      which the first round opens, the degree bound is the degree, and the domain is the least power of two
      that holds blowup points for each coefficient. */
  lemma HonestClaims(h: Hash, coeffs: seq<int>, blowup: int, transcript: bytes)
    requires ProveSpec(h, coeffs, blowup, transcript).Some?
    ensures var proof := ProveSpec(h, coeffs, blowup, transcript).value;
      && 0 <= proof.queryIndex < proof.domainSize <= MAX_DOMAIN
      && proof.evaluations == [Evaluate(coeffs, Domain(proof.domainSize)[proof.queryIndex])]
      && (proof.friProof != [] ==> proof.friProof[0].queriedLeft == proof.evaluations[0])
      && proof.initialDegreeBound + 1 == |coeffs|
      && PowerOfTwo(proof.domainSize) && |coeffs| * blowup <= proof.domainSize
      && (proof.domainSize > 1 ==> proof.domainSize / 2 < |coeffs| * blowup)
  {
    hide Commitment, Opening, Absorb, Challenge, FoldCode, FoldDomain, Domain;
    var size := GrowDomain(1, |coeffs| * blowup);
    var code := Codeword(coeffs, Domain(size));
    var c := CommitPhase(h, transcript, code, Domain(size));
    var query := Position(Challenge(h, c.transcript, "fri-query"), size);
    PositionSmall(query, size);
    if size > 1 { assert c.codes[0] == code; }
  }

  // ---------- what acceptance rules out ----------

  /** The domain of round k. */
  function DomainAfter(dom: seq<int>, k: nat): seq<int>
    decreases k
  {
    if k == 0 then dom else DomainAfter(FoldDomain(dom), k - 1)
  }

  /** The position that round k opens. */
  function LeftAfter(idx: int, dom: seq<int>, k: nat): nat
    decreases k
  {
    if |dom| == 0 || (|dom| == 1 && k > 0) then 0
    else
      var left := idx % |dom|;
      if k == 0 then left else LeftAfter(left % (|dom| / 2), FoldDomain(dom), k - 1)
  }

  /** The transcript once k commitments are absorbed. */
  function TranscriptAfter(h: Hash, t: bytes, commitments: seq<bytes>, k: nat): bytes
    requires k <= |commitments|
    decreases k
  {
    if k == 0 then t else TranscriptAfter(h, Absorb(h, t, commitments[0]), commitments[1..], k - 1)
  }

  /** What the values opened in round k fold to. */
  function FoldedAfter(
      h: Hash, t: bytes, idx: int, dom: seq<int>, commitments: seq<bytes>, rounds: seq<FriRound>, k: nat)
    : int
    requires k < |rounds| == |commitments|
  {
    var d, left := DomainAfter(dom, k), LeftAfter(idx, dom, k);
    if left >= |d| then 0
    else FoldValue(rounds[k].queriedLeft, rounds[k].queriedRight, d[left],
                   Challenge(h, TranscriptAfter(h, t, commitments, k + 1), "fri-beta"))
  }

  /** The evidence a round carries: both openings authenticate the claimed values under the
      commitment of the round. */
  predicate Authenticated(h: Hash, r: FriRound, commitment: bytes) {
    && r.commitment == commitment
    && Verifies(h, commitment, r.proofLeft) && FromBytes(r.proofLeft.leaf) == r.queriedLeft
    && Verifies(h, commitment, r.proofRight) && FromBytes(r.proofRight.leaf) == r.queriedRight
  }

  /** Round k opens the position it should and the one half a domain further, authenticates both values under
      its commitment, and continues the fold of the round before. */
  predicate RoundHolds(h: Hash, t: bytes, idx: int, dom: seq<int>, expected: Option<int>,
                       commitments: seq<bytes>, rounds: seq<FriRound>, k: nat)
    requires k < |rounds| == |commitments|
  {
    var n, left := |DomainAfter(dom, k)|, LeftAfter(idx, dom, k);
    && n >= 2 && left < n && Authenticated(h, rounds[k], commitments[k])
    && rounds[k].proofLeft.index == left && rounds[k].proofRight.index == (left + n / 2) % n
    && if k > 0 then rounds[k].queriedLeft == FoldedAfter(h, t, idx, dom, commitments, rounds, k - 1)
       else expected.Some? ==> rounds[k].queriedLeft == expected.value
  }

  /** The verifier's loop runs to its end exactly when every round holds, and then it has absorbed all
      commitments and expects the last fold. */
  lemma {:induction false} ReplayExactly(h: Hash, t: bytes, idx: int, dom: seq<int>, expected: Option<int>,
                                         commitments: seq<bytes>, rounds: seq<FriRound>)
    requires |dom| >= 1 && |commitments| == |rounds|
    ensures Rounds(h, t, idx, dom, expected, commitments, rounds).Done?
      <==> forall k :: 0 <= k < |rounds| ==> RoundHolds(h, t, idx, dom, expected, commitments, rounds, k)
    ensures Rounds(h, t, idx, dom, expected, commitments, rounds).Done? ==>
      Rounds(h, t, idx, dom, expected, commitments, rounds)
      == Done(TranscriptAfter(h, t, commitments, |rounds|),
              if rounds == [] then expected
              else Some(FoldedAfter(h, t, idx, dom, commitments, rounds, |rounds| - 1)))
    decreases |rounds|
  {
    hide FoldValue, FoldDomain, Position, Descend, Mirror, Absorb, Challenge, RoundOk, RoundHolds, FoldedAfter;
    if rounds != [] {
      FirstHolds(h, t, idx, dom, expected, commitments, rounds);
      if RoundHolds(h, t, idx, dom, expected, commitments, rounds, 0) {
        var left := Position(idx, |dom|);
        var t', idx', dom' := Absorb(h, t, commitments[0]), Descend(left, |dom|), FoldDomain(dom);
        var folded := Some(FoldedAfter(h, t, idx, dom, commitments, rounds, 0));
        ReplayExactly(h, t', idx', dom', folded, commitments[1..], rounds[1..]);
        forall k | 1 <= k < |rounds|
          ensures RoundHolds(h, t, idx, dom, expected, commitments, rounds, k)
            <==> RoundHolds(h, t', idx', dom', folded, commitments[1..], rounds[1..], k - 1)
          ensures FoldedAfter(h, t, idx, dom, commitments, rounds, k)
               == FoldedAfter(h, t', idx', dom', commitments[1..], rounds[1..], k - 1)
        {
          LaterHolds(h, t, idx, dom, expected, commitments, rounds, k);
        }
        AllLater(h, t, idx, dom, expected, commitments, rounds, t', idx', dom', folded);
      }
    }
  }

  lemma AllLater(h: Hash, t: bytes, idx: int, dom: seq<int>, expected: Option<int>, commitments: seq<bytes>,
                 rounds: seq<FriRound>, t': bytes, idx': int, dom': seq<int>, folded: Option<int>)
    requires 1 <= |rounds| == |commitments| && RoundHolds(h, t, idx, dom, expected, commitments, rounds, 0)
    requires forall k :: 1 <= k < |rounds| ==>
      (RoundHolds(h, t, idx, dom, expected, commitments, rounds, k)
       <==> RoundHolds(h, t', idx', dom', folded, commitments[1..], rounds[1..], k - 1))
    ensures (forall k :: 0 <= k < |rounds| ==> RoundHolds(h, t, idx, dom, expected, commitments, rounds, k))
      <==> forall k :: 0 <= k < |rounds[1..]| ==>
        RoundHolds(h, t', idx', dom', folded, commitments[1..], rounds[1..], k)
  {
    hide RoundHolds;
    if forall k :: 0 <= k < |rounds| ==> RoundHolds(h, t, idx, dom, expected, commitments, rounds, k) {
      forall k | 0 <= k < |rounds[1..]|
        ensures RoundHolds(h, t', idx', dom', folded, commitments[1..], rounds[1..], k)
      {
        assert RoundHolds(h, t, idx, dom, expected, commitments, rounds, k + 1);
      }
    }
  }

  /** The first round decides whether the loop goes on, and from what. */
  lemma FirstHolds(h: Hash, t: bytes, idx: int, dom: seq<int>, expected: Option<int>,
                   commitments: seq<bytes>, rounds: seq<FriRound>)
    requires |dom| >= 1 && 1 <= |rounds| == |commitments|
    ensures var replay := Rounds(h, t, idx, dom, expected, commitments, rounds);
      if RoundHolds(h, t, idx, dom, expected, commitments, rounds, 0) then
        |dom| >= 2 && |FoldDomain(dom)| >= 1
        && replay == Rounds(h, Absorb(h, t, commitments[0]), Descend(Position(idx, |dom|), |dom|), FoldDomain(dom),
                            Some(FoldedAfter(h, t, idx, dom, commitments, rounds, 0)), commitments[1..], rounds[1..])
      else replay.Stopped?
  {
    hide FoldValue, Challenge, Absorb, Verifies, FromBytes;
    assert TranscriptAfter(h, t, commitments, 1) == Absorb(h, t, commitments[0]);
  }

  /** A later round is a round of the loop's rest. */
  lemma LaterHolds(h: Hash, t: bytes, idx: int, dom: seq<int>, expected: Option<int>,
                   commitments: seq<bytes>, rounds: seq<FriRound>, k: nat)
    requires 1 <= k < |rounds| == |commitments| && |dom| >= 2
    ensures var t', idx', dom' := Absorb(h, t, commitments[0]), Descend(Position(idx, |dom|), |dom|), FoldDomain(dom);
      var folded := Some(FoldedAfter(h, t, idx, dom, commitments, rounds, 0));
      && (RoundHolds(h, t, idx, dom, expected, commitments, rounds, k)
          <==> RoundHolds(h, t', idx', dom', folded, commitments[1..], rounds[1..], k - 1))
      && FoldedAfter(h, t, idx, dom, commitments, rounds, k)
        == FoldedAfter(h, t', idx', dom', commitments[1..], rounds[1..], k - 1)
  {
    hide FoldValue, FoldDomain, Challenge, Absorb, FoldedAfter, Authenticated;
    FoldedShift(h, t, idx, dom, commitments, rounds, k);
    if k > 1 { FoldedShift(h, t, idx, dom, commitments, rounds, k - 1); }
  }

  lemma FoldedShift(h: Hash, t: bytes, idx: int, dom: seq<int>, commitments: seq<bytes>, rounds: seq<FriRound>, k: nat)
    requires 1 <= k < |rounds| == |commitments| && |dom| >= 2
    ensures var t', idx', dom' := Absorb(h, t, commitments[0]), Descend(Position(idx, |dom|), |dom|), FoldDomain(dom);
      FoldedAfter(h, t, idx, dom, commitments, rounds, k)
        == FoldedAfter(h, t', idx', dom', commitments[1..], rounds[1..], k - 1)
  {
    hide FoldValue, FoldDomain, Challenge, Absorb;
  }

  /** Every round holds, the last fold is the constant, and the query is derived from the transcript of
      all commitments. */
  predicate AllHolds(h: Hash, proof: StarkProof, transcript: bytes)
    requires WellShaped(proof) && proof.domainSize <= MAX_DOMAIN
  {
    var n, last := proof.domainSize, |proof.friProof| - 1;
    var idx, dom := proof.queryIndex % n, Domain(n);
    && (forall k :: 0 <= k <= last ==> RoundHolds(h, transcript, idx, dom, None, proof.commitments, proof.friProof, k))
    && FoldedAfter(h, transcript, idx, dom, proof.commitments, proof.friProof, last) == Felt(proof.finalConstant)
    && proof.queryIndex
       == Challenge(h, TranscriptAfter(h, transcript, proof.commitments, last + 1), "fri-query") % n
  }

  /** Acceptance, in full: a well-shaped proof over a domain of the field, every round holding, the last
      fold equal to the constant, and the query derived from the transcript of all commitments. The
      number of rounds, the claimed evaluations and the degree bound are not looked at. */
  lemma AcceptanceExactly(h: Hash, proof: StarkProof, transcript: bytes)
    ensures VerifySpec(h, proof, transcript) == Accept
      <==> WellShaped(proof) && proof.domainSize <= MAX_DOMAIN && AllHolds(h, proof, transcript)
  {
    hide Domain, Challenge, RoundHolds, FoldedAfter, PowerOfTwo, TranscriptAfter, Felt, Rounds;
    if WellShaped(proof) && proof.domainSize <= MAX_DOMAIN {
      DomainNonEmpty(proof.domainSize);
      ReplayExactly(h, transcript, Position(proof.queryIndex, proof.domainSize), Domain(proof.domainSize), None,
                    proof.commitments, proof.friProof);
    }
  }

  lemma {:induction false} RoundsWithinDomain(h: Hash, t: bytes, idx: int, dom: seq<int>, expected: Option<int>,
                                              commitments: seq<bytes>, rounds: seq<FriRound>)
    requires |dom| >= Pow2(|rounds|) && |commitments| == |rounds|
    ensures Rounds(h, t, idx, dom, expected, commitments, rounds) != Stopped(Raise)
    decreases |rounds|
  {
    hide RoundOk, Absorb, Challenge, FoldValue, Position, Mirror, Descend;
    if rounds != [] {
      var t', idx' := Absorb(h, t, commitments[0]), Descend(Position(idx, |dom|), |dom|);
      var folded := FoldValue(rounds[0].queriedLeft, rounds[0].queriedRight, dom[Position(idx, |dom|)],
                              Challenge(h, t', "fri-beta"));
      RoundsWithinDomain(h, t', idx', FoldDomain(dom), Some(folded), commitments[1..], rounds[1..]);
    }
  }

  /** The verifier raises on a well-shaped proof whose domain is larger than any of the field, and otherwise only
      where a proof has more rounds than its domain can be halved. */
  lemma RaisesOnlyBeyond(h: Hash, proof: StarkProof, transcript: bytes)
    ensures WellShaped(proof) && proof.domainSize > MAX_DOMAIN ==> VerifySpec(h, proof, transcript) == Raise
    ensures VerifySpec(h, proof, transcript) == Raise ==>
      WellShaped(proof) && (proof.domainSize > MAX_DOMAIN || Pow2(|proof.friProof|) > proof.domainSize)
  {
    hide Domain, Rounds, Challenge, PowerOfTwo, Felt;
    if WellShaped(proof) && Pow2(|proof.friProof|) <= proof.domainSize <= MAX_DOMAIN {
      DomainNonEmpty(proof.domainSize);
      RoundsWithinDomain(h, transcript, Position(proof.queryIndex, proof.domainSize), Domain(proof.domainSize), None,
                         proof.commitments, proof.friProof);
    }
  }

  lemma DomainNonEmpty(n: int)
    requires PowerOfTwo(n) && n <= MAX_DOMAIN
    ensures n >= 1 && |Domain(n)| >= 1
  {}

  lemma {:induction false} DomainHalves(dom: seq<int>, k: nat)
    requires |DomainAfter(dom, k)| >= 1
    ensures Pow2(k) * |DomainAfter(dom, k)| <= |dom|
    decreases k
  {
    hide FoldDomain;
    if k > 0 {
      DomainHalves(FoldDomain(dom), k - 1);
      HalvesTwice(Pow2(k - 1), |DomainAfter(dom, k)|, |FoldDomain(dom)|, |dom|);
    }
  }

  lemma HalvesTwice(p: nat, d: nat, half: nat, n: nat)
    requires p * d <= half && half == n / 2
    ensures 2 * p * d <= n
  {}

  /** An accepted proof, honest or not, authenticates every opened value, halves its domain no
      more often than its size allows, and binds the final constant: any other constant modulo P
      is rejected. */
  lemma AcceptanceBinds(h: Hash, proof: StarkProof, transcript: bytes, constant: int)
    requires VerifySpec(h, proof, transcript) == Accept
    ensures |proof.commitments| == |proof.friProof| && Pow2(|proof.friProof|) <= proof.domainSize
    ensures forall k :: 0 <= k < |proof.friProof| ==> Authenticated(h, proof.friProof[k], proof.commitments[k])
    ensures !Cong(constant, proof.finalConstant, P)
        ==> VerifySpec(h, proof.(finalConstant := constant), transcript) == Reject
  {
    hide Domain, Challenge, FoldedAfter, PowerOfTwo, TranscriptAfter, Rounds, Verifies, RoundHolds, Pow2,
      DomainAfter;
    AcceptanceExactly(h, proof, transcript);
    var idx, dom, last := proof.queryIndex % proof.domainSize, Domain(proof.domainSize), |proof.friProof| - 1;
    forall k | 0 <= k <= last ensures Authenticated(h, proof.friProof[k], proof.commitments[k]) {
      HoldsAuthenticated(h, transcript, idx, dom, proof.commitments, proof.friProof, k);
    }
    HoldsAuthenticated(h, transcript, idx, dom, proof.commitments, proof.friProof, last);
    DomainHalves(dom, last);
    RoundsFit(last, |DomainAfter(dom, last)|, proof.domainSize);
    if !Cong(constant, proof.finalConstant, P) { OtherConstantRejected(h, proof, transcript, constant); }
  }

  lemma HoldsAuthenticated(
      h: Hash, t: bytes, idx: int, dom: seq<int>, commitments: seq<bytes>, rounds: seq<FriRound>, k: nat)
    requires k < |rounds| == |commitments| && RoundHolds(h, t, idx, dom, None, commitments, rounds, k)
    ensures Authenticated(h, rounds[k], commitments[k]) && |DomainAfter(dom, k)| >= 2
  {
    hide Authenticated, LeftAfter, FoldedAfter;
  }

  lemma RoundsFit(k: nat, d: nat, n: nat)
    requires d >= 2 && Pow2(k) * d <= n
    ensures Pow2(k + 1) <= n
  {
    assert Pow2(k) * 2 <= Pow2(k) * d;
  }

  lemma OtherConstantRejected(h: Hash, proof: StarkProof, transcript: bytes, constant: int)
    requires VerifySpec(h, proof, transcript) == Accept && Felt(constant) != Felt(proof.finalConstant)
    ensures VerifySpec(h, proof.(finalConstant := constant), transcript) == Reject
  {
    var other := proof.(finalConstant := constant);
    assert WellShaped(other) && other.domainSize <= MAX_DOMAIN;
    var replay := ReplayOf(h, proof, transcript);
    assert ReplayOf(h, other, transcript) == replay;
    assert replay.Done? && FinalChecks(h, proof, replay.transcript, replay.expected) == Accept;
    assert FinalChecks(h, other, replay.transcript, replay.expected) == Reject;
  }

  // ---------- what acceptance leaves open ----------

  /** A proof of one round over any codeword: commit to it, open it where the query falls, and give the
      fold of the two opened values as the constant. */
  function OneRoundProof(h: Hash, code: seq<felt>, transcript: bytes, degreeBound: int): StarkProof
    requires 2 <= |code| <= MAX_DOMAIN && PowerOfTwo(|code|)
  {
    var root := Commitment(h, code);
    var t := Absorb(h, transcript, root);
    var query := Position(Challenge(h, t, "fri-query"), |code|);
    var right := Mirror(query, |code|);
    StarkProof([root], [code[query]], [QueryRound(h, code, root, query, right)],
               FoldValue(code[query], code[right], Domain(|code|)[query], Challenge(h, t, "fri-beta")),
               query, |code|, degreeBound)
  }

  lemma OneRoundFinal(h: Hash, code: seq<felt>, transcript: bytes, degreeBound: int)
    requires 2 <= |code| <= MAX_DOMAIN && PowerOfTwo(|code|)
    ensures var proof := OneRoundProof(h, code, transcript, degreeBound);
      FinalChecks(h, proof, Absorb(h, transcript, Commitment(h, code)), Some(proof.finalConstant)) == Accept
  {
    hide Commitment, QueryRound, Absorb, Challenge, Position, Mirror, Domain, FoldValue, PowerOfTwo;
    ModSmall(OneRoundProof(h, code, transcript, degreeBound).finalConstant, P);
  }

  /** Acceptance alone says nothing about the degree: every list of field elements of a power-of-two
      length from 2 to 2^23, of low degree or not, has an accepted proof, of one round and with any
      degree bound one likes. */
  lemma OneRoundAccepted(h: Hash, code: seq<felt>, transcript: bytes, degreeBound: int)
    requires 2 <= |code| <= MAX_DOMAIN && PowerOfTwo(|code|)
    ensures var proof := OneRoundProof(h, code, transcript, degreeBound);
      && VerifySpec(h, proof, transcript) == Accept && proof.commitments == [Commitment(h, code)]
      && proof.initialDegreeBound == degreeBound
  {
    hide Commitment, Opening, Absorb, Challenge, Position, Mirror, RoundOk, FoldDomain, Domain, PowerOfTwo, FoldValue,
      Verifies;
    var proof := OneRoundProof(h, code, transcript, degreeBound);
    var n, dom, query, root := |code|, Domain(|code|), proof.queryIndex, Commitment(h, code);
    PositionSmall(query, n);
    HonestRoundOk(h, code, query, Mirror(query, n), None);
    FirstReplay(h, transcript, query, dom, None, root, [], proof.friProof[0], []);
    assert [root] + [] == proof.commitments && [proof.friProof[0]] + [] == proof.friProof;
    assert ReplayOf(h, proof, transcript) == Done(Absorb(h, transcript, root), Some(proof.finalConstant));
    OneRoundFinal(h, code, transcript, degreeBound);
  }

  // ---------- the folds drive the polynomial to a constant ----------

  /** The layers of a commitment, the final one included. */
  function Layers(c: Commit): seq<seq<felt>> {
    c.codes + [c.last]
  }

  /** The polynomial behind each layer: every fold replaces f by f_even + beta * f_odd. */
  function LayerCoeffs(h: Hash, t: bytes, code: seq<felt>, dom: seq<int>, c: seq<int>): (r: seq<seq<int>>)
    requires |code| == |dom| && PowerOfTwo(|code|)
    ensures |r| == |CommitPhase(h, t, code, dom).codes| + 1
    decreases |code|
  {
    if |code| == 1 then [c]
    else
      var t' := Absorb(h, t, Commitment(h, code));
      var beta := Challenge(h, t', "fri-beta");
      [c] + LayerCoeffs(h, t', FoldCode(code, dom, beta), FoldDomain(dom), FoldCoeffs(c, beta))
  }

  /** Each layer is the codeword of its polynomial, and each polynomial the fold of the one before. */
  ghost predicate FoldChain(layers: seq<seq<felt>>, cs: seq<seq<int>>, dom: seq<int>) {
    && |layers| == |cs| >= 1
    && layers[0] == Codeword(cs[0], dom)
    && (|cs| > 1 ==>
          (exists beta :: cs[1] == FoldCoeffs(cs[0], beta)) && FoldChain(layers[1..], cs[1..], FoldDomain(dom)))
  }

  /** Past its first layer, an honest commitment is the commitment of the folded polynomial. */
  lemma LayerStep(h: Hash, t: bytes, c: seq<int>, dom: seq<int>, g: int) returns (t': bytes, f: seq<int>)
    requires Subgroup(dom, g) && |dom| >= 2
    ensures var code := Codeword(c, dom);
      && t' == Absorb(h, t, Commitment(h, code))
      && f == FoldCoeffs(c, Challenge(h, t', "fri-beta"))
      && Subgroup(FoldDomain(dom), g * g)
    ensures Layers(CommitPhase(h, t, Codeword(c, dom), dom))
         == [Codeword(c, dom)] + Layers(CommitPhase(h, t', Codeword(f, FoldDomain(dom)), FoldDomain(dom)))
    ensures LayerCoeffs(h, t, Codeword(c, dom), dom, c)
         == [c] + LayerCoeffs(h, t', Codeword(f, FoldDomain(dom)), FoldDomain(dom), f)
  {
    var code := Codeword(c, dom);
    PowerOfTwoHalf(|code|);
    t' := Absorb(h, t, Commitment(h, code));
    var beta := Challenge(h, t', "fri-beta");
    f := FoldCoeffs(c, beta);
    FoldPreservesMeaning(c, dom, g, beta);
    SquaredSubgroup(dom, g, FoldDomain(dom));
    var rest := CommitPhase(h, t', Codeword(f, FoldDomain(dom)), FoldDomain(dom));
    assert [code] + (rest.codes + [rest.last]) == ([code] + rest.codes) + [rest.last];
  }

  /** The prover's layers form such a chain. */
  lemma {:induction false} CommitIsFoldChain(h: Hash, t: bytes, c: seq<int>, dom: seq<int>, g: int)
    requires Subgroup(dom, g)
    ensures LayerCoeffs(h, t, Codeword(c, dom), dom, c)[0] == c
    ensures FoldChain(Layers(CommitPhase(h, t, Codeword(c, dom), dom)), LayerCoeffs(h, t, Codeword(c, dom), dom, c),
      dom)
    decreases |dom|
  {
    if |dom| > 1 {
      var t', f := LayerStep(h, t, c, dom, g);
      CommitIsFoldChain(h, t', f, FoldDomain(dom), g * g);
      ChainPrepend(c, dom, Challenge(h, t', "fri-beta"),
                   Layers(CommitPhase(h, t', Codeword(f, FoldDomain(dom)), FoldDomain(dom))),
                   LayerCoeffs(h, t', Codeword(f, FoldDomain(dom)), FoldDomain(dom), f));
    }
  }

  lemma ChainPrepend(c: seq<int>, dom: seq<int>, beta: int, layers: seq<seq<felt>>, cs: seq<seq<int>>)
    requires FoldChain(layers, cs, FoldDomain(dom)) && cs[0] == FoldCoeffs(c, beta)
    ensures FoldChain([Codeword(c, dom)] + layers, [c] + cs, dom)
  {
    var ls, ks := [Codeword(c, dom)] + layers, [c] + cs;
    assert ls[1..] == layers && ks[1..] == cs;
    assert ks[1] == FoldCoeffs(ks[0], beta);
  }

  lemma {:induction false} ChainLayer(layers: seq<seq<felt>>, cs: seq<seq<int>>, dom: seq<int>, k: nat)
    requires FoldChain(layers, cs, dom) && k < |layers|
    ensures layers[k] == Codeword(cs[k], DomainAfter(dom, k))
    ensures cs[0] != [] ==> cs[k] != []
    ensures |cs[0]| <= Pow2(k) ==> |cs[k]| <= 1
    decreases k
  {
    if k > 0 {
      ChainLayer(layers[1..], cs[1..], FoldDomain(dom), k - 1);
    }
  }

  /** Once 2^k reaches the number of coefficients, folding changes nothing any more. */
  lemma {:induction false} ChainSettles(layers: seq<seq<felt>>, cs: seq<seq<int>>, dom: seq<int>, k: nat)
    requires FoldChain(layers, cs, dom) && k < |cs| && 1 <= |cs[0]| <= Pow2(k)
    ensures |cs[k]| == 1 && cs[|cs| - 1] == cs[k]
    decreases |cs|
  {
    if |cs| > 1 {
      ChainSettles(layers[1..], cs[1..], FoldDomain(dom), if k == 0 then 0 else k - 1);
    }
  }

  lemma ConstantEvaluates(c: seq<int>, x: int)
    requires |c| == 1
    ensures Evaluate(c, x) == Felt(c[0])
  {
    assert c[1..] == [] && Evaluate([], x) == 0;
  }

  /** Every layer is the codeword of its folded polynomial, and once 2^k reaches the number of
      coefficients that polynomial is a constant. */
  lemma LayersAreCodewords(h: Hash, t: bytes, c: seq<int>, dom: seq<int>, g: int, k: nat)
    requires Subgroup(dom, g) && k < |Layers(CommitPhase(h, t, Codeword(c, dom), dom))|
    ensures var coeffs := LayerCoeffs(h, t, Codeword(c, dom), dom, c)[k];
      && Layers(CommitPhase(h, t, Codeword(c, dom), dom))[k] == Codeword(coeffs, DomainAfter(dom, k))
      && (c != [] && |c| <= Pow2(k) ==> |coeffs| == 1)
  {
    CommitIsFoldChain(h, t, c, dom, g);
    ChainLayer(Layers(CommitPhase(h, t, Codeword(c, dom), dom)), LayerCoeffs(h, t, Codeword(c, dom), dom, c), dom, k);
  }

  /** From the first layer whose index k has 2^k >= |coeffs|, every entry is the final constant. */
  lemma FinalConstantIsReached(h: Hash, coeffs: seq<int>, size: int, transcript: bytes, k: nat)
    requires 1 <= size <= MAX_DOMAIN && PowerOfTwo(size) && 1 <= |coeffs| <= Pow2(k)
    requires k < |Layers(CommitPhase(h, transcript, Codeword(coeffs, Domain(size)), Domain(size)))|
    ensures var layer := Layers(CommitPhase(h, transcript, Codeword(coeffs, Domain(size)), Domain(size)))[k];
      forall i :: 0 <= i < |layer| ==> layer[i] == ProofFrom(h, coeffs, size, transcript).finalConstant
  {
    DomainIsSubgroup(size);
    var dom := Domain(size);
    var commit := CommitPhase(h, transcript, Codeword(coeffs, dom), dom);
    CommitIsFoldChain(h, transcript, coeffs, dom, Felt(Generator(size)));
    SettledChain(commit, LayerCoeffs(h, transcript, Codeword(coeffs, dom), dom, coeffs), dom, k);
  }

  lemma SettledChain(commit: Commit, cs: seq<seq<int>>, dom: seq<int>, k: nat)
    requires FoldChain(Layers(commit), cs, dom) && k < |cs| && 1 <= |cs[0]| <= Pow2(k) && |commit.last| == 1
    ensures forall i :: 0 <= i < |Layers(commit)[k]| ==> Layers(commit)[k][i] == commit.last[0]
  {
    var layers, last := Layers(commit), |cs| - 1;
    ChainLayer(layers, cs, dom, k);
    ChainLayer(layers, cs, dom, last);
    ChainSettles(layers, cs, dom, k);
    ConstantEvaluates(cs[k], DomainAfter(dom, last)[0]);
    forall i | 0 <= i < |layers[k]| ensures layers[k][i] == commit.last[0] {
      ConstantEvaluates(cs[k], DomainAfter(dom, k)[i]);
    }
  }
}
