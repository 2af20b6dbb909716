/** The FRI-STARK prover and verifier: commit, fold and query, replayed by the verifier. */
module StarkProtocol {
  import opened Collections
  import opened ModArith
  import opened Bytes
  import opened StarkField
  import opened StarkMerkle
  import opened Fri

  datatype FriRound = FriRound(
    commitment: bytes, queriedLeft: int, queriedRight: int,
    proofLeft: MerkleProof, proofRight: MerkleProof)

  datatype StarkProof = StarkProof(
    commitments: seq<bytes>, evaluations: seq<int>, friProof: seq<FriRound>,
    finalConstant: int, queryIndex: int, domainSize: int, initialDegreeBound: int)

  /** The verifier returns a boolean or lets an exception escape. */
  datatype Verdict = Accept | Reject | Raise

  // ---------- transcript and leaves ----------

  function Absorb(h: Hash, t: bytes, root: bytes): bytes {
    HashParts(h, [t, Ascii("fri-commit"), root])
  }

  function ChallengeDigest(h: Hash, t: bytes, tag: string): bytes {
    HashParts(h, [t, Ascii(tag)])
  }

  function Challenge(h: Hash, t: bytes, tag: string): (r: felt) {
    FromBytes(ChallengeDigest(h, t, tag)) % P
  }

  function Leaves(code: seq<felt>): (r: seq<bytes>)
    ensures |r| == |code|
  {
    seq(|code|, i requires 0 <= i < |code| => ToBytes(code[i], 8))
  }

  function Commitment(h: Hash, code: seq<felt>): bytes
    requires |code| >= 1
  {
    Root(h, LeafLevel(h, Leaves(code)))
  }

  // ---------- the prover ----------

  /** Everything the folding loop of the prover produces. */
  datatype Commit = Commit(roots: seq<bytes>, codes: seq<seq<felt>>, last: seq<felt>, transcript: bytes)

  predicate Foldable(codes: seq<seq<felt>>) {
    forall k :: 0 <= k < |codes| ==> |codes[k]| >= 2
  }

  function CommitPhase(h: Hash, t: bytes, code: seq<felt>, dom: seq<int>): (r: Commit)
    requires |code| == |dom| && PowerOfTwo(|code|)
    ensures |r.roots| == |r.codes| && |r.last| == 1
    ensures r.roots == [] <==> |code| == 1
    ensures Foldable(r.codes)
    decreases |code|
  {
    if |code| == 1 then Commit([], [], code, t)
    else
      var root := Commitment(h, code);
      var t' := Absorb(h, t, root);
      var rest := CommitPhase(h, t', FoldCode(code, dom, Challenge(h, t', "fri-beta")), FoldDomain(dom));
      Commit([root] + rest.roots, [code] + rest.codes, rest.last, rest.transcript)
  }

  function QueryRound(h: Hash, code: seq<felt>, root: bytes, left: nat, right: nat): FriRound
    requires left < |code| && right < |code|
  {
    FriRound(root, code[left], code[right], Opening(h, Leaves(code), left), Opening(h, Leaves(code), right))
  }

  function QueryPhase(h: Hash, codes: seq<seq<felt>>, roots: seq<bytes>, idx: nat): (r: seq<FriRound>)
    requires |codes| == |roots| && Foldable(codes)
    ensures |r| == |codes|
  {
    if codes == [] then []
    else
      var n := |codes[0]|;
      var left := Position(idx, n);
      [QueryRound(h, codes[0], roots[0], left, Mirror(left, n))]
        + QueryPhase(h, codes[1..], roots[1..], Descend(left, n))
  }

  /** The doubling loop that sizes the domain. */
  function GrowDomain(size: int, need: int): (r: int)
    requires size >= 1 && PowerOfTwo(size)
    ensures PowerOfTwo(r) && r >= need && r >= size
    ensures r > size ==> r / 2 < need
    decreases need - size
  {
    if size < need then GrowDomain(2 * size, need) else size
  }

  function ProofFrom(h: Hash, coeffs: seq<int>, size: int, transcript: bytes): StarkProof
    requires 1 <= size <= MAX_DOMAIN && PowerOfTwo(size) && coeffs != []
  {
    var code := Codeword(coeffs, Domain(size));
    var c := CommitPhase(h, transcript, code, Domain(size));
    var query := Position(Challenge(h, c.transcript, "fri-query"), size);
    StarkProof(c.roots, [code[query]], QueryPhase(h, c.codes, c.roots, query),
               c.last[0], query, size, |coeffs| - 1)
  }

  /** None is a STARKError: no coefficients, or a domain beyond the two-adicity of the field. */
  function ProveSpec(h: Hash, coeffs: seq<int>, blowup: int, transcript: bytes): Option<StarkProof> {
    if coeffs == [] then None
    else
      var size := GrowDomain(1, |coeffs| * blowup);
      if size > MAX_DOMAIN then None else Some(ProofFrom(h, coeffs, size, transcript))
  }

  method SizeDomain(need: int) returns (size: int)
    ensures size == GrowDomain(1, need)
  {
    size := 1;
    while size < need
      invariant size >= 1 && PowerOfTwo(size)
      invariant GrowDomain(size, need) == GrowDomain(1, need)
    {
      size := 2 * size;
    }
  }

  method Prove(h: Hash, coeffs: seq<int>, blowup: int, transcript: bytes) returns (r: Option<StarkProof>)
    ensures r == ProveSpec(h, coeffs, blowup, transcript)
  {
    if coeffs == [] { return None; }
    var size := SizeDomain(|coeffs| * blowup);
    if size > MAX_DOMAIN { return None; }
    var domain := Domain(size);
    var codeword := Codeword(coeffs, domain);
    var roots, codes, last, t := FoldLoop(h, transcript, codeword, domain);
    var query := Position(Challenge(h, t, "fri-query"), size);
    var rounds := QueryLoop(h, codes, roots, query);
    return Some(StarkProof(roots, [codeword[query]], rounds, last[0], query, size, |coeffs| - 1));
  }

  /** The prover's folding loop. */
  method FoldLoop(h: Hash, transcript: bytes, codeword: seq<felt>, domain: seq<int>)
    returns (roots: seq<bytes>, codes: seq<seq<felt>>, code: seq<felt>, t: bytes)
    requires |codeword| == |domain| && PowerOfTwo(|codeword|)
    ensures Commit(roots, codes, code, t) == CommitPhase(h, transcript, codeword, domain)
  {
    hide FoldCode, FoldDomain, PowerOfTwo, Challenge, Absorb, Commitment, CommitPhase;
    roots, codes, code, t := [], [], codeword, transcript;
    var dom := domain;
    ghost var whole := CommitPhase(h, transcript, codeword, domain);
    while |code| > 1
      invariant |code| == |dom| && PowerOfTwo(|code|)
      invariant |roots| == |codes|
      invariant Prepend(roots, codes, CommitPhase(h, t, code, dom)) == whole
      decreases |code|
    {
      CommitStep(h, t, code, dom, roots, codes);
      var root := CommitCode(h, code);
      roots, codes := roots + [root], codes + [code];
      t := Absorb(h, t, root);
      var next := Fold(code, dom, Challenge(h, t, "fri-beta"));
      code, dom := next.value.0, next.value.1;
    }
    PowerOfTwoShape(|code|);
    NothingLeft(h, t, code, dom, roots, codes);
  }

  lemma NothingLeft(h: Hash, t: bytes, code: seq<felt>, dom: seq<int>, roots: seq<bytes>, codes: seq<seq<felt>>)
    requires |code| == |dom| == 1 && |roots| == |codes|
    ensures Prepend(roots, codes, CommitPhase(h, t, code, dom)) == Commit(roots, codes, code, t)
  {
    assert roots + [] == roots && codes + [] == codes;
  }

  method CommitCode(h: Hash, code: seq<felt>) returns (root: bytes)
    requires |code| >= 1
    ensures root == Commitment(h, code)
  {
    var r := MerkleRoot(h, Leaves(code));
    return r.value;
  }

  function Prepend(roots: seq<bytes>, codes: seq<seq<felt>>, c: Commit): Commit {
    Commit(roots + c.roots, codes + c.codes, c.last, c.transcript)
  }

  lemma CommitStep(h: Hash, t: bytes, code: seq<felt>, dom: seq<int>, roots: seq<bytes>, codes: seq<seq<felt>>)
    requires |code| == |dom| && PowerOfTwo(|code|) && |code| > 1
    ensures |code| % 2 == 0 && PowerOfTwo(|code| / 2)
    ensures var root := Commitment(h, code);
      var t' := Absorb(h, t, root);
      var c := CommitPhase(h, t', FoldCode(code, dom, Challenge(h, t', "fri-beta")), FoldDomain(dom));
      Prepend(roots, codes, CommitPhase(h, t, code, dom)) == Prepend(roots + [root], codes + [code], c)
  {
    PowerOfTwoHalf(|code|);
    var root := Commitment(h, code);
    var t' := Absorb(h, t, root);
    var c := CommitPhase(h, t', FoldCode(code, dom, Challenge(h, t', "fri-beta")), FoldDomain(dom));
    AppendAssoc(roots, root, c.roots);
    AppendAssoc(codes, code, c.codes);
  }

  lemma AppendAssoc<T>(a: seq<T>, x: T, b: seq<T>)
    ensures a + ([x] + b) == (a + [x]) + b
  {}

  method OpenLayer(h: Hash, code: seq<felt>, root: bytes, left: nat, right: nat) returns (round: FriRound)
    requires left < |code| && right < |code|
    ensures round == QueryRound(h, code, root, left, right)
  {
    var proofLeft := MerkleOpen(h, Leaves(code), left);
    var proofRight := MerkleOpen(h, Leaves(code), right);
    round := FriRound(root, code[left], code[right], proofLeft.value, proofRight.value);
  }

  /** The prover's query loop. */
  method QueryLoop(h: Hash, codes: seq<seq<felt>>, roots: seq<bytes>, query: nat) returns (rounds: seq<FriRound>)
    requires |codes| == |roots| && Foldable(codes)
    ensures rounds == QueryPhase(h, codes, roots, query)
  {
    rounds := [];
    var idx: nat := query;
    var layer := 0;
    ghost var whole := QueryPhase(h, codes, roots, query);
    while layer < |codes|
      invariant 0 <= layer <= |codes|
      invariant rounds + QueryPhase(h, codes[layer..], roots[layer..], idx) == whole
    {
      QueryStep(h, codes, roots, idx, rounds, layer);
      var n := |codes[layer]|;
      var left := Position(idx, n);
      var right := Mirror(left, n);
      var round := OpenLayer(h, codes[layer], roots[layer], left, right);
      rounds := rounds + [round];
      idx := Descend(left, n);
      layer := layer + 1;
    }
    assert rounds + [] == rounds;
  }

  lemma QueryStep(h: Hash, codes: seq<seq<felt>>, roots: seq<bytes>, idx: nat, rounds: seq<FriRound>, k: nat)
    requires |codes| == |roots| && k < |codes| && Foldable(codes)
    ensures var n := |codes[k]|;
      var left := Position(idx, n);
      rounds + QueryPhase(h, codes[k..], roots[k..], idx)
      == (rounds + [QueryRound(h, codes[k], roots[k], left, Mirror(left, n))])
         + QueryPhase(h, codes[k + 1..], roots[k + 1..], Descend(left, n))
  {
    assert codes[k..][1..] == codes[k + 1..] && roots[k..][1..] == roots[k + 1..];
    var n := |codes[k]|;
    var left := Position(idx, n);
    AppendAssoc(rounds, QueryRound(h, codes[k], roots[k], left, Mirror(left, n)),
                QueryPhase(h, codes[k + 1..], roots[k + 1..], Descend(left, n)));
  }

  // ---------- the verifier ----------

  /** The checks of one round, before the fold. */
  predicate RoundOk(h: Hash, r: FriRound, commitment: bytes, left: int, right: int, expected: Option<int>) {
    && commitment == r.commitment
    && r.proofLeft.index == left
    && r.proofRight.index == right
    && FromBytes(r.proofLeft.leaf) == r.queriedLeft
    && FromBytes(r.proofRight.leaf) == r.queriedRight
    && Verifies(h, commitment, r.proofLeft)
    && Verifies(h, commitment, r.proofRight)
    && (expected.Some? ==> r.queriedLeft == expected.value)
  }

  /** The state of the verifier's loop, or its early exit. */
  datatype Replay = Done(transcript: bytes, expected: Option<int>) | Stopped(verdict: Verdict)

  /** A round on a domain of size one ends in a modulo by zero. */
  function Rounds(h: Hash, t: bytes, idx: int, dom: seq<int>, expected: Option<int>,
                  commitments: seq<bytes>, rounds: seq<FriRound>): (r: Replay)
    requires |dom| >= 1 && |commitments| == |rounds|
    ensures r.Stopped? ==> r.verdict != Accept
    decreases rounds
  {
    if rounds == [] then Done(t, expected)
    else
      var n, r := |dom|, rounds[0];
      var t' := Absorb(h, t, commitments[0]);
      var left := Position(idx, n);
      if !RoundOk(h, r, commitments[0], left, Mirror(left, n), expected) then Stopped(Reject)
      else if n == 1 then Stopped(Raise)
      else
        var folded := FoldValue(r.queriedLeft, r.queriedRight, dom[left], Challenge(h, t', "fri-beta"));
        Rounds(h, t', Descend(left, n), FoldDomain(dom), Some(folded), commitments[1..], rounds[1..])
  }

  predicate WellShaped(proof: StarkProof) {
    && proof.commitments != []
    && proof.friProof != []
    && |proof.commitments| == |proof.friProof|
    && PowerOfTwo(proof.domainSize)
  }

  function FinalChecks(h: Hash, proof: StarkProof, t: bytes, expected: Option<int>): Verdict
    requires proof.domainSize >= 1
  {
    if expected.None? || expected.value != Felt(proof.finalConstant) then Reject
    else if Position(Challenge(h, t, "fri-query"), proof.domainSize) == proof.queryIndex then Accept
    else Reject
  }

  function ReplayOf(h: Hash, proof: StarkProof, transcript: bytes): Replay
    requires WellShaped(proof) && proof.domainSize <= MAX_DOMAIN
  {
    Rounds(h, transcript, Position(proof.queryIndex, proof.domainSize), Domain(proof.domainSize), None,
           proof.commitments, proof.friProof)
  }

  function VerifySpec(h: Hash, proof: StarkProof, transcript: bytes): Verdict {
    if !WellShaped(proof) then Reject
    else if proof.domainSize > MAX_DOMAIN then Raise
    else
      var replay := ReplayOf(h, proof, transcript);
      if replay.Stopped? then replay.verdict else FinalChecks(h, proof, replay.transcript, replay.expected)
  }

  method CheckRound(h: Hash, r: FriRound, commitment: bytes, left: int, right: int, expected: Option<int>)
    returns (ok: bool)
    ensures ok == RoundOk(h, r, commitment, left, right, expected)
  {
    if commitment != r.commitment { return false; }
    if r.proofLeft.index != left || r.proofRight.index != right { return false; }
    if FromBytes(r.proofLeft.leaf) != r.queriedLeft { return false; }
    if FromBytes(r.proofRight.leaf) != r.queriedRight { return false; }
    ok := MerkleVerify(h, commitment, r.proofLeft);
    if !ok { return false; }
    ok := MerkleVerify(h, commitment, r.proofRight);
    if !ok { return false; }
    return expected.None? || r.queriedLeft == expected.value;
  }

  lemma RoundsStep(h: Hash, t: bytes, idx: int, dom: seq<int>, expected: Option<int>,
                   commitments: seq<bytes>, rounds: seq<FriRound>, k: nat)
    requires |dom| >= 1 && |commitments| == |rounds| && k < |rounds|
    ensures var n, r := |dom|, rounds[k];
      var t' := Absorb(h, t, commitments[k]);
      var left := Position(idx, n);
      Rounds(h, t, idx, dom, expected, commitments[k..], rounds[k..]) ==
        if !RoundOk(h, r, commitments[k], left, Mirror(left, n), expected) then Stopped(Reject)
        else if n == 1 then Stopped(Raise)
        else Rounds(h, t', Descend(left, n), FoldDomain(dom),
                    Some(FoldValue(r.queriedLeft, r.queriedRight, dom[left], Challenge(h, t', "fri-beta"))),
                    commitments[k + 1..], rounds[k + 1..])
  {
    assert commitments[k..][1..] == commitments[k + 1..] && rounds[k..][1..] == rounds[k + 1..];
  }

  method Verify(h: Hash, proof: StarkProof, transcript: bytes) returns (v: Verdict)
    ensures v == VerifySpec(h, proof, transcript)
  {
    if proof.commitments == [] || proof.friProof == [] { return Reject; }
    if |proof.commitments| != |proof.friProof| { return Reject; }
    if !PowerOfTwo(proof.domainSize) { return Reject; }
    if proof.domainSize > MAX_DOMAIN { return Raise; }
    var t, idx, dom := transcript, Position(proof.queryIndex, proof.domainSize), Domain(proof.domainSize);
    var expected: Option<int> := None;
    var layer := 0;
    ghost var whole := Rounds(h, t, idx, dom, None, proof.commitments, proof.friProof);
    while layer < |proof.friProof|
      invariant 0 <= layer <= |proof.friProof| && |dom| >= 1
      invariant Rounds(h, t, idx, dom, expected, proof.commitments[layer..], proof.friProof[layer..]) == whole
    {
      RoundsStep(h, t, idx, dom, expected, proof.commitments, proof.friProof, layer);
      var round, commitment, n := proof.friProof[layer], proof.commitments[layer], |dom|;
      t := Absorb(h, t, commitment);
      var left := Position(idx, n);
      var right := Mirror(left, n);
      var ok := CheckRound(h, round, commitment, left, right, expected);
      if !ok { return Reject; }
      if n == 1 { return Raise; }
      expected := Some(FoldValue(round.queriedLeft, round.queriedRight, dom[left], Challenge(h, t, "fri-beta")));
      idx, dom := Descend(left, n), FoldDomain(dom);
      layer := layer + 1;
    }
    if expected.None? || expected.value != Felt(proof.finalConstant) { return Reject; }
    return if Position(Challenge(h, t, "fri-query"), proof.domainSize) == proof.queryIndex then Accept else Reject;
  }
}
