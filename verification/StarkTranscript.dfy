/** What the Fiat-Shamir transcript binds: every commitment, its place, and with them the whole of an
    accepted proof. */
module StarkTranscript {
  import opened Collections
  import opened ModArith
  import opened Bytes
  import opened StarkField
  import opened StarkMerkle
  import opened Fri
  import opened StarkProtocol
  import opened StarkTheorems

  /** The preimage of the transcript that follows t once a root is absorbed. */
  function AbsorbInput(t: bytes, root: bytes): bytes {
    Frame([t, Ascii("fri-commit"), root])
  }

  /** The preimage of a challenge. */
  function ChallengeInput(t: bytes, tag: string): bytes {
    Frame([t, Ascii(tag)])
  }

  /** Every input hashed while the commitments are absorbed. */
  function TranscriptInputs(h: Hash, t: bytes, commitments: seq<bytes>): set<bytes> {
    set k | 0 <= k < |commitments| :: AbsorbInput(TranscriptAfter(h, t, commitments, k), commitments[k])
  }

  lemma ShortFramable(b: bytes)
    requires |b| <= 0x100_0000
    ensures Framable(b)
  {
    assert Pow(256, 4) == 256 * Pow(256, 3) && Pow(256, 3) == 256 * Pow(256, 2);
  }

  lemma AbsorbInputInjective(t: bytes, root: bytes, u: bytes, other: bytes)
    requires AbsorbInput(t, root) == AbsorbInput(u, other)
    requires Framable(t) && Framable(root) && Framable(u) && Framable(other)
    ensures t == u && root == other
  {
    ShortFramable(Ascii("fri-commit"));
    var a, b := [t, Ascii("fri-commit"), root], [u, Ascii("fri-commit"), other];
    FrameInjective(a, b);
    assert a[0] == b[0] && a[2] == b[2];
  }

  /** A longer transcript absorbs one commitment more, the last one. */
  lemma {:induction false} TranscriptLast(h: Hash, t: bytes, commitments: seq<bytes>, k: nat)
    requires k < |commitments|
    ensures TranscriptAfter(h, t, commitments, k + 1)
         == h(AbsorbInput(TranscriptAfter(h, t, commitments, k), commitments[k]))
    decreases k
  {
    if k > 0 {
      TranscriptLast(h, Absorb(h, t, commitments[0]), commitments[1..], k - 1);
    }
  }

  lemma TranscriptFramable(h: Hash, t: bytes, commitments: seq<bytes>, k: nat)
    requires Digests(h) && Framable(t) && k <= |commitments|
    ensures Framable(TranscriptAfter(h, t, commitments, k))
    ensures k > 0 ==> |TranscriptAfter(h, t, commitments, k)| == 32
  {
    if k > 0 {
      TranscriptLast(h, t, commitments, k - 1);
      DigestFramable(TranscriptAfter(h, t, commitments, k));
    }
  }

  /** A transcript determines what went into it: two runs that reach one transcript started alike and
      absorbed the same commitments in the same order. Equally many is known beforehand or follows, when
      neither start has the length of a digest. */
  lemma {:induction false} TranscriptBinds(
      h: Hash, t: bytes, cs: seq<bytes>, j: nat, u: bytes, ds: seq<bytes>, k: nat)
    requires Digests(h) && Framable(t) && Framable(u) && j <= |cs| && k <= |ds|
    requires forall c :: c in cs || c in ds ==> |c| == 32
    requires InjectiveOn(h, TranscriptInputs(h, t, cs) + TranscriptInputs(h, u, ds))
    requires j == k || (|t| != 32 && |u| != 32)
    requires TranscriptAfter(h, t, cs, j) == TranscriptAfter(h, u, ds, k)
    ensures t == u && j == k && cs[..j] == ds[..k]
    decreases j
  {
    hide Absorb, TranscriptAfter, AbsorbInput;
    TranscriptFramable(h, t, cs, j);
    TranscriptFramable(h, u, ds, k);
    if j > 0 && k > 0 {
      TranscriptLast(h, t, cs, j - 1);
      TranscriptLast(h, u, ds, k - 1);
      var x := AbsorbInput(TranscriptAfter(h, t, cs, j - 1), cs[j - 1]);
      var y := AbsorbInput(TranscriptAfter(h, u, ds, k - 1), ds[k - 1]);
      assert x in TranscriptInputs(h, t, cs) && y in TranscriptInputs(h, u, ds);
      TranscriptFramable(h, t, cs, j - 1);
      TranscriptFramable(h, u, ds, k - 1);
      DigestFramable(cs[j - 1]);
      DigestFramable(ds[k - 1]);
      AbsorbInputInjective(TranscriptAfter(h, t, cs, j - 1), cs[j - 1], TranscriptAfter(h, u, ds, k - 1), ds[k - 1]);
      TranscriptBinds(h, t, cs, j - 1, u, ds, k - 1);
      assert cs[..j] == cs[..j - 1] + [cs[j - 1]] && ds[..k] == ds[..k - 1] + [ds[k - 1]];
    } else {
      NothingAbsorbed(h, t, cs);
      NothingAbsorbed(h, u, ds);
    }
  }

  lemma NothingAbsorbed(h: Hash, t: bytes, commitments: seq<bytes>)
    ensures TranscriptAfter(h, t, commitments, 0) == t
  {}

  /** A challenge is tied to its transcript and its tag: the digests behind two challenges are equal only
      when both are, and so are the challenges themselves where digests stay apart modulo P. */
  lemma ChallengeBinds(h: Hash, t: bytes, a: string, u: bytes, b: string)
    requires Framable(t) && Framable(u) && |a| <= 0x100_0000 && |b| <= 0x100_0000
    requires forall c :: c in a || c in b ==> c as int < 256
    ensures InjectiveOn(h, {ChallengeInput(t, a), ChallengeInput(u, b)}) ==>
      (ChallengeDigest(h, t, a) == ChallengeDigest(h, u, b) <==> t == u && a == b)
    ensures InjectiveModulo(h, {ChallengeInput(t, a), ChallengeInput(u, b)}, P) ==>
      (Challenge(h, t, a) == Challenge(h, u, b) <==> t == u && a == b)
  {
    hide FromBytes, Frame, Ascii;
    if ChallengeInput(t, a) == ChallengeInput(u, b) {
      ChallengeInputInjective(t, a, u, b);
    }
  }

  lemma ChallengeInputInjective(t: bytes, a: string, u: bytes, b: string)
    requires Framable(t) && Framable(u) && |a| <= 0x100_0000 && |b| <= 0x100_0000
    requires forall c :: c in a || c in b ==> c as int < 256
    requires ChallengeInput(t, a) == ChallengeInput(u, b)
    ensures t == u && a == b
  {
    ShortFramable(Ascii(a));
    ShortFramable(Ascii(b));
    var x, y := [t, Ascii(a)], [u, Ascii(b)];
    FrameInjective(x, y);
    assert x[0] == y[0] && x[1] == y[1];
    AsciiInjective(a, b);
  }

  // ---------- what it means for accepted proofs ----------

  function FinalTranscript(h: Hash, proof: StarkProof, transcript: bytes): bytes {
    TranscriptAfter(h, transcript, proof.commitments, |proof.commitments|)
  }

  ghost predicate TranscriptsApart(h: Hash, a: StarkProof, b: StarkProof, transcript: bytes) {
    && Digests(h) && Framable(transcript)
    && (forall c :: c in a.commitments || c in b.commitments ==> |c| == 32)
    && InjectiveOn(h, TranscriptInputs(h, transcript, a.commitments) + TranscriptInputs(h, transcript, b.commitments))
  }

  /** Openings within the length prefixes, on whose inputs the hash does not collide. The path lengths are
      compared because the verifier does not look at them. */
  ghost predicate OpeningsApart(h: Hash, p: MerkleProof, q: MerkleProof) {
    && InjectiveOn(h, ProofInputs(h, p) + ProofInputs(h, q)) && |p.path| == |q.path|
    && Framable(p.leaf) && Framable(q.leaf) && forall s :: s in p.path || s in q.path ==> Framable(s)
  }

  lemma SameOpening(h: Hash, root: bytes, p: MerkleProof, q: MerkleProof)
    requires Digests(h) && OpeningsApart(h, p, q) && p.index == q.index && Verifies(h, root, p) && Verifies(h, root, q)
    ensures p == q
  {
    hide ProofInputs;
    ProofBinding(h, p, q);
  }

  lemma SameRound(h: Hash, commitment: bytes, a: FriRound, b: FriRound)
    requires Authenticated(h, a, commitment) && Authenticated(h, b, commitment)
    requires a.proofLeft.index == b.proofLeft.index && a.proofRight.index == b.proofRight.index
    requires Digests(h) && OpeningsApart(h, a.proofLeft, b.proofLeft) && OpeningsApart(h, a.proofRight, b.proofRight)
    ensures a == b
  {
    hide Verifies, OpeningsApart, FromBytes;
    SameOpening(h, commitment, a.proofLeft, b.proofLeft);
    SameOpening(h, commitment, a.proofRight, b.proofRight);
  }

  lemma HeldRounds(h: Hash, t: bytes, idx: int, dom: seq<int>, cs: seq<bytes>,
                   a: seq<FriRound>, b: seq<FriRound>, k: nat)
    requires k < |a| == |b| == |cs| && Digests(h)
    requires RoundHolds(h, t, idx, dom, None, cs, a, k) && RoundHolds(h, t, idx, dom, None, cs, b, k)
    requires OpeningsApart(h, a[k].proofLeft, b[k].proofLeft) && OpeningsApart(h, a[k].proofRight, b[k].proofRight)
    ensures a[k] == b[k]
  {
    hide Authenticated, FoldedAfter, OpeningsApart, DomainAfter, LeftAfter;
    SameRound(h, cs[k], a[k], b[k]);
  }

  /** Two accepted proofs that end in one transcript carry the same commitments round by round; over one
      domain they open the same query, and with openings of equal depth the same values with the same
      proofs, down to the same constant modulo P. Only the claimed evaluations and degree bound are free. */
  lemma TranscriptDeterminesProof(h: Hash, a: StarkProof, b: StarkProof, transcript: bytes)
    requires VerifySpec(h, a, transcript) == Accept && VerifySpec(h, b, transcript) == Accept
    requires TranscriptsApart(h, a, b, transcript) && (|a.commitments| == |b.commitments| || |transcript| != 32)
    requires FinalTranscript(h, a, transcript) == FinalTranscript(h, b, transcript)
    ensures a.commitments == b.commitments && |a.friProof| == |b.friProof|
    ensures a.domainSize == b.domainSize ==> a.queryIndex == b.queryIndex
    ensures a.domainSize == b.domainSize
        && (forall k :: 0 <= k < |a.friProof| ==>
              OpeningsApart(h, a.friProof[k].proofLeft, b.friProof[k].proofLeft)
              && OpeningsApart(h, a.friProof[k].proofRight, b.friProof[k].proofRight))
        ==> a.friProof == b.friProof && Cong(a.finalConstant, b.finalConstant, P)
  {
    hide Domain, Challenge, RoundHolds, FoldedAfter, PowerOfTwo, TranscriptAfter, TranscriptInputs,
      OpeningsApart;
    AcceptanceExactly(h, a, transcript);
    AcceptanceExactly(h, b, transcript);
    var n, m := |a.commitments|, |b.commitments|;
    TranscriptBinds(h, transcript, a.commitments, n, transcript, b.commitments, m);
    assert a.commitments == a.commitments[..n] && b.commitments == b.commitments[..m];
    if a.domainSize == b.domainSize
       && forall k :: 0 <= k < n ==> OpeningsApart(h, a.friProof[k].proofLeft, b.friProof[k].proofLeft)
                                     && OpeningsApart(h, a.friProof[k].proofRight, b.friProof[k].proofRight)
    {
      var idx, dom := a.queryIndex % a.domainSize, Domain(a.domainSize);
      forall k | 0 <= k < n ensures a.friProof[k] == b.friProof[k] {
        HeldRounds(h, transcript, idx, dom, a.commitments, a.friProof, b.friProof, k);
      }
      assert a.friProof == b.friProof;
    }
  }
}
