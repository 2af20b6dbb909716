/** Whole runs of the node: for every interleaving of submissions, slashings and block productions
    from boot, what the chain, the validator sets and the queue hold. */
module ChainNodeTheorems {
  import opened Collections
  import opened Bytes
  import opened Consensus
  import opened ChainBlock
  import opened ChainNode
  import ConsensusTheorems
  import ChainMerkle
  import ChainMerkleTheorems

  datatype Event = Submit(outcome: MatchOutcome) | Slash(evidence: Evidence) | Produce(round: Round, maxPayload: int)

  predicate Timely(e: Event) {
    e.Produce? ==> e.round.timestamp < TIMESTAMP_BOUND
  }

  // ---------- what one round does ----------

  /** The keys of the active validators. */
  function ActiveKeys(s: NodeState): set<bytes> {
    set i | i in s.active && i < |s.validators| :: s.validators[i].blsKey
  }

  /** A round appends one finalised block over the drained outcomes and all pending slashings, or
      leaves everything but the queue as it was. */
  ghost predicate RoundOutcome(p: Protocol, s: NodeState, t: NodeState, r: ProduceResult, n: nat)
    requires WellShaped(s) && n <= |s.queue|
  {
    if r.Produced? then
      && t == s.(queue := s.queue[n..], chain := s.chain + [r.block], pending := [])
      && r.block.payload == s.queue[..n] && r.block.slashings == s.pending
      && BlockFits(p, s, r.block)
    else
      t == s || t == s.(queue := s.queue[n..])
  }

  /** The aggregate signature of the block verifies for the keys it lists, over its own hash and height. */
  predicate Certified(p: Protocol, b: Block)
    requires b.header.height < HEIGHT_BOUND && b.header.timestamp < TIMESTAMP_BOUND
  {
    p.bls.fastAggregateVerify(b.pubkeys, SignPayload(HeaderHash(p.hash, b.header), b.header.height), b.aggregate)
  }

  ghost predicate BlockFits(p: Protocol, s: NodeState, b: Block)
    requires WellShaped(s)
  {
    && b.header.height == |s.chain| < HEIGHT_BOUND && b.header.timestamp < TIMESTAMP_BOUND
    && b.header.prevHash == HeadHash(p, s) && Rooted(p.hash, p.enc, b) && Certified(p, b)
    && b.header.proposer in ActiveKeys(s) && (forall k :: k in b.pubkeys ==> k in ActiveKeys(s))
    && 3 * |b.pubkeys| >= 2 * |ActiveSlots(s)|
  }

  lemma SignersActive(p: Protocol, s: NodeState, message: bytes)
    requires WellShaped(s)
    ensures forall q :: q in Signatures(p, s, message) ==> q.0 in ActiveKeys(s)
  {
    forall q | q in Signatures(p, s, message) ensures q.0 in ActiveKeys(s) {
      var i :| 0 <= i < |Signatures(p, s, message)| && Signatures(p, s, message)[i] == q;
      assert ActiveSlots(s)[i] in ActiveSlots(s);
    }
  }

  lemma CeilOfTwoThirds(n: nat)
    ensures 3 * Threshold(2, n, 3) >= 2 * n
  {}

  /** A successful count of signatures: the bundle names submitted signers and meets the threshold. */
  lemma BundleMeaning(bls: Bls, hash: bytes, height: nat, signed: seq<Signed>, n: nat)
    requires FinaliseSpec(bls, hash, height, signed, FinalityRule(n)).Finalised?
    ensures height < HEIGHT_BOUND
    ensures var r := FinaliseSpec(bls, hash, height, signed, FinalityRule(n));
      && 3 * |r.pubkeys| >= 2 * n && (forall k :: k in r.pubkeys ==> exists q :: q in signed && q.0 == k)
      && bls.fastAggregateVerify(r.pubkeys, SignPayload(hash, height), r.aggregate)
  {
    var message := SignPayload(hash, height);
    var valid := ValidOf(bls, message, signed);
    ConsensusTheorems.ValidSubmitted(bls, message, signed);
    CeilOfTwoThirds(n);
    forall k | k in KeysOf(valid) ensures exists q :: q in signed && q.0 == k {
      var i :| 0 <= i < |valid| && KeysOf(valid)[i] == k;
      assert valid[i] in valid;
    }
  }

  lemma SealFits(p: Protocol, s: NodeState, round: Round, payload: seq<MatchOutcome>)
    requires WellShaped(s) && ActiveSlots(s) != [] && |s.chain| < HEIGHT_BOUND && round.timestamp < TIMESTAMP_BOUND
    requires Seal(p, s, round, payload).1.Produced?
    ensures BlockFits(p, s, Seal(p, s, round, payload).1.block)
  {
    var draft := Draft(p, s, round, payload).value;
    var hash := HeaderHash(p.hash, draft.header);
    var message := SignPayload(hash, draft.header.height);
    var signed := Signatures(p, s, message);
    BundleMeaning(p.bls, hash, draft.header.height, signed, |ActiveSlots(s)|);
    SignersActive(p, s, message);
    var leader := SmallestOutput(Outputs(s, round, Seed(p, s)));
    assert ActiveSlots(s)[leader] in ActiveSlots(s);
  }

  /** Draining the queue changes nothing a block has to fit. */
  lemma QueueIrrelevant(p: Protocol, s: NodeState, n: nat, b: Block)
    requires WellShaped(s) && n <= |s.queue|
    ensures BlockFits(p, s.(queue := s.queue[n..]), b) ==> BlockFits(p, s, b)
  {
    var drained := s.(queue := s.queue[n..]);
    assert ActiveSlots(drained) == ActiveSlots(s) && ActiveKeys(drained) == ActiveKeys(s);
  }

  lemma ProduceMeaning(p: Protocol, s: NodeState, round: Round, maxPayload: int)
    requires WellShaped(s) && round.timestamp < TIMESTAMP_BOUND
    ensures var (t, r) := ProduceStep(p, s, round, maxPayload);
      RoundOutcome(p, s, t, r, Taken(s.queue, maxPayload))
  {
    hide Seal, Draft, FinalityOf, LeaderVerifies, BlockFits, HeadHash, Enqueue;
    var r := ProduceStep(p, s, round, maxPayload).1;
    var n := Taken(s.queue, maxPayload);
    var drained := s.(queue := s.queue[n..]);
    if s.queue == [] && s.pending == [] {
    } else if ActiveSlots(s) != [] && |s.chain| < HEIGHT_BOUND {
      SealMeaning(p, drained, round, s.queue[..n]);
      if r.Produced? {
        QueueIrrelevant(p, s, n, r.block);
      }
    }
  }

  lemma SealMeaning(p: Protocol, s: NodeState, round: Round, payload: seq<MatchOutcome>)
    requires WellShaped(s) && ActiveSlots(s) != [] && |s.chain| < HEIGHT_BOUND && round.timestamp < TIMESTAMP_BOUND
    ensures var (t, r) := Seal(p, s, round, payload);
      if r.Produced? then
        && t == s.(chain := s.chain + [r.block], pending := [])
        && r.block.payload == payload && r.block.slashings == s.pending && BlockFits(p, s, r.block)
      else t == s
  {
    hide BlockFits, FinalityOf, HeadHash;
    if Seal(p, s, round, payload).1.Produced? {
      SealFits(p, s, round, payload);
    }
  }

  /** The proposer of a round is the active validator with the smallest random output, and that output
      verifies. */
  lemma ProposerElected(p: Protocol, s: NodeState, round: Round, maxPayload: int) returns (slot: nat)
    requires WellShaped(s) && round.timestamp < TIMESTAMP_BOUND
    requires ProduceStep(p, s, round, maxPayload).1.Produced?
    ensures slot < |s.validators| && slot in s.active
    ensures var b, seed := ProduceStep(p, s, round, maxPayload).1.block, Seed(p, s);
      var output := round.vrfProve(s.secrets[slot].vrfSecret, seed);
      && b.header.proposer == s.validators[slot].blsKey && b.header.beta == output.beta
      && b.header.timestamp == round.timestamp
      && p.vrfVerify(s.validators[slot].vrfKey, seed, output)
      && forall i :: i in s.active ==>
        FromBytes(output.beta) <= FromBytes(round.vrfProve(s.secrets[i].vrfSecret, seed).beta)
  {
    hide FromBytes, SmallestOutput, FinalityOf, Leaves, HeaderHash;
    var outputs := Outputs(s, round, Seed(p, s));
    var leader := SmallestOutput(outputs);
    slot := ActiveSlots(s)[leader];
    assert slot in ActiveSlots(s);
    var drained := s.(queue := s.queue[Taken(s.queue, maxPayload)..]);
    assert ActiveSlots(drained) == ActiveSlots(s) && Seed(p, drained) == Seed(p, s);
    assert Outputs(drained, round, Seed(p, s)) == outputs;
    forall i | i in s.active
      ensures FromBytes(outputs[leader].beta) <= FromBytes(round.vrfProve(s.secrets[i].vrfSecret, Seed(p, s)).beta)
    {
      assert i in ActiveSlots(s);
      var k :| 0 <= k < |ActiveSlots(s)| && ActiveSlots(s)[k] == i;
      assert FromBytes(outputs[leader].beta) <= FromBytes(outputs[k].beta);
    }
  }

  // ---------- runs ----------

  ghost function Step(p: Protocol, s: NodeState, e: Event): NodeState
    requires WellShaped(s) && Timely(e)
  {
    match e
    case Submit(outcome) => SubmitStep(s, outcome)
    case Slash(evidence) => SlashStep(p, s, evidence).0
    case Produce(round, maxPayload) => ProduceStep(p, s, round, maxPayload).0
  }

  lemma StepShaped(p: Protocol, s: NodeState, e: Event)
    requires WellShaped(s) && Timely(e)
    ensures WellShaped(Step(p, s, e))
  {
    hide SubmitStep, SlashStep, ProduceStep;
    match e
    case Submit(outcome) => SubmitShaped(s, outcome);
    case Slash(evidence) => SlashShaped(p, s, evidence);
    case Produce(round, maxPayload) => ProduceShaped(p, s, round, maxPayload);
  }

  lemma SubmitShaped(s: NodeState, outcome: MatchOutcome)
    requires WellShaped(s)
    ensures WellShaped(SubmitStep(s, outcome))
  {}

  lemma SlashShaped(p: Protocol, s: NodeState, e: Evidence)
    requires WellShaped(s)
    ensures WellShaped(SlashStep(p, s, e).0)
  {}

  lemma ProduceShaped(p: Protocol, s: NodeState, round: Round, maxPayload: int)
    requires WellShaped(s) && round.timestamp < TIMESTAMP_BOUND
    ensures WellShaped(ProduceStep(p, s, round, maxPayload).0)
  {
    hide ProduceStep, BlockFits;
    var r := ProduceStep(p, s, round, maxPayload).1;
    ProduceMeaning(p, s, round, maxPayload);
    if r.Produced? {
      FitsBounds(p, s, r.block);
    }
  }

  lemma FitsBounds(p: Protocol, s: NodeState, b: Block)
    requires WellShaped(s) && BlockFits(p, s, b)
    ensures b.header.height < HEIGHT_BOUND && b.header.timestamp < TIMESTAMP_BOUND
  {}

  ghost predicate AllTimely(events: seq<Event>) {
    forall e :: e in events ==> Timely(e)
  }

  ghost function Run(p: Protocol, s: NodeState, events: seq<Event>): (r: NodeState)
    requires WellShaped(s) && AllTimely(events)
    ensures WellShaped(r)
  {
    if events == [] then s
    else
      var last := |events| - 1;
      var before := Run(p, s, events[..last]);
      StepShaped(p, before, events[last]);
      Step(p, before, events[last])
  }

  // ---------- the linked chain ----------

  ghost predicate LinkedAt(p: Protocol, chain: seq<Block>, i: nat)
    requires i < |chain|
  {
    && chain[i].header.height == i < HEIGHT_BOUND && chain[i].header.timestamp < TIMESTAMP_BOUND
    && Rooted(p.hash, p.enc, chain[i]) && Certified(p, chain[i])
    && if i == 0 then chain[0].header.prevHash == GenesisPrevHash()
       else var last := chain[i - 1].header;
         last.height < HEIGHT_BOUND && last.timestamp < TIMESTAMP_BOUND
           && chain[i].header.prevHash == HeaderHash(p.hash, last)
  }

  /** Block i has height i, the Merkle root of what it carries, the hash of block i-1, and an aggregate
      signature that verifies. */
  ghost predicate Linked(p: Protocol, chain: seq<Block>) {
    forall i :: 0 <= i < |chain| ==> LinkedAt(p, chain, i)
  }

  lemma LinkedAppend(p: Protocol, s: NodeState, b: Block)
    requires WellShaped(s) && Linked(p, s.chain) && BlockFits(p, s, b)
    ensures Linked(p, s.chain + [b])
  {
    hide HeaderHash, Rooted, ActiveSlots, ActiveKeys, Certified;
    var chain := s.chain + [b];
    forall i | 0 <= i < |chain| ensures LinkedAt(p, chain, i) {
      if i < |s.chain| {
        assert LinkedAt(p, s.chain, i);
      } else if i > 0 {
        assert s.chain[i - 1] in s.chain;
      }
    }
  }

  // ---------- slashings ----------

  ghost predicate DistinctKeys(validators: seq<Identity>) {
    forall i, j :: 0 <= i < j < |validators| ==> validators[i].blsKey != validators[j].blsKey
  }

  function AllSlashings(chain: seq<Block>): seq<SlashingTx> {
    if chain == [] then [] else AllSlashings(chain[..|chain| - 1]) + chain[|chain| - 1].slashings
  }

  /** Every slashing on the chain or waiting for it, in order. */
  function Ledger(s: NodeState): seq<SlashingTx> {
    AllSlashings(s.chain) + s.pending
  }

  function KeysOfAll(s: NodeState): set<bytes> {
    set i | 0 <= i < |s.validators| :: s.validators[i].blsKey
  }

  /** The active and the slashed validators partition the set. */
  ghost predicate Partitioned(s: NodeState) {
    && (forall i :: 0 <= i < |s.validators| ==> (i in s.active <==> s.validators[i].blsKey !in s.slashed))
    && s.slashed <= KeysOfAll(s)
  }

  ghost predicate Convicts(p: Protocol, tx: SlashingTx) {
    VerifyEvidence(p.bls, tx.evidence) == Some(true)
  }

  /** The ledger holds one verified slashing for each slashed validator and none for any other. */
  ghost predicate Accounted(p: Protocol, s: NodeState) {
    && (forall i :: 0 <= i < |Ledger(s)| ==> Convicts(p, Ledger(s)[i]) && Ledger(s)[i].evidence.offender in s.slashed)
    && (forall i, j :: 0 <= i < j < |Ledger(s)| ==> Ledger(s)[i].evidence.offender != Ledger(s)[j].evidence.offender)
    && |Ledger(s)| + |s.active| == |s.validators|
  }

  /** A slashing is recorded by the first block produced after it was accepted. */
  ghost predicate Prompt(s: NodeState) {
    && (forall tx :: tx in s.pending ==> tx.heightObserved == |s.chain|)
    && (forall i, tx :: 0 <= i < |s.chain| && tx in s.chain[i].slashings ==> tx.heightObserved == i)
  }

  /** Block i is signed by two thirds of the validators not slashed by then, and by no other. */
  ghost predicate SignedSoundly(s: NodeState, i: nat)
    requires i < |s.chain|
  {
    var b, known := s.chain[i], AllSlashings(s.chain[..i + 1]);
    && (forall k :: k in b.pubkeys || k == b.header.proposer ==> k in KeysOfAll(s))
    && (forall tx :: tx in known ==> tx.evidence.offender !in b.pubkeys && tx.evidence.offender != b.header.proposer)
    && 3 * |b.pubkeys| >= 2 * (|s.validators| - |known|)
  }

  ghost predicate AllSignedSoundly(s: NodeState) {
    forall i :: 0 <= i < |s.chain| ==> SignedSoundly(s, i)
  }

  ghost predicate Sound(p: Protocol, s: NodeState) {
    && WellShaped(s) && DistinctKeys(s.validators) && Linked(p, s.chain) && Partitioned(s) && Accounted(p, s)
    && Prompt(s) && AllSignedSoundly(s)
  }

  lemma BootSound(p: Protocol, validators: seq<Identity>, secrets: seq<Secret>)
    requires |validators| == |secrets| && DistinctKeys(validators)
    ensures Sound(p, Boot(validators, secrets))
  {
  }

  lemma SlashSound(p: Protocol, s: NodeState, e: Evidence)
    requires Sound(p, s)
    ensures Sound(p, SlashStep(p, s, e).0)
  {
    hide LinkedAt, HeadHash, Rooted, SignedSoundly, VerifyEvidence;
    var (t, r) := SlashStep(p, s, e);
    OldBlocksSound(s, t);
    if r.Slashed? {
      var index := KeyFrom(s.validators, e.offender, 0);
      assert Ledger(t) == Ledger(s) + [r.tx];
      assert |t.active| == |s.active| - 1;
      assert KeysOfAll(t) == KeysOfAll(s);
      assert s.validators[index].blsKey in KeysOfAll(s);
    }
  }

  /** As many positions in the sorted list as slots in the set. */
  lemma {:induction false} ActiveCount(active: set<nat>, from: nat, n: nat)
    requires from <= n && forall i :: i in active ==> i < n
    ensures |ActiveFrom(active, from, n)| == |active - Slots(from)|
    decreases n - from
  {
    if from == n {
      assert active - Slots(n) == {};
    } else {
      ActiveCount(active, from + 1, n);
      if from in active {
        assert active - Slots(from) == active - Slots(from + 1) + {from};
      } else {
        assert active - Slots(from) == active - Slots(from + 1);
      }
    }
  }

  /** The appended block is signed soundly: the ledger it completes names exactly the inactive. */
  lemma NewBlockSound(p: Protocol, s: NodeState, t: NodeState, b: Block)
    requires Sound(p, s) && BlockFits(p, s, b) && b.slashings == s.pending
    requires t.chain == s.chain + [b] && t.validators == s.validators
    ensures SignedSoundly(t, |s.chain|)
  {
    hide LinkedAt, HeadHash, Rooted, ActiveSlots, VerifyEvidence;
    assert t.chain[..|s.chain| + 1] == t.chain && t.chain[..|s.chain|] == s.chain;
    assert AllSlashings(t.chain) == Ledger(s);
    forall tx | tx in Ledger(s) ensures tx.evidence.offender !in ActiveKeys(s) {
      var i :| 0 <= i < |Ledger(s)| && Ledger(s)[i] == tx;
    }
    assert |ActiveSlots(s)| == |s.active| by { SlotsOfActive(s); }
  }

  lemma SlotsOfActive(s: NodeState)
    requires WellShaped(s)
    ensures |ActiveSlots(s)| == |s.active|
  {
    ActiveCount(s.active, 0, |s.validators|);
    assert s.active - Slots(0) == s.active;
  }

  lemma ProduceSound(p: Protocol, s: NodeState, round: Round, maxPayload: int)
    requires Sound(p, s) && round.timestamp < TIMESTAMP_BOUND
    ensures Sound(p, ProduceStep(p, s, round, maxPayload).0)
  {
    hide ProduceStep, LinkedAt, HeadHash, Rooted, ActiveSlots, ActiveKeys, VerifyEvidence, Certified, SignedSoundly;
    var (t, r) := ProduceStep(p, s, round, maxPayload);
    ProduceMeaning(p, s, round, maxPayload);
    if r.Produced? {
      LinkedAppend(p, s, r.block);
      NewBlockSound(p, s, t, r.block);
      assert t.chain[..|s.chain|] == s.chain;
      assert Ledger(t) == Ledger(s);
    }
    OldBlocksSound(s, t);
  }

  /** Later steps leave the soundness of earlier blocks alone. */
  lemma OldBlocksSound(s: NodeState, t: NodeState)
    requires AllSignedSoundly(s) && s.chain <= t.chain && s.validators == t.validators
    ensures forall i :: 0 <= i < |s.chain| ==> SignedSoundly(t, i)
  {
    forall i | 0 <= i < |s.chain| ensures SignedSoundly(t, i) {
      assert SignedSoundly(s, i);
      assert t.chain[..i + 1] == s.chain[..i + 1];
    }
  }

  /** Every reachable state is sound: heights and hash links, the partition of the validators, one
      verified slashing per slashed validator, and blocks signed only by validators in standing. */
  lemma {:induction false} RunSound(p: Protocol, validators: seq<Identity>, secrets: seq<Secret>, events: seq<Event>)
    requires |validators| == |secrets| && DistinctKeys(validators) && AllTimely(events)
    ensures Sound(p, Run(p, Boot(validators, secrets), events))
  {
    var boot := Boot(validators, secrets);
    if events == [] {
      BootSound(p, validators, secrets);
    } else {
      var last := |events| - 1;
      RunSound(p, validators, secrets, events[..last]);
      StepSound(p, Run(p, boot, events[..last]), events[last]);
    }
  }

  lemma StepSound(p: Protocol, s: NodeState, e: Event)
    requires Sound(p, s) && Timely(e)
    ensures Sound(p, Step(p, s, e))
  {
    match e
    case Submit(outcome) => SubmitSound(p, s, outcome);
    case Slash(evidence) => SlashSound(p, s, evidence);
    case Produce(round, maxPayload) => ProduceSound(p, s, round, maxPayload);
  }

  lemma SubmitSound(p: Protocol, s: NodeState, outcome: MatchOutcome)
    requires Sound(p, s)
    ensures Sound(p, SubmitStep(s, outcome))
  {
    var t := SubmitStep(s, outcome);
    assert KeysOfAll(t) == KeysOfAll(s) && Ledger(t) == Ledger(s);
    OldBlocksSound(s, t);
  }

  // ---------- what is slashed ----------

  /** On a sound state evidence is accepted exactly when it verifies and names a validator not yet
      slashed; a validator in standing is always active. */
  lemma SlashedExactlyWhen(p: Protocol, s: NodeState, e: Evidence)
    requires Sound(p, s)
    ensures SlashStep(p, s, e).1.Slashed?
      <==> VerifyEvidence(p.bls, e) == Some(true) && e.offender in KeysOfAll(s) && e.offender !in s.slashed
    ensures !SlashStep(p, s, e).1.NotActive?
  {
    hide VerifyEvidence, LinkedAt, Rooted, SignedSoundly, Ledger, Convicts;
    var index := KeyFrom(s.validators, e.offender, 0);
    if e.offender in KeysOfAll(s) {
      var i :| 0 <= i < |s.validators| && s.validators[i].blsKey == e.offender;
      assert index <= i;
    }
  }

  lemma SlashedGrows(p: Protocol, s: NodeState, e: Event)
    requires WellShaped(s) && Timely(e)
    ensures s.slashed <= Step(p, s, e).slashed && Step(p, s, e).validators == s.validators
  {
    hide ProduceStep, HeadHash, BlockFits, VerifyEvidence;
    if e.Produce? {
      ProduceMeaning(p, s, e.round, e.maxPayload);
    }
  }

  lemma {:induction false} SlashedStays(p: Protocol, s: NodeState, events: seq<Event>, i: nat)
    requires WellShaped(s) && AllTimely(events) && i <= |events|
    ensures Run(p, s, events[..i]).slashed <= Run(p, s, events).slashed
    ensures Run(p, s, events).validators == s.validators
    decreases |events|
  {
    hide Step, Timely;
    if events != [] {
      var last := |events| - 1;
      SlashedStays(p, s, events[..last], if i < |events| then i else last);
      SlashedGrows(p, Run(p, s, events[..last]), events[last]);
      if i < |events| {
        assert events[..last][..i] == events[..i];
      } else {
        assert events[..i] == events;
      }
    }
  }

  /** Evidence that was accepted once is refused at every later moment of the run, and so is any other
      that verifies against its offender: each call raises and changes nothing. */
  lemma ResubmissionRefused(
      p: Protocol, validators: seq<Identity>, secrets: seq<Secret>, events: seq<Event>, i: nat, e: Evidence)
    requires |validators| == |secrets| && AllTimely(events) && i < |events| && events[i].Slash?
    requires SlashStep(p, Run(p, Boot(validators, secrets), events[..i]), events[i].evidence).1.Slashed?
    requires VerifyEvidence(p.bls, e) == Some(true) && e.offender == events[i].evidence.offender
    ensures var s := Run(p, Boot(validators, secrets), events);
      SlashStep(p, s, e) == (s, AlreadySlashed)
  {
    hide VerifyEvidence, Run, WellShaped, Timely;
    var boot, next := Boot(validators, secrets), events[..i + 1];
    BootShaped(validators, secrets);
    assert next[..i] == events[..i] && next[i] == events[i];
    SlashedStays(p, boot, events, i + 1);
    SlashedStays(p, boot, events[..i], 0);
    SlashApplied(p, boot, next);
  }

  lemma BootShaped(validators: seq<Identity>, secrets: seq<Secret>)
    requires |validators| == |secrets|
    ensures WellShaped(Boot(validators, secrets))
  {}

  lemma SlashApplied(p: Protocol, s: NodeState, events: seq<Event>)
    requires WellShaped(s) && AllTimely(events) && events != [] && events[|events| - 1].Slash?
    requires SlashStep(p, Run(p, s, events[..|events| - 1]), events[|events| - 1].evidence).1.Slashed?
    ensures events[|events| - 1].evidence.offender in Run(p, s, events).slashed
  {
    hide VerifyEvidence;
  }

  // ---------- exactly once ----------

  /** The slashings the node accepted during a run, in order. */
  ghost function AcceptedBy(p: Protocol, s: NodeState, events: seq<Event>): seq<SlashingTx>
    requires WellShaped(s) && AllTimely(events)
  {
    if events == [] then []
    else
      var last := |events| - 1;
      AcceptedBy(p, s, events[..last]) + AcceptedAt(p, Run(p, s, events[..last]), events[last])
  }

  ghost function AcceptedAt(p: Protocol, s: NodeState, e: Event): seq<SlashingTx> {
    if e.Slash? && SlashStep(p, s, e.evidence).1.Slashed? then [SlashStep(p, s, e.evidence).1.tx] else []
  }

  /** Each accepted slashing is in the ledger exactly once, in the order of acceptance. */
  lemma {:induction false} LedgerIsAccepted(p: Protocol, s: NodeState, events: seq<Event>)
    requires WellShaped(s) && AllTimely(events)
    ensures Ledger(Run(p, s, events)) == Ledger(s) + AcceptedBy(p, s, events)
  {
    if events != [] {
      var last := |events| - 1;
      LedgerIsAccepted(p, s, events[..last]);
      LedgerStep(p, Run(p, s, events[..last]), events[last]);
    }
  }

  lemma LedgerStep(p: Protocol, s: NodeState, e: Event)
    requires WellShaped(s) && Timely(e)
    ensures Ledger(Step(p, s, e)) == Ledger(s) + AcceptedAt(p, s, e)
  {
    hide ProduceStep, HeadHash, BlockFits, VerifyEvidence;
    var t := Step(p, s, e);
    if e.Produce? {
      ProduceMeaning(p, s, e.round, e.maxPayload);
      var r := ProduceStep(p, s, e.round, e.maxPayload).1;
      if r.Produced? {
        assert t.chain[..|s.chain|] == s.chain;
      }
    } else if e.Slash? && AcceptedAt(p, s, e) != [] {
      assert Ledger(t) == Ledger(s) + AcceptedAt(p, s, e);
    }
  }

  lemma {:induction false} PrefixSlashings(chain: seq<Block>, i: nat, j: nat)
    requires i <= j < |chain|
    ensures forall tx :: tx in chain[i].slashings ==> tx in AllSlashings(chain[..j + 1])
    decreases j
  {
    assert chain[..j + 1][..j] == chain[..j];
    if i < j {
      PrefixSlashings(chain, i, j - 1);
    }
  }

  lemma {:induction false} SlashedInSome(chain: seq<Block>, tx: SlashingTx)
    requires tx in AllSlashings(chain)
    ensures exists i :: 0 <= i < |chain| && tx in chain[i].slashings
  {
    var last := |chain| - 1;
    if tx !in chain[last].slashings {
      SlashedInSome(chain[..last], tx);
      var i :| 0 <= i < last && tx in chain[..last][i].slashings;
      assert chain[i] == chain[..last][i];
    }
  }

  /** From the height at which a slashing was accepted on, its offender neither proposes nor signs. */
  lemma SlashedNeverReturns(
      p: Protocol, validators: seq<Identity>, secrets: seq<Secret>, events: seq<Event>, tx: SlashingTx, i: nat)
    requires |validators| == |secrets| && DistinctKeys(validators) && AllTimely(events)
    requires tx in AcceptedBy(p, Boot(validators, secrets), events)
    requires tx.heightObserved <= i < |Run(p, Boot(validators, secrets), events).chain|
    ensures var b := Run(p, Boot(validators, secrets), events).chain[i];
      b.header.proposer != tx.evidence.offender && tx.evidence.offender !in b.pubkeys
  {
    var s := Run(p, Boot(validators, secrets), events);
    RunSound(p, validators, secrets, events);
    LedgerIsAccepted(p, Boot(validators, secrets), events);
    hide Run, LinkedAt, Rooted, AcceptedBy;
    assert tx in Ledger(s) && tx !in s.pending;
    SlashedInSome(s.chain, tx);
    var j :| 0 <= j < |s.chain| && tx in s.chain[j].slashings;
    PrefixSlashings(s.chain, j, i);
    assert SignedSoundly(s, i);
  }

  // ---------- outcomes ----------

  function AllPayloads(chain: seq<Block>): seq<MatchOutcome> {
    if chain == [] then [] else AllPayloads(chain[..|chain| - 1]) + chain[|chain| - 1].payload
  }

  /** Every outcome on the chain or waiting for it, in order. */
  function Kept(s: NodeState): seq<MatchOutcome> {
    AllPayloads(s.chain) + s.queue
  }

  function SubmittedBy(events: seq<Event>): seq<MatchOutcome> {
    if events == [] then []
    else
      SubmittedBy(events[..|events| - 1])
      + if events[|events| - 1].Submit? then [events[|events| - 1].outcome] else []
  }

  /** A round gets as far as the drain: there is work, somebody to lead, room for the height, and a
      leader whose output verifies. */
  predicate Drains(p: Protocol, s: NodeState, round: Round)
    requires WellShaped(s)
  {
    && (s.queue != [] || s.pending != []) && ActiveSlots(s) != [] && |s.chain| < HEIGHT_BOUND
    && LeaderVerifies(p, s, round)
  }

  /** The levels of a tree over this many leaves fit in one byte. */
  predicate TreeFits(leaves: nat) {
    1 + Depth(leaves) <= 256
  }

  /** Two thirds of the active validators have a signature of the block that verifies, and the
      aggregate of these signatures verifies. */
  predicate QuorumMet(p: Protocol, s: NodeState, block: Block)
    requires WellShaped(s) && block.header.height < HEIGHT_BOUND && block.header.timestamp < TIMESTAMP_BOUND
  {
    var message := SignPayload(HeaderHash(p.hash, block.header), block.header.height);
    var valid := ValidOf(p.bls, message, Signatures(p, s, message));
    3 * |valid| >= 2 * |s.active|
      && p.bls.fastAggregateVerify(KeysOf(valid), message, p.bls.aggregate(SignaturesOf(valid)))
  }

  /** What decides a round after its drain. */
  predicate Seals(p: Protocol, s: NodeState, round: Round, maxPayload: int)
    requires WellShaped(s) && ActiveSlots(s) != [] && |s.chain| < HEIGHT_BOUND && round.timestamp < TIMESTAMP_BOUND
  {
    var n := Taken(s.queue, maxPayload);
    var draft := Draft(p, s, round, s.queue[..n]);
    TreeFits(n + |s.pending|) && draft.Some? && QuorumMet(p, s, draft.value)
  }

  lemma RootFits(h: Hash, leaves: seq<bytes>)
    ensures ChainMerkle.RootSpec(h, leaves).Some? <==> TreeFits(|leaves|)
  {
    hide ChainMerkle.RootOf;
    if leaves != [] {
      ChainMerkleTheorems.WithinOneByte(h, ChainMerkle.LeafInputs(leaves), 0, 1);
    }
  }

  lemma DraftFits(p: Protocol, s: NodeState, round: Round, payload: seq<MatchOutcome>)
    requires WellShaped(s) && ActiveSlots(s) != []
    ensures Draft(p, s, round, payload).Some? <==> TreeFits(|payload| + |s.pending|)
  {
    hide HeadHash, SmallestOutput, Outputs, TreeFits, ChainMerkle.RootSpec;
    RootFits(p.hash, Leaves(p.enc, payload, s.pending));
  }

  lemma ThresholdMet(n: nat, v: nat)
    ensures v >= Threshold(2, n, 3) <==> 3 * v >= 2 * n
  {}

  lemma FinalityDecided(p: Protocol, s: NodeState, block: Block)
    requires WellShaped(s) && ActiveSlots(s) != []
    requires block.header.height < HEIGHT_BOUND && block.header.timestamp < TIMESTAMP_BOUND
    ensures FinalityOf(p, s, block).Finalised? <==> QuorumMet(p, s, block)
  {
    hide HeaderHash, SignPayload, Signatures, ValidOf, Threshold, ActiveSlots, KeysOf, SignaturesOf;
    SlotsOfActive(s);
    var message := SignPayload(HeaderHash(p.hash, block.header), block.header.height);
    ThresholdMet(|s.active|, |ValidOf(p.bls, message, Signatures(p, s, message))|);
  }

  /** The guards decide a round: before the drain it changes nothing, after it the drained outcomes are
      gone, and a block is appended exactly when the tree fits and the quorum is met. */
  lemma RoundDecided(p: Protocol, s: NodeState, round: Round, maxPayload: int)
    requires WellShaped(s) && round.timestamp < TIMESTAMP_BOUND
    ensures var (t, r) := ProduceStep(p, s, round, maxPayload);
      var n := Taken(s.queue, maxPayload);
      if !Drains(p, s, round) then t == s && !r.Produced?
      else
        && (r.Produced? <==> Seals(p, s, round, maxPayload))
        && (r.TreeTooHigh? <==> !TreeFits(n + |s.pending|))
        && (r.Produced? || r.TreeTooHigh? || r.QuorumFailed?)
        && (!r.Produced? ==> t == s.(queue := s.queue[n..]))
  {
    hide LeaderVerifies, Draft, FinalityOf, QuorumMet, TreeFits;
    if Drains(p, s, round) {
      var n := Taken(s.queue, maxPayload);
      DrainedSame(p, s, round, n);
      DraftFits(p, s, round, s.queue[..n]);
      var draft := Draft(p, s, round, s.queue[..n]);
      if draft.Some? {
        DraftBounds(p, s, round, s.queue[..n]);
        FinalityDecided(p, s, draft.value);
      }
    }
  }

  lemma DraftBounds(p: Protocol, s: NodeState, round: Round, payload: seq<MatchOutcome>)
    requires WellShaped(s) && ActiveSlots(s) != [] && Draft(p, s, round, payload).Some?
    ensures var header := Draft(p, s, round, payload).value.header;
      header.height == |s.chain| && header.timestamp == round.timestamp
  {
    hide HeadHash, SmallestOutput, Outputs, ActiveSlots;
  }

  /** The drain changes neither the draft of the round nor its finality. */
  lemma DrainedSame(p: Protocol, s: NodeState, round: Round, n: nat)
    requires WellShaped(s) && ActiveSlots(s) != [] && n <= |s.queue|
    ensures var d := s.(queue := s.queue[n..]);
      && ActiveSlots(d) == ActiveSlots(s)
      && (forall payload :: Draft(p, d, round, payload) == Draft(p, s, round, payload))
      && forall b: Block :: b.header.height < HEIGHT_BOUND && b.header.timestamp < TIMESTAMP_BOUND ==>
           FinalityOf(p, d, b) == FinalityOf(p, s, b)
  {
    hide Assemble, SmallestOutput, FinaliseSpec, HeaderHash;
    var d := s.(queue := s.queue[n..]);
    assert Seed(p, d) == Seed(p, s);
    assert Outputs(d, round, Seed(p, d)) == Outputs(s, round, Seed(p, s));
    forall m ensures Signatures(p, d, m) == Signatures(p, s, m) {}
  }

  /** How many outcomes one step gives up: the oldest at a full queue, and whatever a round has drained
      when it then fails, its tree too high or its quorum not met. */
  function LostAt(p: Protocol, s: NodeState, e: Event): nat
    requires WellShaped(s) && Timely(e)
  {
    match e
    case Submit(_) => if |s.queue| == s.capacity then 1 else 0
    case Slash(_) => 0
    case Produce(round, maxPayload) =>
      if Drains(p, s, round) && !Seals(p, s, round, maxPayload) then Taken(s.queue, maxPayload) else 0
  }

  ghost function LostBy(p: Protocol, s: NodeState, events: seq<Event>): nat
    requires WellShaped(s) && AllTimely(events)
  {
    if events == [] then 0
    else
      var last := |events| - 1;
      LostBy(p, s, events[..last]) + LostAt(p, Run(p, s, events[..last]), events[last])
  }

  /** a is b with some entries left out. */
  predicate Subsequence(a: seq<MatchOutcome>, b: seq<MatchOutcome>)
    decreases |b|
  {
    a == [] ||
    (b != [] &&
      ((a[|a| - 1] == b[|b| - 1] && Subsequence(a[..|a| - 1], b[..|b| - 1])) || Subsequence(a, b[..|b| - 1])))
  }

  lemma {:induction false} SubsequenceAppend(a: seq<MatchOutcome>, b: seq<MatchOutcome>, x: MatchOutcome)
    requires Subsequence(a, b)
    ensures Subsequence(a + [x], b + [x])
  {
    assert (a + [x])[..|a|] == a && (b + [x])[..|b|] == b;
  }

  lemma {:induction false} SubsequenceSkip(a: seq<MatchOutcome>, b: seq<MatchOutcome>, x: MatchOutcome)
    requires Subsequence(a, b)
    ensures Subsequence(a, b + [x])
  {
    assert (b + [x])[..|b|] == b;
  }

  lemma {:induction false} SubsequenceWithout(
      l: seq<MatchOutcome>, m: seq<MatchOutcome>, r: seq<MatchOutcome>, b: seq<MatchOutcome>)
    requires Subsequence(l + m + r, b)
    ensures Subsequence(l + r, b)
    decreases |b|
  {
    var a := l + m + r;
    if l + r == [] {
    } else if m == [] {
      assert a == l + r;
    } else {
      var front := b[..|b| - 1];
      if Subsequence(a, front) {
        SubsequenceWithout(l, m, r, front);
      } else if r == [] {
        assert a[..|a| - 1] == l + m[..|m| - 1] + r;
        SubsequenceWithout(l, m[..|m| - 1], r, front);
      } else {
        assert a[..|a| - 1] == l + m + r[..|r| - 1];
        SubsequenceWithout(l, m, r[..|r| - 1], front);
        assert (l + r)[..|l + r| - 1] == l + r[..|r| - 1];
      }
    }
  }

  lemma {:induction false} SubsequenceLength(a: seq<MatchOutcome>, b: seq<MatchOutcome>)
    requires Subsequence(a, b)
    ensures |a| <= |b| && (|a| == |b| ==> a == b)
    decreases |b|
  {
    if a != [] {
      var front := b[..|b| - 1];
      if Subsequence(a, front) {
        SubsequenceLength(a, front);
      } else {
        SubsequenceLength(a[..|a| - 1], front);
        assert a == a[..|a| - 1] + [a[|a| - 1]] && b == front + [b[|b| - 1]];
      }
    }
  }

  lemma SubmitKeeps(s: NodeState, outcome: MatchOutcome, submitted: seq<MatchOutcome>)
    requires WellShaped(s) && Subsequence(Kept(s), submitted)
    ensures Subsequence(Kept(SubmitStep(s, outcome)), submitted + [outcome])
    ensures |Kept(SubmitStep(s, outcome))| + (if |s.queue| == s.capacity then 1 else 0) == |Kept(s)| + 1
  {
    hide Subsequence, AllPayloads;
    var t, all := SubmitStep(s, outcome), AllPayloads(s.chain);
    if s.capacity == 0 {
      SubsequenceSkip(Kept(s), submitted, outcome);
      assert Kept(t) == Kept(s);
    } else if |s.queue| == s.capacity {
      assert Kept(s) == all + s.queue[..1] + s.queue[1..];
      SubsequenceWithout(all, s.queue[..1], s.queue[1..], submitted);
      SubsequenceAppend(all + s.queue[1..], submitted, outcome);
      assert Kept(t) == all + s.queue[1..] + [outcome];
    } else {
      SubsequenceAppend(Kept(s), submitted, outcome);
      assert Kept(t) == Kept(s) + [outcome];
    }
  }

  lemma ProduceKeeps(p: Protocol, s: NodeState, round: Round, maxPayload: int, submitted: seq<MatchOutcome>)
    requires WellShaped(s) && Subsequence(Kept(s), submitted) && round.timestamp < TIMESTAMP_BOUND
    ensures var t := ProduceStep(p, s, round, maxPayload).0;
      && Subsequence(Kept(t), submitted)
      && |Kept(t)| + LostAt(p, s, Produce(round, maxPayload)) == |Kept(s)|
  {
    hide ProduceStep, HeadHash, BlockFits, Subsequence, Drains, Seals;
    var (t, r) := ProduceStep(p, s, round, maxPayload);
    ProduceMeaning(p, s, round, maxPayload);
    RoundDecided(p, s, round, maxPayload);
    DrainsActive(p, s, round);
    var n, all := Taken(s.queue, maxPayload), AllPayloads(s.chain);
    assert s.queue[..n] + s.queue[n..] == s.queue;
    if r.Produced? {
      assert t.chain[..|s.chain|] == s.chain;
      assert Kept(t) == Kept(s);
    } else if t != s {
      assert Kept(s) == all + s.queue[..n] + s.queue[n..];
      SubsequenceWithout(all, s.queue[..n], s.queue[n..], submitted);
    }
  }

  lemma DrainsActive(p: Protocol, s: NodeState, round: Round)
    requires WellShaped(s)
    ensures Drains(p, s, round) ==> ActiveSlots(s) != [] && |s.chain| < HEIGHT_BOUND
  {}

  /** Outcomes reach the chain at most once and in the order of submission, and the ones that do not
      are counted: with no overflow and no round that fails after its drain the chain and the queue
      hold them all. */
  lemma {:induction false} OutcomesConserved(
      p: Protocol, validators: seq<Identity>, secrets: seq<Secret>, events: seq<Event>)
    requires |validators| == |secrets| && AllTimely(events)
    ensures var boot := Boot(validators, secrets);
      var s := Run(p, boot, events);
      && Subsequence(Kept(s), SubmittedBy(events))
      && |Kept(s)| + LostBy(p, boot, events) == |SubmittedBy(events)|
      && (LostBy(p, boot, events) == 0 <==> Kept(s) == SubmittedBy(events))
  {
    var boot := Boot(validators, secrets);
    if events != [] {
      var last := |events| - 1;
      OutcomesConserved(p, validators, secrets, events[..last]);
      OutcomesStep(p, Run(p, boot, events[..last]), events[last], SubmittedBy(events[..last]));
    }
    SubsequenceLength(Kept(Run(p, boot, events)), SubmittedBy(events));
  }

  lemma OutcomesStep(p: Protocol, s: NodeState, e: Event, submitted: seq<MatchOutcome>)
    requires WellShaped(s) && Timely(e) && Subsequence(Kept(s), submitted)
    ensures var t, now := Step(p, s, e), submitted + if e.Submit? then [e.outcome] else [];
      && Subsequence(Kept(t), now)
      && |Kept(t)| + LostAt(p, s, e) == |Kept(s)| + |now| - |submitted|
  {
    hide ProduceStep, VerifyEvidence, Subsequence;
    assert submitted + [] == submitted;
    match e
    case Submit(outcome) => SubmitKeeps(s, outcome, submitted);
    case Slash(evidence) => assert Kept(Step(p, s, e)) == Kept(s);
    case Produce(round, maxPayload) => ProduceKeeps(p, s, round, maxPayload, submitted);
  }

  function Joined(parts: seq<bytes>): bytes {
    if parts == [] then [] else Joined(parts[..|parts| - 1]) + parts[|parts| - 1]
  }

  /** What the keys sign in this scheme, one after the other. */
  function SignedByAll(keys: seq<bytes>, message: bytes): bytes {
    if keys == [] then [] else SignedByAll(keys[..|keys| - 1], message) + (keys[|keys| - 1] + message)
  }

  /** A scheme in which the secret of a key is the key itself, put before the message it signs, and
      signatures are joined to an aggregate. */
  function PlainBls(): Bls {
    Bls((secret, message) => secret + message, (key, message, signature) => signature == key + message,
        Joined, (keys, message, aggregate) => aggregate == SignedByAll(keys, message))
  }

  function PlainProtocol(): Protocol {
    Protocol(_ => [], PlainBls(), Encoding(_ => [], _ => []), (_, _, _) => true)
  }

  /** It is a scheme that works: a key verifies what its secret signs, and what verifies one by one
      verifies as an aggregate. */
  lemma PlainVerifies()
    ensures forall key, message :: PlainBls().verify(key, message, PlainBls().sign(key, message))
    ensures AggregatesVerify(PlainBls())
  {
    forall m, signed | signed != [] && AllVerify(PlainBls(), m, signed)
      ensures PlainBls().fastAggregateVerify(KeysOf(signed), m, PlainBls().aggregate(SignaturesOf(signed)))
    {
      JoinedSigned(m, signed);
    }
  }

  lemma {:induction false} JoinedSigned(message: bytes, signed: seq<Signed>)
    requires AllVerify(PlainBls(), message, signed)
    ensures Joined(SignaturesOf(signed)) == SignedByAll(KeysOf(signed), message)
  {
    if signed != [] {
      var front := signed[..|signed| - 1];
      JoinedSigned(message, front);
      assert SignaturesOf(signed)[..|front|] == SignaturesOf(front) && KeysOf(signed)[..|front|] == KeysOf(front);
      assert signed[|front|] in signed;
    }
  }

  /** A round whose random outputs are all empty. */
  function PlainRound(): Round {
    Round((_, _) => VrfOutput([], []), 0)
  }

  /** A validator holding another key's secret, alone. */
  function Misplaced(): NodeState {
    Boot([Identity([1], 0)], [Secret([2], 0)])
  }

  lemma MisplacedRound(s: NodeState, round: Round)
    requires s.validators == Misplaced().validators && s.secrets == Misplaced().secrets && s.active == {0}
    requires WellShaped(s) && s.queue != [] && |s.chain| < HEIGHT_BOUND && round.timestamp < TIMESTAMP_BOUND
    ensures Drains(PlainProtocol(), s, round) && !Seals(PlainProtocol(), s, round, 1)
  {
    hide HeadHash, SignPayload, HeaderHash, Assemble, Joined, SignedByAll;
    var p := PlainProtocol();
    assert 0 in ActiveSlots(s);
    forall message ensures ValidOf(p.bls, message, Signatures(p, s, message)) == [] {
      NothingValid(s, message);
    }
  }

  lemma NothingValid(s: NodeState, message: bytes)
    requires WellShaped(s) && s.validators == Misplaced().validators && s.secrets == Misplaced().secrets
    ensures ValidOf(PlainBls(), message, Signatures(PlainProtocol(), s, message)) == []
  {
    hide ActiveSlots, Joined, SignedByAll;
    var signed := Signatures(PlainProtocol(), s, message);
    forall q | q in signed ensures !PlainBls().verify(q.0, message, q.1) {
      var i :| 0 <= i < |signed| && signed[i] == q;
      assert ActiveSlots(s)[i] in ActiveSlots(s);
      assert ([1] + message)[0] != ([2] + message)[0];
    }
    NoneVerify(PlainBls(), message, signed);
  }

  lemma {:induction false} NoneVerify(bls: Bls, message: bytes, signed: seq<Signed>)
    requires forall q :: q in signed ==> !bls.verify(q.0, message, q.1)
    ensures ValidOf(bls, message, signed) == []
  {
    if signed != [] {
      assert signed[|signed| - 1] in signed;
      NoneVerify(bls, message, signed[..|signed| - 1]);
    }
  }

  /** An outcome that is submitted to a node whose validator holds another key's secret: a round drains
      it, finds no quorum, and leaves it neither on the chain nor in the queue. */
  lemma FailedRoundLoses(outcome: MatchOutcome)
    ensures var p, boot, events := PlainProtocol(), Misplaced(), [Submit(outcome), Produce(PlainRound(), 1)];
      && AllTimely(events) && WellShaped(boot)
      && SubmittedBy(events) == [outcome] && Kept(Run(p, boot, events)) == [] && LostBy(p, boot, events) == 1
  {
    hide Subsequence, HeadHash, SignPayload, HeaderHash, Run, LostBy, SubmittedBy, ProduceStep, Drains, Seals,
      PlainProtocol;
    var p, round, boot := PlainProtocol(), PlainRound(), Misplaced();
    var events := [Submit(outcome), Produce(round, 1)];
    var s := SubmitStep(boot, outcome);
    TwoSteps(p, boot, events[0], events[1]);
    assert events == [events[0], events[1]];
    assert boot.active == {0};
    MisplacedRound(s, round);
    RoundDecided(p, s, round, 1);
    assert s.queue[1..] == [];
  }

  lemma OneStep(p: Protocol, s: NodeState, e: Event)
    requires WellShaped(s) && Timely(e)
    ensures Run(p, s, [e]) == Step(p, s, e) && LostBy(p, s, [e]) == LostAt(p, s, e)
    ensures SubmittedBy([e]) == if e.Submit? then [e.outcome] else []
  {
    hide Step, LostAt;
    var events := [e];
    assert events[..0] == [] && events[0] == e;
    assert Run(p, s, events) == Step(p, Run(p, s, events[..0]), events[0]);
    assert LostBy(p, s, events) == LostBy(p, s, events[..0]) + LostAt(p, Run(p, s, events[..0]), events[0]);
  }

  lemma TwoSteps(p: Protocol, s: NodeState, first: Event, second: Event)
    requires WellShaped(s) && Timely(first) && Timely(second)
    ensures AllTimely([first, second]) && WellShaped(Step(p, s, first))
    ensures Run(p, s, [first, second]) == Step(p, Step(p, s, first), second)
    ensures LostBy(p, s, [first, second]) == LostAt(p, s, first) + LostAt(p, Step(p, s, first), second)
    ensures first.Submit? && !second.Submit? ==> SubmittedBy([first, second]) == [first.outcome]
  {
    hide Step, LostAt;
    StepShaped(p, s, first);
    OneStep(p, s, first);
    var events := [first, second];
    assert events[..1] == [first] && events[1] == second;
    assert Run(p, s, events) == Step(p, Run(p, s, events[..1]), events[1]);
    assert LostBy(p, s, events) == LostBy(p, s, events[..1]) + LostAt(p, Run(p, s, events[..1]), events[1]);
    assert SubmittedBy(events) == SubmittedBy(events[..1]) + if second.Submit? then [second.outcome] else [];
  }

  // ---------- rounds that succeed, evidence that slashes ----------

  ghost predicate AllVerify(bls: Bls, message: bytes, signed: seq<Signed>) {
    forall q :: q in signed ==> bls.verify(q.0, message, q.1)
  }

  /** Signatures that verify one by one verify as an aggregate. */
  ghost predicate AggregatesVerify(bls: Bls) {
    forall m, signed :: signed != [] && AllVerify(bls, m, signed) ==>
      bls.fastAggregateVerify(KeysOf(signed), m, bls.aggregate(SignaturesOf(signed)))
  }

  /** The keys belong together: what a validator's secrets produce, its public keys verify. */
  ghost predicate Honest(p: Protocol, s: NodeState, round: Round)
    requires WellShaped(s)
  {
    && (forall i, m :: 0 <= i < |s.validators| ==>
          p.bls.verify(s.validators[i].blsKey, m, p.bls.sign(s.secrets[i].blsSecret, m)))
    && (forall i, seed :: 0 <= i < |s.validators| ==>
          p.vrfVerify(s.validators[i].vrfKey, seed, round.vrfProve(s.secrets[i].vrfSecret, seed)))
    && AggregatesVerify(p.bls)
  }

  lemma {:induction false} AllValid(bls: Bls, message: bytes, signed: seq<Signed>)
    requires AllVerify(bls, message, signed)
    ensures ValidOf(bls, message, signed) == signed
  {
    if signed != [] {
      AllValid(bls, message, signed[..|signed| - 1]);
      assert signed == signed[..|signed| - 1] + [signed[|signed| - 1]];
    }
  }

  lemma SignaturesVerify(p: Protocol, s: NodeState, round: Round, message: bytes)
    requires WellShaped(s) && Honest(p, s, round)
    ensures AllVerify(p.bls, message, Signatures(p, s, message))
  {
    forall q | q in Signatures(p, s, message) ensures p.bls.verify(q.0, message, q.1) {
      var i :| 0 <= i < |Signatures(p, s, message)| && Signatures(p, s, message)[i] == q;
      assert ActiveSlots(s)[i] in ActiveSlots(s);
    }
  }

  lemma ThresholdWithin(n: nat)
    ensures Threshold(2, n, 3) <= n
  {}

  /** A quorum of all: every submitted signature verifies, so the rule is met. */
  lemma UnanimousFinality(bls: Bls, hash: bytes, height: nat, signed: seq<Signed>)
    requires height < HEIGHT_BOUND && signed != [] && AggregatesVerify(bls)
    requires AllVerify(bls, SignPayload(hash, height), signed)
    ensures var r := FinaliseSpec(bls, hash, height, signed, FinalityRule(|signed|));
      r.Finalised? && r.pubkeys == KeysOf(signed)
  {
    hide SignPayload, Threshold, ValidOf, SignaturesOf, AllVerify;
    AllValid(bls, SignPayload(hash, height), signed);
    ThresholdWithin(|signed|);
  }

  /** With honest keys, work, an active validator and room for the height, a round appends a block
      signed by every active validator, exactly unless the tree is too high. */
  lemma HonestRoundProduces(p: Protocol, s: NodeState, round: Round, maxPayload: int)
    requires WellShaped(s) && Honest(p, s, round) && round.timestamp < TIMESTAMP_BOUND
    requires s.queue != [] || s.pending != []
    requires s.active != {} && |s.chain| < HEIGHT_BOUND
    ensures var r := ProduceStep(p, s, round, maxPayload).1;
      if TreeFits(Taken(s.queue, maxPayload) + |s.pending|) then r.Produced? && |r.block.pubkeys| == |s.active|
      else r == TreeTooHigh
  {
    hide HeadHash, Rooted, SignPayload, FinaliseSpec, HeaderHash, Assemble, TreeFits;
    SlotsOfActive(s);
    HonestLeader(p, s, round);
    var n := Taken(s.queue, maxPayload);
    var drained := s.(queue := s.queue[n..]);
    assert ActiveSlots(drained) == ActiveSlots(s);
    HonestSeal(p, drained, round, s.queue[..n]);
    RoundDecided(p, s, round, maxPayload);
  }

  lemma HonestLeader(p: Protocol, s: NodeState, round: Round)
    requires WellShaped(s) && Honest(p, s, round) && ActiveSlots(s) != []
    ensures LeaderVerifies(p, s, round)
  {
    var leader := SmallestOutput(Outputs(s, round, Seed(p, s)));
    assert ActiveSlots(s)[leader] in ActiveSlots(s);
  }

  lemma HonestSeal(p: Protocol, s: NodeState, round: Round, payload: seq<MatchOutcome>)
    requires WellShaped(s) && Honest(p, s, round) && round.timestamp < TIMESTAMP_BOUND
    requires ActiveSlots(s) != [] && |s.chain| < HEIGHT_BOUND
    ensures var r := Seal(p, s, round, payload).1;
      r == TreeTooHigh || (r.Produced? && |r.block.pubkeys| == |ActiveSlots(s)|)
  {
    hide HeadHash, Rooted, SignPayload, FinaliseSpec, HeaderHash, Signatures, Honest;
    var draft := Draft(p, s, round, payload);
    if draft.Some? {
      var hash := HeaderHash(p.hash, draft.value.header);
      var message := SignPayload(hash, |s.chain|);
      SignaturesVerify(p, s, round, message);
      assert AggregatesVerify(p.bls) by { HonestAggregates(p, s, round); }
      UnanimousFinality(p.bls, hash, |s.chain|, Signatures(p, s, message));
    }
  }

  lemma HonestAggregates(p: Protocol, s: NodeState, round: Round)
    requires WellShaped(s) && Honest(p, s, round)
    ensures AggregatesVerify(p.bls)
  {}

  /** The evidence is accepted, and its only effect on the validators is to move this one over. */
  ghost predicate Removes(p: Protocol, s: NodeState, slot: nat, e: Evidence)
    requires slot < |s.validators|
  {
    var (t, r) := SlashStep(p, s, e);
    r.Slashed? && t.active == s.active - {slot} && t.slashed == s.slashed + {s.validators[slot].blsKey}
  }

  /** Evidence from two conflicting finalisations removes its offender: an active validator in the
      overlap is slashed by a pair of the signatures that were submitted. */
  lemma ConvictedIsSlashed(
      p: Protocol, s: NodeState, slot: nat, height: int, a: bytes, signedA: seq<Signed>, b: bytes, signedB: seq<Signed>)
    requires Sound(p, s) && slot < |s.validators| && slot in s.active
    requires ConsensusTheorems.Convicted(p.bls, s.validators[slot].blsKey, height, a, signedA, b, signedB)
    ensures exists x, y ::
      && (s.validators[slot].blsKey, x) in signedA && (s.validators[slot].blsKey, y) in signedB
      && Removes(p, s, slot, Evidence(s.validators[slot].blsKey, height, a, x, b, y))
  {
    var key := s.validators[slot].blsKey;
    var x, y :| (key, x) in signedA && (key, y) in signedB
      && VerifyEvidence(p.bls, Evidence(key, height, a, x, b, y)) == Some(true);
    assert KeyFrom(s.validators, key, 0) == slot;
    assert Removes(p, s, slot, Evidence(key, height, a, x, b, y));
  }
}
