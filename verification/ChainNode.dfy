/** The chain node: a bounded queue of outcomes, the active validators, and the two operations
    that move them, slashing and block production. */
module ChainNode {
  import opened Collections
  import opened Bytes
  import opened Consensus
  import opened ChainBlock

  datatype Identity = Identity(blsKey: bytes, vrfKey: int)
  datatype Secret = Secret(blsSecret: bytes, vrfSecret: int)

  /** The hash, the signatures, the encodings and the check of a random output. */
  datatype Protocol = Protocol(hash: Hash, bls: Bls, enc: Encoding, vrfVerify: (int, bytes, VrfOutput) -> bool)

  /** What a round draws from outside: the random outputs, which use fresh nonces, and the clock. */
  datatype Round = Round(vrfProve: (int, bytes) -> VrfOutput, timestamp: nat)

  function GenesisPrevHash(): bytes {
    seq(32, i => 0)
  }

  // ---------- the state and its steps ----------

  datatype NodeState = NodeState(
    validators: seq<Identity>, secrets: seq<Secret>, queue: seq<MatchOutcome>, capacity: nat,
    chain: seq<Block>, active: set<nat>, pending: seq<SlashingTx>, slashed: set<bytes>)

  datatype SlashResult =
    | Slashed(tx: SlashingTx)
    | BadEvidence | UnknownOffender | AlreadySlashed | NotActive | SlashOverflow

  datatype ProduceResult =
    | Produced(block: Block)
    | NothingToDo | NoActiveValidator | InvalidLeader | QuorumFailed | TreeTooHigh | ProduceOverflow

  /** The slots are aligned, the active set names slots, and stored headers have valid heights. */
  predicate WellShaped(s: NodeState) {
    && |s.validators| == |s.secrets|
    && (forall i :: i in s.active ==> i < |s.validators|)
    && (forall b :: b in s.chain ==> b.header.height < HEIGHT_BOUND && b.header.timestamp < TIMESTAMP_BOUND)
    && |s.queue| <= s.capacity
  }

  function IdentitiesOf(keys: seq<(Identity, Secret)>): (r: seq<Identity>)
    ensures |r| == |keys|
  {
    seq(|keys|, i requires 0 <= i < |keys| => keys[i].0)
  }

  function SecretsOf(keys: seq<(Identity, Secret)>): (r: seq<Secret>)
    ensures |r| == |keys|
  {
    seq(|keys|, i requires 0 <= i < |keys| => keys[i].1)
  }

  function Boot(validators: seq<Identity>, secrets: seq<Secret>): NodeState {
    NodeState(validators, secrets, [], 1024, [], Slots(|validators|), [], {})
  }

  function HeadHash(p: Protocol, s: NodeState): bytes
    requires WellShaped(s)
  {
    if s.chain == [] then GenesisPrevHash()
    else
      var head := s.chain[|s.chain| - 1];
      assert head in s.chain;
      HeaderHash(p.hash, head.header)
  }

  /** A deque with a maximal length drops its oldest entry when it is full. */
  function Enqueue(queue: seq<MatchOutcome>, capacity: nat, outcome: MatchOutcome): (r: seq<MatchOutcome>)
    requires |queue| <= capacity
    ensures |r| == Min(capacity, |queue| + 1) && r == (queue + [outcome])[|queue| + 1 - |r|..]
  {
    if capacity == 0 then []
    else if |queue| == capacity then queue[1..] + [outcome]
    else queue + [outcome]
  }

  /** How many outcomes a drain of at most n takes. */
  function Taken(queue: seq<MatchOutcome>, n: int): (r: nat)
    ensures r == Max(0, Min(n, |queue|))
  {
    if n <= 0 then 0 else if n < |queue| then n else |queue|
  }

  function SubmitStep(s: NodeState, outcome: MatchOutcome): NodeState
    requires WellShaped(s)
  {
    s.(queue := Enqueue(s.queue, s.capacity, outcome))
  }

  /** The first validator with the given key from a slot on, or the number of validators. */
  function KeyFrom(validators: seq<Identity>, key: bytes, from: nat): (r: nat)
    requires from <= |validators|
    ensures from <= r <= |validators| && (r < |validators| ==> validators[r].blsKey == key)
    ensures forall i :: from <= i < r ==> validators[i].blsKey != key
    decreases |validators| - from
  {
    if from == |validators| || validators[from].blsKey == key then from else KeyFrom(validators, key, from + 1)
  }

  function SlashStep(p: Protocol, s: NodeState, e: Evidence): (NodeState, SlashResult) {
    var verified := VerifyEvidence(p.bls, e);
    var index := KeyFrom(s.validators, e.offender, 0);
    if verified.None? then (s, SlashOverflow)
    else if !verified.value then (s, BadEvidence)
    else if index == |s.validators| then (s, UnknownOffender)
    else if e.offender in s.slashed then (s, AlreadySlashed)
    else if index !in s.active then (s, NotActive)
    else
      var tx := SlashingTx(e, |s.chain|);
      (s.(active := s.active - {index}, slashed := s.slashed + {e.offender}, pending := s.pending + [tx]), Slashed(tx))
  }

  /** sorted(active_indices), from a given slot on. */
  function ActiveFrom(active: set<nat>, from: nat, n: nat): (r: seq<nat>)
    requires from <= n
    ensures forall i: nat :: i in r <==> from <= i < n && i in active
    ensures forall i, j :: 0 <= i < j < |r| ==> r[i] < r[j]
    decreases n - from
  {
    if from == n then []
    else
      var rest := ActiveFrom(active, from + 1, n);
      assert forall k :: 0 <= k < |rest| ==> rest[k] in rest;
      (if from in active then [from] else []) + rest
  }

  function ActiveSlots(s: NodeState): (r: seq<nat>)
    ensures forall i: nat :: i in r <==> i < |s.validators| && i in s.active
    ensures forall i, j :: 0 <= i < j < |r| ==> r[i] < r[j]
  {
    ActiveFrom(s.active, 0, |s.validators|)
  }

  /** The random output of each active validator. */
  function Outputs(s: NodeState, round: Round, seed: bytes): (r: seq<VrfOutput>)
    requires WellShaped(s)
    ensures |r| == |ActiveSlots(s)|
  {
    var slots := ActiveSlots(s);
    seq(|slots|, i requires 0 <= i < |slots| =>
      assert slots[i] in slots; round.vrfProve(s.secrets[slots[i]].vrfSecret, seed))
  }

  /** Every active validator signs the payload of the block. */
  function Signatures(p: Protocol, s: NodeState, message: bytes): (r: seq<Signed>)
    requires WellShaped(s)
    ensures |r| == |ActiveSlots(s)|
  {
    var slots := ActiveSlots(s);
    seq(|slots|, i requires 0 <= i < |slots| =>
      assert slots[i] in slots; (s.validators[slots[i]].blsKey, p.bls.sign(s.secrets[slots[i]].blsSecret, message)))
  }

  function FinalityRule(n: nat): Rule {
    Rule(2, 3, ByCount(Some(n)))
  }

  function Seed(p: Protocol, s: NodeState): bytes
    requires WellShaped(s)
  {
    HeadHash(p, s) + ToBytes(|s.chain|, 8)
  }

  /** The block of the round before finality, once a leader is chosen. */
  function Draft(p: Protocol, s: NodeState, round: Round, payload: seq<MatchOutcome>): Option<Block>
    requires WellShaped(s) && ActiveSlots(s) != []
  {
    var outputs := Outputs(s, round, Seed(p, s));
    var leader := SmallestOutput(outputs);
    var slot := ActiveSlots(s)[leader];
    assert slot in ActiveSlots(s);
    Assemble(p.hash, p.enc, |s.chain|, HeadHash(p, s), s.validators[slot].blsKey, outputs[leader].beta,
             round.timestamp, payload, s.pending)
  }

  predicate LeaderVerifies(p: Protocol, s: NodeState, round: Round)
    requires WellShaped(s) && ActiveSlots(s) != []
  {
    var outputs := Outputs(s, round, Seed(p, s));
    var leader := SmallestOutput(outputs);
    var slot := ActiveSlots(s)[leader];
    assert slot in ActiveSlots(s);
    p.vrfVerify(s.validators[slot].vrfKey, Seed(p, s), outputs[leader])
  }

  ghost function FinalityOf(p: Protocol, s: NodeState, block: Block): Finality
    requires WellShaped(s) && block.header.height < HEIGHT_BOUND && block.header.timestamp < TIMESTAMP_BOUND
  {
    var hash := HeaderHash(p.hash, block.header);
    FinaliseSpec(p.bls, hash, block.header.height, Signatures(p, s, SignPayload(hash, block.header.height)),
                 FinalityRule(|ActiveSlots(s)|))
  }

  /** The round after the drain: a failure here leaves the drained outcomes nowhere. */
  ghost function Seal(p: Protocol, s: NodeState, round: Round, payload: seq<MatchOutcome>): (NodeState, ProduceResult)
    requires WellShaped(s) && ActiveSlots(s) != [] && |s.chain| < HEIGHT_BOUND && round.timestamp < TIMESTAMP_BOUND
  {
    var draft := Draft(p, s, round, payload);
    if draft.None? then (s, TreeTooHigh)
    else
      var finality := FinalityOf(p, s, draft.value);
      if !finality.Finalised? then (s, QuorumFailed)
      else
        var block := WithFinality(draft.value, finality.pubkeys, finality.aggregate);
        (s.(chain := s.chain + [block], pending := []), Produced(block))
  }

  ghost function ProduceStep(p: Protocol, s: NodeState, round: Round, maxPayload: int): (NodeState, ProduceResult)
    requires WellShaped(s) && round.timestamp < TIMESTAMP_BOUND
  {
    if s.queue == [] && s.pending == [] then (s, NothingToDo)
    else if ActiveSlots(s) == [] then (s, NoActiveValidator)
    else if |s.chain| >= HEIGHT_BOUND then (s, ProduceOverflow)
    else if !LeaderVerifies(p, s, round) then (s, InvalidLeader)
    else
      var n := Taken(s.queue, maxPayload);
      Seal(p, s.(queue := s.queue[n..]), round, s.queue[..n])
  }

  // ---------- the objects ----------

  class Mempool {
    const capacity: nat
    var queue: seq<MatchOutcome>

    constructor (capacity: nat)
      ensures this.capacity == capacity && queue == []
    {
      this.capacity := capacity;
      queue := [];
    }

    method Submit(outcome: MatchOutcome)
      requires |queue| <= capacity
      modifies this
      ensures queue == Enqueue(old(queue), capacity, outcome)
    {
      if capacity == 0 { queue := []; return; }
      if |queue| == capacity { queue := queue[1..]; }
      queue := queue + [outcome];
    }

    method Drain(n: int) returns (taken: seq<MatchOutcome>)
      modifies this
      ensures taken == old(queue[..Taken(queue, n)]) && queue == old(queue[Taken(queue, n)..])
    {
      taken := [];
      while queue != [] && |taken| < n
        invariant |taken| <= old(|queue|) && (n <= 0 ==> taken == [])
        invariant n > 0 ==> |taken| <= n
        invariant taken == old(queue)[..|taken|] && queue == old(queue)[|taken|..]
        decreases |queue|
      {
        taken := taken + [queue[0]];
        queue := queue[1..];
      }
    }
  }

  class Node {
    const validators: seq<Identity>
    const secrets: seq<Secret>
    const mempool: Mempool
    var chain: seq<Block>
    var active: set<nat>
    var pending: seq<SlashingTx>
    var slashed: set<bytes>

    function State(): NodeState
      reads this, mempool
    {
      NodeState(validators, secrets, mempool.queue, mempool.capacity, chain, active, pending, slashed)
    }

    constructor (validators: seq<Identity>, secrets: seq<Secret>)
      requires |validators| == |secrets|
      ensures fresh(mempool) && State() == Boot(validators, secrets)
    {
      this.validators := validators;
      this.secrets := secrets;
      mempool := new Mempool(1024);
      chain := [];
      active := Slots(|validators|);
      pending := [];
      slashed := {};
    }

    /** A node over freshly generated keys; None is the error of a key that fails its own check. */
    static method BootFrom(keys: seq<(Identity, Secret)>, consistent: Identity -> bool) returns (r: Option<Node>)
      ensures r.Some? <==> forall i :: 0 <= i < |keys| ==> consistent(keys[i].0)
      ensures r.Some? ==>
        fresh(r.value) && fresh(r.value.mempool) && r.value.State() == Boot(IdentitiesOf(keys), SecretsOf(keys))
    {
      var validators: seq<Identity>, secrets: seq<Secret> := [], [];
      for i := 0 to |keys|
        invariant forall j :: 0 <= j < i ==> consistent(keys[j].0)
        invariant validators == IdentitiesOf(keys[..i]) && secrets == SecretsOf(keys[..i])
      {
        if !consistent(keys[i].0) { return None; }
        validators := validators + [keys[i].0];
        secrets := secrets + [keys[i].1];
      }
      assert keys[..|keys|] == keys;
      var node := new Node(validators, secrets);
      return Some(node);
    }

    method SubmitOutcome(outcome: MatchOutcome)
      requires WellShaped(State())
      modifies mempool
      ensures State() == SubmitStep(old(State()), outcome)
    {
      mempool.Submit(outcome);
    }

    method Slash(p: Protocol, e: Evidence) returns (r: SlashResult)
      modifies this
      ensures (State(), r) == SlashStep(p, old(State()), e)
    {
      var verified := VerifyEvidence(p.bls, e);
      if verified.None? { return SlashOverflow; }
      if !verified.value { return BadEvidence; }
      var index := 0;
      while index < |validators| && validators[index].blsKey != e.offender
        invariant index <= |validators|
        invariant forall i :: 0 <= i < index ==> validators[i].blsKey != e.offender
      {
        index := index + 1;
      }
      if index == |validators| { return UnknownOffender; }
      if e.offender in slashed { return AlreadySlashed; }
      if index !in active { return NotActive; }
      active := active - {index};
      slashed := slashed + {e.offender};
      var tx := SlashingTx(e, |chain|);
      pending := pending + [tx];
      return Slashed(tx);
    }

    method ProduceBlock(p: Protocol, round: Round, maxPayload: int) returns (r: ProduceResult)
      requires WellShaped(State()) && round.timestamp < TIMESTAMP_BOUND
      modifies this, mempool
      ensures (State(), r) == ProduceStep(p, old(State()), round, maxPayload)
    {
      hide LeaderVerifies, SmallestOutput, Outputs, Signatures, EncodeHeader, Leaves, FinaliseSpec;
      if mempool.queue == [] && pending == [] { return NothingToDo; }
      if ActiveSlots(State()) == [] { return NoActiveValidator; }
      if |chain| >= HEIGHT_BOUND { return ProduceOverflow; }
      if !LeaderVerifies(p, State(), round) { return InvalidLeader; }
      var payload := mempool.Drain(maxPayload);
      var draft := Draft(p, State(), round, payload);
      if draft.None? { return TreeTooHigh; }
      var block := draft.value;
      var hash := HeaderHash(p.hash, block.header);
      var signed := Signatures(p, State(), SignPayload(hash, block.header.height));
      var finality := Finalise(p.bls, hash, block.header.height, signed, FinalityRule(|signed|));
      if !finality.Finalised? { return QuorumFailed; }
      var finalised := WithFinality(block, finality.pubkeys, finality.aggregate);
      chain := chain + [finalised];
      pending := [];
      return Produced(finalised);
    }
  }
}
