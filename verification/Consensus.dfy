/** Leader choice, block finality by count or by stake, and the evidence that convicts a validator
    of signing two blocks at one height. The pairing-based signature is an oracle. */
module Consensus {
  import opened Collections
  import opened Bytes

  /** The signature scheme as the chain uses it. */
  datatype Bls = Bls(
    sign: (bytes, bytes) -> bytes,
    verify: (bytes, bytes, bytes) -> bool,
    aggregate: seq<bytes> -> bytes,
    fastAggregateVerify: (seq<bytes>, bytes, bytes) -> bool)

  const PUBLIC_KEY_BYTES := 48
  const SIGNATURE_BYTES := 96
  const HEIGHT_BOUND := 0x1_0000_0000_0000_0000

  /** A submitted public key and signature. */
  type Signed = (bytes, bytes)

  /** Raises stands for the exceptions: a height that does not fit in eight bytes, a zero
      denominator, and aggregation of no signature at all. */
  datatype Finality = Finalised(pubkeys: seq<bytes>, aggregate: bytes) | Refused | Raises

  /** The bytes a validator signs; to_bytes is why the height is bounded. */
  function SignPayload(blockHash: bytes, height: nat): bytes
    requires height < HEIGHT_BOUND
  {
    Ascii("penumbra-block-sig:v1|") + ToBytes(height, 8) + blockHash
  }

  // ---------- quorums ----------

  /** Python's floor division, for a divisor of either sign. */
  function FloorDiv(a: int, b: int): int
    requires b != 0
  {
    if b > 0 then a / b else (-a) / (-b)
  }

  function Threshold(numerator: int, total: int, denominator: int): int
    requires denominator != 0
  {
    -FloorDiv(-numerator * total, denominator)
  }

  function StakeOf(stakes: map<bytes, int>, key: bytes): int {
    if key in stakes then stakes[key] else 0
  }

  /** Weight of a list of keys, each position counted once, repeated keys included. */
  function Weight(stakes: map<bytes, int>, keys: seq<bytes>): int {
    if keys == [] then 0 else Weight(stakes, keys[..|keys| - 1]) + StakeOf(stakes, keys[|keys| - 1])
  }

  /** Weight of a set of keys. */
  ghost function SetWeight(stakes: map<bytes, int>, keys: set<bytes>): int {
    if keys == {} then 0 else
      var k :| k in keys;
      StakeOf(stakes, k) + SetWeight(stakes, keys - {k})
  }

  function ValidOf(bls: Bls, message: bytes, signed: seq<Signed>): seq<Signed> {
    if signed == [] then []
    else
      var last := signed[|signed| - 1];
      ValidOf(bls, message, signed[..|signed| - 1]) + if bls.verify(last.0, message, last.1) then [last] else []
  }

  function KeysOf(signed: seq<Signed>): (r: seq<bytes>)
    ensures |r| == |signed|
  {
    seq(|signed|, i requires 0 <= i < |signed| => signed[i].0)
  }

  function SignaturesOf(signed: seq<Signed>): seq<bytes> {
    seq(|signed|, i requires 0 <= i < |signed| => signed[i].1)
  }

  function Bundle(bls: Bls, message: bytes, valid: seq<Signed>): Finality {
    if valid == [] then Raises
    else
      var aggregate := bls.aggregate(SignaturesOf(valid));
      if bls.fastAggregateVerify(KeysOf(valid), message, aggregate)
        then Finalised(KeysOf(valid), aggregate) else Refused
  }

  /** How a quorum is counted: by signatures out of an optional total, or by stake. */
  datatype Quorum =
    | ByCount(validators: Option<int>)
    | ByStake(stakes: map<bytes, int>, totalStake: Option<int>)

  /** The fraction numerator/denominator of a quorum that must sign. */
  datatype Rule = Rule(numerator: int, denominator: int, quorum: Quorum)

  ghost function TotalOf(quorum: Quorum, signed: seq<Signed>): int {
    match quorum
    case ByCount(validators) => if validators.Some? then validators.value else |signed|
    case ByStake(stakes, totalStake) =>
      if totalStake.Some? then totalStake.value else SetWeight(stakes, stakes.Keys)
  }

  function Achieved(quorum: Quorum, valid: seq<Signed>): int {
    if quorum.ByCount? then |valid| else Weight(quorum.stakes, KeysOf(valid))
  }

  ghost function FinaliseSpec(
    bls: Bls, blockHash: bytes, height: int, signed: seq<Signed>, rule: Rule)
    : Finality
  {
    if !(0 <= height < HEIGHT_BOUND) then Raises
    else
      var message := SignPayload(blockHash, height);
      var total := TotalOf(rule.quorum, signed);
      if total <= 0 then Refused
      else if rule.denominator == 0 then Raises
      else
        var valid := ValidOf(bls, message, signed);
        if Achieved(rule.quorum, valid) < Threshold(rule.numerator, total, rule.denominator) then Refused
        else Bundle(bls, message, valid)
  }

  /** Taking any key out of a set takes exactly its stake out of the weight. */
  lemma {:induction false} SetWeightRemove(stakes: map<bytes, int>, keys: set<bytes>, k: bytes)
    requires k in keys
    ensures SetWeight(stakes, keys) == StakeOf(stakes, k) + SetWeight(stakes, keys - {k})
    decreases |keys|
  {
    var c :| c in keys && SetWeight(stakes, keys) == StakeOf(stakes, c) + SetWeight(stakes, keys - {c});
    if c != k {
      SetWeightRemove(stakes, keys - {c}, k);
      SetWeightRemove(stakes, keys - {k}, c);
      assert keys - {c} - {k} == keys - {k} - {c};
    }
  }

  /** sum(validator_stakes.values()), in whatever order the values come. */
  method TotalStake(stakes: map<bytes, int>) returns (total: int)
    ensures total == SetWeight(stakes, stakes.Keys)
  {
    total := 0;
    var keys := stakes.Keys;
    while keys != {}
      invariant keys <= stakes.Keys
      invariant total + SetWeight(stakes, keys) == SetWeight(stakes, stakes.Keys)
      decreases |keys|
    {
      var k :| k in keys;
      SetWeightRemove(stakes, keys, k);
      total := total + stakes[k];
      keys := keys - {k};
    }
  }

  method Finalise(
      bls: Bls, blockHash: bytes, height: int, signed: seq<Signed>, rule: Rule)
    returns (r: Finality)
    ensures r == FinaliseSpec(bls, blockHash, height, signed, rule)
  {
    if !(0 <= height < HEIGHT_BOUND) { return Raises; }
    var message := SignPayload(blockHash, height);
    var total;
    match rule.quorum {
      case ByCount(validators) => total := if validators.Some? then validators.value else |signed|;
      case ByStake(stakes, totalStake) =>
        if totalStake.Some? { total := totalStake.value; } else { total := TotalStake(stakes); }
    }
    if total <= 0 { return Refused; }
    if rule.denominator == 0 { return Raises; }
    var threshold := Threshold(rule.numerator, total, rule.denominator);
    var valid: seq<Signed> := [];
    var achieved := 0;
    for i := 0 to |signed|
      invariant valid == ValidOf(bls, message, signed[..i])
      invariant achieved == Achieved(rule.quorum, valid)
    {
      assert signed[..i + 1][..i] == signed[..i];
      if bls.verify(signed[i].0, message, signed[i].1) {
        assert KeysOf(valid + [signed[i]])[..|valid|] == KeysOf(valid);
        valid := valid + [signed[i]];
        achieved := achieved + if rule.quorum.ByStake? then StakeOf(rule.quorum.stakes, signed[i].0) else 1;
      }
    }
    assert signed[..|signed|] == signed;
    if achieved < threshold { return Refused; }
    return Bundle(bls, message, valid);
  }

  // ---------- leader choice ----------

  datatype VrfOutput = VrfOutput(beta: bytes, proof: bytes)

  /** The first position of the smallest output, read as a big-endian integer. */
  function SmallestOutput(outputs: seq<VrfOutput>): (r: nat)
    requires outputs != []
    ensures r < |outputs|
    ensures forall i :: 0 <= i < |outputs| ==> FromBytes(outputs[r].beta) <= FromBytes(outputs[i].beta)
    ensures forall i :: 0 <= i < r ==> FromBytes(outputs[r].beta) < FromBytes(outputs[i].beta)
  {
    if |outputs| == 1 then 0
    else
      var best := SmallestOutput(outputs[..|outputs| - 1]);
      if FromBytes(outputs[|outputs| - 1].beta) < FromBytes(outputs[best].beta) then |outputs| - 1 else best
  }

  /** The lottery over all validators; None is the ValueError of an empty or misaligned list. */
  method ElectLeader<V, S>(
      validators: seq<V>, secrets: seq<S>, prove: S -> VrfOutput)
    returns (r: Option<(nat, VrfOutput)>)
    ensures r.None? <==> validators == [] || |validators| != |secrets|
    ensures r.Some? ==>
      var (winner, output) := r.value;
      && winner < |validators| && output == prove(secrets[winner])
      && (forall i :: 0 <= i < |secrets| ==> FromBytes(output.beta) <= FromBytes(prove(secrets[i]).beta))
      && (forall i :: 0 <= i < winner ==> FromBytes(output.beta) < FromBytes(prove(secrets[i]).beta))
  {
    if validators == [] || |validators| != |secrets| { return None; }
    var outputs := seq(|secrets|, i requires 0 <= i < |secrets| => prove(secrets[i]));
    var winner := SmallestOutput(outputs);
    assert forall i :: 0 <= i < |secrets| ==> FromBytes(outputs[i].beta) == FromBytes(prove(secrets[i]).beta);
    return Some((winner, outputs[winner]));
  }

  // ---------- slashing evidence ----------

  datatype Evidence = Evidence(
    offender: bytes, height: int, blockA: bytes, sigA: bytes, blockB: bytes, sigB: bytes)

  predicate WellFormed(e: Evidence) {
    && e.blockA != e.blockB && e.height >= 0
    && |e.offender| == PUBLIC_KEY_BYTES && |e.sigA| == SIGNATURE_BYTES && |e.sigB| == SIGNATURE_BYTES
  }

  /** None is the OverflowError of a height beyond eight bytes. */
  function VerifyEvidence(bls: Bls, e: Evidence): Option<bool> {
    if !WellFormed(e) then Some(false)
    else if e.height >= HEIGHT_BOUND then None
    else Some(
      && bls.verify(e.offender, SignPayload(e.blockA, e.height), e.sigA)
      && bls.verify(e.offender, SignPayload(e.blockB, e.height), e.sigB))
  }
}
