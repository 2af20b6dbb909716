/** Blocks of the chain, and exactly what the hash of a block commits to. */
module ChainBlock {
  import opened Collections
  import opened Bytes
  import opened ModArith
  import opened ChainMerkle
  import ChainMerkleTheorems
  import opened Consensus

  const TIMESTAMP_BOUND := 0x1_0000_0000_0000_0000_0000_0000_0000_0000

  datatype MatchOutcome = MatchOutcome(
    matchId: int, winner: Option<int>, goal: Option<int>, startedTick: int, endTick: int, endReason: string,
    arena: bytes)

  datatype SlashingTx = SlashingTx(evidence: Evidence, heightObserved: nat)

  /** The fields of a slashing that its leaf encodes: the height of the evidence is not among them. */
  datatype SlashingRecord = SlashingRecord(
    offender: bytes, blockA: bytes, blockB: bytes, sigA: bytes, sigB: bytes, heightObserved: nat)

  function Record(tx: SlashingTx): SlashingRecord {
    var e := tx.evidence;
    SlashingRecord(e.offender, e.blockA, e.blockB, e.sigA, e.sigB, tx.heightObserved)
  }

  /** The canonical JSON encodings of the two kinds of leaf. */
  datatype Encoding = Encoding(outcome: MatchOutcome -> bytes, slashing: SlashingRecord -> bytes)

  datatype BlockHeader = BlockHeader(
    height: nat, prevHash: bytes, merkleRoot: bytes, proposer: bytes, beta: bytes, timestamp: nat)

  datatype Block = Block(
    header: BlockHeader, payload: seq<MatchOutcome>, slashings: seq<SlashingTx>, pubkeys: seq<bytes>, aggregate: bytes)

  function EncodeHeader(b: BlockHeader): bytes
    requires b.height < HEIGHT_BOUND && b.timestamp < TIMESTAMP_BOUND
  {
    ToBytes(b.height, 8) + b.prevHash + b.merkleRoot + b.proposer + b.beta + ToBytes(b.timestamp, 16)
  }

  function HeaderInput(b: BlockHeader): bytes
    requires b.height < HEIGHT_BOUND && b.timestamp < TIMESTAMP_BOUND
  {
    Ascii("penumbra-block-header:") + EncodeHeader(b)
  }

  function HeaderHash(h: Hash, b: BlockHeader): bytes
    requires b.height < HEIGHT_BOUND && b.timestamp < TIMESTAMP_BOUND
  {
    h(HeaderInput(b))
  }

  function Leaves(enc: Encoding, payload: seq<MatchOutcome>, slashings: seq<SlashingTx>): (r: seq<bytes>)
    ensures |r| == |payload| + |slashings|
  {
    seq(|payload|, i requires 0 <= i < |payload| => enc.outcome(payload[i]))
    + seq(|slashings|, i requires 0 <= i < |slashings| => enc.slashing(Record(slashings[i])))
  }

  /** None is the ValueError of a Merkle tree that is too high. */
  function Assemble(
      h: Hash, enc: Encoding, height: nat, prevHash: bytes, proposer: bytes, beta: bytes, timestamp: nat,
      payload: seq<MatchOutcome>, slashings: seq<SlashingTx>)
    : Option<Block>
  {
    var root := RootSpec(h, Leaves(enc, payload, slashings));
    if root.None? then None
    else Some(Block(BlockHeader(height, prevHash, root.value, proposer, beta, timestamp), payload, slashings, [], []))
  }

  function WithFinality(block: Block, pubkeys: seq<bytes>, aggregate: bytes): Block {
    Block(block.header, block.payload, block.slashings, pubkeys, aggregate)
  }

  // ---------- what the hash commits to ----------

  /** Headers with fields of the sizes the chain uses. */
  predicate Sized(b: BlockHeader) {
    && b.height < HEIGHT_BOUND && b.timestamp < TIMESTAMP_BOUND
    && |b.prevHash| == |b.merkleRoot| == |b.beta| == 32 && |b.proposer| == PUBLIC_KEY_BYTES
  }

  lemma HeaderBinds(a: BlockHeader, b: BlockHeader)
    requires Sized(a) && Sized(b) && EncodeHeader(a) == EncodeHeader(b)
    ensures a == b
  {
    var ta, tb := ToBytes(a.timestamp, 16), ToBytes(b.timestamp, 16);
    var ha, hb := ToBytes(a.height, 8), ToBytes(b.height, 8);
    ConcatInjective(ha + a.prevHash + a.merkleRoot + a.proposer + a.beta, ta,
                    hb + b.prevHash + b.merkleRoot + b.proposer + b.beta, tb);
    ConcatInjective(ha + a.prevHash + a.merkleRoot + a.proposer, a.beta, hb + b.prevHash + b.merkleRoot + b.proposer,
      b.beta);
    ConcatInjective(ha + a.prevHash + a.merkleRoot, a.proposer, hb + b.prevHash + b.merkleRoot, b.proposer);
    ConcatInjective(ha + a.prevHash, a.merkleRoot, hb + b.prevHash, b.merkleRoot);
    ConcatInjective(ha, a.prevHash, hb, b.prevHash);
    WideBounds();
    ToBytesInjective(a.timestamp, b.timestamp, 16);
    ToBytesInjective(a.height, b.height, 8);
  }

  /** Each encoding tells its own values apart, and the kinds never meet. */
  ghost predicate Faithful(enc: Encoding) {
    && (forall x, y {:trigger enc.outcome(x), enc.outcome(y)} :: enc.outcome(x) == enc.outcome(y) ==> x == y)
    && (forall x, y {:trigger enc.slashing(x), enc.slashing(y)} :: enc.slashing(x) == enc.slashing(y) ==> x == y)
    && (forall x, y {:trigger enc.outcome(x), enc.slashing(y)} :: enc.outcome(x) != enc.slashing(y))
  }

  predicate SameRecords(s: seq<SlashingTx>, t: seq<SlashingTx>) {
    |s| == |t| && forall i :: 0 <= i < |s| ==> Record(s[i]) == Record(t[i])
  }

  /** The list of leaves shows where the outcomes end and the slashings begin. */
  lemma LeavesBind(enc: Encoding, p: seq<MatchOutcome>, s: seq<SlashingTx>, q: seq<MatchOutcome>, t: seq<SlashingTx>)
    requires Faithful(enc)
    ensures Leaves(enc, p, s) == Leaves(enc, q, t) <==> p == q && SameRecords(s, t)
  {
    var a, b := Leaves(enc, p, s), Leaves(enc, q, t);
    if a == b {
      if |p| < |q| {
        OutcomesEndTogether(enc, p, s, q, t);
      } else if |q| < |p| {
        OutcomesEndTogether(enc, q, t, p, s);
      }
      forall i | 0 <= i < |p| ensures p[i] == q[i] {
        assert a[i] == enc.outcome(p[i]) && b[i] == enc.outcome(q[i]);
      }
      forall i | 0 <= i < |s| ensures Record(s[i]) == Record(t[i]) {
        assert a[|p| + i] == enc.slashing(Record(s[i])) && b[|p| + i] == enc.slashing(Record(t[i]));
      }
    }
  }

  lemma OutcomesEndTogether(
      enc: Encoding, p: seq<MatchOutcome>, s: seq<SlashingTx>, q: seq<MatchOutcome>, t: seq<SlashingTx>)
    requires Faithful(enc) && |p| < |q|
    ensures Leaves(enc, p, s) != Leaves(enc, q, t)
  {
    var a, b := Leaves(enc, p, s), Leaves(enc, q, t);
    if |a| == |b| {
      assert a[|p|] == enc.slashing(Record(s[0])) && b[|p|] == enc.outcome(q[|p|]);
    }
  }

  /** Every input hashed to name a block. */
  ghost function BlockInputs(h: Hash, enc: Encoding, b: Block): set<bytes>
    requires Sized(b.header)
  {
    {HeaderInput(b.header)} + ChainMerkleTheorems.HashedInputs(h, Leaves(enc, b.payload, b.slashings))
  }

  /** A block whose header carries the Merkle root of its leaves. */
  predicate Rooted(h: Hash, enc: Encoding, b: Block) {
    RootSpec(h, Leaves(enc, b.payload, b.slashings)) == Some(b.header.merkleRoot)
  }

  /** The hash of a block commits to every header field, to the outcomes, and to the slashings in
      order, and to nothing more: it does not see the heights inside the evidence. */
  lemma BlockHashCommits(h: Hash, enc: Encoding, a: Block, b: Block)
    requires Rooted(h, enc, a) && Rooted(h, enc, b) && Sized(a.header) && Sized(b.header)
    requires Faithful(enc) && Digests(h) && InjectiveOn(h, BlockInputs(h, enc, a) + BlockInputs(h, enc, b))
    requires forall x :: x in BlockInputs(h, enc, a) + BlockInputs(h, enc, b) ==> h(x) != ZeroLeaf()
    ensures HeaderHash(h, a.header) == HeaderHash(h, b.header)
      <==> (a.header.(merkleRoot := b.header.merkleRoot) == b.header
            && a.payload == b.payload && SameRecords(a.slashings, b.slashings))
  {
    var la, lb := Leaves(enc, a.payload, a.slashings), Leaves(enc, b.payload, b.slashings);
    LeavesBind(enc, a.payload, a.slashings, b.payload, b.slashings);
    if HeaderHash(h, a.header) == HeaderHash(h, b.header) {
      var tag := Ascii("penumbra-block-header:");
      ConcatInjective(tag, EncodeHeader(a.header), tag, EncodeHeader(b.header));
      HeaderBinds(a.header, b.header);
      ChainMerkleTheorems.RootBinding(h, la, lb);
    }
  }

  /** Two blocks over slashings that differ in nothing but the height of the evidence have one hash,
      whatever the hash function and the encodings. */
  lemma EvidenceHeightUnseen(h: Hash, enc: Encoding, b: Block, height: int)
    requires Rooted(h, enc, b) && Sized(b.header) && |b.slashings| == 1 && height != b.slashings[0].evidence.height
    ensures var tx := b.slashings[0];
      var other := b.(slashings := [tx.(evidence := tx.evidence.(height := height))]);
      other != b && Rooted(h, enc, other) && HeaderHash(h, other.header) == HeaderHash(h, b.header)
  {
    var tx := b.slashings[0];
    var changed := [tx.(evidence := tx.evidence.(height := height))];
    assert Record(changed[0]) == Record(tx);
    assert changed[0] != b.slashings[0];
    assert Leaves(enc, b.payload, changed) == Leaves(enc, b.payload, b.slashings);
  }
}
