/** What the seed of a round and the hash of a head stand for: the whole history of the chain. */
module ChainHistory {
  import opened Collections
  import opened ModArith
  import opened Bytes
  import opened Consensus
  import opened ChainBlock
  import opened ChainNode
  import opened ChainNodeTheorems
  import ChainMerkle

  /** Equal in everything a block hash commits to. */
  predicate SameBlock(a: Block, b: Block) {
    a.header == b.header && a.payload == b.payload && SameRecords(a.slashings, b.slashings)
  }

  predicate SameHistory(a: seq<Block>, b: seq<Block>) {
    |a| == |b| && forall i :: 0 <= i < |a| ==> SameBlock(a[i], b[i])
  }

  /** Blocks with fields of the sizes the chain uses, on whose inputs the hash neither collides
      nor meets the sentinel of the Merkle tree. */
  ghost predicate Apart(p: Protocol, a: Block, b: Block) {
    && Sized(a.header) && Sized(b.header)
    && InjectiveOn(p.hash, BlockInputs(p.hash, p.enc, a) + BlockInputs(p.hash, p.enc, b))
    && forall x :: x in BlockInputs(p.hash, p.enc, a) + BlockInputs(p.hash, p.enc, b) ==>
         p.hash(x) != ChainMerkle.ZeroLeaf()
  }

  ghost predicate HistoriesApart(p: Protocol, a: seq<Block>, b: seq<Block>) {
    && Digests(p.hash) && Faithful(p.enc)
    && forall i :: 0 <= i < |a| && i < |b| ==> Apart(p, a[i], b[i])
  }

  lemma SameHashSameBlock(p: Protocol, a: Block, b: Block)
    requires Digests(p.hash) && Faithful(p.enc) && Apart(p, a, b)
    requires Rooted(p.hash, p.enc, a) && Rooted(p.hash, p.enc, b)
    ensures HeaderHash(p.hash, a.header) == HeaderHash(p.hash, b.header) <==> SameBlock(a, b)
  {
    hide BlockInputs, HeaderHash, SameRecords, Leaves;
    BlockHashCommits(p.hash, p.enc, a, b);
    if a.header.(merkleRoot := b.header.merkleRoot) == b.header && a.payload == b.payload
       && SameRecords(a.slashings, b.slashings)
    {
      SameRoot(p, a, b);
    }
  }

  lemma SameRoot(p: Protocol, a: Block, b: Block)
    requires Faithful(p.enc) && Rooted(p.hash, p.enc, a) && Rooted(p.hash, p.enc, b)
    requires a.payload == b.payload && SameRecords(a.slashings, b.slashings)
    ensures a.header.merkleRoot == b.header.merkleRoot
  {
    hide Leaves, Faithful;
    LeavesBind(p.enc, a.payload, a.slashings, b.payload, b.slashings);
  }

  /** Two linked chains that agree on the hash of one block agree on all blocks up to it. */
  lemma {:induction false} HashBindsHistory(p: Protocol, a: seq<Block>, b: seq<Block>, i: nat)
    requires Linked(p, a) && Linked(p, b) && HistoriesApart(p, a, b) && i < |a| && i < |b|
    requires LinkedAt(p, a, i) && LinkedAt(p, b, i)
    requires HeaderHash(p.hash, a[i].header) == HeaderHash(p.hash, b[i].header)
    ensures forall j :: 0 <= j <= i ==> SameBlock(a[j], b[j])
  {
    hide Apart, HeaderHash, Rooted, Certified, Faithful, SameBlock;
    SameHashSameBlock(p, a[i], b[i]);
    if i > 0 {
      assert LinkedAt(p, a, i - 1) && LinkedAt(p, b, i - 1);
      SameHeader(a[i], b[i]);
      HashBindsHistory(p, a, b, i - 1);
    }
  }

  lemma SameHeader(a: Block, b: Block)
    requires SameBlock(a, b)
    ensures a.header == b.header
  {}

  lemma HeadHashSize(p: Protocol, s: NodeState)
    requires WellShaped(s) && Digests(p.hash)
    ensures |HeadHash(p, s)| == 32
  {
    hide HeaderInput;
  }

  lemma SeedParts(p: Protocol, s: NodeState, t: NodeState)
    requires WellShaped(s) && WellShaped(t) && Digests(p.hash) && |s.chain| < HEIGHT_BOUND && |t.chain| < HEIGHT_BOUND
    ensures Seed(p, s) == Seed(p, t) <==> HeadHash(p, s) == HeadHash(p, t) && |s.chain| == |t.chain|
  {
    hide HeadHash, ToBytes, Pow;
    HeadHashSize(p, s);
    HeadHashSize(p, t);
    WideBounds();
    if Seed(p, s) == Seed(p, t) {
      ConcatInjective(HeadHash(p, s), ToBytes(|s.chain|, 8), HeadHash(p, t), ToBytes(|t.chain|, 8));
      ToBytesInjective(|s.chain|, |t.chain|, 8);
    }
  }

  lemma HeadOf(p: Protocol, s: NodeState)
    requires WellShaped(s) && s.chain != []
    ensures var head := s.chain[|s.chain| - 1].header;
      head.height < HEIGHT_BOUND && head.timestamp < TIMESTAMP_BOUND && HeadHash(p, s) == HeaderHash(p.hash, head)
  {
    assert s.chain[|s.chain| - 1] in s.chain;
  }

  /** The seed of a round stands for the chain below it: two nodes draw from one seed exactly when their chains
      are the same, block by block, in all that a block hash commits to. */
  lemma SeedBinds(p: Protocol, s: NodeState, t: NodeState)
    requires WellShaped(s) && WellShaped(t) && |s.chain| < HEIGHT_BOUND && |t.chain| < HEIGHT_BOUND
    requires Linked(p, s.chain) && Linked(p, t.chain) && HistoriesApart(p, s.chain, t.chain)
    ensures Seed(p, s) == Seed(p, t) <==> SameHistory(s.chain, t.chain)
  {
    hide Seed, HeadHash, LinkedAt, Apart, Faithful, SameBlock, HeaderHash;
    SeedParts(p, s, t);
    if |s.chain| == |t.chain| {
      if s.chain == [] {
        EmptyHead(p, s, t);
      } else {
        var last := |s.chain| - 1;
        HeadOf(p, s);
        HeadOf(p, t);
        assert LinkedAt(p, s.chain, last) && LinkedAt(p, t.chain, last);
        if HeadHash(p, s) == HeadHash(p, t) { HashBindsHistory(p, s.chain, t.chain, last); }
        if SameHistory(s.chain, t.chain) {
          assert SameBlock(s.chain[last], t.chain[last]);
          SameHeader(s.chain[last], t.chain[last]);
        }
      }
    }
  }

  lemma EmptyHead(p: Protocol, s: NodeState, t: NodeState)
    requires WellShaped(s) && WellShaped(t) && s.chain == [] == t.chain
    ensures HeadHash(p, s) == HeadHash(p, t)
  {}
}
