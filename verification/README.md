# Penumbra: verified models of its protocols

Penumbra is a monorepo whose mathematics and state machines live in a handful of Python files. This
project models those files in Dafny and proves what they promise: a FRI/STARK prover and verifier,
FROST threshold signatures, a Wesolowski delay function with its primality test, an onion mix-net, a
proof-of-stake chain with its Merkle tree, finality, slashing and node, the Byzantine-robust
aggregators of federated learning, two vehicle-routing solvers, a multi-echelon supply chain, city
markets, and the bookkeeping of carrier rewards.

## How it is organised

Each component has a module that follows its source file and, beside it, a module of theorems. Loops
of the source are methods proved equal to a specification function, or proved to meet their promise
outright; objects that the source updates in place are classes whose methods give their whole new
state as a function of the old one. The theorems are lemmas about those functions, most of them for
every input or for every run of a state machine.

| component | modules |
|---|---|
| shared | `Collections`, `ModArith`, `Bytes` |
| STARK | `StarkField`, `StarkMerkle`, `StarkMerkleTheorems`, `Fri`, `StarkProtocol`, `StarkTheorems`, `StarkTranscript` |
| FROST | `Lagrange`, `Frost`, `FrostTheorems`, `FrostBinding` |
| VDF and primality | `Vdf`, `VdfHash`, `MillerRabin` |
| chain | `ChainMerkle`, `ChainMerkleTheorems`, `Consensus`, `ConsensusTheorems`, `ConsensusOutcomes`, `ChainBlock`, `ChainNode`, `ChainNodeTheorems`, `ChainHistory` |
| aggregators | `Aggregators`, `AggregatorTheorems`, `AggregatorSelection` |
| routing | `Routing`, `RoutingTheorems`, `RoutingGreedy` |
| mix-net | `MixNet`, `MixNetTampering` |
| logistics and economy | `CarrierCredit`, `CarrierCreditTheorems`, `CarrierCreditBook`, `Echelon`, `EchelonTheorems`, `EchelonAccounts`, `Market`, `MarketTheorems`, `MarketTrades`, `MarketFlows` |

SHA-256, BLS, the verifiable random function and the JSON encodings are function-valued parameters, so the
results hold for every choice of them; the delay function also takes its hash-to-prime map as a parameter,
which `VdfHash` models. Where a result needs such a
function to behave, the lemma says how: a hash that does not collide on the finitely many inputs that
the computations in question feed it (`Bytes.InjectiveOn`), also modulo a prime or cut to a tag where the
code reduces or cuts digests (`Bytes.InjectiveModulo`, `MixNetTampering.TagsApart`), 32-byte digests (`Bytes.Digests`), keys
that verify what their secrets sign (`ChainNodeTheorems.Honest`). Python exceptions are values: `None`,
or a constructor such as `Raises`. Floating point is modelled by exact reals. Random draws, clocks and
network events are inputs.

The parameters of the STARK field are the constants of the source, and the order of its generator is
computed by square-and-multiply, so the inverses of domain elements need no primality assumption.

## Where the code and its documentation differ

The model follows the code.

- The STARK Merkle tree is documented to pad with zero leaves (`packages/crypto/penumbra_crypto/stark.py:103-113`);
  the code repeats the last node, so two lists of different lengths can share a root
  (`StarkMerkleTheorems.DuplicateLeafAliases`). Short of a collision they do exactly when they agree once completed
  to a power of two (`StarkMerkleTheorems.RootAliases`), and different lists of one length never do
  (`StarkMerkleTheorems.RootBindsGivenLength`).
- A STARK proof for one coefficient at blowup 1 is produced and then rejected; `StarkTheorems.Completeness`
  gives the exact condition, a requested codeword of at least two entries.
- The STARK verifier looks neither at the degree bound of a proof nor at how many rounds it has, so a
  one-round proof of any list is accepted (`StarkTheorems.OneRoundAccepted`); what acceptance does say is
  `StarkTheorems.AcceptanceExactly`.
- A FROST binding factor hashes the message and the commitments one after the other without their lengths, so
  commitments at the front of the list can as well be the end of the message (`FrostBinding.FactorShifts`); among
  lists of one length, such as those of one session, it does bind all of them (`FrostBinding.FactorBinds`).
- `finalise` counts a stake once per submitted pair, repeated pairs included
  (`ConsensusTheorems.RepeatedPairFinalises`); the weight is that of the signers exactly when no key of
  positive stake repeats (`ConsensusTheorems.WeightOfRepeats`).
- `Node.slash` is documented as idempotent; it raises on a validator already slashed, and leaves the state
  as it was (`ChainNodeTheorems.ResubmissionRefused`). On a sound state it accepts exactly verified evidence
  against a validator not slashed before (`ChainNodeTheorems.SlashedExactlyWhen`).
- A comment in `Node.produce_block` speaks of the mempool's drain-and-keep semantics; the mempool removes
  what it drains, so a round that fails afterwards loses it (`ChainNodeTheorems.FailedRoundLoses`). A round
  loses outcomes exactly when it drains some and then its tree is too high or its quorum is not met
  (`ChainNodeTheorems.RoundDecided`, `ChainNodeTheorems.OutcomesConserved`).
- A block hash does not commit to the height inside slashing evidence (`ChainBlock.EvidenceHeightUnseen`); what
  it does commit to is `ChainBlock.BlockHashCommits`.
- The soundness sketch of the delay function says that only the delayed output can meet the verifier's
  equation. Over a prime modulus, when the hashed prime is invertible modulo p-1, every output has exactly
  one proof element that meets it (`Vdf.OneElementAccepted`, with numbers in `Vdf.ThreeHasAnElement`); with the
  honest element the delayed output alone does (`Vdf.ExactForHonestProof`).
- The greedy router is documented to weigh distance by reward; the code uses distance alone
  (`Routing.RewardMissed`). Its choice is the documented one over every table of distances exactly when no
  order that fits has a greater reward than one that stands first at its node (`Routing.RewardIgnored`).
- `EchelonNetwork.upstream_of` is documented to return the first edge above a node; the code keeps the last
  (`EchelonTheorems.SecondEdgeWins`), and returns the first exactly when the first and the last are alike
  (`EchelonTheorems.UpstreamOf`).
- The carrier-reward counter of the shaper moves past every fulfilment, also when it pays nobody for it: a
  step without a bonus, one with more than 200 new fulfilments, or an agent that does not take part leaves
  fulfilments unpaid for good (`CarrierCreditTheorems.OutsiderUnpaid`), and nothing else does
  (`CarrierCreditTheorems.PaidExactlyOnce`).
- `Market.produce` truncates, so a city with a rate below one unit a tick never produces
  (`MarketTheorems.ProductionNeedsWholeUnits`), as at the default rate (`MarketTheorems.BuiltMakesNothing`);
  the comments expect a unit every few ticks.
- The market's documentation calls the money supply invariant; block rewards and end customers add to it
  (`MarketTheorems.RewardAddsMoney`), and nothing else does (`MarketTheorems.RunAccounts`).
- Below 2f+3 updates Krum is the plain mean, which one update can move anywhere
  (`AggregatorTheorems.FallbackUnprotected`).

## Model

| member | source | states |
|---|---|---|
| StarkField.DomainIsSubgroup | packages/crypto/penumbra_crypto/stark.py:179-188 | the evaluation domain of every power-of-two size up to 2^23 is the cyclic subgroup of its generator, whose half-size power is -1 |
| StarkField.GeneratorOrder | packages/crypto/penumbra_crypto/stark.py:179-188 | the generator of a domain of n elements satisfies g^(2^23) = 1 and g^(n/2) = -1 |
| StarkField.DomainInverse | packages/crypto/penumbra_crypto/stark.py:90-92 | exponentiation by P-2 inverts every domain element, from the order of the generator and not from primality |
| StarkField.HalfNegated | packages/crypto/penumbra_crypto/stark.py:202-226 | the upper half of a domain is the negation of its lower half |
| StarkField.SquaredSubgroup | packages/crypto/penumbra_crypto/stark.py:202-226 | squaring the lower half gives a domain of half the size |
| StarkMerkle.MerkleRoot | packages/crypto/penumbra_crypto/stark.py:103-113 | the loop computes the specified root and fails exactly on no leaves |
| StarkMerkle.MerkleOpen | packages/crypto/penumbra_crypto/stark.py:115-130 | the loop collects the specified opening and fails exactly on an index outside the list |
| StarkMerkle.MerkleVerify | packages/crypto/penumbra_crypto/stark.py:132-141 | the loop accepts exactly when the walk from the leaf reaches the root |
| StarkMerkle.OpeningVerifies | packages/crypto/penumbra_crypto/stark.py:103-141 | every opening verifies against the root of its list |
| StarkMerkleTheorems.OpeningBinding | packages/crypto/penumbra_crypto/stark.py:103-141 | an accepted proof for a position, of whatever length, is the opening at that position, leaf and path, unless the hash collides on the inputs of the tree and of the proof |
| StarkMerkleTheorems.AcceptedDepth | packages/crypto/penumbra_crypto/stark.py:132-141 | the length of a path is never checked, and an accepted proof still has exactly one step per level of the tree, unless the hash collides |
| StarkMerkle.ProofBinding | packages/crypto/penumbra_crypto/stark.py:132-141 | two accepted proofs of one length for one position are equal, unless the hash collides |
| StarkMerkleTheorems.RootAliases | packages/crypto/penumbra_crypto/stark.py:103-113 | two lists of leaves have one root exactly when they agree once the repeated nodes complete them to powers of two, unless the hash collides |
| StarkMerkleTheorems.RootBindsGivenLength | packages/crypto/penumbra_crypto/stark.py:103-113 | of two lists with one root, equal lengths are exactly what makes them equal, unless the hash collides |
| StarkMerkleTheorems.DuplicateLeafAliases | packages/crypto/penumbra_crypto/stark.py:103-113 | lists [a, b, c] and [a, b, c, c] have one root |
| Fri.EvaluateByHorner | packages/crypto/penumbra_crypto/stark.py:190-196 | the Horner loop computes the polynomial modulo P |
| Fri.EvaluateIsPoly | packages/crypto/penumbra_crypto/stark.py:190-196 | evaluation in the field is congruent to the integer polynomial |
| Fri.Fold | packages/crypto/penumbra_crypto/stark.py:202-226 | the loop folds code and domain entry by entry and fails exactly on an odd length |
| Fri.FoldSwap | packages/crypto/penumbra_crypto/stark.py:307-377 | folding with left and right swapped and x negated gives the same value |
| Fri.FoldAtQuery | packages/crypto/penumbra_crypto/stark.py:307-377 | the value the verifier folds at any query position, upper half included, is the entry of the folded code |
| Fri.FoldPreservesMeaning | packages/crypto/penumbra_crypto/stark.py:202-226 | folding the codeword of f with beta gives the codeword of f_even + beta * f_odd on the squared half-domain |
| StarkProtocol.Prove | packages/crypto/penumbra_crypto/stark.py:234-305 | the prover's loops produce the specified proof, and fail exactly without coefficients or beyond the two-adicity |
| StarkProtocol.FoldLoop | packages/crypto/penumbra_crypto/stark.py:255-272 | the commit loop produces the specified roots, layers, last layer and transcript |
| StarkProtocol.QueryLoop | packages/crypto/penumbra_crypto/stark.py:272-300 | the query loop opens each layer at the query and its mirror |
| StarkProtocol.Verify | packages/crypto/penumbra_crypto/stark.py:307-377 | the verifier's loop reaches the specified verdict: accept, reject or an escaping exception |
| StarkTheorems.VerifierFollowsProver | packages/crypto/penumbra_crypto/stark.py:234-377 | replaying the rounds of an honest prover ends in its transcript and its last value, from any layer on |
| StarkTheorems.Completeness | packages/crypto/penumbra_crypto/stark.py:234-377 | an honest proof exists exactly for the non-empty lists whose requested codeword has at most 2^23 entries, and is accepted exactly when it has at least two |
| StarkTheorems.HonestClaims | packages/crypto/penumbra_crypto/stark.py:234-304 | what an honest proof claims is true: the evaluation is the polynomial's at the query point, the degree bound its degree, the domain the least power of two that holds blowup points a coefficient |
| StarkTheorems.LayersAreCodewords | packages/crypto/penumbra_crypto/stark.py:255-272 | layer k is the codeword of the k-times folded polynomial, which is constant once 2^k reaches the number of coefficients |
| StarkTheorems.FinalConstantIsReached | packages/crypto/penumbra_crypto/stark.py:255-300 | from that layer on every entry is the final constant of the proof |
| StarkTheorems.ReplayExactly | packages/crypto/penumbra_crypto/stark.py:307-377 | the loop runs to its end exactly when every round opens the right position and its mirror, authenticates both and continues the fold before it; it then has absorbed all commitments and expects the last fold |
| StarkTheorems.AcceptanceExactly | packages/crypto/penumbra_crypto/stark.py:307-377 | a proof is accepted exactly when it is well shaped, all its rounds hold, the last fold is the constant and the query is the one its transcript gives |
| StarkTheorems.RaisesOnlyBeyond | packages/crypto/penumbra_crypto/stark.py:307-377 | the verifier raises on a domain larger than any of the field, and otherwise only where a proof has more rounds than its domain can be halved |
| StarkTheorems.AcceptanceBinds | packages/crypto/penumbra_crypto/stark.py:307-377 | acceptance authenticates every opened value, bounds the rounds by the domain and rejects the proof with any other final constant modulo P |
| StarkTheorems.OneRoundAccepted | packages/crypto/penumbra_crypto/stark.py:307-377 | acceptance says nothing of the degree: every list of field elements of a power-of-two length from 2 to 2^23 has an accepted one-round proof, with any degree bound |
| StarkTranscript.TranscriptBinds | packages/crypto/penumbra_crypto/stark.py:266 | two runs that end in one transcript started alike and absorbed the same commitments in the same order |
| StarkTranscript.ChallengeBinds | packages/crypto/penumbra_crypto/stark.py:228-231 | the digests behind two challenges are equal exactly for equal transcripts and tags, and so are the challenges where digests stay apart modulo P |
| StarkTranscript.TranscriptDeterminesProof | packages/crypto/penumbra_crypto/stark.py:307-377 | two accepted proofs that end in one transcript carry the same commitments round by round, over one domain the same query, and with openings of equal depth the same rounds and constant |
| Lagrange.LagrangeCoefficient | packages/crypto/penumbra_crypto/frost.py:198-206 | the accumulating loop computes the specified coefficient |
| Lagrange.CoefficientIsQuotient | packages/crypto/penumbra_crypto/frost.py:198-206 | times its denominator the coefficient is its numerator, modulo a prime and for distinct nodes |
| Lagrange.WeightsSumToOne | packages/crypto/penumbra_crypto/frost.py:198-206 | the coefficients of distinct nodes sum to one |
| Lagrange.InterpolatesAtZero | packages/crypto/penumbra_crypto/frost.py:198-206 | for a polynomial with at most as many coefficients as nodes, the weighted sum of its values is its value at zero |
| Frost.EvaluateByHorner | packages/crypto/penumbra_crypto/frost.py:50-65 | the loop evaluates the sharing polynomial modulo q |
| Frost.ShamirSplit | packages/crypto/penumbra_crypto/frost.py:50-65 | the loop deals the value at i to participant i |
| Frost.Keygen | packages/crypto/penumbra_crypto/frost.py:118-137 | the dealt shares are those of the polynomial with the secret as its constant, and bad thresholds fail |
| Frost.GroupCommitment | packages/crypto/penumbra_crypto/frost.py:179-186 | the loop multiplies the bound commitments |
| Frost.SignShare | packages/crypto/penumbra_crypto/frost.py:209-230 | a partial signature combines the nonces, the binding factor, the coefficient and the challenge as specified |
| Frost.Aggregate | packages/crypto/penumbra_crypto/frost.py:233-252 | the loop sums the responses, and fails exactly when the signers do not match the commitments |
| FrostTheorems.GroupProductIsPower | packages/crypto/penumbra_crypto/frost.py:179-186 | the group commitment is g to the sum of the effective nonces |
| FrostTheorems.ResponsesSum | packages/crypto/penumbra_crypto/frost.py:209-252 | the honest responses sum to the nonces plus challenge times the group secret, modulo q |
| FrostTheorems.TotalPermutation | packages/crypto/penumbra_crypto/frost.py:233-252 | the sum of the shares does not depend on their order |
| FrostTheorems.ThresholdSignatureVerifies | packages/crypto/penumbra_crypto/frost.py:118-267 | shares of at least t distinct signers, in any order and with any nonces and message, aggregate to a signature that verifies |
| FrostTheorems.ResponseUnique | packages/crypto/penumbra_crypto/frost.py:255-267 | for one commitment, key and message at most one response verifies |
| FrostBinding.ChallengeBinds | packages/crypto/penumbra_crypto/frost.py:188-195 | one challenge belongs to one key, one commitment and one message |
| FrostBinding.FactorBinds | packages/crypto/penumbra_crypto/frost.py:160-176 | one binding factor belongs to one signer, one message and one list of commitments, among lists of one length |
| FrostBinding.FactorShifts | packages/crypto/penumbra_crypto/frost.py:160-176 | across lists of different lengths it does not: commitments at the front can as well be the end of the message |
| FrostBinding.SignatureBinds | packages/crypto/penumbra_crypto/frost.py:255-267 | under a key of prime order and with an invertible commitment a signature verifies for one message only |
| FrostBinding.HonestSignatureBinds | packages/crypto/penumbra_crypto/frost.py:209-267 | what an honest session aggregates verifies for its message alone, and with its response alone |
| FrostBinding.AggregateExactly | packages/crypto/penumbra_crypto/frost.py:233-249 | the aggregator accepts shares exactly when the participants that sign are those that committed |
| Vdf.Evaluate | packages/crypto/penumbra_crypto/vdf.py:64-77 | the squaring loop computes x^(2^T) mod p and fails exactly outside its domain |
| Vdf.Prove | packages/crypto/penumbra_crypto/vdf.py:80-89 | the prover returns the evaluation with the quotient power as its proof |
| Vdf.HonestAccepted | packages/crypto/penumbra_crypto/vdf.py:80-103 | over a prime modulus every proof the prover returns is accepted, for any hash to a positive integer |
| Vdf.AnswerExactly | packages/crypto/penumbra_crypto/vdf.py:92-103 | the verifier answers yes exactly on reduced values that satisfy its equation, and raises exactly on reduced values with a delay too long to hash |
| Vdf.ExactForHonestProof | packages/crypto/penumbra_crypto/vdf.py:92-103 | with the honest proof element, exactly the delayed output is accepted |
| Vdf.OneElementAccepted | packages/crypto/penumbra_crypto/vdf.py:92-103 | over a prime modulus, when the hashed prime is invertible modulo p-1, every output has exactly one accepted proof element, a power of the output over a power of the input |
| Vdf.ThreeHasAnElement | packages/crypto/penumbra_crypto/vdf.py:92-103 | modulo 7 with hashed prime 5, the output 3 has an accepted element though one squaring of 2 is 4 |
| Vdf.DelaysCompose | packages/crypto/penumbra_crypto/vdf.py:64-77 | evaluating for a and then b ticks is evaluating for a + b |
| VdfHash.HashToPrime | packages/crypto/penumbra_crypto/vdf.py:106-126 | the search loop gives the first accepted candidate and fails as specified |
| VdfHash.PrimeMeaning | packages/crypto/penumbra_crypto/vdf.py:106-126 | the map gives the first candidate that passes the test, an odd number of at most 256 bits, and fails exactly on transcripts too wide to encode or when all 2^32 candidates are rejected |
| VdfHash.DigestBinds | packages/crypto/penumbra_crypto/vdf.py:117-124 | a digest of the search belongs to one input, one output, one delay and one counter |
| MillerRabin.IsProbablePrime | packages/crypto/penumbra_crypto/vdf.py:129-160 | the loops decide exactly the specified strong-probable-prime predicate |
| MillerRabin.Decompose | packages/crypto/penumbra_crypto/vdf.py:141-146 | the halving loop splits off the exact power of two |
| MillerRabin.RootsOfOne | packages/crypto/penumbra_crypto/vdf.py:147-160 | modulo a prime only 1 and -1 square to one |
| MillerRabin.PrimesAccepted | packages/crypto/penumbra_crypto/vdf.py:129-160 | no prime is ever rejected, for any number of rounds |
| MillerRabin.RoundMeaning | packages/crypto/penumbra_crypto/vdf.py:149-159 | a round accepts an odd n exactly when a^(n-1) is 1 and no squaring on the way to n-1 goes from a value other than 1 or -1 to 1 |
| MillerRabin.AcceptedExactly | packages/crypto/penumbra_crypto/vdf.py:129-160 | above 37 a number is accepted exactly when no small prime divides it and it looks prime in that sense to each of the first `rounds` small primes |
| MillerRabin.CompositeRejected | packages/crypto/penumbra_crypto/vdf.py:129-160 | 1763 = 41 * 43 survives the trial division and is accepted only by a test without rounds |
| MillerRabin.ExactBelow1681 | packages/crypto/penumbra_crypto/vdf.py:129-160 | below 41 squared the test accepts exactly the primes |
| ChainMerkle.BuildRoot | packages/chain/penumbra_chain/merkle.py:69-83 | the loop computes the specified root, and fails exactly when a level exceeds one byte |
| ChainMerkle.BuildProof | packages/chain/penumbra_chain/merkle.py:86-108 | the loop collects the specified siblings and directions, and fails exactly on a bad index or a high tree |
| ChainMerkle.VerifyProof | packages/chain/penumbra_chain/merkle.py:111-122 | the loop recomputes the root level by level, and raises exactly on unequal lengths or a high proof |
| ChainMerkleTheorems.RootBinding | packages/chain/penumbra_chain/merkle.py:37-83 | equal roots come from equal leaf lists, lengths included, unless the hash collides or yields the reserved root |
| ChainMerkleTheorems.LevelBinding | packages/chain/penumbra_chain/merkle.py:69-83 | two levels of one height with one root are the same level |
| ChainMerkleTheorems.PaddingMismatch | packages/chain/penumbra_chain/merkle.py:28-83 | the padding sentinel stands for no node, so levels of different lengths pad differently |
| ChainMerkleTheorems.AppendChangesRoot | packages/chain/penumbra_chain/merkle.py:1-83 | appending any leaf, a copy of the last one included, changes the root |
| ChainMerkleTheorems.WithinOneByte | packages/chain/penumbra_chain/merkle.py:42-108 | roots and paths exist exactly while the number of levels fits in one byte |
| ChainMerkleTheorems.ProofComplete | packages/chain/penumbra_chain/merkle.py:86-122 | the proof built for any leaf has one sibling per level, spells its index, and verifies |
| ChainMerkleTheorems.WalkBinding | packages/chain/penumbra_chain/merkle.py:111-122 | a walk that reaches the root starts at a node of the level and follows its path |
| ChainMerkleTheorems.ProofSound | packages/chain/penumbra_chain/merkle.py:86-122 | an accepted proof whose leaf hash is that of a payload is the very proof built for the leaf its directions spell, that leaf is the payload, and its length is the depth |
| Consensus.TotalStake | packages/chain/penumbra_chain/consensus.py:175-177 | the loop sums the stakes whatever the order of the mapping |
| Consensus.Finalise | packages/chain/penumbra_chain/consensus.py:140-224 | the loop filters valid signatures, adds their stakes and reaches the specified outcome, by count or by stake, exceptions included |
| Consensus.ElectLeader | packages/chain/penumbra_chain/consensus.py:73-89 | the winner is the first validator whose random output is smallest; fails exactly on an empty or misaligned list |
| ConsensusTheorems.FinalityMeaning | packages/chain/penumbra_chain/consensus.py:173-224 | a bundle lists keys that each submitted a valid signature, distinct ones if the submitted are, and meets the threshold |
| ConsensusOutcomes.OutcomeExactly | packages/chain/penumbra_chain/consensus.py:140-223 | a count finalises, with the keys of all pairs that verify, refuses or raises exactly under the stated conditions |
| ConsensusOutcomes.ValidExactly | packages/chain/penumbra_chain/consensus.py:183-186 | every pair that verifies is kept as often as it was submitted, and no other |
| ConsensusOutcomes.ThresholdIsLeast | packages/chain/penumbra_chain/consensus.py:180 | the threshold is the least count that reaches the fraction of the total |
| ConsensusOutcomes.EvidenceExactly | packages/chain/penumbra_chain/slashing.py:57-82 | evidence convicts exactly when it names two different blocks at a height that fits, with a key and signatures of the right sizes that verify over both |
| ConsensusTheorems.AccountableSafety | packages/chain/penumbra_chain/consensus.py:173-199 | two blocks final at one height, no bundle counting a stake twice, share signers of at least 2*threshold - T stake, T/3 at two thirds, and submitted signatures convict each of them |
| ConsensusTheorems.AccountableSafetyByCount | packages/chain/penumbra_chain/consensus.py:201-224 | the same in counts, for bundles of distinct validators |
| ConsensusTheorems.SharedSignerConvicted | packages/chain/penumbra_chain/slashing.py:57-82 | valid signatures on two hashes at one height form evidence that verifies |
| ConsensusTheorems.HonestNeverConvicted | packages/chain/penumbra_chain/slashing.py:68-82 | no evidence convicts a validator that signs one block per height |
| ConsensusTheorems.PayloadBinds | packages/chain/penumbra_chain/consensus.py:125-132 | the signed bytes fix both height and block hash |
| ConsensusTheorems.WeightOfRepeats | packages/chain/penumbra_chain/consensus.py:180-184 | the weight reached is at least that of the signers, and equal exactly when no key of positive stake repeats |
| ConsensusTheorems.RepeatedPairFinalises | packages/chain/penumbra_chain/consensus.py:173-199 | one of three equal stakeholders finalises alone by submitting its pair twice |
| ChainBlock.HeaderBinds | packages/chain/penumbra_chain/block.py:85-93 | the header encoding determines every field of the sizes the chain uses |
| ChainBlock.LeavesBind | packages/chain/penumbra_chain/block.py:118-140 | two lists of leaves agree exactly when outcomes and recorded slashings agree |
| ChainBlock.BlockHashCommits | packages/chain/penumbra_chain/block.py:57-140 | block hashes agree exactly when headers, outcomes and slashings do, up to the evidence heights that the leaf encoding omits |
| ChainBlock.EvidenceHeightUnseen | packages/chain/penumbra_chain/block.py:57-140 | two blocks whose one slashing differs only in the height of its evidence have one hash |
| ChainNode.Mempool.Submit | packages/chain/penumbra_chain/mempool.py:22-27 | the outcome goes last, and the oldest goes when the queue is full |
| ChainNode.Mempool.Drain | packages/chain/penumbra_chain/mempool.py:29-34 | the loop removes and returns the first n outcomes, or all of them, or none |
| ChainNode.Node.constructor | packages/chain/penumbra_chain/node.py:67-82 | a fresh node has every validator active and nothing else |
| ChainNode.Node.BootFrom | packages/chain/penumbra_chain/node.py:67-82 | booting gives such a node over the generated keys, and fails exactly when one of them fails its own check |
| ChainNode.Node.Slash | packages/chain/penumbra_chain/node.py:104-154 | the whole new state and the outcome, each refusal included |
| ChainNode.Node.ProduceBlock | packages/chain/penumbra_chain/node.py:156-227 | the whole new state and the outcome, the drain before a failure included |
| ChainNodeTheorems.ProduceMeaning | packages/chain/penumbra_chain/node.py:156-227 | a round appends one block over the drained outcomes and all pending slashings, signed by two thirds of the active, or changes nothing but the queue |
| ChainNodeTheorems.ProposerElected | packages/chain/penumbra_chain/node.py:165-171 | the proposer is the active validator with the smallest random output, and that output verifies |
| ChainHistory.SeedBinds | packages/chain/penumbra_chain/node.py:167 | two nodes draw from one seed exactly when their chains are the same, block by block, in all that a block hash commits to |
| ChainHistory.HashBindsHistory | packages/chain/penumbra_chain/node.py:84-92 | two linked chains that agree on the hash of one block agree on all blocks up to it |
| ChainNodeTheorems.RunSound | packages/chain/penumbra_chain/node.py:84-227 | in every reachable state heights, hash links, Merkle roots and aggregate signatures are right, active and slashed partition the validators, the ledger has one verified slashing per slashed validator, slashings are recorded by the next block, and every block is signed by two thirds of the validators in standing and no other |
| ChainNodeTheorems.LedgerIsAccepted | packages/chain/penumbra_chain/node.py:104-227 | each accepted slashing is on the chain or pending exactly once, in order |
| ChainNodeTheorems.SlashedNeverReturns | packages/chain/penumbra_chain/node.py:104-227 | no block from the height of a slashing on is proposed or signed by its offender |
| ChainNodeTheorems.RoundDecided | packages/chain/penumbra_chain/node.py:156-227 | the guards decide a round: without work, validators, room or a verified leader nothing changes; after the drain a block follows exactly when the tree fits one byte of levels and two thirds sign validly, and otherwise the drained outcomes are gone |
| ChainNodeTheorems.OutcomesConserved | packages/chain/penumbra_chain/mempool.py:17-34 | outcomes reach the chain at most once in order of submission, and all are kept exactly when nothing overflowed and no round failed after draining some |
| ChainNodeTheorems.FailedRoundLoses | packages/chain/penumbra_chain/node.py:156-227 | with a scheme that verifies what matching keys sign, and one validator holding the wrong secret, a submitted outcome is drained by a round and then neither on the chain nor in the queue |
| ChainNodeTheorems.PlainVerifies | packages/chain/penumbra_chain/node.py:156-227 | that scheme verifies every signature of a matching secret, alone and in aggregates |
| ChainNodeTheorems.SlashedExactlyWhen | packages/chain/penumbra_chain/node.py:104-154 | on a sound state evidence is accepted exactly when it verifies and names a validator not slashed before |
| ChainNodeTheorems.ResubmissionRefused | packages/chain/penumbra_chain/node.py:104-154 | after evidence was accepted, any evidence that verifies against its offender is refused for the rest of the run and changes nothing |
| ChainNodeTheorems.HonestRoundProduces | packages/chain/penumbra_chain/node.py:156-227 | with matching keys a round with work to do produces a block signed by every active validator, exactly when the tree over its leaves fits |
| ChainNodeTheorems.ConvictedIsSlashed | packages/chain/penumbra_chain/node.py:104-154 | evidence from two conflicting finalisations is accepted against an active validator and removes exactly it |
| Aggregators.DistanceMatrix | packages/learning/penumbra_learning/federated.py:954-960 | the nested loops fill the matrix with all squared distances |
| Aggregators.Krum | packages/learning/penumbra_learning/federated.py:944-967 | the loops select the specified update, the mean below 2f+3 |
| AggregatorTheorems.KrumResilient | packages/learning/penumbra_learning/federated.py:944-967 | with 2f+3 or more updates of which n-f lie within squared distance D of each other, the selected one is within (n-f-2)*D of one of those |
| AggregatorSelection.KrumSelects | packages/learning/penumbra_learning/federated.py:944-967 | the winner has n-f-2 other updates whose total squared distance from it is least among all updates and all sets of n-f-2 others, and it is the first such winner |
| AggregatorTheorems.HonestScore | packages/learning/penumbra_learning/federated.py:961-964 | an update of the honest cluster scores at most (n-f-2)*D |
| AggregatorTheorems.HonestNearby | packages/learning/penumbra_learning/federated.py:961-967 | some honest update is within the score of any update |
| AggregatorTheorems.FallbackUnprotected | packages/learning/penumbra_learning/federated.py:951-953 | below 2f+3 updates one of them can put any coordinate anywhere |
| AggregatorTheorems.FedAvgBetween | packages/learning/penumbra_learning/federated.py:930-941 | each coordinate of the mean lies between two of the values |
| AggregatorTheorems.TrimmedMeanRobust | packages/learning/penumbra_learning/federated.py:970-982 | with at most k adversarial updates and a fraction below one half, every coordinate lies between two honest values |
| AggregatorSelection.TrimmedMeanExactly | packages/learning/penumbra_learning/federated.py:970-982 | each coordinate is the mean of what remains once the k lowest and k highest values are set aside, and not a number when nothing remains |
| AggregatorSelection.MeanIsLeast | packages/learning/penumbra_learning/federated.py:930-941 | the mean is the one point of least total squared distance: any other is further by its squared distance from the mean, once for each update |
| Routing.MeasureRoute | packages/core/penumbra_core/logistics_or.py:110-120 | the loop computes the length of the route from its start |
| RoutingGreedy.LengthIsLegs | packages/core/penumbra_core/logistics_or.py:110-120 | the length of a route is the sum of its legs, the one from the start included |
| RoutingGreedy.LengthSplits | packages/core/penumbra_core/logistics_or.py:110-120 | a route travelled in two parts: the second starts where the first ends |
| RoutingGreedy.GreedyCosts | packages/core/penumbra_core/logistics_or.py:123-134 | a greedy solution charges each agent the legs of its route, and in total the sum of the charges |
| Routing.ImproveRoute | packages/core/penumbra_core/logistics_or.py:256-287 | the improvement loop stops, keeps every node and id pair, never lengthens the route, and leaves no reversal that gains more than the tolerance |
| Routing.FirstGain | packages/core/penumbra_core/logistics_or.py:266-286 | the double loop finds the first reversal that gains more than the tolerance, or there is none |
| Routing.GainTakesStep | packages/core/penumbra_core/logistics_or.py:202-221 | each accepted reversal lowers the number of tolerances in the length, which is never negative |
| Routing.BestMeaning | packages/core/penumbra_core/logistics_or.py:166-174 | the order chosen fits, none that fits is nearer, and none before it is as near |
| Routing.RewardIgnored | packages/core/penumbra_core/logistics_or.py:135-174 | the choice is a cheapest order by the documented cost, over every table of distances, exactly when no order that fits has a greater reward, counted for at least one, than an order that stands first at its node |
| Routing.RewardIgnoredApart | packages/core/penumbra_core/logistics_or.py:135-174 | for orders at different nodes: exactly when all rewards of those that fit are equal, counted for at least one |
| Routing.NearMisses | packages/core/penumbra_core/logistics_or.py:135-174 | otherwise a table with one near node makes the choice dearer than another order |
| Routing.RewardMissed | packages/core/penumbra_core/logistics_or.py:135-174 | an order at distance one and reward one is taken before one at distance two and reward ten, five times cheaper by the documented cost |
| Routing.PickBest | packages/core/penumbra_core/logistics_or.py:164-174 | the scan makes that choice |
| Routing.GreedyPlan | packages/core/penumbra_core/logistics_or.py:140-184 | the rounds reach the specified plan |
| Routing.SolveGreedy | packages/core/penumbra_core/logistics_or.py:140-196 | the solution lists the plan's routes, served and unserved ids and costs |
| Routing.SolveTwoOpt | packages/core/penumbra_core/logistics_or.py:224-304 | every route of any initial solution is improved with its own ids, and it raises exactly when ids and nodes do not pair |
| RoutingTheorems.GreedyMeaning | packages/core/penumbra_core/logistics_or.py:140-196 | each order is served at most once and within capacity, none is lost, and nothing is left that an agent could still carry |
| RoutingGreedy.GreedyNearestAndFair | packages/core/penumbra_core/logistics_or.py:140-196 | every step of a greedy route goes to an order no farther than any that the agent took later or that nobody took and that fitted then; whatever an agent takes two or more places beyond the end of another's route, the other has no room for |
| RoutingTheorems.KeyedMeaning | packages/core/penumbra_core/logistics_or.py:147 | the dictionary of orders holds each id once, with its last order |
| RoutingTheorems.UnservedMeaning | packages/core/penumbra_core/logistics_or.py:186-189 | the unserved ids are exactly the ids of the list that no route serves |
| RoutingTheorems.TotalNeverWorse | packages/core/penumbra_core/logistics_or.py:289-304 | the total after 2-opt is no more than before |
| RoutingTheorems.GreedyIsPairable | packages/core/penumbra_core/logistics_or.py:224-262 | 2-opt accepts every greedy solution and gives each route its own ids |
| MixNet.DeriveKeystream | packages/crypto/penumbra_crypto/mix_net.py:81-89 | the loop extends the keystream block by block and cuts it to length |
| MixNet.OpenIffSealed | packages/crypto/penumbra_crypto/mix_net.py:96-113 | opening accepts exactly the sealed blobs and returns what was sealed |
| MixNetTampering.BlocksDiffer | packages/crypto/penumbra_crypto/mix_net.py:81-89 | a block of the keystream belongs to one key and one counter |
| MixNetTampering.StreamBlocks | packages/crypto/penumbra_crypto/mix_net.py:81-89 | the whole blocks of a keystream, one after the other, are the digests of its key and counters |
| Bytes.XorIsBitwise | packages/crypto/penumbra_crypto/mix_net.py:92-93 | the exclusive or is one bit by bit |
| MixNetTampering.StreamsShow | packages/crypto/penumbra_crypto/mix_net.py:92-101 | one plaintext under two keystreams gives two ciphertexts |
| MixNetTampering.TamperedRejected | packages/crypto/penumbra_crypto/mix_net.py:104-113 | a sealed blob altered in its ciphertext or in its tag is not opened |
| MixNetTampering.ImpostorRejected | packages/crypto/penumbra_crypto/mix_net.py:104-113 | a blob sealed under one key is opened under no other |
| MixNetTampering.OnlyTheRelayPeels | packages/crypto/penumbra_crypto/mix_net.py:134-170 | what relay i receives is sealed under its key, and a relay with another key peels nothing off it |
| MixNet.HeaderRoundTrip | packages/crypto/penumbra_crypto/mix_net.py:116-131 | a header decodes to its id without trailing zeros, its delay and the rest |
| MixNet.Wrap | packages/crypto/penumbra_crypto/mix_net.py:134-162 | the reverse loop builds the specified onion, and fails exactly on a bad route, delays or id |
| MixNet.RouteMessage | packages/crypto/penumbra_crypto/mix_net.py:173-191 | the driver's loop delivers as specified |
| MixNet.OnionPeels | packages/crypto/penumbra_crypto/mix_net.py:134-170 | the onion from each relay on costs 52 bytes a relay and peels to the next id, its delay and the next onion, or at the last relay to the payload |
| MixNet.MessageDelivered | packages/crypto/penumbra_crypto/mix_net.py:134-191 | the payload arrives with the later delays followed by zero, exactly when the route fits its delays, its later ids and delays can be encoded, and none of those ids reads as the receiver |
| CarrierCredit.LogisticsMempool.Place | packages/core/penumbra_core/logistics.py:163-185 | the whole new book: a new id, last in the queue |
| CarrierCredit.LogisticsMempool.Fulfil | packages/core/penumbra_core/logistics.py:187-207 | the whole new book: the first order of the id moves over, and a real carrier enters the window |
| CarrierCredit.LogisticsRewardShaper.Step | packages/learning/penumbra_learning/logistics_shaper.py:111-145 | the whole new state and the returned rewards: bonus, penalty and fill-rate share as specified |
| CarrierCredit.LogisticsRewardShaper.ApplyDispatchBonus | packages/learning/penumbra_learning/logistics_shaper.py:157-188 | the bonus goes to the agents taking part among the unseen tail of the window |
| CarrierCredit.LogisticsRewardShaper.ApplyDispatchPenalty | packages/learning/penumbra_learning/logistics_shaper.py:207-234 | the scan charges assignments seen before, notes the new ones and forgets those gone |
| CarrierCredit.LogisticsRewardShaper.ApplyFillRateBonus | packages/learning/penumbra_learning/logistics_shaper.py:236-253 | every agent gets the bonus times the fill rate, once for each time it is listed |
| CarrierCredit.LogisticsRewardShaper.Reset | packages/learning/penumbra_learning/logistics_shaper.py:86-97 | everything is cleared but the position on the live counter |
| CarrierCreditTheorems.RunSound | packages/core/penumbra_core/logistics.py:163-207 | over every run the window is the last 200 fulfilments, ids are fulfilled once, and bonuses go to the agents that fulfilled, in order |
| CarrierCreditBook.BookOfRun | packages/core/penumbra_core/logistics.py:138-207 | over every run each order placed is pending or fulfilled, once, on the terms it was placed on, pending ones in the order they were placed; the book keeps the last 4096 fulfilled, and exactly the fulfilments by real carriers are credited |
| CarrierCreditTheorems.EarnedIsPosted | packages/learning/penumbra_learning/logistics_shaper.py:111-253 | the rewards that the steps of a run return to an agent add up to its bonuses less its penalties plus its shares in the ledger |
| CarrierCreditTheorems.StepReturned | packages/learning/penumbra_learning/logistics_shaper.py:111-253 | one step returns to each agent taking part what the step posts for it |
| CarrierCreditTheorems.PaidWhenUnseen | packages/learning/penumbra_learning/logistics_shaper.py:170-188 | a step with a bonus pays for exactly the fulfilments since the last step that the window still holds and whose agent takes part |
| CarrierCreditTheorems.ChargedWhenStale | packages/learning/penumbra_learning/logistics_shaper.py:207-234 | a step charges exactly the pending orders assigned to an agent taking part that were assigned at the step before |
| CarrierCreditTheorems.SharedOnce | packages/learning/penumbra_learning/logistics_shaper.py:141-145 | the fill-rate bonus is shared at most once between two resets |
| CarrierCreditTheorems.NeverPaidTwice | packages/learning/penumbra_learning/logistics_shaper.py:157-188 | no order earns two bonuses, whatever the interleaving of fulfilments, steps and resets |
| CarrierCreditTheorems.PaidExactlyOnce | packages/learning/penumbra_learning/logistics_shaper.py:157-188 | every fulfilment passed is paid once or counted as missed, and all are paid exactly when at each step nothing was new, or there was a bonus, at most 200 were new and the agent of each took part |
| CarrierCreditTheorems.OutsiderUnpaid | packages/learning/penumbra_learning/logistics_shaper.py:170-188 | one fulfilment, passed by a step in which its agent takes no part, is paid to nobody |
| Echelon.EchelonNetwork.Step | packages/core/penumbra_core/logistics_echelon.py:198-301 | the whole new state, histories and summary of a tick: production, arrivals, demand, orders |
| Echelon.EchelonNetwork.PlaceOrders | packages/core/penumbra_core/logistics_echelon.py:255-293 | the nested loops place the specified orders against the outstanding quantities counted beforehand |
| Echelon.EchelonNetwork.ReceiveArrivals | packages/core/penumbra_core/logistics_echelon.py:224-236 | due shipments are delivered and the others kept in order |
| Echelon.EchelonNetwork.ServeDemand | packages/core/penumbra_core/logistics_echelon.py:237-254 | each city serves what it can of each request |
| EchelonTheorems.StepConserves | packages/core/penumbra_core/logistics_echelon.py:198-301 | a tick changes stock plus shipments of a product by exactly production minus service |
| EchelonAccounts.ShelfAccounts | packages/core/penumbra_core/logistics_echelon.py:198-301 | every shelf is accounted for: a tick adds what the node makes and what is delivered to it, takes what is asked as far as it is there, and takes what is newly sent from it; each order placed is one shipment |
| EchelonAccounts.TotalsAreByProduct | packages/core/penumbra_core/logistics_echelon.py:237-254 | the totals of the summary are those of the products: what the histories record as asked for and what conservation counts as served |
| EchelonTheorems.StepWithin | packages/core/penumbra_core/logistics_echelon.py:198-301 | a tick leaves no stock negative and no ordering node above its target unless it started there |
| EchelonTheorems.OrderFillsOrEmpties | packages/core/penumbra_core/logistics_echelon.py:269-291 | a node at its reorder point orders nothing, and one below it is filled to its target or empties its supplier |
| EchelonTheorems.ServedOrEmpty | packages/core/penumbra_core/logistics_echelon.py:237-251 | a request is met in full or leaves the shelf of its city empty |
| EchelonTheorems.ArrivalsOnTime | packages/core/penumbra_core/logistics_echelon.py:224-293 | with lead times of at least one, a tick takes in exactly what is due in it and leaves nothing overdue |
| EchelonTheorems.RunSound | packages/core/penumbra_core/logistics_echelon.py:198-301 | over every run, whatever the lead times, holdings change by production minus service, no stock is negative, and no ordering node exceeds its target or its start |
| EchelonTheorems.RunOnTime | packages/core/penumbra_core/logistics_echelon.py:224-293 | with lead times of at least one nothing is overdue in any run |
| EchelonTheorems.ArrivesAfterLeadTime | packages/core/penumbra_core/logistics_echelon.py:224-293 | whatever is sent in a tick of a run is due in exactly one tick, its lead time later or one tick later if that is less than one |
| EchelonTheorems.RunServes | packages/core/penumbra_core/logistics_echelon.py:237-251 | in every tick of a run each request is met in full or leaves the shelf of its city empty |
| EchelonTheorems.HistoriesAccount | packages/core/penumbra_core/logistics_echelon.py:240-293 | a tick extends the history of each ordering node and product by exactly what it newly sends there, that of each product by what was asked for, and no other |
| EchelonTheorems.NoEdgeAbove | packages/core/penumbra_core/logistics_echelon.py:102-108 | a node has an upstream neighbour exactly when some edge is above it |
| EchelonTheorems.UpstreamOf | packages/core/penumbra_core/logistics_echelon.py:102-108 | it is the neighbour and lead time of the last edge above the node, and those of the first exactly when these two edges are alike |
| EchelonTheorems.SecondEdgeWins | packages/core/penumbra_core/logistics_echelon.py:102-108 | two suppliers above one node: the second is returned |
| EchelonTheorems.BuiltNetwork | packages/core/penumbra_core/logistics_echelon.py:120-195 | a network built over distinct ids with any lead time and a non-negative initial stock meets every assumption of the run theorem, its cities supplied by distributors and those by suppliers |
| EchelonAccounts.BuiltExactly | packages/core/penumbra_core/logistics_echelon.py:121-195 | a network is built exactly from proper fractions that leave room for a city: ids in ascending order, suppliers first, then distributors, then cities, each supplied in turn from the tier above, and all stocked alike |
| EchelonAccounts.RoundNearest | packages/core/penumbra_core/logistics_echelon.py:147-148 | round() gives a nearest integer, and of two the even one |
| Market.MarketBook.Build | packages/core/penumbra_core/economy.py:222-250 | the loops build one city for each node, with its drawn products, and a wallet for each agent |
| Market.DrawAssortment | packages/core/penumbra_core/economy.py:103-120 | the loop of the generator and the swaps draws the specified products |
| Market.MarketBook.Refresh | packages/core/penumbra_core/economy.py:254-297 | every city produces and is repriced as specified |
| Market.MarketBook.SettleArrival | packages/core/penumbra_core/economy.py:340-446 | one arriving agent sells and then buys as specified, or is turned away, and its trades are recorded |
| Market.MarketBook.Tick | packages/core/penumbra_core/economy.py:448-457 | a tick refreshes the cities, settles the arrivals in order and returns their trades |
| Market.MarketBook.CreditBlockWinners | packages/core/penumbra_core/economy.py:326-338 | each listed winner with a wallet is credited |
| Market.DemandModel.Step | packages/core/penumbra_core/logistics.py:65-100 | each request is served from the shelf, paid into the treasury and counted, unmet units into the backlog |
| MarketTheorems.ProductionNeedsWholeUnits | packages/core/penumbra_core/economy.py:254-266 | production raises a stock exactly when the product is stocked, the rate is at least one and there is room |
| MarketTheorems.BuiltMakesNothing | packages/core/penumbra_core/economy.py:254-266 | a city as built makes nothing, with room on every shelf |
| MarketTheorems.RepriceOk | packages/core/penumbra_core/economy.py:268-297 | repricing a product puts its price into the band of the regime and changes nothing else |
| MarketTheorems.TickBanded | packages/core/penumbra_core/economy.py:268-457 | after a tick every price of a stocked product is within the band of the regime, trades included |
| MarketTheorems.PriceFollowsStock | packages/core/penumbra_core/economy.py:285-297 | a low shelf raises a price by a quarter of a hundredth of it and a full one lowers it by fifteen ten-thousandths, as far as its band reaches, and in between it stays |
| MarketTheorems.RegimesNest | packages/core/penumbra_core/economy.py:276-284 | a stricter regime has the narrower band, and the base price is within all of them |
| MarketTheorems.SellConserves | packages/core/penumbra_core/economy.py:369-405 | a sale moves coins from the treasury to the wallet and overdraws neither |
| MarketTheorems.BuyConserves | packages/core/penumbra_core/economy.py:407-446 | a purchase moves coins the other way, overdraws neither, and respects the cargo limit |
| MarketTheorems.TickSound | packages/core/penumbra_core/economy.py:448-457 | a tick neither makes nor loses money and keeps every bound |
| MarketTrades.VisitReconciles | packages/core/penumbra_core/economy.py:340-446 | the records of one visit account exactly for the change of its wallet, goods and treasury, and in their order determine every shelf: a sale fills it up to its capacity, a purchase takes its units off |
| MarketTrades.TickReconciles | packages/core/penumbra_core/economy.py:340-457 | the trades a tick returns account for every change to the coins and goods of any agent and to the treasury of any city, and with what the city makes they determine each of its shelves |
| MarketTrades.PurchaseExactly | packages/core/penumbra_core/economy.py:407-446 | a purchase is recorded exactly when the roll is below a tenth, the shelf is not empty, the purse covers a unit and there is room; its quantity is the greatest that the draw, the shelf, the purse and the room allow |
| MarketTrades.SaleExactly | packages/core/penumbra_core/economy.py:369-405 | a sale is recorded exactly when the agent owns and the city stocks the product, the roll is below 0.18 and the treasury covers a unit; its quantity is the greatest that the draw, the goods and the treasury allow |
| MarketTrades.PurchaseTakesOff | packages/core/penumbra_core/economy.py:426-432 | a purchase lowers the shelf of its product by the recorded quantity and leaves every other |
| MarketTrades.SalePutsOn | packages/core/penumbra_core/economy.py:385-393 | a sale raises the shelf of its product to the smaller of the maximum and the sum, and leaves every other |
| MarketFlows.EveryGoodOffered | packages/core/penumbra_core/economy.py:369-405 | each good of an arriving agent is offered once, in order, in the state the trades before it left |
| MarketFlows.EveryProductTried | packages/core/penumbra_core/economy.py:407-446 | each stocked product is tried once, in order, after all sales |
| MarketFlows.ArrivalOutcome | packages/core/penumbra_core/economy.py:340-368 | an arrival trades exactly when it came from elsewhere, is not blocked and is known; a blocked one that came is counted |
| MarketFlows.TickTraders | packages/core/penumbra_core/economy.py:340-457 | every trade of a tick is by an agent that came to the node and is not blocked; blocked agents keep all they have, and each that came is counted |
| MarketFlows.RewardsExactly | packages/core/penumbra_core/economy.py:326-338 | a known winner gets one reward for each time it is listed, and nobody else gets anything |
| MarketFlows.RequestExactly | packages/core/penumbra_core/logistics.py:65-100 | a request takes what it asks for as far as it is on the shelf, pays the asking price for that into the treasury, and touches nothing else |
| MarketFlows.CustomersExactly | packages/core/penumbra_core/logistics.py:65-100 | the customers of a tick leave of each shelf exactly what they did not ask for, and what they asked for beyond it goes to the backlog |
| MarketFlows.EachDraw | packages/core/penumbra_core/economy.py:103-120 | the i-th product of a city is the one that stands where the generator points, among those not drawn before |
| MarketFlows.GeneratorInjective | packages/core/penumbra_core/economy.py:103-120 | no two states of the generator have the same successor |
| MarketFlows.MixExactly | packages/core/penumbra_core/economy.py:103-120 | a node starts from the exclusive or of the seed and a multiple of its id: mixed in twice it gives the seed back, and different nodes start differently |
| MarketTheorems.CreditSound | packages/core/penumbra_core/economy.py:326-338 | rewards add exactly one reward per known winner listed |
| MarketTheorems.MeasureMoneySupply | packages/core/penumbra_core/economy.py:461-466 | the loops sum all coins and treasuries |
| MarketTheorems.RunAccounts | packages/core/penumbra_core/economy.py:326-466 | over every run the money supply is what it was plus rewards plus what end customers paid, with every bound kept |
| MarketTheorems.RewardAddsMoney | packages/core/penumbra_core/economy.py:326-338 | one block won by the one agent of a built market adds ten coins to the money supply |
| MarketTheorems.CountersAccount | packages/core/penumbra_core/logistics.py:65-100 | the counters grow by what was asked and served, in all and by product, and the backlog of a city and product by what was asked there and not served |
| MarketTheorems.BuiltOk | packages/core/penumbra_core/economy.py:103-250 | a built market meets the assumptions of the run theorem: each city has ten different products, thirty of each at the base price, and the money supply is 100 an agent and 500 a city |

## Left out

- The internals of BLS, the verifiable random function, SHA-256 and the JSON encodings: parameters of the model.
- Vdf.Verify: the map to primes is a parameter, the same for prover and verifier; it takes no part in whether the search of `VdfHash` ends in an exception.
- Probabilistic security: FRI soundness error, unforgeability, hardness of the delay, privacy noise.
- Demos, serialisation, persistence, event hooks, logging, reports and charts.
- Byte strings longer than their length prefixes allow: the STARK hash frames parts with four-byte lengths and the mix-net counts blocks in four bytes; the model encodes the low bytes where the source would raise.
- StarkMerkleTheorems.OpeningBinding: assumes, as the other binding results of this tree do, byte strings short enough for the length prefixes of the hash framing.
- MillerRabin.ExactBelow1681: above 41 squared composites may pass; what an accepted number satisfies there is MillerRabin.AcceptedExactly.
- Group elements and scalars wider than their fixed encodings in FROST: the source would raise, the model encodes the low bytes.
- The bit test for powers of two in the STARK verifier is modelled by repeated halving.
- The count of signatures in `Node.produce_block` is the only finality rule a node uses; the stake rule of `finalise` is modelled and proved beside it.
- Aggregators.Krum: parameters are flattened into one list of coordinates, and updates of unequal shape, on which the source raises, are excluded.
- Quantisation, CKKS chunking, differential privacy and training in the federated trainer.
- Routing.SolveTwoOpt: solutions with more routes than the instance has agents, on which the source raises, are excluded; timings are left out, and so are the OR-Tools solver and the construction of distance matrices.
- CarrierCredit.LogisticsRewardShaper.Step: names agents by number, and leaves out the slower scan used for books without a counter and the discovery of the book on the simulation.
- Reorder policies, how carriers are chosen for orders (an assignment is an event of a run, whatever the choice) and the reports of the logistics layer.
- Echelon.EchelonNetwork.Step: keeps the nodes' stocks and order histories in one map each.
- Market.MarketBook.SettleArrival: dictionaries are kept in insertion order so that the order of sales is the source's.
- Market.DemandModel.Step: takes the rounded rates as the quantities of its requests.
- The pricing regime's expiry tick, and the market's price index and other aggregates.
