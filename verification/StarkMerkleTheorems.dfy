/** What a STARK Merkle root binds, relative to a hash that does not collide on the inputs hashed: each
    position to one opening, whatever the length of the proof, and the leaf list up to its completion. */
module StarkMerkleTheorems {
  import opened Collections
  import opened ModArith
  import opened Bytes
  import opened StarkMerkle

  // ---------- the levels of a tree and the inputs hashed for them ----------

  /** The level t steps above the given one. */
  function LevelAt(h: Hash, level: seq<bytes>, t: nat): (r: seq<bytes>)
    requires |level| >= 1
    ensures |r| >= 1
  {
    if t == 0 then level else Parents(h, LevelAt(h, level, t - 1))
  }

  function NodeInput(left: bytes, right: bytes): bytes {
    Frame([Ascii("node"), left, right])
  }

  function LeafInput(leaf: bytes): bytes {
    Frame([Ascii("leaf"), leaf])
  }

  function ParentInput(level: seq<bytes>, i: nat): bytes
    requires |level| >= 1 && 2 * i + 1 < |Padded(level)|
  {
    NodeInput(Padded(level)[2 * i], Padded(level)[2 * i + 1])
  }

  function ParentInputs(level: seq<bytes>): set<bytes>
    requires |level| >= 1
  {
    set i | 0 <= i < |Padded(level)| / 2 :: ParentInput(level, i)
  }

  /** The node inputs hashed for the t levels above the given one. */
  function InputsUpTo(h: Hash, level: seq<bytes>, t: nat): set<bytes>
    requires |level| >= 1
  {
    if t == 0 then {} else InputsUpTo(h, level, t - 1) + ParentInputs(LevelAt(h, level, t - 1))
  }

  function LeafInputs(leaves: seq<bytes>): set<bytes> {
    set i | 0 <= i < |leaves| :: LeafInput(leaves[i])
  }

  /** Every input hashed to compute the root of a list. */
  function HashedInputs(h: Hash, leaves: seq<bytes>): set<bytes>
    requires leaves != []
  {
    LeafInputs(leaves) + InputsUpTo(h, LeafLevel(h, leaves), Depth(|leaves|))
  }

  lemma {:induction false} LevelShift(h: Hash, level: seq<bytes>, t: nat)
    requires |level| >= 1
    ensures LevelAt(h, Parents(h, level), t) == LevelAt(h, level, t + 1)
    ensures InputsUpTo(h, level, t + 1) == ParentInputs(level) + InputsUpTo(h, Parents(h, level), t)
  {
    hide Parents, ParentInputs;
    if t > 0 {
      LevelShift(h, level, t - 1);
    }
  }

  /** The root is the one node of the level at the depth of the tree. */
  lemma {:induction false} RootIsTop(h: Hash, level: seq<bytes>)
    requires |level| >= 1
    ensures |LevelAt(h, level, Depth(|level|))| == 1 && LevelAt(h, level, Depth(|level|))[0] == Root(h, level)
    decreases |level|
  {
    hide Parents, Padded, NodeHash, InputsUpTo, ParentInputs;
    if |level| > 1 {
      ParentCount(h, level);
      RootIsTop(h, Parents(h, level));
      LevelShift(h, level, Depth(|level|) - 1);
    }
  }

  lemma ParentCount(h: Hash, level: seq<bytes>)
    requires |level| >= 1
    ensures |Parents(h, level)| == (|level| + 1) / 2
  {}

  lemma {:induction false} LevelIsDigests(h: Hash, level: seq<bytes>, t: nat)
    requires |level| >= 1 && Digests(h) && forall b :: b in level ==> |b| == 32
    ensures forall b :: b in LevelAt(h, level, t) ==> |b| == 32
  {
    if t > 0 {
      LevelIsDigests(h, level, t - 1);
    }
  }

  /** A node above the leaves is the hash of its children's frame, which is among the inputs. */
  lemma NodeAbove(h: Hash, level: seq<bytes>, t: nat, i: nat)
    requires |level| >= 1 && t > 0 && i < |LevelAt(h, level, t)|
    ensures 2 * i + 1 < |Padded(LevelAt(h, level, t - 1))|
    ensures LevelAt(h, level, t)[i] == h(ParentInput(LevelAt(h, level, t - 1), i))
    ensures ParentInput(LevelAt(h, level, t - 1), i) in InputsUpTo(h, level, t)
  {
    var below := LevelAt(h, level, t - 1);
    assert ParentInput(below, i) in ParentInputs(below);
  }

  // ---------- acceptance forces the depth ----------

  /** The last step of a walk. */
  lemma {:induction false} WalkLast(h: Hash, node: bytes, idx: int, path: seq<bytes>) returns (j: int)
    requires path != []
    ensures var front, last := path[..|path| - 1], path[|path| - 1];
      var input := StepInput(Walk(h, node, idx, front), j, last);
      && Walk(h, node, idx, path) == h(input) && input in WalkInputs(h, node, idx, path)
      && WalkInputs(h, node, idx, front) <= WalkInputs(h, node, idx, path)
    decreases |path|
  {
    var front, last := path[..|path| - 1], path[|path| - 1];
    if |path| == 1 {
      j := idx;
    } else {
      var input := StepInput(node, idx, path[0]);
      j := WalkLast(h, h(input), idx / 2, path[1..]);
      assert path[1..][..|path| - 2] == front[1..] && path[1..][|path| - 2] == last;
    }
  }

  lemma TagsDiffer(leaf: bytes, left: bytes, right: bytes)
    requires Framable(leaf) && Framable(left) && Framable(right)
    ensures LeafInput(leaf) != NodeInput(left, right)
  {
    TagsFramable();
    var l, n := [Ascii("leaf"), leaf], [Ascii("node"), left, right];
    if Frame(l) == Frame(n) {
      FrameInjective(l, n);
    }
  }

  lemma NodeInputInjective(a: bytes, b: bytes, c: bytes, d: bytes)
    requires Framable(a) && Framable(b) && Framable(c) && Framable(d) && NodeInput(a, b) == NodeInput(c, d)
    ensures a == c && b == d
  {
    TagsFramable();
    var l, r := [Ascii("node"), a, b], [Ascii("node"), c, d];
    FrameInjective(l, r);
    assert l[1] == r[1] && l[2] == r[2];
  }

  lemma {:induction false} WalkIsDigest(h: Hash, node: bytes, idx: int, path: seq<bytes>)
    requires Digests(h) && |node| == 32
    ensures |Walk(h, node, idx, path)| == 32
    decreases |path|
  {
    if path != [] {
      WalkIsDigest(h, h(StepInput(node, idx, path[0])), idx / 2, path[1..]);
    }
  }

  /** The inputs of a tree up to height t and of a walk, all told apart by the hash. */
  ghost predicate Collected(
      h: Hash, leaves: seq<bytes>, t: nat, leaf: bytes, idx: int, path: seq<bytes>, hashed: set<bytes>)
  {
    && leaves != [] && LeafInputs(leaves) <= hashed && InputsUpTo(h, LeafLevel(h, leaves), t) <= hashed
    && LeafInput(leaf) in hashed && WalkInputs(h, LeafHash(h, leaf), idx, path) <= hashed
    && InjectiveOn(h, hashed) && Digests(h)
    && Framable(leaf) && (forall b :: b in leaves ==> Framable(b)) && forall s :: s in path ==> Framable(s)
  }

  /** A walk from a leaf that ends at a node of height t takes exactly t steps: leaf and node inputs
      carry different tags, so the walk can neither stop above a leaf nor go on below one. */
  lemma {:induction false} DepthForced(
      h: Hash, leaves: seq<bytes>, t: nat, i: nat, leaf: bytes, idx: int, path: seq<bytes>, hashed: set<bytes>)
    requires Collected(h, leaves, t, leaf, idx, path, hashed)
    requires i < |LevelAt(h, LeafLevel(h, leaves), t)|
    requires Walk(h, LeafHash(h, leaf), idx, path) == LevelAt(h, LeafLevel(h, leaves), t)[i]
    ensures |path| == t
    decreases t
  {
    hide *;
    if t == 0 {
      if path != [] {
        StepIsNoLeaf(h, leaves, i, leaf, idx, path, hashed);
      }
    } else if path == [] {
      LeafIsNoNode(h, leaves, t, i, leaf, idx, hashed);
    } else {
      var child := StepDescends(h, leaves, t, i, leaf, idx, path, hashed);
      DepthForced(h, leaves, t - 1, child, leaf, idx, path[..|path| - 1], hashed);
    }
  }

  lemma StepIsNoLeaf(h: Hash, leaves: seq<bytes>, i: nat, leaf: bytes, idx: int, path: seq<bytes>, hashed: set<bytes>)
    requires Collected(h, leaves, 0, leaf, idx, path, hashed) && path != []
    requires i < |LevelAt(h, LeafLevel(h, leaves), 0)|
    ensures Walk(h, LeafHash(h, leaf), idx, path) != LevelAt(h, LeafLevel(h, leaves), 0)[i]
  {
    var j := WalkLast(h, LeafHash(h, leaf), idx, path);
    var node, last := Walk(h, LeafHash(h, leaf), idx, path[..|path| - 1]), path[|path| - 1];
    WalkIsDigest(h, LeafHash(h, leaf), idx, path[..|path| - 1]);
    DigestFramable(node);
    assert last in path && LeafInput(leaves[i]) in hashed;
    TagsDiffer(leaves[i], node, last);
    TagsDiffer(leaves[i], last, node);
  }

  lemma LeafIsNoNode(h: Hash, leaves: seq<bytes>, t: nat, i: nat, leaf: bytes, idx: int, hashed: set<bytes>)
    requires t > 0 && Collected(h, leaves, t, leaf, idx, [], hashed) && i < |LevelAt(h, LeafLevel(h, leaves), t)|
    ensures Walk(h, LeafHash(h, leaf), idx, []) != LevelAt(h, LeafLevel(h, leaves), t)[i]
  {
    var below := LevelAt(h, LeafLevel(h, leaves), t - 1);
    NodeAbove(h, LeafLevel(h, leaves), t, i);
    PaddedFramable(h, leaves, t - 1);
    TagsDiffer(leaf, Padded(below)[2 * i], Padded(below)[2 * i + 1]);
  }

  lemma PaddedFramable(h: Hash, leaves: seq<bytes>, t: nat)
    requires leaves != [] && Digests(h)
    ensures var p := Padded(LevelAt(h, LeafLevel(h, leaves), t));
      forall k :: 0 <= k < |p| ==> |p[k]| == 32 && Framable(p[k])
  {
    var level := LevelAt(h, LeafLevel(h, leaves), t);
    LeavesAreDigests(h, leaves);
    LevelIsDigests(h, LeafLevel(h, leaves), t);
    forall k | 0 <= k < |Padded(level)| ensures |Padded(level)[k]| == 32 && Framable(Padded(level)[k]) {
      assert Padded(level)[k] in level;
      DigestFramable(Padded(level)[k]);
    }
  }

  lemma CollectedBelow(
      h: Hash, leaves: seq<bytes>, t: nat, leaf: bytes, idx: int, path: seq<bytes>, hashed: set<bytes>,
      front: seq<bytes>)
    requires t > 0 && path != [] && Collected(h, leaves, t, leaf, idx, path, hashed) && front == path[..|path| - 1]
    requires WalkInputs(h, LeafHash(h, leaf), idx, front) <= WalkInputs(h, LeafHash(h, leaf), idx, path)
    ensures Collected(h, leaves, t - 1, leaf, idx, front, hashed)
  {
    hide Frame, WalkInputs, ParentInputs, LeafInputs, LevelAt, Framable;
    forall s | s in front ensures Framable(s) {
      assert s in path;
    }
  }

  /** The child of node i that hashes, with a sibling, to the same parent. */
  lemma ChildOf(h: Hash, below: seq<bytes>, i: nat, node: bytes, last: bytes, j: int) returns (child: nat)
    requires |below| >= 1 && 2 * i + 1 < |Padded(below)|
    requires StepInput(node, j, last) == ParentInput(below, i)
    requires Framable(node) && Framable(last) && forall k :: 0 <= k < |Padded(below)| ==> Framable(Padded(below)[k])
    ensures child < |below| && below[child] == node
  {
    hide Frame, Framable;
    if j % 2 == 0 {
      NodeInputInjective(node, last, Padded(below)[2 * i], Padded(below)[2 * i + 1]);
      child := 2 * i;
    } else {
      NodeInputInjective(last, node, Padded(below)[2 * i], Padded(below)[2 * i + 1]);
      child := if 2 * i + 1 < |below| then 2 * i + 1 else |below| - 1;
    }
  }

  lemma SameInput(h: Hash, hashed: set<bytes>, a: bytes, b: bytes, few: set<bytes>, more: set<bytes>)
    requires InjectiveOn(h, hashed) && few <= hashed && more <= hashed && a in few && b in more && h(a) == h(b)
    ensures a == b
  {}

  lemma CollectedSides(h: Hash, leaves: seq<bytes>, t: nat, leaf: bytes, idx: int, path: seq<bytes>, hashed: set<bytes>)
    requires Collected(h, leaves, t, leaf, idx, path, hashed)
    ensures leaves != [] && Digests(h) && InjectiveOn(h, hashed) && (path != [] ==> Framable(path[|path| - 1]))
    ensures InputsUpTo(h, LeafLevel(h, leaves), t) <= hashed && WalkInputs(h, LeafHash(h, leaf), idx, path) <= hashed
    ensures |LeafHash(h, leaf)| == 32
  {
    hide Frame, WalkInputs, InputsUpTo, LeafLevel, Framable, InjectiveOn;
  }

  /** The last step of a walk to a node comes from a child of that node. */
  lemma StepDescends(
      h: Hash, leaves: seq<bytes>, t: nat, i: nat, leaf: bytes, idx: int, path: seq<bytes>, hashed: set<bytes>)
    returns (child: nat)
    requires t > 0 && path != [] && Collected(h, leaves, t, leaf, idx, path, hashed)
    requires i < |LevelAt(h, LeafLevel(h, leaves), t)|
    requires Walk(h, LeafHash(h, leaf), idx, path) == LevelAt(h, LeafLevel(h, leaves), t)[i]
    ensures Collected(h, leaves, t - 1, leaf, idx, path[..|path| - 1], hashed)
    ensures child < |LevelAt(h, LeafLevel(h, leaves), t - 1)|
    ensures Walk(h, LeafHash(h, leaf), idx, path[..|path| - 1]) == LevelAt(h, LeafLevel(h, leaves), t - 1)[child]
  {
    hide *;
    CollectedSides(h, leaves, t, leaf, idx, path, hashed);
    var start, front, last := LeafHash(h, leaf), path[..|path| - 1], path[|path| - 1];
    var level, below := LeafLevel(h, leaves), LevelAt(h, LeafLevel(h, leaves), t - 1);
    var j := WalkLast(h, start, idx, path);
    var node := Walk(h, start, idx, front);
    CollectedBelow(h, leaves, t, leaf, idx, path, hashed, front);
    NodeAbove(h, level, t, i);
    PaddedFramable(h, leaves, t - 1);
    WalkIsDigest(h, start, idx, front);
    DigestFramable(node);
    SameInput(h, hashed, StepInput(node, j, last), ParentInput(below, i),
              WalkInputs(h, start, idx, path), InputsUpTo(h, level, t));
    child := ChildOf(h, below, i, node, last, j);
  }

  // ---------- openings ----------

  lemma {:induction false} PathLength(h: Hash, level: seq<bytes>, idx: nat)
    requires idx < |level|
    ensures |OpenPath(h, level, idx)| == Depth(|level|)
    decreases |level|
  {
    if |level| > 1 {
      ParentCount(h, level);
      PathLength(h, Parents(h, level), idx / 2);
    }
  }

  /** Checking an opening hashes nothing that building the tree did not. */
  lemma {:induction false} OpeningInputs(h: Hash, level: seq<bytes>, idx: nat)
    requires idx < |level|
    ensures WalkInputs(h, level[idx], idx, OpenPath(h, level, idx)) <= InputsUpTo(h, level, Depth(|level|))
    decreases |level|
  {
    hide StepInput, Parents, Padded, ParentInputs, InputsUpTo, OpenPath, WalkInputs, LevelAt;
    if |level| > 1 {
      ParentCount(h, level);
      StepIsParentInput(level, idx);
      OpeningStep(h, level, idx);
      OpeningInputs(h, Parents(h, level), idx / 2);
      LevelShift(h, level, Depth(|level|) - 1);
    } else {
      NoStep(h, level, idx);
    }
  }

  lemma NoStep(h: Hash, level: seq<bytes>, idx: nat)
    requires idx < |level| == 1
    ensures WalkInputs(h, level[idx], idx, OpenPath(h, level, idx)) == {}
  {}

  lemma OpeningStep(h: Hash, level: seq<bytes>, idx: nat)
    requires idx < |level| && |level| > 1
    ensures idx / 2 < |Parents(h, level)| && SiblingIndex(idx) < |Padded(level)|
    ensures WalkInputs(h, level[idx], idx, OpenPath(h, level, idx)) ==
      {StepInput(level[idx], idx, Padded(level)[SiblingIndex(idx)])}
      + WalkInputs(h, Parents(h, level)[idx / 2], idx / 2, OpenPath(h, Parents(h, level), idx / 2))
  {
    hide Padded, Frame;
    ParentOf(h, level, idx);
    var sibling, rest := Padded(level)[SiblingIndex(idx)], OpenPath(h, Parents(h, level), idx / 2);
    assert ([sibling] + rest)[1..] == rest && ([sibling] + rest)[0] == sibling;
  }

  lemma StepIsParentInput(level: seq<bytes>, idx: nat)
    requires idx < |level| && |level| > 1
    ensures SiblingIndex(idx) < |Padded(level)|
      && StepInput(level[idx], idx, Padded(level)[SiblingIndex(idx)]) in ParentInputs(level)
  {
    var i := idx / 2;
    assert Padded(level)[idx] == level[idx];
    assert idx == 2 * i || idx == 2 * i + 1;
    assert ParentInput(level, i) in ParentInputs(level);
  }

  lemma InjectiveWithin(h: Hash, few: set<bytes>, many: set<bytes>)
    requires InjectiveOn(h, many) && few <= many
    ensures InjectiveOn(h, few)
  {}

  /** An opening hashes what its tree does, and its path is one digest per level. */
  lemma OpeningWithin(h: Hash, leaves: seq<bytes>, index: nat)
    requires index < |leaves| && Digests(h)
    ensures ProofInputs(h, Opening(h, leaves, index)) <= HashedInputs(h, leaves)
    ensures |Opening(h, leaves, index).path| == Depth(|leaves|)
    ensures forall s :: s in Opening(h, leaves, index).path ==> Framable(s)
  {
    hide Frame, OpenPath, WalkInputs, InputsUpTo, Depth;
    var level := LeafLevel(h, leaves);
    PathLength(h, level, index);
    OpeningInputs(h, level, index);
    LeavesAreDigests(h, leaves);
    PathIsDigests(h, level, index);
    assert LeafInput(leaves[index]) in LeafInputs(leaves);
  }

  lemma ProofCollected(h: Hash, leaves: seq<bytes>, proof: MerkleProof, hashed: set<bytes>)
    requires leaves != [] && Digests(h) && InjectiveOn(h, hashed)
    requires HashedInputs(h, leaves) + ProofInputs(h, proof) <= hashed
    requires Framable(proof.leaf) && (forall b :: b in leaves ==> Framable(b))
      && forall s :: s in proof.path ==> Framable(s)
    ensures Collected(h, leaves, Depth(|leaves|), proof.leaf, proof.index, proof.path, hashed)
  {
    hide Frame, LeafLevel, LeafInputs, WalkInputs, InputsUpTo, Depth;
  }

  /** A proof accepted against the root of a tree has one step per level of the tree, unless the hash
      collides on the inputs of the two. */
  lemma AcceptedDepth(h: Hash, leaves: seq<bytes>, proof: MerkleProof, hashed: set<bytes>)
    requires leaves != [] && Digests(h) && Verifies(h, Root(h, LeafLevel(h, leaves)), proof)
    requires InjectiveOn(h, hashed) && HashedInputs(h, leaves) + ProofInputs(h, proof) <= hashed
    requires Framable(proof.leaf) && (forall b :: b in leaves ==> Framable(b))
      && forall s :: s in proof.path ==> Framable(s)
    ensures |proof.path| == Depth(|leaves|)
  {
    hide Frame, Walk, WalkInputs, Root, LevelAt, InputsUpTo, HashedInputs, ProofInputs, Collected, Depth;
    RootIsTop(h, LeafLevel(h, leaves));
    ProofCollected(h, leaves, proof, hashed);
    DepthForced(h, leaves, Depth(|leaves|), 0, proof.leaf, proof.index, proof.path, hashed);
  }

  /** A committed position can only be opened to the committed leaf: an accepted proof for the position,
      of whatever length, is its opening in leaf and path, unless the hash collides on the inputs of
      the tree and of the proof. */
  lemma OpeningBinding(h: Hash, leaves: seq<bytes>, index: nat, proof: MerkleProof)
    requires index < |leaves| && proof.index == index && Digests(h)
    requires Verifies(h, Root(h, LeafLevel(h, leaves)), proof)
    requires InjectiveOn(h, HashedInputs(h, leaves) + ProofInputs(h, proof))
    requires Framable(proof.leaf) && (forall b :: b in leaves ==> Framable(b))
      && forall s :: s in proof.path ==> Framable(s)
    ensures proof == Opening(h, leaves, index)
  {
    hide InjectiveOn, Frame, Walk, WalkInputs, Root, LeafLevel, OpenPath, HashedInputs, ProofInputs, Depth;
    var opening, hashed := Opening(h, leaves, index), HashedInputs(h, leaves) + ProofInputs(h, proof);
    AcceptedDepth(h, leaves, proof, hashed);
    OpeningWithin(h, leaves, index);
    OpeningVerifies(h, leaves, index);
    InjectiveWithin(h, ProofInputs(h, proof) + ProofInputs(h, opening), hashed);
    ProofBinding(h, proof, opening);
  }

  // ---------- which lists share a root ----------

  /** The entry of a list of n that stands at position i once the list is completed: each odd level
      repeats its last node, and with it all the leaves below. */
  function FullIndex(n: nat, i: nat): (r: nat)
    requires n >= 1
    ensures r < n
  {
    if n == 1 then 0
    else Min(2 * FullIndex((n + 1) / 2, i / 2) + i % 2, n - 1)
  }

  /** The list completed to the power of two that the tree spans. */
  function Completed<T>(s: seq<T>): (r: seq<T>)
    requires |s| >= 1
    ensures |r| == Pow2(Depth(|s|))
  {
    seq(Pow2(Depth(|s|)), i requires 0 <= i < Pow2(Depth(|s|)) => s[FullIndex(|s|, i)])
  }

  lemma {:induction false} FullIndexWithin(n: nat, i: nat)
    requires i < n
    ensures FullIndex(n, i) == i && n <= Pow2(Depth(n))
  {
    if n > 1 {
      FullIndexWithin((n + 1) / 2, i / 2);
    }
  }

  /** A list is a prefix of its completion. */
  lemma CompletedPrefix<T>(s: seq<T>)
    requires |s| >= 1
    ensures s <= Completed(s)
  {
    FullIndexWithin(|s|, 0);
    forall i | 0 <= i < |s| ensures Completed(s)[i] == s[i] {
      FullIndexWithin(|s|, i);
    }
  }

  lemma {:induction false} Pow2Injective(a: nat, b: nat)
    requires Pow2(a) == Pow2(b)
    ensures a == b
  {
    if a > 0 && b > 0 {
      Pow2Injective(a - 1, b - 1);
    }
  }

  lemma FullIndexStep(n: nat, j: nat)
    requires n > 1
    ensures FullIndex(n, 2 * j) == Min(2 * FullIndex((n + 1) / 2, j), n - 1)
    ensures FullIndex(n, 2 * j + 1) == Min(2 * FullIndex((n + 1) / 2, j) + 1, n - 1)
  {
    FullIndexOf(n, 2 * j, j, 0);
    FullIndexOf(n, 2 * j + 1, j, 1);
  }

  lemma FullIndexOf(n: nat, i: nat, j: nat, bit: nat)
    requires n > 1 && i == 2 * j + bit && bit < 2
    ensures FullIndex(n, i) == Min(2 * FullIndex((n + 1) / 2, j) + bit, n - 1)
  {
    assert i / 2 == j && i % 2 == bit;
  }

  lemma PaddedAt(level: seq<bytes>, q: nat)
    requires q < (|level| + 1) / 2
    ensures 2 * q + 1 < |Padded(level)|
    ensures Padded(level)[2 * q] == level[Min(2 * q, |level| - 1)]
    ensures Padded(level)[2 * q + 1] == level[Min(2 * q + 1, |level| - 1)]
    ensures ParentInput(level, q) in ParentInputs(level)
  {
    hide NodeInput;
    assert ParentInput(level, q) in ParentInputs(level);
  }

  lemma CompletedAt<T>(s: seq<T>, i: nat)
    requires |s| >= 1 && i < Pow2(Depth(|s|))
    ensures i < |Completed(s)| && Completed(s)[i] == s[FullIndex(|s|, i)]
  {}

  lemma CompletedSize(h: Hash, level: seq<bytes>)
    requires |level| > 1
    ensures |Completed(level)| == 2 * |Completed(Parents(h, level))|
  {
    ParentCount(h, level);
  }

  /** The completed parents are the parents of the completion. */
  lemma CompletedParents(h: Hash, level: seq<bytes>, j: nat)
    requires |level| > 1 && j < |Completed(Parents(h, level))|
    ensures 2 * j + 1 < |Completed(level)|
    ensures var left, right := Completed(level)[2 * j], Completed(level)[2 * j + 1];
      && left in level && right in level && NodeInput(left, right) in ParentInputs(level)
      && Completed(Parents(h, level))[j] == h(NodeInput(left, right))
  {
    hide Frame, FullIndex, Completed, Depth, Pow2, Padded, ParentInputs;
    var n, parents := |level|, Parents(h, level);
    ParentCount(h, level);
    CompletedSize(h, level);
    CompletedAt(parents, j);
    CompletedAt(level, 2 * j);
    CompletedAt(level, 2 * j + 1);
    FullIndexStep(n, j);
    PaddedAt(level, FullIndex((n + 1) / 2, j));
  }

  /** Levels with one completion have one root. */
  lemma {:induction false} SameCompletionSameRoot(h: Hash, u: seq<bytes>, v: seq<bytes>)
    requires |u| >= 1 && |v| >= 1 && Completed(u) == Completed(v)
    ensures Root(h, u) == Root(h, v)
    decreases |u|
  {
    Pow2Injective(Depth(|u|), Depth(|v|));
    if |u| == 1 {
      assert Completed(u)[0] == u[0] && Completed(v)[0] == v[0];
    } else {
      ParentCount(h, u);
      ParentCount(h, v);
      var pu, pv := Parents(h, u), Parents(h, v);
      assert |Completed(pu)| == |Completed(pv)|;
      forall j | 0 <= j < |Completed(pu)| ensures Completed(pu)[j] == Completed(pv)[j] {
        CompletedParents(h, u, j);
        CompletedParents(h, v, j);
      }
      SameCompletionSameRoot(h, pu, pv);
    }
  }

  lemma LevelInputs(h: Hash, level: seq<bytes>, hashed: set<bytes>)
    requires |level| > 1 && InputsUpTo(h, level, Depth(|level|)) <= hashed
    ensures ParentInputs(level) <= hashed
    ensures InputsUpTo(h, Parents(h, level), Depth(|Parents(h, level)|)) <= hashed
    ensures Depth(|Parents(h, level)|) == Depth(|level|) - 1 && |Parents(h, level)| < |level|
  {
    hide Parents, ParentInputs, InputsUpTo, LevelAt;
    ParentCount(h, level);
    LevelShift(h, level, Depth(|level|) - 1);
  }

  lemma ParentsAreDigests(h: Hash, level: seq<bytes>)
    requires |level| >= 1 && Digests(h)
    ensures forall b :: b in Parents(h, level) ==> |b| == 32
  {
    hide Frame, Padded;
  }

  /** Levels of one depth with one root have one completion. */
  lemma {:induction false} SameRootSameCompletion(h: Hash, u: seq<bytes>, v: seq<bytes>, hashed: set<bytes>)
    requires |u| >= 1 && |v| >= 1 && Depth(|u|) == Depth(|v|) && Root(h, u) == Root(h, v)
    requires Digests(h) && InjectiveOn(h, hashed)
    requires InputsUpTo(h, u, Depth(|u|)) <= hashed && InputsUpTo(h, v, Depth(|v|)) <= hashed
    requires (forall b :: b in u ==> |b| == 32) && forall b :: b in v ==> |b| == 32
    ensures Completed(u) == Completed(v)
    decreases |u|
  {
    hide Digests, InjectiveOn, Root, Parents, ParentInputs, InputsUpTo, FullIndex, Completed, Depth;
    DepthOne(|u|);
    DepthOne(|v|);
    RootStep(h, u);
    RootStep(h, v);
    if |u| > 1 {
      LevelInputs(h, u, hashed);
      LevelInputs(h, v, hashed);
      ParentsAreDigests(h, u);
      ParentsAreDigests(h, v);
      SameRootSameCompletion(h, Parents(h, u), Parents(h, v), hashed);
      SamePairs(h, u, v, hashed);
    } else {
      CompletedAlone(u);
      CompletedAlone(v);
      assert u == [u[0]] && v == [v[0]];
    }
  }

  lemma RootStep(h: Hash, level: seq<bytes>)
    requires |level| >= 1
    ensures Root(h, level) == if |level| == 1 then level[0] else Root(h, Parents(h, level))
  {}

  lemma CompletedAlone<T>(s: seq<T>)
    requires |s| == 1
    ensures Completed(s) == s
  {}

  lemma DepthOne(n: nat)
    ensures Depth(n) == 0 <==> n <= 1
  {}

  lemma SamePairs(h: Hash, u: seq<bytes>, v: seq<bytes>, hashed: set<bytes>)
    requires |u| > 1 && |v| > 1 && Digests(h) && InjectiveOn(h, hashed)
    requires ParentInputs(u) <= hashed && ParentInputs(v) <= hashed
    requires (forall b :: b in u ==> |b| == 32) && forall b :: b in v ==> |b| == 32
    requires Completed(Parents(h, u)) == Completed(Parents(h, v))
    ensures Completed(u) == Completed(v)
  {
    hide Completed, Digests, InjectiveOn, Parents, ParentInputs;
    CompletedSize(h, u);
    CompletedSize(h, v);
    forall i | 0 <= i < |Completed(u)| ensures Completed(u)[i] == Completed(v)[i] {
      SamePair(h, u, v, i / 2, hashed);
      assert i == 2 * (i / 2) || i == 2 * (i / 2) + 1;
    }
  }

  lemma SamePair(h: Hash, u: seq<bytes>, v: seq<bytes>, j: nat, hashed: set<bytes>)
    requires |u| > 1 && |v| > 1 && Digests(h) && InjectiveOn(h, hashed)
    requires ParentInputs(u) <= hashed && ParentInputs(v) <= hashed
    requires (forall b :: b in u ==> |b| == 32) && forall b :: b in v ==> |b| == 32
    requires Completed(Parents(h, u)) == Completed(Parents(h, v)) && j < |Completed(Parents(h, u))|
    ensures 2 * j + 1 < |Completed(u)| && 2 * j + 1 < |Completed(v)|
    ensures Completed(u)[2 * j] == Completed(v)[2 * j] && Completed(u)[2 * j + 1] == Completed(v)[2 * j + 1]
  {
    hide Completed, Parents, ParentInputs, NodeInput, Framable;
    CompletedParents(h, u, j);
    CompletedParents(h, v, j);
    var a, b := Completed(u)[2 * j], Completed(u)[2 * j + 1];
    var c, d := Completed(v)[2 * j], Completed(v)[2 * j + 1];
    DigestFramable(a);
    DigestFramable(b);
    DigestFramable(c);
    DigestFramable(d);
    NodeInputInjective(a, b, c, d);
  }

  /** Lists with one root span trees of one depth. */
  lemma SameRootSameDepth(h: Hash, a: seq<bytes>, b: seq<bytes>)
    requires a != [] && b != [] && Root(h, LeafLevel(h, a)) == Root(h, LeafLevel(h, b))
    requires Digests(h) && InjectiveOn(h, HashedInputs(h, a) + HashedInputs(h, b))
    requires forall x :: x in a || x in b ==> Framable(x)
    ensures Depth(|a|) == Depth(|b|)
  {
    hide Frame, Walk, WalkInputs, Root, LeafLevel, OpenPath, HashedInputs, ProofInputs, Depth;
    OpeningWithin(h, a, 0);
    OpeningVerifies(h, a, 0);
    AcceptedDepth(h, b, Opening(h, a, 0), HashedInputs(h, a) + HashedInputs(h, b));
  }

  lemma CompletedLeaves(h: Hash, a: seq<bytes>)
    requires a != []
    ensures |Completed(LeafLevel(h, a))| == |Completed(a)|
    ensures forall i :: 0 <= i < |Completed(a)| ==>
      Completed(a)[i] in a && Completed(LeafLevel(h, a))[i] == h(LeafInput(Completed(a)[i]))
  {}

  /** Two lists of leaves share their root exactly when they share their completion, unless the hash
      collides on the inputs of the two trees. */
  lemma RootAliases(h: Hash, a: seq<bytes>, b: seq<bytes>)
    requires a != [] && b != [] && Digests(h) && InjectiveOn(h, HashedInputs(h, a) + HashedInputs(h, b))
    requires forall x :: x in a || x in b ==> Framable(x)
    ensures Root(h, LeafLevel(h, a)) == Root(h, LeafLevel(h, b)) <==> Completed(a) == Completed(b)
  {
    var la, lb := LeafLevel(h, a), LeafLevel(h, b);
    CompletedLeaves(h, a);
    CompletedLeaves(h, b);
    hide Root, Completed, InputsUpTo, FullIndex, Frame;
    if Completed(a) == Completed(b) {
      assert Completed(la) == Completed(lb);
      SameCompletionSameRoot(h, la, lb);
    }
    if Root(h, la) == Root(h, lb) {
      SameRootSameDepth(h, a, b);
      LeavesAreDigests(h, a);
      LeavesAreDigests(h, b);
      SameRootSameCompletion(h, la, lb, HashedInputs(h, a) + HashedInputs(h, b));
      SameLeaves(h, a, b);
    }
  }

  lemma SameLeaves(h: Hash, a: seq<bytes>, b: seq<bytes>)
    requires a != [] && b != [] && InjectiveOn(h, HashedInputs(h, a) + HashedInputs(h, b))
    requires forall x :: x in a || x in b ==> Framable(x)
    requires Completed(LeafLevel(h, a)) == Completed(LeafLevel(h, b))
    ensures Completed(a) == Completed(b)
  {
    CompletedLeaves(h, a);
    CompletedLeaves(h, b);
    hide Completed, InputsUpTo, FullIndex, Frame;
    var ca, cb := Completed(a), Completed(b);
    forall i | 0 <= i < |ca| ensures ca[i] == cb[i] {
      LeafHashed(h, a, ca[i]);
      LeafHashed(h, b, cb[i]);
      if ca[i] != cb[i] {
        LeafInputInjective(ca[i], cb[i]);
      }
    }
  }

  lemma LeafHashed(h: Hash, leaves: seq<bytes>, leaf: bytes)
    requires leaf in leaves
    ensures LeafInput(leaf) in HashedInputs(h, leaves)
  {
    var i :| 0 <= i < |leaves| && leaves[i] == leaf;
    assert LeafInput(leaves[i]) in LeafInputs(leaves);
  }

  /** The root binds the list among lists of one length: given equal roots, equal lengths are exactly
      what it takes for the lists to be equal. */
  lemma RootBindsGivenLength(h: Hash, a: seq<bytes>, b: seq<bytes>)
    requires a != [] && b != [] && Digests(h) && InjectiveOn(h, HashedInputs(h, a) + HashedInputs(h, b))
    requires forall x :: x in a || x in b ==> Framable(x)
    ensures Root(h, LeafLevel(h, a)) == Root(h, LeafLevel(h, b)) ==> (a == b <==> |a| == |b|)
  {
    hide Completed, Root, LeafLevel, HashedInputs, Digests, InjectiveOn;
    RootAliases(h, a, b);
    CompletedPrefix(a);
    CompletedPrefix(b);
    if Completed(a) == Completed(b) && |a| == |b| {
      assert a == Completed(a)[..|a|] && b == Completed(b)[..|b|];
    }
  }

  /** Repeating the last node lets two leaf lists share a root, although the source says it
      pads with zero leaves. */
  lemma DuplicateLeafAliases(h: Hash, a: bytes, b: bytes, c: bytes)
    ensures Root(h, LeafLevel(h, [a, b, c])) == Root(h, LeafLevel(h, [a, b, c, c]))
  {
    var u, v := LeafLevel(h, [a, b, c]), LeafLevel(h, [a, b, c, c]);
    assert Padded(u) == v == Padded(v);
    assert Parents(h, u) == Parents(h, v);
  }
}
