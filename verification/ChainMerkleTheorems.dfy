/** Binding, completeness and soundness of the chain's Merkle tree, relative to a hash that does
    not collide on the finitely many inputs hashed by the computations compared. */
module ChainMerkleTheorems {
  import opened Collections
  import opened Bytes
  import opened ChainMerkle

  /** An input that can only be a leaf or a node of a level below the given one. */
  predicate Below(x: bytes, level: nat) {
    |x| >= 1 && (x[0] == 0 || (x[0] == 1 && |x| >= 2 && x[1] < level))
  }

  /** A node input of the given level or above. */
  predicate AtLeast(x: bytes, level: nat) {
    |x| >= 2 && x[0] == 1 && x[1] >= level
  }

  ghost predicate AllBelow(inputs: seq<bytes>, level: nat) {
    forall i :: 0 <= i < |inputs| ==> Below(inputs[i], level)
  }

  /** Every input hashed while building the tree above a level, that level included. */
  function TreeInputs(h: Hash, inputs: seq<bytes>, level: nat): set<bytes>
    requires |inputs| >= 1
    decreases |inputs|
  {
    (set x | x in inputs) +
    if |inputs| == 1 || level > 255 then {}
    else TreeInputs(h, ParentInputs(h, Nodes(h, inputs), level), level + 1)
  }

  function HashedInputs(h: Hash, leaves: seq<bytes>): set<bytes> {
    {PadInput()} + if leaves == [] then {} else TreeInputs(h, LeafInputs(leaves), 1)
  }

  lemma NodeInputInjective(a: bytes, b: bytes, c: bytes, d: bytes, level: byte)
    requires |a| == |b| == |c| == |d| == 32 && NodeInput(a, b, level) == NodeInput(c, d, level)
    ensures a == c && b == d
  {
    assert NodeInput(a, b, level)[2..] == a + b && NodeInput(c, d, level)[2..] == c + d;
    ConcatInjective(a, b, c, d);
  }

  /** The last input hashed on the way to the root of a level with more than one node. */
  lemma {:induction false} TopInput(h: Hash, inputs: seq<bytes>, level: nat) returns (x: bytes)
    requires |inputs| > 1 && RootOf(h, inputs, level).Some?
    ensures x in TreeInputs(h, inputs, level) && AtLeast(x, level) && RootOf(h, inputs, level) == Some(h(x))
    decreases |inputs|
  {
    var parents := ParentInputs(h, Nodes(h, inputs), level);
    if |parents| == 1 {
      x := parents[0];
    } else {
      x := TopInput(h, parents, level + 1);
    }
  }

  /** A single node cannot share its root with a higher tree. */
  lemma LoneNode(h: Hash, x: bytes, inputs: seq<bytes>, level: nat, hashed: set<bytes>)
    requires |inputs| > 1 && Below(x, level) && RootOf(h, inputs, level).Some?
    requires x in hashed && TreeInputs(h, inputs, level) <= hashed && InjectiveOn(h, hashed)
    ensures RootOf(h, inputs, level) != Some(h(x))
  {
    var top := TopInput(h, inputs, level);
  }

  lemma ParentsBelow(h: Hash, nodes: seq<bytes>, level: byte)
    ensures AllBelow(ParentInputs(h, nodes, level), level + 1)
  {}

  lemma StepBelow(node: bytes, sibling: bytes, onLeft: bool, level: byte)
    ensures Below(StepInput(node, sibling, onLeft, level), level + 1)
  {}

  lemma DigestNodes(h: Hash, inputs: seq<bytes>)
    requires Digests(h)
    ensures forall i :: 0 <= i < |Padded(h, Nodes(h, inputs))| ==> |Padded(h, Nodes(h, inputs))[i]| == 32
  {}

  /** Equal parents come from equal children. */
  lemma ChildrenEqual(h: Hash, a: seq<bytes>, b: seq<bytes>, level: byte, hashed: set<bytes>)
    requires Digests(h) && InjectiveOn(h, hashed) && PadInput() in hashed
    requires AllBelow(a, level) && AllBelow(b, level)
    requires (forall i :: 0 <= i < |a| ==> a[i] in hashed) && (forall i :: 0 <= i < |b| ==> b[i] in hashed)
    requires ParentInputs(h, Nodes(h, a), level) == ParentInputs(h, Nodes(h, b), level)
    ensures a == b
  {
    PaddedEqual(h, a, b, level);
    if |a| < |b| {
      PaddingMismatch(h, a, b, level, hashed);
    } else if |b| < |a| {
      PaddingMismatch(h, b, a, level, hashed);
    } else {
      forall i | 0 <= i < |a| ensures a[i] == b[i] {
        assert Padded(h, Nodes(h, a))[i] == h(a[i]) && Padded(h, Nodes(h, b))[i] == h(b[i]);
      }
    }
  }

  /** The padding node stands for no real node, so levels of different lengths pad differently. */
  lemma PaddingMismatch(h: Hash, a: seq<bytes>, b: seq<bytes>, level: nat, hashed: set<bytes>)
    requires |a| < |b| && InjectiveOn(h, hashed) && PadInput() in hashed && AllBelow(b, level)
    requires forall i :: 0 <= i < |b| ==> b[i] in hashed
    ensures Padded(h, Nodes(h, a)) != Padded(h, Nodes(h, b))
  {
    var p, q := Padded(h, Nodes(h, a)), Padded(h, Nodes(h, b));
    if |p| == |q| {
      assert p[|a|] == h(PadInput()) && q[|a|] == h(b[|a|]);
      assert Below(b[|a|], level) && !Below(PadInput(), level);
    }
  }

  lemma PaddedEqual(h: Hash, a: seq<bytes>, b: seq<bytes>, level: byte)
    requires Digests(h) && ParentInputs(h, Nodes(h, a), level) == ParentInputs(h, Nodes(h, b), level)
    ensures Padded(h, Nodes(h, a)) == Padded(h, Nodes(h, b))
  {
    var p, q := Padded(h, Nodes(h, a)), Padded(h, Nodes(h, b));
    var u := ParentInputs(h, Nodes(h, a), level);
    DigestNodes(h, a);
    DigestNodes(h, b);
    forall i | 0 <= i < |p| ensures p[i] == q[i] {
      var j := i / 2;
      assert u[j] == NodeInput(p[2 * j], p[2 * j + 1], level) == NodeInput(q[2 * j], q[2 * j + 1], level);
      NodeInputInjective(p[2 * j], p[2 * j + 1], q[2 * j], q[2 * j + 1], level);
      assert i == 2 * j || i == 2 * j + 1;
    }
  }

  /** Two levels of the same height with the same root are the same level. */
  lemma {:induction false} LevelBinding(h: Hash, a: seq<bytes>, b: seq<bytes>, level: nat, hashed: set<bytes>)
    requires |a| >= 1 && |b| >= 1 && RootOf(h, a, level).Some? && RootOf(h, a, level) == RootOf(h, b, level)
    requires Digests(h) && InjectiveOn(h, hashed) && PadInput() in hashed
    requires TreeInputs(h, a, level) <= hashed && TreeInputs(h, b, level) <= hashed
    requires AllBelow(a, level) && AllBelow(b, level)
    ensures a == b
    decreases |a|
  {
    assert a[0] in hashed && b[0] in hashed;
    if |a| == 1 && |b| == 1 {
      assert a[0] == b[0];
    } else if |a| == 1 {
      LoneNode(h, a[0], b, level, hashed);
    } else if |b| == 1 {
      LoneNode(h, b[0], a, level, hashed);
    } else {
      var pa, pb := ParentInputs(h, Nodes(h, a), level), ParentInputs(h, Nodes(h, b), level);
      ParentsBelow(h, Nodes(h, a), level);
      ParentsBelow(h, Nodes(h, b), level);
      LevelBinding(h, pa, pb, level + 1, hashed);
      ChildrenEqual(h, a, b, level, hashed);
    }
  }

  /** The root binds the whole list of leaves, its length included: equal roots come from equal
      lists unless the hash collides on an input of one of the two trees or maps one to the
      reserved root of the empty list. */
  lemma RootBinding(h: Hash, a: seq<bytes>, b: seq<bytes>)
    requires RootSpec(h, a).Some? && RootSpec(h, a) == RootSpec(h, b)
    requires Digests(h) && InjectiveOn(h, HashedInputs(h, a) + HashedInputs(h, b))
    requires forall x :: x in HashedInputs(h, a) + HashedInputs(h, b) ==> h(x) != ZeroLeaf()
    ensures a == b
  {
    if a == [] || b == [] {
      if a != [] { NonEmptyRoot(h, a); }
      if b != [] { NonEmptyRoot(h, b); }
    } else {
      LevelBinding(h, LeafInputs(a), LeafInputs(b), 1, HashedInputs(h, a) + HashedInputs(h, b));
      forall i | 0 <= i < |a| ensures a[i] == b[i] {
        assert LeafInputs(a)[i] == LeafInputs(b)[i];
        assert LeafInput(a[i])[1..] == a[i] && LeafInput(b[i])[1..] == b[i];
      }
    }
  }

  lemma NonEmptyRoot(h: Hash, leaves: seq<bytes>)
    requires leaves != [] && RootSpec(h, leaves).Some?
    ensures exists x :: x in HashedInputs(h, leaves) && h(x) == RootSpec(h, leaves).value
  {
    var inputs := LeafInputs(leaves);
    if |inputs| == 1 {
      assert inputs[0] in HashedInputs(h, leaves);
    } else {
      var top := TopInput(h, inputs, 1);
    }
  }

  /** Appending a leaf, a copy of the last one in particular, changes the root. */
  lemma AppendChangesRoot(h: Hash, leaves: seq<bytes>, extra: bytes)
    requires RootSpec(h, leaves).Some?
    requires Digests(h) && InjectiveOn(h, HashedInputs(h, leaves) + HashedInputs(h, leaves + [extra]))
    requires forall x :: x in HashedInputs(h, leaves) + HashedInputs(h, leaves + [extra]) ==> h(x) != ZeroLeaf()
    ensures RootSpec(h, leaves + [extra]) != RootSpec(h, leaves)
  {
    assert |leaves + [extra]| != |leaves|;
    if RootSpec(h, leaves + [extra]) == RootSpec(h, leaves) {
      RootBinding(h, leaves + [extra], leaves);
    }
  }

  // ---------- inclusion proofs ----------

  /** The root exists, and so does every path, exactly while the levels fit in one byte. */
  lemma {:induction false} WithinOneByte(h: Hash, inputs: seq<bytes>, cursor: nat, level: nat)
    requires cursor < |inputs| && 1 <= level <= 256
    ensures RootOf(h, inputs, level).Some? <==> level + Depth(|inputs|) <= 256
    ensures PathOf(h, inputs, cursor, level).Some? <==> level + Depth(|inputs|) <= 256
    decreases |inputs|
  {
    hide ParentInputs, Padded, NodeInput, Nodes;
    if |inputs| > 1 && level <= 255 {
      WithinOneByte(h, ParentInputs(h, Nodes(h, inputs), level), cursor / 2, level + 1);
    }
  }

  /** The parent of a node is the input of the first step of the path from it. */
  lemma PathNode(h: Hash, inputs: seq<bytes>, cursor: nat, level: byte)
    requires cursor < |inputs| && |inputs| > 1
    ensures var nodes := Nodes(h, inputs);
      ParentInputs(h, nodes, level)[cursor / 2]
      == StepInput(h(inputs[cursor]), Padded(h, nodes)[SiblingIndex(cursor)], cursor % 2 == 0, level)
  {
    hide ParentInputs, Padded, Nodes, NodeInput;
    var i := cursor / 2;
    ParentAt(h, Nodes(h, inputs), level, i);
    PaddedAt(h, inputs, cursor);
    assert cursor == 2 * i || cursor == 2 * i + 1;
  }

  lemma ParentAt(h: Hash, nodes: seq<bytes>, level: byte, i: nat)
    requires i < |ParentInputs(h, nodes, level)|
    ensures ParentInputs(h, nodes, level)[i] == NodeInput(Padded(h, nodes)[2 * i], Padded(h, nodes)[2 * i + 1], level)
  {}

  lemma PaddedAt(h: Hash, inputs: seq<bytes>, i: nat)
    requires i < |inputs|
    ensures Padded(h, Nodes(h, inputs))[i] == h(inputs[i])
  {}

  /** Walking up a built path recomputes the root, one step for each level. */
  lemma {:induction false} WalkReachesRoot(h: Hash, inputs: seq<bytes>, cursor: nat, level: nat)
    requires cursor < |inputs| && PathOf(h, inputs, cursor, level).Some?
    ensures var path := PathOf(h, inputs, cursor, level).value;
      && |path.0| == |path.1| == Depth(|inputs|) && IndexOf(path.1) == cursor
      && Walk(h, h(inputs[cursor]), path.0, path.1, level) == RootOf(h, inputs, level)
    decreases |inputs|
  {
    hide ParentInputs, Padded, NodeInput, Nodes;
    if |inputs| > 1 {
      var nodes := Nodes(h, inputs);
      var parents := ParentInputs(h, nodes, level);
      WalkReachesRoot(h, parents, cursor / 2, level + 1);
      var path, rest := PathOf(h, inputs, cursor, level).value, PathOf(h, parents, cursor / 2, level + 1).value;
      assert path.0[1..] == rest.0 && path.1[1..] == rest.1;
      PathNode(h, inputs, cursor, level);
    }
  }

  /** Completeness: the proof built for any leaf is accepted under the root of its list. */
  lemma ProofComplete(h: Hash, leaves: seq<bytes>, index: nat)
    requires index < |leaves| && RootSpec(h, leaves).Some?
    ensures var proof := ProofSpec(h, leaves, index);
      && proof.Some? && |proof.value.siblings| == Depth(|leaves|) && IndexOf(proof.value.directions) == index
      && VerifySpec(h, RootSpec(h, leaves).value, proof.value) == Some(true)
  {
    WithinOneByte(h, LeafInputs(leaves), index, 1);
    WalkReachesRoot(h, LeafInputs(leaves), index, 1);
  }

  /** The leaf position that the directions spell, lowest bit first. */
  function IndexOf(directions: seq<bool>): nat {
    if directions == [] then 0
    else 2 * IndexOf(directions[1..]) + if directions[0] then 0 else 1
  }

  /** Every input hashed while walking a proof. */
  function WalkInputs(h: Hash, node: bytes, siblings: seq<bytes>, directions: seq<bool>, level: nat): set<bytes>
    decreases siblings
  {
    if siblings == [] || directions == [] || level > 255 then {}
    else
      var x := StepInput(node, siblings[0], directions[0], level);
      {x} + WalkInputs(h, h(x), siblings[1..], directions[1..], level + 1)
  }

  lemma {:induction false} WalkTop(h: Hash, node: bytes, siblings: seq<bytes>, directions: seq<bool>, level: nat)
    returns (x: bytes)
    requires siblings != [] && Walk(h, node, siblings, directions, level).Some?
    ensures x in WalkInputs(h, node, siblings, directions, level) && AtLeast(x, level)
    ensures Walk(h, node, siblings, directions, level) == Some(h(x))
    decreases |siblings|
  {
    x := StepInput(node, siblings[0], directions[0], level);
    if |siblings| > 1 {
      x := WalkTop(h, h(x), siblings[1..], directions[1..], level + 1);
    }
  }

  /** A walk with at least one step cannot end at the hash of a node below it. */
  lemma WalkPastNode(
      h: Hash, low: bytes, node: bytes, siblings: seq<bytes>, directions: seq<bool>, level: nat, hashed: set<bytes>)
    requires siblings != [] && Walk(h, node, siblings, directions, level).Some? && Below(low, level)
    requires low in hashed && WalkInputs(h, node, siblings, directions, level) <= hashed && InjectiveOn(h, hashed)
    ensures Walk(h, node, siblings, directions, level) != Some(h(low))
  {
    var top := WalkTop(h, node, siblings, directions, level);
  }

  predicate HasNode(nodes: seq<bytes>, i: nat, x: bytes) {
    i < |nodes| && nodes[i] == x
  }

  function CursorOf(parent: nat, onLeft: bool): (r: nat)
    ensures r / 2 == parent && (r % 2 == 0 <==> onLeft)
  {
    2 * parent + if onLeft then 0 else 1
  }

  /** What one step of a walk says when the input it hashes is a node of the tree. */
  lemma StepBinding(
      h: Hash, inputs: seq<bytes>, x: bytes, sibling: bytes, onLeft: bool, level: byte, parent: nat, hashed: set<bytes>)
    requires Digests(h) && InjectiveOn(h, hashed) && PadInput() in hashed && x in hashed && Below(x, level)
    requires forall i :: 0 <= i < |inputs| ==> inputs[i] in hashed
    requires HasNode(ParentInputs(h, Nodes(h, inputs), level), parent, StepInput(h(x), sibling, onLeft, level))
    ensures HasNode(inputs, CursorOf(parent, onLeft), x)
    ensures HasNode(Padded(h, Nodes(h, inputs)), SiblingIndex(CursorOf(parent, onLeft)), sibling)
  {
    DigestNodes(h, inputs);
    var p := Padded(h, Nodes(h, inputs));
    var left, right := if onLeft then h(x) else sibling, if onLeft then sibling else h(x);
    NodeInputParts(p[2 * parent], p[2 * parent + 1], left, right, level);
    var cursor := CursorOf(parent, onLeft);
    assert !Below(PadInput(), level);
    assert |inputs| % 2 == 1 ==> p[|inputs|] == h(PadInput());
    assert p[cursor] == h(x);
  }

  /** As NodeInputInjective, when only one part on the right is known to be a digest. */
  lemma NodeInputParts(a: bytes, b: bytes, c: bytes, d: bytes, level: byte)
    requires |a| == |b| == 32 && (|c| == 32 || |d| == 32) && NodeInput(a, b, level) == NodeInput(c, d, level)
    ensures a == c && b == d
  {
    assert |NodeInput(c, d, level)| == 2 + |c| + |d|;
    NodeInputInjective(a, b, c, d, level);
  }

  /** A path is its first sibling and direction followed by the path of the parent. */
  lemma PathJoins(h: Hash, inputs: seq<bytes>, parent: nat, siblings: seq<bytes>, directions: seq<bool>, level: byte)
    requires siblings != [] && directions != []
    requires CursorOf(parent, directions[0]) < |inputs| && |inputs| > 1
    requires HasNode(Padded(h, Nodes(h, inputs)), SiblingIndex(CursorOf(parent, directions[0])), siblings[0])
    requires PathOf(h, ParentInputs(h, Nodes(h, inputs), level), parent, level + 1)
          == Some((siblings[1..], directions[1..]))
    ensures PathOf(h, inputs, CursorOf(parent, directions[0]), level) == Some((siblings, directions))
  {
    hide ParentInputs, Padded, NodeInput, Nodes;
    assert [siblings[0]] + siblings[1..] == siblings && [directions[0]] + directions[1..] == directions;
  }

  /** A walk that reaches the root starts at a node of the level and follows its path. */
  lemma {:induction false} WalkBinding(
      h: Hash, inputs: seq<bytes>, x: bytes, siblings: seq<bytes>, directions: seq<bool>, level: nat,
      hashed: set<bytes>)
    requires |inputs| >= 1 && AllBelow(inputs, level) && Below(x, level)
    requires RootOf(h, inputs, level).Some?
    requires Walk(h, h(x), siblings, directions, level) == RootOf(h, inputs, level)
    requires Digests(h) && InjectiveOn(h, hashed) && PadInput() in hashed && x in hashed
    requires TreeInputs(h, inputs, level) <= hashed
    requires WalkInputs(h, h(x), siblings, directions, level) <= hashed
    ensures HasNode(inputs, IndexOf(directions), x)
    ensures PathOf(h, inputs, IndexOf(directions), level) == Some((siblings, directions))
    decreases |inputs|
  {
    hide ParentInputs, Padded, NodeInput, Nodes;
    assert inputs[0] in hashed;
    if |inputs| == 1 {
      if siblings != [] {
        WalkPastNode(h, inputs[0], h(x), siblings, directions, level, hashed);
      }
    } else if siblings == [] {
      LoneNode(h, x, inputs, level, hashed);
    } else {
      var nodes := Nodes(h, inputs);
      var parents := ParentInputs(h, nodes, level);
      var y := StepInput(h(x), siblings[0], directions[0], level);
      ParentsBelow(h, nodes, level);
      StepBelow(h(x), siblings[0], directions[0], level);
      WalkBinding(h, parents, y, siblings[1..], directions[1..], level + 1, hashed);
      var parent := IndexOf(directions[1..]);
      StepBinding(h, inputs, x, siblings[0], directions[0], level, parent, hashed);
      PathJoins(h, inputs, parent, siblings, directions, level);
      assert IndexOf(directions) == CursorOf(parent, directions[0]);
    }
  }

  function ProofInputs(h: Hash, payload: bytes, proof: MerkleProof): set<bytes> {
    {LeafInput(payload)} + WalkInputs(h, proof.leafHash, proof.siblings, proof.directions, 1)
  }

  /** Soundness: an accepted proof for a payload is, in every byte, the proof that the tree gives for
      the leaf at the position its directions spell, and that leaf is the payload. */
  lemma ProofSound(h: Hash, leaves: seq<bytes>, payload: bytes, proof: MerkleProof)
    requires proof.leafHash == h(LeafInput(payload))
    requires RootSpec(h, leaves).Some? && VerifySpec(h, RootSpec(h, leaves).value, proof) == Some(true)
    requires Digests(h) && InjectiveOn(h, HashedInputs(h, leaves) + ProofInputs(h, payload, proof))
    requires forall x :: x in ProofInputs(h, payload, proof) ==> h(x) != ZeroLeaf()
    ensures IndexOf(proof.directions) < |leaves| && leaves[IndexOf(proof.directions)] == payload
    ensures ProofSpec(h, leaves, IndexOf(proof.directions)) == Some(proof)
    ensures |proof.siblings| == |proof.directions| == Depth(|leaves|)
  {
    hide RootOf, PathOf, Walk, TreeInputs, WalkInputs, ParentInputs, Padded, IndexOf, Depth, HashedInputs, ProofInputs,
      AllBelow;
    var hashed := HashedInputs(h, leaves) + ProofInputs(h, payload, proof);
    if leaves == [] {
      EmptyTreeProvesNothing(h, payload, proof);
    } else {
      InputsWithin(h, leaves, payload, proof);
      WalkBinding(h, LeafInputs(leaves), LeafInput(payload), proof.siblings, proof.directions, 1, hashed);
      LeafAt(h, leaves, payload, proof);
    }
  }

  lemma InputsWithin(h: Hash, leaves: seq<bytes>, payload: bytes, proof: MerkleProof)
    requires leaves != []
    ensures var hashed := HashedInputs(h, leaves) + ProofInputs(h, payload, proof);
      && PadInput() in hashed && LeafInput(payload) in hashed && TreeInputs(h, LeafInputs(leaves), 1) <= hashed
      && WalkInputs(h, proof.leafHash, proof.siblings, proof.directions, 1) <= hashed
    ensures AllBelow(LeafInputs(leaves), 1)
  {
    hide TreeInputs, WalkInputs;
  }

  lemma LeafAt(h: Hash, leaves: seq<bytes>, payload: bytes, proof: MerkleProof)
    requires proof.leafHash == h(LeafInput(payload))
    requires HasNode(LeafInputs(leaves), IndexOf(proof.directions), LeafInput(payload))
    requires PathOf(h, LeafInputs(leaves), IndexOf(proof.directions), 1) == Some((proof.siblings, proof.directions))
    ensures IndexOf(proof.directions) < |leaves| && leaves[IndexOf(proof.directions)] == payload
    ensures ProofSpec(h, leaves, IndexOf(proof.directions)) == Some(proof)
    ensures |proof.siblings| == |proof.directions| == Depth(|leaves|)
  {
    hide RootOf, PathOf, Walk, TreeInputs, WalkInputs, ParentInputs, Padded, IndexOf, Depth;
    var index := IndexOf(proof.directions);
    assert LeafInput(leaves[index])[1..] == leaves[index] && LeafInput(payload)[1..] == payload;
    WalkReachesRoot(h, LeafInputs(leaves), index, 1);
  }

  lemma EmptyTreeProvesNothing(h: Hash, payload: bytes, proof: MerkleProof)
    requires proof.leafHash == h(LeafInput(payload))
    requires forall x :: x in ProofInputs(h, payload, proof) ==> h(x) != ZeroLeaf()
    ensures VerifySpec(h, ZeroLeaf(), proof) != Some(true)
  {
    assert LeafInput(payload) in ProofInputs(h, payload, proof);
    if proof.siblings != [] && Walk(h, proof.leafHash, proof.siblings, proof.directions, 1).Some? {
      var top := WalkTop(h, proof.leafHash, proof.siblings, proof.directions, 1);
      assert top in ProofInputs(h, payload, proof);
    }
  }
}
