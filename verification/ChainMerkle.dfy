/** The chain's Merkle tree: domain-separated leaves, level-tagged internal nodes, and a padding
    sentinel on odd levels. A level is described by the inputs whose hashes are its nodes. */
module ChainMerkle {
  import opened Collections
  import opened Bytes

  /** The reserved root of the empty list. */
  function ZeroLeaf(): bytes {
    seq(32, i => 0)
  }

  function PadInput(): bytes {
    [2] + Ascii("penumbra-merkle-pad")
  }

  function LeafInput(payload: bytes): bytes {
    [0] + payload
  }

  function NodeInput(left: bytes, right: bytes, level: byte): bytes {
    [1, level] + left + right
  }

  datatype MerkleProof = MerkleProof(leafHash: bytes, siblings: seq<bytes>, directions: seq<bool>)

  // ---------- levels ----------

  function LeafInputs(leaves: seq<bytes>): (r: seq<bytes>)
    ensures |r| == |leaves|
  {
    seq(|leaves|, i requires 0 <= i < |leaves| => LeafInput(leaves[i]))
  }

  function Nodes(h: Hash, inputs: seq<bytes>): (r: seq<bytes>)
    ensures |r| == |inputs|
  {
    seq(|inputs|, i requires 0 <= i < |inputs| => h(inputs[i]))
  }

  function Padded(h: Hash, nodes: seq<bytes>): (r: seq<bytes>)
    ensures |r| % 2 == 0 && |nodes| <= |r| <= |nodes| + 1
  {
    if |nodes| % 2 == 1 then nodes + [h(PadInput())] else nodes
  }

  function ParentInputs(h: Hash, nodes: seq<bytes>, level: byte): (r: seq<bytes>)
    ensures 2 * |r| == |Padded(h, nodes)|
  {
    var p := Padded(h, nodes);
    seq(|p| / 2, i requires 0 <= i < |p| / 2 => NodeInput(p[2 * i], p[2 * i + 1], level))
  }

  /** None is the ValueError of a level beyond one byte. */
  function RootOf(h: Hash, inputs: seq<bytes>, level: nat): Option<bytes>
    requires |inputs| >= 1
    decreases |inputs|
  {
    if |inputs| == 1 then Some(h(inputs[0]))
    else if level > 255 then None
    else RootOf(h, ParentInputs(h, Nodes(h, inputs), level), level + 1)
  }

  function RootSpec(h: Hash, leaves: seq<bytes>): Option<bytes> {
    if leaves == [] then Some(ZeroLeaf()) else RootOf(h, LeafInputs(leaves), 1)
  }

  /** The siblings and directions collected on the way up. */
  function PathOf(h: Hash, inputs: seq<bytes>, cursor: nat, level: nat): Option<(seq<bytes>, seq<bool>)>
    requires cursor < |inputs|
    decreases |inputs|
  {
    if |inputs| == 1 then Some(([], []))
    else if level > 255 then None
    else
      var nodes := Nodes(h, inputs);
      var rest := PathOf(h, ParentInputs(h, nodes, level), cursor / 2, level + 1);
      if rest.None? then None
      else Some(([Padded(h, nodes)[SiblingIndex(cursor)]] + rest.value.0, [cursor % 2 == 0] + rest.value.1))
  }

  /** None is an IndexError, or the ValueError of a level beyond one byte. */
  function ProofSpec(h: Hash, leaves: seq<bytes>, index: int): Option<MerkleProof> {
    if !(0 <= index < |leaves|) then None
    else
      var path := PathOf(h, LeafInputs(leaves), index, 1);
      if path.None? then None
      else Some(MerkleProof(h(LeafInput(leaves[index])), path.value.0, path.value.1))
  }

  /** One step of a proof: the input hashed from a node and its sibling. */
  function StepInput(node: bytes, sibling: bytes, onLeft: bool, level: byte): bytes {
    if onLeft then NodeInput(node, sibling, level) else NodeInput(sibling, node, level)
  }

  /** None is the ValueError of a strict zip over unequal lengths, or of a level beyond one byte. */
  function Walk(h: Hash, node: bytes, siblings: seq<bytes>, directions: seq<bool>, level: nat): Option<bytes>
    decreases siblings
  {
    if siblings == [] && directions == [] then Some(node)
    else if siblings == [] || directions == [] || level > 255 then None
    else Walk(h, h(StepInput(node, siblings[0], directions[0], level)), siblings[1..], directions[1..], level + 1)
  }

  function VerifySpec(h: Hash, root: bytes, proof: MerkleProof): Option<bool> {
    var top := Walk(h, proof.leafHash, proof.siblings, proof.directions, 1);
    if top.None? then None else Some(top.value == root)
  }

  // ---------- the loops of the source ----------

  method BuildRoot(h: Hash, leaves: seq<bytes>) returns (r: Option<bytes>)
    ensures r == RootSpec(h, leaves)
  {
    hide LeafInputs, ParentInputs, Padded, NodeInput;
    if leaves == [] { return Some(ZeroLeaf()); }
    ghost var inputs := LeafInputs(leaves);
    var nodes := Nodes(h, LeafInputs(leaves));
    var level := 1;
    while |nodes| > 1
      invariant |inputs| >= 1 && nodes == Nodes(h, inputs) && level >= 1
      invariant RootOf(h, inputs, level) == RootSpec(h, leaves)
      decreases |nodes|
    {
      if level > 255 { return None; }
      inputs := ParentInputs(h, nodes, level);
      nodes := Nodes(h, ParentInputs(h, nodes, level));
      level := level + 1;
    }
    return Some(nodes[0]);
  }

  method BuildProof(h: Hash, leaves: seq<bytes>, index: int) returns (r: Option<MerkleProof>)
    ensures r == ProofSpec(h, leaves, index)
  {
    hide ParentInputs, Padded, NodeInput;
    if !(0 <= index < |leaves|) { return None; }
    ghost var inputs := LeafInputs(leaves);
    var nodes := Nodes(h, LeafInputs(leaves));
    var leafHash := nodes[index];
    var siblings: seq<bytes> := [];
    var directions: seq<bool> := [];
    var cursor: nat := index;
    var level := 1;
    ContinueFromStart(PathOf(h, inputs, index, 1));
    while |nodes| > 1
      invariant |inputs| >= 1 && nodes == Nodes(h, inputs) && level >= 1 && cursor < |nodes|
      invariant Continue(siblings, directions, PathOf(h, inputs, cursor, level))
        == PathOf(h, LeafInputs(leaves), index, 1)
      decreases |nodes|
    {
      if level > 255 { return None; }
      PathStep(h, inputs, cursor, level, siblings, directions);
      siblings := siblings + [Padded(h, nodes)[SiblingIndex(cursor)]];
      directions := directions + [cursor % 2 == 0];
      inputs := ParentInputs(h, nodes, level);
      nodes := Nodes(h, ParentInputs(h, nodes, level));
      cursor := cursor / 2;
      level := level + 1;
    }
    assert siblings + [] == siblings && directions + [] == directions;
    return Some(MerkleProof(leafHash, siblings, directions));
  }

  /** A collected prefix followed by the rest of the path. */
  ghost function Continue(siblings: seq<bytes>, directions: seq<bool>, rest: Option<(seq<bytes>, seq<bool>)>)
    : Option<(seq<bytes>, seq<bool>)>
  {
    if rest.None? then None else Some((siblings + rest.value.0, directions + rest.value.1))
  }

  lemma ContinueFromStart(path: Option<(seq<bytes>, seq<bool>)>)
    ensures Continue([], [], path) == path
  {
    if path.Some? {
      assert [] + path.value.0 == path.value.0 && [] + path.value.1 == path.value.1;
    }
  }

  lemma PathStep(h: Hash, inputs: seq<bytes>, cursor: nat, level: byte, siblings: seq<bytes>, directions: seq<bool>)
    requires cursor < |inputs| && |inputs| > 1
    ensures var nodes := Nodes(h, inputs);
      var sibling := Padded(h, nodes)[SiblingIndex(cursor)];
      Continue(siblings, directions, PathOf(h, inputs, cursor, level))
      == Continue(siblings + [sibling], directions + [cursor % 2 == 0],
                  PathOf(h, ParentInputs(h, nodes, level), cursor / 2, level + 1))
  {
    hide ParentInputs, Padded, NodeInput, Nodes;
    var nodes := Nodes(h, inputs);
    var sibling := Padded(h, nodes)[SiblingIndex(cursor)];
    var rest := PathOf(h, ParentInputs(h, nodes, level), cursor / 2, level + 1);
    if rest.Some? {
      assert siblings + ([sibling] + rest.value.0) == (siblings + [sibling]) + rest.value.0;
      assert directions + ([cursor % 2 == 0] + rest.value.1) == (directions + [cursor % 2 == 0]) + rest.value.1;
    }
  }

  method VerifyProof(h: Hash, root: bytes, proof: MerkleProof) returns (r: Option<bool>)
    ensures r == VerifySpec(h, root, proof)
  {
    var node, level, i := proof.leafHash, 1, 0;
    while i < |proof.siblings| && i < |proof.directions|
      invariant 0 <= i <= |proof.siblings| && i <= |proof.directions| && level == i + 1
      invariant Walk(h, node, proof.siblings[i..], proof.directions[i..], level)
             == Walk(h, proof.leafHash, proof.siblings, proof.directions, 1)
    {
      if level > 255 { return None; }
      assert proof.siblings[i..][1..] == proof.siblings[i + 1..];
      assert proof.directions[i..][1..] == proof.directions[i + 1..];
      node := h(StepInput(node, proof.siblings[i], proof.directions[i], level));
      level := level + 1;
      i := i + 1;
    }
    if i < |proof.siblings| || i < |proof.directions| { return None; }
    return Some(node == root);
  }
}
