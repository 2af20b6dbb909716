/** The Merkle tree of the STARK module: length-framed hashing, and an odd level padded by
    repeating its last node. */
module StarkMerkle {
  import opened Collections
  import opened ModArith
  import opened Bytes

  /** Each part preceded by its length in four bytes. */
  function Frame(parts: seq<bytes>): bytes {
    if parts == [] then [] else ToBytes(|parts[0]|, 4) + parts[0] + Frame(parts[1..])
  }

  function HashParts(h: Hash, parts: seq<bytes>): bytes {
    h(Frame(parts))
  }

  function LeafHash(h: Hash, leaf: bytes): bytes {
    HashParts(h, [Ascii("leaf"), leaf])
  }

  function NodeHash(h: Hash, left: bytes, right: bytes): bytes {
    HashParts(h, [Ascii("node"), left, right])
  }

  datatype MerkleProof = MerkleProof(leaf: bytes, path: seq<bytes>, index: int)

  // ---------- the tree as functions of a level ----------

  function LeafLevel(h: Hash, leaves: seq<bytes>): (level: seq<bytes>)
    ensures |level| == |leaves|
  {
    seq(|leaves|, i requires 0 <= i < |leaves| => LeafHash(h, leaves[i]))
  }

  function Padded(level: seq<bytes>): (r: seq<bytes>)
    requires |level| >= 1
    ensures |r| % 2 == 0 && |level| <= |r| <= |level| + 1
  {
    if |level| % 2 == 1 then level + [level[|level| - 1]] else level
  }

  function Parents(h: Hash, level: seq<bytes>): (r: seq<bytes>)
    requires |level| >= 1
    ensures 2 * |r| == |Padded(level)|
    ensures forall i :: 0 <= i < |r| ==> r[i] == NodeHash(h, Padded(level)[2 * i], Padded(level)[2 * i + 1])
  {
    var p := Padded(level);
    seq(|p| / 2, i requires 0 <= i < |p| / 2 => NodeHash(h, p[2 * i], p[2 * i + 1]))
  }

  function Root(h: Hash, level: seq<bytes>): bytes
    requires |level| >= 1
    decreases |level|
  {
    if |level| == 1 then level[0] else Root(h, Parents(h, level))
  }

  function OpenPath(h: Hash, level: seq<bytes>, idx: nat): seq<bytes>
    requires idx < |level|
    decreases |level|
  {
    if |level| == 1 then []
    else [Padded(level)[SiblingIndex(idx)]] + OpenPath(h, Parents(h, level), idx / 2)
  }

  /** The node reached from `node` at position idx by absorbing the path. */
  function Walk(h: Hash, node: bytes, idx: int, path: seq<bytes>): bytes
    decreases path
  {
    if path == [] then node
    else
      Walk(h, if idx % 2 == 0 then NodeHash(h, node, path[0]) else NodeHash(h, path[0], node),
           idx / 2, path[1..])
  }

  predicate Verifies(h: Hash, root: bytes, proof: MerkleProof) {
    Walk(h, LeafHash(h, proof.leaf), proof.index, proof.path) == root
  }

  function Opening(h: Hash, leaves: seq<bytes>, index: nat): MerkleProof
    requires index < |leaves|
  {
    MerkleProof(leaves[index], OpenPath(h, LeafLevel(h, leaves), index), index)
  }

  lemma OpenPathStep(h: Hash, level: seq<bytes>, idx: nat, path: seq<bytes>)
    requires idx < |level| && |level| > 1
    ensures SiblingIndex(idx) < |Padded(level)| && idx / 2 < |Parents(h, level)| < |level|
    ensures path + OpenPath(h, level, idx)
         == (path + [Padded(level)[SiblingIndex(idx)]]) + OpenPath(h, Parents(h, level), idx / 2)
  {
    hide Parents, Padded;
    var sibling, rest := Padded(level)[SiblingIndex(idx)], OpenPath(h, Parents(h, level), idx / 2);
    assert path + ([sibling] + rest) == (path + [sibling]) + rest;
  }

  lemma PathEnds(h: Hash, level: seq<bytes>, idx: nat, path: seq<bytes>)
    requires idx < |level| == 1
    ensures path + OpenPath(h, level, idx) == path
  {}

  lemma PathStarts(h: Hash, level: seq<bytes>, idx: nat)
    requires idx < |level|
    ensures [] + OpenPath(h, level, idx) == OpenPath(h, level, idx)
  {}

  // ---------- the loops of the source ----------

  /** None is the STARKError of an empty leaf list. */
  method MerkleRoot(h: Hash, leaves: seq<bytes>) returns (r: Option<bytes>)
    ensures r == if leaves == [] then None else Some(Root(h, LeafLevel(h, leaves)))
  {
    if leaves == [] { return None; }
    var level := LeafLevel(h, leaves);
    while |level| > 1
      invariant |level| >= 1
      invariant Root(h, level) == Root(h, LeafLevel(h, leaves))
      decreases |level|
    {
      level := Parents(h, level);
    }
    return Some(level[0]);
  }

  /** None is the STARKError of an index outside the leaf list. */
  method MerkleOpen(h: Hash, leaves: seq<bytes>, index: int) returns (r: Option<MerkleProof>)
    ensures r == if 0 <= index < |leaves| then Some(Opening(h, leaves, index)) else None
  {
    if !(0 <= index < |leaves|) { return None; }
    hide Padded, Parents, LeafLevel, OpenPath;
    var level := LeafLevel(h, leaves);
    ghost var whole := OpenPath(h, level, index);
    var path: seq<bytes> := [];
    var idx: nat := index;
    PathStarts(h, level, index);
    while |level| > 1
      invariant idx < |level|
      invariant path + OpenPath(h, level, idx) == whole
      decreases |level|
    {
      OpenPathStep(h, level, idx, path);
      path := path + [Padded(level)[SiblingIndex(idx)]];
      level := Parents(h, level);
      idx := idx / 2;
    }
    PathEnds(h, level, idx, path);
    return Some(MerkleProof(leaves[index], path, index));
  }

  method MerkleVerify(h: Hash, root: bytes, proof: MerkleProof) returns (ok: bool)
    ensures ok == Verifies(h, root, proof)
  {
    var node := LeafHash(h, proof.leaf);
    var idx := proof.index;
    var i := 0;
    while i < |proof.path|
      invariant 0 <= i <= |proof.path|
      invariant Walk(h, node, idx, proof.path[i..]) == Walk(h, LeafHash(h, proof.leaf), proof.index, proof.path)
    {
      assert proof.path[i..][1..] == proof.path[i + 1..];
      var sibling := proof.path[i];
      node := if idx % 2 == 0 then NodeHash(h, node, sibling) else NodeHash(h, sibling, node);
      idx := idx / 2;
      i := i + 1;
    }
    ok := node == root;
  }

  // ---------- completeness ----------

  lemma {:induction false} WalkReachesRoot(h: Hash, level: seq<bytes>, idx: nat)
    requires idx < |level|
    ensures Walk(h, level[idx], idx, OpenPath(h, level, idx)) == Root(h, level)
    decreases |level|
  {
    if |level| > 1 {
      var parents, sibling := Parents(h, level), Padded(level)[SiblingIndex(idx)];
      var rest := OpenPath(h, parents, idx / 2);
      WalkReachesRoot(h, parents, idx / 2);
      ParentOf(h, level, idx);
      assert ([sibling] + rest)[1..] == rest && ([sibling] + rest)[0] == sibling;
    }
  }

  lemma ParentOf(h: Hash, level: seq<bytes>, idx: nat)
    requires idx < |level| && |level| > 1
    ensures SiblingIndex(idx) < |Padded(level)| && idx / 2 < |Parents(h, level)|
    ensures Parents(h, level)[idx / 2] ==
      var sibling := Padded(level)[SiblingIndex(idx)];
      if idx % 2 == 0 then NodeHash(h, level[idx], sibling) else NodeHash(h, sibling, level[idx])
  {
    var p, i := Padded(level), idx / 2;
    assert p[idx] == level[idx];
    if idx % 2 == 0 { assert idx == 2 * i; } else { assert idx == 2 * i + 1; }
  }

  /** Every opening verifies, for any number of leaves and any position. */
  lemma OpeningVerifies(h: Hash, leaves: seq<bytes>, index: nat)
    requires index < |leaves|
    ensures Verifies(h, Root(h, LeafLevel(h, leaves)), Opening(h, leaves, index))
  {
    WalkReachesRoot(h, LeafLevel(h, leaves), index);
  }

  // ---------- binding ----------

  predicate Framable(b: bytes) {
    |b| < Pow(256, 4)
  }

  lemma {:induction false} FrameInjective(a: seq<bytes>, b: seq<bytes>)
    requires Frame(a) == Frame(b)
    requires forall p :: p in a || p in b ==> Framable(p)
    ensures a == b
    decreases |a|
  {
    if a == [] || b == [] {
      assert |Frame(a)| == |Frame(b)|;
    } else {
      var ra, rb := a[0] + Frame(a[1..]), b[0] + Frame(b[1..]);
      assert Frame(a) == ToBytes(|a[0]|, 4) + ra && Frame(b) == ToBytes(|b[0]|, 4) + rb;
      ConcatInjective(ToBytes(|a[0]|, 4), ra, ToBytes(|b[0]|, 4), rb);
      assert a[0] in a && b[0] in b;
      ToBytesInjective(|a[0]|, |b[0]|, 4);
      ConcatInjective(a[0], Frame(a[1..]), b[0], Frame(b[1..]));
      FrameInjective(a[1..], b[1..]);
      assert a == [a[0]] + a[1..] && b == [b[0]] + b[1..];
    }
  }

  /** The framed preimage of the hash absorbed at the first step of a walk. */
  function StepInput(node: bytes, idx: int, sibling: bytes): bytes {
    Frame(if idx % 2 == 0 then [Ascii("node"), node, sibling] else [Ascii("node"), sibling, node])
  }

  lemma TagsFramable()
    ensures Framable(Ascii("leaf")) && Framable(Ascii("node"))
  {
    assert Pow(256, 4) == 256 * Pow(256, 3) && Pow(256, 3) == 256 * Pow(256, 2);
  }

  lemma StepInputInjective(a: bytes, b: bytes, idx: int, p: bytes, q: bytes)
    requires Framable(a) && Framable(b) && Framable(p) && Framable(q)
    requires StepInput(a, idx, p) == StepInput(b, idx, q)
    ensures a == b && p == q
  {
    TagsFramable();
    var tag := Ascii("node");
    if idx % 2 == 0 {
      var l, r := [tag, a, p], [tag, b, q];
      FrameInjective(l, r);
      assert l[1] == r[1] && l[2] == r[2];
    } else {
      var l, r := [tag, p, a], [tag, q, b];
      FrameInjective(l, r);
      assert l[1] == r[1] && l[2] == r[2];
    }
  }

  lemma LeafInputInjective(a: bytes, b: bytes)
    requires a != b && Framable(a) && Framable(b)
    ensures Frame([Ascii("leaf"), a]) != Frame([Ascii("leaf"), b])
  {
    TagsFramable();
    var l, r := [Ascii("leaf"), a], [Ascii("leaf"), b];
    assert l[1] == a && r[1] == b;
    if Frame(l) == Frame(r) { FrameInjective(l, r); }
  }

  /** Every input hashed along a walk. */
  function WalkInputs(h: Hash, node: bytes, idx: int, path: seq<bytes>): set<bytes>
    decreases path
  {
    if path == [] then {}
    else
      var input := StepInput(node, idx, path[0]);
      {input} + WalkInputs(h, h(input), idx / 2, path[1..])
  }

  /** Two walks of one length at one position that reach the same root are the same walk, as long
      as the hash does not collide on the inputs they hash. */
  lemma {:induction false} WalkBinding(h: Hash, a: bytes, b: bytes, idx: int, p: seq<bytes>, q: seq<bytes>)
    requires |p| == |q| && Walk(h, a, idx, p) == Walk(h, b, idx, q)
    requires InjectiveOn(h, WalkInputs(h, a, idx, p) + WalkInputs(h, b, idx, q))
    requires Digests(h) && Framable(a) && Framable(b)
    requires forall s :: s in p || s in q ==> Framable(s)
    ensures a == b && p == q
    decreases |p|
  {
    if p != [] {
      var u, v := StepInput(a, idx, p[0]), StepInput(b, idx, q[0]);
      assert Walk(h, a, idx, p) == Walk(h, h(u), idx / 2, p[1..]);
      assert Walk(h, b, idx, q) == Walk(h, h(v), idx / 2, q[1..]);
      DigestFramable(h(u));
      DigestFramable(h(v));
      WalkBinding(h, h(u), h(v), idx / 2, p[1..], q[1..]);
      assert u in WalkInputs(h, a, idx, p) && v in WalkInputs(h, b, idx, q);
      assert p[0] in p && q[0] in q;
      StepInputInjective(a, b, idx, p[0], q[0]);
      assert p == [p[0]] + p[1..] && q == [q[0]] + q[1..];
    }
  }

  lemma DigestFramable(d: bytes)
    requires |d| == 32
    ensures Framable(d)
  {
    assert Pow(256, 4) == 256 * Pow(256, 3) && Pow(256, 3) == 256 * Pow(256, 2);
  }

  function ProofInputs(h: Hash, proof: MerkleProof): set<bytes> {
    var input := Frame([Ascii("leaf"), proof.leaf]);
    {input} + WalkInputs(h, h(input), proof.index, proof.path)
  }

  lemma LeavesAreDigests(h: Hash, leaves: seq<bytes>)
    requires Digests(h)
    ensures forall b :: b in LeafLevel(h, leaves) ==> |b| == 32
  {}

  /** Two accepted proofs for one position and of one path length are equal. */
  lemma ProofBinding(h: Hash, a: MerkleProof, b: MerkleProof)
    requires Digests(h) && a.index == b.index && |a.path| == |b.path|
    requires Walk(h, LeafHash(h, a.leaf), a.index, a.path) == Walk(h, LeafHash(h, b.leaf), b.index, b.path)
    requires InjectiveOn(h, ProofInputs(h, a) + ProofInputs(h, b))
    requires Framable(a.leaf) && Framable(b.leaf)
    requires forall s :: s in a.path || s in b.path ==> Framable(s)
    ensures a == b
  {
    var x, y := Frame([Ascii("leaf"), a.leaf]), Frame([Ascii("leaf"), b.leaf]);
    DigestFramable(h(x));
    DigestFramable(h(y));
    WalkBinding(h, h(x), h(y), a.index, a.path, b.path);
    assert x in ProofInputs(h, a) && y in ProofInputs(h, b);
    if a.leaf != b.leaf { LeafInputInjective(a.leaf, b.leaf); }
  }

  lemma {:induction false} PathIsDigests(h: Hash, level: seq<bytes>, idx: nat)
    requires idx < |level| && Digests(h) && forall b :: b in level ==> |b| == 32
    ensures forall s :: s in OpenPath(h, level, idx) ==> |s| == 32 && Framable(s)
    decreases |level|
  {
    if |level| > 1 {
      PathIsDigests(h, Parents(h, level), idx / 2);
      var sibling := Padded(level)[SiblingIndex(idx)];
      assert sibling in level;
      DigestFramable(sibling);
    }
  }
}
