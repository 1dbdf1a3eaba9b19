/** The Merkle tree builder of merkle_tree/main.go: node hashing, the
    bottom-up level-by-level construction with last-node duplication and
    swapped sibling order, structural comparison and root-hash equality.
    SHA-256 is a parameter `H` of every operation that hashes. */
module Merkle {
  import opened Hex

  /** A SHA-256 output: 32 bytes. */
  type Digest = s: seq<byte> | |s| == 32 witness seq(32, i => 0)

  /** The hash function (SHA-256 in the source), left uninterpreted. */
  type HashFunction = seq<byte> -> Digest

  datatype Option<T> = None | Some(value: T)

  /** A `*MerkleNode`: `Nil` is Go's nil pointer. A duplicated node is the
      same value stored twice. */
  datatype MerkleNode = Nil | Node(left: MerkleNode, right: MerkleNode, hash: seq<byte>)

  /** A `MerkleTree` without its creation time. */
  datatype MerkleTree = MerkleTree(root: MerkleNode, fileCount: nat, rootHash: string)

  /** The bytes a present node contributes to its parent's hash input. */
  function HashOf(n: MerkleNode): seq<byte>
  {
    if n.Nil? then [] else n.hash
  }

  // ---------------------------------------------------------------------
  // Node hashing

  /** The node `NewMerkleNode(left, right, data)` returns. */
  function MakeNode(H: HashFunction, left: MerkleNode, right: MerkleNode, data: seq<byte>): MerkleNode
  {
    Node(left, right, H(HashOf(left) + HashOf(right) + data))
  }

  /** A leaf wraps one input and has no children. */
  function Leaf(H: HashFunction, d: seq<byte>): MerkleNode
  {
    MakeNode(H, Nil, Nil, d)
  }

  /** An internal node built without data. */
  function Parent(H: HashFunction, left: MerkleNode, right: MerkleNode): MerkleNode
  {
    MakeNode(H, left, right, [])
  }

  /** Feeds the hasher, in order, the left child's hash, the right child's
      hash and the data, each only when present. Go's nil data and empty
      data write the same (no) bytes, so `data` is a plain sequence. */
  method NewMerkleNode(H: HashFunction, left: MerkleNode, right: MerkleNode, data: seq<byte>)
    returns (n: MerkleNode)
    ensures n.Node? && n.left == left && n.right == right
    ensures n.hash == H(HashOf(left) + HashOf(right) + data)
    ensures left == Nil && right == Nil ==> n.hash == H(data)
    ensures left.Node? && right.Node? && data == [] ==> n.hash == H(left.hash + right.hash)
  {
    var written: seq<byte> := [];
    if left != Nil {
      written := written + left.hash;
    }
    if right != Nil {
      written := written + right.hash;
    }
    written := written + data;
    assert written == HashOf(left) + HashOf(right) + data;
    assert left == Nil && right == Nil ==> written == data;
    assert left.Node? && right.Node? && data == [] ==> written == left.hash + right.hash;
    n := Node(left, right, H(written));
  }

  // ---------------------------------------------------------------------
  // Levels: the specification of buildMerkleTree

  /** The first level: one leaf per input, in input order. */
  function Leaves(H: HashFunction, data: seq<seq<byte>>): seq<MerkleNode>
  {
    seq(|data|, k requires 0 <= k < |data| => Leaf(H, data[k]))
  }

  /** The first level's duplication: an odd level gets its last node again. */
  function PadFirst(level: seq<MerkleNode>): (r: seq<MerkleNode>)
    ensures |r| % 2 == 0
    ensures |level| > 0 ==> |r| > 0
  {
    if |level| % 2 != 0 then level + [level[|level| - 1]] else level
  }

  /** One pass of pairing: pair k of the level is (level[2k], level[2k+1]),
      and its parent takes level[2k+1] as LEFT child and level[2k] as RIGHT. */
  function PairLevel(H: HashFunction, level: seq<MerkleNode>): seq<MerkleNode>
  {
    seq(|level| / 2, k requires 0 <= k < |level| / 2 => Parent(H, level[2 * k + 1], level[2 * k]))
  }

  /** The level after one iteration of the outer loop: the pairs' parents,
      with the last one duplicated when there is an odd number of them
      greater than one. */
  function NextLevel(H: HashFunction, level: seq<MerkleNode>): (r: seq<MerkleNode>)
    ensures |r| % 2 == 0 || |r| == 1
    ensures |level| > 1 ==> 0 < |r| < |level|
  {
    var p := PairLevel(H, level);
    if |p| % 2 != 0 && |p| > 1 then p + [p[|p| - 1]] else p
  }

  /** Iterates NextLevel while more than one node remains. */
  function Reduce(H: HashFunction, level: seq<MerkleNode>): (r: seq<MerkleNode>)
    ensures |level| == 0 ==> r == []
    ensures |level| > 0 ==> |r| == 1
    decreases |level|
  {
    if |level| > 1 then Reduce(H, NextLevel(H, level)) else level
  }

  /** What buildMerkleTree returns, `None` for nil. */
  function BuildTree(H: HashFunction, data: seq<seq<byte>>): Option<MerkleTree>
  {
    var top := Reduce(H, PadFirst(Leaves(H, data)));
    if |top| == 0 then None
    else
      var root := top[0];
      Some(MerkleTree(root, |data|, if root.Node? then Encode(root.hash) else ""))
  }

  /** The inner loop of buildMerkleTree: for i = 1, 3, 5, ... the parent
      of nodes[i] (left) and nodes[i-1] (right). */
  method PairNodes(H: HashFunction, nodes: seq<MerkleNode>) returns (newNodes: seq<MerkleNode>)
    ensures newNodes == PairLevel(H, nodes)
    ensures |newNodes| == |nodes| / 2
    ensures forall k :: 0 <= k < |newNodes| ==>
      && newNodes[k].Node?
      && newNodes[k].left == nodes[2 * k + 1]
      && newNodes[k].right == nodes[2 * k]
      && newNodes[k].hash == H(HashOf(nodes[2 * k + 1]) + HashOf(nodes[2 * k]))
  {
    newNodes := [];
    var i := 1;
    while i < |nodes|
      invariant 1 <= i <= |nodes| + 1 && i % 2 == 1
      invariant |newNodes| == i / 2
      invariant forall k :: 0 <= k < |newNodes| ==> newNodes[k] == Parent(H, nodes[2 * k + 1], nodes[2 * k])
    {
      var parent := NewMerkleNode(H, nodes[i], nodes[i - 1], []);
      newNodes := newNodes + [parent];
      i := i + 2;
    }
    forall k | 0 <= k < |newNodes|
      ensures newNodes[k].hash == H(HashOf(nodes[2 * k + 1]) + HashOf(nodes[2 * k]))
    {
      assert HashOf(nodes[2 * k + 1]) + HashOf(nodes[2 * k]) + [] == HashOf(nodes[2 * k + 1]) + HashOf(nodes[2 * k]);
    }
  }

  /** buildMerkleTree: wrap every input in a leaf, duplicate an odd last
      leaf, then pair level by level until one node is left. */
  method BuildMerkleTree(H: HashFunction, data: seq<seq<byte>>) returns (tree: Option<MerkleTree>)
    ensures tree == BuildTree(H, data)
  {
    var nodes: seq<MerkleNode> := [];
    for j := 0 to |data|
      invariant |nodes| == j
      invariant forall k :: 0 <= k < j ==> nodes[k] == Leaf(H, data[k])
    {
      var leaf := NewMerkleNode(H, Nil, Nil, data[j]);
      assert leaf == Leaf(H, data[j]);
      nodes := nodes + [leaf];
    }
    assert nodes == Leaves(H, data);

    if |nodes| % 2 != 0 {
      nodes := nodes + [nodes[|nodes| - 1]];
    }
    ghost var first := nodes;
    assert first == PadFirst(Leaves(H, data));

    while |nodes| > 1
      invariant |nodes| % 2 == 0 || |nodes| == 1
      invariant Reduce(H, nodes) == Reduce(H, first)
      decreases |nodes|
    {
      var newNodes := PairNodes(H, nodes);
      if |newNodes| % 2 != 0 && |newNodes| > 1 {
        newNodes := newNodes + [newNodes[|newNodes| - 1]];
      }
      nodes := newNodes;
    }

    if |nodes| == 0 {
      return None;
    }
    var root := nodes[0];
    tree := Some(MerkleTree(root, |data|, if root.Node? then Encode(root.hash) else ""));
  }

  // ---------------------------------------------------------------------
  // Properties of the built tree

  /** No tree exactly for no input; otherwise the tree counts every input
      and its RootHash is the 64-character hex text of a 32-byte root hash. */
  lemma BuildTreeShape(H: HashFunction, data: seq<seq<byte>>)
    ensures BuildTree(H, data).None? <==> |data| == 0
    ensures BuildTree(H, data).Some? ==>
      var t := BuildTree(H, data).value;
      && t.root.Node?
      && t.fileCount == |data|
      && |t.root.hash| == 32
      && t.rootHash == Encode(t.root.hash)
      && |t.rootHash| == 64
  {
    if |data| > 0 {
      BuildTreeSound(H, data);
    }
  }

  /** A node is consistent with the inputs when it is one of their leaves,
      or an internal node with two present children, both consistent, whose
      hash is H(left.hash ++ right.hash). */
  ghost predicate Consistent(H: HashFunction, n: MerkleNode, data: seq<seq<byte>>)
  {
    match n
    case Nil => false
    case Node(l, r, h) =>
      if l == Nil && r == Nil then n in Leaves(H, data)
      else l.Node? && r.Node? && h == H(l.hash + r.hash)
           && Consistent(H, l, data) && Consistent(H, r, data)
  }

  /** The leaves a node covers. */
  ghost function LeafSet(n: MerkleNode): set<MerkleNode>
  {
    match n
    case Nil => {}
    case Node(l, r, _) => if l == Nil && r == Nil then {n} else LeafSet(l) + LeafSet(r)
  }

  /** The leaves the nodes of a level cover together. */
  ghost function LevelLeaves(level: seq<MerkleNode>): set<MerkleNode>
  {
    set k, x | 0 <= k < |level| && x in LeafSet(level[k]) :: x
  }

  ghost predicate ConsistentLevel(H: HashFunction, level: seq<MerkleNode>, data: seq<seq<byte>>)
  {
    forall k :: 0 <= k < |level| ==> Consistent(H, level[k], data)
  }

  lemma ConsistentHash(H: HashFunction, n: MerkleNode, data: seq<seq<byte>>)
    requires Consistent(H, n, data)
    ensures n.Node? && |n.hash| == 32
  {
    if n.left == Nil && n.right == Nil {
      var k :| 0 <= k < |data| && Leaves(H, data)[k] == n;
    }
  }

  lemma LeavesConsistent(H: HashFunction, data: seq<seq<byte>>)
    ensures ConsistentLevel(H, Leaves(H, data), data)
    ensures LevelLeaves(Leaves(H, data)) == set k | 0 <= k < |data| :: Leaf(H, data[k])
  {
    var level := Leaves(H, data);
    var want := set k | 0 <= k < |data| :: Leaf(H, data[k]);
    forall k | 0 <= k < |level| ensures Consistent(H, level[k], data) && LeafSet(level[k]) == {level[k]} {
      assert level[k] in level;
    }
    forall x | x in LevelLeaves(level) ensures x in want {
      var k :| 0 <= k < |level| && x in LeafSet(level[k]);
      assert x == level[k] == Leaf(H, data[k]);
    }
    forall x | x in want ensures x in LevelLeaves(level) {
      var k :| 0 <= k < |data| && x == Leaf(H, data[k]);
      assert x in LeafSet(level[k]);
    }
  }

  lemma PadFirstKeeps(H: HashFunction, level: seq<MerkleNode>, data: seq<seq<byte>>)
    requires ConsistentLevel(H, level, data)
    ensures ConsistentLevel(H, PadFirst(level), data)
    ensures LevelLeaves(PadFirst(level)) == LevelLeaves(level)
  {
    var p := PadFirst(level);
    forall x | x in LevelLeaves(p) ensures x in LevelLeaves(level) {
      var k :| 0 <= k < |p| && x in LeafSet(p[k]);
      var j := if k < |level| then k else |level| - 1;
      assert p[k] == level[j];
    }
    forall x | x in LevelLeaves(level) ensures x in LevelLeaves(p) {
      var k :| 0 <= k < |level| && x in LeafSet(level[k]);
      assert p[k] == level[k];
    }
  }

  /** Pairing an even level keeps every node consistent and loses no leaf. */
  lemma PairLevelKeeps(H: HashFunction, level: seq<MerkleNode>, data: seq<seq<byte>>)
    requires |level| % 2 == 0
    requires ConsistentLevel(H, level, data)
    ensures ConsistentLevel(H, PairLevel(H, level), data)
    ensures LevelLeaves(PairLevel(H, level)) == LevelLeaves(level)
  {
    var p := PairLevel(H, level);
    forall j | 0 <= j < |p|
      ensures Consistent(H, p[j], data)
      ensures LeafSet(p[j]) == LeafSet(level[2 * j + 1]) + LeafSet(level[2 * j])
    {
      var l, r := level[2 * j + 1], level[2 * j];
      ConsistentHash(H, l, data);
      ConsistentHash(H, r, data);
      assert HashOf(l) + HashOf(r) + [] == l.hash + r.hash;
      assert p[j] == Node(l, r, H(l.hash + r.hash));
    }
    forall x | x in LevelLeaves(p) ensures x in LevelLeaves(level) {
      var j :| 0 <= j < |p| && x in LeafSet(p[j]);
      if x in LeafSet(level[2 * j + 1]) {
        assert x in LevelLeaves(level);
      } else {
        assert x in LeafSet(level[2 * j]);
      }
    }
    forall x | x in LevelLeaves(level) ensures x in LevelLeaves(p) {
      var k :| 0 <= k < |level| && x in LeafSet(level[k]);
      var j := k / 2;
      assert k == 2 * j || k == 2 * j + 1;
      assert x in LeafSet(p[j]);
    }
  }

  lemma NextLevelKeeps(H: HashFunction, level: seq<MerkleNode>, data: seq<seq<byte>>)
    requires |level| % 2 == 0
    requires ConsistentLevel(H, level, data)
    ensures ConsistentLevel(H, NextLevel(H, level), data)
    ensures LevelLeaves(NextLevel(H, level)) == LevelLeaves(level)
  {
    var p := PairLevel(H, level);
    PairLevelKeeps(H, level, data);
    if |p| % 2 != 0 && |p| > 1 {
      PadFirstKeeps(H, p, data);
      assert NextLevel(H, level) == PadFirst(p);
    }
  }

  lemma {:induction false} ReduceKeeps(H: HashFunction, level: seq<MerkleNode>, data: seq<seq<byte>>)
    requires |level| % 2 == 0 || |level| == 1
    requires ConsistentLevel(H, level, data)
    ensures ConsistentLevel(H, Reduce(H, level), data)
    ensures LevelLeaves(Reduce(H, level)) == LevelLeaves(level)
    decreases |level|
  {
    if |level| > 1 {
      NextLevelKeeps(H, level, data);
      ReduceKeeps(H, NextLevel(H, level), data);
    }
  }

  /** For non-empty input the root is an internal-or-leaf node whose every
      internal node hashes its two children (left first), whose leaves are
      leaves of the inputs, and which covers every input's leaf. */
  lemma BuildTreeSound(H: HashFunction, data: seq<seq<byte>>)
    requires |data| > 0
    ensures BuildTree(H, data).Some?
    ensures var t := BuildTree(H, data).value;
      && Consistent(H, t.root, data)
      && LeafSet(t.root) == (set k | 0 <= k < |data| :: Leaf(H, data[k]))
      && t.root.Node? && |t.root.hash| == 32
  {
    var level := PadFirst(Leaves(H, data));
    LeavesConsistent(H, data);
    PadFirstKeeps(H, Leaves(H, data), data);
    ReduceKeeps(H, level, data);
    var top := Reduce(H, level);
    assert |top| == 1;
    ConsistentHash(H, top[0], data);
    forall x ensures x in LevelLeaves(top) <==> x in LeafSet(top[0]) {
      if x in LevelLeaves(top) {
        var k :| 0 <= k < |top| && x in LeafSet(top[k]);
      }
    }
  }

  /** One input: the level [L] is padded to [L, L], so the root is a parent
      with L on both sides and hash H(H(d) ++ H(d)), not the leaf itself. */
  lemma SingleInput(H: HashFunction, d: seq<byte>)
    ensures var L := Leaf(H, d);
      && L == Node(Nil, Nil, H(d))
      && BuildTree(H, [d]) == Some(MerkleTree(Node(L, L, H(H(d) + H(d))), 1, Encode(H(H(d) + H(d)))))
  {
    var L := Leaf(H, d);
    assert HashOf(Nil) + HashOf(Nil) + d == d;
    assert Leaves(H, [d]) == [L];
    assert PadFirst([L]) == [L, L];
    var P := Parent(H, L, L);
    assert HashOf(L) + HashOf(L) + [] == H(d) + H(d);
    assert PairLevel(H, [L, L]) == [P];
    assert NextLevel(H, [L, L]) == [P];
    assert Reduce(H, [L, L]) == Reduce(H, [P]) == [P];
  }

  /** Three inputs: [L1, L2, L3] becomes [L1, L2, L3, L3], then
      [A, B] with A = (L2, L1) and B = (L3, L3), then the root (B, A). */
  lemma ThreeInputs(H: HashFunction, d1: seq<byte>, d2: seq<byte>, d3: seq<byte>)
    ensures var L1, L2, L3 := Leaf(H, d1), Leaf(H, d2), Leaf(H, d3);
      var A, B := Parent(H, L2, L1), Parent(H, L3, L3);
      && BuildTree(H, [d1, d2, d3]).Some?
      && BuildTree(H, [d1, d2, d3]).value.root == Parent(H, B, A)
      && A.hash == H(H(d2) + H(d1))
      && B.hash == H(H(d3) + H(d3))
      && Parent(H, B, A).hash == H(B.hash + A.hash)
  {
    var L1, L2, L3 := Leaf(H, d1), Leaf(H, d2), Leaf(H, d3);
    var A, B := Parent(H, L2, L1), Parent(H, L3, L3);
    assert Leaves(H, [d1, d2, d3]) == [L1, L2, L3];
    assert PadFirst([L1, L2, L3]) == [L1, L2, L3, L3];
    assert PairLevel(H, [L1, L2, L3, L3]) == [A, B];
    assert NextLevel(H, [L1, L2, L3, L3]) == [A, B];
    assert PairLevel(H, [A, B]) == [Parent(H, B, A)];
    assert NextLevel(H, [A, B]) == [Parent(H, B, A)];
    assert Reduce(H, [L1, L2, L3, L3]) == Reduce(H, [A, B]) == [Parent(H, B, A)];
    assert HashOf(Nil) + HashOf(Nil) + d2 == d2;
    assert HashOf(Nil) + HashOf(Nil) + d1 == d1;
    assert HashOf(Nil) + HashOf(Nil) + d3 == d3;
    assert HashOf(L2) + HashOf(L1) + [] == H(d2) + H(d1);
    assert HashOf(L3) + HashOf(L3) + [] == H(d3) + H(d3);
    assert HashOf(B) + HashOf(A) + [] == B.hash + A.hash;
  }

  /** Order matters: for two inputs whose leaf hashes differ, the byte
      strings hashed at the roots of the trees for [a, b] and [b, a] differ,
      so only a collision of H could give them the same root hash. */
  lemma TwoInputsOrderSensitive(H: HashFunction, a: seq<byte>, b: seq<byte>)
    requires H(a) != H(b)
    ensures BuildTree(H, [a, b]).Some? && BuildTree(H, [b, a]).Some?
    ensures var r1, r2 := BuildTree(H, [a, b]).value.root, BuildTree(H, [b, a]).value.root;
      && r1.Node? && r1.hash == H(H(b) + H(a))
      && r2.Node? && r2.hash == H(H(a) + H(b))
      && H(b) + H(a) != H(a) + H(b)
  {
    forall x, y | x != y
      ensures Reduce(H, PadFirst(Leaves(H, [x, y]))) == [Parent(H, Leaf(H, y), Leaf(H, x))]
      ensures Parent(H, Leaf(H, y), Leaf(H, x)).hash == H(H(y) + H(x))
    {
      var Lx, Ly := Leaf(H, x), Leaf(H, y);
      assert HashOf(Nil) + HashOf(Nil) + x == x;
      assert HashOf(Nil) + HashOf(Nil) + y == y;
      assert Leaves(H, [x, y]) == [Lx, Ly];
      assert PairLevel(H, [Lx, Ly]) == [Parent(H, Ly, Lx)];
      assert NextLevel(H, [Lx, Ly]) == [Parent(H, Ly, Lx)];
      assert HashOf(Ly) + HashOf(Lx) + [] == H(y) + H(x);
    }
    assert (H(b) + H(a))[..32] == H(b);
    assert (H(a) + H(b))[..32] == H(a);
  }

  /** An odd input list and the same list with its last input repeated give
      the same root: the duplication rule makes them indistinguishable by
      root hash, only FileCount differs. */
  lemma DuplicateLastInputSameRoot(H: HashFunction, data: seq<seq<byte>>)
    requires |data| % 2 == 1
    ensures BuildTree(H, data).Some? && BuildTree(H, data + [data[|data| - 1]]).Some?
    ensures var t1, t2 := BuildTree(H, data).value, BuildTree(H, data + [data[|data| - 1]]).value;
      && t1.root == t2.root
      && IsEqual(t1, t2)
      && t2.fileCount == t1.fileCount + 1
  {
    var more := data + [data[|data| - 1]];
    assert PadFirst(Leaves(H, data)) == Leaves(H, more);
    assert PadFirst(Leaves(H, more)) == Leaves(H, more);
  }

  // ---------------------------------------------------------------------
  // Comparison

  /** isEqual: compares only the RootHash strings. */
  function IsEqual(m: MerkleTree, other: MerkleTree): (eq: bool)
    ensures eq <==> m.rootHash == other.rootHash
  {
    m.rootHash == other.rootHash
  }

  /** For trees whose RootHash is the hex text of their root's hash (every
      built tree, by BuildTreeShape), equal RootHash strings mean equal root
      hash bytes and back: the hex text loses nothing. */
  lemma IsEqualIffSameRootHash(t1: MerkleTree, t2: MerkleTree)
    requires t1.root.Node? && t1.rootHash == Encode(t1.root.hash)
    requires t2.root.Node? && t2.rootHash == Encode(t2.root.hash)
    ensures IsEqual(t1, t2) <==> t1.root.hash == t2.root.hash
  {
    if IsEqual(t1, t2) {
      EncodeInjective(t1.root.hash, t2.root.hash);
    }
  }

  /** Byte-wise equality of two hashes: length first, then byte by byte. */
  method SameBytes(a: seq<byte>, b: seq<byte>) returns (same: bool)
    ensures same <==> a == b
  {
    if |a| != |b| {
      return false;
    }
    for i := 0 to |a|
      invariant a[..i] == b[..i]
    {
      if a[i] != b[i] {
        return false;
      }
      assert a[..i + 1] == a[..i] + [a[i]];
      assert b[..i + 1] == b[..i] + [b[i]];
    }
    assert a == a[..|a|] && b == b[..|b|];
    return true;
  }

  /** compareNodes: true exactly when the two trees are structurally equal
      (same hashes at the same positions, nil where the other is nil); so it
      is reflexive and symmetric. */
  method CompareNodes(a: MerkleNode, b: MerkleNode) returns (eq: bool)
    ensures eq <==> a == b
    decreases a
  {
    if a == Nil && b == Nil {
      return true;
    }
    if a == Nil || b == Nil {
      return false;
    }
    var same := SameBytes(a.hash, b.hash);
    if !same {
      return false;
    }
    eq := CompareNodes(a.left, b.left);
    if eq {
      eq := CompareNodes(a.right, b.right);
    }
  }
}
