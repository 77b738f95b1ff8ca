/** The Merkle trees and proofs of `walrus-core`, over the ideal hash. */
module Merkle {
  import opened Arithmetic
  import opened IdealHash
  import opened PaddedTree
  import opened Wrappers

  // An empty node and the all-zero digest are different nodes with the same bytes.
  datatype Node = Empty | Digest(value: Bytes32) {
    function Bytes(): Bytes32
    {
      match this
      case Empty => Zeros()
      case Digest(value) => value
    }
  }

  datatype Error = PathLengthTooLarge | LeafIndexOutOfBounds(index: nat) | RootMismatch

  function LeafHash(leaf: seq<Octet>): Node
  {
    Digest(Hash([Raw(0)] + leaf))
  }

  function InnerHash(left: Node, right: Node): Node
  {
    Digest(Hash([Raw(1)] + left.Bytes() + right.Bytes()))
  }

  lemma LeafHashInjective(a: seq<Octet>, b: seq<Octet>)
    ensures LeafHash(a).Bytes() == LeafHash(b).Bytes() <==> a == b
    ensures LeafHash(a).Bytes() != Zeros()
  {
    HashInjective([Raw(0)] + a, [Raw(0)] + b);
    assert ([Raw(0)] + a)[1..] == a && ([Raw(0)] + b)[1..] == b;
    HashNotZeros([Raw(0)] + a);
  }

  lemma InnerHashInjective(a: Node, b: Node, c: Node, d: Node)
    ensures InnerHash(a, b).Bytes() == InnerHash(c, d).Bytes()
       <==> a.Bytes() == c.Bytes() && b.Bytes() == d.Bytes()
    ensures InnerHash(a, b).Bytes() != Zeros()
  {
    var x, y := [Raw(1)] + a.Bytes() + b.Bytes(), [Raw(1)] + c.Bytes() + d.Bytes();
    HashInjective(x, y);
    assert x[1..33] == a.Bytes() && y[1..33] == c.Bytes();
    assert x[33..] == b.Bytes() && y[33..] == d.Bytes();
    HashNotZeros(x);
  }

  // Domain separation: the prefix octet tells a leaf from an inner node.
  lemma LeafIsNotInner(leaf: seq<Octet>, left: Node, right: Node)
    ensures LeafHash(leaf).Bytes() != InnerHash(left, right).Bytes()
  {
    var x, y := [Raw(0)] + leaf, [Raw(1)] + left.Bytes() + right.Bytes();
    HashInjective(x, y);
    assert x[0] != y[0];
  }

  // What is hashed: a zero octet and the leaf, or a one and the bytes of both children.
  lemma HashedInputs(leaf: seq<Octet>, left: Node, right: Node)
    ensures forall i :: 0 <= i < 32 ==>
      LeafHash(leaf).Bytes()[i] == Out([Raw(0)] + leaf, i)
    ensures forall i :: 0 <= i < 32 ==>
      InnerHash(left, right).Bytes()[i] == Out([Raw(1)] + left.Bytes() + right.Bytes(), i)
  {
  }

  function LeafHashes(data: seq<seq<Octet>>): (r: seq<Node>)
    ensures |r| == |data|
    ensures forall i :: 0 <= i < |r| ==> r[i] == LeafHash(data[i])
  {
    seq(|data|, i requires 0 <= i < |data| => LeafHash(data[i]))
  }

  // ---------------------------------------------------------------- trees

  ghost function Root(leaves: seq<Node>): Node
  {
    TreeRoot(InnerHash, Empty, leaves)
  }

  ghost function Block(leaves: seq<Node>, height: nat, start: nat): Node
  {
    Subtree(InnerHash, Empty, leaves, height, start)
  }

  ghost function ProofPath(leaves: seq<Node>, index: nat): (path: seq<Node>)
    requires index < |leaves|
    ensures |path| == PathLength(|leaves|)
  {
    SiblingsLength(InnerHash, Empty, leaves, index);
    Siblings(InnerHash, Empty, leaves, index)
  }

  datatype MerkleTree = MerkleTree(nodes: seq<Node>, nLeaves: nat) {
    ghost predicate Over(leaves: seq<Node>)
    {
      nLeaves == |leaves| && nodes == Levels(InnerHash, Empty, leaves)
    }

    function RootNode(): Node
    {
      RootOf(Empty, nodes)
    }

    method GetProof(leafIndex: nat, ghost leaves: seq<Node>) returns (r: Result<seq<Node>, Error>)
      requires Over(leaves)
      ensures r == if leafIndex < |leaves| then Ok(ProofPath(leaves, leafIndex))
                   else Err(LeafIndexOutOfBounds(leafIndex))
    {
      if leafIndex >= nLeaves {
        return Err(LeafIndexOutOfBounds(leafIndex));
      }
      var path := ReadSiblings(InnerHash, Empty, leaves, nodes, nLeaves, leafIndex);
      return Ok(path);
    }
  }

  method BuildFromLeafHashes(leaves: seq<Node>) returns (tree: MerkleTree)
    ensures tree.Over(leaves)
    ensures tree.RootNode() == Root(leaves)
    ensures |tree.nodes| == LevelsSize(|leaves|)
  {
    var nodes := BuildNodes(InnerHash, Empty, leaves);
    tree := MerkleTree(nodes, |leaves|);
    LevelsRoot(InnerHash, Empty, leaves);
    LevelsLength(InnerHash, Empty, leaves);
  }

  method Build(data: seq<seq<Octet>>) returns (tree: MerkleTree)
    ensures tree.Over(LeafHashes(data))
    ensures tree.RootNode() == Root(LeafHashes(data))
  {
    tree := BuildFromLeafHashes(LeafHashes(data));
  }

  // ---------------------------------------------------------------- proofs

  ghost function ClimbTo(node: Node, index: nat, path: seq<Node>): Node
  {
    Climb(InnerHash, node, index, path)
  }

  // What `verify_proof` answers.
  ghost function Verdict(path: seq<Node>, root: Node, leafCount: nat, leaf: seq<Octet>, leafIndex: nat)
    : Result<(), Error>
  {
    if |path| > PathLength(leafCount) then Err(PathLengthTooLarge)
    else if leafIndex >= Pow2(|path|) then Err(LeafIndexOutOfBounds(leafIndex))
    else if ClimbTo(LeafHash(leaf), leafIndex, path) != root then Err(RootMismatch)
    else Ok(())
  }

  method ComputeRoot(path: seq<Node>, leaf: seq<Octet>, leafIndex: nat) returns (r: Result<Node, Error>)
    ensures r == if leafIndex >= Pow2(|path|) then Err(LeafIndexOutOfBounds(leafIndex))
                 else Ok(ClimbTo(LeafHash(leaf), leafIndex, path))
  {
    ShrZero(leafIndex, |path|);
    if Shr(leafIndex, |path|) != 0 {
      return Err(LeafIndexOutOfBounds(leafIndex));
    }
    var currentHash := ClimbPath(InnerHash, LeafHash(leaf), leafIndex, path);
    return Ok(currentHash);
  }

  lemma TooLong(length: nat, leafCount: nat)
    ensures length > PathLength(leafCount) <==> length > 0 && leafCount <= Pow2(length - 1)
  {
    var h := PathLength(leafCount);
    PathLengthIsLeast(leafCount);
    if length > h + 1 {
      Pow2Grows(h, length - 1);
    } else if 0 < length < h {
      Pow2Grows(length - 1, h - 1);
    }
  }

  method VerifyProof(path: seq<Node>, root: Node, leafCount: nat, leaf: seq<Octet>, leafIndex: nat)
    returns (r: Result<(), Error>)
    ensures r == Verdict(path, root, leafCount, leaf, leafIndex)
    // The path is too long when a shorter one has room for all leaves; an index out of bounds has
    // more bits than the path has nodes.
    ensures r == Err(PathLengthTooLarge) <==> |path| > 0 && leafCount <= Pow2(|path| - 1)
    ensures forall i :: r == Err(LeafIndexOutOfBounds(i)) <==>
      i == leafIndex >= Pow2(|path|) && (|path| > 0 ==> Pow2(|path| - 1) < leafCount)
  {
    TooLong(|path|, leafCount);
    if |path| > PathLength(leafCount) {
      return Err(PathLengthTooLarge);
    }
    var computed := ComputeRoot(path, leaf, leafIndex);
    match computed
    case Err(error) => return Err(error);
    case Ok(node) => return if node != root then Err(RootMismatch) else Ok(());
  }

  // ---------------------------------------------------------------- soundness

  ghost predicate SameBytes(p: seq<Node>, q: seq<Node>)
  {
    |p| == |q| && forall k :: 0 <= k < |p| ==> p[k].Bytes() == q[k].Bytes()
  }

  lemma TurnBytes(x: Node, s: Node, y: Node, t: Node, index: nat)
    ensures Turn(InnerHash, x, s, index).Bytes() == Turn(InnerHash, y, t, index).Bytes()
       <==> x.Bytes() == y.Bytes() && s.Bytes() == t.Bytes()
    ensures Turn(InnerHash, x, s, index).Bytes() != Zeros()
    ensures Turn(InnerHash, x, s, index).Digest?
  {
    InnerHashInjective(x, s, y, t);
    InnerHashInjective(s, x, t, y);
  }

  // Where a climb ends determines where it began and every node on the way.
  lemma {:induction false} ClimbInjective(x: Node, p: seq<Node>, y: Node, q: seq<Node>, index: nat)
    requires |p| == |q|
    ensures ClimbTo(x, index, p).Bytes() == ClimbTo(y, index, q).Bytes() <==> x.Bytes() == y.Bytes() && SameBytes(p, q)
  {
    if p != [] {
      var k := |p| - 1;
      ClimbInjective(x, p[..k], y, q[..k], index);
      TurnBytes(ClimbTo(x, index, p[..k]), p[k], ClimbTo(y, index, q[..k]), q[k], Shr(index, k));
      assert SameBytes(p, q) <==> SameBytes(p[..k], q[..k]) && p[k].Bytes() == q[k].Bytes();
    }
  }

  lemma ClimbIsDigest(leaf: seq<Octet>, index: nat, path: seq<Node>)
    ensures ClimbTo(LeafHash(leaf), index, path).Digest?
    ensures ClimbTo(LeafHash(leaf), index, path).Bytes() != Zeros()
  {
    LeafHashInjective(leaf, leaf);
    if path != [] {
      var k := |path| - 1;
      var x := ClimbTo(LeafHash(leaf), index, path[..k]);
      TurnBytes(x, path[k], x, path[k], Shr(index, k));
    }
  }

  lemma LeafMeetsBlock(leaf: seq<Octet>, leaves: seq<Node>, height: nat, start: nat)
    requires LeafHash(leaf).Bytes() == Block(leaves, height, start).Bytes()
    ensures height == 0 && start < |leaves|
  {
    LeafHashInjective(leaf, leaf);
    if height > 0 && start < |leaves| {
      LeafIsNotInner(leaf, Block(leaves, height - 1, start), Block(leaves, height - 1, start + Pow2(height - 1)));
    }
  }

  lemma TurnMeetsBlock(x: Node, sibling: Node, index: nat, leaves: seq<Node>, height: nat, start: nat)
    requires height > 0
    requires Turn(InnerHash, x, sibling, index).Bytes() == Block(leaves, height, start).Bytes()
    ensures x.Bytes()
         == Block(leaves, height - 1, start + if index % 2 == 1 then Pow2(height - 1) else 0).Bytes()
  {
    var left, right := Block(leaves, height - 1, start), Block(leaves, height - 1, start + Pow2(height - 1));
    if index % 2 == 0 {
      InnerHashInjective(x, sibling, left, right);
    } else {
      InnerHashInjective(sibling, x, left, right);
    }
  }

  // A climb from a leaf that meets the root of a subtree at least as high as the path is
  // long spans that subtree exactly, and began at the leaf at the climbed position.
  lemma {:induction false} LeafClimb(leaf: seq<Octet>, index: nat, path: seq<Node>,
                                     leaves: seq<Node>, height: nat, start: nat)
    requires |path| <= height
    requires ClimbTo(LeafHash(leaf), index, path).Bytes() == Block(leaves, height, start).Bytes()
    ensures |path| == height
    ensures start + Low(index, height) < |leaves|
    ensures LeafHash(leaf).Bytes() == leaves[start + Low(index, height)].Bytes()
    decreases height
  {
    if path == [] {
      LeafMeetsBlock(leaf, leaves, height, start);
    } else {
      var k := |path| - 1;
      var side := if Shr(index, k) % 2 == 1 then Pow2(height - 1) else 0;
      TurnMeetsBlock(ClimbTo(LeafHash(leaf), index, path[..k]), path[k], Shr(index, k), leaves, height, start);
      LeafClimb(leaf, index, path[..k], leaves, height - 1, start + side);
    }
  }

  lemma HonestPathClimbs(leaves: seq<Node>, index: nat)
    requires index < |leaves|
    ensures ClimbTo(leaves[index], index, ProofPath(leaves, index)) == Root(leaves)
  {
    ClimbSiblings(InnerHash, Empty, leaves, index);
    LevelsRoot(InnerHash, Empty, leaves);
  }

  lemma IndexFits(leaves: seq<Node>, index: nat)
    requires index < |leaves|
    ensures index < Pow2(PathLength(|leaves|))
  {
    PathLengthIsLeast(|leaves|);
  }

  // Over arbitrary leaf nodes: a proof is accepted exactly when it is, byte for byte, the
  // path of an existing position whose node is the hash of the claimed leaf.
  lemma AcceptedExactly(leaves: seq<Node>, root: Node, leaf: seq<Octet>, index: nat, path: seq<Node>)
    requires root.Digest? && root.Bytes() == Root(leaves).Bytes()
    ensures Verdict(path, root, |leaves|, leaf, index).Ok?
       <==> && index < |leaves|
            && LeafHash(leaf).Bytes() == leaves[index].Bytes()
            && SameBytes(path, ProofPath(leaves, index))
  {
    var h, top := PathLength(|leaves|), ClimbTo(LeafHash(leaf), index, path);
    ClimbIsDigest(leaf, index, path);
    if Verdict(path, root, |leaves|, leaf, index).Ok? {
      LeafClimb(leaf, index, path, leaves, h, 0);
      ShrZero(index, h);
      assert Low(index, h) == index;
    }
    if index < |leaves| {
      HonestPathClimbs(leaves, index);
      IndexFits(leaves, index);
      if |path| == h {
        ClimbInjective(LeafHash(leaf), path, leaves[index], ProofPath(leaves, index), index);
      }
    }
  }

  // Soundness and completeness of proofs against the tree of the given data.
  lemma ProofSound(data: seq<seq<Octet>>, leaf: seq<Octet>, index: nat, path: seq<Node>)
    ensures Verdict(path, Root(LeafHashes(data)), |data|, leaf, index).Ok?
       <==> && index < |data|
            && leaf == data[index]
            && SameBytes(path, ProofPath(LeafHashes(data), index))
  {
    var leaves := LeafHashes(data);
    if data == [] {
      ClimbIsDigest(leaf, index, path);
    } else {
      HonestPathClimbs(leaves, 0);
      ClimbIsDigest(data[0], 0, ProofPath(leaves, 0));
      AcceptedExactly(leaves, Root(leaves), leaf, index, path);
      if index < |data| {
        LeafHashInjective(leaf, data[index]);
      }
    }
  }

  // ---------------------------------------------------------------- binding of the root

  lemma {:induction false} BlockBinds(a: seq<Node>, b: seq<Node>, height: nat, start: nat)
    requires |a| == |b| && Block(a, height, start).Bytes() == Block(b, height, start).Bytes()
    ensures forall j :: start <= j < start + Pow2(height) && j < |a| ==> a[j].Bytes() == b[j].Bytes()
  {
    if start < |a| && height > 0 {
      var mid := start + Pow2(height - 1);
      InnerHashInjective(Block(a, height - 1, start), Block(a, height - 1, mid),
                         Block(b, height - 1, start), Block(b, height - 1, mid));
      BlockBinds(a, b, height - 1, start);
      BlockBinds(a, b, height - 1, mid);
    }
  }

  // Over arbitrary leaf nodes, the root and the leaf count determine the bytes of every leaf.
  lemma RootBinds(a: seq<Node>, b: seq<Node>)
    requires |a| == |b| && Root(a).Bytes() == Root(b).Bytes()
    ensures SameBytes(a, b)
  {
    PathLengthIsLeast(|a|);
    BlockBinds(a, b, PathLength(|a|), 0);
  }

  ghost predicate SameAt(a: seq<seq<Octet>>, i: nat, b: seq<seq<Octet>>, j: nat, k: nat)
  {
    (i + k < |a| <==> j + k < |b|) && (i + k < |a| ==> a[i + k] == b[j + k])
  }

  // The data below two blocks of leaf hashes agree, position by position and in extent.
  ghost predicate SameSpan(a: seq<seq<Octet>>, i: nat, b: seq<seq<Octet>>, j: nat, length: nat)
  {
    forall k: nat :: k < length ==> SameAt(a, i, b, j, k)
  }

  lemma JoinSpans(a: seq<seq<Octet>>, i: nat, b: seq<seq<Octet>>, j: nat, half: nat)
    requires SameSpan(a, i, b, j, half) && SameSpan(a, i + half, b, j + half, half)
    ensures SameSpan(a, i, b, j, 2 * half)
  {
    forall k: nat | k < 2 * half
      ensures SameAt(a, i, b, j, k)
    {
      if k >= half {
        assert SameAt(a, i + half, b, j + half, k - half);
      }
    }
  }

  lemma JoinHalves(a: seq<seq<Octet>>, i: nat, b: seq<seq<Octet>>, j: nat, h: nat)
    requires SameSpan(a, i, b, j, Pow2(h)) && SameSpan(a, i + Pow2(h), b, j + Pow2(h), Pow2(h))
    ensures SameSpan(a, i, b, j, Pow2(h + 1))
  {
    JoinSpans(a, i, b, j, Pow2(h));
  }

  lemma SpansEqual(a: seq<seq<Octet>>, b: seq<seq<Octet>>, length: nat)
    requires |a| <= length && |b| <= length && SameSpan(a, 0, b, 0, length)
    ensures a == b
  {
    forall k: nat | k < length
      ensures (k < |a| <==> k < |b|) && (k < |a| ==> a[k] == b[k])
    {
      assert SameAt(a, 0, b, 0, k);
    }
    if |a| < length {
      assert SameAt(a, 0, b, 0, |a|);
    }
    if |b| < length {
      assert SameAt(a, 0, b, 0, |b|);
    }
  }

  lemma EmptyBlock(data: seq<seq<Octet>>, height: nat, start: nat)
    ensures Block(LeafHashes(data), height, start).Bytes() == Zeros() <==> start >= |data|
  {
    var leaves := LeafHashes(data);
    if start < |data| {
      if height == 0 {
        LeafHashInjective(data[start], data[start]);
      } else {
        var l, r := Block(leaves, height - 1, start), Block(leaves, height - 1, start + Pow2(height - 1));
        InnerHashInjective(l, r, l, r);
      }
    }
  }

  // A leaf hash meets a block of leaf hashes only at a leaf.
  lemma LeafMeetsLeafBlock(leaf: seq<Octet>, data: seq<seq<Octet>>, height: nat, start: nat)
    requires LeafHash(leaf).Bytes() == Block(LeafHashes(data), height, start).Bytes()
    ensures height == 0 && start < |data| && data[start] == leaf
  {
    LeafMeetsBlock(leaf, LeafHashes(data), height, start);
    LeafHashInjective(leaf, data[start]);
  }

  lemma HalvesMeet(a: seq<Node>, h: nat, i: nat, b: seq<Node>, g: nat, j: nat)
    requires i < |a| && j < |b|
    requires Block(a, h + 1, i).Bytes() == Block(b, g + 1, j).Bytes()
    ensures Block(a, h, i).Bytes() == Block(b, g, j).Bytes()
    ensures Block(a, h, i + Pow2(h)).Bytes() == Block(b, g, j + Pow2(g)).Bytes()
  {
    InnerHashInjective(Block(a, h, i), Block(a, h, i + Pow2(h)), Block(b, g, j), Block(b, g, j + Pow2(g)));
  }

  lemma EmptySpans(a: seq<seq<Octet>>, i: nat, b: seq<seq<Octet>>, j: nat, length: nat)
    requires i >= |a| && j >= |b|
    ensures SameSpan(a, i, b, j, length)
  {
  }

  lemma LeafBindsBlock(a: seq<seq<Octet>>, i: nat, b: seq<seq<Octet>>, g: nat, j: nat)
    requires i < |a| && Block(LeafHashes(a), 0, i).Bytes() == Block(LeafHashes(b), g, j).Bytes()
    ensures g == 0 && SameSpan(a, i, b, j, Pow2(0))
  {
    LeafMeetsLeafBlock(a[i], b, g, j);
  }

  lemma {:induction false} LeafBlocksBind(a: seq<seq<Octet>>, h: nat, i: nat, b: seq<seq<Octet>>, g: nat, j: nat)
    requires i < |a| && j < |b|
    requires Block(LeafHashes(a), h, i).Bytes() == Block(LeafHashes(b), g, j).Bytes()
    ensures h == g && SameSpan(a, i, b, j, Pow2(h))
    decreases h, 0
  {
    hide Block, SameSpan, LeafHashes;
    if h == 0 {
      LeafBindsBlock(a, i, b, g, j);
    } else if g == 0 {
      LeafBindsBlock(b, j, a, h, i);
    } else {
      var m := h - 1;
      HalvesMeet(LeafHashes(a), m, i, LeafHashes(b), g - 1, j);
      LeafBlocksBind(a, m, i, b, g - 1, j);
      assert g - 1 == m;
      EqualBlocksBind(a, i + Pow2(m), b, j + Pow2(m), m);
      JoinHalves(a, i, b, j, m);
    }
  }

  lemma {:induction false} EqualBlocksBind(a: seq<seq<Octet>>, i: nat, b: seq<seq<Octet>>, j: nat, h: nat)
    requires Block(LeafHashes(a), h, i).Bytes() == Block(LeafHashes(b), h, j).Bytes()
    ensures SameSpan(a, i, b, j, Pow2(h))
    decreases h, 1
  {
    EmptyBlock(a, h, i);
    EmptyBlock(b, h, j);
    if i < |a| {
      LeafBlocksBind(a, h, i, b, h, j);
    } else {
      EmptySpans(a, i, b, j, Pow2(h));
    }
  }

  // Whatever their leaf counts, data with the same root are the same data.
  lemma RootBindsData(a: seq<seq<Octet>>, b: seq<seq<Octet>>)
    ensures Root(LeafHashes(a)).Bytes() == Root(LeafHashes(b)).Bytes() <==> a == b
  {
    var h, g := PathLength(|a|), PathLength(|b|);
    EmptyBlock(a, h, 0);
    EmptyBlock(b, g, 0);
    if Root(LeafHashes(a)).Bytes() == Root(LeafHashes(b)).Bytes() && a != [] {
      LeafBlocksBind(a, h, 0, b, g, 0);
      PathLengthIsLeast(|a|);
      PathLengthIsLeast(|b|);
      SpansEqual(a, b, Pow2(h));
    }
  }
}
