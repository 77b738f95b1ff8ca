/** The shape of the Merkle tree of `walrus-core`, for any rule that combines two nodes: a
    flat vector of nodes, level by level, in which every level of odd width above which
    there is another level is padded with one empty node. */
module PaddedTree {
  import opened Arithmetic
  import opened Sequences

  type Combine<!T> = (T, T) -> T

  // ---------------------------------------------------------------- reference definition

  // The root of the subtree of the given height over the leaves from `start` on, where
  // leaves past the end are empty.  The levels of the flat vector do not occur here.
  ghost function Subtree<T>(inner: Combine<T>, empty: T, leaves: seq<T>, height: nat, start: nat): T
  {
    if start >= |leaves| then empty
    else if height == 0 then leaves[start]
    else inner(Subtree(inner, empty, leaves, height - 1, start),
               Subtree(inner, empty, leaves, height - 1, start + Pow2(height - 1)))
  }

  function Ilog2(n: nat): nat
    requires n > 0
  {
    if n == 1 then 0 else 1 + Ilog2(n / 2)
  }

  function PathLength(nLeaves: nat): nat
  {
    if nLeaves <= 1 then 0 else Ilog2(nLeaves - 1) + 1
  }

  lemma PathLengthStep(n: nat, half: nat)
    requires n >= 2 && half == (n + 1) / 2
    ensures PathLength(n) == 1 + PathLength(half)
  {
  }

  // The height of the tree: the least one with room for all leaves.
  lemma {:induction false} PathLengthIsLeast(n: nat)
    ensures n <= Pow2(PathLength(n))
    ensures n >= 2 ==> Pow2(PathLength(n) - 1) < n
  {
    if n > 2 {
      PathLengthStep(n, (n + 1) / 2);
      PathLengthIsLeast((n + 1) / 2);
    }
  }

  ghost function TreeRoot<T>(inner: Combine<T>, empty: T, leaves: seq<T>): T
  {
    Subtree(inner, empty, leaves, PathLength(|leaves|), 0)
  }

  // The leaves at these places are the same, or missing in both.
  ghost predicate SameLeaf<T>(a: seq<T>, i: nat, b: seq<T>, j: nat, k: nat)
  {
    (i + k < |a| <==> j + k < |b|) && (i + k < |a| ==> a[i + k] == b[j + k])
  }

  // A subtree sees only the leaves below it.
  lemma {:induction false} SameLeavesBelow<T>(inner: Combine<T>, empty: T, a: seq<T>, i: nat, b: seq<T>, j: nat,
                                              height: nat)
    requires forall k: nat :: k < Pow2(height) ==> SameLeaf(a, i, b, j, k)
    ensures Subtree(inner, empty, a, height, i) == Subtree(inner, empty, b, height, j)
    decreases height
  {
    assert SameLeaf(a, i, b, j, 0);
    if height > 0 {
      var half := Pow2(height - 1);
      var u, v := i + half, j + half;
      forall k: nat | k < half
        ensures SameLeaf(a, u, b, v, k)
      {
        assert SameLeaf(a, i, b, j, half + k);
      }
      SameLeavesBelow(inner, empty, a, i, b, j, height - 1);
      SameLeavesBelow(inner, empty, a, u, b, v, height - 1);
    }
  }

  lemma {:induction false} Pow2Grows(a: nat, b: nat)
    requires a < b
    ensures 2 * Pow2(a) <= Pow2(b)
    decreases b
  {
    if a < b - 1 {
      Pow2Grows(a, b - 1);
    }
  }

  lemma PathLengthIs(n: nat, h: nat)
    requires n <= Pow2(h) && (h > 0 ==> Pow2(h - 1) < n)
    ensures PathLength(n) == h
  {
    var p := PathLength(n);
    PathLengthIsLeast(n);
    assert Pow2(0) == 1;
    if p < h {
      if p < h - 1 {
        Pow2Grows(p, h - 1);
      }
    } else if h < p {
      if h < p - 1 {
        Pow2Grows(h, p - 1);
      }
    }
  }

  // The tree by its halves: full on the left, and on the right a subtree of the same height,
  // where what is missing is empty, half by half.
  lemma RootOfHalves<T>(inner: Combine<T>, empty: T, left: seq<T>, right: seq<T>, h: nat)
    requires |left| == Pow2(h) && 0 < |right| <= Pow2(h)
    ensures TreeRoot(inner, empty, left + right)
         == inner(TreeRoot(inner, empty, left), Subtree(inner, empty, right, h, 0))
    ensures |right| == Pow2(h) ==> Subtree(inner, empty, right, h, 0) == TreeRoot(inner, empty, right)
    ensures Subtree(inner, empty, right, h + 1, 0) == inner(Subtree(inner, empty, right, h, 0), empty)
  {
    var all := left + right;
    assert Pow2(h + 1) == 2 * Pow2(h) && Pow2(h) >= 1;
    if h > 0 {
      Pow2Grows(h - 1, h);
    }
    PathLengthIs(|all|, h + 1);
    PathLengthIs(|left|, h);
    SameLeavesBelow(inner, empty, all, 0, left, 0, h);
    SameLeavesBelow(inner, empty, all, Pow2(h), right, 0, h);
  }

  // A single leaf is its tree, and without leaves the root is empty.
  lemma SmallRoots<T>(inner: Combine<T>, empty: T, leaf: T)
    ensures TreeRoot(inner, empty, [leaf]) == leaf && TreeRoot(inner, empty, []) == empty
  {
    assert Pow2(0) == 1;
    PathLengthIs(1, 0);
  }

  // ---------------------------------------------------------------- the flat vector

  function Padded<T>(empty: T, level: seq<T>): (r: seq<T>)
    ensures |r| == |level| + |level| % 2
  {
    if |level| % 2 == 1 then level + [empty] else level
  }

  function Parents<T>(inner: Combine<T>, empty: T, level: seq<T>): (r: seq<T>)
    ensures |r| == (|level| + 1) / 2
  {
    var p := Padded(empty, level);
    seq(|p| / 2, i requires 0 <= i < |p| / 2 => inner(p[2 * i], p[2 * i + 1]))
  }

  // All levels from this one up to the root.
  ghost function Levels<T>(inner: Combine<T>, empty: T, level: seq<T>): seq<T>
    decreases |level|
  {
    if |level| <= 1 then level
    else Padded(empty, level) + Levels(inner, empty, Parents(inner, empty, level))
  }

  ghost function LevelsSize(nLeaves: nat): nat
  {
    if nLeaves <= 1 then nLeaves else nLeaves + nLeaves % 2 + LevelsSize((nLeaves + 1) / 2)
  }

  function SiblingOf(index: nat): nat
  {
    if index % 2 == 0 then index + 1 else index - 1
  }

  // The siblings met on the way from position `index` of this level to the root.
  ghost function Siblings<T>(inner: Combine<T>, empty: T, level: seq<T>, index: nat): seq<T>
    requires index < |level|
    decreases |level|
  {
    if |level| <= 1 then []
    else [Padded(empty, level)[SiblingOf(index)]]
         + Siblings(inner, empty, Parents(inner, empty, level), index / 2)
  }

  // A path starts at the neighbour of the leaf; the last leaf of an odd number has an empty one.
  lemma PathStarts<T>(inner: Combine<T>, empty: T, leaves: seq<T>, index: nat)
    requires index < |leaves| && |leaves| > 1
    ensures Siblings(inner, empty, leaves, index) != []
    ensures Siblings(inner, empty, leaves, index)[0]
         == if index % 2 == 1 then leaves[index - 1] else if index + 1 < |leaves| then leaves[index + 1] else empty
  {
    hide Parents;
  }

  function RootOf<T>(empty: T, nodes: seq<T>): T
  {
    if nodes == [] then empty else nodes[|nodes| - 1]
  }

  // `up` is the level above `leaves`.
  ghost predicate IsLevelAbove<T>(inner: Combine<T>, empty: T, leaves: seq<T>, up: seq<T>)
  {
    && |up| == (|leaves| + 1) / 2
    && forall k :: 0 <= k < |up| ==>
         up[k] == inner(Subtree(inner, empty, leaves, 0, 2 * k), Subtree(inner, empty, leaves, 0, 2 * k + 1))
  }

  // The pad of an odd level is the empty subtree.
  lemma ParentsAreAbove<T>(inner: Combine<T>, empty: T, leaves: seq<T>)
    ensures IsLevelAbove(inner, empty, leaves, Parents(inner, empty, leaves))
  {
  }

  lemma {:induction false} CollapseLevel<T>(inner: Combine<T>, empty: T, leaves: seq<T>, up: seq<T>,
                                            height: nat, start: nat)
    requires IsLevelAbove(inner, empty, leaves, up)
    ensures Subtree(inner, empty, leaves, height + 1, 2 * start) == Subtree(inner, empty, up, height, start)
  {
    if start < |up| && height > 0 {
      var mid := start + Pow2(height - 1);
      assert 2 * start + Pow2(height) == 2 * mid;
      CollapseLevel(inner, empty, leaves, up, height - 1, start);
      CollapseLevel(inner, empty, leaves, up, height - 1, mid);
    }
  }

  lemma TreeRootAbove<T>(inner: Combine<T>, empty: T, leaves: seq<T>)
    requires |leaves| >= 2
    ensures TreeRoot(inner, empty, leaves) == TreeRoot(inner, empty, Parents(inner, empty, leaves))
  {
    var up, height := Parents(inner, empty, leaves), PathLength(|leaves|);
    PathLengthStep(|leaves|, |up|);
    ParentsAreAbove(inner, empty, leaves);
    CollapseLevel(inner, empty, leaves, up, height - 1, 0);
  }

  lemma {:induction false} LevelsLength<T>(inner: Combine<T>, empty: T, leaves: seq<T>)
    ensures |Levels(inner, empty, leaves)| == LevelsSize(|leaves|)
    ensures leaves != [] ==> Levels(inner, empty, leaves) != []
    decreases |leaves|
  {
    if |leaves| >= 2 {
      LevelsLength(inner, empty, Parents(inner, empty, leaves));
    }
  }

  lemma RootAbove<T>(inner: Combine<T>, empty: T, leaves: seq<T>)
    requires |leaves| >= 2
    ensures RootOf(empty, Levels(inner, empty, leaves))
         == RootOf(empty, Levels(inner, empty, Parents(inner, empty, leaves)))
  {
  }

  // The vector holds the tree: its last node is the root of the reference definition.
  lemma {:induction false} LevelsRoot<T>(inner: Combine<T>, empty: T, leaves: seq<T>)
    ensures RootOf(empty, Levels(inner, empty, leaves)) == TreeRoot(inner, empty, leaves)
    decreases |leaves|
  {
    if |leaves| >= 2 {
      RootAbove(inner, empty, leaves);
      TreeRootAbove(inner, empty, leaves);
      LevelsRoot(inner, empty, Parents(inner, empty, leaves));
    }
  }

  lemma {:induction false} SiblingsLength<T>(inner: Combine<T>, empty: T, level: seq<T>, index: nat)
    requires index < |level|
    ensures |Siblings(inner, empty, level, index)| == PathLength(|level|)
    decreases |level|
  {
    if |level| >= 2 {
      var up := Parents(inner, empty, level);
      PathLengthStep(|level|, |up|);
      SiblingsLength(inner, empty, up, index / 2);
    }
  }

  // ---------------------------------------------------------------- climbing a path

  // The node reached from `node`, at position `index`, by combining with each node of the
  // path in turn: bit k of the index says on which side the k-th one goes.
  ghost function Climb<T>(inner: Combine<T>, node: T, index: nat, path: seq<T>): T
  {
    if path == [] then node
    else
      var k := |path| - 1;
      Turn(inner, Climb(inner, node, index, path[..k]), path[k], Shr(index, k))
  }

  function Turn<T>(inner: Combine<T>, node: T, sibling: T, index: nat): T
  {
    if index % 2 == 0 then inner(node, sibling) else inner(sibling, node)
  }

  lemma {:induction false} ClimbFromBelow<T>(inner: Combine<T>, node: T, index: nat, path: seq<T>)
    requires path != []
    ensures Climb(inner, node, index, path)
         == Climb(inner, Turn(inner, node, path[0], index), index / 2, path[1..])
  {
    var k := |path| - 1;
    if k == 0 {
      assert path[..0] == [] && path[1..] == [];
      assert Climb(inner, node, index, path[..0]) == node;
    } else {
      ClimbFromBelow(inner, node, index, path[..k]);
      assert path[..k][1..] == path[1..][..k - 1];
      ShrHalf(index, k - 1);
    }
  }

  lemma ParentByTurn<T>(inner: Combine<T>, empty: T, level: seq<T>, index: nat)
    requires index < |level| && |level| >= 2
    ensures SiblingOf(index) < |Padded(empty, level)|
    ensures Parents(inner, empty, level)[index / 2]
         == Turn(inner, level[index], Padded(empty, level)[SiblingOf(index)], index)
  {
  }

  lemma ClimbOneLevel<T>(inner: Combine<T>, empty: T, level: seq<T>, index: nat)
    requires index < |level| && |level| >= 2
    ensures Climb(inner, level[index], index, Siblings(inner, empty, level, index))
         == Climb(inner, Parents(inner, empty, level)[index / 2], index / 2,
                  Siblings(inner, empty, Parents(inner, empty, level), index / 2))
  {
    var path := Siblings(inner, empty, level, index);
    ParentByTurn(inner, empty, level, index);
    assert path[0] == Padded(empty, level)[SiblingOf(index)];
    assert path[1..] == Siblings(inner, empty, Parents(inner, empty, level), index / 2);
    ClimbFromBelow(inner, level[index], index, path);
  }

  // A node's own siblings lead to the root.
  lemma {:induction false} ClimbSiblings<T>(inner: Combine<T>, empty: T, level: seq<T>, index: nat)
    requires index < |level|
    ensures Climb(inner, level[index], index, Siblings(inner, empty, level, index))
         == RootOf(empty, Levels(inner, empty, level))
    decreases |level|
  {
    if |level| >= 2 {
      ClimbOneLevel(inner, empty, level, index);
      ClimbSiblings(inner, empty, Parents(inner, empty, level), index / 2);
      RootAbove(inner, empty, level);
    }
  }

  // ---------------------------------------------------------------- the loops

  method NNodes(nLeaves: nat) returns (total: nat)
    ensures total == LevelsSize(nLeaves)
  {
    var lvlNodes := nLeaves;
    var totNodes := 0;
    while lvlNodes > 1
      invariant totNodes + LevelsSize(lvlNodes) == LevelsSize(nLeaves)
    {
      ghost var before := lvlNodes;
      lvlNodes := lvlNodes + lvlNodes % 2;
      totNodes := totNodes + lvlNodes;
      lvlNodes := lvlNodes / 2;
      assert lvlNodes == (before + 1) / 2;
    }
    total := totNodes + lvlNodes;
  }

  lemma PaddedLength<T>(inner: Combine<T>, empty: T, level: seq<T>)
    ensures |Padded(empty, level)| == 2 * |Parents(inner, empty, level)|
    ensures Parents(inner, empty, level)[..|Parents(inner, empty, level)|] == Parents(inner, empty, level)
  {
  }

  lemma PairIsParent<T>(inner: Combine<T>, empty: T, done: seq<T>, level: seq<T>, k: nat)
    requires k < |Parents(inner, empty, level)|
    ensures var nodes := done + Padded(empty, level);
      && |done| + 2 * k + 1 < |nodes|
      && inner(nodes[|done| + 2 * k], nodes[|done| + 2 * k + 1]) == Parents(inner, empty, level)[k]
  {
    var padded := Padded(empty, level);
    assert (done + padded)[|done| + 2 * k] == padded[2 * k];
    assert (done + padded)[|done| + 2 * k + 1] == padded[2 * k + 1];
  }

  // Appends the parents of `nodes[start..end]`.
  method PushParents<T>(inner: Combine<T>, empty: T, nodes: seq<T>, start: nat, end: nat,
                        ghost done: seq<T>, ghost level: seq<T>)
    returns (r: seq<T>)
    requires start == |done| && end == |nodes|
    requires nodes == done + Padded(empty, level)
    ensures r == nodes + Parents(inner, empty, level)
  {
    hide Parents, Padded;
    r := nodes;
    var index := start;
    ghost var k: nat := 0;
    PaddedLength(inner, empty, level);
    while index < end
      invariant index == start + 2 * k <= end && k <= |Parents(inner, empty, level)|
      invariant r == nodes + Parents(inner, empty, level)[..k]
    {
      PairIsParent(inner, empty, done, level, k);
      assert r[index] == nodes[index] && r[index + 1] == nodes[index + 1];
      TakeNext(Parents(inner, empty, level), k);
      Associate(nodes, Parents(inner, empty, level)[..k], [Parents(inner, empty, level)[k]]);
      r := r + [inner(r[index], r[index + 1])];
      index := index + 2;
      k := k + 1;
    }
  }

  lemma LevelsUnfold<T>(inner: Combine<T>, empty: T, done: seq<T>, level: seq<T>)
    requires |level| > 1
    ensures done + Levels(inner, empty, level)
         == done + Padded(empty, level) + Levels(inner, empty, Parents(inner, empty, level))
  {
    hide Padded, Parents;
    Associate(done, Padded(empty, level), Levels(inner, empty, Parents(inner, empty, level)));
  }

  // `done` is complete, and the levels above it will be those of `level`.
  ghost predicate Building<T>(inner: Combine<T>, empty: T, nodes: seq<T>, all: seq<T>, done: seq<T>, level: seq<T>)
  {
    nodes == done + level && done + Levels(inner, empty, level) == all
  }

  lemma BuildStep<T>(inner: Combine<T>, empty: T, nodes: seq<T>, all: seq<T>, done: seq<T>, level: seq<T>)
    requires |level| > 1 && Building(inner, empty, nodes, all, done, level)
    ensures nodes + (if |level| % 2 == 1 then [empty] else []) == done + Padded(empty, level)
    ensures var up := Parents(inner, empty, level);
      Building(inner, empty, done + Padded(empty, level) + up, all, done + Padded(empty, level), up)
  {
    LevelsUnfold(inner, empty, done, level);
  }

  lemma BuildEnd<T>(inner: Combine<T>, empty: T, nodes: seq<T>, all: seq<T>, done: seq<T>, level: seq<T>)
    requires |level| <= 1 && Building(inner, empty, nodes, all, done, level)
    ensures nodes == all
  {
  }

  method BuildNodes<T>(inner: Combine<T>, empty: T, leaves: seq<T>) returns (nodes: seq<T>)
    ensures nodes == Levels(inner, empty, leaves)
  {
    hide Levels;
    nodes := leaves;
    var levelNodes := |nodes|;
    var prevLevelIndex := 0;
    ghost var done, level, all := [], leaves, Levels(inner, empty, leaves);
    while levelNodes > 1
      invariant |done| == prevLevelIndex && |level| == levelNodes
      invariant Building(inner, empty, nodes, all, done, level)
      decreases levelNodes
    {
      BuildStep(inner, empty, nodes, all, done, level);
      if levelNodes % 2 == 1 {
        nodes := nodes + [empty];
        levelNodes := levelNodes + 1;
      }
      var newLevelIndex := prevLevelIndex + levelNodes;
      nodes := PushParents(inner, empty, nodes, prevLevelIndex, newLevelIndex, done, level);
      done := done + Padded(empty, level);
      level := Parents(inner, empty, level);
      prevLevelIndex := newLevelIndex;
      levelNodes := levelNodes / 2;
    }
    BuildEnd(inner, empty, nodes, all, done, level);
  }

  lemma NodeOfLevel<T>(inner: Combine<T>, empty: T, done: seq<T>, level: seq<T>, index: nat)
    requires index < |level| && |level| > 1
    ensures SiblingOf(index) < |Padded(empty, level)|
    ensures |done| + SiblingOf(index) < |done + Levels(inner, empty, level)|
    ensures (done + Levels(inner, empty, level))[|done| + SiblingOf(index)] == Padded(empty, level)[SiblingOf(index)]
  {
  }

  lemma SiblingsUnfold<T>(inner: Combine<T>, empty: T, path: seq<T>, level: seq<T>, index: nat)
    requires index < |level| && |level| > 1 && SiblingOf(index) < |Padded(empty, level)|
    ensures path + Siblings(inner, empty, level, index)
         == path + [Padded(empty, level)[SiblingOf(index)]]
            + Siblings(inner, empty, Parents(inner, empty, level), index / 2)
  {
  }

  // `done` lies below `level` in the vector, and the siblings still to come extend `path`.
  ghost predicate Reading<T>(inner: Combine<T>, empty: T, nodes: seq<T>, all: seq<T>,
                             done: seq<T>, level: seq<T>, index: nat, path: seq<T>)
  {
    && index < |level|
    && nodes == done + Levels(inner, empty, level)
    && path + Siblings(inner, empty, level, index) == all
  }

  lemma ReadStep<T>(inner: Combine<T>, empty: T, nodes: seq<T>, all: seq<T>,
                    done: seq<T>, level: seq<T>, index: nat, path: seq<T>)
    requires |level| > 1 && Reading(inner, empty, nodes, all, done, level, index, path)
    ensures |done| + SiblingOf(index) < |nodes|
    ensures Reading(inner, empty, nodes, all, done + Padded(empty, level), Parents(inner, empty, level), index / 2,
                    path + [nodes[|done| + SiblingOf(index)]])
  {
    NodeOfLevel(inner, empty, done, level, index);
    LevelsUnfold(inner, empty, done, level);
    SiblingsUnfold(inner, empty, path, level, index);
  }

  // The siblings are read off the vector by index arithmetic alone.
  method ReadSiblings<T>(ghost inner: Combine<T>, ghost empty: T, ghost leaves: seq<T>,
                         nodes: seq<T>, nLeaves: nat, leafIndex: nat) returns (path: seq<T>)
    requires nodes == Levels(inner, empty, leaves) && nLeaves == |leaves|
    requires leafIndex < nLeaves
    ensures path == Siblings(inner, empty, leaves, leafIndex)
  {
    path := [];
    var levelIndex: nat := leafIndex;
    var nLevel := nLeaves;
    var levelBaseIndex: nat := 0;
    ghost var done, level, all := [], leaves, Siblings(inner, empty, leaves, leafIndex);
    while nLevel > 1
      invariant |done| == levelBaseIndex && |level| == nLevel
      invariant Reading(inner, empty, nodes, all, done, level, levelIndex, path)
      decreases nLevel
    {
      ReadStep(inner, empty, nodes, all, done, level, levelIndex, path);
      nLevel := nLevel + nLevel % 2;
      path := path + [nodes[levelBaseIndex + SiblingOf(levelIndex)]];
      done := done + Padded(empty, level);
      level := Parents(inner, empty, level);
      levelIndex := levelIndex / 2;
      levelBaseIndex := levelBaseIndex + nLevel;
      nLevel := nLevel / 2;
    }
  }

  method ClimbPath<T>(inner: Combine<T>, leaf: T, leafIndex: nat, path: seq<T>) returns (current: T)
    ensures current == Climb(inner, leaf, leafIndex, path)
  {
    current := leaf;
    var levelIndex := leafIndex;
    for k := 0 to |path|
      invariant levelIndex == Shr(leafIndex, k)
      invariant current == Climb(inner, leaf, leafIndex, path[..k])
    {
      if levelIndex % 2 == 0 {
        current := inner(current, path[k]);
      } else {
        current := inner(path[k], current);
      }
      assert path[..k + 1][..k] == path[..k];
      levelIndex := levelIndex / 2;
    }
    assert path[..|path|] == path;
  }
}
