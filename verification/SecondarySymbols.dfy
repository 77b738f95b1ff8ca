/** How far the blob id binds secondary symbols, whose openings carry no leaves of their tree
    and may use any path up to the maximum length. */
module SecondarySymbols {
  import opened Arithmetic
  import opened IdealHash
  import opened PaddedTree
  import opened Merkle
  import opened BlobCommitment
  import opened BlobOpening
  import opened Rslh

  // ---------------------------------------------------------------- equal lengths

  // Two openings of one position against one root, with paths of one length, open the same
  // symbol.
  lemma SameLengthBinds(a: WalrusSymbolOpening, b: WalrusSymbolOpening, root: Bytes32, nShards: nat)
    requires OpensRoot(a, root, nShards) && OpensRoot(b, root, nShards)
    requires a.leafIndex == b.leafIndex && |a.path| == |b.path|
    ensures a.symbol == b.symbol && SameBytes(a.path, b.path)
  {
    ClimbInjective(LeafHash(a.symbol), a.path, LeafHash(b.symbol), b.path, a.leafIndex);
    LeafHashInjective(a.symbol, b.symbol);
  }

  // ---------------------------------------------------------------- the leftmost leaf

  lemma {:induction false} ShrOfZero(places: nat)
    ensures Shr(0, places) == 0
  {
    if places > 0 {
      ShrOfZero(places - 1);
    }
  }

  // From the leftmost position every climb goes along the left spine, so the shorter path
  // ends at a node on the way of the longer one.
  lemma {:induction false} LeftSpine(x: Node, p: seq<Node>, y: Node, q: seq<Node>)
    requires |p| <= |q| && ClimbTo(x, 0, p).Bytes() == ClimbTo(y, 0, q).Bytes()
    ensures x.Bytes() == ClimbTo(y, 0, q[..|q| - |p|]).Bytes()
    decreases |p|
  {
    if p == [] {
      assert q[..|q|] == q;
    } else {
      var k, l := |p| - 1, |q| - 1;
      ShrOfZero(k);
      ShrOfZero(l);
      TurnBytes(ClimbTo(x, 0, p[..k]), p[k], ClimbTo(y, 0, q[..l]), q[l], 0);
      LeftSpine(x, p[..k], y, q[..l]);
      assert q[..l][..l - k] == q[..l - k];
    }
  }

  // A leaf hash is no inner node, so at the leftmost position the lengths agree.
  lemma LeftmostLengths(s: seq<Octet>, p: seq<Node>, t: seq<Octet>, q: seq<Node>)
    requires |p| < |q|
    ensures ClimbTo(LeafHash(s), 0, p).Bytes() != ClimbTo(LeafHash(t), 0, q).Bytes()
  {
    if ClimbTo(LeafHash(s), 0, p).Bytes() == ClimbTo(LeafHash(t), 0, q).Bytes() {
      LeftSpine(LeafHash(s), p, LeafHash(t), q);
      var rest := q[..|q| - |p|];
      var k := |rest| - 1;
      ShrOfZero(k);
      LeafIsNotInner(s, ClimbTo(LeafHash(t), 0, rest[..k]), rest[k]);
    }
  }

  // ---------------------------------------------------------------- positions further right

  // The highest bit of a number.
  lemma {:induction false} TopBit(i: nat, places: nat) returns (m: nat)
    requires i >= 1 && Shr(i, places) == 0
    ensures m < places && Shr(i, m) == 1
  {
    if Shr(i, places - 1) == 0 {
      m := TopBit(i, places - 1);
    } else {
      m := places - 1;
    }
  }

  lemma {:induction false} ShrStaysZero(i: nat, m: nat, more: nat)
    requires Shr(i, m) == 1 && more >= 1
    ensures Shr(i, m + more) == 0
  {
    if more > 1 {
      ShrStaysZero(i, m, more - 1);
    }
  }

  function Blanks(count: nat): (r: seq<Node>)
    ensures |r| == count
  {
    if count == 0 then [] else Blanks(count - 1) + [Empty]
  }

  lemma ClimbSnoc(x: Node, i: nat, path: seq<Node>, sibling: Node)
    ensures ClimbTo(x, i, path + [sibling]) == Turn(InnerHash, ClimbTo(x, i, path), sibling, Shr(i, |path|))
  {
    assert (path + [sibling])[..|path|] == path;
  }

  lemma TurnAcross(x: Node, y: Node, i: nat, j: nat)
    requires i % 2 != j % 2
    ensures Turn(InnerHash, x, y, i) == Turn(InnerHash, y, x, j)
  {
  }

  lemma TurnSame(x: Node, y: Node, i: nat, j: nat)
    requires i % 2 == j % 2
    ensures Turn(InnerHash, x, y, i) == Turn(InnerHash, x, y, j)
  {
  }

  // Seen from the root, the ways to one index over paths whose lengths differ by `d` part
  // where a bit differs from the one `d` places higher. Each side then takes the other's
  // subtree for its sibling.
  lemma {:induction false} PartingPaths(x: Node, y: Node, i: nat, k: nat, d: nat, m: nat)
    returns (p: seq<Node>, q: seq<Node>)
    requires m < k && Shr(i, m) % 2 != Shr(i, m + d) % 2
    ensures |p| == k && |q| == k + d && ClimbTo(x, i, p) == ClimbTo(y, i, q)
    decreases k
  {
    hide ClimbTo, Turn, Shr, InnerHash;
    var j := k - 1;
    if Shr(i, j) % 2 != Shr(i, j + d) % 2 {
      p, q := Blanks(j), Blanks(j + d);
      var left, right := ClimbTo(x, i, p), ClimbTo(y, i, q);
      ClimbSnoc(x, i, p, right);
      ClimbSnoc(y, i, q, left);
      TurnAcross(left, right, Shr(i, j), Shr(i, j + d));
      p, q := p + [right], q + [left];
    } else {
      p, q := PartingPaths(x, y, i, j, d, m);
      ClimbSnoc(x, i, p, Empty);
      ClimbSnoc(y, i, q, Empty);
      TurnSame(ClimbTo(x, i, p), Empty, Shr(i, j), Shr(i, j + d));
      p, q := p + [Empty], q + [Empty];
    }
  }

  // ---------------------------------------------------------------- the exact condition

  ghost predicate Opens(root: Bytes32, i: nat, symbol: seq<Octet>, path: seq<Node>, nShards: nat)
  {
    OpensRoot(WalrusSymbolOpening(i, symbol, path), root, nShards)
  }

  // Some root opens both symbols at index `i`, by paths of these lengths.
  ghost predicate BothOpen(s: seq<Octet>, t: seq<Octet>, i: nat, k: nat, l: nat, nShards: nat)
  {
    exists root: Bytes32, p: seq<Node>, q: seq<Node> ::
      |p| == k && |q| == l && Opens(root, i, s, p, nShards) && Opens(root, i, t, q, nShards)
  }

  // The index and the lengths are acceptable to the verifier, and tell the paths apart.
  predicate PathsPart(i: nat, k: nat, l: nat, nShards: nat)
  {
    && k <= PathLength(nShards) && l <= PathLength(nShards) && i < nShards
    && k != l && 1 <= i && i < Pow2(k) && i < Pow2(l)
  }

  lemma BothOpenImplies(s: seq<Octet>, t: seq<Octet>, i: nat, root: Bytes32, p: seq<Node>, q: seq<Node>, nShards: nat)
    requires s != t && Opens(root, i, s, p, nShards) && Opens(root, i, t, q, nShards)
    ensures PathsPart(i, |p|, |q|, nShards)
  {
    if |p| == |q| {
      SameLengthBinds(WalrusSymbolOpening(i, s, p), WalrusSymbolOpening(i, t, q), root, nShards);
    } else if i == 0 {
      if |p| < |q| {
        LeftmostLengths(s, p, t, q);
      } else {
        LeftmostLengths(t, q, s, p);
      }
    }
  }

  lemma RootOfParting(s: seq<Octet>, t: seq<Octet>, i: nat, k: nat, l: nat, nShards: nat)
    returns (root: Bytes32, p: seq<Node>, q: seq<Node>)
    requires PathsPart(i, k, l, nShards)
    ensures |p| == k && |q| == l && Opens(root, i, s, p, nShards) && Opens(root, i, t, q, nShards)
    decreases l < k
  {
    if l < k {
      root, q, p := RootOfParting(t, s, i, l, k, nShards);
    } else {
      ShrZero(i, k);
      var m := TopBit(i, k);
      ShrStaysZero(i, m, l - k);
      p, q := PartingPaths(LeafHash(s), LeafHash(t), i, k, l - k, m);
      ClimbIsDigest(s, i, p);
      root := ClimbTo(LeafHash(s), i, p).value;
    }
  }

  // Two different symbols can be opened at one index exactly when the index is not the first,
  // fits both paths, and the paths differ in length.
  lemma SecondaryBindingExact(s: seq<Octet>, t: seq<Octet>, i: nat, k: nat, l: nat, nShards: nat)
    requires s != t
    ensures BothOpen(s, t, i, k, l, nShards) <==> PathsPart(i, k, l, nShards)
  {
    hide Opens, PathsPart;
    if BothOpen(s, t, i, k, l, nShards) {
      var root: Bytes32, p: seq<Node>, q: seq<Node> :|
        |p| == k && |q| == l && Opens(root, i, s, p, nShards) && Opens(root, i, t, q, nShards);
      BothOpenImplies(s, t, i, root, p, q, nShards);
    }
    if PathsPart(i, k, l, nShards) {
      var root, p, q := RootOfParting(s, t, i, k, l, nShards);
    }
  }

  // ---------------------------------------------------------------- accepted openings

  // What two accepted openings of one blob id agree on: a secondary symbol, when its paths
  // have one length or when it is the first of its sliver.
  lemma SecondarySymbolBinds(a: WalrusBlobOpening, b: WalrusBlobOpening, s: nat, t: nat, k: nat, l: nat)
    requires OpeningVerdict(a).Ok? && OpeningVerdict(b).Ok? && a.blobId == b.blobId
    requires s < |a.shards| && t < |b.shards| && a.shards[s].shardIndex == b.shards[t].shardIndex
    requires k < |a.shards[s].secondarySymbols| && l < |b.shards[t].secondarySymbols|
    requires var x, y := a.shards[s].secondarySymbols[k], b.shards[t].secondarySymbols[l];
      x.leafIndex == y.leafIndex && (|x.path| == |y.path| || x.leafIndex == 0)
    ensures a.shards[s].secondarySymbols[k].symbol == b.shards[t].secondarySymbols[l].symbol
  {
    hide OpeningVerdict;
    OpeningBinds(a, b);
    AcceptanceMeans(a);
    AcceptanceMeans(b);
    assert AuthenticShard(a.shards[s], a.sliverPairRoots) && AuthenticShard(b.shards[t], b.sliverPairRoots);
    var x, y, root := a.shards[s].secondarySymbols[k], b.shards[t].secondarySymbols[l], a.shards[s].secondaryRoot;
    assert OpensRoot(x, root, a.nShards) && OpensRoot(y, root, a.nShards);
    if x.symbol != y.symbol {
      BothOpenImplies(x.symbol, y.symbol, x.leafIndex, root, x.path, y.path, a.nShards);
    }
  }

  // An opening of one shard whose primary sliver is blank.
  ghost function BlankOpening(secondaryRoot: Bytes32, secondarySymbols: seq<WalrusSymbolOpening>, nShards: nat)
    : WalrusBlobOpening
    requires nShards > 0
  {
    var symbols := seq(COL_HEIGHT_SECONDARY, _ => []);
    var hashes := seq(nShards, _ => LeafHash([]));
    var primaryRoot := Root(hashes).Bytes();
    var roots := seq(nShards, _ => SliverPairRoots(primaryRoot, secondaryRoot));
    WalrusBlobOpening(BlobIdOf(roots, RS2, 0), RS2.Code(), 0, nShards, roots,
      [WalrusShardOpening(0, primaryRoot, secondaryRoot, [], secondarySymbols,
                          ProofPath(LeafHashes(PairLeaves(roots)), 0), symbols, hashes)])
  }

  lemma BlankIsAccepted(secondaryRoot: Bytes32, secondarySymbols: seq<WalrusSymbolOpening>, nShards: nat)
    requires nShards > 0 && AllOpenRoot(secondarySymbols, secondaryRoot, nShards)
    ensures OpeningVerdict(BlankOpening(secondaryRoot, secondarySymbols, nShards)).Ok?
  {
    hide OpeningVerdict, BlobIdOf;
    var opening := BlankOpening(secondaryRoot, secondarySymbols, nShards);
    assert AuthenticShard(opening.shards[0], opening.sliverPairRoots);
    AcceptanceMeans(opening);
  }

  // And that is all: in every other case that the verifier admits, one accepted opening shows
  // any two symbols at the same place of the same secondary sliver.
  lemma SecondarySymbolFree(s: seq<Octet>, t: seq<Octet>, i: nat, k: nat, l: nat, nShards: nat)
    returns (opening: WalrusBlobOpening)
    requires PathsPart(i, k, l, nShards)
    ensures OpeningVerdict(opening).Ok? && |opening.shards| == 1 && opening.nShards == nShards
    ensures var symbols := opening.shards[0].secondarySymbols;
      && |symbols| == 2 && symbols[0].symbol == s && symbols[1].symbol == t
      && symbols[0].leafIndex == symbols[1].leafIndex == i && |symbols[0].path| == k && |symbols[1].path| == l
  {
    hide OpeningVerdict;
    var root, p, q := RootOfParting(s, t, i, k, l, nShards);
    var symbols := [WalrusSymbolOpening(i, s, p), WalrusSymbolOpening(i, t, q)];
    opening := BlankOpening(root, symbols, nShards);
    assert AllOpenRoot(symbols, root, nShards);
    BlankIsAccepted(root, symbols, nShards);
  }

  // The smallest case: index 1, paths of two nodes and of one.
  lemma SecondaryTwoSymbols(s: seq<Octet>, t: seq<Octet>, sibling: Node, nShards: nat)
    requires nShards >= 3
    ensures var inner := InnerHash(sibling, LeafHash(s));
      var root := InnerHash(inner, LeafHash(t)).Bytes();
      && Opens(root, 1, s, [sibling, LeafHash(t)], nShards) && Opens(root, 1, t, [inner], nShards)
  {
    hide InnerHash, LeafHash, Opens, ClimbTo;
    PathLengthIsLeast(nShards);
    var x, y := LeafHash(s), LeafHash(t);
    var inner := InnerHash(sibling, x);
    ClimbNothing(x, 1);
    ClimbNothing(y, 1);
    ClimbSnoc(x, 1, [], sibling);
    ClimbSnoc(x, 1, [sibling], y);
    ClimbSnoc(y, 1, [], inner);
    assert [] + [sibling] == [sibling] && [sibling] + [y] == [sibling, y] && [] + [inner] == [inner];
    assert Shr(1, 0) == 1 && Shr(1, 1) == 0;
    TurnBytes(x, sibling, x, sibling, 1);
    OpensByClimb(s, 1, [sibling, y], nShards);
    OpensByClimb(t, 1, [inner], nShards);
  }

  lemma ClimbNothing(x: Node, i: nat)
    ensures ClimbTo(x, i, []) == x
  {
  }

  lemma OpensByClimb(symbol: seq<Octet>, i: nat, path: seq<Node>, nShards: nat)
    requires i < nShards && |path| <= PathLength(nShards) && i < Pow2(|path|)
    ensures Opens(ClimbTo(LeafHash(symbol), i, path).Bytes(), i, symbol, path, nShards)
  {
    hide LeafHash, ClimbTo;
    ClimbIsDigest(symbol, i, path);
  }
}
