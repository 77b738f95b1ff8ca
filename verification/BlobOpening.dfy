/** Openings of sampled slivers against a blob id: symbol, sliver root, pair tree, blob id. */
module BlobOpening {
  import opened Arithmetic
  import opened IdealHash
  import opened Merkle
  import opened BlobCommitment
  import opened Rslh
  import opened Wrappers

  datatype SliverPairRoots = SliverPairRoots(primary: Bytes32, secondary: Bytes32) {
    function Metadata(): SliverPairMetadata
    {
      SliverPairMetadata(Digest(primary), Digest(secondary))
    }

    // `primary || secondary`.
    function Leaf(): seq<Octet>
    {
      primary + secondary
    }
  }

  datatype WalrusSymbolOpening = WalrusSymbolOpening(leafIndex: nat, symbol: seq<Octet>, path: seq<Node>)

  datatype WalrusShardOpening = WalrusShardOpening(
    shardIndex: nat,
    primaryRoot: Bytes32,
    secondaryRoot: Bytes32,
    primarySymbols: seq<WalrusSymbolOpening>,
    secondarySymbols: seq<WalrusSymbolOpening>,
    pairLeafPath: seq<Node>,
    columnSymbols: seq<seq<Octet>>,
    columnLeafHashes: seq<Node>)

  datatype WalrusBlobOpening = WalrusBlobOpening(
    blobId: Bytes32,
    encodingType: Byte,
    unencodedLength: U64,
    nShards: nat,
    sliverPairRoots: seq<SliverPairRoots>,
    shards: seq<WalrusShardOpening>)

  datatype OpenError =
    | NShardsMismatch
    | InvalidEncodingType
    | BlobIdMismatch
    | ShardIndexOutOfRange
    | ShardRootMismatch
    | PairLeafOpeningFailure
    | SymbolLeafIndexOutOfRange
    | PrimarySymbolOpeningFailure
    | SecondarySymbolOpeningFailure
    | PrimarySliverLengthMismatch
    | PrimaryLeafHashCountMismatch
    | PrimarySymbolHashMismatch
    | PrimarySliverRootMismatch

  function Metadatas(roots: seq<SliverPairRoots>): (r: seq<SliverPairMetadata>)
    ensures |r| == |roots|
    ensures forall i :: 0 <= i < |r| ==> r[i] == roots[i].Metadata()
  {
    seq(|roots|, i requires 0 <= i < |roots| => roots[i].Metadata())
  }

  function PairLeaves(roots: seq<SliverPairRoots>): (r: seq<seq<Octet>>)
    ensures |r| == |roots|
    ensures forall i :: 0 <= i < |r| ==> r[i] == roots[i].Leaf()
  {
    seq(|roots|, i requires 0 <= i < |roots| => roots[i].Leaf())
  }

  ghost function PairRoot(roots: seq<SliverPairRoots>): Node
  {
    Root(LeafHashes(PairLeaves(roots)))
  }

  ghost function BlobIdOf(roots: seq<SliverPairRoots>, encoding: EncodingType, unencodedLength: U64): Bytes32
  {
    BlobMetadata(encoding, unencodedLength, Metadatas(roots)).BlobId()
  }

  // The tree that pair paths are checked against is the tree the blob id commits to, although
  // the code spells its leaves in two ways.
  lemma PairTreeIsCommitted(roots: seq<SliverPairRoots>, encoding: EncodingType, unencodedLength: U64)
    ensures BlobIdOf(roots, encoding, unencodedLength) == BlobIdFromMetadata(PairRoot(roots), encoding, unencodedLength)
  {
    assert PairLeafInputs(Metadatas(roots)) == PairLeaves(roots);
  }

  // ---------------------------------------------------------------- what the verifier answers

  // The first failure among some openings of symbols against one sliver root.
  ghost function SymbolsVerdict(symbols: seq<WalrusSymbolOpening>, root: Bytes32, nShards: nat, failure: OpenError)
    : Result<(), OpenError>
  {
    if symbols == [] then Ok(())
    else if symbols[0].leafIndex >= nShards then Err(SymbolLeafIndexOutOfRange)
    else if Verdict(symbols[0].path, Digest(root), nShards, symbols[0].symbol, symbols[0].leafIndex).Err? then
      Err(failure)
    else SymbolsVerdict(symbols[1..], root, nShards, failure)
  }

  ghost predicate SymbolHashesMatch(symbols: seq<seq<Octet>>, hashes: seq<Node>)
  {
    forall r :: 0 <= r < |symbols| && r < |hashes| ==> LeafHash(symbols[r]) == hashes[r]
  }

  ghost function ColumnVerdict(shard: WalrusShardOpening, nShards: nat): Result<(), OpenError>
  {
    if |shard.columnSymbols| != COL_HEIGHT_SECONDARY then Err(PrimarySliverLengthMismatch)
    else if |shard.columnLeafHashes| != nShards then Err(PrimaryLeafHashCountMismatch)
    else if !SymbolHashesMatch(shard.columnSymbols, shard.columnLeafHashes) then Err(PrimarySymbolHashMismatch)
    else if Root(shard.columnLeafHashes).Bytes() != shard.primaryRoot then Err(PrimarySliverRootMismatch)
    else Ok(())
  }

  ghost function ShardVerdict(shard: WalrusShardOpening, roots: seq<SliverPairRoots>): Result<(), OpenError>
  {
    var n, i := |roots|, shard.shardIndex;
    if i >= n then Err(ShardIndexOutOfRange)
    else if SliverPairRoots(shard.primaryRoot, shard.secondaryRoot) != roots[i] then Err(ShardRootMismatch)
    else if Verdict(shard.pairLeafPath, PairRoot(roots), n, roots[i].Leaf(), i).Err? then Err(PairLeafOpeningFailure)
    else
      var primary := SymbolsVerdict(shard.primarySymbols, shard.primaryRoot, n, PrimarySymbolOpeningFailure);
      var secondary := SymbolsVerdict(shard.secondarySymbols, shard.secondaryRoot, n, SecondarySymbolOpeningFailure);
      if primary.Err? then primary
      else if secondary.Err? then secondary
      else ColumnVerdict(shard, n)
  }

  ghost function ShardsVerdict(shards: seq<WalrusShardOpening>, roots: seq<SliverPairRoots>): Result<(), OpenError>
  {
    if shards == [] then Ok(())
    else if ShardVerdict(shards[0], roots).Err? then ShardVerdict(shards[0], roots)
    else ShardsVerdict(shards[1..], roots)
  }

  ghost function OpeningVerdict(opening: WalrusBlobOpening): Result<(), OpenError>
  {
    var n := opening.nShards;
    if n == 0 || |opening.sliverPairRoots| != n then Err(NShardsMismatch)
    else
      match EncodingFromCode(opening.encodingType)
      case None => Err(InvalidEncodingType)
      case Some(encoding) =>
        if BlobIdOf(opening.sliverPairRoots, encoding, opening.unencodedLength) != opening.blobId then
          Err(BlobIdMismatch)
        else ShardsVerdict(opening.shards, opening.sliverPairRoots)
  }

  // ---------------------------------------------------------------- the verifier

  method VerifySymbols(symbols: seq<WalrusSymbolOpening>, root: Bytes32, nShards: nat, failure: OpenError)
    returns (r: Result<(), OpenError>)
    ensures r == SymbolsVerdict(symbols, root, nShards, failure)
  {
    for k := 0 to |symbols|
      invariant SymbolsVerdict(symbols, root, nShards, failure) == SymbolsVerdict(symbols[k..], root, nShards, failure)
    {
      var symbol := symbols[k];
      if symbol.leafIndex >= nShards {
        return Err(SymbolLeafIndexOutOfRange);
      }
      var checked := VerifyProof(symbol.path, Digest(root), nShards, symbol.symbol, symbol.leafIndex);
      if checked.Err? {
        return Err(failure);
      }
      assert symbols[k..][1..] == symbols[k + 1..];
    }
    return Ok(());
  }

  lemma SingleLeafRoot(symbol: seq<Octet>)
    ensures Root(LeafHashes([symbol])) == LeafHash(symbol)
  {
  }

  method VerifyColumn(shard: WalrusShardOpening, nShards: nat) returns (r: Result<(), OpenError>)
    ensures r == ColumnVerdict(shard, nShards)
    ensures r == Err(PrimarySliverLengthMismatch) <==> |shard.columnSymbols| != 667
    ensures r == Err(PrimaryLeafHashCountMismatch)
       <==> |shard.columnSymbols| == 667 && |shard.columnLeafHashes| != nShards
    ensures r == Err(PrimarySymbolHashMismatch) ==> exists k ::
      0 <= k < |shard.columnSymbols| && k < |shard.columnLeafHashes|
      && LeafHash(shard.columnSymbols[k]) != shard.columnLeafHashes[k]
    ensures r == Err(PrimarySliverRootMismatch) ==> Root(shard.columnLeafHashes).Bytes() != shard.primaryRoot
  {
    if |shard.columnSymbols| != COL_HEIGHT_SECONDARY {
      return Err(PrimarySliverLengthMismatch);
    }
    if |shard.columnLeafHashes| != nShards {
      return Err(PrimaryLeafHashCountMismatch);
    }
    var k := 0;
    while k < |shard.columnSymbols| && k < |shard.columnLeafHashes|
      invariant forall j :: 0 <= j < k && j < |shard.columnSymbols| && j < |shard.columnLeafHashes| ==>
        LeafHash(shard.columnSymbols[j]) == shard.columnLeafHashes[j]
    {
      var symbolTree := Build([shard.columnSymbols[k]]);
      SingleLeafRoot(shard.columnSymbols[k]);
      if symbolTree.RootNode() != shard.columnLeafHashes[k] {
        return Err(PrimarySymbolHashMismatch);
      }
      k := k + 1;
    }
    var columnTree := BuildFromLeafHashes(shard.columnLeafHashes);
    if columnTree.RootNode().Bytes() != shard.primaryRoot {
      return Err(PrimarySliverRootMismatch);
    }
    return Ok(());
  }

  method VerifyShard(shard: WalrusShardOpening, roots: seq<SliverPairRoots>, pairRoot: Node)
    returns (r: Result<(), OpenError>)
    requires pairRoot == PairRoot(roots)
    ensures r == ShardVerdict(shard, roots)
    ensures shard.shardIndex >= |roots| ==> r == Err(ShardIndexOutOfRange)
    ensures shard.shardIndex < |roots| && (shard.primaryRoot != roots[shard.shardIndex].primary ||
                                           shard.secondaryRoot != roots[shard.shardIndex].secondary) ==>
      r == Err(ShardRootMismatch)
  {
    var n, i := |roots|, shard.shardIndex;
    if i >= n {
      return Err(ShardIndexOutOfRange);
    }
    var pair := roots[i];
    if pair.primary != shard.primaryRoot || pair.secondary != shard.secondaryRoot {
      return Err(ShardRootMismatch);
    }
    var pairLeaf := shard.primaryRoot + shard.secondaryRoot;
    var pairChecked := VerifyProof(shard.pairLeafPath, pairRoot, n, pairLeaf, i);
    if pairChecked.Err? {
      return Err(PairLeafOpeningFailure);
    }
    r := VerifySymbols(shard.primarySymbols, shard.primaryRoot, n, PrimarySymbolOpeningFailure);
    if r.Err? {
      return;
    }
    r := VerifySymbols(shard.secondarySymbols, shard.secondaryRoot, n, SecondarySymbolOpeningFailure);
    if r.Err? {
      return;
    }
    r := VerifyColumn(shard, n);
  }

  method VerifyWalrusBlobOpening(opening: WalrusBlobOpening) returns (r: Result<(), OpenError>)
    ensures r == OpeningVerdict(opening)
    ensures opening.nShards == 0 || |opening.sliverPairRoots| != opening.nShards ==> r == Err(NShardsMismatch)
    ensures 0 < opening.nShards == |opening.sliverPairRoots| && opening.encodingType != 1 ==>
      r == Err(InvalidEncodingType)
  {
    var nShards, roots := opening.nShards, opening.sliverPairRoots;
    if nShards == 0 || |roots| != nShards {
      return Err(NShardsMismatch);
    }
    var encoding := EncodingFromCode(opening.encodingType);
    if encoding == None {
      return Err(InvalidEncodingType);
    }
    var metadata := BlobMetadata(encoding.value, opening.unencodedLength, Metadatas(roots));
    var expectedBlobId := metadata.ComputeBlobId();
    if expectedBlobId != opening.blobId {
      return Err(BlobIdMismatch);
    }
    var pairTree := Build(PairLeaves(roots));
    var pairRoot := pairTree.RootNode();
    for k := 0 to |opening.shards|
      invariant ShardsVerdict(opening.shards, roots) == ShardsVerdict(opening.shards[k..], roots)
    {
      var checked := VerifyShard(opening.shards[k], roots, pairRoot);
      if checked.Err? {
        return checked;
      }
      assert opening.shards[k..][1..] == opening.shards[k + 1..];
    }
    return Ok(());
  }

  // ---------------------------------------------------------------- what acceptance means

  // The symbols opened against the tree over `leaves` are those the leaves commit to, each
  // with its own path.
  ghost predicate OpensLeaf(symbol: WalrusSymbolOpening, leaves: seq<Node>)
  {
    && symbol.leafIndex < |leaves|
    && LeafHash(symbol.symbol).Bytes() == leaves[symbol.leafIndex].Bytes()
    && SameBytes(symbol.path, ProofPath(leaves, symbol.leafIndex))
  }

  ghost predicate OpensRoot(symbol: WalrusSymbolOpening, root: Bytes32, nShards: nat)
  {
    && symbol.leafIndex < nShards
    && Verdict(symbol.path, Digest(root), nShards, symbol.symbol, symbol.leafIndex).Ok?
  }

  ghost predicate AllOpenLeaves(symbols: seq<WalrusSymbolOpening>, leaves: seq<Node>)
  {
    forall symbol :: symbol in symbols ==> OpensLeaf(symbol, leaves)
  }

  ghost predicate AllOpenRoot(symbols: seq<WalrusSymbolOpening>, root: Bytes32, nShards: nat)
  {
    forall symbol :: symbol in symbols ==> OpensRoot(symbol, root, nShards)
  }

  // The shard's own roots are the committed pair, and its leaf hashes make up its primary root.
  ghost predicate Linked(shard: WalrusShardOpening, roots: seq<SliverPairRoots>)
  {
    && shard.shardIndex < |roots|
    && roots[shard.shardIndex] == SliverPairRoots(shard.primaryRoot, shard.secondaryRoot)
    && SameBytes(shard.pairLeafPath, ProofPath(LeafHashes(PairLeaves(roots)), shard.shardIndex))
    && |shard.columnSymbols| == COL_HEIGHT_SECONDARY
    && |shard.columnLeafHashes| == |roots|
    && Root(shard.columnLeafHashes).Bytes() == shard.primaryRoot
  }

  ghost predicate AuthenticShard(shard: WalrusShardOpening, roots: seq<SliverPairRoots>)
  {
    && Linked(shard, roots)
    && SymbolHashesMatch(shard.columnSymbols, shard.columnLeafHashes)
    && AllOpenLeaves(shard.primarySymbols, shard.columnLeafHashes)
    && AllOpenRoot(shard.secondarySymbols, shard.secondaryRoot, |roots|)
  }

  ghost predicate Authentic(opening: WalrusBlobOpening)
  {
    && opening.nShards == |opening.sliverPairRoots| > 0
    && opening.encodingType == RS2.Code()
    && opening.blobId == BlobIdOf(opening.sliverPairRoots, RS2, opening.unencodedLength)
    && forall shard :: shard in opening.shards ==> AuthenticShard(shard, opening.sliverPairRoots)
  }

  lemma {:induction false} SymbolsVerdictMeans(symbols: seq<WalrusSymbolOpening>, root: Bytes32, nShards: nat,
                                               failure: OpenError)
    ensures SymbolsVerdict(symbols, root, nShards, failure).Ok?
       <==> AllOpenRoot(symbols, root, nShards)
  {
    if symbols != [] {
      SymbolsVerdictMeans(symbols[1..], root, nShards, failure);
      var first := symbols[0];
      assert OpensRoot(first, root, nShards)
        <==> (first.leafIndex < nShards
            && Verdict(first.path, Digest(root), nShards, first.symbol, first.leafIndex).Ok?);
      assert forall symbol :: symbol in symbols <==> symbol == symbols[0] || symbol in symbols[1..];
    }
  }

  lemma OpensRootMeans(symbol: WalrusSymbolOpening, root: Bytes32, leaves: seq<Node>)
    requires Root(leaves).Bytes() == root
    ensures OpensRoot(symbol, root, |leaves|) <==> OpensLeaf(symbol, leaves)
  {
    AcceptedExactly(leaves, Digest(root), symbol.symbol, symbol.leafIndex, symbol.path);
  }

  lemma OpenRootMeansOpenLeaves(symbols: seq<WalrusSymbolOpening>, root: Bytes32, leaves: seq<Node>)
    requires Root(leaves).Bytes() == root
    ensures AllOpenRoot(symbols, root, |leaves|) <==> AllOpenLeaves(symbols, leaves)
  {
    forall k | 0 <= k < |symbols|
      ensures OpensRoot(symbols[k], root, |leaves|) <==> OpensLeaf(symbols[k], leaves)
    {
      OpensRootMeans(symbols[k], root, leaves);
    }
  }

  lemma ShardVerdictMeans(shard: WalrusShardOpening, roots: seq<SliverPairRoots>)
    ensures ShardVerdict(shard, roots).Ok? <==> AuthenticShard(shard, roots)
  {
    var n, i, leaves := |roots|, shard.shardIndex, shard.columnLeafHashes;
    if i < n {
      ProofSound(PairLeaves(roots), roots[i].Leaf(), i, shard.pairLeafPath);
    }
    SymbolsVerdictMeans(shard.primarySymbols, shard.primaryRoot, n, PrimarySymbolOpeningFailure);
    SymbolsVerdictMeans(shard.secondarySymbols, shard.secondaryRoot, n, SecondarySymbolOpeningFailure);
    if |leaves| == n && Root(leaves).Bytes() == shard.primaryRoot {
      OpenRootMeansOpenLeaves(shard.primarySymbols, shard.primaryRoot, leaves);
    }
  }

  lemma {:induction false} ShardsVerdictMeans(shards: seq<WalrusShardOpening>, roots: seq<SliverPairRoots>)
    ensures ShardsVerdict(shards, roots).Ok? <==> forall shard :: shard in shards ==> AuthenticShard(shard, roots)
  {
    if shards != [] {
      ShardVerdictMeans(shards[0], roots);
      ShardsVerdictMeans(shards[1..], roots);
      assert shards == [shards[0]] + shards[1..];
    }
  }

  // The verifier accepts exactly the authentic openings.
  lemma AcceptanceMeans(opening: WalrusBlobOpening)
    ensures OpeningVerdict(opening).Ok? <==> Authentic(opening)
  {
    ShardsVerdictMeans(opening.shards, opening.sliverPairRoots);
  }

  // ---------------------------------------------------------------- binding

  // Every opened primary symbol that the sliver covers is the symbol of the sliver.
  lemma PrimarySymbolIsColumnSymbol(opening: WalrusBlobOpening, s: nat, k: nat)
    requires OpeningVerdict(opening).Ok?
    requires s < |opening.shards| && k < |opening.shards[s].primarySymbols|
    requires opening.shards[s].primarySymbols[k].leafIndex < COL_HEIGHT_SECONDARY
    ensures |opening.shards[s].columnSymbols| == COL_HEIGHT_SECONDARY
    ensures opening.shards[s].primarySymbols[k].symbol
         == opening.shards[s].columnSymbols[opening.shards[s].primarySymbols[k].leafIndex]
  {
    AcceptanceMeans(opening);
    var shard := opening.shards[s];
    assert AuthenticShard(shard, opening.sliverPairRoots);
    var symbol := shard.primarySymbols[k];
    assert OpensLeaf(symbol, shard.columnLeafHashes);
    LeafHashInjective(symbol.symbol, shard.columnSymbols[symbol.leafIndex]);
  }

  // What two accepted openings of one blob id cannot disagree on.
  lemma OpeningBinds(a: WalrusBlobOpening, b: WalrusBlobOpening)
    requires OpeningVerdict(a).Ok? && OpeningVerdict(b).Ok? && a.blobId == b.blobId
    ensures a.nShards == b.nShards
    ensures a.unencodedLength == b.unencodedLength
    ensures a.sliverPairRoots == b.sliverPairRoots
  {
    AcceptanceMeans(a);
    AcceptanceMeans(b);
    var x, y := Metadatas(a.sliverPairRoots), Metadatas(b.sliverPairRoots);
    BlobIdBinds(BlobMetadata(RS2, a.unencodedLength, x), BlobMetadata(RS2, b.unencodedLength, y));
    forall i | 0 <= i < |a.sliverPairRoots|
      ensures a.sliverPairRoots[i] == b.sliverPairRoots[i]
    {
      assert x[i] == a.sliverPairRoots[i].Metadata() && y[i] == b.sliverPairRoots[i].Metadata();
    }
  }

  // For one shard they agree on every leaf of the primary tree and on every column symbol
  // that has a leaf.
  lemma ColumnBinds(a: WalrusBlobOpening, b: WalrusBlobOpening, s: nat, t: nat)
    requires OpeningVerdict(a).Ok? && OpeningVerdict(b).Ok? && a.blobId == b.blobId
    requires s < |a.shards| && t < |b.shards| && a.shards[s].shardIndex == b.shards[t].shardIndex
    ensures SameBytes(a.shards[s].columnLeafHashes, b.shards[t].columnLeafHashes)
    ensures |a.shards[s].columnSymbols| == |b.shards[t].columnSymbols| == COL_HEIGHT_SECONDARY
    ensures forall r :: 0 <= r < COL_HEIGHT_SECONDARY && r < a.nShards ==>
      a.shards[s].columnSymbols[r] == b.shards[t].columnSymbols[r]
    ensures a.nShards >= COL_HEIGHT_SECONDARY ==> a.shards[s].columnSymbols == b.shards[t].columnSymbols
  {
    OpeningBinds(a, b);
    AcceptanceMeans(a);
    AcceptanceMeans(b);
    var x, y := a.shards[s], b.shards[t];
    assert AuthenticShard(x, a.sliverPairRoots) && AuthenticShard(y, b.sliverPairRoots);
    RootBinds(x.columnLeafHashes, y.columnLeafHashes);
    forall r | 0 <= r < COL_HEIGHT_SECONDARY && r < a.nShards
      ensures x.columnSymbols[r] == y.columnSymbols[r]
    {
      assert LeafHash(x.columnSymbols[r]) == x.columnLeafHashes[r];
      assert LeafHash(y.columnSymbols[r]) == y.columnLeafHashes[r];
      LeafHashInjective(x.columnSymbols[r], y.columnSymbols[r]);
    }
  }

  // The condition on the committee is needed: with fewer shards than symbols, any symbol
  // without a leaf can be exchanged and the opening is still accepted.
  lemma ShortCommitteeLeavesSymbolsFree(opening: WalrusBlobOpening, s: nat, r: nat, symbol: seq<Octet>)
    requires OpeningVerdict(opening).Ok?
    requires s < |opening.shards| && opening.nShards <= r < COL_HEIGHT_SECONDARY
    ensures |opening.shards[s].columnSymbols| == COL_HEIGHT_SECONDARY
    ensures var shard := opening.shards[s];
      var changed := shard.(columnSymbols := shard.columnSymbols[r := symbol]);
      OpeningVerdict(opening.(shards := opening.shards[s := changed])).Ok?
  {
    AcceptanceMeans(opening);
    var shard := opening.shards[s];
    assert AuthenticShard(shard, opening.sliverPairRoots);
    var changed := shard.(columnSymbols := shard.columnSymbols[r := symbol]);
    assert AuthenticShard(changed, opening.sliverPairRoots);
    var other := opening.(shards := opening.shards[s := changed]);
    forall x | x in other.shards
      ensures AuthenticShard(x, opening.sliverPairRoots)
    {
      assert x == changed || x in opening.shards;
    }
    AcceptanceMeans(other);
  }
}
