/** The builder of blob openings from the matrix of symbol hashes. */
module OpeningBuilder {
  import opened Arithmetic
  import opened IdealHash
  import opened Merkle
  import opened BlobCommitment
  import opened BlobOpening
  import opened Rslh
  import opened Wrappers
  import opened Sequences

  datatype WalrusSymbolRequest = WalrusSymbolRequest(leafIndex: nat, symbol: seq<Octet>)

  datatype WalrusSampleRequest = WalrusSampleRequest(
    shardIndex: nat,
    primarySymbols: seq<WalrusSymbolRequest>,
    secondarySymbols: seq<WalrusSymbolRequest>,
    columnSymbols: seq<WalrusSymbolRequest>)

  datatype BuildError =
    | MatrixNotSquare
    | TooManyShards
    | SampleShardOutOfRange
    | LeafIndexOutOfRange
    | SliverLengthMismatch
    | SliverSymbolsUnordered

  const U32_MAX: nat := 0xFFFF_FFFF

  // ---------------------------------------------------------------- the matrix

  function Isqrt(n: nat): (r: nat)
    ensures r * r <= n < (r + 1) * (r + 1)
  {
    if n == 0 then 0
    else
      var r := Isqrt(n - 1);
      if (r + 1) * (r + 1) <= n then r + 1 else r
  }

  // The matrix of leaf hashes, row by row.
  ghost predicate IsMatrix(hashes: seq<Node>, n: nat)
  {
    |hashes| == n * n
  }

  lemma CellInRange(n: nat, row: nat, col: nat)
    requires row < n && col < n
    ensures row * n + col < n * n
  {
    Distribute(row, 1, n);
    TimesMonotonic(row + 1, n, n);
  }

  function Cell(hashes: seq<Node>, n: nat, row: nat, col: nat): Node
    requires IsMatrix(hashes, n) && row < n && col < n
  {
    CellInRange(n, row, col);
    hashes[row * n + col]
  }

  // The first `length` cells of a row, or of a column.
  function RowUpTo(hashes: seq<Node>, n: nat, row: nat, length: nat): (r: seq<Node>)
    requires IsMatrix(hashes, n) && row < n && length <= n
    ensures |r| == length
    ensures forall k :: 0 <= k < length ==> r[k] == Cell(hashes, n, row, k)
  {
    if length == 0 then [] else RowUpTo(hashes, n, row, length - 1) + [Cell(hashes, n, row, length - 1)]
  }

  function ColumnUpTo(hashes: seq<Node>, n: nat, col: nat, length: nat): (r: seq<Node>)
    requires IsMatrix(hashes, n) && col < n && length <= n
    ensures |r| == length
    ensures forall k :: 0 <= k < length ==> r[k] == Cell(hashes, n, k, col)
  {
    if length == 0 then [] else ColumnUpTo(hashes, n, col, length - 1) + [Cell(hashes, n, length - 1, col)]
  }

  function Row(hashes: seq<Node>, n: nat, row: nat): (r: seq<Node>)
    requires IsMatrix(hashes, n) && row < n
  {
    RowUpTo(hashes, n, row, n)
  }

  function Column(hashes: seq<Node>, n: nat, col: nat): (r: seq<Node>)
    requires IsMatrix(hashes, n) && col < n
  {
    ColumnUpTo(hashes, n, col, n)
  }

  ghost function RowsUpTo(hashes: seq<Node>, n: nat, count: nat): (r: seq<seq<Node>>)
    requires IsMatrix(hashes, n) && count <= n
    ensures |r| == count && forall i :: 0 <= i < count ==> r[i] == Row(hashes, n, i)
  {
    if count == 0 then [] else RowsUpTo(hashes, n, count - 1) + [Row(hashes, n, count - 1)]
  }

  ghost function ColumnsUpTo(hashes: seq<Node>, n: nat, count: nat): (r: seq<seq<Node>>)
    requires IsMatrix(hashes, n) && count <= n
    ensures |r| == count && forall i :: 0 <= i < count ==> r[i] == Column(hashes, n, i)
  {
    if count == 0 then [] else ColumnsUpTo(hashes, n, count - 1) + [Column(hashes, n, count - 1)]
  }

  // The leaves of every sliver tree: primary sliver `i` is row `i`, and secondary sliver `i`
  // is column `n - 1 - i`.
  datatype Slivers = Slivers(rows: seq<seq<Node>>, columns: seq<seq<Node>>) {
    ghost function Count(): nat
    {
      |rows|
    }

    ghost predicate Square()
    {
      && |columns| == |rows|
      && (forall i :: 0 <= i < |rows| ==> |rows[i]| == |rows|)
      && (forall i :: 0 <= i < |rows| ==> |columns[i]| == |rows|)
    }

    ghost function Primary(i: nat): seq<Node>
      requires Square() && i < Count()
    {
      rows[i]
    }

    ghost function Secondary(i: nat): seq<Node>
      requires Square() && i < Count()
    {
      columns[Count() - 1 - i]
    }

    ghost function Pair(i: nat): SliverPairRoots
      requires Square() && i < Count()
    {
      SliverPairRoots(Root(Primary(i)).Bytes(), Root(Secondary(i)).Bytes())
    }

    ghost function PairsUpTo(count: nat): (r: seq<SliverPairRoots>)
      requires Square() && count <= Count()
      ensures |r| == count && forall i :: 0 <= i < count ==> r[i] == Pair(i)
    {
      if count == 0 then [] else PairsUpTo(count - 1) + [Pair(count - 1)]
    }

    ghost function Pairs(): seq<SliverPairRoots>
      requires Square()
    {
      PairsUpTo(Count())
    }
  }

  ghost function SliversOf(hashes: seq<Node>, n: nat): (r: Slivers)
    requires IsMatrix(hashes, n)
    ensures r.Square() && r.Count() == n
    ensures forall i :: 0 <= i < n ==> r.Primary(i) == Row(hashes, n, i)
    ensures forall i :: 0 <= i < n ==> r.Secondary(i) == Column(hashes, n, n - 1 - i)
  {
    Slivers(RowsUpTo(hashes, n, n), ColumnsUpTo(hashes, n, n))
  }

  // ---------------------------------------------------------------- what the builder answers

  ghost predicate AllBelow(requests: seq<WalrusSymbolRequest>, n: nat)
  {
    forall request :: request in requests ==> request.leafIndex < n
  }

  ghost predicate InRange(sample: WalrusSampleRequest, n: nat)
  {
    sample.shardIndex < n && AllBelow(sample.primarySymbols, n) && AllBelow(sample.secondarySymbols, n)
  }

  ghost predicate AllInRange(samples: seq<WalrusSampleRequest>, n: nat)
  {
    forall k :: 0 <= k < |samples| ==> InRange(samples[k], n)
  }

  ghost function RangeVerdict(samples: seq<WalrusSampleRequest>, n: nat): (r: Result<(), BuildError>)
    ensures r.Ok? <==> AllInRange(samples, n)
  {
    if samples == [] then Ok(())
    else if samples[0].shardIndex >= n then Err(SampleShardOutOfRange)
    else if !InRange(samples[0], n) then Err(LeafIndexOutOfRange)
    else RangeVerdict(samples[1..], n)
  }

  ghost function OpenedSymbols(requests: seq<WalrusSymbolRequest>, leaves: seq<Node>)
    : (r: seq<WalrusSymbolOpening>)
    requires AllBelow(requests, |leaves|)
    ensures |r| == |requests|
    ensures forall k :: 0 <= k < |r| ==> requests[k].leafIndex < |leaves|
    ensures forall k :: 0 <= k < |r| ==>
      r[k] == WalrusSymbolOpening(requests[k].leafIndex, requests[k].symbol, ProofPath(leaves, requests[k].leafIndex))
  {
    if requests == [] then []
    else
      var q := requests[0];
      [WalrusSymbolOpening(q.leafIndex, q.symbol, ProofPath(leaves, q.leafIndex))]
      + OpenedSymbols(requests[1..], leaves)
  }

  function Symbols(requests: seq<WalrusSymbolRequest>): (r: seq<seq<Octet>>)
    ensures |r| == |requests|
    ensures forall k :: 0 <= k < |r| ==> r[k] == requests[k].symbol
  {
    if requests == [] then [] else [requests[0].symbol] + Symbols(requests[1..])
  }

  ghost predicate Ordered(requests: seq<WalrusSymbolRequest>)
  {
    forall k :: 0 <= k < |requests| ==> requests[k].leafIndex == k
  }

  ghost function ShardOf(slivers: Slivers, sample: WalrusSampleRequest): WalrusShardOpening
    requires slivers.Square() && InRange(sample, slivers.Count())
  {
    var i := sample.shardIndex;
    WalrusShardOpening(
      i, slivers.Pair(i).primary, slivers.Pair(i).secondary,
      OpenedSymbols(sample.primarySymbols, slivers.Primary(i)),
      OpenedSymbols(sample.secondarySymbols, slivers.Secondary(i)),
      ProofPath(LeafHashes(PairLeaves(slivers.Pairs())), i),
      Symbols(sample.columnSymbols),
      slivers.Primary(i))
  }

  ghost function SliverVerdict(sample: WalrusSampleRequest): Result<(), BuildError>
  {
    if |sample.columnSymbols| != COL_HEIGHT_SECONDARY then Err(SliverLengthMismatch)
    else if !Ordered(sample.columnSymbols) then Err(SliverSymbolsUnordered)
    else Ok(())
  }

  // The first failure among the samples.
  ghost function SliversVerdict(samples: seq<WalrusSampleRequest>): (r: Result<(), BuildError>)
    ensures r.Ok? ==> forall k :: 0 <= k < |samples| ==> |samples[k].columnSymbols| == COL_HEIGHT_SECONDARY
  {
    if samples == [] then Ok(())
    else if SliverVerdict(samples[0]).Err? then SliverVerdict(samples[0])
    else SliversVerdict(samples[1..])
  }

  ghost function ShardsUpTo(slivers: Slivers, samples: seq<WalrusSampleRequest>, count: nat)
    : (r: seq<WalrusShardOpening>)
    requires slivers.Square() && count <= |samples| && AllInRange(samples, slivers.Count())
    ensures |r| == count
  {
    if count == 0 then [] else ShardsUpTo(slivers, samples, count - 1) + [ShardOf(slivers, samples[count - 1])]
  }

  ghost function ShardsOf(slivers: Slivers, samples: seq<WalrusSampleRequest>): seq<WalrusShardOpening>
    requires slivers.Square() && AllInRange(samples, slivers.Count())
  {
    ShardsUpTo(slivers, samples, |samples|)
  }

  ghost function BuildVerdict(hashes: seq<Node>, encoding: EncodingType, unencodedLength: U64,
                              samples: seq<WalrusSampleRequest>): Result<WalrusBlobOpening, BuildError>
  {
    var n := Isqrt(|hashes|);
    if n == 0 || !IsMatrix(hashes, n) then Err(MatrixNotSquare)
    else if n > U32_MAX then Err(TooManyShards)
    else if RangeVerdict(samples, n).Err? then Err(RangeVerdict(samples, n).error)
    else if SliversVerdict(samples).Err? then Err(SliversVerdict(samples).error)
    else
      var slivers := SliversOf(hashes, n);
      Ok(WalrusBlobOpening(BlobIdOf(slivers.Pairs(), encoding, unencodedLength), encoding.Code(), unencodedLength, n,
                           slivers.Pairs(), ShardsOf(slivers, samples)))
  }

  // ---------------------------------------------------------------- the builder

  method CheckLeaves(requests: seq<WalrusSymbolRequest>, n: nat) returns (ok: bool)
    ensures ok <==> AllBelow(requests, n)
  {
    for k := 0 to |requests|
      invariant forall j :: 0 <= j < k ==> requests[j].leafIndex < n
    {
      if requests[k].leafIndex >= n {
        assert requests[k] in requests;
        return false;
      }
    }
    return true;
  }

  method CheckRanges(samples: seq<WalrusSampleRequest>, n: nat) returns (r: Result<(), BuildError>)
    ensures r == RangeVerdict(samples, n)
    ensures r == Err(SampleShardOutOfRange) ==> exists k :: 0 <= k < |samples| && samples[k].shardIndex >= n
    ensures r == Err(LeafIndexOutOfRange) ==> exists k, q ::
      0 <= k < |samples| && q in samples[k].primarySymbols + samples[k].secondarySymbols && q.leafIndex >= n
    ensures r.Ok? ==> forall k :: 0 <= k < |samples| ==> samples[k].shardIndex < n
    ensures r.Ok? ==> forall k, q ::
      0 <= k < |samples| && q in samples[k].primarySymbols + samples[k].secondarySymbols ==> q.leafIndex < n
  {
    for k := 0 to |samples|
      invariant RangeVerdict(samples, n) == RangeVerdict(samples[k..], n)
    {
      DropNext(samples, k);
      if samples[k].shardIndex >= n {
        return Err(SampleShardOutOfRange);
      }
      var primaryOk := CheckLeaves(samples[k].primarySymbols, n);
      var secondaryOk := CheckLeaves(samples[k].secondarySymbols, n);
      if !primaryOk || !secondaryOk {
        return Err(LeafIndexOutOfRange);
      }
    }
    return Ok(());
  }

  method ReadRow(hashes: seq<Node>, n: nat, i: nat) returns (row: seq<Node>)
    requires IsMatrix(hashes, n) && i < n
    ensures row == Row(hashes, n, i)
  {
    Distribute(i, 1, n);
    TimesMonotonic(i + 1, n, n);
    row := hashes[i * n..(i + 1) * n];
    forall k | 0 <= k < n
      ensures row[k] == Cell(hashes, n, i, k)
    {
      CellInRange(n, i, k);
    }
  }

  method ReadColumn(hashes: seq<Node>, n: nat, i: nat) returns (column: seq<Node>)
    requires IsMatrix(hashes, n) && i < n
    ensures column == Column(hashes, n, n - 1 - i)
  {
    column := [];
    for row := 0 to n
      invariant column == ColumnUpTo(hashes, n, n - 1 - i, row)
    {
      CellInRange(n, row, n - 1 - i);
      column := column + [hashes[row * n + n - 1 - i]];
    }
  }

  method SliverTrees(hashes: seq<Node>, n: nat, ghost slivers: Slivers, i: nat)
    returns (primaryTree: MerkleTree, secondaryTree: MerkleTree)
    requires IsMatrix(hashes, n) && slivers == SliversOf(hashes, n) && i < n
    ensures primaryTree.Over(slivers.Primary(i)) && secondaryTree.Over(slivers.Secondary(i))
    ensures SliverPairRoots(primaryTree.RootNode().Bytes(), secondaryTree.RootNode().Bytes()) == slivers.Pair(i)
  {
    var row := ReadRow(hashes, n, i);
    var column := ReadColumn(hashes, n, i);
    primaryTree := BuildFromLeafHashes(row);
    secondaryTree := BuildFromLeafHashes(column);
  }

  method ComputePairs(hashes: seq<Node>, n: nat, ghost slivers: Slivers) returns (roots: seq<SliverPairRoots>)
    requires IsMatrix(hashes, n) && slivers == SliversOf(hashes, n)
    ensures roots == slivers.Pairs()
  {
    roots := [];
    for i := 0 to n
      invariant roots == slivers.PairsUpTo(i)
    {
      var primaryTree, secondaryTree := SliverTrees(hashes, n, slivers, i);
      roots := roots + [SliverPairRoots(primaryTree.RootNode().Bytes(), secondaryTree.RootNode().Bytes())];
    }
  }

  method OpenSymbols(requests: seq<WalrusSymbolRequest>, tree: MerkleTree, ghost leaves: seq<Node>)
    returns (openings: seq<WalrusSymbolOpening>)
    requires tree.Over(leaves) && AllBelow(requests, |leaves|)
    ensures openings == OpenedSymbols(requests, leaves)
  {
    openings := [];
    for k := 0 to |requests|
      invariant openings == OpenedSymbols(requests, leaves)[..k]
    {
      var proof := tree.GetProof(requests[k].leafIndex, leaves);
      TakeNext(OpenedSymbols(requests, leaves), k);
      openings := openings + [WalrusSymbolOpening(requests[k].leafIndex, requests[k].symbol, proof.value)];
    }
  }

  method CheckSliver(sample: WalrusSampleRequest) returns (r: Result<(), BuildError>)
    ensures r == SliverVerdict(sample)
    ensures r == Err(SliverLengthMismatch) <==> |sample.columnSymbols| != 667
    ensures |sample.columnSymbols| == 667 ==>
      (r == Err(SliverSymbolsUnordered) <==> exists k :: 0 <= k < 667 && sample.columnSymbols[k].leafIndex != k)
  {
    if |sample.columnSymbols| != COL_HEIGHT_SECONDARY {
      return Err(SliverLengthMismatch);
    }
    for leafIndex := 0 to |sample.columnSymbols|
      invariant forall k :: 0 <= k < leafIndex ==> sample.columnSymbols[k].leafIndex == k
    {
      if sample.columnSymbols[leafIndex].leafIndex != leafIndex {
        return Err(SliverSymbolsUnordered);
      }
    }
    return Ok(());
  }

  method OpenShard(hashes: seq<Node>, n: nat, ghost slivers: Slivers, roots: seq<SliverPairRoots>,
                   pairTree: MerkleTree, sample: WalrusSampleRequest) returns (shard: WalrusShardOpening)
    requires IsMatrix(hashes, n) && slivers == SliversOf(hashes, n) && InRange(sample, n)
    requires roots == slivers.Pairs() && pairTree.Over(LeafHashes(PairLeaves(roots)))
    ensures shard == ShardOf(slivers, sample)
  {
    var i := sample.shardIndex;
    var primaryTree, secondaryTree := SliverTrees(hashes, n, slivers, i);
    var primarySymbols := OpenSymbols(sample.primarySymbols, primaryTree, slivers.Primary(i));
    var secondarySymbols := OpenSymbols(sample.secondarySymbols, secondaryTree, slivers.Secondary(i));
    var columnLeafHashes := ReadRow(hashes, n, i);
    var pairProof := pairTree.GetProof(i, LeafHashes(PairLeaves(roots)));
    shard := WalrusShardOpening(i, roots[i].primary, roots[i].secondary, primarySymbols, secondarySymbols,
                                pairProof.value, Symbols(sample.columnSymbols), columnLeafHashes);
  }

  method OpenShards(hashes: seq<Node>, n: nat, ghost slivers: Slivers, roots: seq<SliverPairRoots>,
                    samples: seq<WalrusSampleRequest>) returns (r: Result<seq<WalrusShardOpening>, BuildError>)
    requires IsMatrix(hashes, n) && slivers == SliversOf(hashes, n) && roots == slivers.Pairs()
    requires AllInRange(samples, n)
    ensures r == if SliversVerdict(samples).Err? then Err(SliversVerdict(samples).error)
                 else Ok(ShardsOf(slivers, samples))
  {
    var pairTree := Build(PairLeaves(roots));
    var shards := [];
    DropAll(samples);
    for k := 0 to |samples|
      invariant SliversVerdict(samples) == SliversVerdict(samples[k..])
      invariant shards == ShardsUpTo(slivers, samples, k)
    {
      DropNext(samples, k);
      var checked := CheckSliver(samples[k]);
      if checked.Err? {
        return Err(checked.error);
      }
      var shard := OpenShard(hashes, n, slivers, roots, pairTree, samples[k]);
      shards := shards + [shard];
    }
    return Ok(shards);
  }

  method BuildWalrusBlobOpening(hashes: seq<Node>, encoding: EncodingType, unencodedLength: U64,
                                samples: seq<WalrusSampleRequest>) returns (r: Result<WalrusBlobOpening, BuildError>)
    ensures r == BuildVerdict(hashes, encoding, unencodedLength, samples)
    ensures hashes == [] || Isqrt(|hashes|) * Isqrt(|hashes|) != |hashes| ==> r == Err(MatrixNotSquare)
    ensures hashes != [] && Isqrt(|hashes|) * Isqrt(|hashes|) == |hashes| && Isqrt(|hashes|) >= 0x1_0000_0000 ==>
      r == Err(TooManyShards)
  {
    var n := Isqrt(|hashes|);
    if n == 0 || n * n != |hashes| {
      return Err(MatrixNotSquare);
    }
    if n > U32_MAX {
      return Err(TooManyShards);
    }
    var ranges := CheckRanges(samples, n);
    if ranges.Err? {
      return Err(ranges.error);
    }
    ghost var slivers := SliversOf(hashes, n);
    var roots := ComputePairs(hashes, n, slivers);
    var metadata := BlobMetadata(encoding, unencodedLength, Metadatas(roots));
    var blobId := metadata.ComputeBlobId();
    var shards := OpenShards(hashes, n, slivers, roots, samples);
    if shards.Err? {
      return Err(shards.error);
    }
    return Ok(WalrusBlobOpening(blobId, encoding.Code(), unencodedLength, n, roots, shards.value));
  }

  // ---------------------------------------------------------------- agreement with the verifier

  ghost predicate AllMatch(requests: seq<WalrusSymbolRequest>, leaves: seq<Node>)
  {
    forall q :: q in requests ==>
      q.leafIndex < |leaves| && LeafHash(q.symbol).Bytes() == leaves[q.leafIndex].Bytes()
  }

  // The requested symbols hash to the cells they are requested for.
  ghost predicate RequestsMatch(slivers: Slivers, sample: WalrusSampleRequest)
    requires slivers.Square() && sample.shardIndex < slivers.Count()
  {
    && AllMatch(sample.primarySymbols, slivers.Primary(sample.shardIndex))
    && AllMatch(sample.secondarySymbols, slivers.Secondary(sample.shardIndex))
    && SymbolHashesMatch(Symbols(sample.columnSymbols), slivers.Primary(sample.shardIndex))
  }

  lemma OpenedSymbolsMatch(requests: seq<WalrusSymbolRequest>, leaves: seq<Node>)
    requires AllBelow(requests, |leaves|)
    ensures AllOpenLeaves(OpenedSymbols(requests, leaves), leaves) <==> AllMatch(requests, leaves)
  {
    var symbols := OpenedSymbols(requests, leaves);
    if AllOpenLeaves(symbols, leaves) {
      forall k | 0 <= k < |requests|
        ensures LeafHash(requests[k].symbol).Bytes() == leaves[requests[k].leafIndex].Bytes()
      {
        assert symbols[k] in symbols;
      }
    }
    if AllMatch(requests, leaves) {
      forall k | 0 <= k < |requests|
        ensures OpensLeaf(symbols[k], leaves)
      {
        assert requests[k] in requests;
      }
    }
  }

  lemma AuthenticWhenMatching(shard: WalrusShardOpening, roots: seq<SliverPairRoots>, sample: WalrusSampleRequest,
                              row: seq<Node>, column: seq<Node>)
    requires Linked(shard, roots) && |row| == |column| == |roots| && InRange(sample, |roots|)
    requires shard.columnLeafHashes == row && shard.secondaryRoot == Root(column).Bytes()
    requires shard.primarySymbols == OpenedSymbols(sample.primarySymbols, row)
    requires shard.secondarySymbols == OpenedSymbols(sample.secondarySymbols, column)
    ensures AuthenticShard(shard, roots)
       <==> && AllMatch(sample.primarySymbols, row)
            && AllMatch(sample.secondarySymbols, column)
            && SymbolHashesMatch(shard.columnSymbols, row)
  {
    OpenedSymbolsMatch(sample.primarySymbols, row);
    OpenedSymbolsMatch(sample.secondarySymbols, column);
    OpenRootMeansOpenLeaves(shard.secondarySymbols, shard.secondaryRoot, column);
  }

  lemma ShardLinked(slivers: Slivers, sample: WalrusSampleRequest)
    requires slivers.Square() && InRange(sample, slivers.Count())
    requires |sample.columnSymbols| == COL_HEIGHT_SECONDARY
    ensures Linked(ShardOf(slivers, sample), slivers.Pairs())
  {
  }

  lemma ShardMatches(slivers: Slivers, sample: WalrusSampleRequest)
    requires slivers.Square() && InRange(sample, slivers.Count())
    requires |sample.columnSymbols| == COL_HEIGHT_SECONDARY
    ensures AuthenticShard(ShardOf(slivers, sample), slivers.Pairs()) <==> RequestsMatch(slivers, sample)
  {
    ShardLinked(slivers, sample);
    AuthenticWhenMatching(ShardOf(slivers, sample), slivers.Pairs(), sample,
                          slivers.Primary(sample.shardIndex), slivers.Secondary(sample.shardIndex));
  }

  ghost predicate AllRequestsMatch(slivers: Slivers, samples: seq<WalrusSampleRequest>)
    requires slivers.Square()
  {
    forall k :: 0 <= k < |samples| ==>
      samples[k].shardIndex < slivers.Count() && RequestsMatch(slivers, samples[k])
  }

  ghost predicate AllAuthentic(shards: seq<WalrusShardOpening>, roots: seq<SliverPairRoots>)
  {
    forall shard :: shard in shards ==> AuthenticShard(shard, roots)
  }

  lemma AllAuthenticSnoc(shards: seq<WalrusShardOpening>, last: WalrusShardOpening, roots: seq<SliverPairRoots>)
    ensures AllAuthentic(shards + [last], roots) <==> AllAuthentic(shards, roots) && AuthenticShard(last, roots)
  {
  }

  lemma {:induction false} ShardsMatch(slivers: Slivers, samples: seq<WalrusSampleRequest>, count: nat)
    requires slivers.Square() && count <= |samples| && AllInRange(samples, slivers.Count())
    requires SliversVerdict(samples).Ok?
    ensures AllAuthentic(ShardsUpTo(slivers, samples, count), slivers.Pairs())
       <==> AllRequestsMatch(slivers, samples[..count])
  {
    if count > 0 {
      hide RequestsMatch, AuthenticShard, AllAuthentic, AllRequestsMatch, ShardOf;
      var k := count - 1;
      ShardsMatch(slivers, samples, k);
      ShardMatches(slivers, samples[k]);
      AllAuthenticSnoc(ShardsUpTo(slivers, samples, k), ShardOf(slivers, samples[k]), slivers.Pairs());
      TakeNext(samples, k);
      AllRequestsMatchSnoc(slivers, samples[..k], samples[k]);
    }
  }

  lemma AllRequestsMatchSnoc(slivers: Slivers, samples: seq<WalrusSampleRequest>, last: WalrusSampleRequest)
    requires slivers.Square()
    ensures AllRequestsMatch(slivers, samples + [last])
       <==> && AllRequestsMatch(slivers, samples)
            && last.shardIndex < slivers.Count() && RequestsMatch(slivers, last)
  {
    var all := samples + [last];
    assert all[|samples|] == last;
    assert forall k :: 0 <= k < |samples| ==> all[k] == samples[k];
  }

  // What the builder returns is accepted exactly when the encoding is not the deprecated one
  // and every requested symbol hashes to the cell it is requested for.
  lemma BuilderAgreesWithVerifier(hashes: seq<Node>, encoding: EncodingType, unencodedLength: U64,
                                  samples: seq<WalrusSampleRequest>)
    requires BuildVerdict(hashes, encoding, unencodedLength, samples).Ok?
    ensures var opening := BuildVerdict(hashes, encoding, unencodedLength, samples).value;
      && IsMatrix(hashes, opening.nShards)
      && (OpeningVerdict(opening).Ok? <==>
            (encoding == RS2 && AllRequestsMatch(SliversOf(hashes, opening.nShards), samples)))
  {
    var opening := BuildVerdict(hashes, encoding, unencodedLength, samples).value;
    ShardsMatch(SliversOf(hashes, opening.nShards), samples, |samples|);
    DropAll(samples);
    AcceptanceMeans(opening);
  }

  // The deprecated encoding is built without complaint and always refused.
  lemma DeprecatedEncodingRefused(hashes: seq<Node>, unencodedLength: U64, samples: seq<WalrusSampleRequest>)
    ensures BuildVerdict(hashes, RedStuffRaptorQ, unencodedLength, samples).Ok?
       <==> BuildVerdict(hashes, RS2, unencodedLength, samples).Ok?
    ensures BuildVerdict(hashes, RedStuffRaptorQ, unencodedLength, samples).Ok? ==>
      OpeningVerdict(BuildVerdict(hashes, RedStuffRaptorQ, unencodedLength, samples).value) == Err(InvalidEncodingType)
  {
  }
}
