/** An honest seller: openings of the sampled columns of an encoded blob are accepted, and the
    honest proofs pass every check on them. */
module HonestSeller {
  import opened Arithmetic
  import opened IdealHash
  import opened Merkle
  import opened BlobCommitment
  import opened BlobOpening
  import opened OpeningBuilder
  import opened Rslh
  import opened ColumnBinding
  import opened DeliveryCheck
  import opened Wrappers

  const N_SHARDS: nat := 1000

  // What the encoder yields, as far as openings of columns use it: the hashes of all symbols,
  // the symbols of the primary slivers, and the first symbol of each secondary sliver.
  datatype EncodedBlob = EncodedBlob(hashes: seq<Node>, primary: (nat, nat) -> seq<Byte>,
                                     secondaryFirst: nat -> seq<Octet>)

  // Symbol `r` of primary sliver `c` is that of the message matrix, padded with zeros.
  ghost predicate IsMessageSymbol(symbol: seq<Byte>, data: seq<Byte>, size: nat, c: nat, r: nat)
  {
    |symbol| == size && forall j :: 0 <= j < size ==> symbol[j] == BlobByte(data, NO_FILLING, c, size, j, r)
  }

  // The encoding is systematic and its hashes are those of its symbols. Nothing is said of the
  // redundant symbols but the few that are opened.
  ghost predicate Encodes(blob: EncodedBlob, data: seq<Byte>)
  {
    && IsMatrix(blob.hashes, N_SHARDS)
    && (forall c: nat, r: nat :: c < ROW_WIDTH_PRIMARY && r < COL_HEIGHT_SECONDARY ==>
          && IsMessageSymbol(blob.primary(c, r), data, WalrusSymbolSize(|data|), c, r)
          && Cell(blob.hashes, N_SHARDS, c, r) == LeafHash(Raws(blob.primary(c, r))))
    && (forall c: nat :: c < ROW_WIDTH_PRIMARY ==>
          Cell(blob.hashes, N_SHARDS, 0, N_SHARDS - 1 - c) == LeafHash(blob.secondaryFirst(c)))
  }

  // ---------------------------------------------------------------- the samples

  // The symbols of a primary sliver, requested in order.
  function ColumnRequests(blob: EncodedBlob, c: nat, count: nat): (r: seq<WalrusSymbolRequest>)
    ensures |r| == count
    ensures forall k :: 0 <= k < count ==> r[k] == WalrusSymbolRequest(k, Raws(blob.primary(c, k)))
  {
    if count == 0 then []
    else ColumnRequests(blob, c, count - 1) + [WalrusSymbolRequest(count - 1, Raws(blob.primary(c, count - 1)))]
  }

  // A sample: the whole primary sliver of its column, and the first leaf of either tree.
  function SampleFor(blob: EncodedBlob, index: nat): WalrusSampleRequest
  {
    var c := index % ROW_WIDTH_PRIMARY;
    WalrusSampleRequest(c, [WalrusSymbolRequest(0, Raws(blob.primary(c, 0)))],
                        [WalrusSymbolRequest(0, blob.secondaryFirst(c))],
                        ColumnRequests(blob, c, COL_HEIGHT_SECONDARY))
  }

  function SamplesFor(blob: EncodedBlob, indices: seq<nat>): (r: seq<WalrusSampleRequest>)
    ensures |r| == |indices|
    ensures forall k :: 0 <= k < |r| ==> r[k] == SampleFor(blob, indices[k])
  {
    if indices == [] then []
    else
      var k := |indices| - 1;
      SamplesFor(blob, indices[..k]) + [SampleFor(blob, indices[k])]
  }

  // ---------------------------------------------------------------- building the opening

  datatype ColumnBuildError = PackSizeMismatch | PackSizeOutOfRange | Builder(error: BuildError)

  // The opening of the sampled columns of an encoded blob.
  ghost function ColumnBuildVerdict(blob: EncodedBlob, length: U64, indices: seq<nat>, packSize: nat)
    : Result<WalrusBlobOpening, ColumnBuildError>
  {
    if packSize != WalrusSymbolSize(length) then Err(ColumnBuildError.PackSizeMismatch)
    else if packSize >= 65535 then Err(PackSizeOutOfRange)
    else
      match BuildVerdict(blob.hashes, RS2, length, SamplesFor(blob, indices))
      case Err(error) => Err(Builder(error))
      case Ok(opening) => Ok(opening)
  }

  method BuildColumnBlobOpening(blob: EncodedBlob, length: U64, indices: seq<nat>, packSize: nat)
    returns (r: Result<WalrusBlobOpening, ColumnBuildError>)
    ensures r == ColumnBuildVerdict(blob, length, indices, packSize)
    ensures r == Err(ColumnBuildError.PackSizeMismatch) <==> packSize != WalrusSymbolSize(length)
    ensures r == Err(PackSizeOutOfRange) <==> packSize == WalrusSymbolSize(length) && packSize >= 65535
  {
    hide BuildVerdict, WalrusSymbolSize;
    if packSize != WalrusSymbolSize(length) {
      return Err(ColumnBuildError.PackSizeMismatch);
    }
    if packSize >= 65535 {
      return Err(PackSizeOutOfRange);
    }
    var samples := [];
    for i := 0 to |indices|
      invariant samples == SamplesFor(blob, indices[..i])
    {
      assert indices[..i + 1][..i] == indices[..i];
      var c := indices[i] % ROW_WIDTH_PRIMARY;
      var columnSymbols := [];
      for k := 0 to COL_HEIGHT_SECONDARY
        invariant columnSymbols == ColumnRequests(blob, c, k)
      {
        columnSymbols := columnSymbols + [WalrusSymbolRequest(k, Raws(blob.primary(c, k)))];
      }
      samples := samples + [WalrusSampleRequest(c, [WalrusSymbolRequest(0, Raws(blob.primary(c, 0)))],
                                                [WalrusSymbolRequest(0, blob.secondaryFirst(c))], columnSymbols)];
    }
    assert indices[..|indices|] == indices;
    var built := BuildWalrusBlobOpening(blob.hashes, RS2, length, samples);
    return match built case Err(error) => Err(Builder(error)) case Ok(opening) => Ok(opening);
  }

  // ---------------------------------------------------------------- it is built and accepted

  lemma SquaresGrow(a: nat, b: nat)
    requires a < b
    ensures (a + 1) * (a + 1) <= b * b
  {
    TimesMonotonic(a + 1, b, a + 1);
    TimesMonotonic(a + 1, b, b);
  }

  lemma RootOfSquare(n: nat)
    ensures Isqrt(n * n) == n
  {
    hide Isqrt;
    var r := Isqrt(n * n);
    if r < n {
      SquaresGrow(r, n);
    } else if n < r {
      SquaresGrow(n, r);
    }
  }

  lemma SampleInRange(blob: EncodedBlob, index: nat)
    ensures InRange(SampleFor(blob, index), N_SHARDS) && OpeningBuilder.SliverVerdict(SampleFor(blob, index)).Ok?
  {
  }

  lemma {:induction false} SliversInOrder(samples: seq<WalrusSampleRequest>)
    requires forall k :: 0 <= k < |samples| ==> OpeningBuilder.SliverVerdict(samples[k]).Ok?
    ensures SliversVerdict(samples).Ok?
  {
    if samples != [] {
      SliversInOrder(samples[1..]);
    }
  }

  lemma HonestBuilt(blob: EncodedBlob, data: seq<Byte>, length: U64, indices: seq<nat>)
    requires Encodes(blob, data)
    ensures IsMatrix(blob.hashes, N_SHARDS)
    ensures var built := BuildVerdict(blob.hashes, RS2, length, SamplesFor(blob, indices));
      var slivers := SliversOf(blob.hashes, N_SHARDS);
      && AllInRange(SamplesFor(blob, indices), N_SHARDS)
      && built.Ok? && built.value.nShards == N_SHARDS && built.value.unencodedLength == length
      && built.value.shards == ShardsOf(slivers, SamplesFor(blob, indices))
  {
    hide InRange, OpeningBuilder.SliverVerdict, SampleFor, SliversOf, ShardsOf, BlobIdOf, WalrusSymbolSize, Isqrt;
    var samples := SamplesFor(blob, indices);
    forall k | 0 <= k < |samples|
      ensures InRange(samples[k], N_SHARDS) && OpeningBuilder.SliverVerdict(samples[k]).Ok?
    {
      SampleInRange(blob, indices[k]);
    }
    SliversInOrder(samples);
    RootOfSquare(N_SHARDS);
  }

  // Every symbol that is shown hashes to the cell it is shown for.
  lemma HonestRequestsMatch(blob: EncodedBlob, data: seq<Byte>, index: nat)
    requires Encodes(blob, data)
    ensures RequestsMatch(SliversOf(blob.hashes, N_SHARDS), SampleFor(blob, index))
  {
    hide WalrusSymbolSize, Cell, IsMessageSymbol, SliversOf, OpeningBuilder.Row, OpeningBuilder.Column;
    var c := index % ROW_WIDTH_PRIMARY;
    var slivers := SliversOf(blob.hashes, N_SHARDS);
    assert slivers.Primary(c) == OpeningBuilder.Row(blob.hashes, N_SHARDS, c);
    assert slivers.Secondary(c) == OpeningBuilder.Column(blob.hashes, N_SHARDS, N_SHARDS - 1 - c);
    RowCells(blob.hashes, c);
    ColumnCells(blob.hashes, N_SHARDS - 1 - c);
    assert Cell(blob.hashes, N_SHARDS, c, 0) == LeafHash(Raws(blob.primary(c, 0)));
  }

  lemma RowCells(hashes: seq<Node>, c: nat)
    requires IsMatrix(hashes, N_SHARDS) && c < N_SHARDS
    ensures |OpeningBuilder.Row(hashes, N_SHARDS, c)| == N_SHARDS
    ensures forall r: nat :: r < N_SHARDS ==> OpeningBuilder.Row(hashes, N_SHARDS, c)[r] == Cell(hashes, N_SHARDS, c, r)
  {
    hide Cell, RowUpTo;
  }

  lemma ColumnCells(hashes: seq<Node>, c: nat)
    requires IsMatrix(hashes, N_SHARDS) && c < N_SHARDS
    ensures |OpeningBuilder.Column(hashes, N_SHARDS, c)| == N_SHARDS
    ensures OpeningBuilder.Column(hashes, N_SHARDS, c)[0] == Cell(hashes, N_SHARDS, 0, c)
  {
    hide Cell, ColumnUpTo;
  }

  // Whatever the samples, the opening of an encoded blob is built and accepted.
  lemma HonestOpeningAccepted(blob: EncodedBlob, data: seq<Byte>, length: U64, indices: seq<nat>)
    requires Encodes(blob, data)
    ensures var built := BuildVerdict(blob.hashes, RS2, length, SamplesFor(blob, indices));
      built.Ok? && OpeningVerdict(built.value).Ok?
  {
    hide BuildVerdict, OpeningVerdict, RequestsMatch, SliversOf, Encodes, SampleFor, ShardsOf;
    HonestBuilt(blob, data, length, indices);
    var samples := SamplesFor(blob, indices);
    forall k | 0 <= k < |samples|
      ensures samples[k].shardIndex < N_SHARDS && RequestsMatch(SliversOf(blob.hashes, N_SHARDS), samples[k])
    {
      SampleInRange(blob, indices[k]);
      HonestRequestsMatch(blob, data, indices[k]);
    }
    BuilderAgreesWithVerifier(blob.hashes, RS2, length, samples);
  }

  // ---------------------------------------------------------------- what it shows

  function ColumnOf(blob: EncodedBlob, c: nat, count: nat): (r: seq<seq<Byte>>)
    ensures |r| == count && forall k :: 0 <= k < count ==> r[k] == blob.primary(c, k)
  {
    if count == 0 then [] else ColumnOf(blob, c, count - 1) + [blob.primary(c, count - 1)]
  }

  function ShardsShown(blob: EncodedBlob, indices: seq<nat>): (r: seq<ColumnShard>)
    ensures |r| == |indices|
    ensures forall k :: 0 <= k < |r| ==> r[k] == ColumnShard(indices[k] % ROW_WIDTH_PRIMARY,
                          ColumnOf(blob, indices[k] % ROW_WIDTH_PRIMARY, COL_HEIGHT_SECONDARY))
  {
    if indices == [] then []
    else
      var k := |indices| - 1;
      var c := indices[k] % ROW_WIDTH_PRIMARY;
      ShardsShown(blob, indices[..k]) + [ColumnShard(c, ColumnOf(blob, c, COL_HEIGHT_SECONDARY))]
  }

  // What the column checks read of the opening of a blob.
  function Shown(blob: EncodedBlob, length: nat, indices: seq<nat>): ColumnOpening
  {
    ColumnOpening(N_SHARDS, length, ShardsShown(blob, indices))
  }

  lemma {:induction false} ShardAt(slivers: Slivers, samples: seq<WalrusSampleRequest>, count: nat, k: nat)
    requires slivers.Square() && k < count <= |samples| && AllInRange(samples, slivers.Count())
    ensures ShardsUpTo(slivers, samples, count)[k] == ShardOf(slivers, samples[k])
  {
    hide ShardOf;
    if k < count - 1 {
      ShardAt(slivers, samples, count - 1, k);
    }
  }

  lemma SampleCarried(slivers: Slivers, blob: EncodedBlob, index: nat)
    requires slivers.Square() && slivers.Count() == N_SHARDS && InRange(SampleFor(blob, index), N_SHARDS)
    ensures var c := index % ROW_WIDTH_PRIMARY;
      CarriesShard(ShardOf(slivers, SampleFor(blob, index)), ColumnShard(c, ColumnOf(blob, c, COL_HEIGHT_SECONDARY)))
  {
    hide InRange;
  }

  // An opening shows, of every sampled shard, the first symbol of either sliver and the whole
  // primary sliver.
  lemma HonestOpeningShows(blob: EncodedBlob, data: seq<Byte>, length: U64, indices: seq<nat>, k: nat)
    requires Encodes(blob, data) && k < |indices|
    ensures BuildVerdict(blob.hashes, RS2, length, SamplesFor(blob, indices)).Ok?
    ensures var opening := BuildVerdict(blob.hashes, RS2, length, SamplesFor(blob, indices)).value;
      && opening.nShards == 1000 && opening.unencodedLength == length && |opening.shards| == |indices|
      && ShowsSample(opening.shards[k], blob, indices[k])
  {
    hide BuildVerdict, SliversOf, Encodes, SampleFor, ShardOf, ShowsSample;
    HonestBuilt(blob, data, length, indices);
    var samples, slivers := SamplesFor(blob, indices), SliversOf(blob.hashes, N_SHARDS);
    SampleInRange(blob, indices[k]);
    ShardAt(slivers, samples, |samples|, k);
    SampleShown(slivers, blob, indices[k]);
  }

  ghost predicate ShowsSample(shard: WalrusShardOpening, blob: EncodedBlob, index: nat)
  {
    && shard.shardIndex == index % 334
    && |shard.primarySymbols| == 1 && shard.primarySymbols[0].leafIndex == 0
    && shard.primarySymbols[0].symbol == Raws(blob.primary(index % 334, 0))
    && |shard.secondarySymbols| == 1 && shard.secondarySymbols[0].leafIndex == 0
    && shard.secondarySymbols[0].symbol == blob.secondaryFirst(index % 334)
    && |shard.columnSymbols| == 667
    && forall r :: 0 <= r < 667 ==> shard.columnSymbols[r] == Raws(blob.primary(index % 334, r))
  }

  lemma SampleShown(slivers: Slivers, blob: EncodedBlob, index: nat)
    requires slivers.Square() && slivers.Count() == N_SHARDS && InRange(SampleFor(blob, index), N_SHARDS)
    ensures ShowsSample(ShardOf(slivers, SampleFor(blob, index)), blob, index)
  {
    hide InRange;
  }

  lemma HonestOpeningCarries(blob: EncodedBlob, data: seq<Byte>, length: U64, indices: seq<nat>)
    requires Encodes(blob, data)
    requires BuildVerdict(blob.hashes, RS2, length, SamplesFor(blob, indices)).Ok?
    ensures Carries(BuildVerdict(blob.hashes, RS2, length, SamplesFor(blob, indices)).value, Shown(blob, length,
        indices))
  {
    hide BuildVerdict, SliversOf, Encodes, SampleFor, ShardOf, CarriesShard, ColumnOf;
    HonestBuilt(blob, data, length, indices);
    var samples, slivers := SamplesFor(blob, indices), SliversOf(blob.hashes, N_SHARDS);
    var shards, shown := ShardsOf(slivers, samples), ShardsShown(blob, indices);
    forall k | 0 <= k < |indices|
      ensures CarriesShard(shards[k], shown[k])
    {
      SampleInRange(blob, indices[k]);
      ShardAt(slivers, samples, |samples|, k);
      SampleCarried(slivers, blob, indices[k]);
    }
  }

  lemma ShownLaidOut(blob: EncodedBlob, data: seq<Byte>, indices: seq<nat>)
    requires Encodes(blob, data)
    ensures ShowsColumns(Shown(blob, |data|, indices), indices, data, WalrusSymbolSize(|data|))
  {
    hide WalrusSymbolSize, Cell, IsMatrix;
    var shown, size := ShardsShown(blob, indices), WalrusSymbolSize(|data|);
    forall i | 0 <= i < |indices|
      ensures LaidOut(shown[i], data, size)
    {
      var c := indices[i] % ROW_WIDTH_PRIMARY;
      forall r: nat | r < COL_HEIGHT_SECONDARY
        ensures IsMessageSymbol(blob.primary(c, r), data, size, c, r)
      {
      }
    }
  }

  // ---------------------------------------------------------------- the honest seller

  // Completeness from the encoded blobs to the delivery: for every message, keystream and
  // choice of samples, the openings of plaintext and ciphertext are built and accepted, and on
  // what they carry the honest proofs pass every check.
  lemma HonestSellerDelivers(ks: Keystream, origin: EncodedBlob, cipher: EncodedBlob, data: seq<Byte>,
                             encrypted: seq<Byte>, indices: seq<nat>, proofs: seq<VeShardProof>)
    requires Encrypts(ks, data, encrypted) && Encodes(origin, data) && Encodes(cipher, encrypted)
    requires |data| < 0x1_0000_0000_0000_0000 && WalrusSymbolSize(|data|) < 65535 && |proofs| == |indices|
    requires forall i :: 0 <= i < |proofs| ==>
      IsHonestProof(proofs[i], ks, indices[i], WalrusSymbolSize(|data|), data, encrypted)
    ensures var size := WalrusSymbolSize(|data|);
      var x, y := Shown(origin, |data|, indices), Shown(cipher, |data|, indices);
      var a, b := ColumnBuildVerdict(origin, |data|, indices, size), ColumnBuildVerdict(cipher, |data|, indices, size);
      && a.Ok? && OpeningVerdict(a.value).Ok? && Carries(a.value, x)
      && b.Ok? && OpeningVerdict(b.value).Ok? && Carries(b.value, y)
      && Delivered(ks, x, y, proofs, size)
  {
    hide BuildVerdict, OpeningVerdict, Encodes, Carries, Delivered, IsHonestProof, ShowsColumns, WalrusSymbolSize,
        Shown;
    HonestOpeningAccepted(origin, data, |data|, indices);
    HonestOpeningCarries(origin, data, |data|, indices);
    HonestOpeningAccepted(cipher, encrypted, |data|, indices);
    HonestOpeningCarries(cipher, encrypted, |data|, indices);
    ShownLaidOut(origin, data, indices);
    ShownLaidOut(cipher, encrypted, indices);
    HonestDelivery(ks, Shown(origin, |data|, indices), Shown(cipher, |data|, indices), proofs, indices, data,
        encrypted);
  }
}
