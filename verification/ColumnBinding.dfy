/** The column checks of the delivery proof: the sums a proof claims are compared with the
    sums over the opened slivers, and the keystream must account for their difference. */
module ColumnBinding {
  import opened Arithmetic
  import opened XorBits
  import opened Galois
  import opened Rslh
  import opened Wrappers

  datatype ColumnShard = ColumnShard(shardIndex: nat, columnSymbols: seq<seq<Byte>>)

  // What the column checks read of a blob opening.
  datatype ColumnOpening = ColumnOpening(nShards: nat, unencodedLength: nat, shards: seq<ColumnShard>)

  datatype BoundError =
    | SampleCountMismatch
    | UnsupportedShardCount
    | PackSizeMismatch
    | ColumnIndexOutOfRange
    | ShardColumnMismatch
    | BoundShardLengthMismatch
    | SliverLengthMismatch
    | SymbolSizeMismatch
    | AggregateMismatch

  // The symbols that lie inside the data, even in part, have the full size.
  ghost predicate SizesFit(shard: ColumnShard, dataLength: nat, size: nat)
  {
    forall r :: 0 <= r < |shard.columnSymbols| && ByteOffset(shard.shardIndex, r, size) < dataLength ==>
      |shard.columnSymbols[r]| == size
  }

  // The opened byte at offset `j` of the symbol of row `r`; past the end of the data there
  // are zeros, or the given filling.
  function SliverByte(shard: ColumnShard, dataLength: nat, size: nat, filling: Keystream, j: nat, r: nat): Byte
  {
    var k := ByteOffset(shard.shardIndex, r, size) + j;
    if k >= dataLength then filling(k)
    else if r < |shard.columnSymbols| && j < |shard.columnSymbols[r]| then shard.columnSymbols[r][j]
    else 0
  }

  function SliverBytes(shard: ColumnShard, dataLength: nat, size: nat, filling: Keystream, j: nat): nat -> Byte
  {
    (r: nat) => SliverByte(shard, dataLength, size, filling, j, r)
  }

  ghost predicate SumsTo(claimed: seq<Byte>, shard: ColumnShard, dataLength: nat, size: nat, filling: Keystream)
    requires |claimed| == size
  {
    forall j :: 0 <= j < size ==>
      claimed[j] == WeightedSum(SliverBytes(shard, dataLength, size, filling, j), 0, COL_HEIGHT_SECONDARY)
  }

  // ---------------------------------------------------------------- what the checks answer

  ghost function SliverVerdict(claimed: seq<Byte>, shard: ColumnShard, dataLength: nat, size: nat, filling: Keystream)
    : Result<(), BoundError>
    requires |claimed| == size
  {
    if |shard.columnSymbols| != COL_HEIGHT_SECONDARY then Err(SliverLengthMismatch)
    else if !SizesFit(shard, dataLength, size) then Err(SymbolSizeMismatch)
    else if !SumsTo(claimed, shard, dataLength, size, filling) then Err(AggregateMismatch)
    else Ok(())
  }

  ghost function CipherSampleVerdict(ks: Keystream, proof: VeShardProof, shard: ColumnShard, dataLength: nat, size: nat)
    : Result<(), BoundError>
  {
    if proof.colIndex >= ROW_WIDTH_PRIMARY then Err(ColumnIndexOutOfRange)
    else if shard.shardIndex != proof.colIndex then Err(ShardColumnMismatch)
    else if |proof.cipherShard| != size || |proof.originShard| != size then Err(BoundShardLengthMismatch)
    else SliverVerdict(proof.cipherShard, shard, dataLength, size, ks)
  }

  ghost function OriginSampleVerdict(proof: VeShardProof, shard: ColumnShard, dataLength: nat, size: nat)
    : Result<(), BoundError>
  {
    if proof.colIndex >= ROW_WIDTH_PRIMARY then Err(ColumnIndexOutOfRange)
    else if shard.shardIndex != proof.colIndex then Err(ShardColumnMismatch)
    else if |proof.originShard| != size then Err(BoundShardLengthMismatch)
    else SliverVerdict(proof.originShard, shard, dataLength, size, NO_FILLING)
  }

  ghost function ShapeVerdict(opening: ColumnOpening, proofs: seq<VeShardProof>, packSize: nat): Result<(), BoundError>
  {
    if |proofs| != |opening.shards| then Err(SampleCountMismatch)
    else if opening.nShards != 1000 then Err(UnsupportedShardCount)
    else if packSize != WalrusSymbolSize(opening.unencodedLength) then Err(PackSizeMismatch)
    else Ok(())
  }

  // The first failure from sample `k` on.
  ghost function CipherSamplesVerdict(ks: Keystream, opening: ColumnOpening, proofs: seq<VeShardProof>, size: nat,
                                      k: nat)
    : Result<(), BoundError>
    requires |proofs| == |opening.shards| && k <= |proofs|
    decreases |proofs| - k
  {
    if k == |proofs| then Ok(())
    else
      var here := CipherSampleVerdict(ks, proofs[k], opening.shards[k], opening.unencodedLength, size);
      if here.Err? then here else CipherSamplesVerdict(ks, opening, proofs, size, k + 1)
  }

  ghost function OriginSamplesVerdict(opening: ColumnOpening, proofs: seq<VeShardProof>, size: nat, k: nat)
    : Result<(), BoundError>
    requires |proofs| == |opening.shards| && k <= |proofs|
    decreases |proofs| - k
  {
    if k == |proofs| then Ok(())
    else
      var here := OriginSampleVerdict(proofs[k], opening.shards[k], opening.unencodedLength, size);
      if here.Err? then here else OriginSamplesVerdict(opening, proofs, size, k + 1)
  }

  ghost function CipherVerdict(ks: Keystream, opening: ColumnOpening, proofs: seq<VeShardProof>, packSize: nat)
    : Result<(), BoundError>
  {
    var shape := ShapeVerdict(opening, proofs, packSize);
    if shape.Err? then shape else CipherSamplesVerdict(ks, opening, proofs, packSize, 0)
  }

  ghost function OriginVerdict(opening: ColumnOpening, proofs: seq<VeShardProof>, packSize: nat)
    : Result<(), BoundError>
  {
    var shape := ShapeVerdict(opening, proofs, packSize);
    if shape.Err? then shape else OriginSamplesVerdict(opening, proofs, packSize, 0)
  }

  // ---------------------------------------------------------------- the checks

  lemma SumsDecide(computed: seq<Byte>, claimed: seq<Byte>, shard: ColumnShard, dataLength: nat, size: nat,
                   filling: Keystream)
    requires |computed| == |claimed| == size && SumsTo(computed, shard, dataLength, size, filling)
    ensures computed == claimed <==> SumsTo(claimed, shard, dataLength, size, filling)
  {
    hide WeightedSum;
  }

  method VerifyCipherSample(ks: Keystream, proof: VeShardProof, shard: ColumnShard, dataLength: nat, packSize: nat)
    returns (r: Result<(), BoundError>)
    ensures r == CipherSampleVerdict(ks, proof, shard, dataLength, packSize)
    ensures r == Err(ColumnIndexOutOfRange) <==> proof.colIndex >= 334
    ensures r == Err(ShardColumnMismatch) <==> proof.colIndex < 334 && shard.shardIndex != proof.colIndex
    ensures shard.shardIndex == proof.colIndex < 334 ==>
      (r == Err(BoundShardLengthMismatch) <==> !(|proof.originShard| == |proof.cipherShard| == packSize))
    ensures r == Err(SliverLengthMismatch) ==> |shard.columnSymbols| != 667
    ensures r == Err(SymbolSizeMismatch) ==> |shard.columnSymbols| == 667 && exists k ::
      0 <= k < 667 && ByteOffset(shard.shardIndex, k, packSize) < dataLength && |shard.columnSymbols[k]| != packSize
  {
    hide GfMul, GfExp, XorByte, Beta;
    var c := proof.colIndex;
    if c >= ROW_WIDTH_PRIMARY {
      return Err(ColumnIndexOutOfRange);
    }
    if shard.shardIndex != c {
      return Err(ShardColumnMismatch);
    }
    if |proof.cipherShard| != packSize || |proof.originShard| != packSize {
      return Err(BoundShardLengthMismatch);
    }
    if |shard.columnSymbols| != COL_HEIGHT_SECONDARY {
      return Err(SliverLengthMismatch);
    }
    var expected := new Byte[packSize](_ => 0);
    for r := 0 to COL_HEIGHT_SECONDARY
      invariant forall k :: 0 <= k < r && ByteOffset(c, k, packSize) < dataLength ==>
        |shard.columnSymbols[k]| == packSize
      invariant forall j :: 0 <= j < packSize ==>
        expected[j] == WeightedSum(SliverBytes(shard, dataLength, packSize, ks, j), 0, r)
    {
      var byteOff := ByteOffset(c, r, packSize);
      if byteOff < dataLength && |shard.columnSymbols[r]| != packSize {
        assert !SizesFit(shard, dataLength, packSize);
        return Err(SymbolSizeMismatch);
      }
      AddOpenedCipherRow(ks, shard, dataLength, packSize, r, expected);
    }
    assert SizesFit(shard, dataLength, packSize);
    assert SumsTo(expected[..], shard, dataLength, packSize, ks);
    SumsDecide(expected[..], proof.cipherShard, shard, dataLength, packSize, ks);
    return if expected[..] != proof.cipherShard then Err(AggregateMismatch) else Ok(());
  }

  method AddOpenedCipherRow(ks: Keystream, shard: ColumnShard, dataLength: nat, packSize: nat, r: nat,
                            expected: array<Byte>)
    requires r < |shard.columnSymbols| && expected.Length == packSize
    requires ByteOffset(shard.shardIndex, r, packSize) < dataLength ==> |shard.columnSymbols[r]| == packSize
    modifies expected
    ensures forall j :: 0 <= j < packSize ==>
      expected[j] == XorByte(old(expected[j]), GfMul(SliverBytes(shard, dataLength, packSize, ks, j)(r), Beta(r, 0)))
  {
    hide GfMul, GfExp, XorByte;
    var byteOff := ByteOffset(shard.shardIndex, r, packSize);
    var beta := GfExp(r % 255);
    var inData := byteOff < dataLength;
    var dataEnd := if byteOff + packSize < dataLength then byteOff + packSize else dataLength;
    if inData {
      Accumulate(expected, shard.columnSymbols[r], beta, 0, dataEnd - byteOff);
    }
    var ksStart := if inData then dataEnd - byteOff else 0;
    var block := KeystreamBlock(ks, byteOff, packSize);
    Accumulate(expected, block, beta, ksStart, packSize);
  }

  method VerifyOriginSample(proof: VeShardProof, shard: ColumnShard, dataLength: nat, packSize: nat)
    returns (r: Result<(), BoundError>)
    ensures r == OriginSampleVerdict(proof, shard, dataLength, packSize)
    ensures r == Err(ColumnIndexOutOfRange) <==> proof.colIndex >= 334
    ensures r == Err(ShardColumnMismatch) <==> proof.colIndex < 334 && shard.shardIndex != proof.colIndex
    ensures shard.shardIndex == proof.colIndex < 334 ==>
      (r == Err(BoundShardLengthMismatch) <==> |proof.originShard| != packSize)
    ensures r == Err(SliverLengthMismatch) ==> |shard.columnSymbols| != 667
    ensures r == Err(SymbolSizeMismatch) ==> |shard.columnSymbols| == 667 && exists k ::
      0 <= k < 667 && ByteOffset(shard.shardIndex, k, packSize) < dataLength && |shard.columnSymbols[k]| != packSize
  {
    hide GfMul, GfExp, XorByte, Beta;
    var column := proof.colIndex;
    if column >= ROW_WIDTH_PRIMARY {
      return Err(ColumnIndexOutOfRange);
    }
    if shard.shardIndex != column {
      return Err(ShardColumnMismatch);
    }
    if |proof.originShard| != packSize {
      return Err(BoundShardLengthMismatch);
    }
    if |shard.columnSymbols| != COL_HEIGHT_SECONDARY {
      return Err(SliverLengthMismatch);
    }
    var expected := new Byte[packSize](_ => 0);
    var row := 0;
    while row < COL_HEIGHT_SECONDARY
      invariant 0 <= row <= COL_HEIGHT_SECONDARY
      invariant forall k :: 0 <= k < row && ByteOffset(column, k, packSize) < dataLength ==>
        |shard.columnSymbols[k]| == packSize
      invariant forall j :: 0 <= j < packSize ==>
        expected[j] == WeightedSum(SliverBytes(shard, dataLength, packSize, NO_FILLING, j), 0, row)
    {
      var byteOff := ByteOffset(column, row, packSize);
      if byteOff >= dataLength {
        RowsPastTheEnd(shard, dataLength, packSize, row);
        break;
      }
      var symbol := shard.columnSymbols[row];
      if |symbol| != packSize {
        return Err(SymbolSizeMismatch);
      }
      AddOpenedOriginRow(shard, dataLength, packSize, row, expected);
      row := row + 1;
    }
    assert SizesFit(shard, dataLength, packSize);
    SumsDecide(expected[..], proof.originShard, shard, dataLength, packSize, NO_FILLING);
    return if expected[..] != proof.originShard then Err(AggregateMismatch) else Ok(());
  }

  method AddOpenedOriginRow(shard: ColumnShard, dataLength: nat, packSize: nat, row: nat, expected: array<Byte>)
    requires row < |shard.columnSymbols| && expected.Length == packSize
    requires ByteOffset(shard.shardIndex, row, packSize) < dataLength && |shard.columnSymbols[row]| == packSize
    modifies expected
    ensures forall j :: 0 <= j < packSize ==>
      expected[j] == XorByte(old(expected[j]),
                             GfMul(SliverBytes(shard, dataLength, packSize, NO_FILLING, j)(row), Beta(row, 0)))
  {
    hide GfMul, GfExp, XorByte;
    var byteOff := ByteOffset(shard.shardIndex, row, packSize);
    var meaningful := if dataLength - byteOff < packSize then dataLength - byteOff else packSize;
    var beta := GfExp(row % 255);
    Accumulate(expected, shard.columnSymbols[row], beta, 0, meaningful);
    forall j | meaningful <= j < packSize
      ensures old(expected[j]) == XorByte(old(expected[j]), GfMul(0, beta))
    {
      AddNothing(old(expected[j]), beta);
    }
  }

  // From the first symbol past the end of the data on, there is nothing to check or to add.
  lemma RowsPastTheEnd(shard: ColumnShard, dataLength: nat, size: nat, row: nat)
    requires row <= COL_HEIGHT_SECONDARY && ByteOffset(shard.shardIndex, row, size) >= dataLength
    ensures forall r: nat :: row <= r ==> ByteOffset(shard.shardIndex, r, size) >= dataLength
    ensures forall j: nat :: j < size ==>
      WeightedSum(SliverBytes(shard, dataLength, size, NO_FILLING, j), 0, row)
        == WeightedSum(SliverBytes(shard, dataLength, size, NO_FILLING, j), 0, COL_HEIGHT_SECONDARY)
  {
    hide WeightedSum;
    forall r: nat | row <= r
      ensures ByteOffset(shard.shardIndex, r, size) >= dataLength
    {
      OffsetsGrow(shard.shardIndex, row, r, size);
    }
    forall j: nat | j < size
      ensures WeightedSum(SliverBytes(shard, dataLength, size, NO_FILLING, j), 0, row)
           == WeightedSum(SliverBytes(shard, dataLength, size, NO_FILLING, j), 0, COL_HEIGHT_SECONDARY)
    {
      SumOfZeros(SliverBytes(shard, dataLength, size, NO_FILLING, j), row, COL_HEIGHT_SECONDARY);
    }
  }

  lemma {:induction false} SumOfZeros(f: nat -> Byte, row: nat, rows: nat)
    requires row <= rows && forall r: nat :: row <= r < rows ==> f(r) == 0
    ensures WeightedSum(f, 0, row) == WeightedSum(f, 0, rows)
    decreases rows
  {
    hide GfMul, GfExp, XorByte, Beta;
    if row < rows {
      SumOfZeros(f, row, rows - 1);
      AddNothing(WeightedSum(f, 0, rows - 1), Beta(rows - 1, 0));
    }
  }

  method VerifyCipherColumnBound(ks: Keystream, opening: ColumnOpening, proofs: seq<VeShardProof>, packSize: nat)
    returns (r: Result<(), BoundError>)
    ensures r == CipherVerdict(ks, opening, proofs, packSize)
    ensures |proofs| != |opening.shards| ==> r == Err(SampleCountMismatch)
    ensures |proofs| == |opening.shards| && opening.nShards != 1000 ==> r == Err(UnsupportedShardCount)
  {
    hide CipherSampleVerdict;
    if |proofs| != |opening.shards| {
      return Err(SampleCountMismatch);
    }
    if opening.nShards != 1000 {
      return Err(UnsupportedShardCount);
    }
    if packSize != WalrusSymbolSize(opening.unencodedLength) {
      return Err(PackSizeMismatch);
    }
    for k := 0 to |proofs|
      invariant CipherSamplesVerdict(ks, opening, proofs, packSize, 0) ==
          CipherSamplesVerdict(ks, opening, proofs, packSize, k)
    {
      var checked := VerifyCipherSample(ks, proofs[k], opening.shards[k], opening.unencodedLength, packSize);
      if checked.Err? {
        return checked;
      }
    }
    return Ok(());
  }

  method VerifyOriginColumnBound(opening: ColumnOpening, proofs: seq<VeShardProof>, packSize: nat)
    returns (r: Result<(), BoundError>)
    ensures r == OriginVerdict(opening, proofs, packSize)
    ensures |proofs| != |opening.shards| ==> r == Err(SampleCountMismatch)
    ensures |proofs| == |opening.shards| && opening.nShards != 1000 ==> r == Err(UnsupportedShardCount)
  {
    hide OriginSampleVerdict;
    if |proofs| != |opening.shards| {
      return Err(SampleCountMismatch);
    }
    if opening.nShards != 1000 {
      return Err(UnsupportedShardCount);
    }
    if packSize != WalrusSymbolSize(opening.unencodedLength) {
      return Err(PackSizeMismatch);
    }
    for k := 0 to |proofs|
      invariant OriginSamplesVerdict(opening, proofs, packSize, 0) == OriginSamplesVerdict(opening, proofs, packSize, k)
    {
      var checked := VerifyOriginSample(proofs[k], opening.shards[k], opening.unencodedLength, packSize);
      if checked.Err? {
        return checked;
      }
    }
    return Ok(());
  }
}
