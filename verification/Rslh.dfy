/** The column relation between plaintext, ciphertext and keystream: every column of symbols
    is summed up, each row weighted by a power of x, and the three sums must cancel. */
module Rslh {
  import opened Arithmetic
  import opened XorBits
  import opened Galois
  import opened Wrappers

  const ROW_WIDTH_PRIMARY: nat := 334
  const COL_HEIGHT_SECONDARY: nat := 667

  // ---------------------------------------------------------------- the symbol size

  function DivCeil(a: nat, b: nat): nat
    requires b > 0
  {
    a / b + if a % b == 0 then 0 else 1
  }

  function WalrusSymbolSize(blobLength: nat): nat
  {
    var raw := DivCeil(if blobLength < 1 then 1 else blobLength, ROW_WIDTH_PRIMARY * COL_HEIGHT_SECONDARY);
    raw + raw % 2
  }

  const U16_MAX: nat := 0xFFFF

  function NextMultipleOf(a: nat, b: nat): nat
    requires b > 0
  {
    if a % b == 0 then a else a + (b - a % b)
  }

  // `compute_symbol_size` of the encoder; `None` is the error that the data are too large.
  function ComputeSymbolSize(dataLength: nat, nSymbols: nat, requiredAlignment: nat): Option<nat>
    requires nSymbols > 0 && requiredAlignment > 0
  {
    var size := NextMultipleOf(DivCeil(if dataLength < 1 then 1 else dataLength, nSymbols), requiredAlignment);
    if size > U16_MAX then None else Some(size)
  }

  // The blob fits into the symbols.
  ghost predicate Fits(blobLength: nat, size: nat)
  {
    blobLength <= 222778 * size && 1 <= 222778 * size
  }

  lemma DivCeilIsLeast(a: nat, b: nat, size: nat)
    requires b > 0
    ensures a <= b * size <==> DivCeil(a, b) <= size
  {
    var q := DivCeil(a, b);
    assert a == b * (a / b) + a % b;
    if q <= size {
      TimesMonotonic(q, size, b);
    } else {
      TimesMonotonic(size + 1, q, b);
      Distribute(size, 1, b);
    }
  }

  // The symbol size is the least even one with room for the blob, and the encoder's own
  // size whenever the encoder has one.
  lemma SymbolSizeIsLeast(blobLength: nat)
    ensures WalrusSymbolSize(blobLength) % 2 == 0 && Fits(blobLength, WalrusSymbolSize(blobLength))
    ensures forall size: nat :: size % 2 == 0 && Fits(blobLength, size) ==> WalrusSymbolSize(blobLength) <= size
    ensures var encoders := ComputeSymbolSize(blobLength, ROW_WIDTH_PRIMARY * COL_HEIGHT_SECONDARY, 2);
      encoders == if WalrusSymbolSize(blobLength) <= U16_MAX then Some(WalrusSymbolSize(blobLength)) else None
  {
    var length := if blobLength < 1 then 1 else blobLength;
    DivCeilIsLeast(length, 222778, WalrusSymbolSize(blobLength));
    forall size: nat | size % 2 == 0 && Fits(blobLength, size)
      ensures WalrusSymbolSize(blobLength) <= size
    {
      DivCeilIsLeast(length, 222778, size);
    }
  }

  // ---------------------------------------------------------------- weighted sums

  // The keystream, byte by byte.
  type Keystream = nat -> Byte

  // Offset of the symbol of a row of a column in the flat blob.
  function ByteOffset(column: nat, row: nat, symbolSize: nat): nat
  {
    (column * COL_HEIGHT_SECONDARY + row) * symbolSize
  }

  lemma OffsetsGrow(column: nat, row: nat, later: nat, symbolSize: nat)
    requires row <= later
    ensures ByteOffset(column, row, symbolSize) <= ByteOffset(column, later, symbolSize)
  {
  }

  // From the start of the blob on, symbols lie end to end, row by row and column by column.
  lemma SymbolsTile(column: nat, row: nat, symbolSize: nat)
    ensures ByteOffset(0, 0, symbolSize) == 0
    ensures ByteOffset(column, row + 1, symbolSize) == ByteOffset(column, row, symbolSize) + symbolSize
    ensures ByteOffset(column + 1, 0, symbolSize) == ByteOffset(column, 667, symbolSize)
  {
    Distribute(column * COL_HEIGHT_SECONDARY + row, 1, symbolSize);
  }

  // The weight of a row; the sum of the parity offset and one is taken in 32 bits.
  function Beta(row: nat, parityOffset: nat): Byte
  {
    GfExp((row * ((parityOffset + 1) % 0x1_0000_0000)) % 255)
  }

  // The exclusive or of the first `rows` bytes, each times the weight of its row.
  function WeightedSum(bytes: nat -> Byte, parityOffset: nat, rows: nat): Byte
  {
    if rows == 0 then 0
    else XorByte(WeightedSum(bytes, parityOffset, rows - 1), GfMul(bytes(rows - 1), Beta(rows - 1, parityOffset)))
  }

  // The weight is a power of x: one more doubling for every row, or for every step of p + 1 rows.
  lemma WeightIsPower(row: nat, parityOffset: nat)
    ensures Beta(row, parityOffset) == Shifted(1, row * ((parityOffset + 1) % 0x1_0000_0000))
  {
    hide GfExp, Shifted;
    ExpWraps();
    ExpShift(0, row * ((parityOffset + 1) % 0x1_0000_0000));
  }

  // There are 255 powers, so the weights of rows come round.
  lemma WeightsAgree(a: nat, b: nat)
    ensures Beta(a, 0) == Beta(b, 0) <==> a % 255 == b % 255
  {
    hide GfExp, GfLog;
    ExpLog(a % 255);
    ExpLog(b % 255);
  }

  lemma BetaNonZero(row: nat, parityOffset: nat)
    ensures Beta(row, parityOffset) != 0
  {
  }

  lemma {:induction false} SumOfEqual(f: nat -> Byte, g: nat -> Byte, parityOffset: nat, rows: nat)
    requires forall r: nat :: r < rows ==> f(r) == g(r)
    ensures WeightedSum(f, parityOffset, rows) == WeightedSum(g, parityOffset, rows)
  {
    hide GfMul, Beta, XorByte;
    if rows > 0 {
      SumOfEqual(f, g, parityOffset, rows - 1);
    }
  }

  lemma {:induction false} SumLinear(f: nat -> Byte, g: nat -> Byte, h: nat -> Byte, parityOffset: nat, rows: nat)
    requires forall r: nat :: r < rows ==> h(r) == XorByte(f(r), g(r))
    ensures WeightedSum(h, parityOffset, rows)
         == XorByte(WeightedSum(f, parityOffset, rows), WeightedSum(g, parityOffset, rows))
  {
    hide GfMul, Beta, Xor;
    if rows == 0 {
      XorZero(0);
    } else {
      var k := rows - 1;
      SumLinear(f, g, h, parityOffset, k);
      MulLinear(f(k), g(k), Beta(k, parityOffset));
      XorExchange(WeightedSum(f, parityOffset, k), WeightedSum(g, parityOffset, k),
                  GfMul(f(k), Beta(k, parityOffset)), GfMul(g(k), Beta(k, parityOffset)));
    }
  }

  // A sum with a single non-zero byte is not zero.
  lemma {:induction false} SumOfOne(f: nat -> Byte, parityOffset: nat, rows: nat, row: nat)
    requires forall r: nat :: r < rows && r != row ==> f(r) == 0
    ensures WeightedSum(f, parityOffset, rows) == 0 <==> row >= rows || f(row) == 0
  {
    hide GfMul, Beta, Xor;
    if rows > 0 {
      var k := rows - 1;
      SumOfOne(f, parityOffset, k, row);
      MulNonZero(f(k), Beta(k, parityOffset));
      BetaNonZero(k, parityOffset);
      XorZero(WeightedSum(f, parityOffset, k));
      XorZero(GfMul(f(k), Beta(k, parityOffset)));
    }
  }

  // The weighted byte of a row among the first `rows`.
  function Term(f: nat -> Byte, parityOffset: nat, rows: nat, row: nat): Byte
  {
    if row < rows then GfMul(f(row), Beta(row, parityOffset)) else 0
  }

  lemma {:induction false} SumOfTwo(f: nat -> Byte, parityOffset: nat, rows: nat, a: nat, b: nat)
    requires a != b && forall r: nat :: r < rows && r != a && r != b ==> f(r) == 0
    ensures WeightedSum(f, parityOffset, rows)
         == XorByte(Term(f, parityOffset, rows, a), Term(f, parityOffset, rows, b))
  {
    hide GfMul, Beta, Xor;
    if rows == 0 {
      XorZero(0);
    } else {
      var k := rows - 1;
      SumOfTwo(f, parityOffset, k, a, b);
      var x, y := Term(f, parityOffset, k, a), Term(f, parityOffset, k, b);
      var here := GfMul(f(k), Beta(k, parityOffset));
      XorZero(x);
      XorZero(y);
      XorZero(here);
      XorZero(XorByte(x, y));
      XorSymmetric(y, here);
      MulNonZero(f(k), Beta(k, parityOffset));
    }
  }

  // One difference in two rows goes unnoticed exactly when the rows have one weight.
  lemma SumOfPair(f: nat -> Byte, rows: nat, a: nat, b: nat)
    requires a < rows && b < rows && a != b && f(a) == f(b)
    requires forall r: nat :: r < rows && r != a && r != b ==> f(r) == 0
    ensures WeightedSum(f, 0, rows) == 0 <==> f(a) == 0 || a % 255 == b % 255
  {
    hide GfMul, Beta, Xor, WeightedSum;
    SumOfTwo(f, 0, rows, a, b);
    var x, y := Beta(a, 0), Beta(b, 0);
    MulSymmetric(f(a), x);
    MulSymmetric(f(a), y);
    MulLinear(x, y, f(a));
    MulNonZero(XorByte(x, y), f(a));
    XorZeroIff(x, y);
    WeightsAgree(a, b);
  }

  // ---------------------------------------------------------------- the relation

  datatype ParityType = Col | Row | NoParity

  datatype VeShardProof = VeShardProof(
    globalIndex: nat,
    colIndex: nat,
    parityOffset: nat,
    originShard: seq<Byte>,
    cipherShard: seq<Byte>,
    pType: ParityType)

  datatype RslhError = ShardLengthMismatch | ColIndexRange | ColHomomorphismFailure

  // The keystream bytes at offset `j` of the symbols of a column.
  function KeystreamBytes(ks: Keystream, column: nat, symbolSize: nat, j: nat): nat -> Byte
  {
    (r: nat) => ks(ByteOffset(column, r, symbolSize) + j)
  }

  ghost predicate SumsCancel(ks: Keystream, proof: VeShardProof, symbolSize: nat)
    requires |proof.originShard| == |proof.cipherShard| == symbolSize
  {
    forall j :: 0 <= j < symbolSize ==>
      XorByte(proof.originShard[j],
              WeightedSum(KeystreamBytes(ks, proof.colIndex, symbolSize, j), proof.parityOffset, COL_HEIGHT_SECONDARY))
        == proof.cipherShard[j]
  }

  ghost function HomomorphismVerdict(ks: Keystream, proof: VeShardProof, symbolSize: nat): Result<(), RslhError>
  {
    if |proof.originShard| != symbolSize || |proof.cipherShard| != symbolSize then Err(ShardLengthMismatch)
    else if proof.colIndex >= ROW_WIDTH_PRIMARY then Err(ColIndexRange)
    else if !SumsCancel(ks, proof, symbolSize) then Err(ColHomomorphismFailure)
    else Ok(())
  }

  // `sum ^= block * beta`, byte by byte from `start` up to `end`.
  method Accumulate(sum: array<Byte>, block: seq<Byte>, beta: Byte, start: nat, end: nat)
    requires start <= end <= sum.Length && end <= |block|
    modifies sum
    ensures forall j :: 0 <= j < sum.Length ==>
      sum[j] == if start <= j < end then XorByte(old(sum[j]), GfMul(block[j], beta)) else old(sum[j])
  {
    hide GfMul, GfExp, XorByte;
    for i := start to end
      invariant forall j :: 0 <= j < sum.Length ==>
        sum[j] == if start <= j < i then XorByte(old(sum[j]), GfMul(block[j], beta)) else old(sum[j])
    {
      sum[i] := XorByte(sum[i], GfMul(block[i], beta));
    }
  }

  // Seeks to `offset` and encrypts a block of zeros.
  function KeystreamBlock(ks: Keystream, offset: nat, length: nat): (block: seq<Byte>)
    ensures |block| == length && forall j :: 0 <= j < length ==> block[j] == ks(offset + j)
  {
    seq(length, j requires 0 <= j < length => ks(offset + j))
  }

  method VerifyColHomomorphism(ks: Keystream, proof: VeShardProof, symbolSize: nat) returns (r: Result<(), RslhError>)
    ensures r == HomomorphismVerdict(ks, proof, symbolSize)
    ensures r == Err(ShardLengthMismatch) <==> |proof.originShard| != symbolSize || |proof.cipherShard| != symbolSize
    ensures r == Err(ColIndexRange)
       <==> |proof.originShard| == |proof.cipherShard| == symbolSize && proof.colIndex >= 334
  {
    hide GfMul, GfExp, XorByte, Beta;
    if |proof.originShard| != symbolSize || |proof.cipherShard| != symbolSize {
      return Err(ShardLengthMismatch);
    }
    var col := proof.colIndex;
    if col >= ROW_WIDTH_PRIMARY {
      return Err(ColIndexRange);
    }
    var pKs := new Byte[symbolSize](_ => 0);
    for row := 0 to COL_HEIGHT_SECONDARY
      invariant forall j :: 0 <= j < symbolSize ==>
        pKs[j] == WeightedSum(KeystreamBytes(ks, col, symbolSize, j), proof.parityOffset, row)
    {
      var sBlock := KeystreamBlock(ks, ByteOffset(col, row, symbolSize), symbolSize);
      Accumulate(pKs, sBlock, Beta(row, proof.parityOffset), 0, symbolSize);
    }
    for i := 0 to symbolSize
      invariant forall j :: 0 <= j < i ==> XorByte(proof.originShard[j], pKs[j]) == proof.cipherShard[j]
    {
      if XorByte(proof.originShard[i], pKs[i]) != proof.cipherShard[i] {
        return Err(ColHomomorphismFailure);
      }
    }
    return Ok(());
  }

  // ---------------------------------------------------------------- the honest prover

  // The byte of a blob at offset `j` of the symbol of row `r`; past the end of the blob there
  // are zeros, or the given filling.
  function BlobByte(data: seq<Byte>, filling: Keystream, column: nat, symbolSize: nat, j: nat, r: nat): Byte
  {
    var k := ByteOffset(column, r, symbolSize) + j;
    if k < |data| then data[k] else filling(k)
  }

  function BlobBytes(data: seq<Byte>, filling: Keystream, column: nat, symbolSize: nat, j: nat): nat -> Byte
  {
    (r: nat) => BlobByte(data, filling, column, symbolSize, j, r)
  }

  const NO_FILLING: Keystream := (_: nat) => 0

  ghost predicate SumsOverBlob(sums: seq<Byte>, data: seq<Byte>, filling: Keystream, column: nat, size: nat)
    requires |sums| == size
  {
    forall j :: 0 <= j < size ==>
      sums[j] == WeightedSum(BlobBytes(data, filling, column, size, j), 0, COL_HEIGHT_SECONDARY)
  }

  // The proof sums up the column of its index, of the plaintext padded with zeros and of the
  // ciphertext padded with keystream.
  ghost predicate IsHonestProof(proof: VeShardProof, ks: Keystream, idx: nat, size: nat,
                                origin: seq<Byte>, cipher: seq<Byte>)
  {
    && proof.globalIndex == idx && proof.colIndex == idx % ROW_WIDTH_PRIMARY
    && proof.parityOffset == 0 && proof.pType == Col
    && |proof.originShard| == |proof.cipherShard| == size
    && SumsOverBlob(proof.originShard, origin, NO_FILLING, proof.colIndex, size)
    && SumsOverBlob(proof.cipherShard, cipher, ks, proof.colIndex, size)
  }

  // Up to where the bytes of a column inside a blob of this length reach.
  function Reach(column: nat, symbolSize: nat, length: nat): nat
  {
    var end := ByteOffset(column, COL_HEIGHT_SECONDARY, symbolSize);
    if ByteOffset(column, 0, symbolSize) >= length then 0 else if end < length then end else length
  }

  // At most `length` bytes of the data.
  function Cut(data: seq<Byte>, length: nat): seq<Byte>
  {
    if length <= |data| then data[..length] else data
  }

  method CreateHonestProof(ks: Keystream, idx: nat, symbolSize: nat, origin: seq<Byte>, cipher: seq<Byte>)
    returns (proof: VeShardProof)
    requires Reach(idx % ROW_WIDTH_PRIMARY, symbolSize, |origin|) <= |cipher|
    ensures IsHonestProof(proof, ks, idx, symbolSize, origin, Cut(cipher, |origin|))
  {
    hide GfMul, GfExp, XorByte, Beta;
    var col := idx % ROW_WIDTH_PRIMARY;
    var pM, pC := new Byte[symbolSize](_ => 0), new Byte[symbolSize](_ => 0);
    for row := 0 to COL_HEIGHT_SECONDARY
      invariant forall j :: 0 <= j < symbolSize ==>
        pM[j] == WeightedSum(BlobBytes(origin, NO_FILLING, col, symbolSize, j), 0, row)
      invariant forall j :: 0 <= j < symbolSize ==>
        pC[j] == WeightedSum(BlobBytes(Cut(cipher, |origin|), ks, col, symbolSize, j), 0, row)
    {
      if ByteOffset(col, row, symbolSize) < |origin| {
        RowWithinReach(col, row, symbolSize, |origin|);
      }
      AddOriginRow(col, row, symbolSize, origin, pM);
      AddCipherRow(ks, col, row, symbolSize, cipher, |origin|, pC);
    }
    assert SumsOverBlob(pM[..], origin, NO_FILLING, col, symbolSize);
    assert SumsOverBlob(pC[..], Cut(cipher, |origin|), ks, col, symbolSize);
    proof := VeShardProof(idx, col, 0, pM[..], pC[..], Col);
  }

  lemma RowWithinReach(column: nat, row: nat, symbolSize: nat, length: nat)
    requires row < COL_HEIGHT_SECONDARY && ByteOffset(column, row, symbolSize) < length
    ensures ByteOffset(column, row, symbolSize) + symbolSize <= Reach(column, symbolSize, length)
         || length <= Reach(column, symbolSize, length)
  {
    OffsetsGrow(column, 0, row, symbolSize);
    OffsetsGrow(column, row + 1, COL_HEIGHT_SECONDARY, symbolSize);
    Distribute(column * COL_HEIGHT_SECONDARY + row, 1, symbolSize);
  }

  lemma AddNothing(a: Byte, beta: Byte)
    ensures XorByte(a, GfMul(0, beta)) == a
  {
    XorZero(a);
  }

  // Plaintext of one row: the bytes inside the blob.
  method AddOriginRow(col: nat, row: nat, symbolSize: nat, origin: seq<Byte>, pM: array<Byte>)
    requires pM.Length == symbolSize
    modifies pM
    ensures forall j :: 0 <= j < symbolSize ==>
      pM[j] == XorByte(old(pM[j]), GfMul(BlobByte(origin, NO_FILLING, col, symbolSize, j, row), Beta(row, 0)))
  {
    hide GfMul, GfExp, XorByte;
    var byteOff := ByteOffset(col, row, symbolSize);
    var beta := GfExp(row % 255);
    var inside := 0;
    if byteOff < |origin| {
      var end := if byteOff + symbolSize < |origin| then byteOff + symbolSize else |origin|;
      Accumulate(pM, origin[byteOff..end], beta, 0, end - byteOff);
      inside := end - byteOff;
    }
    forall j | inside <= j < symbolSize
      ensures old(pM[j]) == XorByte(old(pM[j]), GfMul(0, beta))
    {
      AddNothing(old(pM[j]), beta);
    }
  }

  // Ciphertext of one row: the bytes inside the blob, and keystream for the rest.
  method AddCipherRow(ks: Keystream, col: nat, row: nat, symbolSize: nat, cipher: seq<Byte>, length: nat,
                      pC: array<Byte>)
    requires pC.Length == symbolSize
    requires var byteOff := ByteOffset(col, row, symbolSize);
      byteOff < length ==> byteOff + symbolSize <= |cipher| || length <= |cipher|
    modifies pC
    ensures forall j :: 0 <= j < symbolSize ==>
      pC[j] == XorByte(old(pC[j]), GfMul(BlobByte(Cut(cipher, length), ks, col, symbolSize, j, row), Beta(row, 0)))
  {
    hide GfMul, GfExp, XorByte;
    var byteOff := ByteOffset(col, row, symbolSize);
    var beta := GfExp(row % 255);
    var ksStart := 0;
    if byteOff < length {
      var end := if byteOff + symbolSize < length then byteOff + symbolSize else length;
      Accumulate(pC, cipher[byteOff..end], beta, 0, end - byteOff);
      ksStart := end - byteOff;
    }
    var s := KeystreamBlock(ks, byteOff, symbolSize);
    Accumulate(pC, s, beta, ksStart, symbolSize);
  }
}
