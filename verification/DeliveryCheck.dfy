/** What the column checks establish, together and with the blob ids. */
module DeliveryCheck {
  import opened Arithmetic
  import opened XorBits
  import opened Rslh
  import opened ColumnBinding
  import opened IdealHash
  import opened BlobOpening

  // ---------------------------------------------------------------- one sample

  // The three checks of one sample.
  ghost predicate SampleAccepted(ks: Keystream, proof: VeShardProof, origin: ColumnShard, cipher: ColumnShard,
                                 dataLength: nat, size: nat)
  {
    && OriginSampleVerdict(proof, origin, dataLength, size).Ok?
    && CipherSampleVerdict(ks, proof, cipher, dataLength, size).Ok?
    && HomomorphismVerdict(ks, proof, size).Ok?
  }

  // How far an opened byte is from encryption: plaintext, keystream and ciphertext of a
  // byte inside the data, taken together.
  function SyndromeByte(ks: Keystream, origin: ColumnShard, cipher: ColumnShard, dataLength: nat, size: nat,
                        j: nat, r: nat): Byte
  {
    var k := ByteOffset(origin.shardIndex, r, size) + j;
    if k >= dataLength then 0
    else XorByte(XorByte(SliverByte(origin, dataLength, size, NO_FILLING, j, r), ks(k)),
                 SliverByte(cipher, dataLength, size, ks, j, r))
  }

  function SyndromeBytes(ks: Keystream, origin: ColumnShard, cipher: ColumnShard, dataLength: nat, size: nat, j: nat)
    : nat -> Byte
  {
    (r: nat) => SyndromeByte(ks, origin, cipher, dataLength, size, j, r)
  }

  ghost predicate SyndromeVanishes(ks: Keystream, origin: ColumnShard, cipher: ColumnShard, dataLength: nat, size: nat)
  {
    forall j :: 0 <= j < size ==>
      WeightedSum(SyndromeBytes(ks, origin, cipher, dataLength, size, j), 0, COL_HEIGHT_SECONDARY) == 0
  }

  // Both openings are of one column of the message matrix, complete, and of the right size.
  ghost predicate WellShaped(origin: ColumnShard, cipher: ColumnShard, dataLength: nat, size: nat)
  {
    && origin.shardIndex == cipher.shardIndex < ROW_WIDTH_PRIMARY
    && |origin.columnSymbols| == |cipher.columnSymbols| == COL_HEIGHT_SECONDARY
    && SizesFit(origin, dataLength, size) && SizesFit(cipher, dataLength, size)
  }

  function OriginSum(origin: ColumnShard, dataLength: nat, size: nat, j: nat): Byte
  {
    WeightedSum(SliverBytes(origin, dataLength, size, NO_FILLING, j), 0, COL_HEIGHT_SECONDARY)
  }

  function CipherSum(ks: Keystream, cipher: ColumnShard, dataLength: nat, size: nat, j: nat): Byte
  {
    WeightedSum(SliverBytes(cipher, dataLength, size, ks, j), 0, COL_HEIGHT_SECONDARY)
  }

  function KeystreamSum(ks: Keystream, column: nat, parityOffset: nat, size: nat, j: nat): Byte
  {
    WeightedSum(KeystreamBytes(ks, column, size, j), parityOffset, COL_HEIGHT_SECONDARY)
  }

  lemma SumsAndSyndrome(ks: Keystream, origin: ColumnShard, cipher: ColumnShard, dataLength: nat, size: nat, j: nat)
    requires origin.shardIndex == cipher.shardIndex
    ensures XorByte(OriginSum(origin, dataLength, size, j), KeystreamSum(ks, origin.shardIndex, 0, size, j))
              == CipherSum(ks, cipher, dataLength, size, j)
       <==> WeightedSum(SyndromeBytes(ks, origin, cipher, dataLength, size, j), 0, COL_HEIGHT_SECONDARY) == 0
  {
    hide WeightedSum, Xor;
    var o, k := SliverBytes(origin, dataLength, size, NO_FILLING, j), KeystreamBytes(ks, origin.shardIndex, size, j);
    var c, s := SliverBytes(cipher, dataLength, size, ks, j), SyndromeBytes(ks, origin, cipher, dataLength, size, j);
    var ok := (r: nat) => XorByte(o(r), k(r));
    SumLinear(o, k, ok, 0, COL_HEIGHT_SECONDARY);
    forall r: nat | r < COL_HEIGHT_SECONDARY
      ensures s(r) == XorByte(ok(r), c(r))
    {
      XorZero(k(r));
      XorZeroIff(k(r), k(r));
    }
    SumLinear(ok, c, s, 0, COL_HEIGHT_SECONDARY);
    XorZeroIff(WeightedSum(ok, 0, COL_HEIGHT_SECONDARY), WeightedSum(c, 0, COL_HEIGHT_SECONDARY));
  }

  function ProofFor(ks: Keystream, origin: ColumnShard, cipher: ColumnShard, parityOffset: nat,
                    dataLength: nat, size: nat): VeShardProof
  {
    VeShardProof(origin.shardIndex, origin.shardIndex, parityOffset,
                 seq(size, j requires 0 <= j < size => OriginSum(origin, dataLength, size, j)),
                 seq(size, j requires 0 <= j < size => CipherSum(ks, cipher, dataLength, size, j)), Col)
  }

  // With any parity offset, an acceptable proof exists exactly when the sums over the two
  // slivers differ by the keystream's; and then it is determined by them.
  lemma SampleExactForParity(ks: Keystream, origin: ColumnShard, cipher: ColumnShard, parityOffset: nat,
                             dataLength: nat, size: nat)
    ensures (exists proof: VeShardProof ::
      proof.parityOffset == parityOffset && SampleAccepted(ks, proof, origin, cipher, dataLength, size))
       <==> && WellShaped(origin, cipher, dataLength, size)
            && forall j :: 0 <= j < size ==>
                 XorByte(OriginSum(origin, dataLength, size, j),
                         KeystreamSum(ks, origin.shardIndex, parityOffset, size, j))
                   == CipherSum(ks, cipher, dataLength, size, j)
    ensures forall proof: VeShardProof :: SampleAccepted(ks, proof, origin, cipher, dataLength, size) ==>
      && proof.originShard == ProofFor(ks, origin, cipher, parityOffset, dataLength, size).originShard
      && proof.cipherShard == ProofFor(ks, origin, cipher, parityOffset, dataLength, size).cipherShard
  {
    hide WeightedSum, Xor;
    var honest := ProofFor(ks, origin, cipher, parityOffset, dataLength, size);
    if WellShaped(origin, cipher, dataLength, size) &&
       forall j :: 0 <= j < size ==>
         XorByte(OriginSum(origin, dataLength, size, j), KeystreamSum(ks, origin.shardIndex, parityOffset, size, j))
           == CipherSum(ks, cipher, dataLength, size, j)
    {
      assert SampleAccepted(ks, honest, origin, cipher, dataLength, size);
    }
  }

  // With parity offset 0 the three checks are exactly the test that the syndrome vanishes.
  lemma SampleExact(ks: Keystream, origin: ColumnShard, cipher: ColumnShard, dataLength: nat, size: nat)
    ensures (exists proof: VeShardProof ::
      proof.parityOffset == 0 && SampleAccepted(ks, proof, origin, cipher, dataLength, size))
       <==> WellShaped(origin, cipher, dataLength, size) && SyndromeVanishes(ks, origin, cipher, dataLength, size)
  {
    hide WeightedSum, XorByte, OriginSum, CipherSum, KeystreamSum, SampleAccepted;
    SampleExactForParity(ks, origin, cipher, 0, dataLength, size);
    if WellShaped(origin, cipher, dataLength, size) {
      forall j: nat | j < size
        ensures XorByte(OriginSum(origin, dataLength, size, j), KeystreamSum(ks, origin.shardIndex, 0, size, j))
                  == CipherSum(ks, cipher, dataLength, size, j)
           <==> WeightedSum(SyndromeBytes(ks, origin, cipher, dataLength, size, j), 0, COL_HEIGHT_SECONDARY) == 0
      {
        SumsAndSyndrome(ks, origin, cipher, dataLength, size, j);
      }
    }
  }

  // A column that is wrong in a single symbol row, in any byte of it, is rejected.
  lemma SingleWrongRowRejected(ks: Keystream, origin: ColumnShard, cipher: ColumnShard, dataLength: nat, size: nat,
                               row: nat, wrong: nat)
    requires row < COL_HEIGHT_SECONDARY && wrong < size
    requires forall r: nat :: r < COL_HEIGHT_SECONDARY && r != row ==>
      SyndromeByte(ks, origin, cipher, dataLength, size, wrong, r) == 0
    requires SyndromeByte(ks, origin, cipher, dataLength, size, wrong, row) != 0
    ensures forall proof: VeShardProof :: proof.parityOffset == 0 ==>
      !SampleAccepted(ks, proof, origin, cipher, dataLength, size)
  {
    hide WeightedSum, SampleAccepted;
    SampleExact(ks, origin, cipher, dataLength, size);
    SumOfOne(SyndromeBytes(ks, origin, cipher, dataLength, size, wrong), 0, COL_HEIGHT_SECONDARY, row);
  }

  // ---------------------------------------------------------------- exchanged rows

  // Every byte of the column is encrypted as it should be.
  ghost predicate Encrypted(ks: Keystream, origin: ColumnShard, cipher: ColumnShard, dataLength: nat, size: nat)
  {
    forall j: nat, r: nat :: j < size && r < COL_HEIGHT_SECONDARY ==>
      SyndromeByte(ks, origin, cipher, dataLength, size, j, r) == 0
  }

  // The ciphertext column with the symbols of two rows exchanged.
  function Exchanged(cipher: ColumnShard, a: nat, b: nat): ColumnShard
    requires a < |cipher.columnSymbols| && b < |cipher.columnSymbols|
  {
    cipher.(columnSymbols := cipher.columnSymbols[a := cipher.columnSymbols[b]][b := cipher.columnSymbols[a]])
  }

  ghost predicate RowInside(column: nat, row: nat, dataLength: nat, size: nat)
  {
    ByteOffset(column, row, size) + size <= dataLength
  }

  lemma ExchangedShape(origin: ColumnShard, cipher: ColumnShard, dataLength: nat, size: nat, a: nat, b: nat)
    requires size > 0 && WellShaped(origin, cipher, dataLength, size)
    requires a < COL_HEIGHT_SECONDARY && b < COL_HEIGHT_SECONDARY
    requires RowInside(cipher.shardIndex, a, dataLength, size) && RowInside(cipher.shardIndex, b, dataLength, size)
    ensures WellShaped(origin, Exchanged(cipher, a, b), dataLength, size)
    ensures |cipher.columnSymbols[a]| == size && |cipher.columnSymbols[b]| == size
  {
  }

  lemma ExchangedByte(ks: Keystream, origin: ColumnShard, cipher: ColumnShard, dataLength: nat, size: nat,
                      a: nat, b: nat, j: nat, r: nat)
    requires WellShaped(origin, cipher, dataLength, size) && Encrypted(ks, origin, cipher, dataLength, size)
    requires a < COL_HEIGHT_SECONDARY && b < COL_HEIGHT_SECONDARY && a != b && j < size && r < COL_HEIGHT_SECONDARY
    requires RowInside(cipher.shardIndex, a, dataLength, size) && RowInside(cipher.shardIndex, b, dataLength, size)
    ensures SyndromeByte(ks, origin, Exchanged(cipher, a, b), dataLength, size, j, r)
         == if r == a || r == b then XorByte(cipher.columnSymbols[a][j], cipher.columnSymbols[b][j]) else 0
  {
    hide Xor, ByteOffset;
    ExchangedShape(origin, cipher, dataLength, size, a, b);
    var here, there := cipher.columnSymbols[r], Exchanged(cipher, a, b).columnSymbols[r];
    assert SyndromeByte(ks, origin, cipher, dataLength, size, j, r) == 0;
    if r == a || r == b {
      var k := ByteOffset(origin.shardIndex, r, size) + j;
      assert k < dataLength && there == if r == a then cipher.columnSymbols[b] else cipher.columnSymbols[a];
      assert SliverByte(cipher, dataLength, size, ks, j, r) == here[j];
      assert SliverByte(Exchanged(cipher, a, b), dataLength, size, ks, j, r) == there[j];
      XorZeroIff(XorByte(SliverByte(origin, dataLength, size, NO_FILLING, j, r), ks(k)), here[j]);
      XorSymmetric(here[j], there[j]);
    }
  }

  // The exact condition: of a correctly encrypted column, two different symbols inside the data
  // may be exchanged unnoticed if and only if their rows agree modulo 255, the number of
  // different weights.
  lemma ExchangedRowsExactly(ks: Keystream, origin: ColumnShard, cipher: ColumnShard, dataLength: nat, size: nat,
                             a: nat, b: nat)
    requires size > 0 && WellShaped(origin, cipher, dataLength, size) && Encrypted(ks, origin, cipher, dataLength, size)
    requires a < COL_HEIGHT_SECONDARY && b < COL_HEIGHT_SECONDARY && a != b
    requires RowInside(cipher.shardIndex, a, dataLength, size) && RowInside(cipher.shardIndex, b, dataLength, size)
    ensures (exists proof: VeShardProof ::
      proof.parityOffset == 0 && SampleAccepted(ks, proof, origin, Exchanged(cipher, a, b), dataLength, size))
       <==> a % 255 == b % 255 || cipher.columnSymbols[a] == cipher.columnSymbols[b]
  {
    hide SampleAccepted, WeightedSum, Xor, ByteOffset, SyndromeByte, Encrypted;
    var exchanged := Exchanged(cipher, a, b);
    SampleExact(ks, origin, exchanged, dataLength, size);
    forall j: nat | j < size
      ensures WeightedSum(SyndromeBytes(ks, origin, exchanged, dataLength, size, j), 0, COL_HEIGHT_SECONDARY) == 0
         <==> cipher.columnSymbols[a][j] == cipher.columnSymbols[b][j] || a % 255 == b % 255
    {
      forall r: nat | r < COL_HEIGHT_SECONDARY
        ensures SyndromeByte(ks, origin, exchanged, dataLength, size, j, r)
             == if r == a || r == b then XorByte(cipher.columnSymbols[a][j], cipher.columnSymbols[b][j]) else 0
      {
        ExchangedByte(ks, origin, cipher, dataLength, size, a, b, j, r);
      }
      XorZeroIff(cipher.columnSymbols[a][j], cipher.columnSymbols[b][j]);
      SumOfPair(SyndromeBytes(ks, origin, exchanged, dataLength, size, j), COL_HEIGHT_SECONDARY, a, b);
    }
    ExchangedShape(origin, cipher, dataLength, size, a, b);
    var x, y := cipher.columnSymbols[a], cipher.columnSymbols[b];
    assert x == y <==> forall j: nat :: j < size ==> x[j] == y[j];
  }

  // ---------------------------------------------------------------- all samples

  ghost predicate Delivered(ks: Keystream, origin: ColumnOpening, cipher: ColumnOpening, proofs: seq<VeShardProof>,
                            packSize: nat)
  {
    && OriginVerdict(origin, proofs, packSize).Ok?
    && CipherVerdict(ks, cipher, proofs, packSize).Ok?
    && forall k :: 0 <= k < |proofs| ==> HomomorphismVerdict(ks, proofs[k], packSize).Ok?
  }

  lemma {:induction false} CipherSamplesMean(ks: Keystream, opening: ColumnOpening, proofs: seq<VeShardProof>,
                                             size: nat, k: nat)
    requires |proofs| == |opening.shards| && k <= |proofs|
    ensures CipherSamplesVerdict(ks, opening, proofs, size, k).Ok?
       <==> forall i :: k <= i < |proofs| ==>
              CipherSampleVerdict(ks, proofs[i], opening.shards[i], opening.unencodedLength, size).Ok?
    decreases |proofs| - k
  {
    hide CipherSampleVerdict;
    if k < |proofs| {
      CipherSamplesMean(ks, opening, proofs, size, k + 1);
    }
  }

  lemma {:induction false} OriginSamplesMean(opening: ColumnOpening, proofs: seq<VeShardProof>, size: nat, k: nat)
    requires |proofs| == |opening.shards| && k <= |proofs|
    ensures OriginSamplesVerdict(opening, proofs, size, k).Ok?
       <==> forall i :: k <= i < |proofs| ==>
              OriginSampleVerdict(proofs[i], opening.shards[i], opening.unencodedLength, size).Ok?
    decreases |proofs| - k
  {
    hide OriginSampleVerdict;
    if k < |proofs| {
      OriginSamplesMean(opening, proofs, size, k + 1);
    }
  }

  // The openings are of as many samples of two blobs of one length, encoded for 1000 shards.
  ghost predicate Matching(origin: ColumnOpening, cipher: ColumnOpening)
  {
    && origin.nShards == cipher.nShards == 1000
    && origin.unencodedLength == cipher.unencodedLength
    && |origin.shards| == |cipher.shards|
  }

  lemma DeliveredMeans(ks: Keystream, origin: ColumnOpening, cipher: ColumnOpening, proofs: seq<VeShardProof>,
                       packSize: nat)
    requires origin.unencodedLength == cipher.unencodedLength
    ensures Delivered(ks, origin, cipher, proofs, packSize)
       <==> && Matching(origin, cipher) && |proofs| == |origin.shards|
            && packSize == WalrusSymbolSize(origin.unencodedLength)
            && forall i :: 0 <= i < |proofs| ==>
                 SampleAccepted(ks, proofs[i], origin.shards[i], cipher.shards[i], origin.unencodedLength, packSize)
  {
    hide OriginSampleVerdict, CipherSampleVerdict, HomomorphismVerdict, WalrusSymbolSize;
    if |proofs| == |origin.shards| == |cipher.shards| {
      OriginSamplesMean(origin, proofs, packSize, 0);
      CipherSamplesMean(ks, cipher, proofs, packSize, 0);
    }
  }

  // Some proofs of the prescribed form pass all checks.
  ghost predicate Deliverable(ks: Keystream, origin: ColumnOpening, cipher: ColumnOpening, packSize: nat)
  {
    exists proofs: seq<VeShardProof> ::
      (forall i :: 0 <= i < |proofs| ==> proofs[i].parityOffset == 0) && Delivered(ks, origin, cipher, proofs, packSize)
  }

  // Every sampled column is well-shaped and its syndrome vanishes.
  ghost predicate SyndromesVanish(ks: Keystream, origin: ColumnOpening, cipher: ColumnOpening, packSize: nat)
  {
    && Matching(origin, cipher) && packSize == WalrusSymbolSize(origin.unencodedLength)
    && forall i :: 0 <= i < |origin.shards| ==>
         && WellShaped(origin.shards[i], cipher.shards[i], origin.unencodedLength, packSize)
         && SyndromeVanishes(ks, origin.shards[i], cipher.shards[i], origin.unencodedLength, packSize)
  }

  // Proofs of the prescribed form can be given exactly when every sampled column of the two
  // blobs has a vanishing syndrome.
  lemma DeliveryExact(ks: Keystream, origin: ColumnOpening, cipher: ColumnOpening, packSize: nat)
    requires origin.unencodedLength == cipher.unencodedLength
    ensures Deliverable(ks, origin, cipher, packSize) <==> SyndromesVanish(ks, origin, cipher, packSize)
  {
    hide WalrusSymbolSize, SampleAccepted, WellShaped, SyndromeVanishes, Delivered;
    var length := origin.unencodedLength;
    if proofs: seq<VeShardProof> :| (forall i :: 0 <= i < |proofs| ==> proofs[i].parityOffset == 0)
                                    && Delivered(ks, origin, cipher, proofs, packSize)
    {
      DeliveredMeans(ks, origin, cipher, proofs, packSize);
      forall i | 0 <= i < |origin.shards|
        ensures WellShaped(origin.shards[i], cipher.shards[i], length, packSize)
             && SyndromeVanishes(ks, origin.shards[i], cipher.shards[i], length, packSize)
      {
        assert SampleAccepted(ks, proofs[i], origin.shards[i], cipher.shards[i], length, packSize);
        SampleExact(ks, origin.shards[i], cipher.shards[i], length, packSize);
      }
    }
    if Matching(origin, cipher) && packSize == WalrusSymbolSize(length) &&
       forall i :: 0 <= i < |origin.shards| ==>
         && WellShaped(origin.shards[i], cipher.shards[i], length, packSize)
         && SyndromeVanishes(ks, origin.shards[i], cipher.shards[i], length, packSize)
    {
      var proofs := ProofsFor(ks, origin, cipher, packSize, |origin.shards|);
      DeliveredMeans(ks, origin, cipher, proofs, packSize);
    }
  }

  // Acceptable proofs of the first `count` samples.
  lemma {:induction false} ProofsFor(ks: Keystream, origin: ColumnOpening, cipher: ColumnOpening, packSize: nat,
                                     count: nat) returns (proofs: seq<VeShardProof>)
    requires Matching(origin, cipher) && count <= |origin.shards|
    requires forall i :: 0 <= i < |origin.shards| ==>
      && WellShaped(origin.shards[i], cipher.shards[i], origin.unencodedLength, packSize)
      && SyndromeVanishes(ks, origin.shards[i], cipher.shards[i], origin.unencodedLength, packSize)
    ensures |proofs| == count
    ensures forall i :: 0 <= i < count ==>
      && proofs[i].parityOffset == 0
      && SampleAccepted(ks, proofs[i], origin.shards[i], cipher.shards[i], origin.unencodedLength, packSize)
  {
    hide SampleAccepted, WellShaped, SyndromeVanishes;
    if count == 0 {
      proofs := [];
    } else {
      var k := count - 1;
      var before := ProofsFor(ks, origin, cipher, packSize, k);
      SampleExact(ks, origin.shards[k], cipher.shards[k], origin.unencodedLength, packSize);
      var proof: VeShardProof :| proof.parityOffset == 0 &&
        SampleAccepted(ks, proof, origin.shards[k], cipher.shards[k], origin.unencodedLength, packSize);
      proofs := before + [proof];
    }
  }

  // ---------------------------------------------------------------- the honest prover

  // A primary sliver holds the bytes of its row of the message matrix, padded with zeros.
  ghost predicate LaidOut(shard: ColumnShard, data: seq<Byte>, size: nat)
  {
    && |shard.columnSymbols| == COL_HEIGHT_SECONDARY
    && forall r :: 0 <= r < COL_HEIGHT_SECONDARY ==>
         && |shard.columnSymbols[r]| == size
         && forall j :: 0 <= j < size ==>
              shard.columnSymbols[r][j] == BlobByte(data, NO_FILLING, shard.shardIndex, size, j, r)
  }

  lemma SliverSumsOverBlob(shard: ColumnShard, data: seq<Byte>, size: nat, filling: Keystream, j: nat)
    requires LaidOut(shard, data, size) && j < size
    ensures WeightedSum(SliverBytes(shard, |data|, size, filling, j), 0, COL_HEIGHT_SECONDARY)
         == WeightedSum(BlobBytes(data, filling, shard.shardIndex, size, j), 0, COL_HEIGHT_SECONDARY)
  {
    hide WeightedSum;
    SumOfEqual(SliverBytes(shard, |data|, size, filling, j), BlobBytes(data, filling, shard.shardIndex, size, j),
               0, COL_HEIGHT_SECONDARY);
  }

  lemma EncryptedSyndrome(ks: Keystream, origin: ColumnShard, cipher: ColumnShard, data: seq<Byte>,
                          encrypted: seq<Byte>, size: nat, j: nat, r: nat)
    requires origin.shardIndex == cipher.shardIndex && j < size && r < COL_HEIGHT_SECONDARY
    requires LaidOut(origin, data, size) && LaidOut(cipher, encrypted, size)
    requires |encrypted| == |data| && forall k :: 0 <= k < |data| ==> encrypted[k] == XorByte(data[k], ks(k))
    ensures SyndromeByte(ks, origin, cipher, |data|, size, j, r) == 0
  {
    hide Xor;
    var k := ByteOffset(origin.shardIndex, r, size) + j;
    if k < |data| {
      XorZeroIff(encrypted[k], encrypted[k]);
    }
  }

  // For every blob, keystream and sample index, the honest proof of an encrypted blob passes
  // all three checks, whatever part of the column lies past the end of the blob.
  lemma HonestProofAccepted(ks: Keystream, proof: VeShardProof, idx: nat, size: nat, data: seq<Byte>,
                            encrypted: seq<Byte>, origin: ColumnShard, cipher: ColumnShard)
    requires |encrypted| == |data| && forall k :: 0 <= k < |data| ==> encrypted[k] == XorByte(data[k], ks(k))
    requires IsHonestProof(proof, ks, idx, size, data, encrypted)
    requires origin.shardIndex == cipher.shardIndex == idx % ROW_WIDTH_PRIMARY
    requires LaidOut(origin, data, size) && LaidOut(cipher, encrypted, size)
    ensures SampleAccepted(ks, proof, origin, cipher, |data|, size)
  {
    hide WeightedSum, Xor;
    forall j: nat | j < size
      ensures proof.originShard[j] == OriginSum(origin, |data|, size, j)
      ensures proof.cipherShard[j] == CipherSum(ks, cipher, |data|, size, j)
      ensures XorByte(proof.originShard[j], KeystreamSum(ks, proof.colIndex, 0, size, j)) == proof.cipherShard[j]
    {
      SliverSumsOverBlob(origin, data, size, NO_FILLING, j);
      SliverSumsOverBlob(cipher, encrypted, size, ks, j);
      forall r: nat | r < COL_HEIGHT_SECONDARY
        ensures SyndromeByte(ks, origin, cipher, |data|, size, j, r) == 0
      {
        EncryptedSyndrome(ks, origin, cipher, data, encrypted, size, j, r);
      }
      SumOfOne(SyndromeBytes(ks, origin, cipher, |data|, size, j), 0, COL_HEIGHT_SECONDARY, COL_HEIGHT_SECONDARY);
      SumsAndSyndrome(ks, origin, cipher, |data|, size, j);
    }
  }

  // ---------------------------------------------------------------- binding to the blob ids

  // What the column checks read of an opening whose symbols are plain bytes.
  ghost predicate Carries(opening: WalrusBlobOpening, columns: ColumnOpening)
  {
    && columns.nShards == opening.nShards
    && columns.unencodedLength == opening.unencodedLength
    && |columns.shards| == |opening.shards|
    && forall s :: 0 <= s < |columns.shards| ==> CarriesShard(opening.shards[s], columns.shards[s])
  }

  ghost predicate CarriesShard(shard: WalrusShardOpening, column: ColumnShard)
  {
    && column.shardIndex == shard.shardIndex
    && |column.columnSymbols| == |shard.columnSymbols|
    && forall r :: 0 <= r < |column.columnSymbols| ==> shard.columnSymbols[r] == Raws(column.columnSymbols[r])
  }

  lemma RawsInjective(a: seq<Byte>, b: seq<Byte>)
    requires Raws(a) == Raws(b)
    ensures a == b
  {
  }

  lemma CarriedShardsEqual(a: WalrusShardOpening, b: WalrusShardOpening, x: ColumnShard, y: ColumnShard)
    requires CarriesShard(a, x) && CarriesShard(b, y)
    requires a.shardIndex == b.shardIndex && a.columnSymbols == b.columnSymbols
    ensures x == y
  {
    forall r | 0 <= r < |x.columnSymbols|
      ensures x.columnSymbols[r] == y.columnSymbols[r]
    {
      RawsInjective(x.columnSymbols[r], y.columnSymbols[r]);
    }
  }

  // All that the column checks read is determined by the blob id and the sampled shards, so
  // their outcome is the same for every accepted opening.
  lemma BlobIdFixesColumns(a: WalrusBlobOpening, b: WalrusBlobOpening, x: ColumnOpening, y: ColumnOpening)
    requires OpeningVerdict(a).Ok? && OpeningVerdict(b).Ok? && a.blobId == b.blobId
    requires a.nShards >= COL_HEIGHT_SECONDARY && |a.shards| == |b.shards|
    requires forall s :: 0 <= s < |a.shards| ==> a.shards[s].shardIndex == b.shards[s].shardIndex
    requires Carries(a, x) && Carries(b, y)
    ensures x == y
  {
    hide OpeningVerdict;
    OpeningBinds(a, b);
    forall s | 0 <= s < |x.shards|
      ensures x.shards[s] == y.shards[s]
    {
      ColumnBinds(a, b, s, s);
      CarriedShardsEqual(a.shards[s], b.shards[s], x.shards[s], y.shards[s]);
    }
  }

  // ---------------------------------------------------------------- deliveries

  ghost predicate Encrypts(ks: Keystream, data: seq<Byte>, encrypted: seq<Byte>)
  {
    |encrypted| == |data| && forall k :: 0 <= k < |data| ==> encrypted[k] == XorByte(data[k], ks(k))
  }

  // The opening shows the columns of these sample indices, laid out as the encoder does.
  ghost predicate ShowsColumns(opening: ColumnOpening, indices: seq<nat>, data: seq<Byte>, size: nat)
  {
    && opening.nShards == 1000 && opening.unencodedLength == |data| && |opening.shards| == |indices|
    && forall i :: 0 <= i < |indices| ==>
         opening.shards[i].shardIndex == indices[i] % ROW_WIDTH_PRIMARY && LaidOut(opening.shards[i], data, size)
  }

  // Completeness of a whole delivery: for every blob, keystream and choice of samples, the
  // honest proofs pass all checks on the openings of the two blobs.
  lemma HonestDelivery(ks: Keystream, origin: ColumnOpening, cipher: ColumnOpening, proofs: seq<VeShardProof>,
                       indices: seq<nat>, data: seq<Byte>, encrypted: seq<Byte>)
    requires Encrypts(ks, data, encrypted) && |proofs| == |indices|
    requires ShowsColumns(origin, indices, data, WalrusSymbolSize(|data|))
    requires ShowsColumns(cipher, indices, encrypted, WalrusSymbolSize(|data|))
    requires forall i :: 0 <= i < |proofs| ==>
      IsHonestProof(proofs[i], ks, indices[i], WalrusSymbolSize(|data|), data, encrypted)
    ensures Delivered(ks, origin, cipher, proofs, WalrusSymbolSize(|data|))
  {
    hide Delivered, SampleAccepted, IsHonestProof, LaidOut, WalrusSymbolSize;
    var size := WalrusSymbolSize(|data|);
    forall i | 0 <= i < |proofs|
      ensures SampleAccepted(ks, proofs[i], origin.shards[i], cipher.shards[i], |data|, size)
    {
      HonestProofAccepted(ks, proofs[i], indices[i], size, data, encrypted, origin.shards[i], cipher.shards[i]);
    }
    DeliveredMeans(ks, origin, cipher, proofs, size);
  }

  // Two accepted openings of one blob id, of the same sampled shards.
  ghost predicate OpenAlike(a: WalrusBlobOpening, b: WalrusBlobOpening)
  {
    && OpeningVerdict(a).Ok? && OpeningVerdict(b).Ok? && a.blobId == b.blobId
    && a.nShards >= COL_HEIGHT_SECONDARY && |a.shards| == |b.shards|
    && forall s :: 0 <= s < |a.shards| ==> a.shards[s].shardIndex == b.shards[s].shardIndex
  }

  // With the two blob ids and the sampled shards fixed, it does not matter which accepted
  // openings `b` and `d` are shown: there are proofs for them if and only if the syndromes of
  // the columns `x` and `y`, which the blob ids commit to, vanish.
  lemma DeliveryFixedByBlobIds(ks: Keystream, a: WalrusBlobOpening, b: WalrusBlobOpening, c: WalrusBlobOpening,
                               d: WalrusBlobOpening, x: ColumnOpening, y: ColumnOpening, shownOrigin: ColumnOpening,
                               shownCipher: ColumnOpening, packSize: nat)
    requires OpenAlike(a, b) && OpenAlike(c, d) && x.unencodedLength == y.unencodedLength
    requires Carries(a, x) && Carries(b, shownOrigin) && Carries(c, y) && Carries(d, shownCipher)
    ensures Deliverable(ks, shownOrigin, shownCipher, packSize) <==> SyndromesVanish(ks, x, y, packSize)
  {
    hide OpeningVerdict, Delivered, WellShaped, SyndromeVanishes, WalrusSymbolSize, Carries;
    BlobIdFixesColumns(a, b, x, shownOrigin);
    BlobIdFixesColumns(c, d, y, shownCipher);
    DeliveryExact(ks, x, y, packSize);
  }

  // A committed column that is wrong in one symbol row can be delivered with no opening and no
  // proofs.
  lemma WrongRowNeverDelivered(ks: Keystream, a: WalrusBlobOpening, b: WalrusBlobOpening, c: WalrusBlobOpening,
                               d: WalrusBlobOpening, x: ColumnOpening, y: ColumnOpening, shownOrigin: ColumnOpening,
                               shownCipher: ColumnOpening, packSize: nat, i: nat, row: nat, wrong: nat)
    requires OpenAlike(a, b) && OpenAlike(c, d) && x.unencodedLength == y.unencodedLength
    requires Carries(a, x) && Carries(b, shownOrigin) && Carries(c, y) && Carries(d, shownCipher)
    requires i < |x.shards| && i < |y.shards| && row < COL_HEIGHT_SECONDARY && wrong < packSize
    requires forall r: nat :: r < COL_HEIGHT_SECONDARY && r != row ==>
      SyndromeByte(ks, x.shards[i], y.shards[i], x.unencodedLength, packSize, wrong, r) == 0
    requires SyndromeByte(ks, x.shards[i], y.shards[i], x.unencodedLength, packSize, wrong, row) != 0
    ensures !Deliverable(ks, shownOrigin, shownCipher, packSize)
  {
    hide OpeningVerdict, Deliverable, WellShaped, WalrusSymbolSize, Carries, WeightedSum, OpenAlike;
    DeliveryFixedByBlobIds(ks, a, b, c, d, x, y, shownOrigin, shownCipher, packSize);
    SumOfOne(SyndromeBytes(ks, x.shards[i], y.shards[i], x.unencodedLength, packSize, wrong), 0,
             COL_HEIGHT_SECONDARY, row);
  }
}
