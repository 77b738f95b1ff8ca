/** The blob id: a hash over the encoding type, the unencoded length and the root of the
    Merkle tree whose leaves are the pairs of sliver roots. */
module BlobCommitment {
  import opened Arithmetic
  import opened ByteStrings
  import opened IdealHash
  import opened Merkle
  import opened Wrappers

  type U64 = n: nat | n < 0x1_0000_0000_0000_0000

  datatype EncodingType = RedStuffRaptorQ | RS2 {
    function Code(): Byte
    {
      match this
      case RedStuffRaptorQ => 0
      case RS2 => 1
    }
  }

  // `EncodingType::try_from`: the deprecated encoding is not accepted back.
  function EncodingFromCode(code: Byte): Option<EncodingType>
  {
    if code == 1 then Some(RS2) else None
  }

  datatype SliverPairMetadata = SliverPairMetadata(primaryHash: Node, secondaryHash: Node) {
    function PairLeafInput(): seq<Octet>
    {
      primaryHash.Bytes() + secondaryHash.Bytes()
    }
  }

  datatype BlobMetadata = BlobMetadata(encodingType: EncodingType, unencodedLength: U64,
                                       hashes: seq<SliverPairMetadata>) {
    ghost function RootHash(): Node
    {
      Root(LeafHashes(PairLeafInputs(hashes)))
    }

    ghost function BlobId(): Bytes32
    {
      BlobIdFromMetadata(RootHash(), encodingType, unencodedLength)
    }

    method ComputeRootHash() returns (root: Node)
      ensures root == RootHash()
    {
      var tree := Build(PairLeafInputs(hashes));
      root := tree.RootNode();
    }

    // `BlobId::from_sliver_pair_metadata`.
    method ComputeBlobId() returns (id: Bytes32)
      ensures id == BlobId()
    {
      var merkleRoot := ComputeRootHash();
      id := BlobIdFromMetadata(merkleRoot, encodingType, unencodedLength);
    }
  }

  function PairLeafInputs(hashes: seq<SliverPairMetadata>): (r: seq<seq<Octet>>)
    ensures |r| == |hashes|
    ensures forall i :: 0 <= i < |r| ==> r[i] == hashes[i].PairLeafInput()
  {
    seq(|hashes|, i requires 0 <= i < |hashes| => hashes[i].PairLeafInput())
  }

  function BlobIdFromMetadata(merkleRoot: Node, encoding: EncodingType, unencodedLength: U64): Bytes32
  {
    Hash([Raw(encoding.Code())] + LittleEndian(unencodedLength, 8) + merkleRoot.Bytes())
  }

  // What is hashed: 41 octets, the code of the encoding, the length with its lowest byte first,
  // and the root.
  lemma BlobIdPreimage(root: Node, encoding: EncodingType, length: U64)
    returns (input: seq<Octet>)
    ensures |input| == 41 && input[0] == Raw(if encoding.RS2? then 1 else 0)
    ensures forall k :: 0 <= k < 8 ==> input[1 + k] == Raw(length / Pow256(k) % 256)
    ensures forall i :: 0 <= i < 32 ==> input[9 + i] == root.Bytes()[i]
    ensures forall i :: 0 <= i < 32 ==> BlobIdFromMetadata(root, encoding, length)[i] == Out(input, i)
  {
    hide LittleEndian;
    input := [Raw(encoding.Code())] + LittleEndian(length, 8) + root.Bytes();
    forall k | 0 <= k < 8
      ensures input[1 + k] == Raw(length / Pow256(k) % 256)
    {
      LittleEndianAt(length, 8, k);
    }
  }

  lemma BlobIdFromMetadataBinds(r: Node, e: EncodingType, n: U64, s: Node, f: EncodingType, m: U64)
    ensures BlobIdFromMetadata(r, e, n) == BlobIdFromMetadata(s, f, m)
       <==> r.Bytes() == s.Bytes() && e == f && n == m
  {
    var x, y := [Raw(e.Code())] + LittleEndian(n, 8) + r.Bytes(), [Raw(f.Code())] + LittleEndian(m, 8) + s.Bytes();
    HashInjective(x, y);
    assert x[0] == Raw(e.Code()) && y[0] == Raw(f.Code());
    assert x[1..9] == LittleEndian(n, 8) && y[1..9] == LittleEndian(m, 8);
    assert x[9..] == r.Bytes() && y[9..] == s.Bytes();
    Pow256Words();
    LittleEndianInjective(n, m, 8);
  }

  ghost predicate SamePairs(a: seq<SliverPairMetadata>, b: seq<SliverPairMetadata>)
  {
    |a| == |b| && forall i :: 0 <= i < |a| ==>
      a[i].primaryHash.Bytes() == b[i].primaryHash.Bytes() && a[i].secondaryHash.Bytes() == b[i].secondaryHash.Bytes()
  }

  // The primary root comes first.
  lemma PairLeafOrder(pair: SliverPairMetadata)
    ensures |pair.PairLeafInput()| == 64
    ensures forall i :: 0 <= i < 32 ==> pair.PairLeafInput()[i] == pair.primaryHash.Bytes()[i]
    ensures forall i :: 0 <= i < 32 ==> pair.PairLeafInput()[32 + i] == pair.secondaryHash.Bytes()[i]
  {
  }

  lemma PairLeafInputInjective(a: SliverPairMetadata, b: SliverPairMetadata)
    ensures a.PairLeafInput() == b.PairLeafInput()
       <==> a.primaryHash.Bytes() == b.primaryHash.Bytes() && a.secondaryHash.Bytes() == b.secondaryHash.Bytes()
  {
    var x, y := a.PairLeafInput(), b.PairLeafInput();
    assert x[..32] == a.primaryHash.Bytes() && y[..32] == b.primaryHash.Bytes();
    assert x[32..] == a.secondaryHash.Bytes() && y[32..] == b.secondaryHash.Bytes();
  }

  lemma PairLeafInputsInjective(a: seq<SliverPairMetadata>, b: seq<SliverPairMetadata>)
    ensures PairLeafInputs(a) == PairLeafInputs(b) <==> SamePairs(a, b)
  {
    var x, y := PairLeafInputs(a), PairLeafInputs(b);
    if |a| == |b| {
      forall i | 0 <= i < |a|
        ensures x[i] == y[i]
           <==> a[i].primaryHash.Bytes() == b[i].primaryHash.Bytes()
                && a[i].secondaryHash.Bytes() == b[i].secondaryHash.Bytes()
      {
        PairLeafInputInjective(a[i], b[i]);
      }
    }
  }

  // A blob id determines the encoding, the length, the number of sliver pairs and every
  // sliver root.
  lemma BlobIdBinds(a: BlobMetadata, b: BlobMetadata)
    ensures a.BlobId() == b.BlobId()
       <==> && a.encodingType == b.encodingType
            && a.unencodedLength == b.unencodedLength
            && SamePairs(a.hashes, b.hashes)
  {
    BlobIdFromMetadataBinds(a.RootHash(), a.encodingType, a.unencodedLength,
                            b.RootHash(), b.encodingType, b.unencodedLength);
    RootBindsData(PairLeafInputs(a.hashes), PairLeafInputs(b.hashes));
    PairLeafInputsInjective(a.hashes, b.hashes);
  }
}
