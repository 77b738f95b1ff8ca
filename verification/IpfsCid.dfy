/** The content identifier of a file: the hash of the file itself, or of a DAG-PB node over its
    chunks. */
module IpfsCid {
  import opened Arithmetic
  import opened Base32
  import opened Chunking
  import opened DagPb
  import opened Sequences

  const CHUNK_SIZE: nat := 262144
  const RAW: Byte := 0x55
  const DAG_PB: Byte := 0x70

  type Digest = s: seq<Byte> | |s| == 32 witness seq(32, _ => 0)

  // SHA-256 is a function from byte strings to digests; nothing else is assumed of it.
  type Sha256 = seq<Byte> -> Digest

  // A version 1 CID of this codec with a SHA-256 multihash.
  function CidBytes(codec: Byte, digest: Digest): (cid: seq<Byte>)
    ensures |cid| == 36 && cid[4..] == digest
  {
    [1, codec, 0x12, 0x20] + digest
  }

  // ---------------------------------------------------------------- chunks

  function Concat(chunks: seq<seq<Byte>>): seq<Byte>
  {
    if chunks == [] then [] else chunks[0] + Concat(chunks[1..])
  }

  lemma {:induction false} ChunksConcat(data: seq<Byte>, size: nat)
    requires size > 0
    ensures Concat(Chunks(data, size)) == data
    decreases |data|
  {
    if |data| > size {
      ChunksConcat(data[size..], size);
      assert Chunks(data, size)[1..] == Chunks(data[size..], size);
    } else if data != [] {
      assert [data][1..] == [];
    }
  }

  function Lengths(chunks: seq<seq<Byte>>): (r: seq<nat>)
    ensures |r| == |chunks| && forall i :: 0 <= i < |r| ==> r[i] == |chunks[i]|
  {
    if chunks == [] then [] else Lengths(chunks[..|chunks| - 1]) + [|chunks[|chunks| - 1]|]
  }

  function Total(sizes: seq<nat>): nat
  {
    if sizes == [] then 0 else Total(sizes[..|sizes| - 1]) + sizes[|sizes| - 1]
  }

  lemma TotalSnoc(sizes: seq<nat>, size: nat)
    ensures Total(sizes + [size]) == Total(sizes) + size
  {
  }

  lemma {:induction false} TotalCons(size: nat, sizes: seq<nat>)
    ensures Total([size] + sizes) == size + Total(sizes)
  {
    if sizes == [] {
      assert [size] + sizes == sizes + [size];
      TotalSnoc(sizes, size);
    } else {
      var k := |sizes| - 1;
      TotalCons(size, sizes[..k]);
      assert ([size] + sizes)[..k + 1] == [size] + sizes[..k];
    }
  }

  // The block sizes add up to the length of the data.
  lemma {:induction false} LengthsTotal(chunks: seq<seq<Byte>>)
    ensures Total(Lengths(chunks)) == |Concat(chunks)|
    decreases |chunks|
  {
    if chunks != [] {
      LengthsTotal(chunks[1..]);
      TotalCons(|chunks[0]|, Lengths(chunks[1..]));
      assert Lengths(chunks) == [|chunks[0]|] + Lengths(chunks[1..]);
    }
  }

  // ---------------------------------------------------------------- the identifier of a file

  function ChunkLinks(sha: Sha256, chunks: seq<seq<Byte>>): (r: seq<Link>)
    ensures |r| == |chunks|
    ensures forall i :: 0 <= i < |r| ==> r[i] == Link(CidBytes(RAW, sha(chunks[i])), |chunks[i]|)
  {
    if chunks == [] then []
    else
      var last := chunks[|chunks| - 1];
      ChunkLinks(sha, chunks[..|chunks| - 1]) + [Link(CidBytes(RAW, sha(last)), |last|)]
  }

  // The node over the chunks of a file.
  function FileRoot(sha: Sha256, data: seq<Byte>): Root
  {
    var chunks := Chunks(data, CHUNK_SIZE);
    Root(ChunkLinks(sha, chunks), Lengths(chunks), |data|)
  }

  function RootBytes(sha: Sha256, data: seq<Byte>): seq<Byte>
  {
    Message(RootFields(FileRoot(sha, data)))
  }

  function FileCid(sha: Sha256, data: seq<Byte>): (cid: seq<Byte>)
    ensures |cid| == 36
  {
    if |data| <= CHUNK_SIZE then CidBytes(RAW, sha(data)) else CidBytes(DAG_PB, sha(RootBytes(sha, data)))
  }

  // The identifier by its bytes: version 1, the codec, the code and the length of SHA-256, and
  // the digest. A file of at most 2^18 bytes is hashed itself, with the codec of raw bytes; any
  // other is hashed as a node over its chunks.
  lemma FileCidMeans(sha: Sha256, data: seq<Byte>)
    ensures var cid := FileCid(sha, data);
      && |cid| == 36 && cid[0] == 1 && cid[2] == 0x12 && cid[3] == 0x20
      && cid[1] == (if |data| <= 0x4_0000 then 0x55 else 0x70)
      && (|data| <= 0x4_0000 ==> cid[4..] == sha(data))
      && (|data| > 0x4_0000 ==> cid[4..] == sha(Message(RootFields(FileRoot(sha, data)))))
  {
    hide Message, FileRoot;
  }

  // The node over the chunks: a link to every chunk, by its identifier as raw bytes and with its
  // length; the chunks are of 2^18 bytes but for the last.
  lemma FileRootMeans(sha: Sha256, data: seq<Byte>, i: nat)
    requires i < |FileRoot(sha, data).links|
    ensures 0x4_0000 * i < |data| <= 0x4_0000 * |FileRoot(sha, data).links|
    ensures var root := FileRoot(sha, data);
      var chunk := data[0x4_0000 * i..if 0x4_0000 * (i + 1) <= |data| then 0x4_0000 * (i + 1) else |data|];
      && |root.blockSizes| == |root.links|
      && root.links[i].cid == [1, 0x55, 0x12, 0x20] + sha(chunk)
      && root.links[i].size == root.blockSizes[i] == |chunk| && root.totalLength == |data|
  {
    hide Chunks;
    ChunkAt(data, CHUNK_SIZE, i);
  }

  // ---------------------------------------------------------------- the writer

  lemma WrittenName()
    ensures Written(Bytes(0x12, [])) == [0x12, 0x00]
  {
  }

  lemma MessageOfThree(first: Field, second: Field, third: Field)
    ensures Message([first, second, third]) == Written(first) + Written(second) + Written(third)
  {
    hide Message, Written;
    MessageNothing();
    MessageSnoc([], first);
    MessageSnoc([first], second);
    MessageSnoc([first, second], third);
    assert [] + [first] == [first] && [first] + [second] == [first, second];
    assert [first, second] + [third] == [first, second, third];
  }

  lemma LinkMessage(link: Link)
    ensures Message(LinkFields(link)) ==
      [0x0a] + Varint(|link.cid|) + link.cid + [0x12, 0x00] + [0x18] + Varint(link.size)
  {
    hide Message, Varint, Written;
    var first, name, size := Bytes(0x0a, link.cid), Bytes(0x12, []), Number(0x18, link.size);
    MessageOfThree(first, name, size);
    WrittenName();
    WrittenBytes(0x0a, link.cid, []);
    assert [] + Written(first) == Written(first) && [] + [0x0a] == [0x0a];
    WrittenNumber(0x18, link.size, Written(first) + Written(name));
  }

  method WriteLink(link: Link, buf: seq<Byte>) returns (r: seq<Byte>)
    ensures r == buf + Written(Bytes(0x12, Message(LinkFields(link))))
  {
    hide Varint, Message, LinkFields;
    LinkMessage(link);
    var inner := WriteVarint(|link.cid|, [0x0a]);
    inner := inner + link.cid + [0x12, 0x00] + [0x18];
    inner := WriteVarint(link.size, inner);
    r := WriteVarint(|inner|, buf + [0x12]);
    WrittenBytes(0x12, inner, buf);
    r := r + inner;
  }

  lemma WrittenBytes(tag: Byte, content: seq<Byte>, buf: seq<Byte>)
    ensures buf + Written(Bytes(tag, content)) == buf + [tag] + Varint(|content|) + content
  {
  }

  lemma WrittenNumber(tag: Byte, value: nat, buf: seq<Byte>)
    ensures buf + Written(Number(tag, value)) == buf + [tag] + Varint(value)
  {
  }

  method WriteFileData(blockSizes: seq<nat>, totalLength: nat) returns (r: seq<Byte>)
    ensures r == Message(FileFields(blockSizes, totalLength))
  {
    hide Varint, Message, FileFields, Written;
    FileMessageStart(totalLength);
    r := WriteVarint(totalLength, [0x08, 0x02, 0x18]);
    DropAll(blockSizes);
    for k := 0 to |blockSizes|
      invariant r == Message(FileFields(blockSizes[..k], totalLength))
    {
      FileMessageStep(blockSizes, k, totalLength);
      WrittenNumber(0x20, blockSizes[k], r);
      r := WriteVarint(blockSizes[k], r + [0x20]);
    }
  }

  lemma FileMessageStart(totalLength: nat)
    ensures Message(FileFields([], totalLength)) == [0x08, 0x02, 0x18] + Varint(totalLength)
  {
    hide Message;
    var kind, length := Number(0x08, 2), Number(0x18, totalLength);
    MessageNothing();
    MessageSnoc([], kind);
    MessageSnoc([kind], length);
    assert [] + [kind] == [kind] && [kind] + [length] == [kind, length];
    assert Written(kind) == [0x08, 0x02] by {
      assert Varint(2) == [2];
    }
    hide Varint;
    assert [0x08, 0x02] + ([0x18] + Varint(totalLength)) == [0x08, 0x02, 0x18] + Varint(totalLength);
  }

  lemma FileMessageStep(blockSizes: seq<nat>, k: nat, totalLength: nat)
    requires k < |blockSizes|
    ensures Message(FileFields(blockSizes[..k + 1], totalLength))
         == Message(FileFields(blockSizes[..k], totalLength)) + Written(Number(0x20, blockSizes[k]))
  {
    hide Message, Written;
    TakeNext(blockSizes, k);
    assert blockSizes[..k + 1][..k] == blockSizes[..k];
    MessageSnoc(FileFields(blockSizes[..k], totalLength), Number(0x20, blockSizes[k]));
  }

  lemma LinksMessageStep(links: seq<Link>, k: nat)
    requires k < |links|
    ensures Message(LinksFields(links[..k + 1]))
         == Message(LinksFields(links[..k])) + Written(Bytes(0x12, Message(LinkFields(links[k]))))
  {
    hide Message, LinkFields, LinksFields, Written;
    TakeNext(links, k);
    LinksFieldsSnoc(links[..k], links[k]);
    MessageSnoc(LinksFields(links[..k]), Bytes(0x12, Message(LinkFields(links[k]))));
  }

  // `compute_root_dag_pb`, up to the hash: the links, then the data of the file.
  method SerializeRoot(root: Root) returns (r: seq<Byte>)
    ensures r == Message(RootFields(root))
  {
    hide Varint, Message, LinksFields, FileFields, Written, LinkFields;
    r := [];
    DropAll(root.links);
    LinksNothing();
    MessageNothing();
    for k := 0 to |root.links|
      invariant r == Message(LinksFields(root.links[..k]))
    {
      LinksMessageStep(root.links, k);
      r := WriteLink(root.links[k], r);
    }
    var file := WriteFileData(root.blockSizes, root.totalLength);
    MessageSnoc(LinksFields(root.links), Bytes(0x0a, file));
    WrittenBytes(0x0a, file, r);
    r := WriteVarint(|file|, r + [0x0a]);
    r := r + file;
  }

  // ---------------------------------------------------------------- the two programs

  lemma ChunkSnoc(sha: Sha256, chunks: seq<seq<Byte>>, chunk: seq<Byte>)
    ensures ChunkLinks(sha, chunks + [chunk]) == ChunkLinks(sha, chunks) + [Link(CidBytes(RAW, sha(chunk)), |chunk|)]
    ensures Lengths(chunks + [chunk]) == Lengths(chunks) + [|chunk|]
  {
  }

  // The links, the block sizes and the total length, chunk by chunk.
  method BuildRoot(sha: Sha256, data: seq<Byte>) returns (root: Root)
    ensures root == FileRoot(sha, data)
  {
    hide Chunks, ChunkLinks, Lengths, CidBytes;
    var chunks := Chunks(data, CHUNK_SIZE);
    var links, blockSizes, totalLength := [], [], 0;
    DropAll(chunks);
    for k := 0 to |chunks|
      invariant links == ChunkLinks(sha, chunks[..k]) && blockSizes == Lengths(chunks[..k])
      invariant totalLength == Total(blockSizes)
    {
      TakeNext(chunks, k);
      ChunkSnoc(sha, chunks[..k], chunks[k]);
      links := links + [Link(CidBytes(RAW, sha(chunks[k])), |chunks[k]|)];
      TotalSnoc(blockSizes, |chunks[k]|);
      blockSizes := blockSizes + [|chunks[k]|];
      totalLength := totalLength + |chunks[k]|;
    }
    LengthsTotal(chunks);
    ChunksConcat(data, CHUNK_SIZE);
    return Root(links, blockSizes, totalLength);
  }

  method ComputeIpfsCid(sha: Sha256, data: seq<Byte>) returns (text: string)
    ensures text == Printed(FileCid(sha, data))
  {
    hide FileRoot, Printed;
    if |data| <= CHUNK_SIZE {
      return Printed(CidBytes(RAW, sha(data)));
    }
    var root := BuildRoot(sha, data);
    var bytes := SerializeRoot(root);
    return Printed(CidBytes(DAG_PB, sha(bytes)));
  }

  // A multihash in a fixed array: the code of SHA-256, the length, the digest.
  method MultihashBytes(digest: Digest) returns (multihash: array<Byte>)
    ensures fresh(multihash) && multihash[..] == [0x12, 0x20] + digest
  {
    multihash := new Byte[34](_ => 0);
    multihash[0], multihash[1] := 0x12, 0x20;
    forall i | 0 <= i < 32 {
      multihash[2 + i] := digest[i];
    }
  }

  // The identifier of a digest, put together from the array.
  method CidFromArray(codec: Byte, digest: Digest) returns (cid: seq<Byte>)
    ensures cid == CidBytes(codec, digest)
  {
    var multihash := MultihashBytes(digest);
    cid := [1, codec] + multihash[..];
    SameCid(codec, digest);
  }

  // The serialiser of the optimised program, with one buffer for a link and one for the file.
  method SerializeRootOptimized(links: seq<Link>, blockSizes: seq<nat>, totalLength: nat) returns (r: seq<Byte>)
    ensures r == Message(RootFields(Root(links, blockSizes, totalLength)))
  {
    hide Varint, Message, LinksFields, FileFields, Written, LinkFields;
    r := [];
    DropAll(links);
    DropAll(blockSizes);
    LinksNothing();
    MessageNothing();
    for k := 0 to |links|
      invariant r == Message(LinksFields(links[..k]))
    {
      LinkMessage(links[k]);
      var linkInner := WriteVarint(|links[k].cid|, [0x0a]);
      linkInner := linkInner + links[k].cid + [0x12, 0x00] + [0x18];
      linkInner := WriteVarint(links[k].size, linkInner);
      LinksMessageStep(links, k);
      WrittenBytes(0x12, linkInner, r);
      r := WriteVarint(|linkInner|, r + [0x12]);
      r := r + linkInner;
    }
    FileMessageStart(totalLength);
    var unixFsInner := WriteVarint(totalLength, [0x08, 0x02, 0x18]);
    for k := 0 to |blockSizes|
      invariant unixFsInner == Message(FileFields(blockSizes[..k], totalLength))
    {
      FileMessageStep(blockSizes, k, totalLength);
      WrittenNumber(0x20, blockSizes[k], unixFsInner);
      unixFsInner := WriteVarint(blockSizes[k], unixFsInner + [0x20]);
    }
    MessageSnoc(LinksFields(links), Bytes(0x0a, unixFsInner));
    WrittenBytes(0x0a, unixFsInner, r);
    r := WriteVarint(|unixFsInner|, r + [0x0a]);
    r := r + unixFsInner;
  }

  // The optimised program, with its own loop over the chunks, returns the bytes of the same
  // identifier.
  method ComputeIpfsCidZkOptimized(sha: Sha256, data: seq<Byte>) returns (cid: seq<Byte>)
    ensures cid == FileCid(sha, data)
  {
    hide Chunks, ChunkLinks, Lengths, CidBytes, Message, RootFields;
    if |data| <= CHUNK_SIZE {
      cid := CidFromArray(RAW, sha(data));
      return;
    }
    var chunks := Chunks(data, CHUNK_SIZE);
    var links, blockSizes, totalLength := [], [], 0;
    DropAll(chunks);
    for k := 0 to |chunks|
      invariant links == ChunkLinks(sha, chunks[..k]) && blockSizes == Lengths(chunks[..k])
      invariant totalLength == Total(blockSizes)
    {
      TakeNext(chunks, k);
      ChunkSnoc(sha, chunks[..k], chunks[k]);
      TotalSnoc(blockSizes, |chunks[k]|);
      var leafCid := CidFromArray(RAW, sha(chunks[k]));
      links := links + [Link(leafCid, |chunks[k]|)];
      blockSizes := blockSizes + [|chunks[k]|];
      totalLength := totalLength + |chunks[k]|;
    }
    LengthsTotal(chunks);
    ChunksConcat(data, CHUNK_SIZE);
    var bytes := SerializeRootOptimized(links, blockSizes, totalLength);
    cid := CidFromArray(DAG_PB, sha(bytes));
  }

  lemma SameCid(codec: Byte, digest: Digest)
    ensures [1, codec] + ([0x12, 0x20] + digest) == CidBytes(codec, digest)
  {
  }

  // ---------------------------------------------------------------- what an identifier binds

  // The strings hashed on the way to the identifier of a file.
  function Hashed(sha: Sha256, data: seq<Byte>): seq<seq<Byte>>
  {
    if |data| <= CHUNK_SIZE then [data] else [RootBytes(sha, data)] + Chunks(data, CHUNK_SIZE)
  }

  ghost predicate NoCollision(sha: Sha256, xs: seq<seq<Byte>>, ys: seq<seq<Byte>>)
  {
    forall x, y :: x in xs && y in ys && sha(x) == sha(y) ==> x == y
  }

  lemma CidBytesInjective(codec: Byte, digest: Digest, other: Byte, otherDigest: Digest)
    ensures CidBytes(codec, digest) == CidBytes(other, otherDigest) <==> codec == other && digest == otherDigest
  {
  }

  lemma ChunkLinksBind(sha: Sha256, a: seq<seq<Byte>>, b: seq<seq<Byte>>)
    requires NoCollision(sha, a, b) && ChunkLinks(sha, a) == ChunkLinks(sha, b)
    ensures a == b
  {
  }

  // Unless SHA-256 collides on the strings that were hashed, an identifier stands for one
  // file: equal identifiers mean equal data, whatever the lengths.
  lemma CidBinds(sha: Sha256, a: seq<Byte>, b: seq<Byte>)
    requires NoCollision(sha, Hashed(sha, a), Hashed(sha, b))
    ensures FileCid(sha, a) == FileCid(sha, b) <==> a == b
  {
    hide CidBytes, Chunks, RootBytes;
    if FileCid(sha, a) == FileCid(sha, b) {
      var x, y := Hashed(sha, a)[0], Hashed(sha, b)[0];
      CidBytesInjective(if |a| <= CHUNK_SIZE then RAW else DAG_PB, sha(x),
                        if |b| <= CHUNK_SIZE then RAW else DAG_PB, sha(y));
      assert x in Hashed(sha, a) && y in Hashed(sha, b);
      assert x == y;
      if |a| > CHUNK_SIZE {
        RootBytesBind(sha, a, b);
      }
    }
  }

  lemma RootBytesBind(sha: Sha256, a: seq<Byte>, b: seq<Byte>)
    requires RootBytes(sha, a) == RootBytes(sha, b)
    requires NoCollision(sha, Chunks(a, CHUNK_SIZE), Chunks(b, CHUNK_SIZE))
    ensures a == b
  {
    hide Message, RootFields, RootOf, Chunks, ChunkLinks;
    RootBack(FileRoot(sha, a));
    RootBack(FileRoot(sha, b));
    ChunkLinksBind(sha, Chunks(a, CHUNK_SIZE), Chunks(b, CHUNK_SIZE));
    ChunksConcat(a, CHUNK_SIZE);
    ChunksConcat(b, CHUNK_SIZE);
  }

  // The digest read from a printed identifier is the hash of the file, or of its root node.
  lemma PrintedCidHasDigest(sha: Sha256, data: seq<Byte>)
    ensures var digits := Encode(FileCid(sha, data));
      && Text(digits) == Body(Printed(FileCid(sha, data)))
      && EndsInSha256(Decoded(digits))
      && Decoded(digits)[4..] == sha(Hashed(sha, data)[0])
  {
    hide Encode, Decoded, Printed, RootBytes, Chunks;
    PrintedHasDigest(FileCid(sha, data));
    DecodedEncode(FileCid(sha, data));
  }
}
