# TrustDrop: verified models of the delivery chain

TrustDrop sells encrypted blobs. A buyer is convinced of a delivery by a chain of checks: a blob
is committed to with Merkle trees, sampled slivers are opened against the blob id, and a GF(256)
relation ties plaintext, ciphertext and keystream together. This project models that chain and
the code around it (the MP4 sampling of previews, the assignment of slivers to shards, the
content identifiers, and the seller's daemon), and proves what the chain is for.

`dafny verify dfyconfig.toml` checks everything.

## The model, file by file

| file | what it models |
|---|---|
| `IdealHash` | octet strings and an ideal hash: an output remembers its input, and is never a plain byte. `Node::Empty` and a digest of zeros have the same bytes |
| `PaddedTree`, `Merkle` | the flat, level-by-level node vector of `walrus-core/src/merkle.rs`, against a recursive padded tree; proofs, their computation and their check |
| `BlobCommitment`, `BlobOpening`, `OpeningBuilder`, `SecondarySymbols` | the blob id, the verifier and the builder of openings (symbol, sliver root, pair tree, blob id), and how far secondary symbols are bound |
| `XorBits`, `Galois`, `Rslh`, `ColumnBinding`, `DeliveryCheck` | GF(256) by log/exp tables, the weighted column sums, the column checks, and what passing all of them means |
| `HonestSeller` | the openings built from an encoded blob, and completeness from the encoded blobs to the delivery |
| `Mp4Boxes`, `SampleTables`, `VideoTracks`, `TrackParser`, `TableBytes` | box iteration, the sample tables, the expansion of sample offsets, the track built from them, and the tables as bytes |
| `SamplePlanner`, `PreviewSampling` | unbiased offsets, buckets, the choice of three previews, and the way from the boxes to them |
| `ByteStrings`, `Mapping` | big-endian numbers, and the rotation of sliver pairs |
| `Batching`, `Threads`, `SellerDaemon` | the grouping of purchases, the thread table, and the daemon's ticks |
| `DagPb`, `IpfsCid`, `Base32` | DAG-PB nodes, the content identifier of a file, and the digest read back from its text |

Code that loops or updates is a method, proved against a specification function or predicate;
what the specification means is then proved as lemmas about it. Errors are `Result` values in
the order of the source's checks.

### Modelling choices

- Hashes. The Merkle layer uses an ideal hash, so collision freedom and domain separation come
  from constructors. SHA-256 of content identifiers is an arbitrary function, and binding is
  stated under the absence of a collision among the strings actually hashed.
- The keystream is an arbitrary function from byte positions to bytes. Deriving the nonce, and
  ChaCha8 itself, are not part of this model.
- `usize` is 64 bits wide, so the overflow branch of the box iterator that only exists on
  narrower machines is absent. Byte offsets and lengths of blobs are unbounded. The parity
  offset plus one is taken modulo 2^32.
- Where the source maps an error that an earlier check excludes, or tests for one that cannot
  arise (the quotient of the preview ticks, the thread just created), the branch is omitted.
- Hash strings of purchases, sale ids and addresses are held in lower case, as the source
  compares them without regard to case.
- Values drawn by hashing a seed are an arbitrary function of bucket and counter. The source
  loops until a value is accepted; the model asks that one is, in every bucket the planner
  reaches, which is exactly when the loop ends (`SearchEndsExactly`).
- The clock of the daemon is a sequence of readings in seconds, without any assumption in the
  functions and methods that read it. Where a result needs distinct readings, it says so.

### Results about the code that its documentation does not state

- The builder accepts the deprecated encoding, whose openings the verifier always refuses. The
  two agree exactly for the current encoding and for requests whose symbols hash to their cells
  (`BuilderAgreesWithVerifier`, `DeprecatedEncodingRefused`).
- Column symbols are compared with the leaf hashes pairwise, so a symbol with no leaf, which
  exists only when there are fewer than 667 shards, is not bound
  (`ColumnBinds`, `ShortCommitteeLeavesSymbolsFree`).
- Secondary symbols are opened without the leaves of their tree, by paths of any length up to
  the maximum. Two different symbols can be shown at one place exactly when the place is not the
  first, fits both paths, and the paths differ in length; the blob id binds a secondary symbol
  in the other cases only (`SecondaryBindingExact`, `SecondarySymbolBinds`, `SecondarySymbolFree`).
- The weights of rows come round after 255 rows, and a column has 667. Of a correctly encrypted
  column, the symbols of two rows can be exchanged without any check of the column noticing if and
  only if the rows agree modulo 255, or the symbols are equal (`ExchangedRowsExactly`).
- Thread ids are seconds. Of new purchases nothing is lost if and only if the readings of the
  clock are distinct and no ids yet (`NothingLostExactly`; `TickLosesNothingExactly` for the
  groups of a tick). Two purchases without secret sharing that one tick answers within one second
  already lose the first (`TwoInOneSecond`).
- Whatever the clock reads, no purchase is ever in two threads and none is stored unseen. A tick,
  and a run of ticks, keep "seen exactly when in a thread" if and only if the readings they use
  are distinct and no ids at the start (`Tick`, `Run`). Which readings these are is a function of
  the scans and of what was seen before.
- With batching across sales, a group can mix sales. A tick fails exactly when a chunk of the
  purchases of one key mixes sales (`Tick`), as two purchases of one channel can
  (`MixedPairStopsTick`); the mixing group and all later ones stay unseen. With batching per
  sale no tick fails as long as no sale id holds a colon (`PerSaleTicks`); with a colon in one,
  two sales can share a key (`ColonMixesSales`).

## Model

| member | source | states |
|---|---|---|
| `PaddedTree.BuildNodes` | walrus-core/src/merkle.rs:246-266 | the loop over levels yields the levels of the padded tree, leaves first, root last |
| `PaddedTree.LevelsRoot` | walrus-core/src/merkle.rs:281-283 | the last node of the flat vector is the root of the recursively defined padded tree |
| `PaddedTree.RootOfHalves` | walrus-core/src/merkle.rs:246-266 | over more leaves than a power of two, up to its double, the root combines the root of the first half, on the left, with that of the rest; a missing subtree is empty at every height |
| `PaddedTree.SmallRoots` | walrus-core/src/merkle.rs:275-283 | the root over one leaf is the leaf, and over none the empty node |
| `PaddedTree.PathStarts` | walrus-core/src/merkle.rs:294-315 | a proof starts with the neighbouring leaf, or with an empty node beside the last of an odd number |
| `PaddedTree.NNodes` | walrus-core/src/merkle.rs:341-350 | the reserved capacity is the size of the flat vector |
| `PaddedTree.LevelsLength` | walrus-core/src/merkle.rs:341-350 | the flat vector over n leaves has that many nodes, and is empty only without leaves |
| `PaddedTree.PathLengthIsLeast` | walrus-core/src/merkle.rs:353-358 | the path length is the least height whose tree has room for all leaves |
| `PaddedTree.SiblingsLength` | walrus-core/src/merkle.rs:288-316 | every proof has exactly the path length of the tree |
| `PaddedTree.ReadSiblings` | walrus-core/src/merkle.rs:294-315 | the index arithmetic over the flat vector reads off the siblings of the recursive tree |
| `PaddedTree.ClimbSiblings` | walrus-core/src/merkle.rs:157-176 | combining a leaf with its own siblings gives the root |
| `PaddedTree.ClimbPath` | walrus-core/src/merkle.rs:161-175 | the loop of `compute_root` climbs the path by the bits of the index |
| `Merkle.BuildFromLeafHashes` | walrus-core/src/merkle.rs:233-273 | the tree is the flat vector of the padded tree over the leaf hashes, and its root node is the recursive root |
| `Merkle.Build` | walrus-core/src/merkle.rs:223-230 | the same over the hashed data |
| `Merkle.MerkleTree.GetProof` | walrus-core/src/merkle.rs:288-316 | a proof exists exactly for indices of leaves, and is the path of siblings |
| `Merkle.ComputeRoot` | walrus-core/src/merkle.rs:157-176 | refuses an index that does not fit the path, else climbs from the leaf hash |
| `Merkle.VerifyProof` | walrus-core/src/merkle.rs:80-93 | answers the verdict: a path longer than needed, an index with more bits than the path has nodes, root mismatch, or acceptance |
| `Merkle.ClimbInjective` | walrus-core/src/merkle.rs:330-339 | equal roots over paths of one length mean equal starts and bytewise equal paths |
| `Merkle.HashedInputs` | walrus-core/src/merkle.rs:320-340 | a leaf is hashed behind a zero octet, an inner node behind a one, the left child first |
| `Merkle.LeafClimb` | walrus-core/src/merkle.rs:157-184 | a leaf that reaches a subtree's node by any path is a leaf of it, by the honest path and at the right index |
| `Merkle.AcceptedExactly` | walrus-core/src/merkle.rs:80-93 | against a tree's root with its leaf count, exactly the leaf at that index with the honest path is accepted: no shorter path, no padding index |
| `Merkle.ProofSound` | walrus-core/src/merkle.rs:80-93 | the same for built data: accepted if and only if the index is in range, the leaf is the data there and the path is the proof |
| `Merkle.RootBinds` | walrus-core/src/merkle.rs:233-273 | trees over equally many leaf hashes with one root have bytewise equal leaves |
| `Merkle.RootBindsData` | walrus-core/src/merkle.rs:223-273 | the root over hashed data determines the data, whatever the two leaf counts |
| `BlobCommitment.BlobIdFromMetadataBinds` | walrus-core/src/lib.rs:151-168 | the top layer determines root, encoding and length |
| `BlobCommitment.BlobIdPreimage` | walrus-core/src/lib.rs:159-167 | the 41 octets hashed are the code of the encoding, the length with its lowest byte first, and the root |
| `BlobCommitment.PairLeafInputInjective` | walrus-core/src/metadata.rs:638-643 | the pair leaf determines both sliver roots |
| `BlobCommitment.PairLeafOrder` | walrus-core/src/metadata.rs:638-643 | the 64 octets are the primary root and then the secondary |
| `BlobCommitment.BlobMetadata.ComputeBlobId` | walrus-core/src/lib.rs:128-137 | the blob id is the hash over the root of the pair tree |
| `BlobCommitment.BlobIdBinds` | walrus-core/src/lib.rs:128-168 | equal blob ids mean equal encoding, length, shard count and sliver roots, and conversely |
| `BlobOpening.VerifySymbols` | drop-lib/src/walrus_open.rs:300-326 | answers the first failure among symbol openings |
| `BlobOpening.VerifyColumn` | drop-lib/src/walrus_open.rs:328-345 | answers the first failure of the full primary sliver against its root |
| `BlobOpening.VerifyShard` | drop-lib/src/walrus_open.rs:283-346 | answers the first failure of one shard, in the order of the checks |
| `BlobOpening.VerifyWalrusBlobOpening` | drop-lib/src/walrus_open.rs:247-349 | answers the verdict on the whole opening |
| `BlobOpening.PairTreeIsCommitted` | drop-lib/src/walrus_open.rs:255-281 | the tree that pair paths are checked against is the one the blob id commits to |
| `BlobOpening.AcceptanceMeans` | drop-lib/src/walrus_open.rs:242-349 | an opening is accepted if and only if it is authentic, layer by layer |
| `BlobOpening.PrimarySymbolIsColumnSymbol` | drop-lib/src/walrus_open.rs:300-345 | within an accepted opening a primary symbol below 667 is the column symbol at its index |
| `BlobOpening.OpeningBinds` | drop-lib/src/walrus_open.rs:248-271 | accepted openings of one blob id agree on shard count, length and all pair roots |
| `BlobOpening.ColumnBinds` | drop-lib/src/walrus_open.rs:328-345 | for one shard they agree on all leaf hashes and on every column symbol with a leaf; on all 667 with at least 667 shards |
| `BlobOpening.ShortCommitteeLeavesSymbolsFree` | drop-lib/src/walrus_open.rs:334-339 | the condition is needed: a column symbol without a leaf is not bound |
| `SecondarySymbols.SameLengthBinds` | drop-lib/src/walrus_open.rs:314-326 | two openings of one position with paths of one length open the same symbol |
| `SecondarySymbols.SecondaryBindingExact` | drop-lib/src/walrus_open.rs:314-326 | some root opens two different symbols at one index if and only if the lengths differ, both are admitted, and the index is at least 1 and fits both |
| `SecondarySymbols.SecondarySymbolBinds` | drop-lib/src/walrus_open.rs:247-349 | accepted openings of one blob id agree on a secondary symbol with paths of one length, and on the first of a sliver whatever the lengths |
| `SecondarySymbols.SecondarySymbolFree` | drop-lib/src/walrus_open.rs:314-326 | in every other admitted case one accepted opening shows any two symbols at one place of one secondary sliver |
| `SecondarySymbols.SecondaryTwoSymbols` | drop-lib/src/walrus_open.rs:314-326 | the smallest such case: index 1, with a path of two nodes and one of one |
| `OpeningBuilder.CheckRanges` | drop-lib/src/walrus_open.rs:114-127 | answers the first sample whose shard or leaf index is out of range |
| `OpeningBuilder.SliverTrees` | drop-lib/src/walrus_open.rs:133-139 | the trees of pair i are those of row i and of column n-1-i |
| `OpeningBuilder.ComputePairs` | drop-lib/src/walrus_open.rs:132-144 | the pair roots of all shards |
| `OpeningBuilder.CheckSliver` | drop-lib/src/walrus_open.rs:197-210 | refuses a sliver that is short or out of order, the length first |
| `OpeningBuilder.OpenShards` | drop-lib/src/walrus_open.rs:149-230 | the openings of all samples in order, or the first sliver that is refused |
| `OpeningBuilder.BuildWalrusBlobOpening` | drop-lib/src/walrus_open.rs:101-240 | answers the opening of the requested samples, or the first error |
| `OpeningBuilder.BuilderAgreesWithVerifier` | drop-lib/src/walrus_open.rs:101-349 | what the builder returns is accepted if and only if the encoding is current and every requested symbol hashes to its cell, for any matrix |
| `OpeningBuilder.DeprecatedEncodingRefused` | walrus-core/src/lib.rs:774-784 | the deprecated encoding is built like the current one and always refused |
| `Galois.MulExp` | drop-lib/src/rslh_ve.rs:35-39 | table multiplication by the k-th power of x is k doublings |
| `Galois.MulLinear` | drop-lib/src/rslh_ve.rs:35-39 | multiplication distributes over exclusive or |
| `Galois.MulNonZero` | drop-lib/src/rslh_ve.rs:35-39 | a product is zero only if a factor is |
| `Galois.MulIsPolynomialProduct` | drop-lib/src/rslh_ve.rs:26-39 | the log/exp tables compute the product of polynomials over GF(2), reduced by the field polynomial |
| `Rslh.SymbolSizeIsLeast` | drop-lib/src/rslh_ve.rs:17-22 | the symbol size is the least even one with room for the blob, and the encoder's own size (`walrus-core/src/encoding/utils.rs`, lines 10-25) whenever that exists |
| `Rslh.SymbolsTile` | drop-lib/src/rslh_ve.rs:134-137 | symbols lie end to end in the blob, row by row and then column by column |
| `Rslh.WeightIsPower` | drop-lib/src/rslh_ve.rs:138-145 | the weight of a row is x to the power of the row times one more than the parity offset, in 32 bits |
| `Rslh.WeightsAgree` | drop-lib/src/rslh_ve.rs:138-145 | with parity offset 0 two rows have equal weights if and only if they agree modulo 255 |
| `Rslh.SumLinear` | drop-lib/src/rslh_ve.rs:115-152 | weighted column sums distribute over exclusive or |
| `Rslh.SumOfOne` | drop-lib/src/rslh_ve.rs:138-145 | a column with one non-zero byte has a non-zero sum |
| `Rslh.VerifyColHomomorphism` | drop-lib/src/rslh_ve.rs:115-152 | answers whether origin sum and keystream sum, weighted by those powers, cancel to the cipher sum; a wrong length and a column out of range are refused first |
| `Rslh.CreateHonestProof` | drop-lib/src/rslh_ve.rs:161-205 | the proof holds the sums of the column of its index, tail rows filled with zeros and with keystream, for every ciphertext that reaches as far as the column |
| `ColumnBinding.VerifyCipherSample` | drop-lib/src/walrus_open.rs:388-431 | answers whether the cipher sum is that of the opened symbols, filled up with keystream |
| `ColumnBinding.VerifyOriginSample` | drop-lib/src/walrus_open.rs:456-490 | answers whether the origin sum is that of the opened symbols, the loop ending at the end of the data |
| `ColumnBinding.RowsPastTheEnd` | drop-lib/src/walrus_open.rs:473-477 | stopping at the first row past the end changes no sum |
| `ColumnBinding.VerifyCipherColumnBound` | drop-lib/src/walrus_open.rs:361-433 | answers the first failure over all cipher samples |
| `ColumnBinding.VerifyOriginColumnBound` | drop-lib/src/walrus_open.rs:437-492 | answers the first failure over all origin samples |
| `DeliveryCheck.SampleExactForParity` | drop-lib/src/rslh_ve.rs:115-152 | for any parity offset, a proof passes all three checks if and only if the sliver sums differ by the keystream's; its two shards are then determined |
| `DeliveryCheck.SampleExact` | drop-lib/src/walrus_open.rs:388-431 | with parity offset 0 the checks are exactly a syndrome test over the bytes in the data |
| `DeliveryCheck.SingleWrongRowRejected` | drop-lib/src/walrus_open.rs:404-430 | a column wrong in exactly one symbol row passes with no proof |
| `DeliveryCheck.ExchangedRowsExactly` | drop-lib/src/walrus_open.rs:404-430 | a correctly encrypted column with two symbols exchanged passes with some proof if and only if the rows agree modulo 255 or the symbols are equal; so it passes with none when they differ |
| `DeliveryCheck.DeliveryExact` | drop-lib/src/walrus_open.rs:361-492 | acceptable proofs exist for a whole delivery if and only if every sampled column's syndrome vanishes |
| `DeliveryCheck.HonestProofAccepted` | drop-lib/src/rslh_ve.rs:161-205 | for every blob, keystream and index the honest proof passes all three checks of its sample, also for rows past the end |
| `DeliveryCheck.HonestDelivery` | drop-lib/src/walrus_open.rs:361-492 | the honest proofs of all samples pass the checks of a whole delivery, shape tests included |
| `HonestSeller.BuildColumnBlobOpening` | drop-lib/src/walrus_open.rs:502-571 | checks the pack size, requests every sampled primary sliver in full with the first leaf of either tree, and answers what the builder does |
| `HonestSeller.HonestOpeningAccepted` | drop-lib/src/walrus_open.rs:502-571 | for an encoded blob and any samples, the opening is built and the verifier accepts it |
| `HonestSeller.HonestOpeningShows` | drop-lib/src/walrus_open.rs:533-563 | of every sampled shard it shows the whole primary sliver in order and the first symbol of either sliver |
| `HonestSeller.HonestSellerDelivers` | drop-lib/src/walrus_open.rs:494-571 | for every message with symbols below 65535 bytes, every keystream and choice of samples, both openings are built and accepted, carry the laid-out columns, and on these the honest proofs pass every check |
| `DeliveryCheck.BlobIdFixesColumns` | drop-lib/src/walrus_open.rs:247-349 | all that the column checks read is determined by the blob id and the sampled indices |
| `DeliveryCheck.DeliveryFixedByBlobIds` | drop-lib/src/walrus_open.rs:247-492 | for two blob ids and the sampled shards, whatever accepted openings are shown, there are proofs if and only if the committed columns' syndromes vanish |
| `DeliveryCheck.WrongRowNeverDelivered` | drop-lib/src/walrus_open.rs:404-430 | a committed column wrong in one symbol row can be delivered with no opening and no proofs |
| `Mp4Boxes.BoxIter.Next` | drop-lib/src/video_sampling/mp4.rs:69-118 | one step yields the box at the front, or an error after which the iteration is over, and always makes progress |
| `Mp4Boxes.BoxesExact` | drop-lib/src/video_sampling/mp4.rs:66-119 | iteration succeeds with some boxes if and only if the data is a serialisation of them, in 32-bit, 64-bit or to-end form |
| `Mp4Boxes.BoxesOfSerialized` | drop-lib/src/video_sampling/mp4.rs:66-119 | iterating serialised boxes returns their kinds and payloads |
| `Mp4Boxes.FindChildLoop` | drop-lib/src/video_sampling/mp4.rs:567-579 | the loop answers the child of a kind, a duplicate, or the first malformed box |
| `Mp4Boxes.FindChildMeans` | drop-lib/src/video_sampling/mp4.rs:567-579 | over well-formed boxes the answer is the payload of the only box of the kind |
| `SampleTables.ParseStts` | drop-lib/src/video_sampling/mp4.rs:407-423 | answers the expanded run lengths or the first failure |
| `TrackParser.SttsMeans` | drop-lib/src/video_sampling/mp4.rs:407-423 | it succeeds if and only if all runs are readable, non-empty and of positive duration and hold the sample count, and then every sample has the duration of its run |
| `SampleTables.ParseStsc` | drop-lib/src/video_sampling/mp4.rs:485-511 | answers the table of chunk runs or the first failure |
| `TrackParser.StscMeans` | drop-lib/src/video_sampling/mp4.rs:485-511 | it succeeds if and only if the entries are readable, start at chunk 1, strictly increase, hold samples and use the first description, and then each entry is what stands in the table |
| `SampleTables.AdvanceRun` | drop-lib/src/video_sampling/mp4.rs:538-540 | the cursor reaches the last entry whose first chunk is not after the chunk |
| `SampleTables.ExpandSampleOffsets` | drop-lib/src/video_sampling/mp4.rs:528-557 | succeeds if and only if the per-chunk counts add up to the sample count and no offset overflows; each offset is its chunk's start plus the earlier sizes in the chunk; it fails with an overflow if and only if some sample with a size ends past 64 bits, else with a count mismatch |
| `SampleTables.EverySampleHasAChunk` | drop-lib/src/video_sampling/mp4.rs:528-557 | every sample lies in exactly one chunk, so the offsets are determined |
| `SampleTables.ChunkIsFilled` | drop-lib/src/video_sampling/mp4.rs:541-551 | the first sample of a chunk starts where the chunk does, and each next one where the one before ends |
| `SampleTables.ChunkHolds` | drop-lib/src/video_sampling/mp4.rs:536-541 | a chunk holds as many samples as the run says whose first chunk it reaches and whose successor it does not |
| `TrackParser.ParseStsz` | drop-lib/src/video_sampling/mp4.rs:394-405 | one size for all samples, or one entry each, all readable; else the table is truncated |
| `TrackParser.ParseCtts` | drop-lib/src/video_sampling/mp4.rs:425-458 | each sample has the offset of its run; offsets are signed in version 1 or when one has its top bit set; each error has its condition on the bytes |
| `TrackParser.CttsErrorMeans` | drop-lib/src/video_sampling/mp4.rs:429-456 | what each error of the table tells of its bytes |
| `TrackParser.ParseStss` | drop-lib/src/video_sampling/mp4.rs:460-477 | a sample is a sync sample if and only if its number is listed; the numbers increase and are in range; a bad readable number is told from a truncated table |
| `TrackParser.StssErrorMeans` | drop-lib/src/video_sampling/mp4.rs:464-474 | the same of the table of sync samples |
| `TrackParser.ParseChunkOffsets` | drop-lib/src/video_sampling/mp4.rs:513-526 | the 32-bit or 64-bit chunk starts, all readable; else the table is truncated |
| `TrackParser.ParseMdhd` | drop-lib/src/video_sampling/mp4.rs:273-290 | an accepted header has a positive timescale, read with the duration at the places of its version |
| `TableBytes.MediaHeaderWritten` | drop-lib/src/video_sampling/mp4.rs:273-290 | a header of either version that was serialised is parsed to its timescale and duration, whatever stands around them |
| `TableBytes.MediaHeaderErrors` | drop-lib/src/video_sampling/mp4.rs:273-290 | each error has exactly its condition on the bytes |
| `TableBytes.WordsStand` | drop-lib/src/video_sampling/mp4.rs:394-405 | numbers that are written one after the other stand at their places |
| `TableBytes.CodecBack` | drop-lib/src/video_sampling/mp4.rs:374-392 | one entry of kind avc1 or avc3 gives the codec, and any other kind is refused by name |
| `TableBytes.CodecErrors` | drop-lib/src/video_sampling/mp4.rs:374-392 | each error has exactly its condition on the bytes |
| `TableBytes.DurationsBack` | drop-lib/src/video_sampling/mp4.rs:407-423 | a table of counts and durations is expanded run by run |
| `TableBytes.OffsetsBack` | drop-lib/src/video_sampling/mp4.rs:425-458 | signed offsets in two's complement are read back in both versions of the table |
| `TableBytes.SyncsBack` | drop-lib/src/video_sampling/mp4.rs:460-477 | a sample is a sync sample if and only if its number, counted from one, is listed |
| `TableBytes.ChunkRunsBack` | drop-lib/src/video_sampling/mp4.rs:485-511 | a table of first chunks and samples per chunk is read back |
| `TableBytes.TablesBack` | drop-lib/src/video_sampling/mp4.rs:321-330 | boxes that hold the fields of some tables at their places are parsed to these tables and to no others |
| `TableBytes.TablesExactly` | drop-lib/src/video_sampling/mp4.rs:321-330 | boxes are those of some tables if and only if their fields stand at their places in the bytes |
| `TrackParser.TablesUnique` | drop-lib/src/video_sampling/mp4.rs:321-330 | the boxes determine the tables |
| `TrackParser.ParseTables` | drop-lib/src/video_sampling/mp4.rs:321-330 | succeeds if and only if the boxes are those of some tables, and returns these; else answers the first failure in the order of the parser |
| `TrackParser.ErrorUnique` | drop-lib/src/video_sampling/mp4.rs:321-330 | the boxes determine the error they fail with |
| `TrackParser.ParseVideoTrack` | drop-lib/src/video_sampling/mp4.rs:161-199 | succeeds if and only if there is a track of these table boxes with every sample inside the file, and returns it; else the error is that of the tables, an empty track, an overflowing time, or a sample outside the file, in this order |
| `VideoTracks.BuildVideoTrack` | drop-lib/src/video_sampling/mp4.rs:332-371 | the track has the samples of the tables and exactly covers their presentation; it fails if and only if empty or a time overflows |
| `VideoTracks.SampleMeans` | drop-lib/src/video_sampling/mp4.rs:336-361 | a sample by its fields: shown at decode time plus composition offset minus the media time of the edit, decoded when the one before ends, all in 64 bits |
| `VideoTracks.TrackMeans` | drop-lib/src/video_sampling/mp4.rs:364-371 | the other fields of a track; its start and end are met by samples |
| `VideoTracks.TimesFitMeans` | drop-lib/src/video_sampling/mp4.rs:336-361 | the checked arithmetic of a sample, step by step |
| `VideoTracks.CheckByteRanges` | drop-lib/src/video_sampling/mp4.rs:189-198 | succeeds if and only if every sample lies inside the file; else the first that does not gives the error |
| `TrackParser.ParsedTrackMeans` | drop-lib/src/video_sampling/mp4.rs:321-372 | a parsed track has a positive timescale, a timeline of positive length with 64-bit ends that covers its samples exactly, prefix-sum decode times from zero and positive durations |
| `PreviewSampling.SamplePreviews` | extensions/video-sampler/src/main.rs:29-44 | planning a parsed track never finds an invalid timeline, and needs nothing that the parser does not give |
| `SamplePlanner.OffsetsUniform` | drop-lib/src/video_sampling/selection.rs:13-33 | every remainder has equally many accepted 64-bit values, and fewer values are refused than there are remainders, never half of all |
| `SamplePlanner.SearchEndsExactly` | drop-lib/src/video_sampling/selection.rs:20-32 | the search with a wrapping counter ends if and only if some value is accepted |
| `SamplePlanner.UnbiasedOffset` | drop-lib/src/video_sampling/selection.rs:13-33 | the offset is the remainder of the first accepted value |
| `SamplePlanner.OffsetMeans` | drop-lib/src/video_sampling/selection.rs:19-32 | the offset is the remainder of the first value below the largest multiple of the range, from the given counter on and around 2^64 |
| `SamplePlanner.BoundaryInside` | drop-lib/src/video_sampling/selection.rs:3-11 | the boundaries of a representable timeline never overflow |
| `SamplePlanner.BucketsTile` | drop-lib/src/video_sampling/selection.rs:3-11 | the buckets start and end with the timeline and are thirds of it to within one tick |
| `SamplePlanner.LatestSync` | drop-lib/src/video_sampling/sampling.rs:83-90 | the latest sync sample at or before the target, the last one among equal times |
| `SamplePlanner.LatestSyncMeans` | drop-lib/src/video_sampling/sampling.rs:83-90 | the same by the fields of the samples |
| `SamplePlanner.LatestSyncMonotonic` | drop-lib/src/video_sampling/sampling.rs:83-90 | for a later target it is the same sample or one with a strictly later time |
| `SamplePlanner.ChooseInBucket` | drop-lib/src/video_sampling/sampling.rs:76-114 | the plan of the first attempt with an unused sync sample; else whether any attempt saw one decides the error |
| `SamplePlanner.PlanThreeSamples` | drop-lib/src/video_sampling/sampling.rs:30-117 | each error has exactly its condition; success gives three plans, each the choice of its bucket after the earlier ones, whose previews have the length asked for, rounded up to a tick; asks only that the searches it starts end |
| `SamplePlanner.TargetMeans` | drop-lib/src/video_sampling/sampling.rs:57-82 | the target of a plan is the start of its third of the timeline plus a drawn value modulo the number of places for the preview |
| `SamplePlanner.StartMeans` | drop-lib/src/video_sampling/sampling.rs:83-112 | decoding starts at a sync sample with none between it and the target |
| `SamplePlanner.PlansInOrder` | drop-lib/src/video_sampling/sampling.rs:42-116 | previews lie in their buckets, are disjoint and ordered, decoding starts at the latest sync sample, and decode starts strictly increase |
| `Mapping.BytesMod` | walrus-core/src/encoding/mapping.rs:130-134 | Horner's rule gives the big-endian value modulo n, for any number of bytes |
| `ByteStrings.FirstByteWeighs` | walrus-core/src/encoding/mapping.rs:128-134 | in a big-endian number the first byte weighs as much as there are strings of the others |
| `Mapping.IndexMapsInverse` | walrus-core/src/encoding/mapping.rs:94-111 | the maps between pair and shard indices are inverse to each other |
| `Mapping.IndexMapsByValue` | walrus-core/src/encoding/mapping.rs:94-114 | a pair moves on by the big-endian value of the blob id, modulo the number of shards, and a shard finds the pair that comes to it |
| `Mapping.IndexMapReduces` | walrus-core/src/encoding/mapping.rs:94-111 | an index out of range maps like its remainder |
| `Mapping.IsRotation` | walrus-core/src/encoding/mapping.rs:82-86 | whether the indices are consecutive modulo n |
| `Mapping.FirstDecides` | walrus-core/src/encoding/mapping.rs:54-62 | among rotations, the first index tells the identity order and the order of this blob id |
| `Mapping.RotatePairs` | walrus-core/src/encoding/mapping.rs:43-66 | succeeds if and only if in identity order or already assigned; then each pair stands where the value of the blob id moves it, an assigned slice is unchanged, and an error changes nothing |
| `Mapping.RotatePairsUnchecked` | walrus-core/src/encoding/mapping.rs:72-77 | every pair moves on by the big-endian value of the blob id, counted around the end |
| `Mapping.UncheckedRotationsCompose` | walrus-core/src/encoding/mapping.rs:72-77 | two unchecked rotations are one by any blob id that is their sum modulo n |
| `Batching.BuildThreadInputs` | drop-cli/src/main.rs:1451-1491 | the groups are closed in the order their last purchase comes, and the open buckets follow in the order of their keys; no group is empty or too large, each is of one kind, no-VSS purchases are alone, each key's groups concatenate to its purchases in order, and all but its last are full |
| `Batching.LeftoversInOrder` | drop-cli/src/main.rs:1485-1489 | the buckets left over come in strictly ascending order of their keys, none of them empty |
| `Batching.UpToMeans` | drop-cli/src/main.rs:1485 | keys are ordered by their first different character, a prefix before its extensions |
| `Batching.BatchingConserves` | drop-cli/src/main.rs:1451-1491 | the groups hold exactly the multiset of purchases |
| `Batching.GroupsAreChunks` | drop-cli/src/main.rs:1478-1489 | the groups of a key are exactly its purchases in order, cut into chunks of the limit |
| `Batching.GroupsOfOneSaleExactly` | drop-cli/src/main.rs:1451-1491 | no group mixes sales if and only if no chunk of the purchases of a key does, a condition on the input |
| `Batching.PerSaleNeverMixes` | drop-cli/src/main.rs:1462-1471 | batching per sale never mixes sales when no sale id holds a colon |
| `Batching.KeysAgree` | drop-cli/src/main.rs:1462-1477 | two purchases share a key if and only if they have one channel and, batching per sale, one sale, if no sale id holds a colon |
| `Batching.GroupMeans` | drop-cli/src/main.rs:1451-1491 | a group by the fields of its purchases: not more than allowed, of one channel and, batching per sale, one sale, and alone without secret sharing |
| `Batching.MixedPair` | drop-cli/src/main.rs:1472-1479 | two purchases of one key and two sales, with room for both in a group, do mix |
| `Batching.ColonMixesSales` | drop-cli/src/main.rs:1462-1471 | the condition on colons is needed: channel `a` with sale `b:c` and channel `a:b` with sale `c` share a key, also when batching per sale |
| `Threads.UpsertKeeps` | drop-cli/src/main.rs:2673-2765 | with a fresh id, an upsert loses nothing, stores exactly the selected purchases in addition, and keeps each purchase in one thread |
| `Threads.UpsertMeans` | drop-cli/src/main.rs:2682-2736 | an upsert changes one thread only: the first, by id, of the sale with a purchase in common, which gains selected purchases, or a new one of just these |
| `Threads.PartsMean` | drop-cli/src/main.rs:2632-2640 | purchases that need secret sharing, or of which nothing is known, are the first part; every other part is one purchase that needs none |
| `Threads.UpsertReplay` | drop-cli/src/main.rs:2682-2736 | a repeated upsert changes no thread |
| `Threads.ClockCollisionLoses` | drop-cli/src/main.rs:2696-2722 | a new thread makes stored purchases vanish if and only if its second is already taken |
| `Threads.RespondedKeeps` | drop-cli/src/main.rs:2633-2652 | when every new thread gets an id of its own, responding, a batch and then singletons, keeps the table consistent and loses nothing |
| `Threads.NothingLostExactly` | drop-cli/src/main.rs:2633-2652 | of new parts nothing is lost if and only if the readings are distinct and no ids yet; in either case no purchase is in two threads |
| `Threads.TwoSingletonsCollide` | drop-cli/src/main.rs:2643-2652 | two purchases without secret sharing, answered at one reading of the clock: the first is in no thread |
| `Threads.OnlyInLast` | drop-cli/src/main.rs:2698-2699 | the same for any two new threads of one purchase each at one reading |
| `Threads.FreshReadingsSuffice` | drop-cli/src/main.rs:2698-2699 | distinct readings that are no ids yet give every new thread an id of its own, whatever the parts |
| `Threads.FreshExactly` | drop-cli/src/main.rs:2698-2699 | for new parts that is exactly the condition, and the ids afterwards are the ids before and the readings |
| `Threads.RespondReplay` | drop-cli/src/main.rs:2603-2652 | a repeated response, however much later, leaves all threads as they are |
| `SellerDaemon.AddDiscovered` | drop-cli/src/main.rs:2034-2043 | discovered purchases have distinct transactions, and none is missed |
| `SellerDaemon.RespondToNewGroup` | drop-cli/src/main.rs:2603-2652 | with fresh ids, responding to a group stored nowhere stores exactly it, and replaying at any readings changes nothing |
| `SellerDaemon.Seller.UpsertThreadForPurchases` | drop-cli/src/main.rs:2673-2765 | the new table is the upsert: the first matching thread extended, or a new one |
| `SellerDaemon.Seller.PhaseRespond` | drop-cli/src/main.rs:2603-2652 | refuses an empty or mixed selection without any change, else upserts batch and singletons, each at its own reading of the clock, equal or not |
| `SellerDaemon.Seller.MarkSeen` | sdk/src/state.rs:403-409 | the seen set gains exactly the group |
| `SellerDaemon.Seller.ThreadForPurchase` | drop-cli/src/main.rs:2083-2098 | finds the first thread, by id, of the sale with the purchase, exactly when there is one |
| `SellerDaemon.Seller.HandleGroup` | drop-cli/src/main.rs:1264-1275 | a new group of one sale becomes a thread at the second read, whatever was there, and is marked as seen; a group that mixes sales is refused without any change |
| `SellerDaemon.Seller.HandleGroups` | drop-cli/src/main.rs:1264-1297 | answers the groups before the first that mixes sales, each at its own reading, equal or not; that one and all later ones stay unseen |
| `SellerDaemon.Seller.Tick` | drop-cli/src/main.rs:1209-1300 | without any assumption on the clock: what is answered and seen is determined; no purchase is in two threads; "seen exactly when in a thread" is kept if and only if the readings used are distinct and no ids yet; succeeds if and only if no chunk of a key's wanted purchases mixes sales, and then sees all wanted ones; whatever is newly seen is a paid purchase of a local sale; on failure the error and what stays unseen are determined |
| `SellerDaemon.WantedSorted` | drop-cli/src/main.rs:1225-1237 | a tick answers the purchases with status "paid" of local sales whose transactions are unseen, exactly these, each once, in the order of their transactions |
| `SellerDaemon.TickLosesNothingExactly` | drop-cli/src/main.rs:1260-1275 | for the groups of a tick nothing stored or wanted is lost if and only if the readings are distinct and no ids yet |
| `SellerDaemon.TwoInOneSecond` | drop-cli/src/main.rs:1260-1275 | the failing case: a tick answers two no-VSS purchases at one reading, and the first is in no thread |
| `SellerDaemon.MixedPairStopsTick` | drop-cli/src/main.rs:1264-1269 | the condition fails, and so the tick, for two wanted purchases of one channel and two sales, in either order |
| `SellerDaemon.PerSaleTicks` | drop-cli/src/main.rs:1462-1471 | the condition holds for every scan when batching per sale, if no sale id holds a colon |
| `SellerDaemon.Seller.Run` | drop-cli/src/main.rs:1174-1208 | over any run of ticks, failing ones included, what is answered and seen and the readings used are a function of the scans and of what was seen; no purchase is in two threads; "seen exactly when in a thread" is kept if and only if these readings are distinct and no ids at the start, as they are when no two readings of the run agree |
| `SellerDaemon.FreshCourse` | drop-cli/src/main.rs:1174-1208 | whatever is answered, a run without two equal readings uses only distinct ones that are no ids at its start |
| `DagPb.WriteVarint` | drop-lib/src/cid.rs:105-111 | appends the varint of the number |
| `DagPb.VarintBack` | drop-lib/src/cid.rs:105-111 | every number is read back from its varint, whatever follows |
| `DagPb.VarintMeans` | drop-lib/src/cid.rs:105-111 | a varint holds seven bits in each byte, the lowest first, with the top bit set in all but the last, and is the shortest |
| `DagPb.MessageBack` | drop-lib/src/cid.rs:54-92 | the fields of a message are read back |
| `DagPb.RootBack` | drop-lib/src/cid.rs:54-92 | a decoder recovers links, block sizes and total length from the serialised node |
| `DagPb.RootMessage` | drop-lib/src/cid.rs:54-92 | a node is its links and then the data of the file, as field 1 |
| `IpfsCid.SerializeRoot` | drop-lib/src/cid.rs:54-92 | the byte pushes write the node of links and file data |
| `IpfsCid.BuildRoot` | drop-lib/src/cid.rs:19-39 | one link and one block size per chunk, and the total length is that of the data |
| `IpfsCid.ChunksConcat` | drop-lib/src/cid.rs:24-39 | the chunks concatenate to the data |
| `IpfsCid.LengthsTotal` | drop-lib/src/cid.rs:37-38 | the block sizes add up to the length |
| `IpfsCid.FileRootMeans` | drop-lib/src/cid.rs:24-38 | link and block size of each chunk of 2^18 bytes, by its place in the data |
| `IpfsCid.FileCidMeans` | drop-lib/src/cid.rs:13-51 | the identifier by its bytes: codec 0x55 and the hash of the data up to 2^18 bytes, else 0x70 and the hash of the node |
| `IpfsCid.ComputeIpfsCid` | drop-lib/src/cid.rs:13-42 | the printed identifier of the file |
| `IpfsCid.SerializeRootOptimized` | drop-lib/src/cid.rs:163-211 | the optimised serialiser writes the same node |
| `IpfsCid.ComputeIpfsCidZkOptimized` | drop-lib/src/cid.rs:114-224 | the optimised program, with its own loops and arrays, returns the bytes of the same identifier |
| `IpfsCid.CidBinds` | drop-lib/src/cid.rs:13-42 | without a hash collision among the strings hashed, equal identifiers mean equal data, for any lengths |
| `IpfsCid.PrintedCidHasDigest` | app/gui/src/dataset-proof.ts:149-163 | the digest read from a computed identifier is the hash of the file or of its root node |
| `Base32.DecodedEncode` | app/gui/src/dataset-proof.ts:149-160 | decoding inverts base32 encoding, for byte strings of any length |
| `Base32.EncodeMeans` | app/gui/src/dataset-proof.ts:149-160 | the digits of an encoding spell the bytes as one number, with less than five zero bits appended |
| `Base32.FirstDigitWeighs` | app/gui/src/dataset-proof.ts:154-160 | and so the first of some base32 digits |
| `Base32.Alphabet` | app/gui/src/dataset-proof.ts:150 | the alphabet in its order |
| `Base32.Decode` | app/gui/src/dataset-proof.ts:154-160 | the 32-bit accumulator that is never cleared yields the bytes of the unbounded bit string |
| `Base32.CidDigest` | app/gui/src/dataset-proof.ts:149-163 | each outcome has exactly its condition, and success is the last 32 bytes of the decoded text |
| `Base32.EndsMeans` | app/gui/src/dataset-proof.ts:161-162 | what is accepted ends in the code and the length of SHA-256 and a digest of 32 bytes, behind at least two more |
| `Base32.PrintedHasDigest` | app/gui/src/dataset-proof.ts:149-163 | every printed CID with a SHA-256 multihash yields its digest |

## Left out

- Network, chain, wallet, prover and storage clients; command-line dispatch, printing and the graphical interface.
- Reed-Solomon encoding: the layout of a blob in its primary slivers is the input shape (`HonestSeller.Encodes`), as `drop-lib/src/walrus_open.rs`, lines 836-870, pins it; of the redundant symbols only those that are opened enter the model.
- ChaCha8 and nonce derivation; the hashing of seeds to sample indices and the index check around the column check.
- The search for the boxes of a track, its handler, edit list and data references: they enter the model as the fields of `RawTables`.
- Tsize, block sizes and lengths in a CID are unbounded numbers instead of 64-bit ones.
- `SellerDaemon.Seller.Tick`: fulfilling, settling, the resume queue and the limit on concurrent threads are not modelled; they change no thread's purchases. The second discovery inside a response is taken to agree with the first.
- `SellerDaemon.Seller.Run`: crashes between a response and its marks, manual responses, cancelling and resuming are not modelled.
- `Mapping.RotatePairs`: the limit of 65535 pairs, above which the source panics, is not modelled; the contract holds for any number.
- `SamplePlanner.UnbiasedOffset`: the hash behind the draws is an arbitrary function with some accepted value; without one the source does not terminate.
- `TrackParser.ParseVideoTrack`: takes the table boxes as given; see the search for them above.
- The second Merkle tree of `drop-lib/src/merkle.rs`, subgraph counters, committee arithmetic, environment files and the elliptic-curve code: easy members, or unlike this chain.
