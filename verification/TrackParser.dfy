/** From the table boxes of a track to the track: the remaining sample tables (sizes,
    composition offsets, sync samples, chunk offsets) and their combination. */
module TrackParser {
  import opened Arithmetic
  import opened ByteStrings
  import opened Wrappers
  import opened Mp4Boxes
  import opened SampleTables
  import opened VideoTracks

  const I32_MAX: nat := 0x7FFF_FFFF

  ghost predicate Readable(data: seq<Byte>, offset: nat)
  {
    Entry(data, offset).Ok?
  }

  // The 32-bit number at this offset; 0 past the end.
  function NumberAt(data: seq<Byte>, offset: nat): nat
  {
    if Entry(data, offset).Ok? then Entry(data, offset).value else 0
  }

  // ---------------------------------------------------------------- sample sizes

  ghost predicate SizesReadable(data: seq<Byte>)
  {
    && Readable(data, 4) && Readable(data, 8)
    && (NumberAt(data, 4) == 0 ==> forall i: nat :: i < NumberAt(data, 8) ==> Readable(data, 12 + i * 4))
  }

  ghost predicate SizesAre(data: seq<Byte>, sizes: seq<nat>)
  {
    && |sizes| == NumberAt(data, 8)
    && (forall i :: 0 <= i < |sizes| ==>
      sizes[i] == if NumberAt(data, 4) != 0 then NumberAt(data, 4) else NumberAt(data, 12 + i * 4))
  }

  method ParseStsz(data: seq<Byte>) returns (r: Result<seq<nat>, Mp4Error>)
    ensures r.Ok? <==> SizesReadable(data)
    ensures r.Ok? ==> SizesAre(data, r.value)
    ensures r.Err? ==> r.error == Truncated
  {
    hide ReadU32;
    var fixedSize :- Entry(data, 4);
    var sampleCount :- Entry(data, 8);
    if fixedSize != 0 {
      return Ok(Repeat(fixedSize, sampleCount));
    }
    var sizes := [];
    for index := 0 to sampleCount
      invariant |sizes| == index
      invariant forall i: nat :: i < index ==> Readable(data, 12 + i * 4) && sizes[i] == NumberAt(data, 12 + i * 4)
    {
      assert Readable(data, 12 + index * 4) <==> Entry(data, 12 + index * 4).Ok?;
      var size :- Entry(data, 12 + index * 4);
      sizes := sizes + [size];
    }
    return Ok(sizes);
  }

  // ---------------------------------------------------------------- composition offsets

  // The first sample of run `k`.
  function RunStart(data: seq<Byte>, k: nat): nat
  {
    if k == 0 then 0 else RunStart(data, k - 1) + NumberAt(data, 8 + (k - 1) * 8)
  }

  function RawOffset(data: seq<Byte>, k: nat): nat
  {
    NumberAt(data, 8 + k * 8 + 4)
  }

  ghost predicate RunReadable(data: seq<Byte>, k: nat)
  {
    Readable(data, 8 + k * 8) && Readable(data, 8 + k * 8 + 4) && NumberAt(data, 8 + k * 8) > 0
  }

  // Offsets are signed in version 1, and also when one would be too large otherwise.
  ghost predicate OffsetsSigned(data: seq<Byte>)
    requires data != []
  {
    data[0] == 1 || exists k: nat :: k < NumberAt(data, 4) && RawOffset(data, k) > I32_MAX
  }

  function CompositionOffset(raw: nat, signed: bool): int
  {
    if signed && raw > I32_MAX then raw - 0x1_0000_0000 else raw
  }

  ghost predicate RunsFit(data: seq<Byte>, sampleCount: nat)
  {
    && data != [] && data[0] <= 1 && Readable(data, 4)
    && (forall k: nat :: k < NumberAt(data, 4) ==> RunReadable(data, k))
    && RunStart(data, NumberAt(data, 4)) == sampleCount
  }

  ghost predicate InRun(data: seq<Byte>, i: nat, k: nat)
  {
    RunStart(data, k) <= i < RunStart(data, k + 1)
  }

  // Sample `i` of run `k` has the offset of the run.
  ghost predicate OffsetsAre(data: seq<Byte>, signed: bool, offsets: seq<int>, runs: nat)
  {
    && |offsets| == RunStart(data, runs)
    && (forall k: nat, i: nat :: k < runs && InRun(data, i, k) ==>
          i < |offsets| && offsets[i] == CompositionOffset(RawOffset(data, k), signed))
  }

  lemma {:induction false} RunStartGrows(data: seq<Byte>, k: nat, more: nat)
    requires k <= more
    ensures RunStart(data, k) <= RunStart(data, more)
    decreases more
  {
    if k < more {
      RunStartGrows(data, k, more - 1);
    }
  }

  lemma OffsetsSnoc(data: seq<Byte>, signed: bool, offsets: seq<int>, runs: nat)
    requires OffsetsAre(data, signed, offsets, runs)
    ensures var count := NumberAt(data, 8 + runs * 8);
      OffsetsAre(data, signed, offsets + Repeat(CompositionOffset(RawOffset(data, runs), signed), count), runs + 1)
  {
    hide NumberAt, RawOffset;
    var offset, count := CompositionOffset(RawOffset(data, runs), signed), NumberAt(data, 8 + runs * 8);
    var longer := offsets + Repeat(offset, count);
    assert RunStart(data, runs + 1) == RunStart(data, runs) + count;
    forall k: nat, i: nat | k < runs + 1 && InRun(data, i, k)
      ensures i < |longer| && longer[i] == CompositionOffset(RawOffset(data, k), signed)
    {
      if k < runs {
        RunStartGrows(data, k + 1, runs);
      }
    }
  }

  // Why the table is unfit, if it is.
  ghost function CttsError(data: seq<Byte>, sampleCount: nat): Mp4Error
  {
    if data == [] then Truncated
    else if data[0] > 1 then InvalidTable("ctts version")
    else if !Readable(data, 4) || !OffsetsReadable(data) then Truncated
    else if exists k: nat :: k < NumberAt(data, 4) && IsBadRun(data, sampleCount, k) then InvalidTable("ctts")
    else SampleCountMismatch
  }

  ghost predicate OffsetsReadable(data: seq<Byte>)
  {
    forall k: nat :: k < NumberAt(data, 4) ==> Readable(data, 8 + k * 8 + 4)
  }

  ghost predicate IsBadRun(data: seq<Byte>, sampleCount: nat, k: nat)
  {
    NumberAt(data, 8 + k * 8) == 0 || RunStart(data, k + 1) > sampleCount
  }

  lemma OffsetReadsCount(data: seq<Byte>, k: nat)
    requires Readable(data, 8 + k * 8 + 4)
    ensures Readable(data, 8 + k * 8)
  {
  }

  lemma UnreadableEnds(data: seq<Byte>)
    ensures !Readable(data, 4) || !OffsetsReadable(data) ==> |data| < 8 + 8 * NumberAt(data, 4)
  {
    hide BigEndian;
  }

  // What the error of an unfit table tells of its bytes.
  lemma CttsErrorMeans(data: seq<Byte>, sampleCount: nat)
    requires !RunsFit(data, sampleCount)
    ensures CttsError(data, sampleCount) == Truncated ==> |data| < 8 + 8 * NumberAt(data, 4)
    ensures CttsError(data, sampleCount) == InvalidTable("ctts version") ==> data != [] && data[0] > 1
    ensures CttsError(data, sampleCount) == InvalidTable("ctts") ==> exists k: nat ::
      k < NumberAt(data, 4) && (NumberAt(data, 8 + k * 8) == 0 || RunStart(data, k + 1) > sampleCount)
    ensures CttsError(data, sampleCount) == SampleCountMismatch ==> RunStart(data, NumberAt(data, 4)) != sampleCount
  {
    hide RunStart, BigEndian, RawOffset, NumberAt;
    UnreadableEnds(data);
    if OffsetsReadable(data) {
      forall k: nat | k < NumberAt(data, 4)
        ensures RunReadable(data, k) || IsBadRun(data, sampleCount, k)
      {
        OffsetReadsCount(data, k);
      }
    }
  }

  // The first pass over the table: are the offsets signed?
  method AreSigned(data: seq<Byte>, entryCount: nat) returns (r: Result<bool, Mp4Error>)
    requires data != [] && NumberAt(data, 4) == entryCount
    ensures r.Ok? <==> OffsetsReadable(data)
    ensures r.Ok? ==> (r.value <==> OffsetsSigned(data))
    ensures r.Err? ==> r.error == Truncated
  {
    hide ReadU32;
    var signed := data[0] == 1;
    for index := 0 to entryCount
      invariant forall k: nat :: k < index ==> Readable(data, 8 + k * 8 + 4)
      invariant signed <==> data[0] == 1 || exists k: nat :: k < index && RawOffset(data, k) > I32_MAX
    {
      assert Readable(data, 8 + index * 8 + 4) <==> Entry(data, 8 + index * 8 + 4).Ok?;
      var raw :- Entry(data, 8 + index * 8 + 4);
      assert raw == RawOffset(data, index);
      signed := signed || raw > I32_MAX;
    }
    return Ok(signed);
  }

  // What makes a table unfit: a run that cannot be read or is empty, or too many samples.
  lemma UnfitRun(data: seq<Byte>, sampleCount: nat, k: nat)
    requires k < NumberAt(data, 4) && (RunReadable(data, k) ==> RunStart(data, k + 1) > sampleCount)
    ensures !RunsFit(data, sampleCount)
  {
    hide RunReadable, NumberAt;
    RunStartGrows(data, k + 1, NumberAt(data, 4));
  }

  method ParseCtts(data: seq<Byte>, sampleCount: nat) returns (r: Result<seq<int>, Mp4Error>)
    ensures r.Ok? <==> RunsFit(data, sampleCount)
    ensures r.Ok? ==> |r.value| == sampleCount && OffsetsAre(data, OffsetsSigned(data), r.value, NumberAt(data, 4))
    ensures r.Err? ==> r.error == CttsError(data, sampleCount)
    ensures r == Err(InvalidTable("ctts version")) <==> data != [] && data[0] > 1
  {
    hide ReadU32, OffsetsAre, OffsetsSigned, IsBadRun;
    if data == [] {
      return Err(Truncated);
    }
    if data[0] > 1 {
      return Err(InvalidTable("ctts version"));
    }
    var entryCount :- Entry(data, 4);
    assert NumberAt(data, 4) == entryCount && Readable(data, 4);
    if RunsFit(data, sampleCount) {
      forall k: nat | k < entryCount
        ensures Readable(data, 8 + k * 8 + 4)
      {
        assert RunReadable(data, k);
      }
    }
    var signed :- AreSigned(data, entryCount);
    r := ExpandRuns(data, sampleCount, entryCount, signed);
  }

  // The second pass, which repeats each offset for the samples of its run. The first pass has
  // read to the end of the last run, so no entry is missing.
  method ExpandRuns(data: seq<Byte>, sampleCount: nat, entryCount: nat, signed: bool)
    returns (r: Result<seq<int>, Mp4Error>)
    requires data != [] && data[0] <= 1 && Readable(data, 4) && entryCount == NumberAt(data, 4)
    requires OffsetsReadable(data)
    ensures r.Ok? <==> RunsFit(data, sampleCount)
    ensures r.Ok? ==> |r.value| == sampleCount && OffsetsAre(data, signed, r.value, entryCount)
    ensures r.Err? ==> r.error == CttsError(data, sampleCount)
  {
    hide NumberAt, Readable, OffsetsAre, RawOffset;
    var offsets: seq<int> := [];
    NoOffsets(data, signed);
    for index := 0 to entryCount
      invariant |offsets| == RunStart(data, index) <= sampleCount
      invariant forall k: nat :: k < index ==> RunReadable(data, k)
      invariant OffsetsAre(data, signed, offsets, index)
    {
      OffsetsSnoc(data, signed, offsets, index);
      assert Readable(data, 8 + index * 8 + 4);
      OffsetReadsCount(data, index);
      if !(RunReadable(data, index) && RunStart(data, index + 1) <= sampleCount) {
        UnfitRun(data, sampleCount, index);
      }
      var count, raw := NumberAt(data, 8 + index * 8), RawOffset(data, index);
      if count == 0 || |offsets| + count > sampleCount {
        assert IsBadRun(data, sampleCount, index);
        return Err(InvalidTable("ctts"));
      }
      offsets := offsets + Repeat(CompositionOffset(raw, signed), count);
    }
    if |offsets| != sampleCount {
      NoBadRun(data, sampleCount);
      return Err(SampleCountMismatch);
    }
    return Ok(offsets);
  }

  lemma NoBadRun(data: seq<Byte>, sampleCount: nat)
    requires forall k: nat :: k < NumberAt(data, 4) ==> RunReadable(data, k)
    requires RunStart(data, NumberAt(data, 4)) <= sampleCount
    ensures forall k: nat :: k < NumberAt(data, 4) ==> !IsBadRun(data, sampleCount, k)
  {
    hide NumberAt, Readable;
    forall k: nat | k < NumberAt(data, 4)
      ensures !IsBadRun(data, sampleCount, k)
    {
      assert RunReadable(data, k);
      RunStartGrows(data, k + 1, NumberAt(data, 4));
    }
  }

  lemma NoOffsets(data: seq<Byte>, signed: bool)
    ensures OffsetsAre(data, signed, [], 0) && RunStart(data, 0) == 0
  {
  }

  // ---------------------------------------------------------------- sync samples

  function SyncNumber(data: seq<Byte>, k: nat): nat
  {
    NumberAt(data, 8 + k * 4)
  }

  // The first `count` sync numbers are readable, strictly increasing and numbers of samples.
  ghost predicate SyncsFit(data: seq<Byte>, sampleCount: nat, count: nat)
  {
    && (forall k: nat :: k < count ==> Readable(data, 8 + k * 4) && 0 < SyncNumber(data, k) <= sampleCount)
    && (forall j: nat, k: nat :: j < k < count ==> SyncNumber(data, j) < SyncNumber(data, k))
  }

  ghost predicate SyncsAre(data: seq<Byte>, sync: seq<bool>, count: nat)
  {
    forall i :: 0 <= i < |sync| ==> (sync[i] <==> exists k: nat :: k < count && SyncNumber(data, k) == i + 1)
  }

  // A number that is not the number of a sample, or not above the one before.
  ghost predicate IsBadSync(data: seq<Byte>, sampleCount: nat, k: nat)
  {
    && Readable(data, 8 + k * 4)
    && (SyncNumber(data, k) == 0 || SyncNumber(data, k) > sampleCount ||
        (k > 0 && SyncNumber(data, k) <= SyncNumber(data, k - 1)))
  }

  // Why the table is unfit, if it is.
  ghost function StssError(data: seq<Byte>, sampleCount: nat): Mp4Error
  {
    if Readable(data, 4) && exists k: nat :: k < NumberAt(data, 4) && IsBadSync(data, sampleCount, k)
    then InvalidTable("stss")
    else Truncated
  }

  lemma StssErrorMeans(data: seq<Byte>, sampleCount: nat)
    requires Readable(data, 4) ==> !SyncsFit(data, sampleCount, NumberAt(data, 4))
    ensures StssError(data, sampleCount) == Truncated ==> |data| < 8 + 4 * NumberAt(data, 4)
    ensures StssError(data, sampleCount) == InvalidTable("stss") ==> exists k: nat ::
      && k < NumberAt(data, 4)
      && (SyncNumber(data, k) == 0 || SyncNumber(data, k) > sampleCount
          || (k > 0 && SyncNumber(data, k) <= SyncNumber(data, k - 1)))
  {
    hide BigEndian, NumberAt;
    var count := NumberAt(data, 4);
    if k: nat :| k < count && IsBadSync(data, sampleCount, k) {
      assert SyncNumber(data, k) == 0 || SyncNumber(data, k) > sampleCount
          || (k > 0 && SyncNumber(data, k) <= SyncNumber(data, k - 1));
    } else if |data| >= 8 + 4 * count {
      SyncsGrow(data, sampleCount, count);
    }
  }

  lemma {:induction false} SyncsGrow(data: seq<Byte>, sampleCount: nat, count: nat)
    requires |data| >= 8 + 4 * count && forall k: nat :: k < count ==> !IsBadSync(data, sampleCount, k)
    ensures SyncsFit(data, sampleCount, count)
  {
    hide Readable, NumberAt;
    if count > 0 {
      LongEnough(data, 8 + (count - 1) * 4);
      assert !IsBadSync(data, sampleCount, count - 1);
      SyncsGrow(data, sampleCount, count - 1);
      forall j: nat | j < count - 1
        ensures SyncNumber(data, j) < SyncNumber(data, count - 1)
      {
        assert !IsBadSync(data, sampleCount, count - 1);
        assert j < count - 2 ==> SyncNumber(data, j) < SyncNumber(data, count - 2);
      }
    }
  }

  lemma LongEnough(data: seq<Byte>, offset: nat)
    requires offset + 4 <= |data|
    ensures Readable(data, offset)
  {
  }

  lemma BadSync(data: seq<Byte>, sampleCount: nat, k: nat, previous: nat)
    requires Readable(data, 8 + k * 4) && previous == if k == 0 then 0 else SyncNumber(data, k - 1)
    requires SyncNumber(data, k) <= previous || SyncNumber(data, k) > sampleCount
    ensures IsBadSync(data, sampleCount, k)
  {
    hide Readable, NumberAt;
  }

  // Past the first number that cannot be read there is none to object to.
  lemma NoBadSync(data: seq<Byte>, sampleCount: nat, index: nat)
    requires SyncsFit(data, sampleCount, index) && !Readable(data, 8 + index * 4)
    ensures forall k: nat :: !IsBadSync(data, sampleCount, k)
  {
    hide NumberAt;
    forall k: nat
      ensures !IsBadSync(data, sampleCount, k)
    {
      if k >= index {
        ReadableGrows(data, 8 + index * 4, 8 + k * 4);
      }
    }
  }

  lemma ReadableGrows(data: seq<Byte>, offset: nat, later: nat)
    requires offset <= later
    ensures Readable(data, later) ==> Readable(data, offset)
  {
  }

  method ParseStss(data: seq<Byte>, sampleCount: nat) returns (r: Result<seq<bool>, Mp4Error>)
    ensures r.Ok? <==> Readable(data, 4) && SyncsFit(data, sampleCount, NumberAt(data, 4))
    ensures r.Ok? ==> |r.value| == sampleCount && SyncsAre(data, r.value, NumberAt(data, 4))
    ensures r.Err? ==> r.error == StssError(data, sampleCount)
  {
    hide ReadU32, IsBadSync;
    var entryCount :- Entry(data, 4);
    var sync := Repeat(false, sampleCount);
    var previous := 0;
    for index := 0 to entryCount
      invariant |sync| == sampleCount && previous == if index == 0 then 0 else SyncNumber(data, index - 1)
      invariant SyncsFit(data, sampleCount, index) && SyncsAre(data, sync, index)
    {
      assert Readable(data, 8 + index * 4) <==> Entry(data, 8 + index * 4).Ok?;
      if !Readable(data, 8 + index * 4) {
        NoBadSync(data, sampleCount, index);
      }
      var number :- Entry(data, 8 + index * 4);
      assert number == SyncNumber(data, index);
      if number == 0 || number <= previous || number > sampleCount {
        assert IsBadSync(data, sampleCount, index) by {
          BadSync(data, sampleCount, index, previous);
        }
        return Err(InvalidTable("stss"));
      }
      SyncsSnoc(data, sync, index);
      sync := sync[number - 1 := true];
      previous := number;
    }
    return Ok(sync);
  }

  lemma SyncsSnoc(data: seq<Byte>, sync: seq<bool>, count: nat)
    requires SyncsAre(data, sync, count) && 0 < SyncNumber(data, count) <= |sync|
    ensures SyncsAre(data, sync[SyncNumber(data, count) - 1 := true], count + 1)
  {
  }

  // ---------------------------------------------------------------- chunk offsets

  function ChunkStart(data: seq<Byte>, wide: bool, i: nat): Option<nat>
  {
    if wide then ReadU64(data, 8 + i * 8) else ReadU32(data, 8 + i * 4)
  }

  method ParseChunkOffsets(data: seq<Byte>, wide: bool) returns (r: Result<seq<nat>, Mp4Error>)
    ensures r.Ok? <==> Readable(data, 4) && forall i: nat :: i < NumberAt(data, 4) ==> ChunkStart(data, wide, i).Some?
    ensures r.Ok? ==> |r.value| == NumberAt(data, 4) &&
                      forall i: nat :: i < |r.value| ==> ChunkStart(data, wide, i) == Some(r.value[i])
    ensures r.Err? ==> r.error == Truncated
  {
    hide ReadU32, ReadU64;
    var entryCount :- Entry(data, 4);
    var offsets := [];
    for index := 0 to entryCount
      invariant |offsets| == index
      invariant forall i: nat :: i < index ==> ChunkStart(data, wide, i) == Some(offsets[i])
    {
      var start := ChunkStart(data, wide, index);
      if start.None? {
        return Err(Truncated);
      }
      offsets := offsets + [start.value];
    }
    return Ok(offsets);
  }

  // ---------------------------------------------------------------- the track

  // The boxes of a sample table, and what the other boxes of the track say.
  datatype RawTables = RawTables(
    mdhd: seq<Byte>,
    editMediaTime: int,
    stsd: seq<Byte>,
    stts: seq<Byte>,
    ctts: Option<seq<Byte>>,
    stss: Option<seq<Byte>>,
    stsz: seq<Byte>,
    stsc: seq<Byte>,
    chunkOffsets: seq<Byte>,
    chunkOffsetsAre64Bit: bool)

  // The timescale and the duration in the media header.
  function ParseMdhd(data: seq<Byte>): (r: Result<(nat, nat), Mp4Error>)
    ensures r.Ok? ==> r.value.0 > 0 && |data| >= 20 && data[0] <= 1
    ensures r.Ok? && data[0] == 0 ==> r.value == (BigEndian(data[12..16]), BigEndian(data[16..20]))
    ensures r.Ok? && data[0] == 1 ==> |data| >= 32 && r.value == (BigEndian(data[20..24]), BigEndian(data[24..32]))
  {
    if data == [] then Err(Truncated)
    else if data[0] > 1 then Err(InvalidTable("mdhd version"))
    else
      var timescale :- Entry(data, if data[0] == 0 then 12 else 20);
      var duration :- if data[0] == 0 then Entry(data, 16) else OkOr(ReadU64(data, 24), Truncated);
      if timescale == 0 then Err(InvalidTable("zero timescale")) else Ok((timescale, duration))
  }

  const AVC1: seq<Byte> := [0x61, 0x76, 0x63, 0x31]
  const AVC3: seq<Byte> := [0x61, 0x76, 0x63, 0x33]

  function ParseVideoCodec(stsd: seq<Byte>): (r: Result<seq<Byte>, Mp4Error>)
    ensures r.Ok? ==> r.value == AVC1 || r.value == AVC3
  {
    var entryCount :- Entry(stsd, 4);
    if entryCount != 1 then Err(InvalidTable("stsd entry count"))
    else if |stsd| < 16 then Err(Truncated)
    else
      var entry := stsd[8..];
      var size :- Entry(entry, 0);
      if size < 8 || size > |entry| then Err(InvalidTable("stsd entry size"))
      else
        var codec :- OkOr(ReadFourcc(entry, 4), Truncated);
        if codec == AVC1 || codec == AVC3 then Ok(codec) else Err(UnsupportedCodec(codec))
  }

  // Without a table of composition offsets there are none; without a table of sync samples
  // every sample is one.
  ghost predicate OffsetsFrom(ctts: Option<seq<Byte>>, offsets: seq<int>)
  {
    match ctts
    case None => forall i :: 0 <= i < |offsets| ==> offsets[i] == 0
    case Some(data) => RunsFit(data, |offsets|) && OffsetsAre(data, OffsetsSigned(data), offsets, NumberAt(data, 4))
  }

  ghost predicate SyncFrom(stss: Option<seq<Byte>>, sync: seq<bool>)
  {
    match stss
    case None => forall i :: 0 <= i < |sync| ==> sync[i]
    case Some(data) =>
      Readable(data, 4) && SyncsFit(data, |sync|, NumberAt(data, 4)) && SyncsAre(data, sync, NumberAt(data, 4))
  }

  ghost predicate PlacedFrom(raw: RawTables, sizes: seq<nat>, byteOffsets: seq<nat>, chunks: seq<nat>,
                             stsc: seq<StscEntry>)
  {
    && Stsc(raw.stsc) == Ok(stsc) && SamplesBefore(stsc, |chunks|) == |sizes| == |byteOffsets|
    && EndsFit(sizes, chunks, stsc, |chunks|)
    && Readable(raw.chunkOffsets, 4) && |chunks| == NumberAt(raw.chunkOffsets, 4)
    && (forall i: nat :: i < |chunks| ==> ChunkStart(raw.chunkOffsets, raw.chunkOffsetsAre64Bit, i) == Some(chunks[i]))
    && AllPlaced(byteOffsets, sizes, chunks, stsc, |chunks|)
  }

  ghost predicate BytesFrom(raw: RawTables, sizes: seq<nat>, byteOffsets: seq<nat>)
  {
    exists chunks, stsc :: PlacedFrom(raw, sizes, byteOffsets, chunks, stsc)
  }

  ghost predicate TablesFrom(raw: RawTables, tables: Tables)
  {
    && tables.Valid()
    && ParseMdhd(raw.mdhd) == Ok((tables.timescale, tables.mediaDuration))
    && tables.editMediaTime == raw.editMediaTime && ParseVideoCodec(raw.stsd) == Ok(tables.codec)
    && SizesReadable(raw.stsz) && SizesAre(raw.stsz, tables.sizes)
    && Stts(raw.stts, |tables.sizes|) == Ok(tables.durations)
    && OffsetsFrom(raw.ctts, tables.compositionOffsets) && SyncFrom(raw.stss, tables.sync)
    && BytesFrom(raw, tables.sizes, tables.byteOffsets)
  }

  // ---------------------------------------------------------------- what the boxes determine

  lemma {:induction false} SomeRun(data: seq<Byte>, runs: nat, i: nat) returns (k: nat)
    requires i < RunStart(data, runs)
    ensures k < runs && InRun(data, i, k)
  {
    if RunStart(data, runs - 1) <= i {
      k := runs - 1;
    } else {
      k := SomeRun(data, runs - 1, i);
    }
  }

  lemma OffsetsUnique(data: seq<Byte>, signed: bool, a: seq<int>, b: seq<int>, runs: nat)
    requires OffsetsAre(data, signed, a, runs) && OffsetsAre(data, signed, b, runs)
    ensures a == b
  {
    forall i | 0 <= i < |a|
      ensures a[i] == b[i]
    {
      var k := SomeRun(data, runs, i);
      assert InRun(data, i, k);
    }
  }

  lemma PlacedUnique(raw: RawTables, sizes: seq<nat>, a: seq<nat>, b: seq<nat>, chunks: seq<nat>, others: seq<nat>,
                     stsc: seq<StscEntry>, other: seq<StscEntry>)
    requires PlacedFrom(raw, sizes, a, chunks, stsc) && PlacedFrom(raw, sizes, b, others, other)
    ensures chunks == others && stsc == other && a == b
  {
    hide Stsc, IsChunkTable, ChunkStart;
    forall i: nat | i < |chunks|
      ensures chunks[i] == others[i]
    {
      assert ChunkStart(raw.chunkOffsets, raw.chunkOffsetsAre64Bit, i) == Some(chunks[i]);
    }
    forall i | 0 <= i < |a|
      ensures a[i] == b[i]
    {
      var c := EverySampleHasAChunk(stsc, |chunks|, i);
      assert LiesIn(stsc, i, c);
    }
  }

  // The boxes determine the tables.
  lemma TablesUnique(raw: RawTables, a: Tables, b: Tables)
    requires TablesFrom(raw, a) && TablesFrom(raw, b)
    ensures a == b
  {
    hide Stts, PlacedFrom, ParseVideoCodec, ParseMdhd, OffsetsAre, OffsetsSigned, SyncsFit;
    assert a.sizes == b.sizes;
    if raw.ctts.Some? {
      var data := raw.ctts.value;
      OffsetsUnique(data, OffsetsSigned(data), a.compositionOffsets, b.compositionOffsets, NumberAt(data, 4));
    }
    assert a.sync == b.sync;
    var chunks, stsc :| PlacedFrom(raw, a.sizes, a.byteOffsets, chunks, stsc);
    var others, other :| PlacedFrom(raw, b.sizes, b.byteOffsets, others, other);
    PlacedUnique(raw, a.sizes, a.byteOffsets, b.byteOffsets, chunks, others, stsc, other);
  }

  ghost predicate OptionalFrom(raw: RawTables, sampleCount: nat, optional: (seq<int>, seq<bool>))
  {
    && |optional.0| == |optional.1| == sampleCount
    && OffsetsFrom(raw.ctts, optional.0) && SyncFrom(raw.stss, optional.1)
  }

  // ---------------------------------------------------------------- why the boxes fail

  ghost predicate OptionalFailWith(raw: RawTables, sampleCount: nat, error: Mp4Error)
  {
    if raw.ctts.Some? && !RunsFit(raw.ctts.value, sampleCount) then error == CttsError(raw.ctts.value, sampleCount)
    else raw.stss.Some? && error == StssError(raw.stss.value, sampleCount)
  }

  ghost predicate ChunksAre(raw: RawTables, chunks: seq<nat>)
  {
    && |chunks| == NumberAt(raw.chunkOffsets, 4)
    && forall i: nat :: i < |chunks| ==> ChunkStart(raw.chunkOffsets, raw.chunkOffsetsAre64Bit, i) == Some(chunks[i])
  }

  ghost predicate ChunksReadable(raw: RawTables)
  {
    Readable(raw.chunkOffsets, 4) && exists chunks :: ChunksAre(raw, chunks)
  }

  ghost predicate BytesFailWith(raw: RawTables, sizes: seq<nat>, error: Mp4Error)
  {
    if !ChunksReadable(raw) then error == Truncated
    else if Stsc(raw.stsc).Err? then error == Stsc(raw.stsc).error
    else exists chunks :: ChunksAre(raw, chunks) && error == ExpandError(sizes, chunks, Stsc(raw.stsc).value)
  }

  ghost predicate SamplesFailWith(raw: RawTables, sizes: seq<nat>, error: Mp4Error)
  {
    if Stts(raw.stts, |sizes|).Err? then error == Stts(raw.stts, |sizes|).error
    else if !exists optional :: OptionalFrom(raw, |sizes|, optional) then OptionalFailWith(raw, |sizes|, error)
    else BytesFailWith(raw, sizes, error)
  }

  // The first failure, in the order in which the boxes are parsed.
  ghost predicate FailWith(raw: RawTables, error: Mp4Error)
  {
    if ParseMdhd(raw.mdhd).Err? then error == ParseMdhd(raw.mdhd).error
    else if ParseVideoCodec(raw.stsd).Err? then error == ParseVideoCodec(raw.stsd).error
    else if !SizesReadable(raw.stsz) then error == Truncated
    else exists sizes :: SizesAre(raw.stsz, sizes) && SamplesFailWith(raw, sizes, error)
  }

  // There is one error they can fail with.
  lemma ErrorUnique(raw: RawTables, error: Mp4Error, other: Mp4Error)
    requires FailWith(raw, error) && FailWith(raw, other)
    ensures error == other
  {
    hide ParseMdhd, ParseVideoCodec, SamplesFailWith, SizesAre, SizesReadable;
    if ParseMdhd(raw.mdhd).Ok? && ParseVideoCodec(raw.stsd).Ok? && SizesReadable(raw.stsz) {
      var sizes :| SizesAre(raw.stsz, sizes) && SamplesFailWith(raw, sizes, error);
      var others :| SizesAre(raw.stsz, others) && SamplesFailWith(raw, others, other);
      SizesUnique(raw, sizes, others);
      SamplesErrorUnique(raw, sizes, error, other);
    }
  }

  lemma SamplesErrorUnique(raw: RawTables, sizes: seq<nat>, error: Mp4Error, other: Mp4Error)
    ensures SamplesFailWith(raw, sizes, error) && SamplesFailWith(raw, sizes, other) ==> error == other
  {
    hide Stts, OptionalFrom, OptionalFailWith, BytesFailWith;
    OptionalErrorUnique(raw, |sizes|, error, other);
    BytesErrorUnique(raw, sizes, error, other);
  }

  lemma OptionalErrorUnique(raw: RawTables, sampleCount: nat, error: Mp4Error, other: Mp4Error)
    ensures OptionalFailWith(raw, sampleCount, error) && OptionalFailWith(raw, sampleCount, other) ==> error == other
  {
  }

  lemma BytesErrorUnique(raw: RawTables, sizes: seq<nat>, error: Mp4Error, other: Mp4Error)
    ensures BytesFailWith(raw, sizes, error) && BytesFailWith(raw, sizes, other) ==> error == other
  {
    hide Stsc, ChunksAre, ChunksReadable, ExpandError;
    if BytesFailWith(raw, sizes, error) && BytesFailWith(raw, sizes, other)
       && ChunksReadable(raw) && Stsc(raw.stsc).Ok?
    {
      var chunks :| ChunksAre(raw, chunks) && error == ExpandError(sizes, chunks, Stsc(raw.stsc).value);
      var others :| ChunksAre(raw, others) && other == ExpandError(sizes, others, Stsc(raw.stsc).value);
      ChunksUnique(raw, chunks, others);
    }
  }

  lemma ChunksUnique(raw: RawTables, chunks: seq<nat>, others: seq<nat>)
    requires ChunksAre(raw, chunks) && ChunksAre(raw, others)
    ensures chunks == others
  {
    hide NumberAt, ChunkStart;
    SameChunks(raw, chunks, others);
  }

  lemma SizesUnique(raw: RawTables, sizes: seq<nat>, others: seq<nat>)
    requires SizesAre(raw.stsz, sizes) && SizesAre(raw.stsz, others)
    ensures sizes == others
  {
    hide NumberAt;
  }

  // ---------------------------------------------------------------- parsing the boxes

  method ParseOptionalTables(raw: RawTables, sampleCount: nat) returns (r: Result<(seq<int>, seq<bool>), Mp4Error>)
    ensures r.Ok? <==> exists optional :: OptionalFrom(raw, sampleCount, optional)
    ensures r.Ok? ==> OptionalFrom(raw, sampleCount, r.value)
    ensures r.Err? ==> OptionalFailWith(raw, sampleCount, r.error)
  {
    hide RunsFit, OffsetsAre, OffsetsSigned, SyncsFit, SyncsAre, CttsError, StssError;
    var offsets, sync := Repeat(0, sampleCount), Repeat(true, sampleCount);
    if raw.ctts.Some? {
      offsets :- ParseCtts(raw.ctts.value, sampleCount);
    }
    if raw.stss.Some? {
      sync :- ParseStss(raw.stss.value, sampleCount);
    }
    assert OptionalFrom(raw, sampleCount, (offsets, sync));
    return Ok((offsets, sync));
  }

  lemma UnreadableChunks(raw: RawTables)
    ensures ChunksReadable(raw) ==> forall i: nat :: i < NumberAt(raw.chunkOffsets, 4) ==>
      ChunkStart(raw.chunkOffsets, raw.chunkOffsetsAre64Bit, i).Some?
  {
    hide NumberAt, ChunkStart;
    if ChunksReadable(raw) {
      var chunks :| ChunksAre(raw, chunks);
      forall i: nat | i < NumberAt(raw.chunkOffsets, 4)
        ensures ChunkStart(raw.chunkOffsets, raw.chunkOffsetsAre64Bit, i).Some?
      {
        assert ChunkStart(raw.chunkOffsets, raw.chunkOffsetsAre64Bit, i) == Some(chunks[i]);
      }
    }
  }

  method ParseByteOffsets(raw: RawTables, sizes: seq<nat>) returns (r: Result<seq<nat>, Mp4Error>)
    ensures r.Ok? <==> exists byteOffsets :: BytesFrom(raw, sizes, byteOffsets)
    ensures r.Ok? ==> BytesFrom(raw, sizes, r.value) && |r.value| == |sizes|
    ensures r.Err? ==> BytesFailWith(raw, sizes, r.error)
  {
    hide AllPlaced, ChunkStart, EndsFit, IsChunkTable, Stsc, Readable, ExpandError;
    UnreadableChunks(raw);
    var chunks :- ParseChunkOffsets(raw.chunkOffsets, raw.chunkOffsetsAre64Bit);
    assert ChunksAre(raw, chunks);
    var stsc :- ParseStsc(raw.stsc);
    var expanded := ExpandSampleOffsets(sizes, chunks, stsc);
    if expanded.Err? {
      forall byteOffsets, others, other
        ensures !PlacedFrom(raw, sizes, byteOffsets, others, other)
      {
        if PlacedFrom(raw, sizes, byteOffsets, others, other) {
          SameChunks(raw, chunks, others);
        }
      }
      return Err(expanded.error);
    }
    assert PlacedFrom(raw, sizes, expanded.value, chunks, stsc);
    assert BytesFrom(raw, sizes, expanded.value);
    return Ok(expanded.value);
  }

  lemma SameChunks(raw: RawTables, chunks: seq<nat>, others: seq<nat>)
    requires |chunks| == |others|
    requires forall i: nat :: i < |chunks| ==>
      ChunkStart(raw.chunkOffsets, raw.chunkOffsetsAre64Bit, i) == Some(chunks[i])
    requires forall i: nat :: i < |others| ==>
      ChunkStart(raw.chunkOffsets, raw.chunkOffsetsAre64Bit, i) == Some(others[i])
    ensures chunks == others
  {
    hide ChunkStart;
    forall i: nat | i < |chunks|
      ensures chunks[i] == others[i]
    {
      assert ChunkStart(raw.chunkOffsets, raw.chunkOffsetsAre64Bit, i) == Some(chunks[i]);
    }
  }

  // Succeeds exactly when the boxes are those of some tables, and returns these.
  method ParseTables(raw: RawTables) returns (r: Result<Tables, Mp4Error>)
    ensures r.Ok? <==> exists tables :: TablesFrom(raw, tables)
    ensures r.Ok? ==> TablesFrom(raw, r.value) && r.value.Valid()
    ensures r.Err? ==> FailWith(raw, r.error)
  {
    hide SizesReadable, OffsetsFrom, SyncFrom, BytesFrom, ParseVideoCodec, ParseMdhd, Stts;
    hide BytesFailWith, OptionalFailWith;
    var header :- ParseMdhd(raw.mdhd);
    var codec :- ParseVideoCodec(raw.stsd);
    var sizes :- ParseStsz(raw.stsz);
    assert Stts(raw.stts, |sizes|).Err? ==> SamplesFailWith(raw, sizes, Stts(raw.stts, |sizes|).error);
    var durations :- ParseStts(raw.stts, |sizes|);
    var optional := ParseOptionalTables(raw, |sizes|);
    if optional.Err? {
      forall tables
        ensures !TablesFrom(raw, tables)
      {
        assert TablesFrom(raw, tables) ==> OptionalFrom(raw, |sizes|, (tables.compositionOffsets, tables.sync));
      }
      assert SamplesFailWith(raw, sizes, optional.error);
      return Err(optional.error);
    }
    var byteOffsets := ParseByteOffsets(raw, sizes);
    if byteOffsets.Err? {
      forall tables
        ensures !TablesFrom(raw, tables)
      {
        assert TablesFrom(raw, tables) ==> tables.sizes == sizes && BytesFrom(raw, sizes, tables.byteOffsets);
      }
      assert SamplesFailWith(raw, sizes, byteOffsets.error);
      return Err(byteOffsets.error);
    }
    var tables := Tables(header.0, header.1, raw.editMediaTime, codec, durations, optional.value.0, optional.value.1,
                         byteOffsets.value, sizes);
    assert TablesFrom(raw, tables);
    return Ok(tables);
  }

  ghost predicate IsParsedFrom(track: VideoTrack, raw: RawTables)
  {
    exists tables :: TablesFrom(raw, tables) && IsTrackOf(track, tables)
  }

  // Why no track comes of these boxes: the tables fail, are empty, or hold a time that does not
  // fit, or else a sample ends outside the file.
  ghost predicate TrackFailWith(raw: RawTables, error: Mp4Error)
  {
    if !exists tables :: TablesFrom(raw, tables) then FailWith(raw, error)
    else exists tables :: TablesFrom(raw, tables) && error == TimelineError(tables)
  }

  ghost function TimelineError(tables: Tables): Mp4Error
    requires tables.Valid()
  {
    if |tables.durations| == 0 then InvalidTable("empty video track")
    else if exists i :: 0 <= i < |tables.durations| && !TimesFit(tables, i) then IntegerOverflow
    else InvalidTable("sample byte range")
  }

  // The samples of parsed tables end below 2^64.
  lemma EndsInU64(raw: RawTables, tables: Tables)
    requires TablesFrom(raw, tables)
    ensures forall i :: 0 <= i < |tables.sizes| ==> tables.byteOffsets[i] + tables.sizes[i] <= U64_MAX
  {
    hide ParseMdhd, ParseVideoCodec, SizesReadable, SizesAre, Stts, OffsetsFrom, SyncFrom, ChunkStart, Placed, Stsc;
    var chunks, stsc :| PlacedFrom(raw, tables.sizes, tables.byteOffsets, chunks, stsc);
    forall i | 0 <= i < |tables.sizes|
      ensures tables.byteOffsets[i] + tables.sizes[i] <= U64_MAX
    {
      var c := EverySampleHasAChunk(stsc, |chunks|, i);
      assert LiesIn(stsc, i, c);
    }
  }

  // The whole way from the boxes to a track: it succeeds exactly when there is a track of
  // these boxes whose samples all lie inside the file.
  method ParseVideoTrack(raw: RawTables, fileLength: nat) returns (r: Result<VideoTrack, Mp4Error>)
    requires fileLength <= U64_MAX
    ensures r.Ok? <==> exists track :: IsParsedFrom(track, raw) && RangesInside(track.samples, fileLength)
    ensures r.Ok? ==> IsParsedFrom(r.value, raw) && RangesInside(r.value.samples, fileLength)
    ensures r.Err? ==> TrackFailWith(raw, r.error)
  {
    hide RangesInside, TablesFrom, TimesFit, SampleAt, Covers, FailWith;
    var tables :- ParseTables(raw);
    EndsInU64(raw, tables);
    forall other | TablesFrom(raw, other)
      ensures other == tables
    {
      TablesUnique(raw, other, tables);
    }
    var track :- BuildVideoTrack(tables);
    forall other | IsParsedFrom(other, raw)
      ensures other.samples == track.samples
    {
    }
    var checked := CheckByteRanges(track, fileLength);
    if checked.Err? {
      OutsideByRange(track, tables, fileLength, checked.error);
      return Err(checked.error);
    }
    return Ok(track);
  }

  lemma OutsideByRange(track: VideoTrack, tables: Tables, fileLength: nat, error: Mp4Error)
    requires tables.Valid() && IsTrackOf(track, tables)
    requires forall i :: 0 <= i < |tables.sizes| ==> tables.byteOffsets[i] + tables.sizes[i] <= U64_MAX
    requires exists k: nat :: k < |track.samples| && FirstOutside(track.samples, fileLength, k, error)
    ensures error == TimelineError(tables)
  {
    hide Covers, TimesFit;
    var k: nat :| k < |track.samples| && FirstOutside(track.samples, fileLength, k, error);
    assert track.samples[k] == SampleAt(tables, k);
    assert forall i :: 0 <= i < |tables.durations| ==> TimesFit(tables, i);
  }

  // Every parsed track has a timeline of positive length in 64 bits that covers its samples
  // exactly, a positive timescale, and decode times that are the sums of the positive
  // durations before.
  lemma ParsedTrackMeans(track: VideoTrack, raw: RawTables)
    requires IsParsedFrom(track, raw)
    ensures track.timescale > 0
    ensures InI64(track.presentationStart) && InI64(track.presentationEnd)
    ensures track.presentationStart < track.presentationEnd
    ensures Covers(track.presentationStart, track.presentationEnd, track.samples)
    ensures forall i :: 0 <= i + 1 < |track.samples| && 0 <= i ==>
      track.samples[i + 1].decodeTime == track.samples[i].decodeTime + track.samples[i].duration
    ensures forall i :: 0 <= i < |track.samples| ==> track.samples[i].duration > 0
    ensures track.samples != [] && track.samples[0].decodeTime == 0
  {
    hide SizesReadable, SizesAre, OffsetsFrom, SyncFrom, BytesFrom, ParseVideoCodec, Stts, ParseMdhd;
    var tables :| TablesFrom(raw, tables) && IsTrackOf(track, tables);
    TrackHasTimeline(track, tables);
    forall i | 0 <= i < |track.samples| - 1
      ensures track.samples[i + 1].decodeTime == track.samples[i].decodeTime + track.samples[i].duration
    {
      assert track.samples[i + 1] == SampleAt(tables, i + 1) && track.samples[i] == SampleAt(tables, i);
    }
  }

  // ---------------------------------------------------------------- durations and chunk runs

  // A run of durations can be read, holds samples, and has a positive duration.
  ghost predicate DurationRunFits(data: seq<Byte>, k: nat)
  {
    RunReadable(data, k) && NumberAt(data, 8 + k * 8 + 4) > 0
  }

  ghost predicate DurationsAre(data: seq<Byte>, durations: seq<nat>, runs: nat)
  {
    && |durations| == RunStart(data, runs)
    && (forall k: nat, i: nat :: k < runs && InRun(data, i, k) ==>
          i < |durations| && durations[i] == NumberAt(data, 8 + k * 8 + 4))
  }

  lemma DurationsSnoc(data: seq<Byte>, durations: seq<nat>, runs: nat)
    requires DurationsAre(data, durations, runs)
    ensures var run := Repeat(NumberAt(data, 8 + runs * 8 + 4), NumberAt(data, 8 + runs * 8));
      DurationsAre(data, durations + run, runs + 1)
  {
    hide NumberAt;
    var delta, count := NumberAt(data, 8 + runs * 8 + 4), NumberAt(data, 8 + runs * 8);
    var longer := durations + Repeat(delta, count);
    assert RunStart(data, runs + 1) == RunStart(data, runs) + count;
    forall k: nat, i: nat | k < runs + 1 && InRun(data, i, k)
      ensures i < |longer| && longer[i] == NumberAt(data, 8 + k * 8 + 4)
    {
      if k < runs {
        RunStartGrows(data, k + 1, runs);
      }
    }
  }

  lemma {:induction false} DurationsUpToMeans(data: seq<Byte>, sampleCount: nat, count: nat)
    ensures DurationsUpTo(data, sampleCount, count).Ok? <==>
      RunStart(data, count) <= sampleCount && forall k: nat :: k < count ==> DurationRunFits(data, k)
    ensures DurationsUpTo(data, sampleCount, count).Ok? ==>
      DurationsAre(data, DurationsUpTo(data, sampleCount, count).value, count)
  {
    hide DurationsAre, ReadU32, Repeat;
    if count == 0 {
      NoDurations(data);
    } else {
      DurationsUpToMeans(data, sampleCount, count - 1);
      var before := DurationsUpTo(data, sampleCount, count - 1);
      if before.Ok? {
        LengthOfDurations(data, before.value, count - 1);
        DurationsSnoc(data, before.value, count - 1);
        assert DurationRunFits(data, count - 1) <==>
          Entry(data, 8 + 8 * (count - 1)).Ok? && Entry(data, 8 + 8 * (count - 1) + 4).Ok?
          && NumberAt(data, 8 + 8 * (count - 1)) > 0 && NumberAt(data, 8 + 8 * (count - 1) + 4) > 0;
      }
    }
  }

  lemma LengthOfDurations(data: seq<Byte>, durations: seq<nat>, runs: nat)
    requires DurationsAre(data, durations, runs)
    ensures |durations| == RunStart(data, runs)
  {
  }

  lemma NoDurations(data: seq<Byte>)
    ensures DurationsAre(data, [], 0)
  {
  }

  // The table of durations, by what stands in it: every sample has the duration of its run,
  // and the runs hold as many samples as there are.
  lemma SttsMeans(data: seq<Byte>, sampleCount: nat)
    ensures Stts(data, sampleCount).Ok? <==>
      && Readable(data, 4) && RunStart(data, NumberAt(data, 4)) == sampleCount
      && forall k: nat :: k < NumberAt(data, 4) ==> DurationRunFits(data, k)
    ensures Stts(data, sampleCount).Ok? ==> DurationsAre(data, Stts(data, sampleCount).value, NumberAt(data, 4))
  {
    hide DurationsUpTo, DurationsAre, DurationRunFits;
    DurationsUpToMeans(data, sampleCount, NumberAt(data, 4));
    var durations := DurationsUpTo(data, sampleCount, NumberAt(data, 4));
    if durations.Ok? {
      LengthOfDurations(data, durations.value, NumberAt(data, 4));
    }
  }

  // What stands in entry `k` of the table of chunk runs.
  function ChunkRunAt(data: seq<Byte>, k: nat): StscEntry
  {
    StscEntry(NumberAt(data, 8 + k * 12), NumberAt(data, 8 + k * 12 + 4))
  }

  ghost predicate ChunkRunFits(data: seq<Byte>, k: nat)
  {
    && Readable(data, 8 + k * 12) && Readable(data, 8 + k * 12 + 4) && Readable(data, 8 + k * 12 + 8)
    && ChunkRunAt(data, k).samplesPerChunk > 0 && NumberAt(data, 8 + k * 12 + 8) == 1
    && ChunkRunAt(data, k).firstChunk > if k == 0 then 0 else ChunkRunAt(data, k - 1).firstChunk
  }

  lemma NoChunkRuns(data: seq<Byte>)
    ensures ChunkRunsUpTo(data, 0) == Ok([])
  {
  }

  lemma NextChunkRun(data: seq<Byte>, before: seq<StscEntry>, k: nat)
    requires ChunkRunsUpTo(data, k) == Ok(before)
    requires FirstChunkOfLast(before) == if k == 0 then 0 else ChunkRunAt(data, k - 1).firstChunk
    ensures ChunkRunsUpTo(data, k + 1).Ok? <==> ChunkRunFits(data, k)
    ensures ChunkRunFits(data, k) ==> ChunkRunsUpTo(data, k + 1) == Ok(before + [ChunkRunAt(data, k)])
  {
    hide ReadU32, Increasing, FirstChunkOfLast;
  }

  lemma {:induction false} ChunkRunsUpToMeans(data: seq<Byte>, count: nat)
    ensures ChunkRunsUpTo(data, count).Ok? <==> forall k: nat :: k < count ==> ChunkRunFits(data, k)
    ensures ChunkRunsUpTo(data, count).Ok? ==>
      forall k: nat :: k < count ==> ChunkRunsUpTo(data, count).value[k] == ChunkRunAt(data, k)
  {
    hide ChunkRunsUpTo, ChunkRunAt, ChunkRunFits, Increasing;
    if count == 0 {
      NoChunkRuns(data);
    } else {
      ChunkRunsUpToMeans(data, count - 1);
      var before := ChunkRunsUpTo(data, count - 1);
      if before.Ok? {
        NextChunkRun(data, before.value, count - 1);
      } else {
        ChunkRunsStop(data, count - 1, count);
      }
    }
  }

  // The table of chunk runs, by what stands in it.
  lemma StscMeans(data: seq<Byte>)
    ensures Stsc(data).Ok? <==>
      && Readable(data, 4) && NumberAt(data, 4) > 0 && ChunkRunAt(data, 0).firstChunk == 1
      && forall k: nat :: k < NumberAt(data, 4) ==> ChunkRunFits(data, k)
    ensures Stsc(data).Ok? ==> |Stsc(data).value| == NumberAt(data, 4)
    ensures Stsc(data).Ok? ==> forall k: nat :: k < |Stsc(data).value| ==> Stsc(data).value[k] == ChunkRunAt(data, k)
  {
    hide ChunkRunsUpTo, ChunkRunFits, ChunkRunAt, Increasing;
    ChunkRunsUpToMeans(data, NumberAt(data, 4));
    var runs := ChunkRunsUpTo(data, NumberAt(data, 4));
    assert runs.Ok? && runs.value != [] ==> runs.value[0] == ChunkRunAt(data, 0);
  }
}
