/** Sample tables of an MP4 track (ISO/IEC 14496-12): durations (section 8.6.1), the runs of
    chunks (section 8.7.4), and what is computed from them. */
module SampleTables {
  import opened Arithmetic
  import opened Wrappers
  import opened Mp4Boxes

  const U64_MAX: nat := 0xFFFF_FFFF_FFFF_FFFF
  const I64_MAX: int := 0x7FFF_FFFF_FFFF_FFFF
  const I64_MIN: int := -0x8000_0000_0000_0000

  function Entry(data: seq<Byte>, offset: nat): Result<nat, Mp4Error>
  {
    OkOr(ReadU32(data, offset), Truncated)
  }

  // ---------------------------------------------------------------- durations

  function Repeat<T>(value: T, count: nat): (r: seq<T>)
    ensures |r| == count && forall i :: 0 <= i < count ==> r[i] == value
  {
    if count == 0 then [] else Repeat(value, count - 1) + [value]
  }

  // The durations after `count` entries of the table, or the first failure.
  function DurationsUpTo(data: seq<Byte>, sampleCount: nat, count: nat): (r: Result<seq<nat>, Mp4Error>)
    ensures r.Ok? ==> count <= |r.value| <= sampleCount && forall i :: 0 <= i < |r.value| ==> r.value[i] > 0
  {
    if count == 0 then Ok([])
    else
      var durations :- DurationsUpTo(data, sampleCount, count - 1);
      var base := 8 + 8 * (count - 1);
      var run :- Entry(data, base);
      var delta :- Entry(data, base + 4);
      if run == 0 || delta == 0 || |durations| + run > sampleCount then Err(InvalidTable("stts"))
      else Ok(durations + Repeat(delta, run))
  }

  function Stts(data: seq<Byte>, sampleCount: nat): (r: Result<seq<nat>, Mp4Error>)
    ensures r.Ok? ==> |r.value| == sampleCount && forall i :: 0 <= i < sampleCount ==> r.value[i] > 0
  {
    var entryCount :- Entry(data, 4);
    var durations :- DurationsUpTo(data, sampleCount, entryCount);
    if |durations| != sampleCount then Err(SampleCountMismatch) else Ok(durations)
  }

  lemma {:induction false} DurationsStop(data: seq<Byte>, sampleCount: nat, k: nat, count: nat)
    requires k <= count && DurationsUpTo(data, sampleCount, k).Err?
    ensures DurationsUpTo(data, sampleCount, count) == DurationsUpTo(data, sampleCount, k)
    decreases count
  {
    hide Entry, Repeat;
    if k < count {
      DurationsStop(data, sampleCount, k, count - 1);
    }
  }

  method ParseStts(data: seq<Byte>, sampleCount: nat) returns (r: Result<seq<nat>, Mp4Error>)
    ensures r == Stts(data, sampleCount)
  {
    hide Entry;
    var entryCount :- Entry(data, 4);
    var durations := [];
    for index := 0 to entryCount
      invariant DurationsUpTo(data, sampleCount, index) == Ok(durations)
    {
      if DurationsUpTo(data, sampleCount, index + 1).Err? {
        DurationsStop(data, sampleCount, index + 1, entryCount);
      }
      var base := 8 + index * 8;
      var count :- Entry(data, base);
      var delta :- Entry(data, base + 4);
      if count == 0 || delta == 0 || |durations| + count > sampleCount {
        return Err(InvalidTable("stts"));
      }
      durations := durations + Repeat(delta, count);
    }
    if |durations| != sampleCount {
      return Err(SampleCountMismatch);
    }
    return Ok(durations);
  }

  // ---------------------------------------------------------------- runs of chunks

  datatype StscEntry = StscEntry(firstChunk: nat, samplesPerChunk: nat)

  function FirstChunkOfLast(entries: seq<StscEntry>): nat
  {
    if entries == [] then 0 else entries[|entries| - 1].firstChunk
  }

  // First chunks grow, and no run of chunks is without samples.
  ghost predicate Increasing(entries: seq<StscEntry>)
  {
    && (forall i, j :: 0 <= i < j < |entries| ==> entries[i].firstChunk < entries[j].firstChunk)
    && (forall i :: 0 <= i < |entries| ==> entries[i].firstChunk > 0 && entries[i].samplesPerChunk > 0)
  }

  function ChunkRunsUpTo(data: seq<Byte>, count: nat): (r: Result<seq<StscEntry>, Mp4Error>)
    ensures r.Ok? ==> |r.value| == count && Increasing(r.value)
  {
    if count == 0 then Ok([])
    else
      var entries :- ChunkRunsUpTo(data, count - 1);
      var base := 8 + 12 * (count - 1);
      var firstChunk :- Entry(data, base);
      var samplesPerChunk :- Entry(data, base + 4);
      var sampleDescription :- Entry(data, base + 8);
      if firstChunk == 0 || firstChunk <= FirstChunkOfLast(entries) ||
         samplesPerChunk == 0 || sampleDescription != 1 then
        Err(InvalidTable("stsc"))
      else Ok(entries + [StscEntry(firstChunk, samplesPerChunk)])
  }

  // What the walk over the chunks needs of the table.
  ghost predicate IsChunkTable(stsc: seq<StscEntry>)
  {
    stsc != [] && stsc[0].firstChunk == 1 && Increasing(stsc)
  }

  function Stsc(data: seq<Byte>): (r: Result<seq<StscEntry>, Mp4Error>)
    ensures r.Ok? ==> IsChunkTable(r.value)
  {
    var entryCount :- Entry(data, 4);
    var entries :- ChunkRunsUpTo(data, entryCount);
    if entries == [] || entries[0].firstChunk != 1 then Err(InvalidTable("stsc first chunk")) else Ok(entries)
  }

  lemma {:induction false} ChunkRunsStop(data: seq<Byte>, k: nat, count: nat)
    requires k <= count && ChunkRunsUpTo(data, k).Err?
    ensures ChunkRunsUpTo(data, count) == ChunkRunsUpTo(data, k)
    decreases count
  {
    hide Entry, Increasing, FirstChunkOfLast;
    if k < count {
      ChunkRunsStop(data, k, count - 1);
    }
  }

  method ParseStsc(data: seq<Byte>) returns (r: Result<seq<StscEntry>, Mp4Error>)
    ensures r == Stsc(data)
  {
    hide Entry, Increasing;
    var entryCount :- Entry(data, 4);
    var entries := [];
    var previous := 0;
    for index := 0 to entryCount
      invariant ChunkRunsUpTo(data, index) == Ok(entries) && previous == FirstChunkOfLast(entries)
    {
      if ChunkRunsUpTo(data, index + 1).Err? {
        ChunkRunsStop(data, index + 1, entryCount);
      }
      var base := 8 + index * 12;
      var firstChunk :- Entry(data, base);
      var samplesPerChunk :- Entry(data, base + 4);
      var sampleDescription :- Entry(data, base + 8);
      if firstChunk == 0 || firstChunk <= previous || samplesPerChunk == 0 || sampleDescription != 1 {
        return Err(InvalidTable("stsc"));
      }
      entries := entries + [StscEntry(firstChunk, samplesPerChunk)];
      previous := firstChunk;
    }
    if entries == [] || entries[0].firstChunk != 1 {
      return Err(InvalidTable("stsc first chunk"));
    }
    return Ok(entries);
  }

  // ---------------------------------------------------------------- sample offsets

  function Sum(values: seq<nat>, start: nat, end: nat): nat
    requires start <= end <= |values|
    decreases end
  {
    if start == end then 0 else Sum(values, start, end - 1) + values[end - 1]
  }

  // The last of the first `count` entries whose run starts at this chunk or before.
  function LastRunAt(stsc: seq<StscEntry>, chunk: nat, count: nat): (i: nat)
    requires 0 < count <= |stsc|
    ensures i < count
    ensures i > 0 ==> stsc[i].firstChunk <= chunk
    ensures forall j :: i < j < count ==> stsc[j].firstChunk > chunk
  {
    if count == 1 || stsc[count - 1].firstChunk <= chunk then count - 1 else LastRunAt(stsc, chunk, count - 1)
  }

  // How many samples the chunk at this position holds; chunks are numbered from one.
  function SamplesIn(stsc: seq<StscEntry>, position: nat): nat
    requires stsc != []
  {
    stsc[LastRunAt(stsc, position + 1, |stsc|)].samplesPerChunk
  }

  // The number of samples in the chunks before this position.
  function SamplesBefore(stsc: seq<StscEntry>, position: nat): nat
    requires stsc != []
  {
    if position == 0 then 0 else SamplesBefore(stsc, position - 1) + SamplesIn(stsc, position - 1)
  }

  // Sample `i` lies in the chunk at position `c`.
  ghost predicate LiesIn(stsc: seq<StscEntry>, i: nat, c: nat)
    requires stsc != []
  {
    SamplesBefore(stsc, c) <= i < SamplesBefore(stsc, c + 1)
  }

  // Where sample `i` of chunk `c` starts: after the earlier samples of its chunk.
  function Placed(sizes: seq<nat>, chunks: seq<nat>, stsc: seq<StscEntry>, i: nat, c: nat): nat
    requires stsc != [] && c < |chunks| && SamplesBefore(stsc, c) <= i <= |sizes|
  {
    chunks[c] + Sum(sizes, SamplesBefore(stsc, c), i)
  }

  // Every sample of the first `count` chunks is known by the tables and ends below 2^64.
  ghost predicate EndsFit(sizes: seq<nat>, chunks: seq<nat>, stsc: seq<StscEntry>, count: nat)
    requires stsc != [] && count <= |chunks|
  {
    forall c: nat, i: nat :: c < count && LiesIn(stsc, i, c) ==>
      i < |sizes| && Placed(sizes, chunks, stsc, i, c) + sizes[i] <= U64_MAX
  }

  // The direct look-up: each offset is the start of the chunk plus the earlier sizes in it.
  ghost predicate AllPlaced(offsets: seq<nat>, sizes: seq<nat>, chunks: seq<nat>, stsc: seq<StscEntry>, count: nat)
    requires stsc != [] && count <= |chunks|
  {
    forall c: nat, i: nat :: c < count && LiesIn(stsc, i, c) ==>
      i < |sizes| && i < |offsets| && offsets[i] == Placed(sizes, chunks, stsc, i, c)
  }

  lemma {:induction false} SamplesBeforeGrows(stsc: seq<StscEntry>, c: nat, d: nat)
    requires stsc != [] && c <= d
    ensures SamplesBefore(stsc, c) <= SamplesBefore(stsc, d)
    decreases d
  {
    if c < d {
      SamplesBeforeGrows(stsc, c, d - 1);
    }
  }

  // The cursor over the runs only ever moves forward.
  method AdvanceRun(stsc: seq<StscEntry>, start: nat, chunkNumber: nat) returns (stscIndex: nat)
    requires IsChunkTable(stsc) && start < |stsc| && stsc[start].firstChunk <= chunkNumber
    ensures stscIndex == LastRunAt(stsc, chunkNumber, |stsc|)
    ensures stsc[stscIndex].firstChunk <= chunkNumber
  {
    stscIndex := start;
    while stscIndex + 1 < |stsc| && stsc[stscIndex + 1].firstChunk <= chunkNumber
      invariant stscIndex < |stsc| && stsc[stscIndex].firstChunk <= chunkNumber
    {
      stscIndex := stscIndex + 1;
    }
  }

  method ExpandSampleOffsets(sizes: seq<nat>, chunks: seq<nat>, stsc: seq<StscEntry>)
    returns (r: Result<seq<nat>, Mp4Error>)
    requires IsChunkTable(stsc)
    ensures r.Ok? <==> SamplesBefore(stsc, |chunks|) == |sizes| && EndsFit(sizes, chunks, stsc, |chunks|)
    ensures r.Ok? ==> |r.value| == |sizes| && AllPlaced(r.value, sizes, chunks, stsc, |chunks|)
    ensures r.Err? ==> r.error == ExpandError(sizes, chunks, stsc)
    ensures r == Err(SampleCountMismatch) ==> SamplesBefore(stsc, |chunks|) != |sizes|
    ensures r.Err? && r != Err(SampleCountMismatch) ==>
      r == Err(IntegerOverflow) && !EndsFit(sizes, chunks, stsc, |chunks|)
  {
    hide AllPlaced, EndsFit, SamplesIn, KnownEndsFit;
    var offsets := [];
    var sampleIndex := 0;
    var stscIndex := 0;
    NothingPlaced(sizes, chunks, stsc);
    for chunk := 0 to |chunks|
      invariant stscIndex < |stsc| && stsc[stscIndex].firstChunk <= chunk + 1
      invariant sampleIndex == |offsets| == SamplesBefore(stsc, chunk) <= |sizes|
      invariant AllPlaced(offsets, sizes, chunks, stsc, chunk) && EndsFit(sizes, chunks, stsc, chunk)
    {
      stscIndex := AdvanceRun(stsc, stscIndex, chunk + 1);
      assert stsc[stscIndex].samplesPerChunk == SamplesIn(stsc, chunk) by {
        ChunkRun(stsc, chunk);
      }
      var grown := ExpandChunk(sizes, chunks, stsc, chunk, stsc[stscIndex].samplesPerChunk, offsets);
      if grown.Err? {
        SamplesBeforeGrows(stsc, chunk + 1, |chunks|);
        EndsFitEarlier(sizes, chunks, stsc, chunk + 1, |chunks|);
        KnownEndsLater(sizes, chunks, stsc, chunk + 1, |chunks|);
        return Err(grown.error);
      }
      offsets := grown.value;
      sampleIndex := |offsets|;
    }
    if sampleIndex != |sizes| {
      EndsFitKnown(sizes, chunks, stsc, |chunks|);
      return Err(SampleCountMismatch);
    }
    return Ok(offsets);
  }

  // The samples that have a size end below 2^64.
  ghost predicate KnownEndsFit(sizes: seq<nat>, chunks: seq<nat>, stsc: seq<StscEntry>, count: nat)
    requires stsc != [] && count <= |chunks|
  {
    forall c: nat, i: nat :: c < count && i < |sizes| && LiesIn(stsc, i, c) ==>
      Placed(sizes, chunks, stsc, i, c) + sizes[i] <= U64_MAX
  }

  // Why the expansion fails, if it does.
  ghost function ExpandError(sizes: seq<nat>, chunks: seq<nat>, stsc: seq<StscEntry>): Mp4Error
    requires stsc != []
  {
    if KnownEndsFit(sizes, chunks, stsc, |chunks|) then SampleCountMismatch else IntegerOverflow
  }

  lemma EndsFitKnown(sizes: seq<nat>, chunks: seq<nat>, stsc: seq<StscEntry>, count: nat)
    requires stsc != [] && count <= |chunks|
    ensures EndsFit(sizes, chunks, stsc, count) ==> KnownEndsFit(sizes, chunks, stsc, count)
  {
    hide Placed;
  }

  // Later chunks hold no sample with a size once there are more samples than sizes.
  lemma KnownEndsLater(sizes: seq<nat>, chunks: seq<nat>, stsc: seq<StscEntry>, count: nat, more: nat)
    requires stsc != [] && count <= more <= |chunks|
    ensures KnownEndsFit(sizes, chunks, stsc, more) ==> KnownEndsFit(sizes, chunks, stsc, count)
    ensures SamplesBefore(stsc, count) > |sizes| && KnownEndsFit(sizes, chunks, stsc, count) ==>
      KnownEndsFit(sizes, chunks, stsc, more)
  {
    hide Placed, SamplesBefore;
    if SamplesBefore(stsc, count) > |sizes| && KnownEndsFit(sizes, chunks, stsc, count) {
      forall c: nat, i: nat | c < more && i < |sizes| && LiesIn(stsc, i, c)
        ensures Placed(sizes, chunks, stsc, i, c) + sizes[i] <= U64_MAX
      {
        if c >= count {
          SamplesBeforeGrows(stsc, count, c);
        }
      }
    }
  }

  lemma ChunkRun(stsc: seq<StscEntry>, position: nat)
    requires stsc != []
    ensures SamplesIn(stsc, position) == stsc[LastRunAt(stsc, position + 1, |stsc|)].samplesPerChunk
  {
  }

  lemma NothingPlaced(sizes: seq<nat>, chunks: seq<nat>, stsc: seq<StscEntry>)
    requires stsc != []
    ensures AllPlaced([], sizes, chunks, stsc, 0) && EndsFit(sizes, chunks, stsc, 0)
  {
  }

  lemma EndsFitEarlier(sizes: seq<nat>, chunks: seq<nat>, stsc: seq<StscEntry>, count: nat, more: nat)
    requires stsc != [] && count <= more <= |chunks|
    ensures EndsFit(sizes, chunks, stsc, more) ==> EndsFit(sizes, chunks, stsc, count)
  {
  }

  // The samples of one chunk, appended to those of the earlier ones.
  method ExpandChunk(sizes: seq<nat>, chunks: seq<nat>, stsc: seq<StscEntry>, chunk: nat, samplesPerChunk: nat,
                     earlier: seq<nat>) returns (r: Result<seq<nat>, Mp4Error>)
    requires stsc != [] && chunk < |chunks| && samplesPerChunk == SamplesIn(stsc, chunk)
    requires |earlier| == SamplesBefore(stsc, chunk) <= |sizes|
    requires AllPlaced(earlier, sizes, chunks, stsc, chunk) && EndsFit(sizes, chunks, stsc, chunk)
    ensures r.Ok? ==> && |r.value| == SamplesBefore(stsc, chunk + 1) <= |sizes|
                      && AllPlaced(r.value, sizes, chunks, stsc, chunk + 1) && EndsFit(sizes, chunks, stsc, chunk + 1)
    ensures r.Err? ==> !EndsFit(sizes, chunks, stsc, chunk + 1)
    ensures r.Err? && KnownEndsFit(sizes, chunks, stsc, chunk + 1) ==>
      r.error == SampleCountMismatch && SamplesBefore(stsc, chunk + 1) > |sizes|
    ensures r.Err? && !KnownEndsFit(sizes, chunks, stsc, chunk + 1) ==> r.error == IntegerOverflow
  {
    hide AllPlaced, EndsFit, Sum, KnownEndsFit;
    var offsets := earlier;
    var offset := chunks[chunk];
    PlacedFirst(sizes, chunks, stsc, chunk);
    var sampleIndex := |earlier|;
    for k := 0 to samplesPerChunk
      invariant sampleIndex == |offsets| == |earlier| + k <= |sizes|
      invariant offset == Placed(sizes, chunks, stsc, sampleIndex, chunk)
      invariant forall i: nat :: i < |earlier| ==> offsets[i] == earlier[i]
      invariant forall i: nat :: |earlier| <= i < sampleIndex ==>
        offsets[i] == Placed(sizes, chunks, stsc, i, chunk) && offsets[i] + sizes[i] <= U64_MAX
    {
      if sampleIndex >= |sizes| {
        DoesNotFit(sizes, chunks, stsc, chunk, sampleIndex);
        KnownPlaced(sizes, chunks, stsc, chunk, offsets);
        return Err(SampleCountMismatch);
      }
      PlacedNext(sizes, chunks, stsc, chunk, sampleIndex);
      var size := sizes[sampleIndex];
      offsets := offsets + [offset];
      if offset + size > U64_MAX {
        DoesNotFit(sizes, chunks, stsc, chunk, sampleIndex);
        return Err(IntegerOverflow);
      }
      offset := offset + size;
      sampleIndex := sampleIndex + 1;
    }
    ChunkPlaced(sizes, chunks, stsc, chunk, earlier, offsets);
    return Ok(offsets);
  }

  lemma PlacedFirst(sizes: seq<nat>, chunks: seq<nat>, stsc: seq<StscEntry>, chunk: nat)
    requires stsc != [] && chunk < |chunks| && SamplesBefore(stsc, chunk) <= |sizes|
    ensures Placed(sizes, chunks, stsc, SamplesBefore(stsc, chunk), chunk) == chunks[chunk]
  {
  }

  lemma PlacedNext(sizes: seq<nat>, chunks: seq<nat>, stsc: seq<StscEntry>, chunk: nat, i: nat)
    requires stsc != [] && chunk < |chunks| && SamplesBefore(stsc, chunk) <= i < |sizes|
    ensures Placed(sizes, chunks, stsc, i + 1, chunk) == Placed(sizes, chunks, stsc, i, chunk) + sizes[i]
  {
  }

  lemma DoesNotFit(sizes: seq<nat>, chunks: seq<nat>, stsc: seq<StscEntry>, chunk: nat, i: nat)
    requires stsc != [] && chunk < |chunks| && LiesIn(stsc, i, chunk)
    requires i >= |sizes| || Placed(sizes, chunks, stsc, i, chunk) + sizes[i] > U64_MAX
    ensures !EndsFit(sizes, chunks, stsc, chunk + 1)
    ensures i < |sizes| ==> !KnownEndsFit(sizes, chunks, stsc, chunk + 1)
  {
  }

  // All sizes are used up within the chunk.
  lemma KnownPlaced(sizes: seq<nat>, chunks: seq<nat>, stsc: seq<StscEntry>, chunk: nat, offsets: seq<nat>)
    requires stsc != [] && chunk < |chunks| && EndsFit(sizes, chunks, stsc, chunk)
    requires SamplesBefore(stsc, chunk) <= |offsets| == |sizes|
    requires forall i: nat :: SamplesBefore(stsc, chunk) <= i < |offsets| ==>
      offsets[i] == Placed(sizes, chunks, stsc, i, chunk) && offsets[i] + sizes[i] <= U64_MAX
    ensures KnownEndsFit(sizes, chunks, stsc, chunk + 1)
  {
    hide SamplesBefore, Sum;
    forall c: nat, i: nat | c < chunk + 1 && i < |sizes| && LiesIn(stsc, i, c)
      ensures Placed(sizes, chunks, stsc, i, c) + sizes[i] <= U64_MAX
    {
    }
  }

  // One more chunk whose samples are placed.
  lemma ChunkPlaced(sizes: seq<nat>, chunks: seq<nat>, stsc: seq<StscEntry>, chunk: nat, earlier: seq<nat>,
                    offsets: seq<nat>)
    requires stsc != [] && chunk < |chunks|
    requires |earlier| == SamplesBefore(stsc, chunk) <= |offsets| == SamplesBefore(stsc, chunk + 1) <= |sizes|
    requires AllPlaced(earlier, sizes, chunks, stsc, chunk) && EndsFit(sizes, chunks, stsc, chunk)
    requires forall i: nat :: i < |earlier| ==> offsets[i] == earlier[i]
    requires forall i: nat :: |earlier| <= i < |offsets| ==>
      offsets[i] == Placed(sizes, chunks, stsc, i, chunk) && offsets[i] + sizes[i] <= U64_MAX
    ensures AllPlaced(offsets, sizes, chunks, stsc, chunk + 1) && EndsFit(sizes, chunks, stsc, chunk + 1)
  {
    hide SamplesBefore, Sum;
    forall c: nat, i: nat | c < chunk + 1 && LiesIn(stsc, i, c)
      ensures i < |sizes| && i < |offsets| && offsets[i] == Placed(sizes, chunks, stsc, i, c)
      ensures Placed(sizes, chunks, stsc, i, c) + sizes[i] <= U64_MAX
    {
      if c < chunk {
        SamplesBeforeGrows(stsc, c + 1, chunk);
      }
    }
  }

  // The samples of a chunk lie end to end from the start of the chunk on.
  lemma ChunkIsFilled(offsets: seq<nat>, sizes: seq<nat>, chunks: seq<nat>, stsc: seq<StscEntry>, c: nat, i: nat)
    requires stsc != [] && AllPlaced(offsets, sizes, chunks, stsc, |chunks|) && c < |chunks| && LiesIn(stsc, i, c)
    ensures i < |sizes| && i < |offsets|
    ensures i == SamplesBefore(stsc, c) ==> offsets[i] == chunks[c]
    ensures LiesIn(stsc, i + 1, c) ==> i + 1 < |offsets| && offsets[i + 1] == offsets[i] + sizes[i]
  {
    hide SamplesBefore;
    assert LiesIn(stsc, i + 1, c) ==> offsets[i + 1] == Placed(sizes, chunks, stsc, i + 1, c);
  }

  // A chunk holds as many samples as the run of chunks says that it belongs to, and they come
  // after those of the chunks before it.
  lemma ChunkHolds(stsc: seq<StscEntry>, c: nat, k: nat)
    requires IsChunkTable(stsc) && k < |stsc|
    requires stsc[k].firstChunk <= c + 1 && (k + 1 < |stsc| ==> c + 1 < stsc[k + 1].firstChunk)
    ensures SamplesBefore(stsc, 0) == 0
    ensures SamplesBefore(stsc, c + 1) == SamplesBefore(stsc, c) + stsc[k].samplesPerChunk
  {
    assert forall i :: k < i < |stsc| ==> c + 1 < stsc[i].firstChunk;
    assert LastRunAt(stsc, c + 1, |stsc|) == k;
  }

  // When the chunks hold as many samples as there are sizes, every sample lies in exactly
  // one chunk, so the offsets are determined.
  lemma {:induction false} EverySampleHasAChunk(stsc: seq<StscEntry>, chunks: nat, i: nat) returns (c: nat)
    requires stsc != [] && i < SamplesBefore(stsc, chunks)
    ensures c < chunks && LiesIn(stsc, i, c)
    ensures forall d: nat :: LiesIn(stsc, i, d) ==> d == c
    decreases chunks
  {
    if SamplesBefore(stsc, chunks - 1) <= i {
      c := chunks - 1;
    } else {
      c := EverySampleHasAChunk(stsc, chunks - 1, i);
    }
    forall d: nat | LiesIn(stsc, i, d)
      ensures d == c
    {
      OneChunkOnly(stsc, i, c, d);
    }
  }

  lemma OneChunkOnly(stsc: seq<StscEntry>, i: nat, c: nat, d: nat)
    requires stsc != [] && LiesIn(stsc, i, c) && LiesIn(stsc, i, d)
    ensures c == d
  {
    hide SamplesBefore;
    if d < c {
      SamplesBeforeGrows(stsc, d + 1, c);
    } else if c < d {
      SamplesBeforeGrows(stsc, c + 1, d);
    }
  }
}
