/** The tables of a track as bytes (ISO/IEC 14496-12): whatever fields stand at their places, the
    parser finds them again. */
module TableBytes {
  import opened Arithmetic
  import opened ByteStrings
  import opened Wrappers
  import opened Mp4Boxes
  import opened SampleTables
  import opened TrackParser
  import opened VideoTracks

  // A 32-bit number, and a 64-bit one, big-endian, at this place.
  ghost predicate WordAt(data: seq<Byte>, offset: nat, n: nat)
  {
    n < 0x1_0000_0000 && offset + 4 <= |data| && data[offset..offset + 4] == Encoded(n, 4)
  }

  ghost predicate LongAt(data: seq<Byte>, offset: nat, n: nat)
  {
    n < 0x1_0000_0000_0000_0000 && offset + 8 <= |data| && data[offset..offset + 8] == Encoded(n, 8)
  }

  lemma WordRead(data: seq<Byte>, offset: nat, n: nat)
    requires WordAt(data, offset, n)
    ensures Entry(data, offset) == Ok(n) && Readable(data, offset) && NumberAt(data, offset) == n
    ensures ReadU32(data, offset) == Some(n)
  {
    hide Encoded, BigEndian;
    Pow256Words();
    EncodedBack(n, 4);
  }

  lemma LongRead(data: seq<Byte>, offset: nat, n: nat)
    requires LongAt(data, offset, n)
    ensures ReadU64(data, offset) == Some(n)
  {
    hide Encoded, BigEndian;
    Pow256Words();
    EncodedBack(n, 8);
  }

  // Whatever can be read is a number at its place.
  lemma ReadWord(data: seq<Byte>, offset: nat)
    ensures Readable(data, offset) ==> WordAt(data, offset, NumberAt(data, offset))
    ensures forall n :: Entry(data, offset) == Ok(n) ==> WordAt(data, offset, n)
  {
    hide Encoded, BigEndian;
    Pow256Words();
    if offset + 4 <= |data| {
      BigEndianBack(data[offset..offset + 4]);
    }
  }

  lemma ReadLong(data: seq<Byte>, offset: nat, n: nat)
    requires ReadU64(data, offset) == Some(n)
    ensures LongAt(data, offset, n)
  {
    hide Encoded, BigEndian;
    Pow256Words();
    BigEndianBack(data[offset..offset + 8]);
  }

  // Numbers written one after the other stand at their places.
  function Words(numbers: seq<nat>): (r: seq<Byte>)
    ensures |r| == 4 * |numbers|
  {
    if numbers == [] then [] else Words(numbers[..|numbers| - 1]) + Encoded(numbers[|numbers| - 1], 4)
  }

  lemma {:induction false} WordsStand(head: seq<Byte>, numbers: seq<nat>, rest: seq<Byte>, i: nat)
    requires i < |numbers| && numbers[i] < 0x1_0000_0000
    ensures WordAt(head + Words(numbers) + rest, |head| + 4 * i, numbers[i])
  {
    hide Encoded;
    var k := |numbers| - 1;
    var data, offset := head + Words(numbers) + rest, |head| + 4 * i;
    if i < k {
      WordsStand(head, numbers[..k], Encoded(numbers[k], 4) + rest, i);
      assert data == head + Words(numbers[..k]) + (Encoded(numbers[k], 4) + rest);
    } else {
      assert data[offset..offset + 4] == Encoded(numbers[k], 4);
    }
  }

  // ---------------------------------------------------------------- the media header

  // Version 0 has the timescale at 12 and a duration of 32 bits at 16; version 1 has it at 20
  // and a duration of 64 bits at 24.
  lemma MediaHeaderBack(data: seq<Byte>, timescale: nat, duration: nat)
    requires data != [] && timescale > 0
    requires || (data[0] == 0 && WordAt(data, 12, timescale) && WordAt(data, 16, duration))
             || (data[0] == 1 && WordAt(data, 20, timescale) && LongAt(data, 24, duration))
    ensures ParseMdhd(data) == Ok((timescale, duration))
  {
    hide WordAt, LongAt, Entry, ReadU64;
    if data[0] == 0 {
      WordRead(data, 12, timescale);
      WordRead(data, 16, duration);
    } else {
      WordRead(data, 20, timescale);
      LongRead(data, 24, duration);
    }
  }

  // The serialised headers, with whatever stands before and after.
  lemma MediaHeaderWritten(head: seq<Byte>, timescale: nat, duration: nat, rest: seq<Byte>)
    requires 0 < timescale < 0x1_0000_0000
    ensures |head| == 12 && head[0] == 0 && duration < 0x1_0000_0000 ==>
      ParseMdhd(head + Encoded(timescale, 4) + Encoded(duration, 4) + rest) == Ok((timescale, duration))
    ensures |head| == 20 && head[0] == 1 && duration < 0x1_0000_0000_0000_0000 ==>
      ParseMdhd(head + Encoded(timescale, 4) + Encoded(duration, 8) + rest) == Ok((timescale, duration))
  {
    hide Encoded, ParseMdhd;
    var short, long := Encoded(duration, 4), Encoded(duration, 8);
    if |head| == 12 && head[0] == 0 && duration < 0x1_0000_0000 {
      var data := head + Encoded(timescale, 4) + short + rest;
      assert data[12..16] == Encoded(timescale, 4) && data[16..20] == short;
      MediaHeaderBack(data, timescale, duration);
    }
    if |head| == 20 && head[0] == 1 && duration < 0x1_0000_0000_0000_0000 {
      var data := head + Encoded(timescale, 4) + long + rest;
      assert data[20..24] == Encoded(timescale, 4) && data[24..32] == long;
      MediaHeaderBack(data, timescale, duration);
    }
  }

  // The exact condition of each error.
  lemma MediaHeaderErrors(data: seq<Byte>)
    ensures ParseMdhd(data) == Err(Truncated)
       <==> data == [] || (data[0] == 0 && |data| < 20) || (data[0] == 1 && |data| < 32)
    ensures ParseMdhd(data) == Err(InvalidTable("mdhd version")) <==> data != [] && data[0] > 1
    ensures ParseMdhd(data) == Err(InvalidTable("zero timescale"))
       <==> data != [] && ((data[0] == 0 && |data| >= 20 && data[12..16] == [0, 0, 0, 0]) ||
                           (data[0] == 1 && |data| >= 32 && data[20..24] == [0, 0, 0, 0]))
    ensures ParseMdhd(data).Err? ==>
      ParseMdhd(data).error in {Truncated, InvalidTable("mdhd version"), InvalidTable("zero timescale")}
  {
    hide BigEndian;
    if |data| >= 24 {
      ZeroBytes(data[20..24]);
      assert ReadU32(data, 20) == Some(BigEndian(data[20..24]));
    }
    if |data| >= 16 {
      ZeroBytes(data[12..16]);
      assert ReadU32(data, 12) == Some(BigEndian(data[12..16]));
    }
  }

  lemma ZeroBytes(bytes: seq<Byte>)
    requires |bytes| == 4
    ensures BigEndian(bytes) == 0 <==> bytes == [0, 0, 0, 0]
  {
    var zeros: seq<Byte> := [0, 0, 0, 0];
    BigEndianBack(bytes);
    assert Encoded(0, 4) == zeros by {
      assert Encoded(0, 1) == [0] && Encoded(0, 2) == [0, 0] && Encoded(0, 3) == [0, 0, 0];
    }
    Pow256Words();
    EncodedBack(0, 4);
  }

  // ---------------------------------------------------------------- the codec

  // One entry in the table of sample descriptions, of one of two kinds.
  lemma CodecBack(data: seq<Byte>, kind: seq<Byte>, size: nat)
    requires WordAt(data, 4, 1) && WordAt(data, 8, size) && 8 <= size <= |data| - 8
    requires |data| >= 16 && data[12..16] == kind
    ensures ParseVideoCodec(data)
         == if kind == [0x61, 0x76, 0x63, 0x31] || kind == [0x61, 0x76, 0x63, 0x33] then Ok(kind)
            else Err(UnsupportedCodec(kind))
  {
    hide WordAt, Entry, ReadU32;
    WordRead(data, 4, 1);
    var entry := data[8..];
    assert WordAt(entry, 0, size) by {
      SuffixWord(data, 8, 0, size);
    }
    WordRead(entry, 0, size);
    assert entry[4..8] == data[12..16];
  }

  lemma SuffixWord(data: seq<Byte>, start: nat, offset: nat, n: nat)
    requires WordAt(data, start + offset, n)
    ensures WordAt(data[start..], offset, n)
  {
    hide Encoded;
    assert data[start..][offset..offset + 4] == data[start + offset..start + offset + 4];
  }

  // The exact condition of each error.
  lemma CodecErrors(data: seq<Byte>)
    ensures ParseVideoCodec(data) == Err(InvalidTable("stsd entry count"))
       <==> |data| >= 8 && !WordAt(data, 4, 1)
    ensures ParseVideoCodec(data) == Err(Truncated)
       <==> |data| < 8 || (|data| < 16 && WordAt(data, 4, 1))
    ensures ParseVideoCodec(data) == Err(InvalidTable("stsd entry size"))
       <==> |data| >= 16 && WordAt(data, 4, 1) &&
            forall size: nat :: WordAt(data, 8, size) ==> size < 8 || size > |data| - 8
  {
    hide Encoded, BigEndian, WordAt;
    ReadWord(data, 4);
    ReadWord(data, 8);
    if |data| >= 8 {
      assert Entry(data, 4).Ok?;
      if WordAt(data, 4, 1) {
        WordRead(data, 4, 1);
      }
    }
    if |data| >= 16 {
      var size := NumberAt(data, 8);
      assert ReadU32(data[8..], 0) == ReadU32(data, 8) by {
        assert data[8..][0..4] == data[8..12];
      }
      forall other: nat | WordAt(data, 8, other)
        ensures other == size
      {
        WordRead(data, 8, other);
      }
    }
  }

  // ---------------------------------------------------------------- sizes

  // A size for each sample, or one for all.
  lemma SizesBack(data: seq<Byte>, fixedSize: nat, sizes: seq<nat>)
    requires WordAt(data, 4, fixedSize) && WordAt(data, 8, |sizes|)
    requires forall i: nat :: i < |sizes| ==>
      if fixedSize == 0 then WordAt(data, 12 + i * 4, sizes[i]) else sizes[i] == fixedSize
    ensures SizesReadable(data) && SizesAre(data, sizes)
  {
    hide WordAt, Readable, NumberAt;
    WordRead(data, 4, fixedSize);
    WordRead(data, 8, |sizes|);
    forall i: nat | i < |sizes| && fixedSize == 0
      ensures Readable(data, 12 + i * 4) && NumberAt(data, 12 + i * 4) == sizes[i]
    {
      WordRead(data, 12 + i * 4, sizes[i]);
    }
  }

  // And only then.
  lemma SizesOnly(data: seq<Byte>, sizes: seq<nat>)
    requires SizesReadable(data) && SizesAre(data, sizes)
    ensures WordAt(data, 4, NumberAt(data, 4)) && WordAt(data, 8, |sizes|)
    ensures forall i: nat :: i < |sizes| ==>
      if NumberAt(data, 4) == 0 then WordAt(data, 12 + i * 4, sizes[i]) else sizes[i] == NumberAt(data, 4)
  {
    hide WordAt, Readable, NumberAt;
    ReadWord(data, 4);
    ReadWord(data, 8);
    forall i: nat | i < |sizes| && NumberAt(data, 4) == 0
      ensures WordAt(data, 12 + i * 4, sizes[i])
    {
      ReadWord(data, 12 + i * 4);
    }
  }

  // ---------------------------------------------------------------- runs

  // So many samples in a row with one value.
  datatype Run<T> = Run(count: nat, value: T)

  function Expanded<T>(runs: seq<Run<T>>): seq<T>
  {
    if runs == [] then []
    else Expanded(runs[..|runs| - 1]) + Repeat(runs[|runs| - 1].value, runs[|runs| - 1].count)
  }

  // The table of durations: pairs of a count and a duration.
  ghost predicate HoldsDurations(data: seq<Byte>, runs: seq<Run<nat>>)
  {
    && WordAt(data, 4, |runs|)
    && forall k: nat :: k < |runs| ==>
         && runs[k].count > 0 && runs[k].value > 0
         && WordAt(data, 8 + 8 * k, runs[k].count) && WordAt(data, 8 + 8 * k + 4, runs[k].value)
  }

  lemma {:induction false} DurationsUpToBack(data: seq<Byte>, runs: seq<Run<nat>>, k: nat)
    requires HoldsDurations(data, runs) && k <= |runs|
    ensures DurationsUpTo(data, |Expanded(runs)|, k) == Ok(Expanded(runs[..k]))
  {
    hide WordAt, Entry, Expanded, Repeat;
    ExpandedPrefix(runs, k);
    if k == 0 {
      ExpandedNothing<nat>();
    } else {
      var n := k - 1;
      DurationsUpToBack(data, runs, n);
      ExpandedNext(runs, n);
      WordRead(data, 8 + 8 * n, runs[n].count);
      WordRead(data, 8 + 8 * n + 4, runs[n].value);
    }
  }

  lemma ExpandedNothing<T>()
    ensures Expanded<T>([]) == []
  {
  }

  lemma ExpandedNext<T>(runs: seq<Run<T>>, k: nat)
    requires k < |runs|
    ensures Expanded(runs[..k + 1]) == Expanded(runs[..k]) + Repeat(runs[k].value, runs[k].count)
  {
    assert runs[..k + 1][..k] == runs[..k];
  }

  lemma {:induction false} ExpandedPrefix<T>(runs: seq<Run<T>>, k: nat)
    requires k <= |runs|
    ensures |Expanded(runs[..k])| <= |Expanded(runs)|
    decreases |runs| - k
  {
    if k < |runs| {
      ExpandedNext(runs, k);
      ExpandedPrefix(runs, k + 1);
    } else {
      assert runs[..k] == runs;
    }
  }

  // Every sample has the duration of its run.
  lemma DurationsBack(data: seq<Byte>, runs: seq<Run<nat>>)
    requires HoldsDurations(data, runs)
    ensures Stts(data, |Expanded(runs)|) == Ok(Expanded(runs))
  {
    hide WordAt, Entry, Expanded, DurationsUpTo;
    WordRead(data, 4, |runs|);
    DurationsUpToBack(data, runs, |runs|);
    assert runs[..|runs|] == runs;
  }

  function DurationRuns(data: seq<Byte>, count: nat): (runs: seq<Run<nat>>)
    ensures |runs| == count
    ensures forall k :: 0 <= k < count ==> runs[k] == Run(NumberAt(data, 8 + k * 8), NumberAt(data, 8 + k * 8 + 4))
  {
    if count == 0 then []
    else DurationRuns(data, count - 1) +
         [Run(NumberAt(data, 8 + (count - 1) * 8), NumberAt(data, 8 + (count - 1) * 8 + 4))]
  }

  // A table of durations that is accepted holds runs, and is expanded to them.
  lemma DurationsOnly(data: seq<Byte>, sampleCount: nat) returns (runs: seq<Run<nat>>)
    requires Stts(data, sampleCount).Ok?
    ensures HoldsDurations(data, runs) && Stts(data, sampleCount) == Ok(Expanded(runs))
  {
    hide WordAt, Stts, Expanded, NumberAt, Readable, DurationsAre;
    SttsMeans(data, sampleCount);
    runs := DurationRuns(data, NumberAt(data, 4));
    ReadWord(data, 4);
    forall k: nat | k < |runs|
      ensures runs[k].count > 0 && runs[k].value > 0
      ensures WordAt(data, 8 + 8 * k, runs[k].count) && WordAt(data, 8 + 8 * k + 4, runs[k].value)
    {
      assert DurationRunFits(data, k) && 8 + k * 8 == 8 + 8 * k;
      ReadWord(data, 8 + k * 8);
      ReadWord(data, 8 + k * 8 + 4);
    }
    DurationsBack(data, runs);
    SameStts(data, sampleCount, |Expanded(runs)|);
  }

  // The sample count is no more than compared.
  lemma SameStts(data: seq<Byte>, sampleCount: nat, other: nat)
    requires Stts(data, sampleCount).Ok? && Stts(data, other).Ok?
    ensures sampleCount == other
  {
    hide Stts, DurationsAre, DurationRunFits;
    SttsMeans(data, sampleCount);
    SttsMeans(data, other);
  }

  // The two's complement of a 32-bit number.
  function Complement(n: int): nat
    requires -0x8000_0000 <= n < 0x8000_0000
  {
    if n < 0 then n + 0x1_0000_0000 else n
  }

  // The table of composition offsets: pairs of a count and a signed offset.
  ghost predicate HoldsOffsets(data: seq<Byte>, runs: seq<Run<int>>)
  {
    && data != [] && data[0] <= 1 && WordAt(data, 4, |runs|)
    && forall k: nat :: k < |runs| ==>
         && runs[k].count > 0 && -0x8000_0000 <= runs[k].value < 0x8000_0000
         && WordAt(data, 8 + k * 8, runs[k].count) && WordAt(data, 8 + k * 8 + 4, Complement(runs[k].value))
  }

  lemma OffsetRunBack(data: seq<Byte>, runs: seq<Run<int>>, k: nat)
    requires HoldsOffsets(data, runs) && k < |runs|
    ensures RunReadable(data, k) && NumberAt(data, 8 + k * 8) == runs[k].count
    ensures RawOffset(data, k) == Complement(runs[k].value)
  {
    hide WordAt, NumberAt, Readable;
    WordRead(data, 8 + k * 8, runs[k].count);
    WordRead(data, 8 + k * 8 + 4, Complement(runs[k].value));
  }

  // Any signed offsets are read back, in both versions: a negative one makes the table signed.
  lemma OffsetsBack(data: seq<Byte>, runs: seq<Run<int>>)
    requires HoldsOffsets(data, runs)
    ensures RunsFit(data, |Expanded(runs)|)
    ensures OffsetsAre(data, OffsetsSigned(data), Expanded(runs), NumberAt(data, 4))
  {
    hide WordAt, NumberAt, Readable, Expanded, RawOffset, OffsetsAre;
    WordRead(data, 4, |runs|);
    forall k: nat | k < |runs|
      ensures RunReadable(data, k) && RawOffset(data, k) == Complement(runs[k].value)
    {
      OffsetRunBack(data, runs, k);
    }
    OffsetsUpToBack(data, runs, |runs|);
    assert runs[..|runs|] == runs;
  }

  lemma {:induction false} OffsetsUpToBack(data: seq<Byte>, runs: seq<Run<int>>, k: nat)
    requires HoldsOffsets(data, runs) && k <= |runs| && NumberAt(data, 4) == |runs|
    ensures RunStart(data, k) == |Expanded(runs[..k])|
    ensures OffsetsAre(data, OffsetsSigned(data), Expanded(runs[..k]), k)
  {
    hide WordAt, NumberAt, Readable, Expanded, RawOffset, OffsetsAre, Repeat, OffsetsSigned;
    if k == 0 {
      ExpandedNothing<int>();
      NoOffsets(data, OffsetsSigned(data));
    } else {
      var n := k - 1;
      OffsetsUpToBack(data, runs, n);
      OffsetRunBack(data, runs, n);
      ExpandedNext(runs, n);
      OffsetsSnoc(data, OffsetsSigned(data), Expanded(runs[..n]), n);
      OneOffsetBack(data, runs, n);
    }
  }

  lemma OneOffsetBack(data: seq<Byte>, runs: seq<Run<int>>, k: nat)
    requires HoldsOffsets(data, runs) && k < |runs| && NumberAt(data, 4) == |runs|
    ensures CompositionOffset(RawOffset(data, k), OffsetsSigned(data)) == runs[k].value
  {
    hide WordAt, NumberAt, Readable, RawOffset;
    OffsetRunBack(data, runs, k);
  }

  function OffsetRuns(data: seq<Byte>, count: nat): (runs: seq<Run<int>>)
    ensures |runs| == count
    ensures forall k :: 0 <= k < count ==>
      runs[k] == Run(NumberAt(data, 8 + k * 8), CompositionOffset(RawOffset(data, k), true))
  {
    if count == 0 then []
    else OffsetRuns(data, count - 1) +
         [Run(NumberAt(data, 8 + (count - 1) * 8), CompositionOffset(RawOffset(data, count - 1), true))]
  }

  // A table of offsets that is accepted holds runs of signed offsets, as many as samples.
  lemma OffsetsOnly(data: seq<Byte>, sampleCount: nat) returns (runs: seq<Run<int>>)
    requires RunsFit(data, sampleCount)
    ensures HoldsOffsets(data, runs) && |Expanded(runs)| == sampleCount
  {
    hide WordAt, Expanded, NumberAt, Readable, RawOffset, RunStart;
    runs := OffsetRuns(data, NumberAt(data, 4));
    ReadWord(data, 4);
    forall k: nat | k < |runs|
      ensures runs[k].count > 0 && -0x8000_0000 <= runs[k].value < 0x8000_0000
      ensures WordAt(data, 8 + k * 8, runs[k].count) && WordAt(data, 8 + k * 8 + 4, Complement(runs[k].value))
    {
      OneOffsetRun(data, k);
    }
    OffsetsBack(data, runs);
  }

  lemma OneOffsetRun(data: seq<Byte>, k: nat)
    requires RunReadable(data, k)
    ensures var value := CompositionOffset(RawOffset(data, k), true);
      && -0x8000_0000 <= value < 0x8000_0000
      && WordAt(data, 8 + k * 8, NumberAt(data, 8 + k * 8)) && WordAt(data, 8 + k * 8 + 4, Complement(value))
  {
    hide Readable, NumberAt;
    ReadWord(data, 8 + k * 8);
    ReadWord(data, 8 + k * 8 + 4);
  }

  // ---------------------------------------------------------------- sync samples

  ghost predicate HoldsSyncs(data: seq<Byte>, numbers: seq<nat>, sampleCount: nat)
  {
    && WordAt(data, 4, |numbers|)
    && (forall k: nat :: k < |numbers| ==> WordAt(data, 8 + k * 4, numbers[k]) && 0 < numbers[k] <= sampleCount)
    && (forall j: nat, k: nat :: j < k < |numbers| ==> numbers[j] < numbers[k])
  }

  // A sample is a sync sample exactly when its number, counted from one, is listed.
  lemma SyncsBack(data: seq<Byte>, numbers: seq<nat>, sync: seq<bool>)
    requires HoldsSyncs(data, numbers, |sync|)
    requires forall i :: 0 <= i < |sync| ==> (sync[i] <==> i + 1 in numbers)
    ensures Readable(data, 4) && SyncsFit(data, |sync|, NumberAt(data, 4)) && SyncsAre(data, sync, NumberAt(data, 4))
  {
    hide WordAt, Readable, NumberAt;
    WordRead(data, 4, |numbers|);
    forall k: nat | k < |numbers|
      ensures Readable(data, 8 + k * 4) && SyncNumber(data, k) == numbers[k]
    {
      WordRead(data, 8 + k * 4, numbers[k]);
    }
  }

  function SyncNumbers(data: seq<Byte>, count: nat): (numbers: seq<nat>)
    ensures |numbers| == count && forall k :: 0 <= k < count ==> numbers[k] == SyncNumber(data, k)
  {
    if count == 0 then [] else SyncNumbers(data, count - 1) + [SyncNumber(data, count - 1)]
  }

  // And only then.
  lemma SyncsOnly(data: seq<Byte>, sync: seq<bool>) returns (numbers: seq<nat>)
    requires Readable(data, 4) && SyncsFit(data, |sync|, NumberAt(data, 4)) && SyncsAre(data, sync, NumberAt(data, 4))
    ensures HoldsSyncs(data, numbers, |sync|)
    ensures forall i :: 0 <= i < |sync| ==> (sync[i] <==> i + 1 in numbers)
  {
    hide WordAt, Readable, NumberAt;
    numbers := SyncNumbers(data, NumberAt(data, 4));
    ReadWord(data, 4);
    forall k: nat | k < |numbers|
      ensures WordAt(data, 8 + k * 4, numbers[k])
    {
      ReadWord(data, 8 + k * 4);
    }
    forall i | 0 <= i < |sync|
      ensures sync[i] <==> i + 1 in numbers
    {
      if sync[i] {
        var k: nat :| k < |numbers| && SyncNumber(data, k) == i + 1;
        assert numbers[k] == i + 1;
      }
    }
  }

  // ---------------------------------------------------------------- chunks

  // The table of runs of chunks: first chunk, samples per chunk, and the number of the only
  // sample description.
  ghost predicate HoldsChunkRuns(data: seq<Byte>, entries: seq<StscEntry>)
  {
    && WordAt(data, 4, |entries|)
    && forall k: nat :: k < |entries| ==>
         && WordAt(data, 8 + 12 * k, entries[k].firstChunk) && WordAt(data, 8 + 12 * k + 4, entries[k].samplesPerChunk)
         && WordAt(data, 8 + 12 * k + 8, 1)
  }

  lemma {:induction false} ChunkRunsUpToBack(data: seq<Byte>, entries: seq<StscEntry>, k: nat)
    requires HoldsChunkRuns(data, entries) && IsChunkTable(entries) && k <= |entries|
    ensures ChunkRunsUpTo(data, k) == Ok(entries[..k])
  {
    hide WordAt, Entry;
    if k > 0 {
      var n := k - 1;
      ChunkRunsUpToBack(data, entries, n);
      WordRead(data, 8 + 12 * n, entries[n].firstChunk);
      WordRead(data, 8 + 12 * n + 4, entries[n].samplesPerChunk);
      WordRead(data, 8 + 12 * n + 8, 1);
      assert entries[..k] == entries[..n] + [entries[n]];
      assert n > 0 ==> entries[n - 1].firstChunk < entries[n].firstChunk;
    }
  }

  lemma ChunkRunsBack(data: seq<Byte>, entries: seq<StscEntry>)
    requires HoldsChunkRuns(data, entries) && entries != [] && entries[0].firstChunk == 1
    requires forall k :: 0 <= k < |entries| ==> entries[k].firstChunk > 0 && entries[k].samplesPerChunk > 0
    requires forall j, k :: 0 <= j < k < |entries| ==> entries[j].firstChunk < entries[k].firstChunk
    ensures Stsc(data) == Ok(entries)
  {
    hide WordAt, Entry, ChunkRunsUpTo;
    WordRead(data, 4, |entries|);
    ChunkRunsUpToBack(data, entries, |entries|);
    assert entries[..|entries|] == entries;
  }

  // And only then.
  lemma ChunkRunsOnly(data: seq<Byte>, entries: seq<StscEntry>)
    requires Stsc(data) == Ok(entries)
    ensures HoldsChunkRuns(data, entries) && IsChunkTable(entries)
  {
    hide WordAt, Stsc, NumberAt, Readable;
    StscMeans(data);
    ReadWord(data, 4);
    forall k: nat | k < |entries|
      ensures WordAt(data, 8 + 12 * k, entries[k].firstChunk)
      ensures WordAt(data, 8 + 12 * k + 4, entries[k].samplesPerChunk) && WordAt(data, 8 + 12 * k + 8, 1)
    {
      assert ChunkRunFits(data, k) && entries[k] == ChunkRunAt(data, k) && 8 + k * 12 == 8 + 12 * k;
      ReadWord(data, 8 + k * 12);
      ReadWord(data, 8 + k * 12 + 4);
      ReadWord(data, 8 + k * 12 + 8);
    }
  }

  // The starts of the chunks, in 32 or 64 bits.
  lemma ChunkStartsBack(data: seq<Byte>, wide: bool, chunks: seq<nat>)
    requires WordAt(data, 4, |chunks|)
    requires forall i: nat :: i < |chunks| ==>
      if wide then LongAt(data, 8 + i * 8, chunks[i]) else WordAt(data, 8 + i * 4, chunks[i])
    ensures Readable(data, 4) && NumberAt(data, 4) == |chunks|
    ensures forall i: nat :: i < |chunks| ==> ChunkStart(data, wide, i) == Some(chunks[i])
  {
    hide WordAt, LongAt, Readable, NumberAt, ReadU32, ReadU64;
    WordRead(data, 4, |chunks|);
    forall i: nat | i < |chunks|
      ensures ChunkStart(data, wide, i) == Some(chunks[i])
    {
      if wide {
        LongRead(data, 8 + i * 8, chunks[i]);
      } else {
        WordRead(data, 8 + i * 4, chunks[i]);
      }
    }
  }

  // And only then.
  lemma ChunkStartsOnly(data: seq<Byte>, wide: bool, chunks: seq<nat>)
    requires Readable(data, 4) && NumberAt(data, 4) == |chunks|
    requires forall i: nat :: i < |chunks| ==> ChunkStart(data, wide, i) == Some(chunks[i])
    ensures WordAt(data, 4, |chunks|)
    ensures forall i: nat :: i < |chunks| ==>
      if wide then LongAt(data, 8 + i * 8, chunks[i]) else WordAt(data, 8 + i * 4, chunks[i])
  {
    hide WordAt, LongAt, Readable, NumberAt, ReadU32, ReadU64;
    ReadWord(data, 4);
    forall i: nat | i < |chunks|
      ensures if wide then LongAt(data, 8 + i * 8, chunks[i]) else WordAt(data, 8 + i * 4, chunks[i])
    {
      if wide {
        ReadLong(data, 8 + i * 8, chunks[i]);
      } else {
        ReadWord(data, 8 + i * 4);
      }
    }
  }

  // ---------------------------------------------------------------- all tables

  // What the table boxes say, field by field.
  datatype Content = Content(size: nat, fixedSize: nat, durations: seq<Run<nat>>, offsets: seq<Run<int>>,
                             syncs: seq<nat>, chunkRuns: seq<StscEntry>, chunks: seq<nat>)

  ghost predicate HoldsHeaders(raw: RawTables, tables: Tables, content: Content)
  {
    && raw.mdhd != [] && tables.timescale > 0
    && (|| (raw.mdhd[0] == 0 && WordAt(raw.mdhd, 12, tables.timescale) && WordAt(raw.mdhd, 16, tables.mediaDuration))
        || (raw.mdhd[0] == 1 && WordAt(raw.mdhd, 20, tables.timescale) && LongAt(raw.mdhd, 24, tables.mediaDuration)))
    && tables.editMediaTime == raw.editMediaTime
    && WordAt(raw.stsd, 4, 1) && WordAt(raw.stsd, 8, content.size) && 8 <= content.size <= |raw.stsd| - 8
    && |raw.stsd| >= 16 && raw.stsd[12..16] == tables.codec && tables.codec in {AVC1, AVC3}
  }

  ghost predicate HoldsSamples(raw: RawTables, tables: Tables, content: Content)
  {
    && WordAt(raw.stsz, 4, content.fixedSize) && WordAt(raw.stsz, 8, |tables.sizes|)
    && (forall i: nat :: i < |tables.sizes| ==>
          if content.fixedSize == 0 then WordAt(raw.stsz, 12 + i * 4, tables.sizes[i])
          else tables.sizes[i] == content.fixedSize)
    && HoldsDurations(raw.stts, content.durations) && tables.durations == Expanded(content.durations)
    && (match raw.ctts
        case None => forall i :: 0 <= i < |tables.compositionOffsets| ==> tables.compositionOffsets[i] == 0
        case Some(data) =>
          HoldsOffsets(data, content.offsets) && tables.compositionOffsets == Expanded(content.offsets))
    && (match raw.stss
        case None => forall i :: 0 <= i < |tables.sync| ==> tables.sync[i]
        case Some(data) =>
          && HoldsSyncs(data, content.syncs, |tables.sync|)
          && forall i :: 0 <= i < |tables.sync| ==> (tables.sync[i] <==> i + 1 in content.syncs))
  }

  ghost predicate HoldsPlaces(raw: RawTables, tables: Tables, content: Content)
  {
    && HoldsChunkRuns(raw.stsc, content.chunkRuns) && IsChunkTable(content.chunkRuns)
    && WordAt(raw.chunkOffsets, 4, |content.chunks|)
    && (forall i: nat :: i < |content.chunks| ==>
          if raw.chunkOffsetsAre64Bit then LongAt(raw.chunkOffsets, 8 + i * 8, content.chunks[i])
          else WordAt(raw.chunkOffsets, 8 + i * 4, content.chunks[i]))
    && SamplesBefore(content.chunkRuns, |content.chunks|) == |tables.sizes| == |tables.byteOffsets|
    && EndsFit(tables.sizes, content.chunks, content.chunkRuns, |content.chunks|)
    && AllPlaced(tables.byteOffsets, tables.sizes, content.chunks, content.chunkRuns, |content.chunks|)
  }

  // Boxes that hold these tables are parsed to them, and to no others.
  lemma TablesBack(raw: RawTables, tables: Tables, content: Content)
    requires tables.Valid() && HoldsHeaders(raw, tables, content)
    requires HoldsSamples(raw, tables, content) && HoldsPlaces(raw, tables, content)
    ensures TablesFrom(raw, tables)
    ensures forall other :: TablesFrom(raw, other) ==> other == tables
  {
    hide TablesFrom;
    assert TablesFrom(raw, tables) by {
      HeadersBack(raw, tables, content);
      SamplesBack(raw, tables, content);
      PlacesBack(raw, tables, content);
      TablesTogether(raw, tables);
    }
    forall other | TablesFrom(raw, other)
      ensures other == tables
    {
      TablesUnique(raw, tables, other);
    }
  }

  lemma TablesTogether(raw: RawTables, tables: Tables)
    requires tables.Valid()
    requires ParseMdhd(raw.mdhd) == Ok((tables.timescale, tables.mediaDuration))
    requires tables.editMediaTime == raw.editMediaTime && ParseVideoCodec(raw.stsd) == Ok(tables.codec)
    requires SizesReadable(raw.stsz) && SizesAre(raw.stsz, tables.sizes)
    requires Stts(raw.stts, |tables.sizes|) == Ok(tables.durations)
    requires OffsetsFrom(raw.ctts, tables.compositionOffsets) && SyncFrom(raw.stss, tables.sync)
    requires BytesFrom(raw, tables.sizes, tables.byteOffsets)
    ensures TablesFrom(raw, tables)
  {
  }

  lemma HeadersBack(raw: RawTables, tables: Tables, content: Content)
    requires HoldsHeaders(raw, tables, content)
    ensures ParseMdhd(raw.mdhd) == Ok((tables.timescale, tables.mediaDuration))
    ensures ParseVideoCodec(raw.stsd) == Ok(tables.codec) && tables.editMediaTime == raw.editMediaTime
  {
    hide WordAt, LongAt, ParseMdhd, ParseVideoCodec;
    MediaHeaderBack(raw.mdhd, tables.timescale, tables.mediaDuration);
    CodecBack(raw.stsd, tables.codec, content.size);
  }

  lemma SamplesBack(raw: RawTables, tables: Tables, content: Content)
    requires tables.Valid() && HoldsSamples(raw, tables, content)
    ensures SizesReadable(raw.stsz) && SizesAre(raw.stsz, tables.sizes)
    ensures Stts(raw.stts, |tables.sizes|) == Ok(tables.durations)
    ensures OffsetsFrom(raw.ctts, tables.compositionOffsets) && SyncFrom(raw.stss, tables.sync)
  {
    hide WordAt, SizesReadable, SizesAre, Stts, RunsFit, OffsetsAre, OffsetsSigned, SyncsFit, SyncsAre, Expanded;
    hide HoldsDurations, HoldsOffsets, HoldsSyncs;
    SizesBack(raw.stsz, content.fixedSize, tables.sizes);
    DurationsBack(raw.stts, content.durations);
    if raw.ctts.Some? {
      OffsetsBack(raw.ctts.value, content.offsets);
    }
    if raw.stss.Some? {
      SyncsBack(raw.stss.value, content.syncs, tables.sync);
    }
  }

  lemma PlacesBack(raw: RawTables, tables: Tables, content: Content)
    requires HoldsPlaces(raw, tables, content)
    ensures BytesFrom(raw, tables.sizes, tables.byteOffsets)
  {
    hide WordAt, LongAt, AllPlaced, EndsFit, Stsc, HoldsChunkRuns, ChunkStart, SamplesBefore;
    ChunkRunsBack(raw.stsc, content.chunkRuns);
    ChunkStartsBack(raw.chunkOffsets, raw.chunkOffsetsAre64Bit, content.chunks);
    assert PlacedFrom(raw, tables.sizes, tables.byteOffsets, content.chunks, content.chunkRuns);
  }

  // ---------------------------------------------------------------- and only these

  ghost predicate Holds(raw: RawTables, tables: Tables, content: Content)
  {
    HoldsHeaders(raw, tables, content) && HoldsSamples(raw, tables, content) && HoldsPlaces(raw, tables, content)
  }

  // Boxes are those of some tables if and only if the fields stand at their places.
  lemma TablesExactly(raw: RawTables, tables: Tables)
    requires tables.Valid()
    ensures TablesFrom(raw, tables) <==> exists content :: Holds(raw, tables, content)
  {
    hide TablesFrom, HoldsHeaders, HoldsSamples, HoldsPlaces;
    if content :| Holds(raw, tables, content) {
      TablesBack(raw, tables, content);
    }
    if TablesFrom(raw, tables) {
      var content := TablesOnly(raw, tables);
      assert Holds(raw, tables, content);
    }
  }

  lemma TablesOnly(raw: RawTables, tables: Tables) returns (content: Content)
    requires TablesFrom(raw, tables)
    ensures Holds(raw, tables, content)
  {
    hide ParseMdhd, ParseVideoCodec, SizesReadable, SizesAre, Stts, OffsetsFrom, SyncFrom, BytesFrom, HoldsHeaders;
    hide HoldsSamples, HoldsPlaces, NumberAt, Holds;
    var durations := DurationsOnly(raw.stts, |tables.sizes|);
    var offsets := OptionalOffsets(raw, tables);
    var syncs := OptionalSyncs(raw, tables);
    var chunks, stsc := PlacesOnly(raw, tables);
    content := Content(NumberAt(raw.stsd, 8), NumberAt(raw.stsz, 4), durations, offsets, syncs, stsc, chunks);
    HeadersOnly(raw, tables, content);
    SamplesOnly(raw, tables, content);
    PlacesTogether(raw, tables, content);
    assert Holds(raw, tables, content) by {
      HoldsTogether(raw, tables, content);
    }
  }

  lemma HoldsTogether(raw: RawTables, tables: Tables, content: Content)
    requires HoldsHeaders(raw, tables, content) && HoldsSamples(raw, tables, content)
    requires HoldsPlaces(raw, tables, content)
    ensures Holds(raw, tables, content)
  {
    hide HoldsHeaders, HoldsSamples, HoldsPlaces;
  }

  lemma HeadersOnly(raw: RawTables, tables: Tables, content: Content)
    requires ParseMdhd(raw.mdhd) == Ok((tables.timescale, tables.mediaDuration))
    requires ParseVideoCodec(raw.stsd) == Ok(tables.codec) && tables.editMediaTime == raw.editMediaTime
    requires content.size == NumberAt(raw.stsd, 8)
    ensures HoldsHeaders(raw, tables, content)
  {
    hide WordAt, LongAt, BigEndian;
    ReadWord(raw.mdhd, 12);
    ReadWord(raw.mdhd, 16);
    ReadWord(raw.mdhd, 20);
    if raw.mdhd[0] == 1 {
      ReadLong(raw.mdhd, 24, tables.mediaDuration);
    }
    ReadWord(raw.stsd, 4);
    ReadWord(raw.stsd, 8);
    assert raw.stsd[8..][4..8] == raw.stsd[12..16];
    assert raw.stsd[8..][0..4] == raw.stsd[8..12];
  }

  lemma OptionalOffsets(raw: RawTables, tables: Tables) returns (runs: seq<Run<int>>)
    requires OffsetsFrom(raw.ctts, tables.compositionOffsets)
    ensures raw.ctts.Some? ==> HoldsOffsets(raw.ctts.value, runs) && tables.compositionOffsets == Expanded(runs)
  {
    hide RunsFit, OffsetsAre, OffsetsSigned, Expanded, NumberAt, WordAt;
    runs := [];
    if raw.ctts.Some? {
      var data := raw.ctts.value;
      runs := OffsetsOnly(data, |tables.compositionOffsets|);
      OffsetsBack(data, runs);
      OffsetsUnique(data, OffsetsSigned(data), tables.compositionOffsets, Expanded(runs), NumberAt(data, 4));
    }
  }

  lemma OptionalSyncs(raw: RawTables, tables: Tables) returns (numbers: seq<nat>)
    requires SyncFrom(raw.stss, tables.sync)
    ensures raw.stss.Some? ==>
      && HoldsSyncs(raw.stss.value, numbers, |tables.sync|)
      && forall i :: 0 <= i < |tables.sync| ==> (tables.sync[i] <==> i + 1 in numbers)
  {
    hide SyncsFit, SyncsAre, HoldsSyncs, NumberAt, Readable;
    numbers := [];
    if raw.stss.Some? {
      numbers := SyncsOnly(raw.stss.value, tables.sync);
    }
  }

  lemma SamplesOnly(raw: RawTables, tables: Tables, content: Content)
    requires TablesFrom(raw, tables) && content.fixedSize == NumberAt(raw.stsz, 4)
    requires HoldsDurations(raw.stts, content.durations)
    requires Stts(raw.stts, |tables.sizes|) == Ok(Expanded(content.durations))
    requires raw.ctts.Some? ==>
      HoldsOffsets(raw.ctts.value, content.offsets) && tables.compositionOffsets == Expanded(content.offsets)
    requires raw.stss.Some? ==>
      && HoldsSyncs(raw.stss.value, content.syncs, |tables.sync|)
      && forall i :: 0 <= i < |tables.sync| ==> (tables.sync[i] <==> i + 1 in content.syncs)
    ensures HoldsSamples(raw, tables, content)
  {
    hide ParseMdhd, ParseVideoCodec, SizesReadable, SizesAre, Stts, BytesFrom, WordAt, NumberAt, Expanded;
    hide HoldsDurations, HoldsOffsets, HoldsSyncs, RunsFit, OffsetsAre, OffsetsSigned, SyncsFit, SyncsAre;
    SizesOnly(raw.stsz, tables.sizes);
  }

  lemma PlacesOnly(raw: RawTables, tables: Tables) returns (chunks: seq<nat>, stsc: seq<StscEntry>)
    requires BytesFrom(raw, tables.sizes, tables.byteOffsets)
    ensures PlacedFrom(raw, tables.sizes, tables.byteOffsets, chunks, stsc)
  {
    hide PlacedFrom;
    chunks, stsc :| PlacedFrom(raw, tables.sizes, tables.byteOffsets, chunks, stsc);
  }

  lemma PlacesTogether(raw: RawTables, tables: Tables, content: Content)
    requires PlacedFrom(raw, tables.sizes, tables.byteOffsets, content.chunks, content.chunkRuns)
    ensures HoldsPlaces(raw, tables, content)
  {
    hide WordAt, LongAt, AllPlaced, EndsFit, Stsc, HoldsChunkRuns, ChunkStart, SamplesBefore, NumberAt, Readable;
    ChunkRunsOnly(raw.stsc, content.chunkRuns);
    ChunkStartsOnly(raw.chunkOffsets, raw.chunkOffsetsAre64Bit, content.chunks);
  }
}
