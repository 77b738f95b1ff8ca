/** The timeline of a video track, built from its sample tables. */
module VideoTracks {
  import opened Arithmetic
  import opened Wrappers
  import opened Mp4Boxes
  import opened SampleTables

  datatype VideoSample = VideoSample(
    index: nat,
    decodeTime: nat,
    presentationTime: int,
    duration: nat,
    byteOffset: nat,
    byteSize: nat,
    isSync: bool)

  datatype VideoTrack = VideoTrack(
    timescale: nat,
    mediaDuration: nat,
    presentationStart: int,
    presentationEnd: int,
    codec: seq<Byte>,
    samples: seq<VideoSample>)

  // The parsed tables of a track: one entry per sample in each.
  datatype Tables = Tables(
    timescale: nat,
    mediaDuration: nat,
    editMediaTime: int,
    codec: seq<Byte>,
    durations: seq<nat>,
    compositionOffsets: seq<int>,
    sync: seq<bool>,
    byteOffsets: seq<nat>,
    sizes: seq<nat>)
  {
    ghost predicate Valid()
    {
      && |compositionOffsets| == |sync| == |byteOffsets| == |sizes| == |durations|
      && (forall i :: 0 <= i < |durations| ==> durations[i] > 0)
    }
  }

  // ---------------------------------------------------------------- the timeline

  function DecodeTime(durations: seq<nat>, i: nat): nat
    requires i <= |durations|
  {
    Sum(durations, 0, i)
  }

  function PresentationTime(tables: Tables, i: nat): int
    requires tables.Valid() && i < |tables.durations|
  {
    DecodeTime(tables.durations, i) + tables.compositionOffsets[i] - tables.editMediaTime
  }

  function PresentationEnd(tables: Tables, i: nat): int
    requires tables.Valid() && i < |tables.durations|
  {
    PresentationTime(tables, i) + tables.durations[i]
  }

  predicate InI64(n: int)
  {
    I64_MIN <= n <= I64_MAX
  }

  // The checked arithmetic of one sample.
  ghost predicate TimesFit(tables: Tables, i: nat)
    requires tables.Valid() && i < |tables.durations|
  {
    && InI64(DecodeTime(tables.durations, i))
    && InI64(DecodeTime(tables.durations, i) + tables.compositionOffsets[i])
    && InI64(PresentationTime(tables, i))
    && InI64(PresentationEnd(tables, i))
    && DecodeTime(tables.durations, i + 1) <= U64_MAX
  }

  function SampleAt(tables: Tables, i: nat): VideoSample
    requires tables.Valid() && i < |tables.durations|
  {
    VideoSample(i, DecodeTime(tables.durations, i), PresentationTime(tables, i), tables.durations[i],
                tables.byteOffsets[i], tables.sizes[i], tables.sync[i])
  }

  // The interval covers the presentation of the samples, and no less would do.
  ghost predicate Covers(start: int, end: int, samples: seq<VideoSample>)
  {
    && (forall i :: 0 <= i < |samples| ==>
          start <= samples[i].presentationTime && samples[i].presentationTime + samples[i].duration <= end)
    && (exists i :: 0 <= i < |samples| && samples[i].presentationTime == start)
    && (exists i :: 0 <= i < |samples| && samples[i].presentationTime + samples[i].duration == end)
  }

  ghost predicate IsTrackOf(track: VideoTrack, tables: Tables)
    requires tables.Valid()
  {
    && track.timescale == tables.timescale && track.mediaDuration == tables.mediaDuration
    && track.codec == tables.codec
    && |track.samples| == |tables.durations| > 0
    && (forall i :: 0 <= i < |track.samples| ==> track.samples[i] == SampleAt(tables, i) && TimesFit(tables, i))
    && Covers(track.presentationStart, track.presentationEnd, track.samples)
  }

  // The sample at `index`, or the overflow of its times.
  method BuildSample(tables: Tables, index: nat, decodeTime: nat) returns (r: Result<VideoSample, Mp4Error>)
    requires tables.Valid() && index < |tables.durations| && decodeTime == DecodeTime(tables.durations, index)
    ensures r == if TimesFit(tables, index) then Ok(SampleAt(tables, index)) else Err(IntegerOverflow)
  {
    var duration := tables.durations[index];
    if decodeTime > I64_MAX {
      return Err(IntegerOverflow);
    }
    var shifted := decodeTime + tables.compositionOffsets[index];
    var presentationTime := shifted - tables.editMediaTime;
    var end := presentationTime + duration;
    if !InI64(shifted) || !InI64(presentationTime) || !InI64(end) || decodeTime + duration > U64_MAX {
      return Err(IntegerOverflow);
    }
    return Ok(VideoSample(index, decodeTime, presentationTime, duration, tables.byteOffsets[index],
                          tables.sizes[index], tables.sync[index]));
  }

  method BuildVideoTrack(tables: Tables) returns (r: Result<VideoTrack, Mp4Error>)
    requires tables.Valid()
    ensures r.Ok? <==> |tables.durations| > 0 && forall i :: 0 <= i < |tables.durations| ==> TimesFit(tables, i)
    ensures r.Ok? ==> IsTrackOf(r.value, tables)
    ensures r.Err? ==>
      r.error == if |tables.durations| == 0 then InvalidTable("empty video track") else IntegerOverflow
  {
    var samples := [];
    var decodeTime := 0;
    var presentationStart, presentationEnd := I64_MAX, I64_MIN;
    for index := 0 to |tables.durations|
      invariant decodeTime == DecodeTime(tables.durations, index)
      invariant |samples| == index
      invariant forall i :: 0 <= i < index ==> samples[i] == SampleAt(tables, i) && TimesFit(tables, i)
      invariant if index == 0 then presentationStart == I64_MAX && presentationEnd == I64_MIN
                else Covers(presentationStart, presentationEnd, samples)
    {
      var sample :- BuildSample(tables, index, decodeTime);
      if index > 0 {
        CoversSnoc(presentationStart, presentationEnd, samples, sample);
      } else {
        CoversOne(sample);
      }
      var presentationTime, end := sample.presentationTime, sample.presentationTime + sample.duration;
      presentationStart := if presentationTime < presentationStart then presentationTime else presentationStart;
      presentationEnd := if end > presentationEnd then end else presentationEnd;
      samples := samples + [sample];
      decodeTime := decodeTime + sample.duration;
    }
    if samples == [] {
      return Err(InvalidTable("empty video track"));
    }
    return Ok(VideoTrack(tables.timescale, tables.mediaDuration, presentationStart, presentationEnd,
                         tables.codec, samples));
  }

  lemma CoversOne(sample: VideoSample)
    ensures Covers(sample.presentationTime, sample.presentationTime + sample.duration, [sample])
  {
    assert [sample][0] == sample;
  }

  lemma CoversSnoc(start: int, end: int, samples: seq<VideoSample>, sample: VideoSample)
    requires Covers(start, end, samples)
    ensures var pEnd := sample.presentationTime + sample.duration;
      Covers(if sample.presentationTime < start then sample.presentationTime else start,
             if pEnd > end then pEnd else end, samples + [sample])
  {
    var all := samples + [sample];
    var i :| 0 <= i < |samples| && samples[i].presentationTime == start;
    var j :| 0 <= j < |samples| && samples[j].presentationTime + samples[j].duration == end;
    assert all[i] == samples[i] && all[j] == samples[j] && all[|samples|] == sample;
  }

  // ---------------------------------------------------------------- byte ranges

  ghost predicate RangesInside(samples: seq<VideoSample>, fileLength: nat)
  {
    forall i :: 0 <= i < |samples| ==> samples[i].byteOffset + samples[i].byteSize <= fileLength
  }

  // Sample `k` is the first outside the file, and the error says how.
  ghost predicate FirstOutside(samples: seq<VideoSample>, fileLength: nat, k: nat, error: Mp4Error)
    requires k < |samples|
  {
    && RangesInside(samples[..k], fileLength)
    && samples[k].byteOffset + samples[k].byteSize > fileLength
    && error == if samples[k].byteOffset + samples[k].byteSize > U64_MAX then IntegerOverflow
                else InvalidTable("sample byte range")
  }

  // The last check of the parser.
  method CheckByteRanges(track: VideoTrack, fileLength: nat) returns (r: Result<(), Mp4Error>)
    requires fileLength <= U64_MAX
    ensures r.Ok? <==> RangesInside(track.samples, fileLength)
    ensures r.Err? ==> exists k: nat :: k < |track.samples| && FirstOutside(track.samples, fileLength, k, r.error)
  {
    for k := 0 to |track.samples|
      invariant RangesInside(track.samples[..k], fileLength)
    {
      var end := track.samples[k].byteOffset + track.samples[k].byteSize;
      if end > U64_MAX {
        assert FirstOutside(track.samples, fileLength, k, IntegerOverflow);
        return Err(IntegerOverflow);
      }
      if end > fileLength {
        assert FirstOutside(track.samples, fileLength, k, InvalidTable("sample byte range"));
        return Err(InvalidTable("sample byte range"));
      }
    }
    return Ok(());
  }

  // ---------------------------------------------------------------- what holds of every track

  // A sample by its fields: presented by its composition offset later than decoded, on a
  // timeline that starts at the media time of the edit.
  lemma SampleMeans(track: VideoTrack, tables: Tables, i: nat)
    requires tables.Valid() && IsTrackOf(track, tables) && i < |track.samples|
    ensures var s := track.samples[i];
      && s.index == i < |tables.durations| && s.duration == tables.durations[i]
      && s.presentationTime + tables.editMediaTime == s.decodeTime + tables.compositionOffsets[i]
      && s.byteOffset == tables.byteOffsets[i] && s.byteSize == tables.sizes[i] && s.isSync == tables.sync[i]
      && s.decodeTime < 0x8000_0000_0000_0000 && -0x8000_0000_0000_0000 <= s.presentationTime
      && s.presentationTime + s.duration < 0x8000_0000_0000_0000
      && track.presentationStart <= s.presentationTime
      && s.presentationTime + s.duration <= track.presentationEnd
    ensures i == 0 ==> track.samples[i].decodeTime == 0
    ensures i > 0 ==> track.samples[i].decodeTime == track.samples[i - 1].decodeTime + track.samples[i - 1].duration
  {
    assert track.samples[i] == SampleAt(tables, i) && TimesFit(tables, i);
    if i > 0 {
      assert track.samples[i - 1] == SampleAt(tables, i - 1);
    }
  }

  // The rest of a track: as many samples as durations, the fields of the headers, and bounds
  // that are met.
  lemma TrackMeans(track: VideoTrack, tables: Tables) returns (first: nat, last: nat)
    requires tables.Valid() && IsTrackOf(track, tables)
    ensures |track.samples| == |tables.durations| && track.codec == tables.codec
    ensures track.timescale == tables.timescale && track.mediaDuration == tables.mediaDuration
    ensures first < |track.samples| && track.samples[first].presentationTime == track.presentationStart
    ensures last < |track.samples|
    ensures track.samples[last].presentationTime + track.samples[last].duration == track.presentationEnd
  {
    first :| first < |track.samples| && track.samples[first].presentationTime == track.presentationStart;
    last :| last < |track.samples|
            && track.samples[last].presentationTime + track.samples[last].duration == track.presentationEnd;
  }

  // The checked arithmetic, written out.
  lemma TimesFitMeans(tables: Tables, i: nat)
    requires tables.Valid() && i < |tables.durations|
    ensures var decode, offset := Sum(tables.durations, 0, i), tables.compositionOffsets[i];
      var duration := tables.durations[i];
      var shown := decode + offset - tables.editMediaTime;
      TimesFit(tables, i) <==>
        (&& decode < 0x8000_0000_0000_0000
         && -0x8000_0000_0000_0000 <= decode + offset < 0x8000_0000_0000_0000
         && -0x8000_0000_0000_0000 <= shown < 0x8000_0000_0000_0000
         && -0x8000_0000_0000_0000 <= shown + duration < 0x8000_0000_0000_0000
         && decode + duration < 0x1_0000_0000_0000_0000)
  {
  }

  // The decode times of a track grow by the positive durations, from zero.
  lemma {:induction false} DecodeTimesIncrease(durations: seq<nat>, i: nat, j: nat)
    requires i < j <= |durations| && forall k :: 0 <= k < |durations| ==> durations[k] > 0
    ensures DecodeTime(durations, i) < DecodeTime(durations, j)
    decreases j
  {
    if i + 1 < j {
      DecodeTimesIncrease(durations, i, j - 1);
    }
  }

  // A planner can rely on it: a track built by the parser has a timeline of positive length,
  // and samples in strictly increasing decode order.
  lemma TrackHasTimeline(track: VideoTrack, tables: Tables)
    requires tables.Valid() && IsTrackOf(track, tables)
    ensures InI64(track.presentationStart) && InI64(track.presentationEnd)
    ensures track.presentationStart < track.presentationEnd
    ensures track.samples[0].decodeTime == 0
    ensures forall i, j :: 0 <= i < j < |track.samples| ==> track.samples[i].decodeTime < track.samples[j].decodeTime
  {
    assert track.samples[0] == SampleAt(tables, 0);
    forall i | 0 <= i < |track.samples|
      ensures InI64(track.samples[i].presentationTime)
      ensures InI64(track.samples[i].presentationTime + track.samples[i].duration)
    {
      assert track.samples[i] == SampleAt(tables, i);
    }
    forall i, j | 0 <= i < j < |track.samples|
      ensures track.samples[i].decodeTime < track.samples[j].decodeTime
    {
      DecodeTimesIncrease(tables.durations, i, j);
    }
  }
}
