/** The choice of preview windows: three buckets of the timeline, a random target in each,
    and decoding from the last sync sample before it. */
module SamplePlanner {
  import opened Arithmetic
  import opened Wrappers
  import opened SampleTables
  import opened VideoTracks

  const BUCKET_COUNT: nat := 3
  const MAX_ATTEMPTS_PER_BUCKET: nat := 128
  const TWO_64: nat := 0x1_0000_0000_0000_0000

  // The 64-bit values hashed from the seed, by bucket and counter.
  type Draws = (nat, nat) -> nat

  // ---------------------------------------------------------------- unbiased offsets

  // Values from here on would favour small remainders.
  function Zone(range: nat): nat
    requires range > 0
  {
    TWO_64 - TWO_64 % range
  }

  // The counter is a 64-bit value that wraps around.
  function NextCounter(counter: nat): nat
  {
    if counter + 1 == TWO_64 then 0 else counter + 1
  }

  // The first counter, from `counter` on, whose value is below the zone, if there is one among
  // the next `tries`.
  function FirstAccepted(draws: Draws, bucket: nat, counter: nat, zone: nat, tries: nat): Option<nat>
    decreases tries
  {
    if tries == 0 then None
    else if draws(bucket, counter) < zone then Some(counter)
    else FirstAccepted(draws, bucket, NextCounter(counter), zone, tries - 1)
  }

  predicate IsAccepted(draws: Draws, bucket: nat, counter: nat, zone: nat)
  {
    counter < TWO_64 && draws(bucket, counter) < zone
  }

  // Some value drawn for the bucket is below the zone of the range.
  ghost predicate HasAccepted(draws: Draws, bucket: nat, range: nat)
    requires range > 0
  {
    exists c: nat :: IsAccepted(draws, bucket, c, Zone(range))
  }

  lemma ZoneIsLarge(total: nat, range: nat)
    requires 0 < range <= total
    ensures total - total % range == range * (total / range)
    ensures (total - total % range) / range == total / range
    ensures 2 * (total % range) < total
  {
    var q := total / range;
    assert q >= 1 by {
      if q < 1 {
        MultipleBounds(range, q);
      }
    }
    MultipleBounds(range, q);
    DivModUnique(total - total % range, range, q, 0);
  }

  // The accepted values with a given remainder, below a multiple of the range.
  ghost function Accepted(range: nat, remainder: nat, below: nat): set<nat>
    requires range > 0
  {
    set v: nat | v < below && v % range == remainder
  }

  lemma {:induction false} RemaindersEquallyOften(range: nat, remainder: nat, multiples: nat)
    requires remainder < range
    ensures |Accepted(range, remainder, range * multiples)| == multiples
  {
    if multiples == 0 {
      assert Accepted(range, remainder, 0) == {};
    } else {
      var low := range * (multiples - 1);
      RemaindersEquallyOften(range, remainder, multiples - 1);
      assert range * multiples == low + range;
      forall v: nat | low <= v < low + range
        ensures v % range == remainder <==> v == low + remainder
      {
        DivModUnique(v, range, multiples - 1, v - low);
      }
      assert Accepted(range, remainder, range * multiples) == Accepted(range, remainder, low) + {low + remainder};
    }
  }

  // Exact uniformity: of the 64-bit values below the zone, every remainder is hit by equally
  // many, and of all values fewer than there are remainders are refused, never half of them.
  lemma OffsetsUniform(range: nat, remainder: nat)
    requires 0 < range < TWO_64 && remainder < range
    ensures |Accepted(range, remainder, Zone(range))| == Zone(range) / range
    ensures 0x1_0000_0000_0000_0000 - range < Zone(range) <= 0x1_0000_0000_0000_0000
    ensures 2 * (0x1_0000_0000_0000_0000 - Zone(range)) < 0x1_0000_0000_0000_0000
  {
    hide Accepted;
    ZoneIsLarge(TWO_64, range);
    RemaindersEquallyOften(range, remainder, TWO_64 / range);
  }

  // The counter after `k` steps.
  function CounterAfter(counter: nat, k: nat): (after: nat)
    ensures counter < TWO_64 && k < TWO_64 ==> after == (counter + k) % 0x1_0000_0000_0000_0000
  {
    if counter + k < TWO_64 then counter + k else counter + k - TWO_64
  }

  lemma {:induction false} NoneAccepted(draws: Draws, bucket: nat, counter: nat, zone: nat, tries: nat, k: nat)
    requires counter < TWO_64 && k < tries <= TWO_64
    requires FirstAccepted(draws, bucket, counter, zone, tries) == None
    ensures draws(bucket, CounterAfter(counter, k)) >= zone
    decreases k
  {
    if k > 0 {
      NoneAccepted(draws, bucket, NextCounter(counter), zone, tries - 1, k - 1);
      assert CounterAfter(NextCounter(counter), k - 1) == CounterAfter(counter, k);
    }
  }

  lemma {:induction false} FirstIsAccepted(draws: Draws, bucket: nat, counter: nat, zone: nat, tries: nat)
    requires counter < TWO_64 && FirstAccepted(draws, bucket, counter, zone, tries).Some?
    ensures IsAccepted(draws, bucket, FirstAccepted(draws, bucket, counter, zone, tries).value, zone)
    decreases tries
  {
    if draws(bucket, counter) >= zone {
      FirstIsAccepted(draws, bucket, NextCounter(counter), zone, tries - 1);
    }
  }

  // Once around, the counter has met every value: the search ends if and only if one of them
  // is accepted, and otherwise it would go on for ever.
  lemma SearchEndsExactly(draws: Draws, bucket: nat, counter: nat, range: nat)
    requires 0 < range && counter < TWO_64
    ensures FirstAccepted(draws, bucket, counter, Zone(range), TWO_64).Some? <==> HasAccepted(draws, bucket, range)
  {
    hide FirstAccepted, Zone;
    if FirstAccepted(draws, bucket, counter, Zone(range), TWO_64).Some? {
      FirstIsAccepted(draws, bucket, counter, Zone(range), TWO_64);
    } else if HasAccepted(draws, bucket, range) {
      var c: nat :| IsAccepted(draws, bucket, c, Zone(range));
      var k := if c >= counter then c - counter else c + TWO_64 - counter;
      NoneAccepted(draws, bucket, counter, Zone(range), TWO_64, k);
    }
  }

  // The offset drawn for a bucket, from counter `start` on.
  function Offset(draws: Draws, bucket: nat, start: nat, range: nat): (offset: nat)
    requires 0 < range && start < TWO_64 && HasAccepted(draws, bucket, range)
    ensures offset < range
  {
    SearchEndsExactly(draws, bucket, start, range);
    draws(bucket, FirstAccepted(draws, bucket, start, Zone(range), TWO_64).value) % range
  }

  lemma {:induction false} FirstIsFirst(draws: Draws, bucket: nat, counter: nat, zone: nat, tries: nat) returns (k: nat)
    requires counter < TWO_64 && tries <= TWO_64 && FirstAccepted(draws, bucket, counter, zone, tries).Some?
    ensures k < tries && FirstAccepted(draws, bucket, counter, zone, tries) == Some(CounterAfter(counter, k))
    ensures draws(bucket, CounterAfter(counter, k)) < zone
    ensures forall j: nat :: j < k ==> draws(bucket, CounterAfter(counter, j)) >= zone
    decreases tries
  {
    if draws(bucket, counter) < zone {
      k := 0;
    } else {
      var later := FirstIsFirst(draws, bucket, NextCounter(counter), zone, tries - 1);
      k := later + 1;
      forall j: nat | j < k
        ensures draws(bucket, CounterAfter(counter, j)) >= zone
      {
        if j > 0 {
          CounterStep(counter, j - 1);
        }
      }
      CounterStep(counter, later);
    }
  }

  lemma CounterStep(counter: nat, j: nat)
    requires counter < TWO_64 && j + 1 < TWO_64
    ensures CounterAfter(counter, j + 1) == CounterAfter(NextCounter(counter), j)
  {
  }

  // The offset is the remainder of the first value below the largest multiple of the range,
  // the counter running on from `start` and around 2^64.
  lemma OffsetMeans(draws: Draws, bucket: nat, start: nat, range: nat) returns (k: nat)
    requires 0 < range && start < TWO_64 && HasAccepted(draws, bucket, range)
    ensures var zone := 0x1_0000_0000_0000_0000 - 0x1_0000_0000_0000_0000 % range;
      && k < 0x1_0000_0000_0000_0000 && draws(bucket, CounterAfter(start, k)) < zone
      && (forall j: nat :: j < k ==> draws(bucket, CounterAfter(start, j)) >= zone)
      && Offset(draws, bucket, start, range) == draws(bucket, CounterAfter(start, k)) % range
  {
    hide FirstAccepted;
    SearchEndsExactly(draws, bucket, start, range);
    k := FirstIsFirst(draws, bucket, start, Zone(range), TWO_64);
  }

  method UnbiasedOffset(draws: Draws, bucket: nat, start: nat, range: nat) returns (offset: nat)
    requires 0 < range && start < TWO_64 && HasAccepted(draws, bucket, range)
    ensures offset == Offset(draws, bucket, start, range)
  {
    var zone := Zone(range);
    var counter := start;
    ghost var tries := TWO_64;
    SearchEndsExactly(draws, bucket, start, range);
    while true
      invariant FirstAccepted(draws, bucket, counter, zone, tries) == FirstAccepted(draws, bucket, start, zone, TWO_64)
      decreases tries
    {
      var value := draws(bucket, counter);
      if value < zone {
        return value % range;
      }
      counter := NextCounter(counter);
      tries := tries - 1;
    }
  }

  // ---------------------------------------------------------------- buckets

  function BucketBoundary(start: int, timelineLength: nat, bucket: nat, bucketCount: nat): Option<int>
    requires bucketCount > 0
  {
    var offset := timelineLength * bucket / bucketCount;
    if offset > I64_MAX || !InI64(start + offset) then None else Some(start + offset)
  }

  // The boundaries of a timeline of 64-bit length never overflow.
  lemma BoundaryInside(start: int, end: int, bucket: nat)
    requires InI64(start) && InI64(end) && start < end && end - start <= I64_MAX && bucket <= 3
    ensures BucketBoundary(start, end - start, bucket, 3) == Some(start + (end - start) * bucket / 3)
    ensures 0 <= (end - start) * bucket / 3 <= end - start
  {
    var n := end - start;
    assert n * bucket == if bucket == 0 then 0 else if bucket == 1 then n else if bucket == 2 then n + n else n + n + n;
  }

  function Boundary(start: int, end: int, bucket: nat): int
    requires start <= end
  {
    start + (end - start) * bucket / 3
  }

  // The buckets tile the timeline: the first starts and the last ends with it, and each is a
  // third of it to within one tick.
  lemma BucketsTile(start: int, end: int, bucket: nat)
    requires start < end && bucket < 3
    ensures Boundary(start, end, 0) == start && Boundary(start, end, 3) == end
    ensures (end - start) / 3 <= Boundary(start, end, bucket + 1) - Boundary(start, end, bucket)
    ensures Boundary(start, end, bucket + 1) - Boundary(start, end, bucket) <= (end - start) / 3 + 1
  {
    var n := end - start;
    assert n * bucket == if bucket == 0 then 0 else if bucket == 1 then n else n + n;
  }

  // ---------------------------------------------------------------- sync samples

  // A sync sample presented at the target time or before.
  predicate IsCandidate(sample: VideoSample, target: int)
  {
    sample.isSync && sample.presentationTime <= target
  }

  // The position of the latest candidate; of samples presented together, the last one.
  ghost predicate IsLatestSync(samples: seq<VideoSample>, target: int, k: nat)
  {
    && k < |samples| && IsCandidate(samples[k], target)
    && (forall i :: 0 <= i < |samples| && IsCandidate(samples[i], target) ==>
          samples[i].presentationTime < samples[k].presentationTime ||
          (samples[i].presentationTime == samples[k].presentationTime && i <= k))
  }

  ghost predicate HasSync(samples: seq<VideoSample>, target: int)
  {
    exists k: nat :: IsLatestSync(samples, target, k)
  }

  method LatestSync(samples: seq<VideoSample>, target: int) returns (best: Option<nat>)
    ensures best.Some? <==> HasSync(samples, target)
    ensures best.None? ==> forall i :: 0 <= i < |samples| ==> samples[i].isSync ==> samples[i].presentationTime > target
    ensures best.Some? ==> IsLatestSync(samples, target, best.value)
  {
    best := None;
    for i := 0 to |samples|
      invariant best == None ==> forall j :: 0 <= j < i ==> !IsCandidate(samples[j], target)
      invariant best.Some? ==> best.value < i && IsLatestSync(samples[..i], target, best.value)
    {
      if IsCandidate(samples[i], target) &&
         (best == None || samples[i].presentationTime >= samples[best.value].presentationTime) {
        best := Some(i);
      }
    }
    assert samples[..|samples|] == samples;
  }

  // The latest sync sample by its fields: no sync sample lies between it and the target.
  lemma LatestSyncMeans(samples: seq<VideoSample>, target: int, k: nat)
    ensures IsLatestSync(samples, target, k)
       <==> && k < |samples| && samples[k].isSync && samples[k].presentationTime <= target
            && forall i :: 0 <= i < |samples| && samples[i].isSync && samples[i].presentationTime <= target ==>
                 && samples[i].presentationTime <= samples[k].presentationTime
                 && (i > k ==> samples[i].presentationTime < samples[k].presentationTime)
  {
  }

  // A later target has a strictly later latest sync sample, or the same one: samples with
  // equal times cannot be split by two targets.
  lemma LatestSyncMonotonic(samples: seq<VideoSample>, early: int, late: int, j: nat, k: nat)
    requires early <= late && IsLatestSync(samples, early, j) && IsLatestSync(samples, late, k)
    ensures j == k || samples[j].presentationTime < samples[k].presentationTime
  {
    assert IsCandidate(samples[j], late);
    if samples[j].presentationTime == samples[k].presentationTime {
      assert IsCandidate(samples[k], early);
    }
  }

  // ---------------------------------------------------------------- plans

  datatype SamplePlan = SamplePlan(
    bucketIndex: nat,
    targetTime: int,
    decodeStartSample: nat,
    decodeStartTime: int,
    presentationEndTime: int)

  datatype SamplingError =
    | InvalidTimeline
    | InvalidPreviewDuration
    | BucketTooShort(bucket: nat)
    | NoSyncSample(bucket: nat)
    | DuplicateAlignedSample(bucket: nat)
    | IntegerOverflow

  // One bucket: a preview of `ticks` may start anywhere from `start` to `end - ticks`.
  datatype Window = Window(bucket: nat, start: int, end: int, ticks: nat)
  {
    ghost predicate Valid()
    {
      bucket < BUCKET_COUNT && InI64(start) && InI64(end) && 0 < ticks && start + ticks <= end
    }

    // How many targets there are.
    function Range(): (range: nat)
      requires Valid()
      ensures range > 0
    {
      end - ticks - start + 1
    }

    // The search for an offset ends in this bucket.
    ghost predicate Drawable(draws: Draws)
    {
      Valid() && HasAccepted(draws, bucket, Range())
    }

    function Target(draws: Draws, counter: nat): (target: int)
      requires Drawable(draws) && counter < MAX_ATTEMPTS_PER_BUCKET
      ensures start <= target && target + ticks <= end
    {
      start + Offset(draws, bucket, counter, Range())
    }
  }

  function BucketWindow(track: VideoTrack, ticks: nat, bucket: nat): Window
    requires track.presentationStart <= track.presentationEnd
  {
    Window(bucket, Boundary(track.presentationStart, track.presentationEnd, bucket),
           Boundary(track.presentationStart, track.presentationEnd, bucket + 1), ticks)
  }

  predicate IsUsed(plans: seq<SamplePlan>, index: nat)
  {
    exists i :: 0 <= i < |plans| && plans[i].decodeStartSample == index
  }

  // The plan that aligns this target to this sample.
  function AlignedPlan(window: Window, target: int, sync: VideoSample): SamplePlan
  {
    SamplePlan(window.bucket, target, sync.index, sync.presentationTime, target + window.ticks)
  }

  // Attempt `counter` aligns to sample `k`.
  ghost predicate AlignsTo(samples: seq<VideoSample>, draws: Draws, window: Window, counter: nat, k: nat)
    requires window.Drawable(draws) && counter < MAX_ATTEMPTS_PER_BUCKET
  {
    IsLatestSync(samples, window.Target(draws, counter), k)
  }

  ghost predicate SeesSync(samples: seq<VideoSample>, draws: Draws, window: Window, counter: nat)
    requires window.Drawable(draws) && counter < MAX_ATTEMPTS_PER_BUCKET
  {
    HasSync(samples, window.Target(draws, counter))
  }

  // The attempt aligns to a sample that no earlier plan starts from.
  ghost predicate Succeeds(samples: seq<VideoSample>, draws: Draws, window: Window, earlier: seq<SamplePlan>,
                           counter: nat)
    requires window.Drawable(draws) && counter < MAX_ATTEMPTS_PER_BUCKET
  {
    exists k: nat :: AlignsTo(samples, draws, window, counter, k) && !IsUsed(earlier, samples[k].index)
  }

  // The plan of the first attempt that succeeds.
  ghost predicate IsChoice(samples: seq<VideoSample>, draws: Draws, window: Window, earlier: seq<SamplePlan>,
                           plan: SamplePlan)
    requires window.Drawable(draws)
  {
    exists counter: nat, k: nat ::
      && counter < MAX_ATTEMPTS_PER_BUCKET && AlignsTo(samples, draws, window, counter, k)
      && !IsUsed(earlier, samples[k].index)
      && (forall c: nat :: c < counter ==> !Succeeds(samples, draws, window, earlier, c))
      && plan == AlignedPlan(window, window.Target(draws, counter), samples[k])
  }

  method ChooseInBucket(samples: seq<VideoSample>, draws: Draws, window: Window, earlier: seq<SamplePlan>)
    returns (r: Result<SamplePlan, SamplingError>)
    requires window.Drawable(draws)
    ensures r.Ok? ==> IsChoice(samples, draws, window, earlier, r.value)
    ensures r.Err? ==> forall c: nat :: c < 128 ==> !Succeeds(samples, draws, window, earlier, c)
    ensures r.Err? ==>
      r.error == if exists c: nat :: c < MAX_ATTEMPTS_PER_BUCKET && SeesSync(samples, draws, window, c)
                 then DuplicateAlignedSample(window.bucket) else NoSyncSample(window.bucket)
  {
    hide IsLatestSync, Offset;
    var sawSync := false;
    for counter := 0 to MAX_ATTEMPTS_PER_BUCKET
      invariant sawSync <==> exists c: nat :: c < counter && SeesSync(samples, draws, window, c)
      invariant forall c: nat :: c < counter ==> !Succeeds(samples, draws, window, earlier, c)
    {
      var offset := UnbiasedOffset(draws, window.bucket, counter, window.end - window.ticks - window.start + 1);
      var target := window.start + offset;
      assert target == window.Target(draws, counter);
      var sync := LatestSync(samples, target);
      if sync.Some? {
        assert SeesSync(samples, draws, window, counter);
        sawSync := true;
        assert AlignsTo(samples, draws, window, counter, sync.value);
        if !IsUsed(earlier, samples[sync.value].index) {
          return Ok(AlignedPlan(window, target, samples[sync.value]));
        }
        OnlySample(samples, draws, window, earlier, counter, sync.value);
      }
    }
    return Err(if sawSync then DuplicateAlignedSample(window.bucket) else NoSyncSample(window.bucket));
  }

  lemma OnlySample(samples: seq<VideoSample>, draws: Draws, window: Window, earlier: seq<SamplePlan>, counter: nat,
                   k: nat)
    requires window.Drawable(draws) && counter < MAX_ATTEMPTS_PER_BUCKET
    requires AlignsTo(samples, draws, window, counter, k) && IsUsed(earlier, samples[k].index)
    ensures !Succeeds(samples, draws, window, earlier, counter)
  {
  }

  // ---------------------------------------------------------------- the three plans

  // Each plan is the choice made in its bucket after those before it.
  ghost predicate Planned(track: VideoTrack, draws: Draws, ticks: nat, plans: seq<SamplePlan>)
    requires track.presentationStart <= track.presentationEnd
  {
    && |plans| <= BUCKET_COUNT
    && (forall b :: 0 <= b < |plans| ==>
          && BucketWindow(track, ticks, b).Drawable(draws)
          && IsChoice(track.samples, draws, BucketWindow(track, ticks, b), plans[..b], plans[b]))
  }

  // Why no plan for the bucket after these could be made.
  ghost predicate Fails(track: VideoTrack, draws: Draws, ticks: nat, plans: seq<SamplePlan>, error: SamplingError)
    requires track.presentationStart <= track.presentationEnd
  {
    var bucket := |plans|;
    var window := BucketWindow(track, ticks, bucket);
    && bucket < BUCKET_COUNT
    && if window.end - window.start < ticks then error == BucketTooShort(bucket)
       else
         && window.Drawable(draws)
         && (forall c: nat :: c < MAX_ATTEMPTS_PER_BUCKET ==> !Succeeds(track.samples, draws, window, plans, c))
         && error == if exists c: nat :: c < MAX_ATTEMPTS_PER_BUCKET && SeesSync(track.samples, draws, window, c)
                     then DuplicateAlignedSample(bucket) else NoSyncSample(bucket)
  }

  // In every bucket that the planner reaches and that has room for a preview, the search for
  // an offset ends.
  ghost predicate Terminates(track: VideoTrack, draws: Draws, ticks: nat)
    requires track.presentationStart <= track.presentationEnd
  {
    forall plans :: Planned(track, draws, ticks, plans) && BucketWindow(track, ticks, |plans|).Valid() ==>
      BucketWindow(track, ticks, |plans|).Drawable(draws)
  }

  // The buckets were planned up to one that fails.
  ghost predicate GivesUp(track: VideoTrack, draws: Draws, ticks: nat, error: SamplingError)
    requires track.presentationStart <= track.presentationEnd
  {
    exists plans :: Planned(track, draws, ticks, plans) && Fails(track, draws, ticks, plans, error)
  }

  // The preview in ticks of the track, rounded up.
  function PreviewTicks(track: VideoTrack, previewDurationMs: nat): nat
  {
    (previewDurationMs * track.timescale + 999) / 1000
  }

  predicate TimelineUsable(track: VideoTrack)
  {
    track.presentationStart < track.presentationEnd && track.timescale != 0
  }

  // What the 64-bit arithmetic on the preview and on the length of the timeline needs.
  predicate Representable(track: VideoTrack, previewDurationMs: nat)
  {
    && previewDurationMs * track.timescale + 999 <= U64_MAX
    && track.presentationEnd - track.presentationStart <= I64_MAX
  }

  method PlanThreeSamples(track: VideoTrack, draws: Draws, previewDurationMs: nat)
    returns (r: Result<seq<SamplePlan>, SamplingError>)
    requires InI64(track.presentationStart) && InI64(track.presentationEnd)
    requires TimelineUsable(track) && previewDurationMs > 0 && Representable(track, previewDurationMs) ==>
      Terminates(track, draws, PreviewTicks(track, previewDurationMs))
    ensures r == Err(InvalidTimeline) <==> track.presentationEnd <= track.presentationStart || track.timescale == 0
    ensures r == Err(InvalidPreviewDuration)
       <==> track.presentationStart < track.presentationEnd && track.timescale > 0 && previewDurationMs == 0
    ensures r == Err(SamplingError.IntegerOverflow) <==>
      && track.presentationStart < track.presentationEnd && track.timescale > 0 && previewDurationMs > 0
      && (previewDurationMs * track.timescale + 999 > 0xFFFF_FFFF_FFFF_FFFF ||
          track.presentationEnd - track.presentationStart > 0x7FFF_FFFF_FFFF_FFFF)
    ensures r.Ok? ==> |r.value| == 3 && Planned(track, draws, PreviewTicks(track, previewDurationMs), r.value)
    // Every preview has the length asked for, rounded up to a tick.
    ensures r.Ok? ==> forall b :: 0 <= b < 3 ==>
      var ticks := r.value[b].presentationEndTime - r.value[b].targetTime;
      1000 * (ticks - 1) < previewDurationMs * track.timescale <= 1000 * ticks
    ensures r.Err? && r.error.BucketTooShort? ==>
      var start, n, b := track.presentationStart, track.presentationEnd - track.presentationStart, r.error.bucket;
      b < 3 && 1000 * ((start + n * (b + 1) / 3) - (start + n * b / 3)) < previewDurationMs * track.timescale
    ensures r.Err? && TimelineUsable(track) && previewDurationMs > 0 && Representable(track, previewDurationMs) ==>
      GivesUp(track, draws, PreviewTicks(track, previewDurationMs), r.error)
  {
    hide Planned, Fails, GivesUp;
    var start, end := track.presentationStart, track.presentationEnd;
    if end <= start || track.timescale == 0 {
      return Err(InvalidTimeline);
    }
    if previewDurationMs == 0 {
      return Err(InvalidPreviewDuration);
    }
    if previewDurationMs * track.timescale + 999 > U64_MAX {
      return Err(SamplingError.IntegerOverflow);
    }
    // The quotient lies between 1 and 2^63, so the source's test of it cannot fail.
    var ticks := (previewDurationMs * track.timescale + 999) / 1000;
    TimesMonotonic(1, previewDurationMs, track.timescale);
    if end - start > I64_MAX {
      return Err(SamplingError.IntegerOverflow);
    }
    r := PlanBuckets(track, draws, ticks);
    if r.Ok? {
      PlansLast(track, draws, ticks, r.value);
    } else if r.error.BucketTooShort? {
      TooShort(track, draws, ticks, r.error);
    }
  }

  lemma TooShort(track: VideoTrack, draws: Draws, ticks: nat, error: SamplingError)
    requires track.presentationStart <= track.presentationEnd && GivesUp(track, draws, ticks, error)
    requires error.BucketTooShort?
    ensures error.bucket < 3
    ensures Boundary(track.presentationStart, track.presentationEnd, error.bucket + 1)
          - Boundary(track.presentationStart, track.presentationEnd, error.bucket) < ticks
  {
    hide Planned, Succeeds, SeesSync;
    var plans :| Planned(track, draws, ticks, plans) && Fails(track, draws, ticks, plans, error);
  }

  lemma PlansLast(track: VideoTrack, draws: Draws, ticks: nat, plans: seq<SamplePlan>)
    requires track.presentationStart <= track.presentationEnd && Planned(track, draws, ticks, plans)
    ensures forall b :: 0 <= b < |plans| ==> plans[b].presentationEndTime - plans[b].targetTime == ticks
  {
    forall b | 0 <= b < |plans|
      ensures plans[b].presentationEndTime - plans[b].targetTime == ticks
    {
      ChoiceHonours(track, draws, ticks, plans, b);
    }
  }

  lemma NothingPlanned(track: VideoTrack, draws: Draws, ticks: nat)
    requires track.presentationStart <= track.presentationEnd
    ensures Planned(track, draws, ticks, [])
  {
  }

  lemma NextDrawable(track: VideoTrack, draws: Draws, ticks: nat, plans: seq<SamplePlan>)
    requires track.presentationStart <= track.presentationEnd
    requires Terminates(track, draws, ticks) && Planned(track, draws, ticks, plans)
    ensures BucketWindow(track, ticks, |plans|).Valid() ==> BucketWindow(track, ticks, |plans|).Drawable(draws)
  {
    hide Planned;
  }

  // The bucket loop of the planner.
  method PlanBuckets(track: VideoTrack, draws: Draws, ticks: nat) returns (r: Result<seq<SamplePlan>, SamplingError>)
    requires InI64(track.presentationStart) && InI64(track.presentationEnd)
    requires 0 < track.presentationEnd - track.presentationStart <= I64_MAX && ticks > 0
    requires Terminates(track, draws, ticks)
    ensures r.Ok? ==> |r.value| == 3 && Planned(track, draws, ticks, r.value)
    ensures r.Err? ==> GivesUp(track, draws, ticks, r.error)
    ensures r.Err? ==> r.error.BucketTooShort? || r.error.NoSyncSample? || r.error.DuplicateAlignedSample?
  {
    hide IsChoice, Succeeds, SeesSync, Planned, Terminates;
    var start, end := track.presentationStart, track.presentationEnd;
    var plans := [];
    NothingPlanned(track, draws, ticks);
    for bucket := 0 to BUCKET_COUNT
      invariant |plans| == bucket && Planned(track, draws, ticks, plans)
    {
      BoundaryInside(start, end, bucket);
      BoundaryInside(start, end, bucket + 1);
      var bucketStart := BucketBoundary(start, end - start, bucket, BUCKET_COUNT).value;
      var bucketEnd := BucketBoundary(start, end - start, bucket + 1, BUCKET_COUNT).value;
      if bucketEnd - ticks < bucketStart {
        assert Fails(track, draws, ticks, plans, BucketTooShort(bucket));
        return Err(BucketTooShort(bucket));
      }
      NextDrawable(track, draws, ticks, plans);
      var plan := ChooseInBucket(track.samples, draws, Window(bucket, bucketStart, bucketEnd, ticks), plans);
      if plan.Err? {
        assert Fails(track, draws, ticks, plans, plan.error);
        return Err(plan.error);
      }
      PlannedSnoc(track, draws, ticks, plans, plan.value);
      plans := plans + [plan.value];
    }
    return Ok(plans);
  }

  lemma PlannedSnoc(track: VideoTrack, draws: Draws, ticks: nat, plans: seq<SamplePlan>, plan: SamplePlan)
    requires track.presentationStart <= track.presentationEnd
    requires Planned(track, draws, ticks, plans) && |plans| < BUCKET_COUNT
    requires BucketWindow(track, ticks, |plans|).Drawable(draws)
    requires IsChoice(track.samples, draws, BucketWindow(track, ticks, |plans|), plans, plan)
    ensures Planned(track, draws, ticks, plans + [plan])
  {
    hide IsChoice;
    var all := plans + [plan];
    forall b | 0 <= b < |all|
      ensures BucketWindow(track, ticks, b).Drawable(draws)
      ensures IsChoice(track.samples, draws, BucketWindow(track, ticks, b), all[..b], all[b])
    {
      assert all[..b] == plans[..b];
    }
  }

  // What each plan promises a viewer: its preview lies inside its bucket, and decoding starts
  // at the latest sync sample not after the target.
  ghost predicate Honours(track: VideoTrack, ticks: nat, bucket: nat, plan: SamplePlan)
    requires track.presentationStart <= track.presentationEnd
  {
    var window := BucketWindow(track, ticks, bucket);
    && plan.bucketIndex == bucket
    && window.start <= plan.targetTime && plan.presentationEndTime == plan.targetTime + ticks <= window.end
    && exists k: nat :: && IsLatestSync(track.samples, plan.targetTime, k)
                        && plan.decodeStartSample == track.samples[k].index
                        && plan.decodeStartTime == track.samples[k].presentationTime
  }

  lemma ChoiceHonours(track: VideoTrack, draws: Draws, ticks: nat, plans: seq<SamplePlan>, b: nat)
    requires track.presentationStart <= track.presentationEnd
    requires Planned(track, draws, ticks, plans) && b < |plans|
    ensures Honours(track, ticks, b, plans[b])
    ensures !IsUsed(plans[..b], plans[b].decodeStartSample)
  {
  }

  // Where a plan's preview lies, and how its target was drawn.
  lemma TargetMeans(track: VideoTrack, draws: Draws, ticks: nat, plans: seq<SamplePlan>, b: nat)
    returns (attempt: nat, steps: nat)
    requires track.presentationStart < track.presentationEnd
    requires Planned(track, draws, ticks, plans) && b < |plans|
    ensures var start, n := track.presentationStart, track.presentationEnd - track.presentationStart;
      var first, last := start + n * b / 3, start + n * (b + 1) / 3 - ticks;
      && plans[b].bucketIndex == b < 3 && attempt < 128 && first <= plans[b].targetTime <= last
      && plans[b].presentationEndTime == plans[b].targetTime + ticks
      && plans[b].targetTime == first + draws(b, CounterAfter(attempt, steps)) % (last - first + 1)
  {
    hide Succeeds, IsLatestSync, CounterAfter, HasAccepted, Offset;
    var window := BucketWindow(track, ticks, b);
    var k: nat;
    attempt, k := ChosenAttempt(track.samples, draws, window, plans[..b], plans[b]);
    steps := OffsetMeans(draws, b, attempt, window.Range());
  }

  lemma ChosenAttempt(samples: seq<VideoSample>, draws: Draws, window: Window, earlier: seq<SamplePlan>,
                      plan: SamplePlan) returns (attempt: nat, k: nat)
    requires window.Drawable(draws) && IsChoice(samples, draws, window, earlier, plan)
    ensures attempt < MAX_ATTEMPTS_PER_BUCKET && IsLatestSync(samples, window.Target(draws, attempt), k)
    ensures plan == AlignedPlan(window, window.Target(draws, attempt), samples[k])
  {
    attempt, k :| && attempt < MAX_ATTEMPTS_PER_BUCKET && AlignsTo(samples, draws, window, attempt, k)
                  && plan == AlignedPlan(window, window.Target(draws, attempt), samples[k]);
  }

  // The sync sample that decoding starts from: none lies between it and the target.
  lemma StartMeans(track: VideoTrack, draws: Draws, ticks: nat, plans: seq<SamplePlan>, b: nat) returns (k: nat)
    requires track.presentationStart < track.presentationEnd
    requires Planned(track, draws, ticks, plans) && b < |plans|
    ensures k < |track.samples| && track.samples[k].isSync
    ensures plans[b].decodeStartSample == track.samples[k].index
    ensures plans[b].decodeStartTime == track.samples[k].presentationTime <= plans[b].targetTime
    ensures forall i :: 0 <= i < |track.samples| && track.samples[i].isSync ==>
      track.samples[i].presentationTime <= track.samples[k].presentationTime
      || track.samples[i].presentationTime > plans[b].targetTime
  {
    hide Succeeds, IsLatestSync, Offset;
    var window := BucketWindow(track, ticks, b);
    var attempt: nat;
    attempt, k := ChosenAttempt(track.samples, draws, window, plans[..b], plans[b]);
    LatestSyncMeans(track.samples, window.Target(draws, attempt), k);
  }

  // Over the whole timeline: every plan honours its bucket, the previews are disjoint and in
  // order, and the decode starts strictly increase, even between samples with equal times.
  lemma PlansInOrder(track: VideoTrack, draws: Draws, ticks: nat, plans: seq<SamplePlan>, a: nat, b: nat)
    requires track.presentationStart < track.presentationEnd
    requires Planned(track, draws, ticks, plans) && a < b < |plans|
    ensures Honours(track, ticks, a, plans[a]) && Honours(track, ticks, b, plans[b])
    ensures plans[a].presentationEndTime <= plans[b].targetTime
    ensures plans[a].decodeStartTime < plans[b].decodeStartTime
    ensures track.presentationStart <= plans[a].targetTime && plans[b].presentationEndTime <= track.presentationEnd
  {
    hide IsChoice;
    ChoiceHonours(track, draws, ticks, plans, a);
    ChoiceHonours(track, draws, ticks, plans, b);
    BucketsOrdered(track.presentationStart, track.presentationEnd, a, b);
    var j: nat :| && IsLatestSync(track.samples, plans[a].targetTime, j)
                  && plans[a].decodeStartSample == track.samples[j].index
                  && plans[a].decodeStartTime == track.samples[j].presentationTime;
    var k: nat :| && IsLatestSync(track.samples, plans[b].targetTime, k)
                  && plans[b].decodeStartSample == track.samples[k].index
                  && plans[b].decodeStartTime == track.samples[k].presentationTime;
    LatestSyncMonotonic(track.samples, plans[a].targetTime, plans[b].targetTime, j, k);
    assert plans[..b][a].decodeStartSample == plans[a].decodeStartSample;
  }

  lemma BucketsOrdered(start: int, end: int, a: nat, b: nat)
    requires start < end && a < b < 3
    ensures start <= Boundary(start, end, a) && Boundary(start, end, a + 1) <= Boundary(start, end, b)
    ensures Boundary(start, end, b + 1) <= end
  {
  }
}
