/** From the boxes of a video track to its previews: the parser's track is what the planner
    needs. */
module PreviewSampling {
  import opened Mp4Boxes
  import opened SampleTables
  import opened TrackParser
  import opened VideoTracks
  import opened Wrappers
  import opened SamplePlanner

  datatype PreviewError = ParseFailed(parse: Mp4Error) | PlanFailed(plan: SamplingError)

  // The search for an offset ends wherever the planner gets on a track of these boxes.
  ghost predicate SearchesEnd(raw: RawTables, draws: Draws, previewDurationMs: nat)
  {
    forall track :: IsParsedFrom(track, raw) && track.presentationStart <= track.presentationEnd ==>
      Terminates(track, draws, PreviewTicks(track, previewDurationMs))
  }

  // Parses and plans. A parsed track is never found to have an invalid timeline, and neither
  // its bounds nor its timescale can be the reason of a failure.
  method SamplePreviews(raw: RawTables, fileLength: nat, draws: Draws, previewDurationMs: nat)
    returns (r: Result<seq<SamplePlan>, PreviewError>, ghost track: Option<VideoTrack>)
    requires fileLength <= U64_MAX && SearchesEnd(raw, draws, previewDurationMs)
    ensures r != Err(PlanFailed(InvalidTimeline))
    ensures track.None? <==> r.Err? && r.error.ParseFailed?
    ensures r.Err? && r.error.ParseFailed? ==> TrackFailWith(raw, r.error.parse)
    ensures track.Some? ==> IsParsedFrom(track.value, raw) && RangesInside(track.value.samples, fileLength)
    ensures track.Some? ==> track.value.presentationStart < track.value.presentationEnd
    ensures r == Err(PlanFailed(InvalidPreviewDuration)) <==> track.Some? && previewDurationMs == 0
    ensures r.Ok? ==> |r.value| == 3 &&
                      Planned(track.value, draws, PreviewTicks(track.value, previewDurationMs), r.value)
  {
    hide IsParsedFrom, RangesInside, Terminates, Planned, GivesUp, TrackFailWith;
    track := None;
    var parsed := ParseVideoTrack(raw, fileLength);
    if parsed.Err? {
      return Err(ParseFailed(parsed.error)), None;
    }
    track := Some(parsed.value);
    ParsedTrackMeans(parsed.value, raw);
    var plans := PlanThreeSamples(parsed.value, draws, previewDurationMs);
    r := if plans.Err? then Err(PlanFailed(plans.error)) else Ok(plans.value);
  }
}
