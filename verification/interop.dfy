/**
 * What the player makes of the files the two recorders write. The vision
 * recorder's file is the player's input format; the ground-truth
 * recorder's file shares the `.csv` form but not the record shape, since its
 * coordinates are fractions.
 */
module Interop {
  import opened Wrappers
  import opened Geometry
  import opened Log
  import opened Player
  import VisionRecorder
  import GroundTruthRecorder

  /** Reading back the records of some samples yields exactly those samples. */
  lemma {:induction false} PlayedRecords(samples: seq<Sample>)
    ensures Played(VisionRecorder.Records(samples)) == samples
    decreases |samples|
  {
    if samples != [] {
      var rs := VisionRecorder.Records(samples);
      ParseFormatRecord(samples[0]);
      assert rs[1..] == VisionRecorder.Records(samples[1..]);
      PlayedRecords(samples[1..]);
    }
  }

  /**
   * A file the vision recorder wrote on screen `s1` replays on screen `s2`
   * as one move per recorded sample, to the sample carried once more from
   * `s2`'s physical into its logical space; the first move without a sleep,
   * and before every later move a sleep of exactly the gap between its
   * sample and the one before; so the delays add up to the recording's span.
   */
  lemma VisionLogReplays(s1: Screen, s2: Screen, ticks: seq<VisionRecorder.Tick>)
    requires HasPhysicalExtent(s1) && HasPhysicalExtent(s2)
    ensures VisionRecorder.Record(s1, ticks).Success?
    ensures Play(s2, VisionRecorder.Record(s1, ticks).value).Success?
    ensures var samples := VisionRecorder.Samples(s1, ticks);
      var events := Play(s2, VisionRecorder.Record(s1, ticks).value).value;
      && events == Schedule(s2, samples, samples != [], 0)
      && Moves(events) == Targets(s2, samples)
      && (samples != [] ==> Sleeps(events) == Gaps(samples[1..], samples[0].offset))
      && |Sleeps(events)| == (if samples == [] then 0 else |samples| - 1)
      && Sum(Sleeps(events)) == (if samples == [] then 0 else samples[|samples| - 1].offset - samples[0].offset)
  {
    var samples := VisionRecorder.Samples(s1, ticks);
    var records := VisionRecorder.Record(s1, ticks).value;
    var body := VisionRecorder.Records(samples);
    assert records == [VisionRecorder.Header] + body;
    assert Body(records) == body;
    PlayedRecords(samples);
    if samples != [] {
      ParseFormatRecord(samples[0]);
      assert ExemptHead(body, true);
    }
    PlaybackSchedule(s2, records);
  }

  /**
   * On a screen whose logical and physical sizes agree, a vision recording
   * replays to exactly the recorded positions.
   */
  lemma VisionLogReplaysAtRecordedPoints(s1: Screen, s2: Screen, ticks: seq<VisionRecorder.Tick>)
    requires HasPhysicalExtent(s1) && HasPhysicalExtent(s2) && s2.logical == s2.physical
    ensures VisionRecorder.Record(s1, ticks).Success?
    ensures var samples := VisionRecorder.Samples(s1, ticks);
      var moves := Moves(Play(s2, VisionRecorder.Record(s1, ticks).value).value);
      |moves| == |samples|
      && forall i | 0 <= i < |samples| :: moves[i] == Point(samples[i].x, samples[i].y)
  {
    VisionLogReplays(s1, s2, ticks);
    var samples := VisionRecorder.Samples(s1, ticks);
    forall i | 0 <= i < |samples|
      ensures ToLogical(s2, Point(samples[i].x, samples[i].y)) == Point(samples[i].x, samples[i].y)
    {
      ToLogicalIdentity(s2, Point(samples[i].x, samples[i].y));
    }
  }

  /**
   * The ground-truth file is not a recording the player can replay: every
   * record's coordinates are written with a decimal point, the player's
   * integer parse rejects them, and the playback is empty.
   */
  lemma GroundTruthLogUnplayable(s1: Screen, s2: Screen, ticks: seq<GroundTruthRecorder.Tick>)
    requires HasPhysicalExtent(s2)
    ensures Play(s2, GroundTruthRecorder.Record(s1, ticks).0) == Success([])
  {
    var records := GroundTruthRecorder.Record(s1, ticks).0;
    var written := GroundTruthRecorder.WrittenPrimaries(s1, ticks);
    var body := Body(records);
    assert body == GroundTruthRecorder.Records(written);
    forall i | 0 <= i < |body| ensures ParseRecord(body[i]).None? {
      GroundTruthRecorder.PrimaryRecordFields(written[i]);
    }
    ReplayOfMalformed(s2, body, true, 0);
  }
}
