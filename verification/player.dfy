/**
 * The player (`player/main.go`): reads the sample log, drops its first
 * record as the header, and replays every well-formed record as a sleep
 * followed by a pointer move. Sleeping and moving are emitted as events
 * rather than performed.
 */
module Player {
  import opened Wrappers
  import opened Geometry
  import opened Log

  /** `Sleep(ms)`: `time.Sleep` of `ms` milliseconds (a negative amount returns at once). `Move(p)`: `robotgo.Move`. */
  datatype Event = Sleep(millis: int) | Move(to: Point)

  /** The records after the header: the first record is dropped whatever it holds. */
  function Body(records: seq<seq<string>>): (body: seq<seq<string>>)
    ensures |records| > 0 ==> |body| == |records| - 1 && records == [records[0]] + body
    ensures |records| == 0 ==> body == []
  {
    if |records| > 0 then records[1..] else records
  }

  /**
   * The replay loop over the records `rest` that remain. `atStart` holds
   * exactly while the loop index is 0, and `last` is `lastTimestamp`. A
   * well-formed record sleeps for its distance from `last` unless it is at
   * index 0, then moves; it becomes the new `last`. A malformed record does
   * nothing and leaves `last` alone.
   */
  function Replay(s: Screen, rest: seq<seq<string>>, atStart: bool, last: int): seq<Event>
    requires HasPhysicalExtent(s)
    decreases |rest|
  {
    if rest == [] then []
    else match ParseRecord(rest[0])
      case None => Replay(s, rest[1..], false, last)
      case Some(r) =>
        (if atStart then [] else [Sleep(r.offset - last)])
        + [Move(ToLogical(s, Point(r.x, r.y)))]
        + Replay(s, rest[1..], false, r.offset)
  }

  /** The whole program: header removal, the physical-size guard, then the replay loop from index 0. */
  function Play(s: Screen, records: seq<seq<string>>): (r: Result<seq<Event>, Fatal>)
    ensures r.Failure? <==> s.physical.width == 0 || s.physical.height == 0
  {
    if !HasPhysicalExtent(s) then Failure(NoPhysicalDimensions)
    else Success(Replay(s, Body(records), true, 0))
  }

  // ---- Reference views of a replay ----

  /** The samples of the well-formed records, in file order. */
  function Played(rs: seq<seq<string>>): seq<Sample>
    decreases |rs|
  {
    if rs == [] then []
    else match ParseRecord(rs[0])
      case None => Played(rs[1..])
      case Some(r) => [r] + Played(rs[1..])
  }

  /** Each sample's position carried into the logical space. */
  function Targets(s: Screen, samples: seq<Sample>): (ps: seq<Point>)
    requires HasPhysicalExtent(s)
    ensures |ps| == |samples|
    ensures forall i | 0 <= i < |samples| :: ps[i] == ToLogical(s, Point(samples[i].x, samples[i].y))
    decreases |samples|
  {
    if samples == [] then [] else [ToLogical(s, Point(samples[0].x, samples[0].y))] + Targets(s, samples[1..])
  }

  function Moves(events: seq<Event>): seq<Point>
    decreases |events|
  {
    if events == [] then []
    else (if events[0].Move? then [events[0].to] else []) + Moves(events[1..])
  }

  function Sleeps(events: seq<Event>): seq<int>
    decreases |events|
  {
    if events == [] then []
    else (if events[0].Sleep? then [events[0].millis] else []) + Sleeps(events[1..])
  }

  function Sum(xs: seq<int>): int
    decreases |xs|
  {
    if xs == [] then 0 else xs[0] + Sum(xs[1..])
  }

  lemma {:induction false} MovesAppend(a: seq<Event>, b: seq<Event>)
    ensures Moves(a + b) == Moves(a) + Moves(b)
    decreases |a|
  {
    if a != [] {
      assert (a + b)[1..] == a[1..] + b;
      MovesAppend(a[1..], b);
    } else {
      assert a + b == b;
    }
  }

  lemma {:induction false} SleepsAppend(a: seq<Event>, b: seq<Event>)
    ensures Sleeps(a + b) == Sleeps(a) + Sleeps(b)
    decreases |a|
  {
    if a != [] {
      assert (a + b)[1..] == a[1..] + b;
      SleepsAppend(a[1..], b);
    } else {
      assert a + b == b;
    }
  }

  /** Whether the record at loop index 0 is exempt from sleeping: it is at index 0 and well-formed. */
  predicate ExemptHead(rs: seq<seq<string>>, atStart: bool) {
    atStart && |rs| > 0 && ParseRecord(rs[0]).Some?
  }

  /**
   * The schedule of a sequence of played samples, stated on the samples
   * alone: each sample sleeps for its offset minus the previous sample's
   * (the first one minus `from`), unless it is exempt, and then moves.
   */
  function Schedule(s: Screen, p: seq<Sample>, exempt: bool, from: int): seq<Event>
    requires HasPhysicalExtent(s)
    decreases |p|
  {
    if p == [] then []
    else (if exempt then [] else [Sleep(p[0].offset - from)])
         + [Move(ToLogical(s, Point(p[0].x, p[0].y)))]
         + Schedule(s, p[1..], false, p[0].offset)
  }

  /** The distances between consecutive offsets, the first one measured from `from`. */
  function Gaps(p: seq<Sample>, from: int): (g: seq<int>)
    ensures |g| == |p|
    ensures forall i | 0 <= i < |p| :: g[i] == p[i].offset - (if i == 0 then from else p[i - 1].offset)
    decreases |p|
  {
    if p == [] then [] else [p[0].offset - from] + Gaps(p[1..], p[0].offset)
  }

  // ---- Properties of the replay loop ----

  /**
   * The replay loop follows the schedule of the well-formed records: every
   * delay is the record's offset minus the last played one, and each sleep
   * comes right before its own record's move.
   */
  lemma {:induction false} ReplayFollowsSchedule(s: Screen, rs: seq<seq<string>>, atStart: bool, last: int)
    requires HasPhysicalExtent(s)
    ensures Replay(s, rs, atStart, last) == Schedule(s, Played(rs), ExemptHead(rs, atStart), last)
    decreases |rs|
  {
    if rs != [] {
      match ParseRecord(rs[0])
      case None =>
        ReplayFollowsSchedule(s, rs[1..], false, last);
      case Some(r) =>
        ReplayFollowsSchedule(s, rs[1..], false, r.offset);
        var p := Played(rs);
        assert p == [r] + Played(rs[1..]);
        assert p[0] == r && p[1..] == Played(rs[1..]);
    }
  }

  /** The sleeps of a schedule are exactly the gaps between its samples' offsets. */
  lemma {:induction false} ScheduleSleeps(s: Screen, p: seq<Sample>, exempt: bool, from: int)
    requires HasPhysicalExtent(s)
    ensures Sleeps(Schedule(s, p, exempt, from))
      == if p == [] then [] else if exempt then Gaps(p[1..], p[0].offset) else Gaps(p, from)
  {
    if p != [] {
      if exempt {
        var m := [Move(ToLogical(s, Point(p[0].x, p[0].y)))];
        var tail := Schedule(s, p[1..], false, p[0].offset);
        assert Schedule(s, p, exempt, from) == m + tail;
        SleepsAppend(m, tail);
        UnexemptScheduleSleeps(s, p[1..], p[0].offset);
      } else {
        UnexemptScheduleSleeps(s, p, from);
      }
    }
  }

  lemma {:induction false} UnexemptScheduleSleeps(s: Screen, p: seq<Sample>, from: int)
    requires HasPhysicalExtent(s)
    ensures Sleeps(Schedule(s, p, false, from)) == Gaps(p, from)
    decreases |p|
  {
    if p != [] {
      var head := [Sleep(p[0].offset - from), Move(ToLogical(s, Point(p[0].x, p[0].y)))];
      var tail := Schedule(s, p[1..], false, p[0].offset);
      assert Schedule(s, p, false, from) == head + tail;
      UnexemptScheduleSleeps(s, p[1..], p[0].offset);
      SleepsAppend(head, tail);
      assert Sleeps(head) == [p[0].offset - from];
    }
  }

  /** The moves are exactly the well-formed records' positions, one each, in file order. */
  lemma {:induction false} MovesFollowRecords(s: Screen, rs: seq<seq<string>>, atStart: bool, last: int)
    requires HasPhysicalExtent(s)
    ensures Moves(Replay(s, rs, atStart, last)) == Targets(s, Played(rs))
    decreases |rs|
  {
    if rs != [] {
      MovesFollowRecords(s, rs[1..], false, last);
      match ParseRecord(rs[0])
      case None =>
      case Some(r) =>
        var head := (if atStart then [] else [Sleep(r.offset - last)]) + [Move(ToLogical(s, Point(r.x, r.y)))];
        MovesFollowRecords(s, rs[1..], false, r.offset);
        MovesAppend(head, Replay(s, rs[1..], false, r.offset));
        MovesAppend(if atStart then [] else [Sleep(r.offset - last)], [Move(ToLogical(s, Point(r.x, r.y)))]);
        assert Played(rs) == [r] + Played(rs[1..]);
    }
  }

  /** Every well-formed record sleeps once, except one exempt at loop index 0. */
  lemma {:induction false} SleepCount(s: Screen, rs: seq<seq<string>>, atStart: bool, last: int)
    requires HasPhysicalExtent(s)
    ensures |Sleeps(Replay(s, rs, atStart, last))| == |Played(rs)| - (if ExemptHead(rs, atStart) then 1 else 0)
    decreases |rs|
  {
    if rs != [] {
      match ParseRecord(rs[0])
      case None =>
        SleepCount(s, rs[1..], false, last);
      case Some(r) =>
        var pre := if atStart then [] else [Sleep(r.offset - last)];
        SleepCount(s, rs[1..], false, r.offset);
        SleepsAppend(pre + [Move(ToLogical(s, Point(r.x, r.y)))], Replay(s, rs[1..], false, r.offset));
        SleepsAppend(pre, [Move(ToLogical(s, Point(r.x, r.y)))]);
    }
  }

  /**
   * The delays are differences of absolute offsets, so they telescope: their
   * sum is the last played offset minus the offset the first delay is
   * measured from, which is the exempt record's own offset or else `last`.
   */
  lemma {:induction false} SleepsTelescope(s: Screen, rs: seq<seq<string>>, atStart: bool, last: int)
    requires HasPhysicalExtent(s)
    ensures var p := Played(rs);
      Sum(Sleeps(Replay(s, rs, atStart, last)))
      == if p == [] then 0
         else p[|p| - 1].offset - (if ExemptHead(rs, atStart) then p[0].offset else last)
    decreases |rs|
  {
    if rs != [] {
      match ParseRecord(rs[0])
      case None =>
        SleepsTelescope(s, rs[1..], false, last);
      case Some(r) =>
        var pre := if atStart then [] else [Sleep(r.offset - last)];
        var tail := Replay(s, rs[1..], false, r.offset);
        SleepsTelescope(s, rs[1..], false, r.offset);
        SleepsAppend(pre + [Move(ToLogical(s, Point(r.x, r.y)))], tail);
        SleepsAppend(pre, [Move(ToLogical(s, Point(r.x, r.y)))]);
        SumAppend(Sleeps(pre), Sleeps(tail));
        assert Played(rs) == [r] + Played(rs[1..]);
    }
  }

  lemma {:induction false} SumAppend(a: seq<int>, b: seq<int>)
    ensures Sum(a + b) == Sum(a) + Sum(b)
    decreases |a|
  {
    if a != [] {
      assert (a + b)[1..] == a[1..] + b;
      SumAppend(a[1..], b);
    } else {
      assert a + b == b;
    }
  }

  /**
   * A malformed record anywhere after loop index 0 is invisible: inserting
   * one there changes neither the sleeps nor the moves.
   */
  lemma {:induction false} MalformedRecordInvisible(s: Screen, rs: seq<seq<string>>, k: nat, bad: seq<string>, atStart: bool, last: int)
    requires HasPhysicalExtent(s)
    requires 0 < k <= |rs| && ParseRecord(bad).None?
    ensures Replay(s, rs[..k] + [bad] + rs[k..], atStart, last) == Replay(s, rs, atStart, last)
    decreases k
  {
    var ins := rs[..k] + [bad] + rs[k..];
    assert ins[0] == rs[0];
    var next := match ParseRecord(rs[0]) case None => last case Some(r) => r.offset;
    if k == 1 {
      assert ins[1..] == [bad] + rs[1..];
      assert ([bad] + rs[1..])[1..] == rs[1..];
    } else {
      assert ins[1..] == rs[1..][..k - 1] + [bad] + rs[1..][k - 1..];
      MalformedRecordInvisible(s, rs[1..], k - 1, bad, false, next);
    }
  }

  /**
   * A malformed record at loop index 0 is not invisible: it shifts the
   * first record off index 0, so that record, when well-formed, now sleeps
   * its whole offset measured from 0.
   */
  lemma MalformedHeadShiftsExemption(s: Screen, rs: seq<seq<string>>, bad: seq<string>)
    requires HasPhysicalExtent(s)
    requires ParseRecord(bad).None?
    ensures Replay(s, [bad] + rs, true, 0)
      == if ExemptHead(rs, true) then [Sleep(ParseRecord(rs[0]).value.offset)] + Replay(s, rs, true, 0)
         else Replay(s, rs, true, 0)
  {
    assert ([bad] + rs)[1..] == rs;
    if ExemptHead(rs, true) {
      var r := ParseRecord(rs[0]).value;
      var m := [Move(ToLogical(s, Point(r.x, r.y)))];
      assert [Sleep(r.offset - 0)] + m + Replay(s, rs[1..], false, r.offset)
        == [Sleep(r.offset)] + ([] + m + Replay(s, rs[1..], false, r.offset));
    }
  }

  /** When the first body record is malformed, the first played record waits its full offset. */
  lemma SkippedHeadWaitsFullOffset(s: Screen, body: seq<seq<string>>)
    requires HasPhysicalExtent(s)
    requires |body| > 0 && ParseRecord(body[0]).None? && Played(body) != []
    ensures var events := Replay(s, body, true, 0);
      |events| > 0 && events[0] == Sleep(Played(body)[0].offset)
  {
    FirstPlayedSleepsFrom(s, body[1..], 0);
  }

  lemma {:induction false} FirstPlayedSleepsFrom(s: Screen, rs: seq<seq<string>>, last: int)
    requires HasPhysicalExtent(s)
    requires Played(rs) != []
    ensures var events := Replay(s, rs, false, last);
      |events| > 0 && events[0] == Sleep(Played(rs)[0].offset - last)
    decreases |rs|
  {
    if ParseRecord(rs[0]).None? {
      FirstPlayedSleepsFrom(s, rs[1..], last);
    }
  }

  /** When offsets never decrease and start at or above 0, no delay is negative. */
  lemma {:induction false} SleepsNonNegative(s: Screen, rs: seq<seq<string>>, atStart: bool, last: int)
    requires HasPhysicalExtent(s)
    requires forall i, j | 0 <= i < j < |Played(rs)| :: Played(rs)[i].offset <= Played(rs)[j].offset
    requires forall i | 0 <= i < |Played(rs)| :: last <= Played(rs)[i].offset
    ensures forall i | 0 <= i < |Sleeps(Replay(s, rs, atStart, last))| :: Sleeps(Replay(s, rs, atStart, last))[i] >= 0
    decreases |rs|
  {
    if rs != [] {
      var p := Played(rs);
      match ParseRecord(rs[0])
      case None =>
        SleepsNonNegative(s, rs[1..], false, last);
      case Some(r) =>
        var pre := if atStart then [] else [Sleep(r.offset - last)];
        var tail := Replay(s, rs[1..], false, r.offset);
        assert p == [r] + Played(rs[1..]);
        assert forall i | 0 <= i < |Played(rs[1..])| :: Played(rs[1..])[i] == p[i + 1];
        assert forall i | 0 <= i < |Played(rs[1..])| :: r.offset <= Played(rs[1..])[i].offset by {
          forall i | 0 <= i < |Played(rs[1..])| ensures r.offset <= Played(rs[1..])[i].offset {
            assert p[0] == r && p[i + 1] == Played(rs[1..])[i];
          }
        }
        SleepsNonNegative(s, rs[1..], false, r.offset);
        SleepsAppend(pre + [Move(ToLogical(s, Point(r.x, r.y)))], tail);
        SleepsAppend(pre, [Move(ToLogical(s, Point(r.x, r.y)))]);
    }
  }

  /** A run of records none of which parses replays to nothing. */
  lemma {:induction false} ReplayOfMalformed(s: Screen, rs: seq<seq<string>>, atStart: bool, last: int)
    requires HasPhysicalExtent(s)
    requires forall i | 0 <= i < |rs| :: ParseRecord(rs[i]).None?
    ensures Replay(s, rs, atStart, last) == []
    decreases |rs|
  {
    if rs != [] {
      assert ParseRecord(rs[0]).None?;
      assert forall i | 0 <= i < |rs[1..]| :: rs[1..][i] == rs[i + 1];
      ReplayOfMalformed(s, rs[1..], false, last);
    }
  }

  /**
   * Reading the file fails unless every record has the field count of the
   * first, so the field-count check only ever skips when all records share
   * a count other than 3; such a file plays nothing.
   */
  lemma WrongWidthPlaysNothing(s: Screen, records: seq<seq<string>>)
    requires HasPhysicalExtent(s)
    requires |records| > 0 && |records[0]| != 3
    requires forall i | 0 <= i < |records| :: |records[i]| == |records[0]|
    ensures Play(s, records) == Success([])
  {
    var body := Body(records);
    forall i | 0 <= i < |body| ensures ParseRecord(body[i]).None? {
      assert body[i] == records[i + 1];
    }
    ReplayOfMalformed(s, body, true, 0);
  }

  // ---- Properties of the whole program ----

  /** The header's contents never matter. */
  lemma HeaderIgnored(s: Screen, h1: seq<string>, h2: seq<string>, body: seq<seq<string>>)
    ensures Play(s, [h1] + body) == Play(s, [h2] + body)
  {
    assert ([h1] + body)[1..] == body == ([h2] + body)[1..];
  }

  /**
   * A successful playback moves once per well-formed body record, in file
   * order, and nowhere else; each of those records first sleeps its offset
   * minus the previous played offset (the first one minus 0), except one
   * well-formed at index 0; and so the delays add up to the last played
   * offset minus the offset of record 0 when that record played, or minus 0.
   */
  lemma PlaybackSchedule(s: Screen, records: seq<seq<string>>)
    requires HasPhysicalExtent(s)
    ensures Play(s, records).Success?
    ensures var events := Play(s, records).value;
      var body := Body(records);
      var p := Played(body);
      && Moves(events) == Targets(s, p)
      && |Sleeps(events)| == |p| - (if ExemptHead(body, true) then 1 else 0)
      && Sum(Sleeps(events)) == (if p == [] then 0 else p[|p| - 1].offset - (if ExemptHead(body, true) then p[0].offset else 0))
      && events == Schedule(s, p, ExemptHead(body, true), 0)
      && Sleeps(events) == (if p == [] then [] else if ExemptHead(body, true) then Gaps(p[1..], p[0].offset) else Gaps(p, 0))
  {
    var body := Body(records);
    ReplayFollowsSchedule(s, body, true, 0);
    ScheduleSleeps(s, Played(body), ExemptHead(body, true), 0);
    MovesFollowRecords(s, body, true, 0);
    SleepCount(s, body, true, 0);
    SleepsTelescope(s, body, true, 0);
  }

  /** One iteration of the replay loop, unfolded. */
  lemma ReplayStep(s: Screen, rest: seq<seq<string>>, atStart: bool, last: int)
    requires HasPhysicalExtent(s) && rest != []
    ensures ParseRecord(rest[0]).None? ==> Replay(s, rest, atStart, last) == Replay(s, rest[1..], false, last)
    ensures ParseRecord(rest[0]).Some? ==>
      var r := ParseRecord(rest[0]).value;
      Replay(s, rest, atStart, last)
      == (if atStart then [] else [Sleep(r.offset - last)]) + [Move(ToLogical(s, Point(r.x, r.y)))]
         + Replay(s, rest[1..], false, r.offset)
  {
  }

  /** The replay loop as `player/main.go` writes it: an index, `lastTimestamp`, and `continue` on a bad record. */
  method PlayLoop(s: Screen, records: seq<seq<string>>) returns (r: Result<seq<Event>, Fatal>)
    ensures r == Play(s, records)
  {
    var body := Body(records);
    if !HasPhysicalExtent(s) {
      return Failure(NoPhysicalDimensions);
    }
    var events: seq<Event> := [];
    var lastTimestamp := 0;
    for i := 0 to |body|
      invariant events + Replay(s, body[i..], i == 0, lastTimestamp) == Replay(s, body, true, 0)
    {
      ghost var before := lastTimestamp;
      assert body[i..][1..] == body[i + 1..];
      assert body[i..][0] == body[i];
      ReplayStep(s, body[i..], i == 0, before);
      var rec := ParseRecord(body[i]);
      if rec.None? {
        assert Replay(s, body[i..], i == 0, before) == Replay(s, body[i + 1..], false, before);
        continue;
      }
      var sample := rec.value;
      var step: seq<Event> := [];
      if i > 0 {
        step := [Sleep(sample.offset - lastTimestamp)];
      }
      step := step + [Move(ToLogical(s, Point(sample.x, sample.y)))];
      lastTimestamp := sample.offset;
      assert Replay(s, body[i..], i == 0, before) == step + Replay(s, body[i + 1..], false, lastTimestamp);
      events := events + step;
      assert events + Replay(s, body[i + 1..], false, lastTimestamp) == Replay(s, body, true, 0);
    }
    assert body[|body|..] == [];
    assert events == Replay(s, body, true, 0);
    r := Success(events);
    assert r == Play(s, records);
  }
}
