/**
 * The vision-driven recorder (`main.go`): every tick captures the screen,
 * asks the vision model where the pointer is, and writes the answer,
 * carried into the logical space, as one sample record. Any failing step
 * drops the tick without a record.
 */
module VisionRecorder {
  import opened Wrappers
  import opened Strings
  import opened Conv
  import opened Numeric
  import opened Geometry
  import opened Log
  import opened Gemini

  const Header: seq<string> := ["timestamp", "x", "y"]

  /**
   * What one tick observes: the tick's time since the loop started, whether
   * the capture and the PNG encoding succeeded, the model's reply, and
   * whether the tick's record reached the file (the writer accepted it and
   * the buffered row was later flushed).
   */
  datatype Tick = Tick(elapsedNanos: int, captured: bool, encoded: bool, reply: Reply, written: bool)

  /**
   * The reply parser: the whole text is trimmed, split at every comma, and
   * accepted only as exactly two pieces that `strconv.Atoi` both accepts.
   */
  function ParseReply(text: string): (r: Option<Point>)
    ensures r.Some? ==> Count(TrimSpace(text), ',') == 1
  {
    var parts := Split(TrimSpace(text), ',');
    if |parts| == 2 then
      match (Atoi(parts[0]), Atoi(parts[1]))
      case (Some(x), Some(y)) => Some(Point(x, y))
      case _ => None
    else None
  }

  /** A reply whose trimmed text is two integers around one comma is accepted with those integers. */
  lemma ReplyAccepted(text: string, a: string, b: string)
    requires TrimSpace(text) == a + [','] + b
    requires Atoi(a).Some? && Atoi(b).Some?
    ensures ParseReply(text) == Some(Point(Atoi(a).value, Atoi(b).value))
  {
    SplitIntoTwo(TrimSpace(text), ',', a, b);
  }

  /** Conversely, an accepted reply is, once trimmed, two integers around its only comma. */
  lemma ReplyShape(text: string) returns (a: string, b: string)
    requires ParseReply(text).Some?
    ensures TrimSpace(text) == a + [','] + b
    ensures Atoi(a) == Some(ParseReply(text).value.x) && Atoi(b) == Some(ParseReply(text).value.y)
  {
    var parts := Split(TrimSpace(text), ',');
    a, b := parts[0], parts[1];
    SplitIntoTwo(TrimSpace(text), ',', a, b);
  }

  /**
   * The pieces are not trimmed one by one: once the ends are trimmed, an
   * accepted reply holds no white space anywhere.
   */
  lemma AcceptedReplyHasNoInnerSpace(text: string)
    requires ParseReply(text).Some?
    ensures forall i | 0 <= i < |TrimSpace(text)| :: !IsSpace(TrimSpace(text)[i])
  {
    var t := TrimSpace(text);
    var a, b := ReplyShape(text);
    DecimalIntegerHasNoSpace(a);
    DecimalIntegerHasNoSpace(b);
    forall i | 0 <= i < |t| ensures !IsSpace(t[i]) {
      if i < |a| {
        assert t[i] == a[i];
      } else if i > |a| {
        assert t[i] == b[i - |a| - 1];
      }
    }
  }

  /** So `12, 34` is rejected: the space after the comma stays in the second piece. */
  lemma ReplyRejectsInnerSpace()
    ensures ParseReply("12, 34") == None
  {
    var text := "12, 34";
    assert !IsSpace(text[0]) && !IsSpace(text[|text| - 1]);
    TrimSpaceFixed(text);
    assert text[3] == ' ';
    if ParseReply(text).Some? {
      AcceptedReplyHasNoInnerSpace(text);
    }
  }

  /**
   * A reply in the form the prompt asks for, `x,y` with `%d` integers, is
   * accepted with exactly those integers, whatever white space surrounds it.
   */
  lemma ReplyRoundTrip(x: int, y: int, pre: string, post: string)
    requires AllSpace(pre) && AllSpace(post)
    ensures ParseReply(pre + FormatInt(x) + [','] + FormatInt(y) + post) == Some(Point(x, y))
  {
    var a, b := FormatInt(x), FormatInt(y);
    var core := a + [','] + b;
    DecimalIntegerHasNoSpace(a);
    DecimalIntegerHasNoSpace(b);
    assert core[0] == a[0] && core[|core| - 1] == b[|b| - 1];
    TrimSpaceOfPadded(pre, core, post);
    assert pre + a + [','] + b + post == pre + core + post;
    ReplyAccepted(pre + core + post, a, b);
  }

  /** Every step of the tick succeeded. */
  predicate Succeeds(t: Tick) {
    t.captured && t.encoded && t.reply.Text? && ParseReply(t.reply.text).Some?
  }

  /**
   * The sample a tick produces: the estimate carried into the logical
   * space, stamped with the tick's elapsed milliseconds; nothing unless
   * every step succeeded.
   */
  function TickSample(s: Screen, t: Tick): (r: Option<Sample>)
    requires HasPhysicalExtent(s)
    ensures r.Some? <==> Succeeds(t)
    ensures r.Some? ==> Point(r.value.x, r.value.y) == ToLogical(s, ParseReply(t.reply.text).value)
    ensures r.Some? ==> r.value.offset == Millis(t.elapsedNanos)
  {
    if !t.captured then None
    else if !t.encoded then None
    else match t.reply
      case CallFailed => None
      case NoText => None
      case Text(text) =>
        match ParseReply(text)
        case None => None
        case Some(g) =>
          var q := ToLogical(s, g);
          Some(Sample(Millis(t.elapsedNanos), q.x, q.y))
  }

  /** The samples that reach the file, in tick order. */
  function Samples(s: Screen, ticks: seq<Tick>): (samples: seq<Sample>)
    requires HasPhysicalExtent(s)
    ensures |samples| <= |ticks|
    decreases |ticks|
  {
    if ticks == [] then []
    else
      var t := ticks[|ticks| - 1];
      Samples(s, ticks[..|ticks| - 1])
      + (if t.written && TickSample(s, t).Some? then [TickSample(s, t).value] else [])
  }

  function Records(samples: seq<Sample>): (rs: seq<seq<string>>)
    ensures |rs| == |samples|
    ensures forall i | 0 <= i < |samples| :: rs[i] == FormatRecord(samples[i])
    decreases |samples|
  {
    if samples == [] then [] else [FormatRecord(samples[0])] + Records(samples[1..])
  }

  /**
   * The whole program. A zero physical dimension is fatal before anything is
   * written; otherwise the file holds the header exactly once, first, then
   * the records of the ticks that succeeded.
   */
  function Record(s: Screen, ticks: seq<Tick>): (r: Result<seq<seq<string>>, Fatal>)
    ensures r.Failure? <==> s.physical.width == 0 || s.physical.height == 0
    ensures r.Success? ==> |r.value| >= 1 && r.value[0] == Header && Header !in r.value[1..]
    ensures r.Success? ==> |r.value| <= |ticks| + 1 && r.value[1..] == Records(Samples(s, ticks))
  {
    if !HasPhysicalExtent(s) then Failure(NoPhysicalDimensions)
    else
      var records := Records(Samples(s, ticks));
      HeaderIsNoRecord(records);
      Success([Header] + records)
  }

  lemma HeaderIsNoRecord(records: seq<seq<string>>)
    requires forall i | 0 <= i < |records| :: |records[i]| == 3 && IsDecimalInteger(records[i][0])
    ensures Header !in records
  {
    assert !IsDecimalInteger(Header[0]) by {
      assert Header[0][0] == 't';
    }
  }

  // ---- Properties of the tick loop ----

  /** The loop is a fold: the ticks of a longer run add their samples after the earlier ones. */
  lemma {:induction false} SamplesAppend(s: Screen, a: seq<Tick>, b: seq<Tick>)
    requires HasPhysicalExtent(s)
    ensures Samples(s, a + b) == Samples(s, a) + Samples(s, b)
    decreases |b|
  {
    if b == [] {
      assert a + b == a;
    } else {
      assert (a + b)[..|a + b| - 1] == a + b[..|b| - 1];
      SamplesAppend(s, a, b[..|b| - 1]);
    }
  }

  /** A tick in which any step fails leaves the file exactly as if it had not happened. */
  lemma FailedTickInvisible(s: Screen, a: seq<Tick>, t: Tick, b: seq<Tick>)
    requires HasPhysicalExtent(s)
    requires !Succeeds(t)
    ensures Samples(s, a + [t] + b) == Samples(s, a + b)
  {
    SamplesAppend(s, a + [t], b);
    SamplesAppend(s, a, [t]);
    SamplesAppend(s, a, b);
    FailedTickAlone(s, t);
  }

  /** A failing tick on its own yields no sample. */
  lemma FailedTickAlone(s: Screen, t: Tick)
    requires HasPhysicalExtent(s)
    requires !Succeeds(t)
    ensures Samples(s, [t]) == []
  {
    assert [t][..0] == [];
  }

  /** When every tick succeeds and is written, there is exactly one record per tick. */
  lemma {:induction false} OneSamplePerSuccessfulTick(s: Screen, ticks: seq<Tick>)
    requires HasPhysicalExtent(s)
    requires forall i | 0 <= i < |ticks| :: Succeeds(ticks[i]) && ticks[i].written
    ensures |Samples(s, ticks)| == |ticks|
    decreases |ticks|
  {
    if ticks != [] {
      OneSamplePerSuccessfulTick(s, ticks[..|ticks| - 1]);
    }
  }

  /** No sample is stamped later than the latest tick. */
  lemma {:induction false} TimestampsBounded(s: Screen, ticks: seq<Tick>, bound: int)
    requires HasPhysicalExtent(s)
    requires forall i | 0 <= i < |ticks| :: ticks[i].elapsedNanos <= bound
    ensures forall i | 0 <= i < |Samples(s, ticks)| :: Samples(s, ticks)[i].offset <= Millis(bound)
    decreases |ticks|
  {
    if ticks != [] {
      var init := ticks[..|ticks| - 1];
      var t := ticks[|ticks| - 1];
      assert forall i | 0 <= i < |init| :: init[i] == ticks[i];
      TimestampsBounded(s, init, bound);
      MillisMonotone(t.elapsedNanos, bound);
    }
  }

  /** Ticks come in time order, so the recorded timestamps never decrease. */
  lemma {:induction false} TimestampsNonDecreasing(s: Screen, ticks: seq<Tick>)
    requires HasPhysicalExtent(s)
    requires forall i, j | 0 <= i < j < |ticks| :: ticks[i].elapsedNanos <= ticks[j].elapsedNanos
    ensures forall i, j | 0 <= i < j < |Samples(s, ticks)| :: Samples(s, ticks)[i].offset <= Samples(s, ticks)[j].offset
    decreases |ticks|
  {
    if ticks != [] {
      var init := ticks[..|ticks| - 1];
      var t := ticks[|ticks| - 1];
      assert forall i | 0 <= i < |init| :: init[i] == ticks[i];
      TimestampsNonDecreasing(s, init);
      TimestampsBounded(s, init, t.elapsedNanos);
      var p0 := Samples(s, init);
      var p := Samples(s, ticks);
      assert p0 <= p;
      assert forall i | |p0| <= i < |p| :: p[i].offset == Millis(t.elapsedNanos);
    }
  }
}
