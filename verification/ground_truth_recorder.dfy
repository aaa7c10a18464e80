/**
 * The ground-truth recorder (`recorder/main.go`): every tick reads the
 * pointer position, writes it normalized by the logical screen size as the
 * tick's record, and only afterwards marks the position on a capture and
 * asks the vision model for its own estimate, which is logged next to the
 * ground truth and never written to the file.
 */
module GroundTruthRecorder {
  import opened Wrappers
  import opened Strings
  import opened Conv
  import opened Numeric
  import opened Geometry
  import opened Gemini

  const Header: seq<string> := ["timestamp", "norm_x", "norm_y"]

  /**
   * What one tick observes: the tick's time since the loop started, the
   * pointer position, whether the tick's record reached the file (the
   * writer accepted it and the buffered row was later flushed), whether the
   * capture and the PNG encoding succeeded, and the model's reply.
   */
  datatype Tick = Tick(elapsedNanos: int, mouse: Point, written: bool, captured: bool, encoded: bool, reply: Reply)

  /** One comparison log line: the ground truth, the estimate, and the raw reply text (`N/A` without one). */
  datatype Comparison = Comparison(truthX: Float, truthY: Float, estimateX: Float, estimateY: Float, raw: string)

  /** The ground truth of one tick: its millisecond stamp and the normalized pointer position. */
  datatype Primary = Primary(offset: int, normX: Float, normY: Float)

  /** What the tick loop leaves behind: the ground truths written to the file and the comparison log lines. */
  datatype Trace = Trace(written: seq<Primary>, log: seq<Comparison>)

  /**
   * The ground truth: the pointer position divided by the logical size. With
   * a non-zero logical dimension it multiplies back to the raw position.
   */
  function Normalize(s: Screen, p: Point): (n: (Float, Float))
    ensures s.logical.width != 0 ==> n.0.Finite? && n.0.value * (s.logical.width as real) == p.x as real
    ensures s.logical.height != 0 ==> n.1.Finite? && n.1.value * (s.logical.height as real) == p.y as real
  {
    (Quotient(p.x as real, s.logical.width), Quotient(p.y as real, s.logical.height))
  }

  /** The ground truth a tick writes. */
  function PrimaryOf(s: Screen, t: Tick): (p: Primary)
    ensures p.offset == Millis(t.elapsedNanos) && (p.normX, p.normY) == Normalize(s, t.mouse)
  {
    var n := Normalize(s, t.mouse);
    Primary(Millis(t.elapsedNanos), n.0, n.1)
  }

  /** The record of a ground truth: the stamp with `%d`, the coordinates with `%.8f`. */
  function FormatPrimary(p: Primary): seq<string>
  {
    [FormatInt(p.offset), FormatFixed8(p.normX), FormatFixed8(p.normY)]
  }

  /** A primary record carries its millisecond stamp as an integer, but its coordinates are never integers. */
  lemma PrimaryRecordFields(p: Primary)
    ensures var rec := FormatPrimary(p);
      |rec| == 3 && Atoi(rec[0]) == Some(p.offset) && Atoi(rec[1]).None? && Atoi(rec[2]).None?
  {
  }

  function Records(ps: seq<Primary>): (rs: seq<seq<string>>)
    ensures |rs| == |ps|
    ensures forall i | 0 <= i < |ps| :: rs[i] == FormatPrimary(ps[i])
    decreases |ps|
  {
    if ps == [] then [] else [FormatPrimary(ps[0])] + Records(ps[1..])
  }

  /**
   * The estimate parser: the whole text is trimmed, split at every comma, and
   * read only as exactly two pieces that `strconv.ParseFloat` both accepts.
   */
  function ParseEstimate(text: string): (r: Option<(real, real)>)
    ensures r.Some? ==> Count(TrimSpace(text), ',') == 1
  {
    var parts := Split(TrimSpace(text), ',');
    if |parts| == 2 then
      match (ParseDecimal(parts[0]), ParseDecimal(parts[1]))
      case (Some(x), Some(y)) => Some((x, y))
      case _ => None
    else None
  }

  /** A reply whose trimmed text is two plain decimals around one comma is read as those two numbers. */
  lemma EstimateAccepted(text: string, a: string, b: string)
    requires TrimSpace(text) == a + [','] + b
    requires ParseDecimal(a).Some? && ParseDecimal(b).Some?
    ensures ParseEstimate(text) == Some((ParseDecimal(a).value, ParseDecimal(b).value))
  {
    SplitIntoTwo(TrimSpace(text), ',', a, b);
  }

  /** So a fractional estimate such as `0.5,0.25` is accepted. */
  lemma FractionalEstimateAccepted()
    ensures ParseEstimate("0.5,0.25").Some?
  {
    TrimSpaceFixed("0.5,0.25");
    assert "0.5,0.25" == "0.5" + [','] + "0.25";
    assert Count("0.5", '.') == 1 && Count("0.25", '.') == 1;
    assert IsPlainDecimal("0.5") && IsPlainDecimal("0.25");
    EstimateAccepted("0.5,0.25", "0.5", "0.25");
  }

  /** Conversely, a parsed estimate is, once trimmed, two plain decimals around its only comma. */
  lemma EstimateShape(text: string) returns (a: string, b: string)
    requires ParseEstimate(text).Some?
    ensures TrimSpace(text) == a + [','] + b
    ensures ParseDecimal(a) == Some(ParseEstimate(text).value.0)
    ensures ParseDecimal(b) == Some(ParseEstimate(text).value.1)
  {
    var parts := Split(TrimSpace(text), ',');
    a, b := parts[0], parts[1];
    SplitIntoTwo(TrimSpace(text), ',', a, b);
  }

  /** The estimate a reply carries, if it has text that parses. */
  function ReplyEstimate(reply: Reply): Option<(real, real)>
  {
    if reply.Text? then ParseEstimate(reply.text) else None
  }

  /**
   * The estimate as logged: a parsed estimate divided by the physical size,
   * or the zero defaults when there is none.
   */
  function Estimate(s: Screen, parsed: Option<(real, real)>): (e: (Float, Float))
    ensures parsed.None? ==> e == (Finite(0.0), Finite(0.0))
    ensures parsed.Some? && s.physical.width != 0 ==> e.0.Finite? && e.0.value * (s.physical.width as real) == parsed.value.0
    ensures parsed.Some? && s.physical.height != 0 ==> e.1.Finite? && e.1.value * (s.physical.height as real) == parsed.value.1
  {
    match parsed
    case Some(g) => (Quotient(g.0, s.physical.width), Quotient(g.1, s.physical.height))
    case None => (Finite(0.0), Finite(0.0))
  }

  /** The comparison a tick logs: only when capture, encoding and the model call all succeeded. */
  function TickComparison(s: Screen, t: Tick): (c: Option<Comparison>)
    ensures c.Some? <==> t.captured && t.encoded && !t.reply.CallFailed?
    ensures c.Some? ==> (c.value.truthX, c.value.truthY) == Normalize(s, t.mouse)
    ensures c.Some? ==> (c.value.estimateX, c.value.estimateY) == Estimate(s, ReplyEstimate(t.reply))
    ensures c.Some? ==> c.value.raw == if t.reply.Text? then t.reply.text else "N/A"
  {
    if !t.captured then None
    else if !t.encoded then None
    else if t.reply.CallFailed? then None
    else
      var truth := Normalize(s, t.mouse);
      var estimate := Estimate(s, ReplyEstimate(t.reply));
      Some(Comparison(truth.0, truth.1, estimate.0, estimate.1, if t.reply.Text? then t.reply.text else "N/A"))
  }

  /**
   * The tick loop. Each tick first writes its ground truth (a failed write
   * is only logged) and then, unless a later step fails, logs its comparison.
   */
  function Run(s: Screen, ticks: seq<Tick>): (tr: Trace)
    ensures |tr.written| <= |ticks| && |tr.log| <= |ticks|
    decreases |ticks|
  {
    if ticks == [] then Trace([], [])
    else
      var before := Run(s, ticks[..|ticks| - 1]);
      var t := ticks[|ticks| - 1];
      var c := TickComparison(s, t);
      Trace(before.written + (if t.written then [PrimaryOf(s, t)] else []),
            before.log + (if c.Some? then [c.value] else []))
  }

  /**
   * The whole program: the CSV file, with the header written before the loop
   * starts and never again, then the record of every written tick's ground
   * truth in tick order; and the comparison log.
   */
  function Record(s: Screen, ticks: seq<Tick>): (r: (seq<seq<string>>, seq<Comparison>))
    ensures |r.0| >= 1 && r.0[0] == Header && Header !in r.0[1..]
    ensures r.0[1..] == Records(WrittenPrimaries(s, ticks))
    ensures r.1 == Run(s, ticks).log
  {
    var run := Run(s, ticks);
    WrittenArePrimaries(s, ticks);
    HeaderIsNoRecord(run.written);
    ([Header] + Records(run.written), run.log)
  }

  /** The header cannot be mistaken for a record: its first field is no integer. */
  lemma HeaderIsNoRecord(ps: seq<Primary>)
    ensures Header !in Records(ps)
  {
    assert Atoi(Header[0]).None? by {
      assert Header[0][0] == 't';
    }
    forall i | 0 <= i < |ps| ensures Records(ps)[i] != Header {
      PrimaryRecordFields(ps[i]);
    }
  }

  // ---- Reference views of a run ----

  /** The ground truths of the written ticks, in tick order. */
  function WrittenPrimaries(s: Screen, ticks: seq<Tick>): seq<Primary>
    decreases |ticks|
  {
    if ticks == [] then []
    else (if ticks[0].written then [PrimaryOf(s, ticks[0])] else []) + WrittenPrimaries(s, ticks[1..])
  }

  /** The ticks that reach the comparison, in order. */
  function Compared(ticks: seq<Tick>): (r: seq<Tick>)
    ensures forall i | 0 <= i < |r| :: r[i].captured && r[i].encoded && !r[i].reply.CallFailed?
    decreases |ticks|
  {
    if ticks == [] then []
    else
      var t := ticks[|ticks| - 1];
      Compared(ticks[..|ticks| - 1]) + (if t.captured && t.encoded && !t.reply.CallFailed? then [t] else [])
  }

  /** Two tick sequences that agree on everything before the vision steps. */
  predicate SamePrimary(a: seq<Tick>, b: seq<Tick>) {
    |a| == |b|
    && forall i | 0 <= i < |a| ::
      a[i].elapsedNanos == b[i].elapsedNanos && a[i].mouse == b[i].mouse && a[i].written == b[i].written
  }

  /** Two tick sequences that agree on everything but the record write. */
  predicate SameVision(a: seq<Tick>, b: seq<Tick>) {
    |a| == |b|
    && forall i | 0 <= i < |a| ::
      a[i].elapsedNanos == b[i].elapsedNanos && a[i].mouse == b[i].mouse
      && a[i].captured == b[i].captured && a[i].encoded == b[i].encoded && a[i].reply == b[i].reply
  }

  // ---- Properties of the tick loop ----

  lemma {:induction false} WrittenPrimariesAppend(s: Screen, a: seq<Tick>, b: seq<Tick>)
    ensures WrittenPrimaries(s, a + b) == WrittenPrimaries(s, a) + WrittenPrimaries(s, b)
    decreases |a|
  {
    if a == [] {
      assert a + b == b;
    } else {
      assert (a + b)[1..] == a[1..] + b;
      WrittenPrimariesAppend(s, a[1..], b);
    }
  }

  /**
   * The file holds exactly the ground truth of every written tick, in tick
   * order, whatever the capture, the encoding and the model did.
   */
  lemma {:induction false} WrittenArePrimaries(s: Screen, ticks: seq<Tick>)
    ensures Run(s, ticks).written == WrittenPrimaries(s, ticks)
    decreases |ticks|
  {
    if ticks != [] {
      var init := ticks[..|ticks| - 1];
      var t := ticks[|ticks| - 1];
      WrittenArePrimaries(s, init);
      WrittenPrimariesAppend(s, init, [t]);
      assert init + [t] == ticks;
      assert WrittenPrimaries(s, [t]) == (if t.written then [PrimaryOf(s, t)] else []) + WrittenPrimaries(s, []);
    }
  }

  /** The estimate never reaches the file: runs that differ only in their vision steps write the same file. */
  lemma {:induction false} EstimateNeverWritten(s: Screen, a: seq<Tick>, b: seq<Tick>)
    requires SamePrimary(a, b)
    ensures Run(s, a).written == Run(s, b).written
    ensures Record(s, a).0 == Record(s, b).0
    decreases |a|
  {
    if a != [] {
      var n := |a| - 1;
      assert SamePrimary(a[..n], b[..n]) by {
        assert forall i | 0 <= i < n :: a[..n][i] == a[i] && b[..n][i] == b[i];
      }
      EstimateNeverWritten(s, a[..n], b[..n]);
      assert PrimaryOf(s, a[n]) == PrimaryOf(s, b[n]);
    }
  }

  /** A failed record write is soft: runs that differ only in their writes log the same comparisons. */
  lemma {:induction false} WriteFailureIsSoft(s: Screen, a: seq<Tick>, b: seq<Tick>)
    requires SameVision(a, b)
    ensures Run(s, a).log == Run(s, b).log
    decreases |a|
  {
    if a != [] {
      var n := |a| - 1;
      assert SameVision(a[..n], b[..n]) by {
        assert forall i | 0 <= i < n :: a[..n][i] == a[i] && b[..n][i] == b[i];
      }
      WriteFailureIsSoft(s, a[..n], b[..n]);
      assert TickComparison(s, a[n]) == TickComparison(s, b[n]);
    }
  }

  /** When every write succeeds, the file holds the header and then one record per tick, in tick order. */
  lemma OneRecordPerTick(s: Screen, ticks: seq<Tick>)
    requires forall i | 0 <= i < |ticks| :: ticks[i].written
    ensures |Record(s, ticks).0| == |ticks| + 1
    ensures forall i | 0 <= i < |ticks| :: Record(s, ticks).0[i + 1] == FormatPrimary(PrimaryOf(s, ticks[i]))
  {
    var ps := WrittenPrimaries(s, ticks);
    AllWritten(s, ticks);
    var recs := Record(s, ticks).0;
    assert recs[1..] == Records(ps);
    forall i | 0 <= i < |ticks| ensures recs[i + 1] == FormatPrimary(PrimaryOf(s, ticks[i])) {
      assert recs[i + 1] == Records(ps)[i];
    }
  }

  lemma {:induction false} AllWritten(s: Screen, ticks: seq<Tick>)
    requires forall i | 0 <= i < |ticks| :: ticks[i].written
    ensures |WrittenPrimaries(s, ticks)| == |ticks|
    ensures forall i | 0 <= i < |ticks| :: WrittenPrimaries(s, ticks)[i] == PrimaryOf(s, ticks[i])
    decreases |ticks|
  {
    if ticks != [] {
      AllWritten(s, ticks[1..]);
      assert forall i | 1 <= i < |ticks| :: ticks[1..][i - 1] == ticks[i];
    }
  }

  /** A comparison is logged for a tick exactly when capture, encoding and the model call succeed, in tick order. */
  lemma {:induction false} LoggedTicks(s: Screen, ticks: seq<Tick>)
    ensures |Run(s, ticks).log| == |Compared(ticks)|
    ensures forall i | 0 <= i < |Compared(ticks)| :: Run(s, ticks).log[i] == TickComparison(s, Compared(ticks)[i]).value
    decreases |ticks|
  {
    if ticks != [] {
      LoggedTicks(s, ticks[..|ticks| - 1]);
    }
  }

  /** Every reply the vision recorder's strict parser would accept yields an estimate here, with the same numbers. */
  lemma EstimateAcceptsIntegerReplies(text: string, a: string, b: string)
    requires TrimSpace(text) == a + [','] + b
    requires Atoi(a).Some? && Atoi(b).Some?
    ensures ParseEstimate(text) == Some((Atoi(a).value as real, Atoi(b).value as real))
  {
    SplitIntoTwo(TrimSpace(text), ',', a, b);
    ParseDecimalExtendsAtoi(a);
    ParseDecimalExtendsAtoi(b);
  }

  // ---- The marker drawn on the capture ----

  const ArmLength: int := 15
  const Thickness: int := 3

  /** `image.Rect`: the rectangle [min.x, max.x) × [min.y, max.y), with the corners put in order. */
  datatype Rect = Rect(min: Point, max: Point) {
    function Dx(): int { max.x - min.x }
    function Dy(): int { max.y - min.y }
    predicate Contains(p: Point) { min.x <= p.x < max.x && min.y <= p.y < max.y }
  }

  function ImageRect(x0: int, y0: int, x1: int, y1: int): (r: Rect)
    ensures r.Dx() >= 0 && r.Dy() >= 0
    ensures r.Dx() == if x0 <= x1 then x1 - x0 else x0 - x1
    ensures r.Dy() == if y0 <= y1 then y1 - y0 else y0 - y1
  {
    Rect(Point(if x0 <= x1 then x0 else x1, if y0 <= y1 then y0 else y1),
         Point(if x0 <= x1 then x1 else x0, if y0 <= y1 then y1 else y0))
  }

  /**
   * The crosshair drawn at `c`: a horizontal and a vertical bar, each built
   * from `ArmLength` and the integer half `Thickness / 2`. The horizontal bar
   * is 30 pixels wide and only 2 tall, covering the rows just above and at
   * the centre; the vertical bar is its mirror image across the diagonal
   * through `c`.
   */
  function Crosshair(c: Point): (bars: (Rect, Rect))
    ensures bars.0.Dx() == 2 * ArmLength && bars.0.Dy() == 2
    ensures bars.1.Dx() == 2 && bars.1.Dy() == 2 * ArmLength
    ensures bars.1.min == Point(c.x + (bars.0.min.y - c.y), c.y + (bars.0.min.x - c.x))
    ensures bars.1.max == Point(c.x + (bars.0.max.y - c.y), c.y + (bars.0.max.x - c.x))
    ensures bars.0.Contains(c) && bars.1.Contains(c)
  {
    (ImageRect(c.x - ArmLength, c.y - Thickness / 2, c.x + ArmLength, c.y + Thickness / 2),
     ImageRect(c.x - Thickness / 2, c.y - ArmLength, c.x + Thickness / 2, c.y + ArmLength))
  }

  /** The bars are thinner than `Thickness` and lopsided: the row below the centre is not marked. */
  lemma CrosshairLopsided(c: Point)
    ensures var h := Crosshair(c).0;
      h.Dy() < Thickness && h.Contains(Point(c.x, c.y - 1)) && !h.Contains(Point(c.x, c.y + 1))
    ensures var v := Crosshair(c).1;
      v.Dx() < Thickness && v.Contains(Point(c.x - 1, c.y)) && !v.Contains(Point(c.x + 1, c.y))
  {
  }

  /**
   * The crosshair a tick draws once its capture succeeded, centred on the
   * pointer position carried into the physical space of the capture; both
   * bars cover that centre.
   */
  function Marker(s: Screen, t: Tick): (m: Option<(Rect, Rect)>)
    ensures m.Some? <==> t.captured && s.logical.width != 0 && s.logical.height != 0
    ensures m.Some? ==> m.value.0.Contains(ToPhysical(s, t.mouse).value) && m.value.1.Contains(ToPhysical(s, t.mouse).value)
  {
    if !t.captured then None
    else match ToPhysical(s, t.mouse)
      case None => None
      case Some(c) => Some(Crosshair(c))
  }
}
