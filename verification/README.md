# agentGo: recorder and player core, in Dafny

agentGo is three small Go programs that record the mouse pointer's path and
play it back:

- **The player** (`player/main.go`) reads `mouse_movements.csv`, drops the
  header row, and skips any record that does not hold three integers. For
  every other record it moves the pointer to the record's position scaled
  by logical/physical screen size. Before the move it sleeps for the
  record's timestamp minus the last played timestamp, which starts at 0.
  The one exception is a well-formed record at index 0 of the rows after
  the header: it moves without sleeping. So when that record is malformed,
  the first record played sleeps its whole timestamp.
- **The vision-driven recorder** (`main.go`) captures the screen once per
  tick and asks Gemini where the cursor is. It parses the reply strictly as
  `x,y`, scales the answer into logical coordinates and writes
  `timestamp,x,y`. A tick whose step fails writes nothing.
- **The ground-truth recorder** (`recorder/main.go`) reads the real pointer
  position every tick. It writes that position, normalized by the logical
  screen size, as `%.8f` fractions before anything else can fail. Then it
  draws a red crosshair on a capture, asks Gemini for the crosshair's
  position, and only logs the estimate next to the ground truth.

The model replaces every collaborator with an input:

- robotgo, the screenshot library, the PNG encoder, Gemini and the file system.
- Each recorder becomes a pure fold over a finite sequence of tick outcomes.
  A tick holds its elapsed time, the pointer position, the success of each
  fallible step and the reply text.
- The player becomes a fold over already-split CSV records. It produces the
  sleep and move events.

Modules:

| module | file | contents |
|---|---|---|
| `Wrappers` | wrappers.dfy | `Option`, `Result` |
| `Strings` | strings.dfy | `strings.TrimSpace` (with `unicode.IsSpace`), `strings.Split`, `Join` |
| `Numeric` | numeric.dfy | float64 results with infinities and NaN, `int(float64)` truncation, `Duration.Milliseconds` |
| `Conv` | conv.dfy | `strconv.Atoi`/`ParseInt`, `%d`, decimal `ParseFloat`, `%.8f` |
| `Geometry` | geometry.dfy | screen sizes and the logical/physical rescaling |
| `Log` | log.dfy | the `timestamp,x,y` record shared by the vision recorder and the player |
| `Gemini` | gemini.dfy | the three outcomes of a model call |
| `Player` | player.dfy | the replay loop, its reference views and a loop-based implementation |
| `VisionRecorder` | vision_recorder.dfy | the reply parser and the tick loop of `main.go` |
| `GroundTruthRecorder` | ground_truth_recorder.dfy | the tick loop, estimate parsing and crosshair of `recorder/main.go` |
| `Interop` | interop.dfy | what the player makes of each recorder's file |

Three facts about the code shape what the model proves:

- The player knows nothing about the machine a file was recorded on. It
  multiplies every coordinate by the playing machine's logical/physical
  ratio. A vision recording is already in logical coordinates when it is
  written, so it is scaled a second time when played
  (`Interop.VisionLogReplays`).
- No file names its coordinate space. The two recorders write different
  headers, but the player drops its first row unread, so nothing rejects a
  ground-truth file. It plays nothing because every record's `%.8f`
  coordinates fail the player's `Atoi` and each record is skipped
  (`Interop.GroundTruthLogUnplayable`).
- Nothing checks that timestamps are non-negative or non-decreasing. The
  vision recorder's stamps do not decrease when its tick times do not
  (`VisionRecorder.TimestampsNonDecreasing`). The player's delays are
  non-negative when the played timestamps do not decrease and none is
  below the starting point (`Player.SleepsNonNegative`).

## Model

| member | source | states |
|---|---|---|
| Strings.TrimSpaceSpec | main.go:115 | `TrimSpace` returns a slice of its input. Only white space is cut from either end, and the result neither starts nor ends with white space. |
| Strings.TrimSpaceOfPadded | main.go:115 | Trimming white space off both ends of a core whose ends are not white space gives back exactly that core. |
| Strings.Split | main.go:115 | `strings.Split` gives one more piece than the text has separators, and no piece contains the separator. |
| Strings.JoinSplit | main.go:115 | Joining the pieces of a split with the separator gives back the original text. |
| Strings.SplitJoin | main.go:115 | Splitting a join of separator-free pieces gives back those pieces. |
| Strings.SplitIntoTwo | main.go:115-116 | A text splits into exactly two pieces `[a, b]` if and only if it is `a`, one separator, then `b`, with no separator inside `a` or `b`. |
| Numeric.Quotient | recorder/main.go:86-87 | A float division by a non-zero integer is finite and multiplies back to the dividend. Division by zero gives +Inf, -Inf or NaN according to the dividend's sign. |
| Numeric.Trunc | player/main.go:86-87 | `int(x)` truncates toward zero: it is the integer at most one unit nearer to zero than `x`. |
| Numeric.TruncOdd | player/main.go:86-87 | Truncation commutes with negation. |
| Numeric.TruncMonotone | player/main.go:86-87 | Truncation preserves order. |
| Numeric.Millis | main.go:125 | `Milliseconds()` is the nanosecond count divided by 10^6 and truncated toward zero. |
| Numeric.MillisMonotone | main.go:125 | Later elapsed times never give smaller millisecond stamps. |
| Conv.Atoi | player/main.go:62-76 | Parsing succeeds exactly on an optionally signed run of digits. Accepted text holds no space, decimal point or comma. An unsigned text gives a non-negative value. |
| Conv.FormatNat | main.go:126 | `%d` of a natural number is a non-empty run of digits whose value is the number, with no leading zero. |
| Conv.FormatInt | main.go:126 | `%d` of an integer reads back through `Atoi` to the same integer, and it starts with `-` exactly when the integer is negative. |
| Conv.ParseDecimal | recorder/main.go:148-149 | The float parser accepts exactly plain decimals: an optional sign, then digits with at most one point and at least one digit. Accepted text is non-empty and holds no space and no comma. |
| Conv.ParseUnsignedDecimalAccepts | recorder/main.go:148-149 | Without a sign, the parser accepts exactly digits with at most one point and at least one digit. |
| Conv.DecimalRejections | recorder/main.go:148-149 | `1.2.3`, `.` and `+` are rejected; `-.5` is accepted. |
| Conv.ParseDecimalExtendsAtoi | recorder/main.go:148-149 | Every text `Atoi` accepts is accepted by the float parser with the same value. |
| Conv.ParsePointed | recorder/main.go:148-149 | Digits, a point and digits read as the integer part plus the fraction digits over a power of ten. |
| Conv.RoundedUnits | recorder/main.go:93-94 | The count of 10^-8 units printed is the magnitude rounded to the nearest unit, ties upward. |
| Conv.FormatFixed8 | recorder/main.go:93-94 | `%.8f` text is never accepted by `Atoi`, and a finite value's text contains a decimal point. |
| Conv.FixedBodyValue | recorder/main.go:93-94 | The unsigned part of `%.8f` for `n` units reads back as exactly `n / 10^8` and starts with a digit. |
| Conv.FormatFixed8Sign | recorder/main.go:93-94 | `%.8f` of a finite value reads back as its unsigned part, negated exactly when the value is negative. |
| Conv.FormatFixed8RoundTrip | recorder/main.go:93-94 | Reading `%.8f` back as a decimal recovers the value to within half a unit of the eighth decimal. |
| Geometry.RescaleTruncatesExact | player/main.go:86-87 | A scaled coordinate is the exact product `raw * (to / from)` truncated toward zero. |
| Geometry.RescaleIdentity | player/main.go:86-87 | Equal logical and physical extents leave a coordinate unchanged. |
| Geometry.RescaleByFactor | main.go:122-123 | When the logical extent is `k` times the physical extent, coordinates scale exactly by `k`. |
| Geometry.RescaleMonotone | main.go:122-123 | With a non-negative ratio, scaling preserves the order of coordinates. |
| Geometry.RescaleByInverse | player/main.go:86-87 | Carrying `k * raw` from extent `k * to` back to extent `to` gives exactly `raw`. |
| Geometry.ToLogicalIdentity | main.go:122-123 | On a screen whose logical and physical sizes agree, mapping a physical point to logical space leaves it unchanged. |
| Geometry.ToLogicalUndoesToPhysical | recorder/main.go:108-109 | When the physical size is an integer multiple of the logical size, mapping a pointer position to physical space and back to logical space gives the position again. |
| Geometry.ToPhysical | recorder/main.go:108-109 | The marker position exists exactly when both logical dimensions are non-zero. Each coordinate is then within one unit of the pointer coordinate times physical/logical. |
| Log.FormatRecord | main.go:126 | A written sample record has three fields, each an integer `Atoi` accepts. |
| Log.ParseRecord | player/main.go:56-76 | A record plays if and only if it has exactly three fields and each passes integer parsing. |
| Log.ParseFormatRecord | player/main.go:62-76 | Parsing a formatted sample record gives back the sample. |
| Player.Play | player/main.go:40-42 | Playback fails exactly when a physical dimension is zero. A negative dimension or a zero logical dimension is not checked. |
| Player.HeaderIgnored | player/main.go:29-32 | The first record is dropped whatever it contains. |
| Player.MovesFollowRecords | player/main.go:55-89 | There is one move per well-formed record, in file order, to its scaled position, and no other move. |
| Player.Gaps | player/main.go:79-83 | The gap before each played timestamp is that timestamp minus the previous one, or minus the starting point for the first. |
| Player.ReplayFollowsSchedule | player/main.go:55-89 | The replay loop follows the reference schedule over the well-formed records in file order. Each gets a sleep, unless it is the exempt record at index 0, and then a move to its scaled position. Nothing else happens. |
| Player.ScheduleSleeps | player/main.go:79-83 | The schedule's delays are exactly the gaps between consecutive played timestamps. The first is measured from the starting point, or is dropped when the first record is exempt. |
| Player.SleepCount | player/main.go:79-82 | Every played record sleeps once, except a well-formed record at raw index 0. |
| Player.SleepsTelescope | player/main.go:53-83 | The delays sum to the last played timestamp minus either record 0's timestamp (if it played) or 0. |
| Player.MalformedRecordInvisible | player/main.go:56-76 | Inserting a malformed record after index 0 changes nothing: no event is produced and `lastTimestamp` is unchanged. |
| Player.MalformedHeadShiftsExemption | player/main.go:55-82 | A malformed record at index 0 removes the no-sleep exemption: a well-formed record after it sleeps its whole timestamp before its move. |
| Player.SkippedHeadWaitsFullOffset | player/main.go:79-83 | If record 0 is skipped, the first played record sleeps its full timestamp, measured from 0. |
| Player.FirstPlayedSleepsFrom | player/main.go:79-83 | Past index 0, playback starts by sleeping the first well-formed record's timestamp minus the current `lastTimestamp`. |
| Player.SleepsNonNegative | player/main.go:79-81 | With non-decreasing timestamps that are all at least the starting `lastTimestamp`, no delay is negative. |
| Player.ReplayOfMalformed | player/main.go:56-76 | A run of records none of which parses produces no event. |
| Player.WrongWidthPlaysNothing | player/main.go:56-59 | When all records share a field count other than 3 (the only way such records get past CSV reading), nothing plays. |
| Player.PlaybackSchedule | player/main.go:29-89 | Whole program: the events are the reference schedule of the played records, exempting a well-formed record 0. The moves are the played records' targets. The delays are exactly the gaps between consecutive played timestamps, the first measured from 0 unless exempt. There are as many delays as played records minus the exemption, and they telescope. |
| Player.PlayLoop | player/main.go:29-89 | The indexed loop with `continue` and a mutable `lastTimestamp` computes exactly the events of the fold. |
| VisionRecorder.ParseReply | main.go:115-120 | A reply is accepted only if its trimmed text holds exactly one comma. |
| VisionRecorder.ReplyAccepted | main.go:115-120 | A reply that trims to two `Atoi`-valid integers around one comma is accepted with those integers. |
| VisionRecorder.ReplyShape | main.go:115-120 | Conversely, an accepted reply trims to two `Atoi`-valid integers around its only comma. |
| VisionRecorder.AcceptedReplyHasNoInnerSpace | main.go:115-118 | The pieces are not trimmed one by one, so an accepted reply holds no white space once its ends are trimmed. |
| VisionRecorder.ReplyRejectsInnerSpace | main.go:115-118 | `12, 34` is rejected. |
| VisionRecorder.ReplyRoundTrip | main.go:105-120 | A reply in the prompted form `x,y`, surrounded by any white space, is accepted with exactly `x` and `y`. |
| VisionRecorder.TickSample | main.go:89-125 | A tick yields a sample exactly when capture, encoding, the call and the parse all succeed. The sample is the reply scaled into logical space and stamped with the elapsed milliseconds. |
| VisionRecorder.Record | main.go:36-74 | A zero physical dimension is fatal before anything is written. Otherwise the header `timestamp,x,y` comes first and never again. After it come exactly the records of the samples, at most one per tick. |
| VisionRecorder.HeaderIsNoRecord | main.go:72-74 | The header cannot be mistaken for a sample record. |
| VisionRecorder.Samples | main.go:84-131 | Each tick yields at most one sample. |
| VisionRecorder.SamplesAppend | main.go:84-136 | The records of consecutive stretches of ticks are concatenated in tick order. |
| VisionRecorder.FailedTickInvisible | main.go:91-120 | A tick with a failing step leaves the file as if it had not happened. |
| VisionRecorder.OneSamplePerSuccessfulTick | main.go:113-129 | When every tick succeeds and is written, there is one record per tick. |
| VisionRecorder.TimestampsBounded | main.go:125 | No record is stamped later than the millisecond stamp of a bound on all tick times. |
| VisionRecorder.TimestampsNonDecreasing | main.go:125 | Record timestamps are non-decreasing when tick times are. |
| GroundTruthRecorder.Normalize | recorder/main.go:86-87 | With a non-zero logical dimension, the ground truth times that dimension is the raw pointer coordinate. |
| GroundTruthRecorder.PrimaryRecordFields | recorder/main.go:91-95 | The timestamp field reads back with `Atoi`, and both coordinate fields are rejected by `Atoi`. |
| GroundTruthRecorder.Estimate | recorder/main.go:141-153 | Without a parsed reply the estimate keeps its zero defaults. With one, the estimate times the physical dimension is the parsed value. |
| GroundTruthRecorder.TickComparison | recorder/main.go:101-164 | A comparison is logged exactly when capture, encoding and the call succeed. It carries the ground truth, the estimate, and the raw reply text or `N/A`. |
| GroundTruthRecorder.ParseEstimate | recorder/main.go:145-153 | An estimate is read only from a reply whose trimmed text holds exactly one comma. |
| GroundTruthRecorder.EstimateAccepted | recorder/main.go:145-153 | A reply that trims to two plain decimals around one comma is read as exactly those two numbers, fractional ones included. |
| GroundTruthRecorder.FractionalEstimateAccepted | recorder/main.go:145-153 | `0.5,0.25` is accepted as an estimate. |
| GroundTruthRecorder.EstimateShape | recorder/main.go:145-151 | Conversely, a parsed estimate trims to two plain decimals around its only comma, and their values are the estimate. |
| GroundTruthRecorder.Run | recorder/main.go:78-165 | Each tick writes at most one ground truth and logs at most one comparison. |
| GroundTruthRecorder.Record | recorder/main.go:56-98 | The header `timestamp,norm_x,norm_y` comes first and never again. After it comes the record of every written tick's ground truth, in tick order. The log is the loop's comparisons. |
| GroundTruthRecorder.HeaderIsNoRecord | recorder/main.go:56-59 | The header cannot be mistaken for a ground-truth record, because its first field is no integer. |
| GroundTruthRecorder.WrittenArePrimaries | recorder/main.go:85-138 | The file holds the ground truth of every tick whose write succeeded, in tick order, whatever capture, encoding and the model did later in the tick. |
| GroundTruthRecorder.EstimateNeverWritten | recorder/main.go:141-164 | Runs that differ only in capture, encoding or reply write the same file. |
| GroundTruthRecorder.WriteFailureIsSoft | recorder/main.go:96-98 | Runs that differ only in whether writes succeed log the same comparisons. |
| GroundTruthRecorder.OneRecordPerTick | recorder/main.go:85-98 | When every write succeeds, the file holds the header and then one record per tick, in tick order. |
| GroundTruthRecorder.AllWritten | recorder/main.go:85-98 | When every write succeeds, the written ground truths are those of all ticks, in order. |
| GroundTruthRecorder.LoggedTicks | recorder/main.go:101-164 | The log holds one comparison per tick that got past capture, encoding and the call, in tick order. |
| GroundTruthRecorder.EstimateAcceptsIntegerReplies | recorder/main.go:145-153 | Every reply the vision recorder's strict parser accepts yields an estimate with the same numbers. |
| GroundTruthRecorder.ImageRect | recorder/main.go:116-118 | `image.Rect` orders its corners, so the width and height are the absolute differences. |
| GroundTruthRecorder.Crosshair | recorder/main.go:113-118 | The horizontal bar is 30×2 and the vertical bar 2×30, its mirror across the diagonal through the centre. Both contain the centre. |
| GroundTruthRecorder.Marker | recorder/main.go:101-118 | A crosshair is drawn exactly when the capture succeeded and both logical dimensions are non-zero. Both bars cover the pointer position carried into physical space. |
| GroundTruthRecorder.CrosshairLopsided | recorder/main.go:113-118 | The bars are thinner than the intended 3 pixels: the row above the centre is marked, the row below is not. |
| Interop.PlayedRecords | player/main.go:62-76 | The player reads the vision recorder's records back as exactly the recorded samples. |
| Interop.VisionLogReplays | player/main.go:29-89 | A vision recording plays as the reference schedule of its samples, with the first sample exempt. There is one move per recorded sample, scaled again by the playing screen. The first move has no sleep, and each later move sleeps exactly the gap since the previous sample. The delays add up to the recording's span. |
| Interop.VisionLogReplaysAtRecordedPoints | player/main.go:86-87 | On a screen whose logical and physical sizes agree, the moves go exactly to the recorded positions. |
| Interop.GroundTruthLogUnplayable | player/main.go:67-71 | Replaying a ground-truth log produces no event at all. |

## Left out

- Collaborators are inputs, not models: robotgo (`GetScreenSize`, `GetMousePos`, `Move`), screen capture, PNG encoding, the Gemini client and the file system. A reply with no candidate, no part or a non-text part is the `NoText` outcome.
- Time is not modelled:
  - `time.Ticker`, the `context.WithTimeout` deadline (30 s and 10 s) and `time.Sleep` are left out.
  - Ticks are a finite sequence with their elapsed times given.
  - Sleeps are emitted values.
  - Late or dropped ticks are whatever that sequence holds.
- Float64 arithmetic is idealized as exact real arithmetic followed by truncation toward zero. A product outside the `int` range, where Go's conversion is implementation-specific, is not modelled.
- Integer parsing ignores the 64-bit range. `ParseInt`/`Atoi` range errors and timestamp overflow are left out.
- Conv.ParseDecimal: accepts only plain decimal notation. `ParseFloat`'s exponents, hexadecimal floats, `inf`/`nan` spellings, underscores and range errors are left out.
- Conv.FormatFixed8: rounds the exact value half up. Go rounds the binary float64 correctly, which can differ on ties.
- CSV tokenisation is left out:
  - Records are already-split `seq<seq<string>>`; quoting and escaping are not modelled.
  - A `ReadAll` error is fatal in the player. It includes a record whose field count differs from the first record's, so such files never reach the loop.
- The comparison log is kept as values, not as `%.4f` text. The other diagnostic output (`log.Printf`, `fmt.Printf`) is left out too.
- Every fatal startup path except the zero-physical-size guard is left out: the API-key check, client creation, creating the CSV file and writing the header. Header writes are assumed to succeed.
- CSV buffering is left out. `csv.Writer` buffers rows, and they reach the file only when the buffer fills or at the deferred `writer.Flush()` (main.go:69, recorder/main.go:54), whose error nobody checks. A tick's `written` flag means "this record reached the file", not "`Write` returned nil". The model therefore does not capture rows lost when a run is interrupted before the flush, rows lost by a failed flush after `Write` succeeded, or a partial last line that would make the player's `ReadAll` reject the whole file.
- Record-write outcomes are independent per tick. A sticky error in the buffered writer would make every later write fail too; that is one particular input sequence.
- The ground-truth recorder's debug screenshot file (recorder/main.go:126-130) is left out, and so is the pixel drawing of the crosshair beyond its rectangles.
- A model response whose first candidate has a nil `Content` makes `res.Candidates[0].Content.Parts` panic (main.go:113, recorder/main.go:143). The model has no such outcome: `NoText` stands only for no candidate, no part or a non-text part.
- Geometry.ToPhysical: with a zero logical dimension the draw position has no value, because Go's conversion of an infinite or NaN float to `int` is implementation-specific.
