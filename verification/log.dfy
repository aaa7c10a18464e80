/**
 * The CSV sample log: one record per sample, three fields in the order
 * timestamp (milliseconds since recording start), x, y. Records are kept as
 * already-split fields; CSV quoting is not part of the model.
 */
module Log {
  import opened Wrappers
  import opened Conv

  datatype Sample = Sample(offset: int, x: int, y: int)

  /** A record as the vision recorder writes it: every field with `%d`. */
  function FormatRecord(s: Sample): (rec: seq<string>)
    ensures |rec| == 3
    ensures forall i | 0 <= i < 3 :: IsDecimalInteger(rec[i])
  {
    [FormatInt(s.offset), FormatInt(s.x), FormatInt(s.y)]
  }

  /**
   * A record as the player reads it: exactly three fields, each an optionally
   * signed decimal integer. Any other record is malformed and yields nothing.
   */
  function ParseRecord(rec: seq<string>): (r: Option<Sample>)
    ensures r.Some? <==> |rec| == 3 && IsDecimalInteger(rec[0]) && IsDecimalInteger(rec[1]) && IsDecimalInteger(rec[2])
  {
    if |rec| != 3 then None
    else match (Atoi(rec[0]), Atoi(rec[1]), Atoi(rec[2]))
      case (Some(t), Some(x), Some(y)) => Some(Sample(t, x, y))
      case _ => None
  }

  /** Every record the vision recorder writes reads back as the sample it was written from. */
  lemma ParseFormatRecord(s: Sample)
    ensures ParseRecord(FormatRecord(s)) == Some(s)
  {
  }
}
