/**
 * Decimal conversions between numbers and text: Go's `strconv.Atoi` and
 * `strconv.ParseInt(s, 10, 64)` (one parser, since integer width is not
 * modelled), `fmt`'s `%d` and `%.8f`, and the decimal part of
 * `strconv.ParseFloat`.
 */
module Conv {
  import opened Wrappers
  import opened Strings
  import opened Numeric

  predicate IsDigit(c: char) {
    '0' <= c <= '9'
  }

  predicate AllDigits(s: string) {
    forall i | 0 <= i < |s| :: IsDigit(s[i])
  }

  function DigitValue(c: char): nat
    requires IsDigit(c)
  {
    (c as int) - ('0' as int)
  }

  function Digit(d: nat): (c: char)
    requires d < 10
    ensures IsDigit(c) && DigitValue(c) == d
  {
    ('0' as int + d) as char
  }

  /** The value of a string of decimal digits, most significant first. */
  function DigitsValue(s: string): nat
    requires AllDigits(s)
    decreases |s|
  {
    if |s| == 0 then 0 else 10 * DigitsValue(s[..|s| - 1]) + DigitValue(s[|s| - 1])
  }

  function Pow10(k: nat): (p: nat)
    ensures p >= 1
  {
    if k == 0 then 1 else 10 * Pow10(k - 1)
  }

  /** The syntax `strconv.Atoi` accepts: an optional sign followed by at least one decimal digit, nothing else. */
  predicate IsDecimalInteger(s: string) {
    || (|s| > 0 && AllDigits(s))
    || (|s| > 1 && (s[0] == '+' || s[0] == '-') && AllDigits(s[1..]))
  }

  /**
   * `strconv.Atoi`: succeeds exactly on an optionally signed run of decimal
   * digits. White space, a decimal point or any other character anywhere
   * makes it fail.
   */
  function Atoi(s: string): (r: Option<int>)
    ensures r.Some? <==> IsDecimalInteger(s)
    ensures r.Some? ==> ' ' !in s && '.' !in s && ',' !in s
    ensures r.Some? && s[0] != '-' ==> r.value >= 0
  {
    if |s| > 0 && (s[0] == '+' || s[0] == '-') then
      if |s| > 1 && AllDigits(s[1..]) then
        var m: int := DigitsValue(s[1..]);
        assert ' ' !in s && '.' !in s && ',' !in s by {
          forall i | 1 <= i < |s| ensures IsDigit(s[i]) {
            assert s[1..][i - 1] == s[i];
          }
        }
        Some(if s[0] == '-' then -m else m)
      else None
    else if |s| > 0 && AllDigits(s) then Some(DigitsValue(s))
    else None
  }

  /** The text `strconv.Atoi` accepts holds no white space at all. */
  lemma DecimalIntegerHasNoSpace(s: string)
    requires IsDecimalInteger(s)
    ensures forall i | 0 <= i < |s| :: !IsSpace(s[i])
  {
    forall i | 0 <= i < |s| ensures !IsSpace(s[i]) {
      if i > 0 {
        assert s[1..][i - 1] == s[i];
      }
    }
  }

  /** `%d` of a natural number: the shortest decimal digit string. */
  function FormatNat(n: nat): (s: string)
    ensures |s| > 0 && AllDigits(s) && DigitsValue(s) == n
    ensures s[0] == '0' ==> n == 0
    ensures |s| == 1 || Pow10(|s| - 1) <= n
    decreases n
  {
    if n < 10 then [Digit(n)]
    else
      var s := FormatNat(n / 10) + [Digit(n % 10)];
      assert s[..|s| - 1] == FormatNat(n / 10);
      s
  }

  lemma {:induction false} Pow10Monotone(i: nat, j: nat)
    requires i <= j
    ensures Pow10(i) <= Pow10(j)
    decreases j
  {
    if i < j {
      Pow10Monotone(i, j - 1);
    }
  }

  /** A number below 10^k is written with at most k digits. */
  lemma FormatNatWidth(n: nat, k: nat)
    requires 1 <= k && n < Pow10(k)
    ensures |FormatNat(n)| <= k
  {
    var j: nat := |FormatNat(n)| - 1;
    if j >= k {
      Pow10Monotone(k, j);
    }
  }

  /** `%d`, as `fmt.Sprintf("%d", n)` writes it. */
  function FormatInt(n: int): (s: string)
    ensures Atoi(s) == Some(n)
    ensures s[0] == '-' <==> n < 0
  {
    if n < 0 then
      var s := "-" + FormatNat(-n);
      assert s[1..] == FormatNat(-n);
      s
    else FormatNat(n)
  }

  /** A leading zero does not change the value of a digit string. */
  lemma {:induction false} LeadingZero(s: string)
    requires AllDigits(s)
    ensures AllDigits(['0'] + s) && DigitsValue(['0'] + s) == DigitsValue(s)
    decreases |s|
  {
    var z := ['0'] + s;
    if |s| > 0 {
      assert z[..|z| - 1] == ['0'] + s[..|s| - 1];
      LeadingZero(s[..|s| - 1]);
    }
  }

  /** Left-pads a digit string with zeros to width `w`, as the fraction of `%.8f` is written. */
  function PadZeros(s: string, w: nat): (r: string)
    requires AllDigits(s)
    ensures AllDigits(r) && DigitsValue(r) == DigitsValue(s)
    ensures |r| == if |s| < w then w else |s|
    decreases w - |s|
  {
    if |s| >= w then s
    else
      LeadingZero(s);
      PadZeros(['0'] + s, w)
  }

  /** The value of an unsigned decimal number with an optional fraction: `12`, `12.5`, `.5`, `12.`. */
  function ParseUnsignedDecimal(s: string): (r: Option<real>)
    ensures r.Some? ==> r.value >= 0.0
    ensures r.Some? ==> |s| > 0 && forall i | 0 <= i < |s| :: IsDigit(s[i]) || s[i] == '.'
  {
    var parts := Split(s, '.');
    if |parts| == 1 && |s| > 0 && AllDigits(s) then Some(DigitsValue(s) as real)
    else if |parts| == 2 && AllDigits(parts[0]) && AllDigits(parts[1]) && |parts[0]| + |parts[1]| > 0 then
      SplitIntoTwo(s, '.', parts[0], parts[1]);
      assert s == parts[0] + ['.'] + parts[1];
      Some(DigitsValue(parts[0]) as real + DigitsValue(parts[1]) as real / Pow10(|parts[1]|) as real)
    else None
  }

  /**
   * The unsigned decimal syntax: only digits and points, at most one point,
   * and not only points (so at least one digit).
   */
  predicate IsUnsignedDecimal(s: string) {
    (forall i | 0 <= i < |s| :: IsDigit(s[i]) || s[i] == '.') && Count(s, '.') <= 1 && Count(s, '.') < |s|
  }

  /** The decimal syntax: an optional sign in front of an unsigned decimal. */
  predicate IsPlainDecimal(s: string) {
    IsUnsignedDecimal(s) || (|s| > 0 && (s[0] == '+' || s[0] == '-') && IsUnsignedDecimal(s[1..]))
  }

  /** The unsigned parser accepts exactly the unsigned decimal syntax. */
  lemma ParseUnsignedDecimalAccepts(s: string)
    ensures ParseUnsignedDecimal(s).Some? <==> IsUnsignedDecimal(s)
  {
    var parts := Split(s, '.');
    if Count(s, '.') == 0 {
      CountZero(s, '.');
      SplitWithoutSeparator(s, '.');
    } else if Count(s, '.') == 1 {
      var a, b := parts[0], parts[1];
      assert parts == [a, b];
      SplitIntoTwo(s, '.', a, b);
      CountAppend(a + ['.'], b, '.');
      CountAppend(a, ['.'], '.');
      if AllDigits(a) && AllDigits(b) && |a| + |b| > 0 {
        forall i | 0 <= i < |s| ensures IsDigit(s[i]) || s[i] == '.' {
          if i < |a| {
            assert s[i] == a[i];
          } else if i > |a| {
            assert s[i] == b[i - |a| - 1];
          }
        }
      }
      if IsUnsignedDecimal(s) {
        forall i | 0 <= i < |a| ensures IsDigit(a[i]) {
          assert a[i] == s[i];
        }
        forall i | 0 <= i < |b| ensures IsDigit(b[i]) {
          assert b[i] == s[i + |a| + 1];
        }
      }
    }
  }

  /**
   * `strconv.ParseFloat(s, 64)` restricted to plain decimal notation: an
   * optional sign, digits, and at most one decimal point, with at least one
   * digit in all.
   */
  function ParseDecimal(s: string): (r: Option<real>)
    ensures r.Some? <==> IsPlainDecimal(s)
    ensures r.Some? ==> |s| > 0 && ' ' !in s && ',' !in s
  {
    ParseUnsignedDecimalAccepts(s);
    ParseUnsignedDecimalAccepts(if |s| > 0 then s[1..] else s);
    if |s| > 0 && (s[0] == '+' || s[0] == '-') then
      match ParseUnsignedDecimal(s[1..])
      case Some(m) =>
        assert ' ' !in s && ',' !in s by {
          forall i | 1 <= i < |s| ensures s[i] != ' ' && s[i] != ',' {
            assert s[1..][i - 1] == s[i];
          }
        }
        Some(if s[0] == '-' then -m else m)
      case None => None
    else ParseUnsignedDecimal(s)
  }

  /** A second point, a lone point and a lone sign are all rejected; a missing integer part is not. */
  lemma DecimalRejections()
    ensures ParseDecimal("1.2.3").None? && ParseDecimal(".").None? && ParseDecimal("+").None?
    ensures ParseDecimal("-.5").Some?
  {
    assert Count("1.2.3", '.') == 2;
    assert Count(".", '.') == 1;
    assert Count(".5", '.') == 1 && "-.5"[1..] == ".5";
  }

  /** Every string `strconv.Atoi` accepts, `strconv.ParseFloat` accepts with the same value. */
  lemma ParseDecimalExtendsAtoi(s: string)
    requires Atoi(s).Some?
    ensures ParseDecimal(s) == Some(Atoi(s).value as real)
  {
    if |s| > 0 && (s[0] == '+' || s[0] == '-') {
      SplitWithoutSeparator(s[1..], '.');
    } else {
      SplitWithoutSeparator(s, '.');
    }
  }

  const FractionDigits: nat := 8

  lemma Pow10Fraction()
    ensures Pow10(FractionDigits) == 100_000_000
  {
    assert Pow10(2) == 100;
    assert Pow10(4) == 10 * (10 * Pow10(2));
    assert Pow10(6) == 10 * (10 * Pow10(4));
  }

  /** The number of eight-decimal units nearest to |v| (ties rounded up). */
  function RoundedUnits(v: real): (n: nat)
    ensures -0.5 < (n as real) - (if v < 0.0 then -v else v) * 100_000_000.0 <= 0.5
  {
    var a := if v < 0.0 then -v else v;
    (a * 100_000_000.0 + 0.5).Floor
  }

  /**
   * `fmt.Sprintf("%.8f", f)`: a finite value is written with a minus sign when
   * negative, its integer part, a point and exactly eight fraction digits;
   * the non-finite values are written `+Inf`, `-Inf` and `NaN`. Such text is
   * never an integer in the sense of `strconv.Atoi`.
   */
  function FormatFixed8(f: Float): (s: string)
    ensures Atoi(s) == None
    ensures f.Finite? ==> '.' in s
  {
    match f
    case PosInf => "+Inf"
    case NegInf => "-Inf"
    case NaN => "NaN"
    case Finite(v) =>
      var n := RoundedUnits(v);
      var s := (if v < 0.0 then "-" else "") + FixedBody(n);
      assert s[|s| - FractionDigits - 1] == '.';
      s
  }

  /** The unsigned part of `%.8f` for a count `n` of eight-decimal units. */
  function FixedBody(n: nat): (s: string)
    ensures |s| > FractionDigits && s[|s| - FractionDigits - 1] == '.'
  {
    Pow10Fraction();
    FormatNatWidth(n % 100_000_000, FractionDigits);
    FormatNat(n / 100_000_000) + "." + PadZeros(FormatNat(n % 100_000_000), FractionDigits)
  }

  /** Digits, a point and digits read back as the integer part plus the scaled fraction. */
  lemma ParsePointed(a: string, b: string)
    requires AllDigits(a) && AllDigits(b) && |a| + |b| > 0
    ensures ParseUnsignedDecimal(a + ['.'] + b).Some?
    ensures ParseUnsignedDecimal(a + ['.'] + b).value == DigitsValue(a) as real + DigitsValue(b) as real / Pow10(|b|) as real
  {
    var s := a + ['.'] + b;
    assert '.' !in a && '.' !in b by {
      assert forall i | 0 <= i < |a| :: IsDigit(a[i]);
      assert forall i | 0 <= i < |b| :: IsDigit(b[i]);
    }
    SplitIntoTwo(s, '.', a, b);
    var parts := Split(s, '.');
    assert |parts| == 2 && parts[0] == a && parts[1] == b;
    assert !AllDigits(s) by {
      assert s[|a|] == '.';
    }
    var v := DigitsValue(a) as real + DigitsValue(b) as real / Pow10(|b|) as real;
    assert ParseUnsignedDecimal(s).Some?;
    assert ParseUnsignedDecimal(s).value == v;
  }

  /** The unsigned part of `%.8f` reads back as its count of units divided by 10^8. */
  lemma FixedBodyValue(n: nat)
    ensures ParseUnsignedDecimal(FixedBody(n)).Some?
    ensures ParseUnsignedDecimal(FixedBody(n)).value * 100_000_000.0 == n as real
    ensures IsDigit(FixedBody(n)[0])
  {
    var a := FormatNat(n / 100_000_000);
    var b := PadZeros(FormatNat(n % 100_000_000), FractionDigits);
    assert FixedBody(n) == a + ['.'] + b;
    Pow10Fraction();
    ParsePointed(a, b);
    var da, db := DigitsValue(a), DigitsValue(b);
    assert da * 100_000_000 + db == n;
    assert (da as real + db as real / 100_000_000.0) * 100_000_000.0 == n as real;
  }

  /** A minus sign in front of an unsigned decimal negates its value. */
  lemma ParseNegated(body: string)
    requires ParseUnsignedDecimal(body).Some?
    ensures ParseDecimal("-" + body) == Some(-ParseUnsignedDecimal(body).value)
  {
    assert ("-" + body)[1..] == body;
  }

  /** `%.8f` of a finite value is its unsigned part, read back with the sign of the value. */
  lemma FormatFixed8Sign(v: real)
    ensures ParseUnsignedDecimal(FixedBody(RoundedUnits(v))).Some? ==>
      var u := ParseUnsignedDecimal(FixedBody(RoundedUnits(v))).value;
      ParseDecimal(FormatFixed8(Finite(v))) == Some(if v < 0.0 then -u else u)
  {
    var body := FixedBody(RoundedUnits(v));
    if ParseUnsignedDecimal(body).Some? {
      if v < 0.0 {
        ParseNegated(body);
        assert FormatFixed8(Finite(v)) == "-" + body;
      } else {
        assert FormatFixed8(Finite(v)) == body;
        FixedBodyValue(RoundedUnits(v));
        assert !(body[0] == '+' || body[0] == '-');
      }
    }
  }

  /** Reading `%.8f` back as a decimal recovers the value to within half a unit of the eighth decimal. */
  lemma FormatFixed8RoundTrip(v: real)
    ensures ParseDecimal(FormatFixed8(Finite(v))).Some?
    ensures var w := ParseDecimal(FormatFixed8(Finite(v))).value;
      -0.5 <= (w - v) * 100_000_000.0 <= 0.5
  {
    var n := RoundedUnits(v);
    FixedBodyValue(n);
    FormatFixed8Sign(v);
    var u := ParseUnsignedDecimal(FixedBody(n)).value;
    var w := ParseDecimal(FormatFixed8(Finite(v))).value;
    assert u * 100_000_000.0 == n as real;
    if v < 0.0 {
      assert (w - v) * 100_000_000.0 == -((n as real) - (-v) * 100_000_000.0);
    } else {
      assert (w - v) * 100_000_000.0 == (n as real) - v * 100_000_000.0;
    }
  }
}
