/**
 * Parsing of the `timestamp_utc` strings of status polls (main.py lines 48-51).
 *
 * The source calls `datetime.strptime` with `%Y-%m-%d %H:%M:%S.%f UTC` and, when
 * that raises `ValueError`, with `%Y-%m-%d %H:%M:%S UTC`; an error from the second
 * call is not caught. A parsed naive date-time is represented here as an instant:
 * microseconds since 0001-01-01 00:00:00, Python's proleptic Gregorian scale.
 */
module Timestamps {
  import opened Wrappers

  /** The `ValueError` raised by `strptime`, carrying the string it rejected. */
  datatype ParseError = MalformedTimestamp(raw: string)

  const MicrosPerSecond: nat := 1_000_000

  // ---------------------------------------------------------------------------
  // Decimal digits

  predicate IsDigit(c: char) { '0' <= c <= '9' }

  predicate AllDigits(s: string) { forall i :: 0 <= i < |s| ==> IsDigit(s[i]) }

  function DigitValue(c: char): nat
    requires IsDigit(c)
  {
    (c as int) - ('0' as int)
  }

  function DigitChar(d: nat): (c: char)
    requires d < 10
    ensures IsDigit(c) && DigitValue(c) == d
  {
    (('0' as int) + d) as char
  }

  /** The number a string of decimal digits denotes (most significant first). */
  function DigitsValue(s: string): nat
    requires AllDigits(s)
    decreases |s|
  {
    if |s| == 0 then 0 else 10 * DigitsValue(s[..|s| - 1]) + DigitValue(s[|s| - 1])
  }

  function Pow10(n: nat): (p: nat)
    ensures p >= 1
  {
    if n == 0 then 1 else 10 * Pow10(n - 1)
  }

  /** The `width` low decimal digits of `n`, zero-padded on the left. */
  function PadDigits(n: nat, width: nat): (s: string)
    ensures |s| == width && AllDigits(s)
  {
    if width == 0 then [] else PadDigits(n / 10, width - 1) + [DigitChar(n % 10)]
  }

  lemma {:induction false} PadDigitsRoundTrip(n: nat, width: nat)
    requires n < Pow10(width)
    ensures DigitsValue(PadDigits(n, width)) == n
  {
    if width > 0 {
      var s := PadDigits(n, width);
      assert s[..|s| - 1] == PadDigits(n / 10, width - 1);
      PadDigitsRoundTrip(n / 10, width - 1);
    }
  }

  lemma {:induction false} DigitsValueBound(s: string)
    requires AllDigits(s)
    ensures DigitsValue(s) < Pow10(|s|)
  {
    if |s| > 0 {
      DigitsValueBound(s[..|s| - 1]);
    }
  }

  lemma {:induction false} Pow10Add(a: nat, b: nat)
    ensures Pow10(a + b) == Pow10(a) * Pow10(b)
  {
    if a > 0 {
      Pow10Add(a - 1, b);
    }
  }

  // ---------------------------------------------------------------------------
  // Calendar

  /** A naive date-time as `strptime` fills it in. */
  datatype DateTime = DateTime(year: nat, month: nat, day: nat, hour: nat, minute: nat, second: nat, micro: nat)

  predicate IsLeapYear(y: int) { y % 4 == 0 && (y % 100 != 0 || y % 400 == 0) }

  function DaysInMonth(y: int, m: int): int
    requires 1 <= m <= 12
  {
    if m == 2 then (if IsLeapYear(y) then 29 else 28)
    else if m == 4 || m == 6 || m == 9 || m == 11 then 30
    else 31
  }

  /** What Python's `datetime` constructor accepts (years 1 to 9999, no leap second). */
  predicate IsValid(dt: DateTime)
  {
    && 1 <= dt.year <= 9999
    && 1 <= dt.month <= 12
    && 1 <= dt.day <= DaysInMonth(dt.year, dt.month)
    && dt.hour < 24 && dt.minute < 60 && dt.second < 60
    && dt.micro < MicrosPerSecond
  }

  /** Days in the years before `y`, counted from year 1. */
  function DaysBeforeYear(y: int): nat
    decreases y
  {
    if y <= 1 then 0 else DaysBeforeYear(y - 1) + (if IsLeapYear(y - 1) then 366 else 365)
  }

  function DaysBeforeMonth(y: int, m: int): int
    requires 1 <= m <= 12
  {
    [0, 31, 59, 90, 120, 151, 181, 212, 243, 273, 304, 334][m - 1]
    + (if m > 2 && IsLeapYear(y) then 1 else 0)
  }

  /** Days since 0001-01-01 (Python's `toordinal() - 1`). */
  function DayNumber(dt: DateTime): int
    requires 1 <= dt.month <= 12
  {
    DaysBeforeYear(dt.year) + DaysBeforeMonth(dt.year, dt.month) + dt.day - 1
  }

  /** The instant of a naive date-time, in microseconds since 0001-01-01 00:00:00. */
  function ToMicros(dt: DateTime): int
    requires 1 <= dt.month <= 12
  {
    (((DayNumber(dt) * 24 + dt.hour) * 60 + dt.minute) * 60 + dt.second) * MicrosPerSecond + dt.micro
  }

  // ---------------------------------------------------------------------------
  // The two formats

  datatype Format = WithFraction | WholeSeconds

  /** The literal ` UTC` at the end of both formats; `strptime` matches it ignoring case. */
  predicate IsUtcSuffix(t: string)
  {
    && |t| == 4
    && t[0] == ' '
    && (t[1] == 'U' || t[1] == 'u')
    && (t[2] == 'T' || t[2] == 't')
    && (t[3] == 'C' || t[3] == 'c')
  }

  /** The fields of the `%Y-%m-%d %H:%M:%S` head shared by both formats (19 characters). */
  function HeadFields(s: string): Option<DateTime>
  {
    if && |s| >= 19
       && AllDigits(s[0..4]) && s[4] == '-' && AllDigits(s[5..7]) && s[7] == '-'
       && AllDigits(s[8..10]) && s[10] == ' '
       && AllDigits(s[11..13]) && s[13] == ':' && AllDigits(s[14..16]) && s[16] == ':'
       && AllDigits(s[17..19])
    then Some(DateTime(DigitsValue(s[0..4]), DigitsValue(s[5..7]), DigitsValue(s[8..10]),
                       DigitsValue(s[11..13]), DigitsValue(s[14..16]), DigitsValue(s[17..19]), 0))
    else None
  }

  /** Microseconds denoted by a `%f` field: one to six digits, right-padded with zeros. */
  function FractionMicros(f: string): nat
    requires AllDigits(f) && |f| <= 6
  {
    DigitsValue(f) * Pow10(6 - |f|)
  }

  /** The fields `strptime` reads from `s` with the given format, when the shape matches. */
  function Fields(format: Format, s: string): Option<DateTime>
  {
    match HeadFields(s)
    case None => None
    case Some(dt) =>
      match format
      case WholeSeconds =>
        if |s| == 23 && IsUtcSuffix(s[19..]) then Some(dt) else None
      case WithFraction =>
        if 25 <= |s| <= 30 && s[19] == '.' && AllDigits(s[20..|s| - 4]) && IsUtcSuffix(s[|s| - 4..])
        then Some(dt.(micro := FractionMicros(s[20..|s| - 4])))
        else None
  }

  /** `datetime.strptime(s, format)`: the instant, or `ValueError` on a shape or range mismatch. */
  function Strptime(format: Format, s: string): Result<int, ParseError>
  {
    match Fields(format, s)
    case Some(dt) => if IsValid(dt) then Success(ToMicros(dt)) else Failure(MalformedTimestamp(s))
    case None => Failure(MalformedTimestamp(s))
  }

  /**
   * Lines 48-51: the fractional format first and the whole-seconds format on any
   * `ValueError`; a failure of the second attempt is the result.
   */
  function ParseTimestamp(s: string): (r: Result<int, ParseError>)
    ensures r.Failure? ==> r.error == MalformedTimestamp(s)
    ensures r.Success? ==> && HeadFields(s).Some?
                           && (|s| == 23 || 25 <= |s| <= 30)
                           && IsUtcSuffix(s[|s| - 4..])
  {
    var first := Strptime(WithFraction, s);
    if first.Success? then first else Strptime(WholeSeconds, s)
  }

  // ---------------------------------------------------------------------------
  // Rendering, the partner of parsing

  /** `%Y-%m-%d %H:%M:%S` of a date-time. */
  function Head(dt: DateTime): (s: string)
    ensures |s| == 19
  {
    PadDigits(dt.year, 4) + "-" + PadDigits(dt.month, 2) + "-" + PadDigits(dt.day, 2) + " "
    + PadDigits(dt.hour, 2) + ":" + PadDigits(dt.minute, 2) + ":" + PadDigits(dt.second, 2)
  }

  function FormatWhole(dt: DateTime): string
  {
    Head(dt) + " UTC"
  }

  function FormatFraction(dt: DateTime): string
  {
    Head(dt) + "." + PadDigits(dt.micro, 6) + " UTC"
  }

  lemma HeadRoundTrip(dt: DateTime, tail: string)
    requires dt.year < 10000 && dt.month < 100 && dt.day < 100
    requires dt.hour < 100 && dt.minute < 100 && dt.second < 100
    ensures HeadFields(Head(dt) + tail) == Some(dt.(micro := 0))
  {
    var s := Head(dt) + tail;
    assert Pow10(2) == 100;
    assert Pow10(4) == 10000;
    assert s[0..4] == PadDigits(dt.year, 4);
    assert s[5..7] == PadDigits(dt.month, 2);
    assert s[8..10] == PadDigits(dt.day, 2);
    assert s[11..13] == PadDigits(dt.hour, 2);
    assert s[14..16] == PadDigits(dt.minute, 2);
    assert s[17..19] == PadDigits(dt.second, 2);
    PadDigitsRoundTrip(dt.year, 4);
    PadDigitsRoundTrip(dt.month, 2);
    PadDigitsRoundTrip(dt.day, 2);
    PadDigitsRoundTrip(dt.hour, 2);
    PadDigitsRoundTrip(dt.minute, 2);
    PadDigitsRoundTrip(dt.second, 2);
  }

  /** A whole-second timestamp parses, through the fallback, to its own instant. */
  lemma WholeRoundTrip(dt: DateTime)
    requires IsValid(dt) && dt.micro == 0
    ensures ParseTimestamp(FormatWhole(dt)) == Success(ToMicros(dt))
  {
    var s := FormatWhole(dt);
    HeadRoundTrip(dt, " UTC");
    assert s[19] == ' ';
    assert Strptime(WithFraction, s).Failure?;
    assert s[19..] == " UTC";
  }

  /** A `%f` field denotes less than one second. */
  lemma FractionMicrosBound(f: string)
    requires 1 <= |f| <= 6 && AllDigits(f)
    ensures FractionMicros(f) < MicrosPerSecond
  {
    var d, p := DigitsValue(f), Pow10(6 - |f|);
    DigitsValueBound(f);
    Pow10Add(|f|, 6 - |f|);
    assert Pow10(6) == 1000000;
    assert d * p <= (Pow10(|f|) - 1) * p by {
      MulMonotone(d, Pow10(|f|) - 1, p);
    }
  }

  lemma MulMonotone(a: nat, b: nat, c: nat)
    requires a <= b
    ensures a * c <= b * c
  {
  }

  lemma FractionFields(dt: DateTime, f: string)
    requires IsValid(dt) && dt.micro == 0
    requires 1 <= |f| <= 6 && AllDigits(f)
    ensures Fields(WithFraction, Head(dt) + ("." + f + " UTC")) == Some(dt.(micro := FractionMicros(f)))
  {
    var s := Head(dt) + ("." + f + " UTC");
    HeadRoundTrip(dt, "." + f + " UTC");
    assert s[19] == '.';
    assert s[20..|s| - 4] == f;
    assert s[|s| - 4..] == " UTC";
  }

  /**
   * A `%f` field of one to six digits is read right-padded with zeros: the instant
   * is the whole-second instant plus `FractionMicros(f)` microseconds.
   */
  lemma FractionRoundTrip(dt: DateTime, f: string)
    requires IsValid(dt) && dt.micro == 0
    requires 1 <= |f| <= 6 && AllDigits(f)
    ensures ParseTimestamp(Head(dt) + "." + f + " UTC")
            == Success(ToMicros(dt) + FractionMicros(f))
  {
    var s := Head(dt) + "." + f + " UTC";
    var full := dt.(micro := FractionMicros(f));
    assert Fields(WithFraction, s) == Some(full) by {
      assert s == Head(dt) + ("." + f + " UTC");
      FractionFields(dt, f);
    }
    assert IsValid(full) by {
      FractionMicrosBound(f);
      ValidWithMicro(dt, FractionMicros(f));
    }
    var t := ToMicros(dt) + FractionMicros(f);
    assert ToMicros(full) == t by {
      ToMicrosMicro(dt, FractionMicros(f));
    }
    assert ParseTimestamp(s) == Success(t) by {
      StrptimeValid(WithFraction, s, full);
    }
  }

  lemma ValidWithMicro(dt: DateTime, m: nat)
    requires IsValid(dt) && m < MicrosPerSecond
    ensures IsValid(dt.(micro := m))
  {
  }

  lemma ToMicrosMicro(dt: DateTime, m: nat)
    requires 1 <= dt.month <= 12
    ensures ToMicros(dt.(micro := m)) == ToMicros(dt) - dt.micro + m
  {
  }

  lemma StrptimeValid(format: Format, s: string, dt: DateTime)
    requires Fields(format, s) == Some(dt) && IsValid(dt)
    ensures ParseTimestamp(s) == Success(ToMicros(dt))
    ensures Strptime(format, s) == Success(ToMicros(dt))
  {
    match format
    case WithFraction =>
    case WholeSeconds =>
      assert Fields(WithFraction, s).None?;
  }

  /** `strptime` with `format` accepts `s`: the shape matches and the date-time exists. */
  predicate FormatMatches(format: Format, s: string)
  {
    Fields(format, s).Some? && IsValid(Fields(format, s).value)
  }

  /**
   * Lines 48-51 in terms of the two formats: the parse succeeds exactly when one
   * format accepts the string, and then yields the instant of the fields that
   * format reads; otherwise the error names the string.
   */
  lemma ParseTimestampCases(s: string)
    ensures ParseTimestamp(s).Success? <==> FormatMatches(WithFraction, s) || FormatMatches(WholeSeconds, s)
    ensures forall format :: FormatMatches(format, s) ==> ParseTimestamp(s) == Success(ToMicros(Fields(format, s).value))
    ensures ParseTimestamp(s).Failure? ==> ParseTimestamp(s).error == MalformedTimestamp(s)
  {
    forall format | FormatMatches(format, s)
      ensures ParseTimestamp(s) == Success(ToMicros(Fields(format, s).value))
    {
      StrptimeValid(format, s, Fields(format, s).value);
    }
  }

  /** The six-digit rendering of a date-time parses back to the same instant. */
  lemma FullFractionRoundTrip(dt: DateTime)
    requires IsValid(dt)
    ensures ParseTimestamp(FormatFraction(dt)) == Success(ToMicros(dt))
  {
    var whole := dt.(micro := 0);
    var f := PadDigits(dt.micro, 6);
    assert FractionMicros(f) == dt.micro by {
      assert Pow10(6) == 1000000;
      PadDigitsRoundTrip(dt.micro, 6);
    }
    var text := Head(whole) + "." + f + " UTC";
    assert FormatFraction(dt) == text by {
      assert Head(whole) == Head(dt);
    }
    var t := ToMicros(whole) + FractionMicros(f);
    assert t == ToMicros(dt) by {
      ToMicrosMicro(whole, dt.micro);
    }
    assert ParseTimestamp(text) == Success(t) by {
      FractionRoundTrip(whole, f);
    }
  }

  /**
   * A whole-second timestamp and the same timestamp with a half-second fraction
   * both parse, half a million microseconds apart; `.5` reads as `.500000`.
   */
  lemma HalfSecondApart(dt: DateTime)
    requires IsValid(dt) && dt.micro == 0
    ensures ParseTimestamp(FormatWhole(dt)) == Success(ToMicros(dt))
    ensures ParseTimestamp(Head(dt) + "." + "500000" + " UTC") == Success(ToMicros(dt) + 500000)
    ensures ParseTimestamp(Head(dt) + "." + "5" + " UTC") == Success(ToMicros(dt) + 500000)
  {
    WholeRoundTrip(dt);
    SixDigitHalf(dt);
    OneDigitHalf(dt);
  }

  lemma SixDigitHalf(dt: DateTime)
    requires IsValid(dt) && dt.micro == 0
    ensures ParseTimestamp(Head(dt) + "." + "500000" + " UTC") == Success(ToMicros(dt) + 500000)
  {
    FractionRoundTrip(dt, "500000");
    HalfSecondDigits();
  }

  lemma OneDigitHalf(dt: DateTime)
    requires IsValid(dt) && dt.micro == 0
    ensures ParseTimestamp(Head(dt) + "." + "5" + " UTC") == Success(ToMicros(dt) + 500000)
  {
    FractionRoundTrip(dt, "5");
    HalfSecondDigits();
  }

  lemma HalfSecondDigits()
    ensures FractionMicros("5") == 500000
    ensures FractionMicros("500000") == 500000
  {
    assert |"5"| == 1;
    assert Pow10(5) == 100000;
    assert DigitsValue("5") == 5;
    assert "50"[..1] == "5";
    assert DigitsValue("50") == 50;
    assert "500"[..2] == "50";
    assert DigitsValue("500") == 500;
    assert "5000"[..3] == "500";
    assert DigitsValue("5000") == 5000;
    assert "50000"[..4] == "5000";
    assert DigitsValue("50000") == 50000;
    assert "500000"[..5] == "50000";
  }

  /**
   * A date-time that Python's `datetime` refuses (a day past the month's end, an
   * hour of 24, ...) is rejected in both layouts: the error is not recovered from.
   */
  lemma OutOfRangeRejected(dt: DateTime, f: string)
    requires dt.year < 10000 && dt.month < 100 && dt.day < 100
    requires dt.hour < 100 && dt.minute < 100 && dt.second < 100
    requires dt.micro == 0 && !IsValid(dt)
    requires 1 <= |f| <= 6 && AllDigits(f)
    ensures ParseTimestamp(FormatWhole(dt)).Failure?
    ensures ParseTimestamp(Head(dt) + "." + f + " UTC").Failure?
  {
    WholeOutOfRange(dt);
    FractionOutOfRange(dt, f);
  }

  lemma WholeOutOfRange(dt: DateTime)
    requires dt.year < 10000 && dt.month < 100 && dt.day < 100
    requires dt.hour < 100 && dt.minute < 100 && dt.second < 100
    requires dt.micro == 0 && !IsValid(dt)
    ensures ParseTimestamp(FormatWhole(dt)).Failure?
  {
    var whole := FormatWhole(dt);
    assert HeadFields(whole) == Some(dt) by {
      HeadRoundTrip(dt, " UTC");
    }
    assert Fields(WithFraction, whole).None? by {
      assert whole[19] == ' ';
    }
    assert Fields(WholeSeconds, whole) == Some(dt) by {
      assert whole[19..] == " UTC";
    }
  }

  lemma FractionOutOfRange(dt: DateTime, f: string)
    requires dt.year < 10000 && dt.month < 100 && dt.day < 100
    requires dt.hour < 100 && dt.minute < 100 && dt.second < 100
    requires dt.micro == 0 && !IsValid(dt)
    requires 1 <= |f| <= 6 && AllDigits(f)
    ensures ParseTimestamp(Head(dt) + "." + f + " UTC").Failure?
  {
    var frac := Head(dt) + "." + f + " UTC";
    assert HeadFields(frac) == Some(dt) by {
      assert frac == Head(dt) + ("." + f + " UTC");
      HeadRoundTrip(dt, "." + f + " UTC");
    }
    assert Fields(WholeSeconds, frac).None? by {
      assert |frac| != 23;
    }
    assert Strptime(WithFraction, frac).Failure? by {
      var g := Fields(WithFraction, frac);
      assert g.Some? ==> g.value == dt.(micro := g.value.micro);
    }
  }

  /** Other layouts and fractions of seven digits match neither format. */
  lemma RejectedLayouts(isoLayout: string, sevenDigits: string)
    requires isoLayout == "2023-01-01T10:00:00Z"
    requires sevenDigits == "2023-01-01 10:00:00.1234567 UTC"
    ensures ParseTimestamp(isoLayout).Failure?
    ensures ParseTimestamp(sevenDigits).Failure?
  {
    assert |isoLayout| == 20;
    assert |sevenDigits| == 31;
  }
}
