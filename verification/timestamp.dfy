/**
 * A point on the UTC time line as a count of seconds since the epoch plus a
 * nanosecond fraction, limited to the years 0001 to 9999: construction with
 * range checks, conversion from micro- and milliseconds (negative counts are
 * floored, so the fraction stays non-negative), conversion back to
 * milliseconds, ordering, and the fraction rule of the textual form.
 */
module CloudTimestamp {
  import opened Wrappers

  const NanosPerSecond := 1_000_000_000
  const NanosPerMilli := 1_000_000
  const MillisPerSecond := 1_000
  const MicrosPerSecond := 1_000_000
  const SecondsPerDay := 86_400

  /** 0001-01-01T00:00:00Z */
  const MinSeconds := -62_135_596_800
  /** 9999-12-31T23:59:59Z */
  const MaxSeconds := 253_402_300_799

  datatype Timestamp = Timestamp(seconds: int, nanos: int)

  /** The representation invariant every constructed timestamp keeps. */
  predicate Valid(t: Timestamp)
  {
    MinSeconds <= t.seconds <= MaxSeconds && 0 <= t.nanos < NanosPerSecond
  }

  const MinValue := Timestamp(MinSeconds, 0)
  const MaxValue := Timestamp(MaxSeconds, 999_999_999)

  /** The `IllegalArgumentException` of an out-of-range construction. */
  datatype TimestampError = OutOfRange

  /* ------------------------------------------------------------ calendar */

  /** Days from 1970-01-01 to the proleptic Gregorian date y-m-d. */
  function DaysFromCivil(y: int, m: int, d: int): int
    requires 1 <= m <= 12 && 1 <= d <= 31
  {
    var y' := if m <= 2 then y - 1 else y;
    var era := y' / 400;
    var yearOfEra := y' - era * 400;
    var dayOfYear := (153 * (if m > 2 then m - 3 else m + 9) + 2) / 5 + d - 1;
    var dayOfEra := yearOfEra * 365 + yearOfEra / 4 - yearOfEra / 100 + dayOfYear;
    era * 146_097 + dayOfEra - 719_468
  }

  /** Seconds from the epoch to a UTC date and time of day. */
  function EpochSeconds(y: int, mo: int, d: int, h: int, mi: int, s: int): int
    requires 1 <= mo <= 12 && 1 <= d <= 31
  {
    DaysFromCivil(y, mo, d) * SecondsPerDay + h * 3600 + mi * 60 + s
  }

  /** The lower bound is the first second of year 1. */
  lemma CalendarMin()
    ensures MinSeconds == EpochSeconds(1, 1, 1, 0, 0, 0)
  {
    assert DaysFromCivil(1, 1, 1) == -719_162;
  }

  /** The upper bound is the last second of year 9999. */
  lemma CalendarMax()
    ensures MaxSeconds == EpochSeconds(9999, 12, 31, 23, 59, 59)
  {
    assert DaysFromCivil(9999, 12, 31) == 2_932_896;
  }

  /** The epoch is day 0. */
  lemma CalendarEpoch()
    ensures EpochSeconds(1970, 1, 1, 0, 0, 0) == 0
  {
    assert DaysFromCivil(1970, 1, 1) == 0;
  }

  /** The test instant 1444662894 s is 2015-10-12T15:14:54Z. */
  lemma CalendarTestInstant()
    ensures EpochSeconds(2015, 10, 12, 15, 14, 54) == 1_444_662_894
  {
    assert DaysFromCivil(2015, 10, 12) == 16_720;
  }

  /* -------------------------------------------------------- construction */

  /** `ofTimeSecondsAndNanos`: rejects seconds outside [MIN, MAX] and nanos
      outside [0, 999999999]. */
  function OfTimeSecondsAndNanos(seconds: int, nanos: int): (r: Result<Timestamp, TimestampError>)
    ensures r.Success? <==> MinSeconds <= seconds <= MaxSeconds && 0 <= nanos < NanosPerSecond
    ensures r.Success? ==> Valid(r.value) && r.value.seconds == seconds && r.value.nanos == nanos
  {
    if MinSeconds <= seconds <= MaxSeconds && 0 <= nanos < NanosPerSecond then
      Success(Timestamp(seconds, nanos))
    else
      Failure(OutOfRange)
  }

  /** Java's `/` on longs: truncates toward zero. */
  function JavaDiv(a: int, b: int): int
    requires b > 0
  {
    if a >= 0 then a / b else -((-a) / b)
  }

  /** Java's `%` on longs: the remainder takes the sign of the dividend. */
  function JavaRem(a: int, b: int): int
    requires b > 0
  {
    a - JavaDiv(a, b) * b
  }

  lemma JavaDivision(a: int, b: int)
    requires b > 0
    ensures JavaDiv(a, b) * b + JavaRem(a, b) == a
    ensures a >= 0 ==> 0 <= JavaRem(a, b) < b
    ensures a < 0 ==> -b < JavaRem(a, b) <= 0
  {
    if a < 0 {
      assert JavaRem(a, b) == -((-a) % b);
    }
  }

  /** Truncating division corrected by one step when the remainder is
      negative is floor division. */
  lemma {:induction false} NormalizedIsFloor(a: int, b: int)
    requires b > 0
    ensures JavaRem(a, b) < 0 ==> JavaDiv(a, b) - 1 == a / b && JavaRem(a, b) + b == a % b
    ensures JavaRem(a, b) >= 0 ==> JavaDiv(a, b) == a / b && JavaRem(a, b) == a % b
  {
    if a < 0 {
      var q := (-a) / b;
      var r := (-a) % b;
      assert -a == q * b + r && 0 <= r < b;
      assert JavaDiv(a, b) == -q;
      assert JavaRem(a, b) == -r;
      if r == 0 {
        assert a == (-q) * b + 0;
        DivisionUnique(a, b, -q, 0);
      } else {
        assert a == (-q - 1) * b + (b - r);
        DivisionUnique(a, b, -q - 1, b - r);
      }
    }
  }

  /** The Euclidean quotient and remainder are the only ones with 0 <= r < b. */
  lemma {:induction false} DivisionUnique(a: int, b: int, q: int, r: int)
    requires b > 0 && a == q * b + r && 0 <= r < b
    ensures q == a / b && r == a % b
  {
    var q' := a / b;
    var r' := a % b;
    assert a == q' * b + r';
    assert (q - q') * b == r' - r;
    if q > q' {
      assert (q - q') * b >= b by { MultiplyAtLeast(q - q', b); }
    } else if q < q' {
      assert (q' - q) * b >= b by { MultiplyAtLeast(q' - q, b); }
    }
  }

  lemma MultiplyAtLeast(k: int, b: int)
    requires k >= 1 && b > 0
    ensures k * b >= b
  {
  }

  /** The shared normalisation of `of(Date)` and `ofTimeMicroseconds`: split
      a count of `unitsPerSecond`ths of a second with Java's truncating
      operators, then borrow a second when the fraction came out negative. */
  function OfUnits(count: int, unitsPerSecond: int): (r: Result<Timestamp, TimestampError>)
    requires unitsPerSecond > 0 && NanosPerSecond % unitsPerSecond == 0
    ensures r.Success? ==> Valid(r.value) && EpochNanos(r.value) == count * (NanosPerSecond / unitsPerSecond)
  {
    UnitsToNanos(count, unitsPerSecond);
    var seconds := JavaDiv(count, unitsPerSecond);
    var nanos := JavaRem(count, unitsPerSecond) * (NanosPerSecond / unitsPerSecond);
    if nanos < 0 then OfTimeSecondsAndNanos(seconds - 1, nanos + NanosPerSecond)
    else OfTimeSecondsAndNanos(seconds, nanos)
  }

  /** The split into seconds and a scaled remainder loses nothing. */
  lemma {:induction false} UnitsToNanos(count: int, u: int)
    requires u > 0 && NanosPerSecond % u == 0
    ensures JavaDiv(count, u) * NanosPerSecond + JavaRem(count, u) * (NanosPerSecond / u)
         == count * (NanosPerSecond / u)
  {
    var k := NanosPerSecond / u;
    var q := JavaDiv(count, u);
    var rem := JavaRem(count, u);
    assert u * k == NanosPerSecond;
    assert q * u + rem == count;
    calc {
      q * NanosPerSecond + rem * k;
      q * (u * k) + rem * k;
      { assert q * (u * k) == (q * u) * k; }
      (q * u) * k + rem * k;
      (q * u + rem) * k;
    }
  }

  /** `of(Date)`: a count of milliseconds since the epoch. */
  function OfMillis(millis: int): (r: Result<Timestamp, TimestampError>)
    ensures r.Success? ==> Valid(r.value) && EpochNanos(r.value) == millis * NanosPerMilli
  {
    OfUnits(millis, MillisPerSecond)
  }

  /** `ofTimeMicroseconds`. */
  function OfMicros(micros: int): (r: Result<Timestamp, TimestampError>)
    ensures r.Success? ==> Valid(r.value) && EpochNanos(r.value) == micros * 1000
  {
    OfUnits(micros, MicrosPerSecond)
  }

  /** Milliseconds are floored into seconds: the seconds are the floor of
      millis / 1000, the fraction the non-negative rest; the range is the
      whole seconds between MIN and MAX. */
  lemma {:induction false} OfMillisFloor(millis: int)
    ensures OfMillis(millis).Success? <==> MinSeconds * 1000 <= millis < (MaxSeconds + 1) * 1000
    ensures OfMillis(millis).Success? ==>
      OfMillis(millis).value == Timestamp(millis / 1000, (millis % 1000) * NanosPerMilli)
  {
    NormalizedIsFloor(millis, 1000);
  }

  /** Microseconds are floored the same way. */
  lemma {:induction false} OfMicrosFloor(micros: int)
    ensures OfMicros(micros).Success? <==> MinSeconds * 1_000_000 <= micros < (MaxSeconds + 1) * 1_000_000
    ensures OfMicros(micros).Success? ==>
      OfMicros(micros).value == Timestamp(micros / 1_000_000, (micros % 1_000_000) * 1000)
  {
    NormalizedIsFloor(micros, 1_000_000);
  }

  /** For a non-negative count the seconds and fraction are Java's own
      quotient and remainder, as asserted for 10000100 microseconds. */
  lemma {:induction false} OfMicrosNonNegative(micros: int)
    requires 0 <= micros < (MaxSeconds + 1) * 1_000_000
    ensures OfMicros(micros) == Success(Timestamp(JavaDiv(micros, 1_000_000), JavaRem(micros, 1_000_000) * 1000))
  {
  }

  /** A pre-epoch count borrows a second exactly when Java's remainder is
      negative, as the test's expectation spells out. */
  lemma {:induction false} OfMillisPreEpoch(millis: int)
    requires MinSeconds * 1000 <= millis < 0
    ensures var s := JavaDiv(millis, 1000);
      var n := JavaRem(millis, 1000) * NanosPerMilli;
      OfMillis(millis) == Success(if n < 0 then Timestamp(s - 1, n + NanosPerSecond) else Timestamp(s, n))
  {
    OfMillisFloor(millis);
    NormalizedIsFloor(millis, 1000);
  }

  /** Milliseconds and the same instant in microseconds agree. */
  lemma {:induction false} MillisAgreeWithMicros(millis: int)
    ensures OfMillis(millis) == OfMicros(millis * 1000)
  {
    OfMillisFloor(millis);
    OfMicrosFloor(millis * 1000);
    assert (millis * 1000) / 1_000_000 == millis / 1000;
    assert (millis * 1000) % 1_000_000 == (millis % 1000) * 1000;
  }

  /** The instances the tests spell out. */
  lemma {:induction false} ConversionExamples()
    ensures OfMicros(10_000_100) == Success(Timestamp(10, 100_000))
    ensures OfMillis(-1000) == Success(Timestamp(-1, 0))
    ensures OfMillis(-12_345) == Success(Timestamp(-13, 655_000_000))
    ensures OfMillis(12_345) == Success(Timestamp(12, 345_000_000))
    ensures OfMillis((MinSeconds - 1) * 1000).Failure?
    ensures OfMillis((MaxSeconds + 1) * 1000).Failure?
  {
    OfMicrosFloor(10_000_100);
    OfMillisFloor(-1000);
    OfMillisFloor(-12_345);
    OfMillisFloor(12_345);
    OfMillisFloor((MinSeconds - 1) * 1000);
    OfMillisFloor((MaxSeconds + 1) * 1000);
  }

  /* ---------------------------------------------------------- conversion */

  /** `toDate().getTime()`: whole milliseconds, the sub-millisecond part of
      the fraction dropped. */
  function ToMillis(t: Timestamp): (r: int)
    requires Valid(t)
    ensures r == EpochNanos(t) / NanosPerMilli
  {
    var r := t.seconds * MillisPerSecond + t.nanos / NanosPerMilli;
    assert EpochNanos(t) == r * NanosPerMilli + t.nanos % NanosPerMilli;
    DivisionUnique(EpochNanos(t), NanosPerMilli, r, t.nanos % NanosPerMilli);
    r
  }

  /** Milliseconds survive the trip through a timestamp. */
  lemma {:induction false} MillisRoundTrip(millis: int)
    requires OfMillis(millis).Success?
    ensures ToMillis(OfMillis(millis).value) == millis
  {
    OfMillisFloor(millis);
    var n := millis % 1000;
    assert (n * NanosPerMilli) / NanosPerMilli == n;
  }

  /** A timestamp with a whole number of milliseconds survives the trip
      through milliseconds; with a finer fraction it is truncated. */
  lemma {:induction false} TimestampRoundTrip(t: Timestamp)
    requires Valid(t)
    ensures OfMillis(ToMillis(t)).Success?
    ensures OfMillis(ToMillis(t)).value == Timestamp(t.seconds, t.nanos - t.nanos % NanosPerMilli)
    ensures t.nanos % NanosPerMilli == 0 ==> OfMillis(ToMillis(t)) == Success(t)
  {
    var ms := ToMillis(t);
    var k := t.nanos / NanosPerMilli;
    assert 0 <= k < 1000;
    DivisionUnique(ms, 1000, t.seconds, k);
    OfMillisFloor(ms);
  }

  /** The instant of the `toDate` test: 1444662894 s and 1234 µs. */
  lemma ToDateExample()
    ensures ToMillis(Timestamp(1_444_662_894, 1234 * 1000)) == 1_444_662_894 * 1000 + 1
  {
  }

  /* ------------------------------------------------------------ equality */

  /** Nanoseconds since the epoch: the reference for equality and order. */
  function EpochNanos(t: Timestamp): int
  {
    t.seconds * NanosPerSecond + t.nanos
  }

  /** Two valid timestamps are equal exactly when they denote the same
      instant, and a construction from whole-second milliseconds equals the
      one from seconds and zero nanos. */
  lemma {:induction false} EqualityIsSameInstant(a: Timestamp, b: Timestamp)
    requires Valid(a) && Valid(b)
    ensures a == b <==> EpochNanos(a) == EpochNanos(b)
  {
    if EpochNanos(a) == EpochNanos(b) {
      DivisionUnique(EpochNanos(a), NanosPerSecond, a.seconds, a.nanos);
      DivisionUnique(EpochNanos(a), NanosPerSecond, b.seconds, b.nanos);
    }
  }

  lemma {:induction false} WholeSecondMillis(seconds: int)
    requires MinSeconds <= seconds <= MaxSeconds
    ensures OfMillis(seconds * 1000) == OfTimeSecondsAndNanos(seconds, 0)
  {
    OfMillisFloor(seconds * 1000);
    DivisionUnique(seconds * 1000, 1000, seconds, 0);
  }

  /* ------------------------------------------------------------ ordering */

  /** `compareTo`: seconds first, then nanos. */
  function CompareTo(a: Timestamp, b: Timestamp): (r: int)
    ensures -1 <= r <= 1
  {
    if a.seconds < b.seconds then -1
    else if a.seconds > b.seconds then 1
    else if a.nanos < b.nanos then -1
    else if a.nanos > b.nanos then 1
    else 0
  }

  /** On valid timestamps the order is the order of the instants. */
  lemma {:induction false} CompareIsInstantOrder(a: Timestamp, b: Timestamp)
    requires Valid(a) && Valid(b)
    ensures CompareTo(a, b) < 0 <==> EpochNanos(a) < EpochNanos(b)
    ensures CompareTo(a, b) == 0 <==> a == b
    ensures CompareTo(a, b) > 0 <==> EpochNanos(a) > EpochNanos(b)
  {
    EqualityIsSameInstant(a, b);
    if a.seconds < b.seconds {
      assert EpochNanos(a) < (a.seconds + 1) * NanosPerSecond <= EpochNanos(b);
    } else if a.seconds > b.seconds {
      assert EpochNanos(b) < (b.seconds + 1) * NanosPerSecond <= EpochNanos(a);
    }
  }

  /** `compareTo` is antisymmetric and transitive. */
  lemma {:induction false} CompareIsTotalOrder(a: Timestamp, b: Timestamp, c: Timestamp)
    requires Valid(a) && Valid(b) && Valid(c)
    ensures CompareTo(a, b) == -CompareTo(b, a)
    ensures CompareTo(a, b) <= 0 && CompareTo(b, c) <= 0 ==> CompareTo(a, c) <= 0
  {
    CompareIsInstantOrder(a, b);
    CompareIsInstantOrder(b, a);
    CompareIsInstantOrder(b, c);
    CompareIsInstantOrder(a, c);
  }

  /** MIN is before MAX; (100 s, 1000 ns) is before (101 s, 0 ns). */
  lemma OrderExamples()
    ensures CompareTo(MinValue, MaxValue) < 0 && CompareTo(MaxValue, MinValue) > 0
    ensures CompareTo(Timestamp(100, 1000), Timestamp(101, 0)) < 0
    ensures CompareTo(Timestamp(100, 0), Timestamp(100, 0)) == 0
  {
  }

  /* ------------------------------------------------------------ toString */

  function Pow10(n: nat): (r: nat)
    ensures r >= 1
  {
    if n == 0 then 1 else 10 * Pow10(n - 1)
  }

  function DigitChar(d: int): char
    requires 0 <= d < 10
  {
    ('0' as int + d) as char
  }

  function DigitValue(c: char): int
  {
    c as int - '0' as int
  }

  /** The last `width` decimal digits of n, zero-padded (`%0<width>d` for
      n below 10^width). */
  function Digits(n: nat, width: nat): (r: string)
    ensures |r| == width
    ensures forall i :: 0 <= i < |r| ==> '0' <= r[i] <= '9'
  {
    if width == 0 then "" else Digits(n / 10, width - 1) + [DigitChar(n % 10)]
  }

  /** Reads a run of decimal digits. */
  function ParseDigits(s: string): int
  {
    if |s| == 0 then 0 else ParseDigits(s[..|s| - 1]) * 10 + DigitValue(s[|s| - 1])
  }

  /** The padded digits read back as the number they print. */
  lemma {:induction false} DigitsRoundTrip(n: nat, width: nat)
    requires n < Pow10(width)
    ensures ParseDigits(Digits(n, width)) == n
  {
    if width > 0 {
      var r := Digits(n, width);
      assert r[..|r| - 1] == Digits(n / 10, width - 1);
      DigitsRoundTrip(n / 10, width - 1);
    }
  }

  /** The fraction: nothing for a whole second, otherwise a point and all nine
      digits of the nanos. */
  function FractionText(nanos: nat): string
  {
    if nanos == 0 then "" else "." + Digits(nanos, 9)
  }

  /** `toString`: the date and time of day to the second (`dateTime`, the
      ISO local date-time of the seconds), the fraction, then `Z`. */
  function ToString(t: Timestamp, dateTime: int -> string): (r: string)
    requires Valid(t)
    ensures |r| > |dateTime(t.seconds)| && r[..|dateTime(t.seconds)|] == dateTime(t.seconds)
    ensures r[|r| - 1] == 'Z'
    ensures t.nanos == 0 <==> |r| == |dateTime(t.seconds)| + 1
  {
    dateTime(t.seconds) + FractionText(t.nanos) + "Z"
  }

  /** A whole second prints no fraction; otherwise exactly nine fraction
      digits follow the point and read back as the nanos. */
  lemma {:induction false} ToStringFraction(t: Timestamp, dateTime: int -> string)
    requires Valid(t)
    ensures var s := ToString(t, dateTime);
      var p := |dateTime(t.seconds)|;
      && s[..p] == dateTime(t.seconds)
      && s[|s| - 1] == 'Z'
      && (t.nanos == 0 <==> |s| == p + 1)
      && (t.nanos != 0 ==>
            |s| == p + 11 && s[p] == '.'
            && (forall i :: p < i < p + 10 ==> '0' <= s[i] <= '9')
            && ParseDigits(s[p + 1..p + 10]) == t.nanos)
  {
    var s := ToString(t, dateTime);
    var p := |dateTime(t.seconds)|;
    if t.nanos != 0 {
      assert Pow10(9) == NanosPerSecond;
      DigitsRoundTrip(t.nanos, 9);
      assert s[p + 1..p + 10] == Digits(t.nanos, 9);
    }
  }

  /** Zero prints as zeros at every width. */
  lemma {:induction false} DigitsOfZero(width: nat)
    ensures Digits(0, width) == seq(width, _ => '0')
  {
    if width > 0 {
      DigitsOfZero(width - 1);
    }
  }

  /** The fraction of 100 ns, as the test prints it: six zeros, then 100. */
  lemma {:induction false} FractionOfHundredNanos()
    ensures FractionText(0) == ""
    ensures FractionText(100) == "." + seq(6, _ => '0') + "100"
  {
    DigitsOfZero(6);
    assert Digits(1, 7) == Digits(0, 6) + "1";
    assert Digits(10, 8) == Digits(1, 7) + "0";
    assert Digits(100, 9) == Digits(10, 8) + "0";
  }

  /** All-nines values print as nines at every width. */
  lemma {:induction false} DigitsOfNines(width: nat)
    ensures Digits(Pow10(width) - 1, width) == seq(width, _ => '9')
  {
    if width > 0 {
      var n := Pow10(width) - 1;
      assert n / 10 == Pow10(width - 1) - 1 && n % 10 == 9;
      DigitsOfNines(width - 1);
    }
  }

  /** The fraction of MAX is nine nines. */
  lemma {:induction false} FractionOfMax()
    ensures FractionText(MaxValue.nanos) == "." + seq(9, _ => '9')
  {
    assert Pow10(9) - 1 == MaxValue.nanos;
    DigitsOfNines(9);
  }
}
