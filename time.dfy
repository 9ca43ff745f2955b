/** Durations as `datetime.time` values: building one from a number of
    seconds, adding two, and the blog's human-readable format. */
module BlogTime {
  import opened Wrappers
  import opened Text

  /** The fields of a `datetime.time`. */
  datatype Time = Time(hour: int, minute: int, second: int, microsecond: int)

  /** The ranges the `datetime.time` constructor enforces. */
  predicate Valid(t: Time) {
    0 <= t.hour < 24 && 0 <= t.minute < 60 && 0 <= t.second < 60 && 0 <= t.microsecond < 1000000
  }

  /** `Time()`. */
  const ZERO := Time(0, 0, 0, 0)

  /** A Python number: an `int`, or a `float` taken as the exact real it denotes. */
  datatype Number = IntNum(i: int) | FloatNum(x: real)

  /** The `ValueError` raised by `datetime.time` for an out-of-range field. */
  datatype TimeError = ValueError

  /** The total length of a time in microseconds. */
  function Micros(t: Time): int {
    ((t.hour * 60 + t.minute) * 60 + t.second) * 1000000 + t.microsecond
  }

  /** `round_minute(minute, second)`. */
  function RoundMinute(minute: int, second: int): int {
    if second < 30 then minute else minute + 1
  }

  /** `round_hour(hour, minute)`: the same rule one unit up. */
  function RoundHour(hour: int, minute: int): int {
    RoundMinute(hour, minute)
  }

  /** Rounding is to the nearest whole unit, halves going up. */
  lemma RoundMinuteNearest(minute: int, second: int)
    requires 0 <= second < 60
    ensures var r := RoundMinute(minute, second);
            60 * r - 30 <= 60 * minute + second < 60 * r + 30
  {
  }

  /** `int(x)` on a float: truncation toward zero. */
  function Trunc(x: real): (r: int)
    ensures x >= 0.0 ==> r == x.Floor
    ensures (if x >= 0.0 then x - 1.0 < r as real <= x else x <= r as real < x + 1.0)
  {
    if x >= 0.0 then x.Floor else -((-x).Floor)
  }

  /** `datetime.time(hour, minute, second, microsecond)`. */
  function Construct(hour: int, minute: int, second: int, microsecond: int): (r: Result<Time, TimeError>)
    ensures r.Ok? <==> Valid(Time(hour, minute, second, microsecond))
    ensures r.Ok? ==> r.value == Time(hour, minute, second, microsecond)
  {
    var t := Time(hour, minute, second, microsecond);
    if Valid(t) then Ok(t) else Err(ValueError)
  }

  /** `Time.from_seconds(number)`: `divmod` by 3600 and then by 60, the
      truncated remainder as seconds, and for a float the truncated
      fraction scaled to microseconds. */
  function FromSeconds(n: Number): Result<Time, TimeError> {
    match n
    case IntNum(i) =>
      var hours := i / 3600;
      var rest := i % 3600;
      Construct(hours, rest / 60, rest % 60, 0)
    case FloatNum(x) =>
      var hours := (x / 3600.0).Floor;
      var rest := x - 3600.0 * hours as real;
      var minutes := (rest / 60.0).Floor;
      var seconds := rest - 60.0 * minutes as real;
      Construct(hours, minutes, Trunc(seconds), Trunc((x - Trunc(x) as real) * 1000000.0))
  }

  /** An integer number of seconds within a day decomposes exactly, with no
      microseconds; any other integer is rejected. */
  lemma FromSecondsInt(n: int)
    ensures FromSeconds(IntNum(n)).Ok? <==> 0 <= n < 86400
    ensures FromSeconds(IntNum(n)).Ok? ==>
              var t := FromSeconds(IntNum(n)).value;
              Valid(t) && 3600 * t.hour + 60 * t.minute + t.second == n && t.microsecond == 0
  {
  }

  /** `(k + r).Floor == k + r.Floor` for an integer `k`. */
  lemma FloorShift(k: int, r: real)
    ensures (k as real + r).Floor == k + r.Floor
  {
  }

  /** A float number of seconds is accepted exactly when it lies within a
      day; its whole seconds decompose exactly and the microseconds are its
      truncated fraction. */
  lemma FromSecondsFloat(x: real)
    ensures FromSeconds(FloatNum(x)).Ok? <==> 0.0 <= x < 86400.0
    ensures FromSeconds(FloatNum(x)).Ok? ==>
              var t := FromSeconds(FloatNum(x)).value;
              Valid(t) && 3600 * t.hour + 60 * t.minute + t.second == x.Floor
              && t.microsecond == ((x - x.Floor as real) * 1000000.0).Floor
  {
    var hours := (x / 3600.0).Floor;
    var rest := x - 3600.0 * hours as real;
    var minutes := (rest / 60.0).Floor;
    var seconds := rest - 60.0 * minutes as real;
    assert 0.0 <= rest < 3600.0;
    assert 0 <= minutes < 60;
    assert 0.0 <= seconds < 60.0;
    FloorShift(3600 * hours + 60 * minutes, seconds);
    assert (3600 * hours + 60 * minutes) as real + seconds == x;
    if x < 0.0 {
      assert hours < 0;
    } else if x >= 86400.0 {
      assert hours >= 24;
    } else {
      assert 0 <= hours < 24;
      var frac := (x - Trunc(x) as real) * 1000000.0;
      assert 0.0 <= frac < 1000000.0;
    }
  }

  /** `a + b`: the summed fields, microseconds divided by 10**6, handed to
      `from_seconds` as a float. */
  function Add(a: Time, b: Time): Result<Time, TimeError> {
    var whole := (a.hour + b.hour) * 3600 + (a.minute + b.minute) * 60 + (a.second + b.second);
    FromSeconds(FloatNum(whole as real + (a.microsecond + b.microsecond) as real / 1000000.0))
  }

  /** On valid times addition is exact: it succeeds iff the sum is shorter
      than a day, and the result's length is the sum of the lengths. */
  lemma AddExact(a: Time, b: Time)
    requires Valid(a) && Valid(b)
    ensures Add(a, b).Ok? <==> Micros(a) + Micros(b) < 86400 * 1000000
    ensures Add(a, b).Ok? ==> Valid(Add(a, b).value) && Micros(Add(a, b).value) == Micros(a) + Micros(b)
  {
    var whole := (a.hour + b.hour) * 3600 + (a.minute + b.minute) * 60 + (a.second + b.second);
    var us := a.microsecond + b.microsecond;
    var x := whole as real + us as real / 1000000.0;
    var q := us / 1000000;
    var m := us % 1000000;
    assert us as real / 1000000.0 == q as real + m as real / 1000000.0;
    FloorShift(whole + q, m as real / 1000000.0);
    assert (m as real / 1000000.0).Floor == 0;
    assert x.Floor == whole + q;
    assert (x - x.Floor as real) * 1000000.0 == m as real;
    FromSecondsFloat(x);
    assert Micros(a) + Micros(b) == (whole + q) * 1000000 + m;
  }

  /** The only format `format_` knows. */
  datatype TimeFormat = BLOG

  const MILLENNIA := "\U{e2}\U{2c6} Millennia"

  /** `"<n> <singular>"` or `"<n> <plural>"`, singular iff `n == 1`. */
  function Quantity(n: int, singular: string, plural: string): string {
    IntToString(n) + " " + (if n == 1 then singular else plural)
  }

  /** `Time.format_(BLOG)`: seconds when under a minute, rounded minutes
      when under an hour, rounded hours and minutes otherwise. */
  function Format(t: Time, f: TimeFormat): (r: Option<string>)
    ensures r.Some? && r.value != []
  {
    match f
    case BLOG =>
      if t.minute == 0 && t.hour == 0 then Some(Quantity(t.second, "Second", "Seconds"))
      else if t.hour == 0 && t.minute > 0 then
        var minute := RoundMinute(t.minute, t.second);
        Some(Quantity(minute, "Minute", "Minutes"))
      else if t.hour > 0 then
        var hour := RoundHour(t.hour, t.minute);
        var minute := RoundMinute(t.minute, t.second);
        Some(Quantity(hour, "Hour", "Hours") + " " + Quantity(minute, "Minute", "Minutes"))
      else Some(MILLENNIA)
  }

  /** `str(t)`: `format_() or ""`. */
  function Str(t: Time): (r: string)
    ensures r == Format(t, BLOG).value && r != []
  {
    var f := Format(t, BLOG);
    if f.Some? && f.value != [] then f.value else ""
  }

  /** Under a minute the seconds are printed unrounded. */
  lemma FormatSeconds(t: Time)
    requires t.hour == 0 && t.minute == 0
    ensures Format(t, BLOG) == Some(IntToString(t.second) + (if t.second == 1 then " Second" else " Seconds"))
  {
    var n := IntToString(t.second);
    assert n + " " + "Second" == n + " Second";
    assert n + " " + "Seconds" == n + " Seconds";
  }

  /** Under an hour the minutes are rounded on the seconds and printed
      alone; for a valid time that is one to sixty minutes, singular
      exactly for one minute and under half a minute more. */
  lemma FormatMinutes(t: Time)
    requires t.hour == 0 && t.minute > 0
    ensures var m := RoundMinute(t.minute, t.second);
            Format(t, BLOG) == Some(IntToString(m) + (if m == 1 then " Minute" else " Minutes"))
    ensures Valid(t) ==> 1 <= RoundMinute(t.minute, t.second) <= 60
    ensures Valid(t) ==> (RoundMinute(t.minute, t.second) == 1 <==> t.minute == 1 && t.second < 30)
  {
    var n := IntToString(RoundMinute(t.minute, t.second));
    assert n + " " + "Minute" == n + " Minute";
    assert n + " " + "Minutes" == n + " Minutes";
  }

  /** Minutes are rounded with no carry into hours: 59 minutes 45 seconds
      prints as sixty minutes. */
  lemma FormatNoCarry()
    ensures Format(Time(0, 59, 45, 0), BLOG) == Some("60 Minutes")
  {
    assert RoundMinute(59, 45) == 60;
    assert IntToString(60) == "60" by {
      assert NatToString(6) == "6";
      assert DigitChar(0) == '0';
      assert NatToString(60) == NatToString(6) + [DigitChar(0)];
    }
    assert "60" + " " + "Minutes" == "60 Minutes";
  }

  /** Past an hour the hour is rounded on the raw minute and the minute on
      the second, independently. */
  lemma FormatHours(t: Time)
    requires t.hour > 0
    ensures Format(t, BLOG) == Some(Quantity(RoundHour(t.hour, t.minute), "Hour", "Hours") + " "
                                  + Quantity(RoundMinute(t.minute, t.second), "Minute", "Minutes"))
  {
  }

  /** The fallback is reached exactly for a negative hour, or a zero hour
      with a negative minute: never for a valid time. */
  lemma MillenniaOnlyOutOfRange(t: Time)
    ensures Format(t, BLOG) == Some(MILLENNIA) <==> t.hour < 0 || (t.hour == 0 && t.minute < 0)
  {
    var r := Format(t, BLOG).value;
    if !(t.hour < 0 || (t.hour == 0 && t.minute < 0)) {
      assert r[0] != MILLENNIA[0] by {
        if t.minute == 0 && t.hour == 0 {
          assert r[0] == IntToString(t.second)[0];
        } else if t.hour == 0 {
          assert r[0] == IntToString(RoundMinute(t.minute, t.second))[0];
        } else {
          assert r[0] == IntToString(RoundHour(t.hour, t.minute))[0];
        }
      }
    }
  }
}
