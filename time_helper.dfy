/** The `TimeHelper` object: conversions between hours, minutes and seconds
    and milliseconds, the `HH:MM` and `HH:MM:SS` renderings, and the
    reconciliation formula for the running time of a task. */
module TimeHelper {
  import opened KotlinInt
  import opened Decimal

  const MillisPerSecond: int := 1000
  const MillisPerMinute: int := 60_000
  const MillisPerHour: int := 3_600_000

  /** `toMilliSeconds`: the sum `hour * 3600 + minute * 60 + second` is
      computed in `Int` (each product and sum wraps at 32 bits) and only then
      widened to `Long` and scaled to milliseconds. Wrapping every step is the
      same as wrapping the exact sum once. */
  function ToMilliSeconds(hour: Int32, minute: Int32, second: Int32 := 0): (ms: int)
    ensures ms == Wrap32(hour * 3600 + minute * 60 + second) * 1000
  {
    Wrap32Sum3(hour * 3600, minute * 60, second);
    Wrap32(Wrap32(Wrap32(hour * 3600) + Wrap32(minute * 60)) + second) * 1000
  }

  /** The whole seconds of a duration, as `milliSeconds / 1000` truncates. */
  function WholeSeconds(milliSeconds: int): int {
    Quot(milliSeconds, 1000)
  }

  /** The hours field, `(milliSeconds / 1000) / 3600`, a `Long`. */
  function HoursField(milliSeconds: int): int {
    Quot(WholeSeconds(milliSeconds), 3600)
  }

  /** The minutes field, `((milliSeconds / 1000) % 3600) / 60`. */
  function MinutesField(milliSeconds: int): (m: int)
    ensures -59 <= m <= 59
    ensures milliSeconds >= 0 ==> 0 <= m
  {
    Quot(Rem(WholeSeconds(milliSeconds), 3600), 60)
  }

  /** The seconds field, `((milliSeconds / 1000) % 3600) % 60`. */
  function SecondsField(milliSeconds: int): (s: int)
    ensures -59 <= s <= 59
    ensures milliSeconds >= 0 ==> 0 <= s
  {
    Rem(Rem(WholeSeconds(milliSeconds), 3600), 60)
  }

  /** `toHHMM`: `"%02d:%02d"` of the hours and minutes fields. For any
      non-negative duration, however many hours, the text is the whole hours,
      a colon, and the minutes past the hour in two digits. */
  function ToHHMM(milliSeconds: int): (s: string)
    ensures |s| >= 5
    ensures milliSeconds >= 0 ==>
      && s[|s| - 3] == ':'
      && AllDigits(s[..|s| - 3]) && ParseDecimal(s[..|s| - 3]) == milliSeconds / MillisPerHour
      && AllDigits(s[|s| - 2..]) && ParseDecimal(s[|s| - 2..]) == (milliSeconds / MillisPerMinute) % 60
  {
    FieldsOfNonNegative(milliSeconds);
    var h, m := Pad2(HoursField(milliSeconds)), Pad2(MinutesField(milliSeconds));
    ColonJoin(h, m);
    h + ":" + m
  }

  /** `toHHMMSS`: `"%02d:%02d:%02d"` of the hours, minutes and seconds fields.
      For any non-negative duration the text is the whole hours, then the
      minutes past the hour and the seconds past the minute in two digits
      each, separated by colons. */
  function ToHHMMSS(milliSeconds: int): (s: string)
    ensures |s| >= 8
    ensures milliSeconds >= 0 ==>
      && s[|s| - 6] == ':' && s[|s| - 3] == ':'
      && AllDigits(s[..|s| - 6]) && ParseDecimal(s[..|s| - 6]) == milliSeconds / MillisPerHour
      && AllDigits(s[|s| - 5..|s| - 3]) && ParseDecimal(s[|s| - 5..|s| - 3]) == (milliSeconds / MillisPerMinute) % 60
      && AllDigits(s[|s| - 2..]) && ParseDecimal(s[|s| - 2..]) == (milliSeconds / MillisPerSecond) % 60
  {
    FieldsOfNonNegative(milliSeconds);
    var h, m, sec := Pad2(HoursField(milliSeconds)), Pad2(MinutesField(milliSeconds)), Pad2(SecondsField(milliSeconds));
    ClockJoin(h, m, sec);
    h + ":" + m + ":" + sec
  }

  /** The parts of `"h:mm:ss"`, counted from its end. */
  lemma ClockJoin(h: string, m: string, sec: string)
    ensures var r := h + ":" + m + ":" + sec;
      |m| == 2 && |sec| == 2 ==>
        && |r| == |h| + 6
        && r[..|r| - 6] == h && r[|r| - 6] == ':'
        && r[|r| - 5..|r| - 3] == m && r[|r| - 3] == ':'
        && r[|r| - 2..] == sec
  {
    var hm := h + ":" + m;
    ColonJoin(h, m);
    ColonJoin(hm, sec);
    assert hm + ":" + sec == h + ":" + m + ":" + sec;
    if |m| == 2 && |sec| == 2 {
      var r := hm + ":" + sec;
      assert r[..|hm|] == hm;
      assert r[|r| - 5..|r| - 3] == hm[|h| + 1..] by {
        assert r[|r| - 5] == hm[|h| + 1] && r[|r| - 4] == hm[|h| + 2];
      }
      assert r[..|r| - 6] == hm[..|h|];
    }
  }

  /** The parts of two texts joined by a colon. */
  lemma ColonJoin(a: string, b: string)
    ensures |a + ":" + b| == |a| + 1 + |b|
    ensures (a + ":" + b)[..|a|] == a
    ensures (a + ":" + b)[|a|] == ':'
    ensures (a + ":" + b)[|a| + 1..] == b
  {
  }

  /** For a non-negative duration the three fields are its whole hours, the
      minutes past the hour and the seconds past the minute. */
  lemma FieldsOfNonNegative(d: int)
    ensures d >= 0 ==>
      && HoursField(d) == d / MillisPerHour
      && MinutesField(d) == (d / MillisPerMinute) % 60
      && SecondsField(d) == (d / MillisPerSecond) % 60
  {
    if d >= 0 {
      HoursOfNonNegative(d);
      MinutesOfNonNegative(d);
      SecondsOfNonNegative(d);
    }
  }

  /** `obtainActualTimeRunning`: the running time stored at the last resume
      plus the time that has passed since then. */
  function ObtainActualTimeRunning(now: int, timeRunning: int, lastTimeResumed: int): int {
    timeRunning + (now - lastTimeResumed)
  }

  /** `obtainHours`: the hours field narrowed to `Int` by `toInt()`. */
  function ObtainHours(milliSeconds: int): (h: Int32)
    ensures 0 <= milliSeconds < (IntMax + 1) * MillisPerHour ==> h == milliSeconds / MillisPerHour
  {
    HoursOfSmall(milliSeconds);
    Wrap32(HoursField(milliSeconds))
  }

  /** `obtainMinutes`: the minutes field narrowed to `Int` (it always fits). */
  function ObtainMinutes(milliSeconds: int): (m: Int32)
    ensures -59 <= m <= 59
    ensures milliSeconds >= 0 ==> 0 <= m && m == (milliSeconds / MillisPerMinute) % 60
  {
    Wrap32Small(MinutesField(milliSeconds));
    MinutesOfNonNegative(milliSeconds);
    Wrap32(MinutesField(milliSeconds))
  }

  lemma HoursOfSmall(d: int)
    ensures 0 <= d < (IntMax + 1) * MillisPerHour ==> Wrap32(HoursField(d)) == d / MillisPerHour
  {
    if 0 <= d < (IntMax + 1) * MillisPerHour {
      HoursOfNonNegative(d);
      Wrap32Small(HoursField(d));
    }
  }

  lemma HoursOfNonNegative(d: int)
    requires d >= 0
    ensures HoursField(d) == d / MillisPerHour
  {
    QuotRemNonNegative(d, 1000);
    QuotRemNonNegative(d / 1000, 3600);
    DivDiv(d, 1000, 3600);
  }

  lemma MinutesOfNonNegative(d: int)
    ensures d >= 0 ==> MinutesField(d) == (d / MillisPerMinute) % 60
  {
    if d >= 0 {
      MinutesOfNonNegativeStep(d);
    }
  }

  lemma MinutesOfNonNegativeStep(d: int)
    requires d >= 0
    ensures MinutesField(d) == (d / MillisPerMinute) % 60
  {
    var s := d / 1000;
    QuotRemNonNegative(d, 1000);
    QuotRemNonNegative(s, 3600);
    QuotRemNonNegative(s % 3600, 60);
    DivDiv(d, 1000, 60);
    // s % 3600 == 60 * ((s / 60) % 60) + s % 60, so its quotient by 60 is (s / 60) % 60
    var m := (s / 60) % 60;
    assert s == 60 * (s / 60) + s % 60;
    assert s / 60 == 60 * ((s / 60) / 60) + m;
    DivDiv(s, 60, 60);
    assert s == 3600 * (s / 3600) + (60 * m + s % 60);
    DivUnique(s, 3600, s / 3600, 60 * m + s % 60);
    DivUnique(s % 3600, 60, m, s % 60);
  }

  lemma SecondsOfNonNegative(d: int)
    requires d >= 0
    ensures SecondsField(d) == (d / MillisPerSecond) % 60
  {
    var s := d / 1000;
    QuotRemNonNegative(d, 1000);
    QuotRemNonNegative(s, 3600);
    QuotRemNonNegative(s % 3600, 60);
    assert s == 3600 * (s / 3600) + s % 3600;
    assert s % 3600 == 60 * ((s % 3600) / 60) + (s % 3600) % 60;
    assert s == 60 * (60 * (s / 3600) + (s % 3600) / 60) + (s % 3600) % 60;
    DivUnique(s, 60, 60 * (s / 3600) + (s % 3600) / 60, (s % 3600) % 60);
  }

  /** For a non-negative duration the three fields lie in their ranges, and
      the seconds field is the whole seconds modulo a minute. */
  lemma FieldBounds(d: int)
    requires d >= 0
    ensures 0 <= HoursField(d)
    ensures 0 <= ObtainMinutes(d) <= 59 && ObtainMinutes(d) == MinutesField(d)
    ensures 0 <= SecondsField(d) <= 59 && SecondsField(d) == (d / 1000) % 60
  {
    QuotRemNonNegative(d, 1000);
    QuotRemNonNegative(d / 1000, 3600);
    Wrap32Small(MinutesField(d));
    SecondsOfNonNegative(d);
  }

  /** The fields of a non-negative duration recompose its whole seconds. */
  lemma FieldsRecompose(d: int)
    requires d >= 0
    ensures HoursField(d) * 3600 + MinutesField(d) * 60 + SecondsField(d) == d / 1000
  {
    var s := d / 1000;
    QuotRemNonNegative(d, 1000);
    QuotRemNonNegative(s, 3600);
    QuotRemNonNegative(s % 3600, 60);
    assert s == 3600 * (s / 3600) + s % 3600;
    assert s % 3600 == 60 * ((s % 3600) / 60) + (s % 3600) % 60;
  }

  /** Without 32-bit overflow, `toMilliSeconds` is the plain conversion. */
  lemma ToMilliSecondsExact(hour: Int32, minute: Int32, second: Int32)
    requires IntMin <= hour * 3600 + minute * 60 + second <= IntMax
    ensures ToMilliSeconds(hour, minute, second) == (hour * 3600 + minute * 60 + second) * 1000
  {
    Wrap32Small(hour * 3600 + minute * 60 + second);
  }

  /** Hours and minutes survive a trip through milliseconds. */
  lemma {:induction false} HoursMinutesRoundTrip(hour: Int32, minute: Int32)
    requires 0 <= hour && 0 <= minute < 60
    requires hour * 3600 + minute * 60 <= IntMax
    ensures ObtainHours(ToMilliSeconds(hour, minute)) == hour
    ensures ObtainMinutes(ToMilliSeconds(hour, minute)) == minute
  {
    Wrap32Small(hour * 3600 + minute * 60);
    var d := ToMilliSeconds(hour, minute);
    assert d == MillisPerHour * hour + MillisPerMinute * minute;
    DivUnique(d, MillisPerHour, hour, MillisPerMinute * minute);
    assert d == MillisPerMinute * (60 * hour + minute);
    DivUnique(d, MillisPerMinute, 60 * hour + minute, 0);
    DivUnique(60 * hour + minute, 60, hour, minute);
  }

  /** Milliseconds survive a trip through hours and minutes, rounded down to
      a whole minute, as long as the minutes fit in an `Int`. */
  lemma {:induction false} MilliSecondsRoundTrip(d: int)
    requires 0 <= d && d / MillisPerMinute * 60 <= IntMax
    ensures ToMilliSeconds(ObtainHours(d), ObtainMinutes(d)) == d - d % MillisPerMinute
  {
    var mins := d / MillisPerMinute;
    DivDiv(d, MillisPerMinute, 60);
    assert ObtainHours(d) == mins / 60;
    assert ObtainMinutes(d) == mins % 60;
    assert (mins / 60) * 3600 + (mins % 60) * 60 == 60 * mins;
    ToMilliSecondsExact(ObtainHours(d), ObtainMinutes(d), 0);
  }

  /** The sub-second part of a duration is never shown: truncating it with
      Kotlin's `%` leaves both renderings unchanged, whatever the sign. */
  lemma SubSecondIgnored(d: int)
    ensures ToHHMMSS(d) == ToHHMMSS(d - Rem(d, 1000))
    ensures ToHHMM(d) == ToHHMM(d - Rem(d, 1000))
  {
    var q := Quot(d, 1000);
    assert d - Rem(d, 1000) == 1000 * q;
    QuotOfMultiple(q, 1000);
  }

  lemma QuotOfMultiple(q: int, n: int)
    requires n > 0
    ensures Quot(n * q, n) == q
  {
    if q >= 0 {
      DivUnique(n * q, n, q, 0);
    } else {
      DivUnique(n * -q, n, -q, 0);
    }
  }

  /** Below 100 hours `toHHMMSS` is exactly eight characters, "HH:MM:SS",
      whose fields read back as the whole seconds of the duration, and
      `toHHMM` is its first five characters. */
  lemma {:induction false} ClockShape(d: int)
    requires 0 <= d < 100 * MillisPerHour
    ensures var r := ToHHMMSS(d);
      && |r| == 8 && r[2] == ':' && r[5] == ':'
      && AllDigits(r[..2]) && AllDigits(r[3..5]) && AllDigits(r[6..])
      && ParseDecimal(r[..2]) * 3600 + ParseDecimal(r[3..5]) * 60 + ParseDecimal(r[6..]) == d / 1000
      && ToHHMM(d) == r[..5]
  {
    HoursOfNonNegative(d);
    FieldBounds(d);
    FieldsRecompose(d);
    var h, m, s := Pad2(HoursField(d)), Pad2(MinutesField(d)), Pad2(SecondsField(d));
    var r := ToHHMMSS(d);
    assert r == h + ":" + m + ":" + s;
    ClockJoin(h, m, s);
    assert r[..2] == h && r[3..5] == m && r[6..] == s;
    assert ToHHMM(d) == h + ":" + m;
  }

  /** Reconciling at the instant of the last resume adds nothing, and a
      clock that has not gone backwards never reduces the running time. */
  lemma ReconcileBounds(now: int, timeRunning: int, lastTimeResumed: int)
    ensures now == lastTimeResumed ==> ObtainActualTimeRunning(now, timeRunning, lastTimeResumed) == timeRunning
    ensures now >= lastTimeResumed ==> ObtainActualTimeRunning(now, timeRunning, lastTimeResumed) >= timeRunning
  {
  }

  /** Reconciling at `t1`, then again at `t2` from `t1`, is reconciling at
      `t2` directly: no elapsed time is lost or counted twice. */
  lemma ReconcileTelescopes(t1: int, t2: int, timeRunning: int, lastTimeResumed: int)
    ensures ObtainActualTimeRunning(t2, ObtainActualTimeRunning(t1, timeRunning, lastTimeResumed), t1)
         == ObtainActualTimeRunning(t2, timeRunning, lastTimeResumed)
  {
  }
}
