/** The `ParseTimeLeft` object: an older copy of the `TimeHelper`
    conversions, kept with its own definitions and shown to agree with
    them on every input. */
module ParseTimeLeft {
  import opened KotlinInt
  import opened Decimal
  import TimeHelper

  /** `toMilliSeconds`, with `Int` arithmetic for the seconds sum. */
  function ToMilliSeconds(hour: Int32, minute: Int32, second: Int32 := 0): int {
    Wrap32(Wrap32(Wrap32(hour * 3600) + Wrap32(minute * 60)) + second) * 1000
  }

  /** `toHHMM`: hours `(ms / 1000) / 3600`, minutes `((ms / 1000) % 3600) / 60`. */
  function ToHHMM(milliSeconds: int): string {
    var hours := Quot(Quot(milliSeconds, 1000), 3600);
    var minutes := Quot(Rem(Quot(milliSeconds, 1000), 3600), 60);
    Pad2(hours) + ":" + Pad2(minutes)
  }

  /** `toHHMMSS`: adds seconds `((ms / 1000) % 3600) % 60`. */
  function ToHHMMSS(milliSeconds: int): string {
    var hours := Quot(Quot(milliSeconds, 1000), 3600);
    var minutes := Quot(Rem(Quot(milliSeconds, 1000), 3600), 60);
    var seconds := Rem(Rem(Quot(milliSeconds, 1000), 3600), 60);
    Pad2(hours) + ":" + Pad2(minutes) + ":" + Pad2(seconds)
  }

  /** Each conversion agrees with its `TimeHelper` counterpart. */
  lemma AgreesWithTimeHelper(hour: Int32, minute: Int32, second: Int32, milliSeconds: int)
    ensures ToMilliSeconds(hour, minute, second) == TimeHelper.ToMilliSeconds(hour, minute, second)
    ensures ToMilliSeconds(hour, minute) == TimeHelper.ToMilliSeconds(hour, minute)
    ensures ToHHMM(milliSeconds) == TimeHelper.ToHHMM(milliSeconds)
    ensures ToHHMMSS(milliSeconds) == TimeHelper.ToHHMMSS(milliSeconds)
  {
  }

  /** For a non-negative duration the minutes and seconds shown by
      `toHHMMSS` are two-digit fields between 00 and 59, and the text reads
      back as the whole seconds of the duration (below 100 hours). */
  lemma {:induction false} FieldsInRange(d: int)
    requires 0 <= d < 100 * TimeHelper.MillisPerHour
    ensures var r := ToHHMMSS(d);
      && |r| == 8
      && AllDigits(r[3..5]) && 0 <= ParseDecimal(r[3..5]) <= 59
      && AllDigits(r[6..]) && 0 <= ParseDecimal(r[6..]) <= 59
      && ParseDecimal(r[..2]) * 3600 + ParseDecimal(r[3..5]) * 60 + ParseDecimal(r[6..]) == d / 1000
  {
    AgreesWithTimeHelper(0, 0, 0, d);
    TimeHelper.ClockShape(d);
    TimeHelper.FieldBounds(d);
    var r := ToHHMMSS(d);
    assert r[3..5] == Pad2(TimeHelper.MinutesField(d));
    assert r[6..] == Pad2(TimeHelper.SecondsField(d));
  }
}
