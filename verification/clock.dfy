/** Wall-clock times of day, at one-second resolution, and the "HH:MM" /
    "HH:MM:SS" strings that both the database and the browser exchange. */
module Clock {
  import opened Wrappers
  import opened Text

  const SecondsPerMinute := 60
  const SecondsPerDay := 86400

  /** A time of day (PostgreSQL `time`, or the time part of a JavaScript Date). */
  type SecondOfDay = s: int | 0 <= s < 86400

  /** The hour and minute of `t` as "HH:MM", seconds dropped: what
      PostgreSQL's to_char(t, 'HH24:MI') and the first five characters of
      JavaScript's Date.prototype.toTimeString() produce. */
  function FormatHHMM(t: SecondOfDay): (r: string)
    ensures |r| == 5 && r[2] == ':'
    ensures AllDigits(r[..2]) && AllDigits(r[3..])
    ensures ParseClock(r) == Some(t / 60 * 60)
  {
    var minute := t / 60;
    var r := FixedDigits(minute / 60, 2) + ":" + FixedDigits(minute % 60, 2);
    assert r[..2] == FixedDigits(minute / 60, 2);
    assert r[3..] == FixedDigits(minute % 60, 2);
    assert r[3..5] == r[3..];
    assert r[0..2] == r[..2];
    FixedDigitsValue(minute / 60, 2);
    FixedDigitsValue(minute % 60, 2);
    MinuteParts(t);
    r
  }

  /** The hour and minute fields of `t` put back together give the start
      of its minute. */
  lemma MinuteParts(t: SecondOfDay)
    ensures t / 60 / 60 < 24 && t / 60 % 60 < 60
    ensures t / 60 / 60 * 3600 + t / 60 % 60 * 60 == t / 60 * 60
  {
    var minute := t / 60;
    assert minute == minute / 60 * 60 + minute % 60;
  }

  /** A two-digit field at `s[i..i+2]` whose value is below `bound`. */
  predicate FieldBelow(s: string, i: nat, bound: nat)
    requires i + 2 <= |s|
  {
    AllDigits(s[i..i + 2]) && DigitsValue(s[i..i + 2]) < bound
  }

  /** Reads "HH:MM" or "HH:MM:SS" on a 24-hour clock; anything else is
      not a time (an Invalid Date in the browser, a cast error in SQL). */
  function ParseClock(s: string): (r: Option<SecondOfDay>)
    ensures r.Some? <==>
      && (|s| == 5 || |s| == 8)
      && FieldBelow(s, 0, 24) && s[2] == ':' && FieldBelow(s, 3, 60)
      && (|s| == 8 ==> s[5] == ':' && FieldBelow(s, 6, 60))
    ensures r.Some? ==> r.value / 3600 == DigitsValue(s[..2])
    ensures r.Some? ==> r.value / 60 % 60 == DigitsValue(s[3..5])
    ensures r.Some? ==> r.value % 60 == if |s| == 8 then DigitsValue(s[6..8]) else 0
  {
    if && (|s| == 5 || |s| == 8)
       && FieldBelow(s, 0, 24) && s[2] == ':' && FieldBelow(s, 3, 60)
       && (|s| == 8 ==> s[5] == ':' && FieldBelow(s, 6, 60))
    then
      var h := DigitsValue(s[..2]);
      var m := DigitsValue(s[3..5]);
      var sec := if |s| == 8 then DigitsValue(s[6..8]) else 0;
      assert s[0..2] == s[..2];
      ClockParts(h, m, sec);
      Some(h * 3600 + m * 60 + sec)
    else
      None
  }

  /** Hours, minutes and seconds are recovered from the seconds of day. */
  lemma ClockParts(h: int, m: int, sec: int)
    requires 0 <= h < 24 && 0 <= m < 60 && 0 <= sec < 60
    ensures 0 <= h * 3600 + m * 60 + sec < SecondsPerDay
    ensures (h * 3600 + m * 60 + sec) / 3600 == h
    ensures (h * 3600 + m * 60 + sec) / 60 == h * 60 + m
    ensures (h * 3600 + m * 60 + sec) / 60 % 60 == m
    ensures (h * 3600 + m * 60 + sec) % 60 == sec
  {
  }

  /** Formatting a whole minute and parsing it back gives the minute. */
  lemma ParseFormat(t: SecondOfDay)
    requires t % 60 == 0
    ensures ParseClock(FormatHHMM(t)) == Some(t)
  {
    assert t == t / 60 * 60;
  }

  /** An "HH:MM" string survives parsing and re-formatting unchanged, so a
      slot that starts at a schedule's start time displays it verbatim. */
  lemma FormatParse(s: string)
    requires |s| == 5 && ParseClock(s).Some?
    ensures FormatHHMM(ParseClock(s).value) == s
  {
    var t := ParseClock(s).value;
    var minute := t / 60;
    assert s[0..2] == s[..2];
    DigitsValueFixed(s[..2]);
    DigitsValueFixed(s[3..5]);
    assert minute / 60 == DigitsValue(s[..2]);
    assert minute % 60 == DigitsValue(s[3..5]);
    assert s == s[..2] + ":" + s[3..5];
  }

  /** A local date-time: a day number (days since 1970-01-01) and a time of day. */
  datatype Instant = Instant(day: int, second: SecondOfDay)

  /** The instant `delta` seconds after `t` (before it when negative),
      carrying into neighbouring days as a timestamp does. */
  function AddSeconds(t: Instant, delta: int): (r: Instant)
    ensures r.day * SecondsPerDay + r.second == t.day * SecondsPerDay + t.second + delta
    ensures 0 <= t.second + delta < SecondsPerDay ==> r == Instant(t.day, t.second + delta)
  {
    var abs := t.day * SecondsPerDay + t.second + delta;
    Instant(abs / SecondsPerDay, abs % SecondsPerDay)
  }

  /** The time of day `delta` seconds after `t`, wrapping around midnight:
      all a locale time string shows of a shifted Date. */
  function ShiftTimeOfDay(t: SecondOfDay, delta: int): (r: SecondOfDay)
    ensures (r - t - delta) % SecondsPerDay == 0
    ensures 0 <= t + delta < SecondsPerDay ==> r == t + delta
  {
    (t + delta) % SecondsPerDay
  }

  /** Shifting back and then forward by the same amount returns to the
      starting time of day, whatever wrap-around happened in between. */
  lemma ShiftInverse(t: SecondOfDay, delta: int)
    ensures ShiftTimeOfDay(ShiftTimeOfDay(t, -delta), delta) == t
  {
    var back := ShiftTimeOfDay(t, -delta);
    var q := (t - delta) / SecondsPerDay;
    assert t - delta == q * SecondsPerDay + back;
    assert back + delta == t + (-q) * SecondsPerDay;
  }
}
