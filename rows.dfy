/**
 Value/row arithmetic of the time-interval picker.

 The picker shows two wheels: an hour wheel and a minute wheel. Its value is a
 duration in whole seconds (a `nat`). For whole numbers of seconds below 2^53,
 which a `Double` holds exactly, the source's floating-point `/`, `%` and
 truncating conversion agree with Dafny's `/` and `%`. The minute wheel repeats the minutes 0..59 a
 thousand times so that it appears to loop without end; only `row % 60` of the
 selected minute row matters.
 */
module Rows {

  /** The source's constant is called `secondsInMinute`, but its value is the
      number of seconds in an hour. */
  const SecondsPerHour: nat := 3600
  const SecondsPerMinute: nat := 60
  const MinutesPerHour: nat := 60
  const SecondsPerDay: nat := HourRowsCount * SecondsPerHour

  const HourRowsCount: nat := 24
  /** Sixty minutes repeated a thousand times: the "endless" minute wheel. */
  const MinuteRowsCount: nat := MinutesPerHour * 1000
  /** The row selected on construction, so the wheel can spin both ways. */
  const MiddleMinuteRow: nat := MinuteRowsCount / 2

  /** A pair of selected rows: one on the hour wheel, one on the minute wheel. */
  datatype Selection = Selection(hourRow: nat, minuteRow: nat)

  /** The rows lie inside the wheels the picker actually shows. */
  predicate Displayable(s: Selection)
  {
    s.hourRow < HourRowsCount && s.minuteRow < MinuteRowsCount
  }

  /** Seconds shown by a selection (the `timeInterval` getter). */
  function Reading(s: Selection): (r: nat)
    ensures r % SecondsPerMinute == 0
    ensures r / SecondsPerHour == s.hourRow
    ensures r % SecondsPerHour / SecondsPerMinute == s.minuteRow % MinutesPerHour
  {
    var m := s.minuteRow % MinutesPerHour;
    MinuteOfHour(s.hourRow, m);
    s.hourRow * SecondsPerHour + m * SecondsPerMinute
  }

  /** `h` hours and `m < 60` minutes in seconds split back into `h` and `m`. */
  lemma MinuteOfHour(h: nat, m: nat)
    requires m < MinutesPerHour
    ensures (h * SecondsPerHour + m * SecondsPerMinute) % SecondsPerMinute == 0
    ensures (h * SecondsPerHour + m * SecondsPerMinute) / SecondsPerHour == h
    ensures (h * SecondsPerHour + m * SecondsPerMinute) % SecondsPerHour / SecondsPerMinute == m
  {
    var x := h * SecondsPerHour + m * SecondsPerMinute;
    assert x == (h * MinutesPerHour + m) * SecondsPerMinute;
    assert m * SecondsPerMinute < SecondsPerHour;
  }

  /** The reading depends on the minute row only through `minuteRow % 60`,
      so every repeated copy of a minute reads the same. */
  lemma ReadingIgnoresMinuteCopy(s: Selection, t: Selection)
    requires s.hourRow == t.hourRow
    ensures Reading(s) == Reading(t) <==> s.minuteRow % MinutesPerHour == t.minuteRow % MinutesPerHour
  {
  }

  /** A displayable selection reads at most 23 h 59 min. */
  lemma ReadingOfDisplayable(s: Selection)
    requires Displayable(s)
    ensures Reading(s) <= SecondsPerDay - SecondsPerMinute
  {
  }

  // ---------------------------------------------------------------------
  // The setter as written

  /** Rows selected by the `timeInterval` setter as the source writes it: the
      hour row is `v / SecondsPerHour`, and the "minutes" it adds to the middle minute
      row are `v % SecondsPerHour`, the seconds within the hour. */
  function SetterRows(v: nat): (s: Selection)
    ensures s.hourRow * SecondsPerHour <= v < (s.hourRow + 1) * SecondsPerHour
    ensures MiddleMinuteRow <= s.minuteRow < MiddleMinuteRow + SecondsPerHour
    ensures s.minuteRow < MinuteRowsCount
  {
    Selection(v / SecondsPerHour, MiddleMinuteRow + v % SecondsPerHour)
  }

  /** The hour row stays inside the 24 shown rows exactly for values under a day;
      from a day on it is not clamped. */
  lemma SetterHourRowInRange(v: nat)
    ensures Displayable(SetterRows(v)) <==> v < SecondsPerDay
  {
  }

  /** What the getter returns right after the setter, as written. */
  lemma ReadAfterSet(v: nat)
    ensures Reading(SetterRows(v)) == v / SecondsPerHour * SecondsPerHour + v % SecondsPerMinute * SecondsPerMinute
  {
    var s := SetterRows(v);
    InHourRemainder(v);
    assert s.minuteRow % MinutesPerHour == v % SecondsPerHour % SecondsPerMinute by {
      assert s.minuteRow == MiddleMinuteRow + v % SecondsPerHour;
      assert MiddleMinuteRow == 500 * MinutesPerHour;
    }
  }

  /** Taking the seconds within the hour keeps the seconds within the minute. */
  lemma InHourRemainder(v: nat)
    ensures v % SecondsPerHour % SecondsPerMinute == v % SecondsPerMinute
  {
    var q := v / SecondsPerHour;
    var r := v % SecondsPerHour;
    assert v == q * SecondsPerHour + r;
    assert v == (q * MinutesPerHour + r / SecondsPerMinute) * SecondsPerMinute + r % SecondsPerMinute;
  }

  /** The setter followed by the getter gives back the value exactly when it is a
      whole number of hours. */
  lemma SetterRoundTripIffWholeHour(v: nat)
    ensures Reading(SetterRows(v)) == v <==> v % SecondsPerHour == 0
  {
    ReadAfterSet(v);
    InHourRemainder(v);
    var r := v % SecondsPerHour;
    assert v == v / SecondsPerHour * SecondsPerHour + r;
    if Reading(SetterRows(v)) == v {
      // r is both (r % 60) * 60 and (r / 60) * 60 + r % 60
      assert r == r % SecondsPerMinute * SecondsPerMinute;
      var a, b := r / SecondsPerMinute, r % SecondsPerMinute;
      assert r == a * SecondsPerMinute + b;
      assert a * SecondsPerMinute == b * (SecondsPerMinute - 1);
      assert b % SecondsPerMinute == 0 by {
        assert b == (a - b) * SecondsPerMinute;
      }
    }
  }

  /** Concrete values that do not survive the round trip: 2 h 3 min reads back
      as 2 h, and 23 h 59 min as 23 h. */
  lemma SetterLosesMinutes()
    ensures Reading(SetterRows(7380)) == 7200
    ensures Reading(SetterRows(86340)) == 82800
  {
    ReadAfterSet(7380);
    ReadAfterSet(86340);
  }

  // ---------------------------------------------------------------------
  // The setter as intended

  /** Rows the setter evidently means to select. The getter reads the minute
      row modulo 60 as minutes, and the setter's own local is called `minutes`;
      so the offset from the middle row is the whole minutes within the hour,
      `v % SecondsPerHour / SecondsPerMinute`. */
  function IntendedRows(v: nat): (s: Selection)
    ensures s.hourRow == v / SecondsPerHour
    ensures MiddleMinuteRow <= s.minuteRow < MiddleMinuteRow + MinutesPerHour
  {
    Selection(v / SecondsPerHour, MiddleMinuteRow + v % SecondsPerHour / SecondsPerMinute)
  }

  /** Reading after the intended setter truncates the value to whole minutes. */
  lemma IntendedReadAfterSet(v: nat)
    ensures Reading(IntendedRows(v)) == v - v % SecondsPerMinute
  {
    var s := IntendedRows(v);
    var q, r := v / SecondsPerHour, v % SecondsPerHour;
    assert s.minuteRow == MiddleMinuteRow + r / SecondsPerMinute;
    assert s.minuteRow % MinutesPerHour == r / SecondsPerMinute by {
      assert MiddleMinuteRow == 500 * MinutesPerHour;
    }
    InHourRemainder(v);
    assert v == q * SecondsPerHour + r / SecondsPerMinute * SecondsPerMinute + v % SecondsPerMinute;
  }

  /** The intended setter and the getter are inverses on whole minutes. */
  lemma IntendedRoundTrip(v: nat)
    ensures Reading(IntendedRows(v)) == v <==> v % SecondsPerMinute == 0
  {
    IntendedReadAfterSet(v);
  }

  /** Every `h` hours and `m` minutes shown by the wheels survives the intended
      round trip, and the hour row lands inside the hour wheel. */
  lemma IntendedRoundTripOfDay(h: nat, m: nat)
    requires h < HourRowsCount && m < MinutesPerHour
    ensures Reading(IntendedRows(h * SecondsPerHour + m * SecondsPerMinute)) == h * SecondsPerHour + m * SecondsPerMinute
    ensures Displayable(IntendedRows(h * SecondsPerHour + m * SecondsPerMinute))
  {
    MinuteOfHour(h, m);
    IntendedRoundTrip(h * SecondsPerHour + m * SecondsPerMinute);
  }

  /** The other direction: setting the value a selection reads selects the same
      hour row and a copy of the same minute. */
  lemma IntendedRowsOfReading(s: Selection)
    ensures IntendedRows(Reading(s)).hourRow == s.hourRow
    ensures IntendedRows(Reading(s)).minuteRow % MinutesPerHour == s.minuteRow % MinutesPerHour
    ensures Reading(IntendedRows(Reading(s))) == Reading(s)
  {
    var t := IntendedRows(Reading(s));
    assert t.minuteRow == MiddleMinuteRow + s.minuteRow % MinutesPerHour;
    assert MiddleMinuteRow == 500 * MinutesPerHour;
    IntendedRoundTrip(Reading(s));
  }
}
