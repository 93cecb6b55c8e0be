/**
 The picker control itself. Its only state is the pair of rows the two wheels
 have selected (kept by the wheel widget in the source) and, standing in for
 the control's event machinery, a count of the "value changed" events it has
 raised.
 */
module TimeIntervalPicker {
  import opened Rows
  import opened DataSource

  class Picker {
    var hourRow: nat
    var minuteRow: nat
    /** How many "value changed" events the control has sent. */
    var valueChangedEvents: nat

    function Selected(): Selection
      reads this
    {
      Selection(hourRow, minuteRow)
    }

    /** Both selected rows lie on the wheels the data source describes. */
    predicate Valid()
      reads this
    {
      Displayable(Selected())
    }

    /** The `timeInterval` getter: seconds shown by the current selection, a
        whole number of minutes whose hour is the hour row and whose minute is
        the minute row's position within its copy of 0..59. */
    function TimeInterval(): (r: nat)
      reads this
      ensures r % SecondsPerMinute == 0
      ensures r / SecondsPerHour == hourRow
      ensures r % SecondsPerHour / SecondsPerMinute == minuteRow % MinutesPerHour
      ensures Valid() ==> r < SecondsPerDay
    {
      Reading(Selected())
    }

    /** Construction from a frame or from an archive: the hour wheel starts at
        its first row and the minute wheel at its middle row, so the picker
        reads 0. */
    constructor ()
      ensures hourRow == 0 && minuteRow == MiddleMinuteRow
      ensures valueChangedEvents == 0
      ensures Valid() && TimeInterval() == 0
    {
      hourRow := 0;
      minuteRow := MiddleMinuteRow;
      valueChangedEvents := 0;
    }

    /** The `timeInterval` setter as the source writes it. It selects hour row
        `v / SecondsPerHour` and minute row `MiddleMinuteRow + v % SecondsPerHour`, raises no event, and reads
        back `v` only for whole hours. */
    method SetTimeInterval(v: nat)
      modifies this`hourRow, this`minuteRow
      ensures Selected() == SetterRows(v)
      ensures hourRow == v / SecondsPerHour
      ensures minuteRow == MiddleMinuteRow + v % SecondsPerHour
      ensures valueChangedEvents == old(valueChangedEvents)
      ensures Valid() <==> v < SecondsPerDay
      ensures TimeInterval() == v / SecondsPerHour * SecondsPerHour + v % SecondsPerMinute * SecondsPerMinute
      ensures TimeInterval() == v <==> v % SecondsPerHour == 0
    {
      var hours := v / SecondsPerHour;
      var minutes := v % SecondsPerHour;
      hourRow := hours;
      minuteRow := MinuteRowsCount / 2 + minutes;
      SetterHourRowInRange(v);
      ReadAfterSet(v);
      SetterRoundTripIffWholeHour(v);
    }

    /** The setter with its `minutes` taken as whole minutes within the hour,
        the unit in which the getter reads the minute row. It raises no event, and reads back
        `v` truncated to whole minutes. */
    method SetTimeIntervalCorrected(v: nat)
      modifies this`hourRow, this`minuteRow
      ensures Selected() == IntendedRows(v)
      ensures valueChangedEvents == old(valueChangedEvents)
      ensures Valid() <==> v < SecondsPerDay
      ensures TimeInterval() == v - v % SecondsPerMinute
      ensures TimeInterval() == v <==> v % SecondsPerMinute == 0
    {
      var hours := v / SecondsPerHour;
      var minutes := v % SecondsPerHour / SecondsPerMinute;
      hourRow := hours;
      minuteRow := MinuteRowsCount / 2 + minutes;
      IntendedRoundTrip(v);
    }

    /** The user turns wheel `component` to `row`: the wheel selects it and the
        picker raises exactly one "value changed" event. The other wheel keeps
        its row. */
    method DidSelectRow(row: nat, component: Component)
      requires NumberOfRows(RawValue(component)).Some?
      requires row < NumberOfRows(RawValue(component)).value
      modifies this`hourRow, this`minuteRow, this`valueChangedEvents
      ensures component == Hour ==> hourRow == row && minuteRow == old(minuteRow)
      ensures component == Minute ==> minuteRow == row && hourRow == old(hourRow)
      ensures valueChangedEvents == old(valueChangedEvents) + 1
      ensures old(Valid()) ==> Valid()
    {
      match component {
        case Hour => hourRow := row;
        case Minute => minuteRow := row;
      }
      valueChangedEvents := valueChangedEvents + 1;
    }
  }

  /** A client of the picker, using only the contracts: a fresh picker reads 0;
      setting 7380 reads back 7200; the corrected setter turns 7384 into 7380 and
      keeps 86340 (hour row 23, minute 59); setters send no event, and one user
      selection sends exactly one. */
  method PickerScenarios()
  {
    var p := new Picker();
    assert p.TimeInterval() == 0;

    p.SetTimeInterval(7380);
    assert p.TimeInterval() == 7200;       // 2 h 3 min reads back as 2 h
    p.SetTimeIntervalCorrected(7384);
    assert p.TimeInterval() == 7380;       // 2 h 3 min 4 s reads back as 2 h 3 min
    p.SetTimeIntervalCorrected(86340);
    assert p.hourRow == 23 && p.minuteRow % MinutesPerHour == 59 && p.TimeInterval() == 86340;
    assert p.valueChangedEvents == 0;      // setting raises no event

    p.DidSelectRow(5, Hour);
    assert p.valueChangedEvents == 1;
    assert p.TimeInterval() == 5 * SecondsPerHour + 59 * SecondsPerMinute;
  }
}
