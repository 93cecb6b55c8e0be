# TimeIntervalPicker: a verified model of the value/row arithmetic

`TimeIntervalPicker` is a UIKit control for choosing a duration. It has two wheels: hours (24 rows) and minutes. The minute wheel has 60 000 rows that repeat 0..59, so it seems to loop without end. The control's value (`timeInterval`) is in seconds. The getter works it out from the two selected rows. The setter picks the rows for a given number of seconds. A user turning a wheel raises one "value changed" event.

This project models that arithmetic and the selection state in Dafny:

- `rows.dfy`, module `Rows`:
  - the constants;
  - the getter formula (`Reading`);
  - the rows the setter picks as written (`SetterRows`) and as evidently intended (`IntendedRows`);
  - lemmas relating them.
- `datasource.dfy`, module `DataSource`:
  - the answers to the wheel widget's data-source questions: the number of components, rows per component and row titles;
  - the decimal text of a number, with a parse-back lemma.
- `picker.dfy`, module `TimeIntervalPicker`:
  - class `Picker`, whose fields are the two selected rows and a count of the value-changed events it has sent;
  - its getter, constructor, both setters and the user-selection callback;
  - a client method `PickerScenarios` that uses only the contracts. It shows that a fresh picker reads 0 and that setting 7380 reads back 7200. It shows that the corrected setter turns 7384 into 7380 and keeps 86340. It also shows that a setter sends no event and one user selection sends exactly one.

Seconds are `nat`. A `Double` holds every whole number below 2^53 exactly. For such values, the source's `Double` operations `/` and `%` followed by `Int(...)` agree with Dafny's `/` and `%`.

The setter stores `value % secondsInMinute` in a local called `minutes` and adds it to the middle minute row (lines 66 and 69). The getter reads that row modulo 60 as minutes (line 61). The constant is 3600, so the setter actually adds seconds within the hour. The model keeps this behaviour as written and adds a corrected setter that uses `value % 3600 / 60`. The difference is recorded under "## Findings".

## Model

| member | source | states |
|---|---|---|
| `Rows.Reading` | TimeIntervalPicker/TimeIntervalPicker/TimeIntervalPicker.swift:58-63 | the getter's value is a whole number of minutes, its hour (`r / 3600`) is the hour row, and its minute within the hour is the minute row modulo 60 |
| `Rows.ReadingIgnoresMinuteCopy` | TimeIntervalPicker/TimeIntervalPicker/TimeIntervalPicker.swift:61 | with the same hour row, two selections read the same exactly when their minute rows agree modulo 60 |
| `Rows.ReadingOfDisplayable` | TimeIntervalPicker/TimeIntervalPicker/TimeIntervalPicker.swift:58-63 | a selection inside the 24 hour rows and 60 000 minute rows reads at most 23 h 59 min |
| `Rows.SetterRows` | TimeIntervalPicker/TimeIntervalPicker/TimeIntervalPicker.swift:64-70 | the setter as written: the hour row is the whole hours of `v`, and the minute row is between 30000 and 33599, inside the 60 000 minute rows, for every `v` |
| `Rows.SetterHourRowInRange` | TimeIntervalPicker/TimeIntervalPicker/TimeIntervalPicker.swift:65-68 | the hour row the setter picks is one of the 24 hour rows exactly when `v` is under one day; it is not clamped |
| `Rows.ReadAfterSet` | TimeIntervalPicker/TimeIntervalPicker/TimeIntervalPicker.swift:58-70 | getter after setter (as written) gives `(v / 3600) * 3600 + (v % 60) * 60` |
| `Rows.SetterRoundTripIffWholeHour` | TimeIntervalPicker/TimeIntervalPicker/TimeIntervalPicker.swift:58-70 | getter after setter (as written) returns `v` if and only if `v` is a whole number of hours |
| `Rows.SetterLosesMinutes` | TimeIntervalPicker/TimeIntervalPicker/TimeIntervalPicker.swift:66-69 | setting 7380 (2 h 3 min) reads back 7200, and setting 86340 (23 h 59 min) reads back 82800 |
| `Rows.IntendedRows` | TimeIntervalPicker/TimeIntervalPicker/TimeIntervalPicker.swift:64-70 | the corrected setter keeps the same hour row and picks a minute row within 59 rows above the middle row |
| `Rows.IntendedReadAfterSet` | TimeIntervalPicker/TimeIntervalPicker/TimeIntervalPicker.swift:58-70 | getter after the corrected setter gives `v` truncated to whole minutes |
| `Rows.IntendedRoundTrip` | TimeIntervalPicker/TimeIntervalPicker/TimeIntervalPicker.swift:58-70 | getter after the corrected setter returns `v` if and only if `v` is a whole number of minutes |
| `Rows.IntendedRoundTripOfDay` | TimeIntervalPicker/TimeIntervalPicker/TimeIntervalPicker.swift:58-70 | every `h` hours and `m` minutes with `h < 24` and `m < 60` survives the corrected round trip, on rows the wheels show |
| `Rows.IntendedRowsOfReading` | TimeIntervalPicker/TimeIntervalPicker/TimeIntervalPicker.swift:58-70 | the other direction: setting a selection's reading (corrected setter) selects the same hour row and the same minute modulo 60 |
| `DataSource.RawValue` | TimeIntervalPicker/TimeIntervalPicker/TimeIntervalPicker.swift:91-96 | each of the two components has a raw index below the component count 2 |
| `DataSource.ComponentOf` | TimeIntervalPicker/TimeIntervalPicker/TimeIntervalPicker.swift:228 | an index names a component exactly when it is 0 or 1, and then that component's raw index is the index; any other index is the forced unwrap's trap |
| `DataSource.NumberOfRows` | TimeIntervalPicker/TimeIntervalPicker/TimeIntervalPicker.swift:221-234 | only indices 0 and 1 are components; component 0 has 24 rows and component 1 has 60 000 rows, a whole number of 60-minute copies |
| `DataSource.Description` | TimeIntervalPicker/TimeIntervalPicker/TimeIntervalPicker.swift:259 | a number's text is non-empty and made only of decimal digits |
| `DataSource.DescriptionRoundTrip` | TimeIntervalPicker/TimeIntervalPicker/TimeIntervalPicker.swift:259 | a number's text reads back as that number and has no leading zero |
| `DataSource.DescriptionLength` | TimeIntervalPicker/TimeIntervalPicker/TimeIntervalPicker.swift:261 | a number's text has one digit exactly when the number is below 10, and at most two below 100 |
| `DataSource.RowValue` | TimeIntervalPicker/TimeIntervalPicker/TimeIntervalPicker.swift:255-262 | an hour row displays its own number; a minute row displays a number in 0..59 congruent to the row modulo 60; other components trap |
| `DataSource.TitleForRow` | TimeIntervalPicker/TimeIntervalPicker/TimeIntervalPicker.swift:255-262 | a row's title is the canonical decimal text of the number the row displays: non-empty, only digits, no leading zero, and it parses back to that number; minute titles have one or two digits |
| `DataSource.MinuteTitleExamples` | TimeIntervalPicker/TimeIntervalPicker/TimeIntervalPicker.swift:260-261 | minute rows 1500 and 1521 are titled "0" and "21" |
| `DataSource.MinuteTitleRepeats` | TimeIntervalPicker/TimeIntervalPicker/TimeIntervalPicker.swift:232 | rows 60 apart on the minute wheel carry the same title |
| `TimeIntervalPicker.Picker.TimeInterval` | TimeIntervalPicker/TimeIntervalPicker/TimeIntervalPicker.swift:58-63 | the getter over the picker's fields: a whole number of minutes with the hour row as hours and the minute row modulo 60 as minutes, under one day while the rows are on the wheels |
| `TimeIntervalPicker.Picker.constructor` | TimeIntervalPicker/TimeIntervalPicker/TimeIntervalPicker.swift:109-127 | both initializers select hour row 0 (the wheel's default) and the middle minute row 30000, have sent no event, and read 0 |
| `TimeIntervalPicker.Picker.SetTimeInterval` | TimeIntervalPicker/TimeIntervalPicker/TimeIntervalPicker.swift:64-70 | the setter as written selects `SetterRows(v)` and changes nothing else. It sends no event, keeps the rows on the wheels exactly when `v` is under a day, and reads back `v` exactly for whole hours |
| `TimeIntervalPicker.Picker.SetTimeIntervalCorrected` | TimeIntervalPicker/TimeIntervalPicker/TimeIntervalPicker.swift:64-70 | the corrected setter selects `IntendedRows(v)`, sends no event and reads back `v` truncated to whole minutes |
| `TimeIntervalPicker.Picker.DidSelectRow` | TimeIntervalPicker/TimeIntervalPicker/TimeIntervalPicker.swift:238-241 | a user selection moves only the chosen wheel, keeps the rows on the wheels and sends exactly one value-changed event |

## Findings

| source | as written | input that shows it | evidently intended | confidence | as-written member | corrected member |
|---|---|---|---|---|---|---|
| TimeIntervalPicker/TimeIntervalPicker/TimeIntervalPicker.swift:66 | the setter's `minutes` is `value % secondsInMinute`, and that constant is 3600 (line 25). So it is the seconds within the hour, and it is added to the middle minute row. | 7380 (2 h 3 min) reads back as 7200; 86340 (23 h 59 min) reads back as 82800 | `minutes` is the whole minutes within the hour, `value % 3600 / 60` | high; not executed | `Rows.SetterLosesMinutes` (with `Rows.SetterRoundTripIffWholeHour`, `TimeIntervalPicker.Picker.SetTimeInterval`) | `Rows.IntendedRoundTrip` (with `Rows.IntendedRows`, `TimeIntervalPicker.Picker.SetTimeIntervalCorrected`) |

The class keeps both setters. `SetTimeInterval` is the source's behaviour. `SetTimeIntervalCorrected` stores whole minutes, the unit in which the getter reads the minute row.

## Left out

- Layout and geometry: the Auto Layout constraints, the baseline and x-offset arithmetic in `layoutSubviews`, component widths and label sizes. These are floating-point presentation values that depend on font metrics.
- `DigitsLabel`, `viewForRow` and the floating "hours"/"min" labels. They build and style views and compute nothing.
- The wheel widget's own machinery (`selectRow`, `selectedRowInComponent`) and the control's event dispatch (`sendActionsForControlEvents`). These are represented by the two row fields and the event counter.
- The `assert(pickerView == self.pickerView)` identity checks. The model has one picker, so the check always holds.
- The empty `init()`. It builds no wheel.
- The `Int(...)` conversion of line 65 traps when the hour count exceeds `Int.max`, and values of 2^53 seconds or more are not exact in a `Double`. The model's seconds are unbounded, so it has neither the trap nor the rounding.
- Negative and fractional durations. The source's `Double` truncation and `fmod` sign rules for them are not modelled; seconds are `nat`.
- `TimeIntervalPicker.Picker.SetTimeInterval`: for values of a day or more, it records the requested hour row (24 or more). What the wheel widget then does with a row it does not have is not modelled.
- `TimeIntervalPicker.Picker.DidSelectRow`: in the source, the wheel widget moves the row and the delegate only sends the event. The model does both in one method. It requires the row to exist on its wheel, because the widget only reports rows it shows.
