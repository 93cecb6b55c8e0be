/**
 The picker's answers to the wheel widget's data-source and delegate questions:
 how many wheels, how many rows each, and the title of each row.

 A wheel is identified by an integer index; the source converts it to its
 component enumeration with a forced unwrap, which traps on an index other
 than 0 or 1. Here that trap is `None`.
 */
module DataSource {
  import opened Rows

  datatype Option<T> = None | Some(value: T)

  /** The two wheels, with their raw indices 0 and 1. */
  datatype Component = Hour | Minute

  const ComponentsNumber: nat := 2

  function RawValue(c: Component): (i: nat)
    ensures i < ComponentsNumber
  {
    match c
    case Hour => 0
    case Minute => 1
  }

  /** The component with a given raw index, if there is one. */
  function ComponentOf(i: int): (c: Option<Component>)
    ensures c.Some? <==> 0 <= i < ComponentsNumber
    ensures c.Some? ==> RawValue(c.value) == i
  {
    if i == 0 then Some(Hour) else if i == 1 then Some(Minute) else None
  }

  /** Number of rows of wheel `i`: 24 hours, or the long repeating minute wheel. */
  function NumberOfRows(i: int): (n: Option<nat>)
    ensures n.Some? <==> 0 <= i < ComponentsNumber
    ensures i == RawValue(Hour) ==> n == Some(HourRowsCount)
    ensures i == RawValue(Minute) ==> n == Some(MinuteRowsCount) && MinuteRowsCount % MinutesPerHour == 0
  {
    match ComponentOf(i)
    case None => None
    case Some(Hour) => Some(HourRowsCount)
    case Some(Minute) => Some(MinuteRowsCount)
  }

  // ---------------------------------------------------------------------
  // Decimal text of a number

  function DigitChar(d: nat): (ch: char)
    requires d < 10
    ensures '0' <= ch <= '9' && ch as int - '0' as int == d
  {
    ('0' as int + d) as char
  }

  /** The decimal text of a number, most significant digit first, without
      leading zeros. */
  function Description(n: nat): (s: string)
    ensures 1 <= |s|
    ensures forall k :: 0 <= k < |s| ==> '0' <= s[k] <= '9'
  {
    if n < 10 then [DigitChar(n)] else Description(n / 10) + [DigitChar(n % 10)]
  }

  /** The number a string of decimal digits denotes. */
  function DecimalValue(s: string): nat
  {
    if s == [] then 0
    else
      var d := s[|s| - 1] as int - '0' as int;
      DecimalValue(s[..|s| - 1]) * 10 + (if 0 <= d < 10 then d else 0)
  }

  /** The text of a number reads back as that number, and it has no leading zero. */
  lemma {:induction false} DescriptionRoundTrip(n: nat)
    ensures DecimalValue(Description(n)) == n
    ensures |Description(n)| > 1 ==> Description(n)[0] != '0'
  {
    if n >= 10 {
      DescriptionRoundTrip(n / 10);
      var s := Description(n);
      assert s[..|s| - 1] == Description(n / 10);
    }
  }

  /** Numbers under a hundred take one or two digits. */
  lemma {:induction false} DescriptionLength(n: nat)
    ensures |Description(n)| == 1 <==> n < 10
    ensures n < 100 ==> |Description(n)| <= 2
  {
    if n >= 10 {
      DescriptionLength(n / 10);
    }
  }

  // ---------------------------------------------------------------------
  // Row titles

  /** Number a row of wheel `i` displays: the row itself on the hour wheel,
      the row modulo 60 on the minute wheel. */
  function RowValue(row: nat, i: int): (v: Option<nat>)
    ensures v.Some? <==> 0 <= i < ComponentsNumber
    ensures i == RawValue(Hour) ==> v == Some(row)
    ensures i == RawValue(Minute) ==> v.Some? && v.value < MinutesPerHour
    ensures i == RawValue(Minute) ==> v.Some? && (row - v.value) % MinutesPerHour == 0
  {
    match ComponentOf(i)
    case None => None
    case Some(Hour) => Some(row)
    case Some(Minute) => Some(row % MinutesPerHour)
  }

  /** Title of a row of wheel `i`: the decimal text of the number it displays. */
  function TitleForRow(row: nat, i: int): (t: Option<string>)
    ensures t.Some? <==> RowValue(row, i).Some?
    ensures t.Some? ==> DecimalValue(t.value) == RowValue(row, i).value
    ensures t.Some? ==> 1 <= |t.value|
    ensures t.Some? ==> forall k :: 0 <= k < |t.value| ==> '0' <= t.value[k] <= '9'
    ensures t.Some? && |t.value| > 1 ==> t.value[0] != '0'
    ensures i == RawValue(Minute) ==> t.Some? && 1 <= |t.value| <= 2
  {
    match RowValue(row, i)
    case None => None
    case Some(v) =>
      DescriptionRoundTrip(v);
      DescriptionLength(v);
      Some(Description(v))
  }

  /** Minute rows 1500 and 1521 are titled "0" and "21". */
  lemma MinuteTitleExamples()
    ensures TitleForRow(1500, 1) == Some("0")
    ensures TitleForRow(1521, 1) == Some("21")
  {
    assert RowValue(1521, 1) == Some(21);
    assert Description(21) == ['2', '1'] by {
      assert Description(21) == Description(2) + [DigitChar(1)];
    }
  }

  /** Any two copies of a minute on the minute wheel carry the same title. */
  lemma MinuteTitleRepeats(row: nat, copies: nat)
    ensures TitleForRow(row + copies * MinutesPerHour, 1) == TitleForRow(row, 1)
  {
    assert (row + copies * MinutesPerHour) % MinutesPerHour == row % MinutesPerHour;
  }
}
