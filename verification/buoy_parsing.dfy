/** Parsing the five-day NOAA data file of one buoy into `Observations`
    (buoys.py, `column_index_of`, `parse_value`, `parse_int`, `parse_float`
    and `parse_observations`). The text arrives already split into lines and
    each line into whitespace-separated words. */
module BuoyParsing {
  import opened Wrappers
  import opened Sequences
  import opened Buoys

  /** Python's `int` and `float` on a word, either of which may raise; a
      raising conversion is `None`. A NaN from `float` fails every range check
      and so may be given as `None` too. */
  datatype Numerals = Numerals(toInt: string -> Option<int>, toFloat: string -> Option<real>)

  /** The position of the first header equal to `target`, or `None`. */
  function ColumnIndexOf(headers: seq<string>, target: string): (r: Option<nat>)
    ensures r.Some? ==> r.value < |headers| && headers[r.value] == target
    ensures r.Some? ==> forall j :: 0 <= j < r.value ==> headers[j] != target
    ensures r.None? <==> target !in headers
  {
    if |headers| == 0 then None
    else if headers[0] == target then Some(0)
    else
      match ColumnIndexOf(headers[1..], target)
      case None => None
      case Some(n) => Some(n + 1)
  }

  /** `convert(values[index])` when the index exists, lies inside the row,
      converts, and passes `inRange`; every failure along the way is `None`. */
  function ParseValue<T>(values: seq<string>, index: Option<nat>, convert: string -> Option<T>, inRange: T -> bool): (r: Option<T>)
  {
    if index.None? || index.value >= |values| then None
    else
      match convert(values[index.value])
      case None => None
      case Some(n) => if inRange(n) then Some(n) else None
  }

  /** An integer field within `[lo, hi]`, both ends included. */
  function ParseInt(values: seq<string>, index: Option<nat>, lo: int, hi: int, num: Numerals): (r: Option<int>)
    ensures r.Some? ==> lo <= r.value <= hi
    ensures r.Some? <==> index.Some? && index.value < |values|
                         && num.toInt(values[index.value]).Some?
                         && lo <= num.toInt(values[index.value]).value <= hi
    ensures r.Some? ==> r == num.toInt(values[index.value])
  {
    ParseValue(values, index, num.toInt, n => lo <= n <= hi)
  }

  /** A decimal field within `[lo, hi]`, both ends included. */
  function ParseFloat(values: seq<string>, index: Option<nat>, lo: real, hi: real, num: Numerals): (r: Option<real>)
    ensures r.Some? ==> lo <= r.value <= hi
    ensures r.Some? <==> index.Some? && index.value < |values|
                         && num.toFloat(values[index.value]).Some?
                         && lo <= num.toFloat(values[index.value]).value <= hi
    ensures r.Some? ==> r == num.toFloat(values[index.value])
  {
    ParseValue(values, index, num.toFloat, n => lo <= n <= hi)
  }

  /** The header names of the seven columns a row must supply. */
  const YearHeader := "#YY"
  const MonthHeader := "MM"
  const DayHeader := "DD"
  const HourHeader := "hh"
  const MinuteHeader := "mm"
  const WaveHeightHeader := "WVHT"
  const PeriodHeader := "DPD"

  /** Where each needed column sits in the header line, if anywhere. */
  datatype Columns = Columns(
    year: Option<nat>, month: Option<nat>, day: Option<nat>, hour: Option<nat>,
    minute: Option<nat>, waveHeight: Option<nat>, period: Option<nat>)

  function ColumnsOf(headers: seq<string>): Columns
  {
    Columns(
      ColumnIndexOf(headers, YearHeader), ColumnIndexOf(headers, MonthHeader),
      ColumnIndexOf(headers, DayHeader), ColumnIndexOf(headers, HourHeader),
      ColumnIndexOf(headers, MinuteHeader), ColumnIndexOf(headers, WaveHeightHeader),
      ColumnIndexOf(headers, PeriodHeader))
  }

  /** The seven values a complete row yields, wave height still in metres. */
  datatype Fields = Fields(year: int, month: int, day: int, hour: int, minute: int, waveHeight: real, period: real)

  /** The range every field of a kept row lies in. */
  predicate InRange(f: Fields)
  {
    && 1970 <= f.year <= 2500 && 1 <= f.month <= 12 && 1 <= f.day <= 31
    && 0 <= f.hour <= 23 && 0 <= f.minute <= 59
    && 0.0 <= f.waveHeight <= 98.0 && 0.0 <= f.period <= 98.0
  }

  /** The fields of one data row, or `None` when any of them is missing,
      unconvertible or out of range (the row is then skipped). */
  function ParseRow(words: seq<string>, cols: Columns, num: Numerals): (r: Option<Fields>)
    ensures r.Some? ==> InRange(r.value)
    ensures r.Some? <==>
      && ParseInt(words, cols.year, 1970, 2500, num).Some?
      && ParseInt(words, cols.month, 1, 12, num).Some?
      && ParseInt(words, cols.day, 1, 31, num).Some?
      && ParseInt(words, cols.hour, 0, 23, num).Some?
      && ParseInt(words, cols.minute, 0, 59, num).Some?
      && ParseFloat(words, cols.waveHeight, 0.0, 98.0, num).Some?
      && ParseFloat(words, cols.period, 0.0, 98.0, num).Some?
    ensures r.Some? ==> r.value == Fields(
      ParseInt(words, cols.year, 1970, 2500, num).value,
      ParseInt(words, cols.month, 1, 12, num).value,
      ParseInt(words, cols.day, 1, 31, num).value,
      ParseInt(words, cols.hour, 0, 23, num).value,
      ParseInt(words, cols.minute, 0, 59, num).value,
      ParseFloat(words, cols.waveHeight, 0.0, 98.0, num).value,
      ParseFloat(words, cols.period, 0.0, 98.0, num).value)
  {
    var year := ParseInt(words, cols.year, 1970, 2500, num);
    var month := ParseInt(words, cols.month, 1, 12, num);
    var day := ParseInt(words, cols.day, 1, 31, num);
    var hour := ParseInt(words, cols.hour, 0, 23, num);
    var minute := ParseInt(words, cols.minute, 0, 59, num);
    var waveHeight := ParseFloat(words, cols.waveHeight, 0.0, 98.0, num);
    var period := ParseFloat(words, cols.period, 0.0, 98.0, num);
    if year.None? || month.None? || day.None? || hour.None? || minute.None? || waveHeight.None? || period.None? then None
    else Some(Fields(year.value, month.value, day.value, hour.value, minute.value, waveHeight.value, period.value))
  }

  /** `ParseRow` for a fixed header line, as a value. */
  function RowParser(cols: Columns, num: Numerals): seq<string> -> Option<Fields>
  {
    words => ParseRow(words, cols, num)
  }

  /** The complete data rows below the two header lines, in file order. */
  function DataRows(lines: seq<seq<string>>, num: Numerals): seq<Fields>
    requires |lines| >= 2
  {
    FilterMap(lines[2..], RowParser(ColumnsOf(lines[0]), num))
  }

  predicate IsLeapYear(y: int)
  {
    y % 4 == 0 && (y % 100 != 0 || y % 400 == 0)
  }

  function DaysInMonth(year: int, month: int): (n: int)
    requires 1 <= month <= 12
    ensures 28 <= n <= 31
    ensures month == 2 ==> (n == 29 <==> IsLeapYear(year))
    ensures n == 30 <==> month in {4, 6, 9, 11}
    ensures n == 31 <==> month in {1, 3, 5, 7, 8, 10, 12}
  {
    if month == 2 then (if IsLeapYear(year) then 29 else 28)
    else if month == 4 || month == 6 || month == 9 || month == 11 then 30
    else 31
  }

  /** The range check lets day 31 through for every month; building the
      datetime then raises unless the day exists in that month. */
  predicate IsCalendarDate(f: Fields)
  {
    1 <= f.month <= 12 && 1 <= f.day <= DaysInMonth(f.year, f.month)
  }

  const FeetPerMeter: real := 3.28084

  function ToObservation(f: Fields): Observation
  {
    Observation(Instant(f.year, f.month, f.day, f.hour, f.minute), f.waveHeight * FeetPerMeter, f.period)
  }

  /** Why `parse_observations` raises: fewer than two lines (the header line
      and the units line), or a kept row naming a day its month lacks. */
  datatype ParseError = MissingHeaderLines | NoSuchDate

  /** The fields an observation was built from, its height back in metres. */
  function FieldsOf(o: Observation): Fields
  {
    Fields(o.time.year, o.time.month, o.time.day, o.time.hour, o.time.minute, o.waveHeight / FeetPerMeter, o.period)
  }

  /** Converting a row to an observation loses nothing: the fields come back. */
  lemma FieldsOfObservation(f: Fields)
    ensures FieldsOf(ToObservation(f)) == f
  {
    assert f.waveHeight * FeetPerMeter / FeetPerMeter == f.waveHeight;
  }

  /** The range every parsed observation lies in: that of its fields. */
  predicate ObservationInRange(o: Observation)
  {
    InRange(FieldsOf(o))
  }

  function ParseObservations(lines: seq<seq<string>>, num: Numerals): (r: Result<Observations, ParseError>)
    ensures |lines| < 2 <==> r == Failure(MissingHeaderLines)
    ensures r.Success? ==> |r.value.items| <= |lines| - 2
    ensures r.Success? ==> |r.value.items| == |DataRows(lines, num)|
    ensures r.Success? ==> forall k :: 0 <= k < |r.value.items| ==> r.value.items[k] == ToObservation(DataRows(lines, num)[k])
    ensures r == Failure(NoSuchDate) <==> |lines| >= 2 && exists k :: 0 <= k < |DataRows(lines, num)| && !IsCalendarDate(DataRows(lines, num)[k])
  {
    if |lines| < 2 then Failure(MissingHeaderLines)
    else
      var rows := DataRows(lines, num);
      if forall k :: 0 <= k < |rows| ==> IsCalendarDate(rows[k]) then
        Success(Observations(seq(|rows|, k requires 0 <= k < |rows| => ToObservation(rows[k]))))
      else Failure(NoSuchDate)
  }

  /** A data row yields an observation exactly when all seven of its fields
      are present and in range; the kept rows stay in file order. */
  lemma RowsKeptInFileOrder(lines: seq<seq<string>>, num: Numerals)
    requires |lines| >= 2
    ensures var f := RowParser(ColumnsOf(lines[0]), num);
            OrderedSelection(lines[2..], f, DataRows(lines, num), Positions(lines[2..], f))
  {
    FilterMapSelects(lines[2..], RowParser(ColumnsOf(lines[0]), num));
  }

  /** Every observation parsed from a file lies in the checked ranges. */
  lemma ParsedObservationsInRange(lines: seq<seq<string>>, num: Numerals)
    requires ParseObservations(lines, num).Success?
    ensures forall o :: o in ParseObservations(lines, num).value.items ==> ObservationInRange(o)
  {
    var f := RowParser(ColumnsOf(lines[0]), num);
    var rows := DataRows(lines, num);
    RowsKeptInFileOrder(lines, num);
    var idx := Positions(lines[2..], f);
    assert ImagesAt(lines[2..], f, rows, idx);
    var items := ParseObservations(lines, num).value.items;
    forall o | o in items
      ensures ObservationInRange(o)
    {
      var k :| 0 <= k < |items| && items[k] == o;
      assert f(lines[2..][idx[k]]) == Some(rows[k]);
      assert InRange(rows[k]);
      FieldsOfObservation(rows[k]);
    }
  }

  /** A header line that lacks one of the seven needed columns makes every row
      fail, so the file parses to no observations at all. */
  lemma {:induction false} MissingColumnKeepsNothing(lines: seq<seq<string>>, num: Numerals, target: string)
    requires |lines| >= 2
    requires target in [YearHeader, MonthHeader, DayHeader, HourHeader, MinuteHeader, WaveHeightHeader, PeriodHeader]
    requires target !in lines[0]
    ensures ParseObservations(lines, num) == Success(Observations([]))
  {
    var f := RowParser(ColumnsOf(lines[0]), num);
    forall i | 0 <= i < |lines[2..]|
      ensures f(lines[2..][i]).None?
    {
    }
    assert DataRows(lines, num) == [];
  }
}
