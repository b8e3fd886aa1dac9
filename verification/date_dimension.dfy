/** The date dimension: one row per distinct non-null sale date, carrying
    the calendar attributes Spark's date functions derive from it. */
module DateDimension {
  import opened Calendar
  import opened Values
  import opened Tables

  const SaleDate: Name := "sale_date"

  /** One row of dim_date, fields in output column order. */
  datatype DateRow = DateRow(
    saleDate: CivilDate,
    year: int,
    quarter: int,
    month: int,
    monthName: string,
    dayOfMonth: int,
    dayOfWeek: int,
    weekOfYear: int,
    isWeekend: bool)

  /** The output columns of dim_date, in the order the rows list them. */
  const DateColumns: seq<Name> :=
    ["sale_date", "year", "quarter", "month", "month_name",
     "day_of_month", "day_of_week", "week_of_year", "is_weekend"]

  /** The attributes of one date: year, quarter, month and its English name,
      day of month, day of week counted 1 = Sunday .. 7 = Saturday, ISO
      week number, and the weekend flag (Saturday or Sunday). */
  function DeriveDateRow(d: CivilDate): (r: DateRow)
    ensures r.saleDate == d && r.year == d.year && r.month == d.month && r.dayOfMonth == d.day
    ensures 1 <= r.month <= 12 && 1 <= r.dayOfMonth <= 31
    ensures 1 <= r.quarter <= 4 && r.quarter == (r.month + 2) / 3
    ensures r.monthName == MonthName(d.month)
    ensures 1 <= r.dayOfWeek <= 7 && r.dayOfWeek == (Zeller(d) + 6) % 7 + 1
    ensures 1 <= r.weekOfYear <= 53 && r.weekOfYear == IsoWeek(d)
    ensures r.isWeekend <==> r.dayOfWeek == 1 || r.dayOfWeek == 7
    ensures r.isWeekend <==> IsoWeekday(DayNumber(d)) >= 6
  {
    DayOfWeekMatchesZeller(d);
    WeekOfYearIsIsoWeek(d);
    var dow := DayOfWeek(d);
    DateRow(d, d.year, Quarter(d.month), d.month, MonthName(d.month), d.day,
            dow, WeekOfYear(d), dow in [1, 7])
  }

  /** The row as cells under DateColumns. */
  function DateRowCells(r: DateRow): (row: Row)
    ensures |row| == |DateColumns|
    ensures row[0] == DateV(r.saleDate) && row[8] == Bool(r.isWeekend)
  {
    [DateV(r.saleDate), Int(r.year), Int(r.quarter), Int(r.month), Text(r.monthName),
     Int(r.dayOfMonth), Int(r.dayOfWeek), Int(r.weekOfYear), Bool(r.isWeekend)]
  }

  function DatesOf(rows: seq<DateRow>): (ds: seq<CivilDate>)
    ensures |ds| == |rows|
    ensures forall i :: 0 <= i < |rows| ==> ds[i] == rows[i].saleDate
  {
    seq(|rows|, i requires 0 <= i < |rows| => rows[i].saleDate)
  }

  /** A value the date functions accept: a date or null. */
  predicate DateOrNull(v: Value) {
    v.Null? || v.DateV?
  }

  /** `filter(isNotNull)` on a date column: the dates in order, nulls dropped;
      a value that is neither is a type error of the date functions. */
  function NonNullDates(vs: seq<Value>): (r: Result<seq<CivilDate>>)
    ensures r.Ok? <==> forall i :: 0 <= i < |vs| ==> DateOrNull(vs[i])
    ensures r.Err? ==> r.error == NotADate(SaleDate)
    ensures r.Ok? ==> forall d :: d in r.value <==> DateV(d) in vs
    ensures r.Ok? ==> |r.value| <= |vs|
    decreases |vs|
  {
    if |vs| == 0 then Ok([])
    else
      var rest :- NonNullDates(vs[1..]);
      assert forall i :: 1 <= i < |vs| ==> vs[i] == vs[1..][i - 1];
      match vs[0]
      case Null => Ok(rest)
      case DateV(d) => Ok([d] + rest)
      case _ => Err(NotADate(SaleDate))
  }

  /** The dim_date rows: fails when sale_date is missing or holds a non-date;
      otherwise one row per distinct non-null sale date, each row derived
      from its date. */
  function GenerateDateDimension(src: Table): (r: Result<seq<DateRow>>)
    requires WellFormed(src)
    ensures r.Ok? <==> SaleDate in src.schema && forall i :: 0 <= i < |src.rows| ==> DateOrNull(Cell(src, i, SaleDate))
    ensures r.Err? && SaleDate !in src.schema ==> r.error == MissingColumn(SaleDate)
    ensures r.Err? && SaleDate in src.schema ==>
              r.error == NotADate(SaleDate) && exists i :: 0 <= i < |src.rows| && !DateOrNull(Cell(src, i, SaleDate))
    ensures r.Ok? ==> NoDuplicates(DatesOf(r.value))
    ensures r.Ok? ==> forall d :: d in DatesOf(r.value) <==> DateV(d) in Column(src, SaleDate)
    ensures r.Ok? ==> forall i :: 0 <= i < |r.value| ==> r.value[i] == DeriveDateRow(r.value[i].saleDate)
  {
    if SaleDate !in src.schema then Err(MissingColumn(SaleDate))
    else
      var vs := Column(src, SaleDate);
      var dates :- NonNullDates(vs);
      var distinct := Dedup(dates);
      var rows := seq(|distinct|, i requires 0 <= i < |distinct| => DeriveDateRow(distinct[i]));
      assert DatesOf(rows) == distinct;
      Ok(rows)
  }

  lemma DateColumnsDistinct()
    ensures NoDuplicates(DateColumns)
  {
  }

  /** The date dimension as a table with the dim_date columns. */
  function DateTable(rows: seq<DateRow>): (t: Table)
    ensures t.schema == DateColumns && |t.rows| == |rows|
    ensures WellFormed(t)
    ensures forall i :: 0 <= i < |rows| ==> Cell(t, i, SaleDate) == DateV(rows[i].saleDate)
  {
    var t := Table(DateColumns, seq(|rows|, i requires 0 <= i < |rows| => DateRowCells(rows[i])));
    DateColumnsDistinct();
    assert IndexOf(DateColumns, SaleDate) == 0;
    t
  }

  /** The number of rows is the number of distinct non-null sale dates. */
  lemma DateDimensionCount(src: Table)
    requires WellFormed(src)
    requires GenerateDateDimension(src).Ok?
    ensures |GenerateDateDimension(src).value| == |set v | v in Column(src, SaleDate) && v.DateV? :: v.d|
  {
    var ds := DatesOf(GenerateDateDimension(src).value);
    assert Elems(ds) == set v | v in Column(src, SaleDate) && v.DateV? :: v.d;
    NoDuplicatesCard(ds);
  }
}
