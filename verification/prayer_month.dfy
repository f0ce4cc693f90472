/** The monthly timetable: one row per day of the chosen month, the month
    navigation that wraps across years, and the range of years offered. */
module PrayerMonth {
  import opened Wrappers
  import opened Text
  import opened Calendar
  import Prayer

  /** One table row: the day of the month as text, then the six formatted
      times in `Prayer.Titles` order. */
  datatype Row = Row(date: string, cells: seq<string>)

  /** How the screen writes a time value (`toLocaleTimeString`), a parameter here. */
  type TimeFormat = int -> string

  /** `new Date(year, month + 1, 0).getDate()`. */
  function DayCount(year: int, month: int): (n: int)
    requires 0 <= month < 12
    ensures n == DaysInMonth(year, month)
  {
    assert PrevMonth(year + (month + 1) / 12, (month + 1) % 12) == YearMonth(year, month);
    MakeDate(year, month + 1, 0).day
  }

  /** The row the loop pushes for day `d`. */
  function RowOf(d: int, pt: Prayer.PrayerTimes, fmt: TimeFormat): Row
  {
    Row(IntToString(d), [fmt(pt.fajr), fmt(pt.sunrise), fmt(pt.dhuhr), fmt(pt.asr), fmt(pt.maghrib), fmt(pt.isha)])
  }

  /** A row has the six columns in `Prayer.Order`, each the formatted instant
      of that prayer. */
  lemma RowColumns(d: int, pt: Prayer.PrayerTimes, fmt: TimeFormat)
    ensures var r := RowOf(d, pt, fmt);
            && |r.cells| == |Prayer.Titles| == 6
            && (forall i :: 0 <= i < 6 ==> r.cells[i] == fmt(Prayer.TimeOf(pt, Prayer.Order[i])))
  {
  }

  /** A row's label reads back as its day. */
  lemma RowLabel(d: int, pt: Prayer.PrayerTimes, fmt: TimeFormat)
    ensures ParseInt(RowOf(d, pt, fmt).date) == Some(d)
  {
    ParseIntRoundTrip(d);
  }

  /** Day `d` of a month, as `new Date(year, month, d)` builds it. */
  lemma DayOfMonth(year: int, month: int, d: int)
    requires 0 <= month < 12 && 1 <= d <= DaysInMonth(year, month)
    ensures MakeDate(year, month, d) == Date(year, month, d)
  {
    assert month / 12 == 0 && month % 12 == month;
  }

  /** The first `n` rows of the month's table, day 1 first. */
  function Table(loc: Prayer.Coordinates, solar: Prayer.Solar, p: Prayer.CalculationParameters,
                 year: int, month: int, fmt: TimeFormat, n: nat): (r: seq<Row>)
    ensures |r| == n
    ensures forall i :: 0 <= i < n ==> r[i] == RowOf(i + 1, solar(loc, Date(year, month, i + 1), p), fmt)
  {
    if n == 0 then []
    else Table(loc, solar, p, year, month, fmt, n - 1) + [RowOf(n, solar(loc, Date(year, month, n), p), fmt)]
  }

  /** The effect that fills the table. `None` when nothing is set: without a
      location it returns early, and with an unknown stored method the first
      day's computation throws. Otherwise it is one row per day of the month,
      row `i` being day `i + 1`. */
  method MonthRows(loc: Option<Prayer.Coordinates>, solar: Prayer.Solar, settings: Prayer.PrayerSettings,
                   year: int, month: int, fmt: TimeFormat)
    returns (rows: Option<seq<Row>>)
    requires 0 <= month < 12
    ensures loc.None? || Prayer.MethodParams(settings.calcMethod).None? ==> rows.None?
    ensures loc.Some? && Prayer.MethodParams(settings.calcMethod).Some? ==>
              rows == Some(Table(loc.value, solar, Prayer.ParamsFor(settings).value, year, month, fmt, DaysInMonth(year, month)))
  {
    if loc.None? {
      return None;
    }
    var p := Prayer.ParamsFor(settings);
    if p.None? {
      return None;
    }
    var results := FillRows(loc.value, solar, p.value, year, month, fmt);
    rows := Some(results);
  }

  /** The loop over `d = 1 … count`, each date built with `new Date(year, month, d)`. */
  method FillRows(loc: Prayer.Coordinates, solar: Prayer.Solar, p: Prayer.CalculationParameters,
                  year: int, month: int, fmt: TimeFormat)
    returns (results: seq<Row>)
    requires 0 <= month < 12
    ensures results == Table(loc, solar, p, year, month, fmt, DaysInMonth(year, month))
  {
    results := [];
    var count := DayCount(year, month);
    var d := 1;
    while d <= count
      invariant 1 <= d <= count + 1
      invariant results == Table(loc, solar, p, year, month, fmt, d - 1)
    {
      var date := MakeDate(year, month, d);
      DayOfMonth(year, month, d);
      var row := RowOf(d, solar(loc, date, p), fmt);
      assert Table(loc, solar, p, year, month, fmt, d) == results + [row];
      results := results + [row];
      d := d + 1;
    }
  }

  /** The labels run "1", "2", … in order: row `i` reads back as `i + 1`. */
  lemma RowLabelsAscending(rows: seq<Row>, year: int, month: int, loc: Prayer.Coordinates,
                           solar: Prayer.Solar, p: Prayer.CalculationParameters, fmt: TimeFormat)
    requires 0 <= month < 12
    requires forall i :: 0 <= i < |rows| ==> rows[i] == RowOf(i + 1, solar(loc, Date(year, month, i + 1), p), fmt)
    ensures forall i, j :: 0 <= i < j < |rows| ==> rows[i].date != rows[j].date
    ensures forall i :: 0 <= i < |rows| ==> ParseInt(rows[i].date) == Some(i + 1)
  {
    forall i | 0 <= i < |rows|
      ensures ParseInt(rows[i].date) == Some(i + 1)
    {
      RowLabel(i + 1, solar(loc, Date(year, month, i + 1), p), fmt);
    }
  }

  // ---------- navigation ----------

  /** The ◀ button: from January to December of the year before. */
  function Prev(ym: YearMonth): (r: YearMonth)
    requires 0 <= ym.month < 12
    ensures 0 <= r.month < 12
    ensures ym.month == 0 ==> r == YearMonth(ym.year - 1, 11)
    ensures ym.month != 0 ==> r == YearMonth(ym.year, ym.month - 1)
  {
    PrevMonth(ym.year, ym.month)
  }

  /** The ▶ button: from December to January of the year after. */
  function Next(ym: YearMonth): (r: YearMonth)
    requires 0 <= ym.month < 12
    ensures 0 <= r.month < 12
    ensures ym.month == 11 ==> r == YearMonth(ym.year + 1, 0)
    ensures ym.month != 11 ==> r == YearMonth(ym.year, ym.month + 1)
  {
    NextMonth(ym.year, ym.month)
  }

  /** The two buttons undo each other. */
  lemma PrevNextInverse(ym: YearMonth)
    requires 0 <= ym.month < 12
    ensures Prev(Next(ym)) == ym
    ensures Next(Prev(ym)) == ym
  {
  }

  /** `k` presses of ▶ move `k` months on, across as many year ends as needed. */
  lemma {:induction false} NextSteps(ym: YearMonth, k: nat)
    requires 0 <= ym.month < 12
    ensures var r := Forwards(ym, k); 0 <= r.month < 12 && r.year * 12 + r.month == ym.year * 12 + ym.month + k
  {
    if k > 0 {
      NextSteps(ym, k - 1);
    }
  }

  /** `k` presses of ▶. */
  function Forwards(ym: YearMonth, k: nat): (r: YearMonth)
    requires 0 <= ym.month < 12
    ensures 0 <= r.month < 12
  {
    if k == 0 then ym else Next(Forwards(ym, k - 1))
  }

  // ---------- the year selector ----------

  /** The eleven years offered, from five before the current year to five after. */
  function YearOptions(current: int): (r: seq<int>)
    ensures |r| == 11
  {
    seq(11, i => current - 5 + i)
  }

  /** A year is offered exactly when it is within five of the current one, and
      the list is in increasing order. */
  lemma YearOptionsRange(current: int, y: int)
    ensures y in YearOptions(current) <==> current - 5 <= y <= current + 5
    ensures forall i, j :: 0 <= i < j < 11 ==> YearOptions(current)[i] < YearOptions(current)[j]
  {
    var r := YearOptions(current);
    if current - 5 <= y <= current + 5 {
      assert r[y - current + 5] == y;
    }
  }

  /** Choosing an offered year: the option's value, `parseInt` read, is that year. */
  lemma YearSelectReadsBack(current: int, i: nat)
    requires i < 11
    ensures var y := YearOptions(current)[i];
            ParseInt(IntToString(y)) == Some(y) && current - 5 <= y <= current + 5
  {
    ParseIntRoundTrip(YearOptions(current)[i]);
  }
}
