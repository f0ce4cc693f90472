/** The prayer-times screen: today's six instants as a fixed six-row table,
    the next prayer picked by `nextPrayer`, and the countdown to it that both
    this screen and the home screen redraw every second. */
module PrayerTimesView {
  import opened Wrappers
  import opened Text
  import Clock
  import Prayer
  import Countdown

  /** One table row: the lower-case key shown as the label, and its instant. */
  datatype TableRow = TableRow(key: string, time: int)

  /** The rows the table renders, from the literal key list mapped to
      `times[k]`. Row `i` is the `i`-th prayer of the order `nextPrayer` scans. */
  function TableRows(pt: Prayer.PrayerTimes): (rows: seq<TableRow>)
    ensures |rows| == 6
    ensures forall i :: 0 <= i < 6 ==>
              rows[i] == TableRow(Prayer.Key(Prayer.Order[i]), Prayer.TimeOf(pt, Prayer.Order[i]))
  {
    [TableRow("fajr", pt.fajr), TableRow("sunrise", pt.sunrise), TableRow("dhuhr", pt.dhuhr),
     TableRow("asr", pt.asr), TableRow("maghrib", pt.maghrib), TableRow("isha", pt.isha)]
  }

  /** Every prayer has exactly one row, and that row shows its instant. */
  lemma RowOfPrayer(pt: Prayer.PrayerTimes, p: Prayer.PrayerName) returns (i: nat)
    ensures i < 6 && TableRows(pt)[i] == TableRow(Prayer.Key(p), Prayer.TimeOf(pt, p))
    ensures forall j :: 0 <= j < 6 && j != i ==> TableRows(pt)[j].key != Prayer.Key(p)
  {
    var k := Prayer.InOrder(p);
    i := k;
    var rows := TableRows(pt);
    forall j | 0 <= j < 6 && j != i
      ensures rows[j].key != Prayer.Key(p)
    {
      KeysDistinct(j, i);
    }
  }

  lemma KeysDistinct(i: nat, j: nat)
    requires i < 6 && j < 6 && i != j
    ensures Prayer.Key(Prayer.Order[i]) != Prayer.Key(Prayer.Order[j])
  {
    assert Prayer.Key(Prayer.Order[i]) == Prayer.Keys[i] && Prayer.Key(Prayer.Order[j]) == Prayer.Keys[j];
    assert Prayer.Keys[i][..2] != Prayer.Keys[j][..2] || |Prayer.Keys[i]| != |Prayer.Keys[j]|;
  }

  /** The "Next:" line names a row of the table. When a prayer is still ahead
      today, it is that row's instant, strictly later than `now`; once all six
      have passed it is the first row, Fajr, one day on. */
  lemma NextRow(pt: Prayer.PrayerTimes, now: int) returns (i: nat)
    ensures var rows, next := TableRows(pt), Prayer.NextPrayer(pt, now);
            && i < 6 && rows[i].key == next.name
            && ((exists k :: 0 <= k < 6 && now < rows[k].time) ==> next.time == rows[i].time && now < next.time)
            && ((forall k :: 0 <= k < 6 ==> rows[k].time <= now) ==> i == 0 && next.time == rows[0].time + Clock.MsPerDay)
  {
    var rows := TableRows(pt);
    match Prayer.FirstAfter(pt, now, 0)
    case Some(k) =>
      i := k;
    case None =>
      i := 0;
  }

  /** The interval callback of both screens: the countdown text for the
      instant of `next`, read against the clock value `now`. */
  function Tick(next: Prayer.NextPrayerResult, now: int): (text: string)
    ensures |text| >= 8
    ensures next.time - now < 100 * Clock.MsPerHour ==> |text| == 8
  {
    Countdown.Format(Countdown.Remaining(next.time, now))
  }

  /** Once the instant has come the countdown stays at `00:00:00`. */
  lemma TickDue(next: Prayer.NextPrayerResult, now: int)
    requires next.time <= now
    ensures Tick(next, now) == "00:00:00"
  {
    Countdown.FormatZero();
  }

  /** Less than a hundred hours ahead, the text reads back as the split of
      the time still to go: its three fields parse as the hours, minutes and
      seconds, which make up the whole seconds left. */
  lemma TickReadsBack(next: Prayer.NextPrayerResult, now: int)
    requires now < next.time < now + 100 * Clock.MsPerHour
    ensures var left := Countdown.Remaining(next.time, now);
            var p := Countdown.Split3(left);
            var f := Split(Tick(next, now), ':');
            && left == next.time - now
            && |f| == 3
            && ParseInt(f[0]) == Some(p.h) && ParseInt(f[1]) == Some(p.m) && ParseInt(f[2]) == Some(p.s)
            && p.m < 60 && p.s < 60
            && (p.h * 60 + p.m) * 60 + p.s == left / Clock.MsPerSecond
  {
    Countdown.FormatReadsBack(Countdown.Remaining(next.time, now));
  }
}
