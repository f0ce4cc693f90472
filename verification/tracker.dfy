/** The salah tracker: a log of which of six prayers were prayed on each day,
    kept under the day's `YYYY-MM-DD` key, the six-week calendar grid the
    heat map draws, and the month's totals. */
module SalahTracker {
  import opened Calendar
  import opened DateKey
  import KeyLayout

  /** The tracker's prayers; Witr stands in for Sunrise. */
  datatype PrayerKey = Fajr | Dhuhr | Asr | Maghrib | Isha | Witr

  const Prayers: seq<PrayerKey> := [Fajr, Dhuhr, Asr, Maghrib, Isha, Witr]

  const StorageKey: string := "salahLogV1"

  /** One day's log. A prayer missing from the map reads as `undefined`,
      which counts as not prayed. */
  type DayLog = map<PrayerKey, bool>

  /** Every logged day under its `YYYY-MM-DD` key. */
  type LogStore = map<string, DayLog>

  predicate Done(log: DayLog, p: PrayerKey) { p in log && log[p] }

  /** How many of `ps` the log marks as prayed. */
  function Count(log: DayLog, ps: seq<PrayerKey>): (n: nat)
    ensures n <= |ps|
  {
    if ps == [] then 0 else Bit(Done(log, ps[0])) + Count(log, ps[1..])
  }

  function Bit(b: bool): nat { if b then 1 else 0 }

  /** The six marks added up, prayer by prayer. */
  function Tally(log: DayLog): nat
  {
    Bit(Done(log, Fajr)) + Bit(Done(log, Dhuhr)) + Bit(Done(log, Asr))
    + Bit(Done(log, Maghrib)) + Bit(Done(log, Isha)) + Bit(Done(log, Witr))
  }

  /** The loop over `PRAYERS` counts each prayer's mark once. */
  lemma CountSix(log: DayLog)
    ensures Count(log, Prayers) == Tally(log)
  {
    var s0 := Prayers;
    var s1 := [Dhuhr, Asr, Maghrib, Isha, Witr];
    var s2 := [Asr, Maghrib, Isha, Witr];
    var s3 := [Maghrib, Isha, Witr];
    var s4 := [Isha, Witr];
    var s5 := [Witr];
    assert s0[1..] == s1 && s1[1..] == s2 && s2[1..] == s3 && s3[1..] == s4 && s4[1..] == s5 && s5[1..] == [];
    assert Count(log, s5) == Bit(Done(log, Witr));
    assert Count(log, s4) == Bit(Done(log, Isha)) + Count(log, s5);
    assert Count(log, s3) == Bit(Done(log, Maghrib)) + Count(log, s4);
    assert Count(log, s2) == Bit(Done(log, Asr)) + Count(log, s3);
    assert Count(log, s1) == Bit(Done(log, Dhuhr)) + Count(log, s2);
  }

  /** The log under a key, `store[key] || {}`. */
  function LogAt(store: LogStore, key: string): (log: DayLog)
    ensures key !in store ==> log == map[]
    ensures key in store ==> log == store[key]
  {
    if key in store then store[key] else map[]
  }

  /** How many prayers are logged under a key: 0 for a key never written. */
  function CountAt(store: LogStore, key: string): (n: nat)
    ensures n <= 6
    ensures key !in store ==> n == 0
  {
    if key !in store then 0 else Count(store[key], Prayers)
  }

  /** `completedCount(d)`, the number the heat map shows on day `d`. */
  function CompletedCount(store: LogStore, d: Date): (n: nat)
    ensures n <= 6
  {
    CountAt(store, Ymd(d))
  }

  /** `selectedScore`: the `reduce` over `dayLog`, the selected day's log. */
  function SelectedScore(store: LogStore, selKey: string): (n: nat)
    ensures n <= 6
  {
    Count(LogAt(store, selKey), Prayers)
  }

  /** The editor's score and the heat map's count are the same number. */
  lemma ScoreIsCount(store: LogStore, selKey: string)
    ensures SelectedScore(store, selKey) == CountAt(store, selKey)
  {
    if selKey !in store {
      CountSix(map[]);
    }
  }

  /** The count is 6 exactly when every prayer is marked and 0 exactly when none is. */
  lemma CountExtremes(log: DayLog)
    ensures Count(log, Prayers) == 6 <==> forall p :: Done(log, p)
    ensures Count(log, Prayers) == 0 <==> forall p :: !Done(log, p)
  {
    CountSix(log);
    forall p
      ensures Count(log, Prayers) == 6 ==> Done(log, p)
      ensures Count(log, Prayers) == 0 ==> !Done(log, p)
    {
      assert p == Fajr || p == Dhuhr || p == Asr || p == Maghrib || p == Isha || p == Witr;
    }
    if forall p :: Done(log, p) {
      assert Done(log, Fajr) && Done(log, Dhuhr) && Done(log, Asr) && Done(log, Maghrib) && Done(log, Isha) && Done(log, Witr);
    }
    if forall p :: !Done(log, p) {
      assert !Done(log, Fajr) && !Done(log, Dhuhr) && !Done(log, Asr) && !Done(log, Maghrib) && !Done(log, Isha) && !Done(log, Witr);
    }
  }

  // ---------- editing the selected day ----------

  /** `toggle(prayer)`: the selected day's log with that prayer's mark flipped,
      `undefined` flipping to `true`; every other key is kept. */
  function Toggle(store: LogStore, selKey: string, p: PrayerKey): (r: LogStore)
    ensures selKey in r
    ensures Done(r[selKey], p) <==> !Done(LogAt(store, selKey), p)
    ensures forall q :: q != p ==> Done(r[selKey], q) == Done(LogAt(store, selKey), q)
    ensures forall k :: k != selKey ==> (k in r <==> k in store)
    ensures forall k :: k != selKey && k in store ==> r[k] == store[k]
  {
    var cur := LogAt(store, selKey);
    store[selKey := cur[p := !Done(cur, p)]]
  }

  /** `markAll(val)`: the selected day's log replaced by one with all six
      prayers set to `val`; every other key is kept. */
  function MarkAll(store: LogStore, selKey: string, v: bool): (r: LogStore)
    ensures selKey in r
    ensures forall q :: Done(r[selKey], q) == v
    ensures forall k :: k != selKey ==> (k in r <==> k in store)
    ensures forall k :: k != selKey && k in store ==> r[k] == store[k]
  {
    store[selKey := AllMarked(v)]
  }

  /** The log the `for (const p of PRAYERS) cur[p] = val` loop builds. */
  function AllMarked(v: bool): (log: DayLog)
    ensures forall q :: q in log && log[q] == v
  {
    var log := map[Fajr := v, Dhuhr := v, Asr := v, Maghrib := v, Isha := v, Witr := v];
    assert forall q :: q in log && log[q] == v by {
      forall q ensures q in log && log[q] == v {
        assert q == Fajr || q == Dhuhr || q == Asr || q == Maghrib || q == Isha || q == Witr;
      }
    }
    log
  }

  /** Toggling moves the day's count by exactly one: up when the prayer was
      not marked, down when it was. */
  lemma ToggleCount(store: LogStore, selKey: string, p: PrayerKey)
    ensures CountAt(Toggle(store, selKey, p), selKey)
            == if Done(LogAt(store, selKey), p) then CountAt(store, selKey) - 1
               else CountAt(store, selKey) + 1
  {
    var cur := LogAt(store, selKey);
    FlipCount(cur, p);
    ScoreIsCount(store, selKey);
    assert Toggle(store, selKey, p)[selKey] == cur[p := !Done(cur, p)];
  }

  /** Flipping one mark of a log moves its count by one. */
  lemma FlipCount(log: DayLog, p: PrayerKey)
    ensures Count(log[p := !Done(log, p)], Prayers)
            == if Done(log, p) then Count(log, Prayers) - 1 else Count(log, Prayers) + 1
  {
    assert p in Prayers by {
      assert p == Prayers[0] || p == Prayers[1] || p == Prayers[2] || p == Prayers[3] || p == Prayers[4] || p == Prayers[5];
    }
    FlipIn(log, p, Prayers);
  }

  /** No prayer is listed twice. */
  predicate Unique(ps: seq<PrayerKey>) { forall i, j :: 0 <= i < j < |ps| ==> ps[i] != ps[j] }

  /** Over a list naming `p` once, flipping `p` moves the count by one. */
  lemma {:induction false} FlipIn(log: DayLog, p: PrayerKey, ps: seq<PrayerKey>)
    requires p in ps && Unique(ps)
    ensures Count(log[p := !Done(log, p)], ps) == if Done(log, p) then Count(log, ps) - 1 else Count(log, ps) + 1
  {
    var next := log[p := !Done(log, p)];
    if ps[0] == p {
      assert p !in ps[1..] by {
        forall k | 0 <= k < |ps[1..]| ensures ps[1..][k] != p {
          assert ps[1..][k] == ps[k + 1];
        }
      }
      CountElsewhere(log, p, !Done(log, p), ps[1..]);
    } else {
      assert Done(next, ps[0]) == Done(log, ps[0]);
      FlipIn(log, p, ps[1..]);
    }
  }

  /** Setting a prayer a list does not name leaves the list's count alone. */
  lemma {:induction false} CountElsewhere(log: DayLog, p: PrayerKey, v: bool, ps: seq<PrayerKey>)
    requires p !in ps
    ensures Count(log[p := v], ps) == Count(log, ps)
  {
    if ps != [] {
      assert ps[0] != p;
      CountElsewhere(log, p, v, ps[1..]);
    }
  }

  /** Toggling the same prayer twice restores every mark of the day and its count. */
  lemma ToggleTwice(store: LogStore, selKey: string, p: PrayerKey)
    ensures forall q :: Done(LogAt(Toggle(Toggle(store, selKey, p), selKey, p), selKey), q)
                        == Done(LogAt(store, selKey), q)
    ensures CountAt(Toggle(Toggle(store, selKey, p), selKey, p), selKey) == CountAt(store, selKey)
  {
    ToggleCount(store, selKey, p);
    ToggleCount(Toggle(store, selKey, p), selKey, p);
  }

  /** Marking all gives 6, clearing all gives 0. */
  lemma MarkAllCount(store: LogStore, selKey: string, v: bool)
    ensures CountAt(MarkAll(store, selKey, v), selKey) == if v then 6 else 0
  {
    var r := MarkAll(store, selKey, v);
    CountSix(r[selKey]);
  }

  /** Editing the selected day leaves every other day's count alone: distinct
      dates have distinct keys. */
  lemma EditsStayOnTheDay(store: LogStore, selected: Date, other: Date, p: PrayerKey, v: bool)
    requires InRange(selected) && InRange(other) && selected != other
    ensures CompletedCount(Toggle(store, Ymd(selected), p), other) == CompletedCount(store, other)
    ensures CompletedCount(MarkAll(store, Ymd(selected), v), other) == CompletedCount(store, other)
  {
    KeyLayout.YmdInjective(other, selected);
    OtherKeys(store, Ymd(selected), Ymd(other), p, v);
  }

  /** Either edit leaves the count under every other key alone. */
  lemma OtherKeys(store: LogStore, selKey: string, key: string, p: PrayerKey, v: bool)
    requires key != selKey
    ensures CountAt(Toggle(store, selKey, p), key) == CountAt(store, key)
    ensures CountAt(MarkAll(store, selKey, v), key) == CountAt(store, key)
  {
  }

  // ---------- the month grid ----------

  /** `n` consecutive days, the first being `start` moved on by `from` days. */
  function Days(start: Date, from: int, n: nat): (r: seq<Date>)
    requires Valid(start)
    ensures |r| == n
  {
    if n == 0 then [] else Days(start, from, n - 1) + [AddDays(start, from + n - 1)]
  }

  /** The first `n` week rows of a grid starting at `start`. */
  function Weeks(start: Date, n: nat): (r: seq<seq<Date>>)
    requires Valid(start)
    ensures |r| == n && forall i :: 0 <= i < n ==> |r[i]| == 7
  {
    if n == 0 then [] else Weeks(start, n - 1) + [Days(start, 7 * (n - 1), 7)]
  }

  /** Cell `j` of a run of days is `start` moved on by `from + j`. */
  lemma {:induction false} DaysAt(start: Date, from: int, n: nat, j: nat)
    requires Valid(start) && j < n
    ensures Days(start, from, n)[j] == AddDays(start, from + j)
  {
    if j < n - 1 {
      DaysAt(start, from, n - 1, j);
    }
  }

  /** Row `i` of the grid is the week starting `7 * i` days after `start`. */
  lemma {:induction false} WeeksAt(start: Date, n: nat, i: nat)
    requires Valid(start) && i < n
    ensures Weeks(start, n)[i] == Days(start, 7 * i, 7)
  {
    if i < n - 1 {
      WeeksAt(start, n - 1, i);
    }
  }

  /** Cell `(i, j)` of the six-row grid is `start` moved on by `7 * i + j` days. */
  lemma GridAt(start: Date, i: nat, j: nat)
    requires Valid(start) && i < 6 && j < 7
    ensures Weeks(start, 6)[i][j] == AddDays(start, 7 * i + j)
  {
    WeeksAt(start, 6, i);
    DaysAt(start, 7 * i, 7, j);
  }

  /** The Sunday that opens the grid: the first of the month moved back by its weekday. */
  function GridStart(month: Date): (s: Date)
    requires Valid(month)
  {
    var first := StartOfMonth(month);
    AddDays(first, -Weekday(first))
  }

  /** `monthMatrix(forMonth)`: six rows of seven dates from the Sunday on or
      before the first, each cell the day after the one before it; with the
      first and last day of the month. */
  method MonthMatrix(forMonth: Date) returns (matrix: seq<seq<Date>>, monthFirst: Date, monthLast: Date)
    requires Valid(forMonth)
    ensures monthFirst == StartOfMonth(forMonth) && monthLast == EndOfMonth(forMonth)
    ensures matrix == Weeks(GridStart(forMonth), 6)
  {
    monthFirst := StartOfMonth(forMonth);
    monthLast := EndOfMonth(forMonth);
    var firstWeekday := Weekday(monthFirst);
    var start := MakeDate(monthFirst.year, monthFirst.month, monthFirst.day - firstWeekday);
    assert start == GridStart(forMonth);
    matrix := FillWeeks(start);
  }

  /** The outer loop: six rows, each continuing from where the last one ended. */
  method FillWeeks(start: Date) returns (matrix: seq<seq<Date>>)
    requires Valid(start)
    ensures matrix == Weeks(start, 6)
  {
    matrix := [];
    var cur := start;
    AddDaysZero(start);
    var r := 0;
    while r < 6
      invariant 0 <= r <= 6
      invariant matrix == Weeks(start, r)
      invariant cur == AddDays(start, 7 * r)
    {
      var row;
      row, cur := WeekFrom(start, r, cur);
      matrix := matrix + [row];
      r := r + 1;
    }
  }

  /** The inner loop: seven cells from `cur`, `setDate(getDate() + 1)` after each. */
  method WeekFrom(start: Date, r: int, cur0: Date) returns (row: seq<Date>, cur: Date)
    requires Valid(start) && cur0 == AddDays(start, 7 * r)
    ensures row == Days(start, 7 * r, 7)
    ensures cur == AddDays(start, 7 * r + 7)
  {
    row := [];
    cur := cur0;
    var c := 0;
    while c < 7
      invariant 0 <= c <= 7
      invariant row == Days(start, 7 * r, c)
      invariant cur == AddDays(start, 7 * r + c)
    {
      row := row + [cur];
      AddDaysCompose(start, 7 * r + c, 1);
      cur := MakeDate(cur.year, cur.month, cur.day + 1);
      c := c + 1;
    }
  }

  /** The grid opens on the Sunday on or before the first of the month, no
      more than six days earlier. */
  lemma GridOpensOnSunday(month: Date)
    requires Valid(month)
    ensures var first := StartOfMonth(month);
            var s := GridStart(month);
            && Weekday(s) == 0
            && DayNumber(s) == DayNumber(first) - Weekday(first)
            && DayNumber(first) - 6 <= DayNumber(s) <= DayNumber(first)
  {
    var first := StartOfMonth(month);
    var n := DayNumber(first);
    var w := Weekday(first);
    AddDaysNumber(first, -w);
    assert w == n % 7;
    RoundDownWeek(n);
  }

  lemma RoundDownWeek(n: int)
    ensures (n - n % 7) % 7 == 0
  {
    assert n - n % 7 == 7 * (n / 7);
  }

  /** Reading row by row, each cell is the day after the one before it. */
  lemma GridConsecutive(month: Date, i: nat, j: nat)
    requires Valid(month) && i < 6 && j < 7
    ensures var s := GridStart(month);
            var g := Weeks(s, 6);
            && g[i][j] == AddDays(s, 7 * i + j)
            && DayNumber(g[i][j]) == DayNumber(s) + 7 * i + j
  {
    GridAt(GridStart(month), i, j);
    AddDaysNumber(GridStart(month), 7 * i + j);
  }

  /** Every day of the month has its cell: day `d` sits at position
      `weekday(first) + d - 1`, which is inside the six rows. */
  lemma GridCoversMonth(month: Date, d: int)
    requires Valid(month) && 1 <= d <= DaysInMonth(month.year, month.month)
    ensures var k := Weekday(StartOfMonth(month)) + d - 1;
            && 0 <= k < 42
            && Weeks(GridStart(month), 6)[k / 7][k % 7] == Date(month.year, month.month, d)
  {
    var e := Date(month.year, month.month, d);
    GridOpensOnSunday(month);
    DayNumberFromFirst(e);
    CellOf(GridStart(month), e, Weekday(StartOfMonth(month)) + d - 1);
  }

  /** The date `k` days after the grid's start sits in row `k / 7`, column `k % 7`. */
  lemma CellOf(s: Date, e: Date, k: int)
    requires Valid(s) && Valid(e) && 0 <= k < 42 && DayNumber(e) == DayNumber(s) + k
    ensures Weeks(s, 6)[k / 7][k % 7] == e
  {
    AddDaysUnique(s, k, e);
    assert 7 * (k / 7) + k % 7 == k;
    GridAt(s, k / 7, k % 7);
  }

  // ---------- choosing the month and the day ----------

  /** `sameDay`: the calendar fields agree. */
  predicate SameDay(a: Date, b: Date)
  {
    a.year == b.year && a.month == b.month && a.day == b.day
  }

  /** The cell drawn as selected is the one whose log the panel shows: two
      dates are the same day exactly when they share a key. */
  lemma SameDayIffKey(a: Date, b: Date)
    requires InRange(a) && InRange(b)
    ensures SameDay(a, b) <==> Ymd(a) == Ymd(b)
  {
    KeyLayout.YmdInjective(a, b);
  }

  /** The ← button: the first of the month before. */
  function PrevMonthOf(m: Date): (r: Date)
    requires Valid(m)
    ensures Valid(r) && r.day == 1
    ensures m.month == 0 ==> r.year == m.year - 1 && r.month == 11
    ensures m.month != 0 ==> r.year == m.year && r.month == m.month - 1
  {
    var r := AddMonths(m, -1);
    SameMonthIndex(r, if m.month == 0 then Date(m.year - 1, 11, 1) else Date(m.year, m.month - 1, 1));
    r
  }

  /** The → button: the first of the month after. */
  function NextMonthOf(m: Date): (r: Date)
    requires Valid(m)
    ensures Valid(r) && r.day == 1
    ensures m.month == 11 ==> r.year == m.year + 1 && r.month == 0
    ensures m.month != 11 ==> r.year == m.year && r.month == m.month + 1
  {
    var r := AddMonths(m, 1);
    SameMonthIndex(r, if m.month == 11 then Date(m.year + 1, 0, 1) else Date(m.year, m.month + 1, 1));
    r
  }

  /** The two buttons undo each other, landing on the first of the month. */
  lemma MonthButtonsUndo(m: Date)
    requires Valid(m)
    ensures PrevMonthOf(NextMonthOf(m)) == StartOfMonth(m)
    ensures NextMonthOf(PrevMonthOf(m)) == StartOfMonth(m)
  {
  }

  /** A month is named by `12 * year + month` alone. */
  lemma SameMonthIndex(a: Date, b: Date)
    requires 0 <= a.month < 12 && 0 <= b.month < 12
    requires a.year * 12 + a.month == b.year * 12 + b.month
    ensures a.year == b.year && a.month == b.month
  {
    assert a.year == (a.year * 12 + a.month) / 12 && b.year == (b.year * 12 + b.month) / 12;
  }

  // ---------- the month's totals ----------

  /** A per-day number added up over the first `n` days from `first`. */
  function Sum(score: Date -> nat, first: Date, n: nat): nat
    requires Valid(first)
  {
    if n == 0 then 0 else Sum(score, first, n - 1) + score(AddDays(first, n - 1))
  }

  /** What the body of the month loop adds for day `d`: the prayers marked in
      `store[ymd(d)]`, nothing when there is no log. */
  function DayScore(store: LogStore): Date -> nat
  {
    d => CompletedCount(store, d)
  }

  /** The prayers logged over the first `n` days from `first`. */
  function Logged(store: LogStore, first: Date, n: nat): nat
    requires Valid(first)
  {
    Sum(DayScore(store), first, n)
  }

  /** At most six prayers a day can be logged. */
  lemma LoggedBound(store: LogStore, first: Date, n: nat)
    requires Valid(first)
    ensures Logged(store, first, n) <= 6 * n
  {
    SumBound(DayScore(store), first, n);
  }

  lemma {:induction false} SumBound(score: Date -> nat, first: Date, n: nat)
    requires Valid(first)
    requires forall d :: score(d) <= 6
    ensures Sum(score, first, n) <= 6 * n
  {
    if n > 0 {
      SumBound(score, first, n - 1);
    }
  }

  /** `Math.round(total / max * 100)` for `0 <= total <= max`, `max > 0`: the
      percentage rounded to the nearest whole number, halves upward. */
  function Percent(total: nat, max: nat): (pct: nat)
    requires total <= max
    ensures max == 0 ==> pct == 0
  {
    if max != 0 then (200 * total + max) / (2 * max) else 0
  }

  /** `pct` is the nearest whole percentage: within half a percent of the
      exact ratio, and a tie goes up. */
  lemma PercentNearest(total: nat, max: nat)
    requires 0 < max && total <= max
    ensures var pct := Percent(total, max);
            && 2 * max * pct <= 200 * total + max < 2 * max * pct + 2 * max
            && pct <= 100
  {
    var n, m := 200 * total + max, 2 * max;
    var q := n / m;
    assert n == m * q + n % m;
    assert m * q <= n < m * 101;
    MulLess(m, q, 101);
  }

  lemma MulLess(a: int, b: int, c: int)
    requires 0 < a && a * b < a * c
    ensures b < c
  {
  }

  /** The last of the month is numbered its length less one after the first. */
  lemma MonthSpan(month: Date)
    requires Valid(month)
    ensures DayNumber(EndOfMonth(month)) - DayNumber(StartOfMonth(month)) + 1 == DaysInMonth(month.year, month.month)
  {
    DayNumberFromFirst(EndOfMonth(month));
  }

  /** One pass of the loop body and its update: the day is counted, its score
      added, and the date moved on by one. */
  method Step(score: Date -> nat, first: Date, last: Date, n: int, days: nat, total: nat, d: Date)
    returns (days': nat, total': nat, d': Date)
    requires Valid(first) && Valid(last) && n == DayNumber(last) - DayNumber(first) + 1
    requires d == AddDays(first, days) && total == Sum(score, first, days)
    ensures days' == days + 1 && d' == AddDays(first, days')
    ensures total' == Sum(score, first, days')
    ensures LocalMidnight(d') <= LocalMidnight(last) <==> days' < n
  {
    total' := total + score(d);
    days' := days + 1;
    NextCursor(first, last, days);
    d' := AddDays(d, 1);
  }

  /** The date after the walk's date `i` is its date `i + 1`, and it is not
      past `last` exactly when `i + 1` is below the number of days walked. */
  lemma NextCursor(first: Date, last: Date, i: int)
    requires Valid(first) && Valid(last)
    ensures AddDays(AddDays(first, i), 1) == AddDays(first, i + 1)
    ensures LocalMidnight(AddDays(first, i + 1)) <= LocalMidnight(last)
            <==> i + 1 < DayNumber(last) - DayNumber(first) + 1
  {
    AddDaysCompose(first, i, 1);
    Cursor(first, last, i + 1);
  }

  /** The walk's date `i` days after `first` is not past `last` exactly when
      `i` is below the number of days from `first` to `last`. */
  lemma Cursor(first: Date, last: Date, i: int)
    requires Valid(first) && Valid(last)
    ensures LocalMidnight(AddDays(first, i)) <= LocalMidnight(last)
            <==> i < DayNumber(last) - DayNumber(first) + 1
  {
    AddDaysNumber(first, i);
    MidnightOrder(AddDays(first, i), last);
  }

  /** Local midnights are in the order of their days. */
  lemma MidnightOrder(a: Date, b: Date)
    requires 0 <= a.month < 12 && 0 <= b.month < 12
    ensures LocalMidnight(a) <= LocalMidnight(b) <==> DayNumber(a) <= DayNumber(b)
  {
    var x, y := DayNumber(a) - UnixEpochDay, DayNumber(b) - UnixEpochDay;
    assert LocalMidnight(a) == x * 86_400_000 && LocalMidnight(b) == y * 86_400_000;
  }

  /** `MonthStats`: walks the dates of the month from the first while not past
      the last, counting every day and the prayers logged on it. */
  method MonthStats(store: LogStore, month: Date) returns (days: nat, total: nat, max: nat, pct: nat)
    requires Valid(month)
    ensures days == DaysInMonth(month.year, month.month)
    ensures total == Logged(store, StartOfMonth(month), days)
    ensures max == 6 * days && total <= max
    ensures pct == Percent(total, max) && pct <= 100
  {
    var first, last := StartOfMonth(month), EndOfMonth(month);
    MonthSpan(month);
    days, total := Walk(DayScore(store), first, last);
    LoggedBound(store, StartOfMonth(month), days);
    max, pct := Ratio(total, days);
  }

  /** The two lines after the loop: the most that could have been logged,
      and the share of it that was. */
  method Ratio(total: nat, days: nat) returns (max: nat, pct: nat)
    requires 0 < days && total <= 6 * days
    ensures max == 6 * days && pct == Percent(total, max) && pct <= 100
  {
    max := days * |Prayers|;
    pct := Percent(total, max);
    PercentNearest(total, max);
  }

  /** The `for` loop of `MonthStats`: from `first`, one day at a time while
      the date is not past `last`, counting the days and adding up `score`. */
  method Walk(score: Date -> nat, first: Date, last: Date) returns (days: nat, total: nat)
    requires Valid(first) && Valid(last) && DayNumber(first) <= DayNumber(last) + 1
    ensures days == DayNumber(last) - DayNumber(first) + 1
    ensures total == Sum(score, first, days)
  {
    var n := DayNumber(last) - DayNumber(first) + 1;
    days, total := 0, 0;
    var d := first;
    AddDaysZero(first);
    Cursor(first, last, 0);
    while LocalMidnight(d) <= LocalMidnight(last)
      invariant days <= n && d == AddDays(first, days)
      invariant LocalMidnight(d) <= LocalMidnight(last) <==> days < n
      invariant total == Sum(score, first, days)
      decreases n - days
    {
      days, total, d := Step(score, first, last, n, days, total, d);
    }
  }

}
