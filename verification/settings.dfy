/** The Settings screen's reminder logic: the values it loads from and writes to
    storage, the custom Isha reminder, and the three actions that schedule
    reminders or export them. Each action's `setMsg` is the returned `msg`; `None`
    means the call threw before setting one. */
module Settings {
  import opened Wrappers
  import opened Text
  import Clock
  import opened Calendar
  import Prayer
  import Notify
  import Seqs
  import DateKey
  import KeyLayout

  const NotifyModeKey: string := "notifyMode"
  const OffsetKey: string := "reminderOffsetMin"
  /** The key older versions stored the offset under. */
  const LegacyOffsetKey: string := "reminderMinutesBefore"
  const IshaFixedKey: string := "ishaFixedTime"
  const EnabledKey: string := "remindersEnabled"

  const InAppMode: string := "in-app"
  const CalendarMode: string := "calendar"
  const DefaultOffset: int := 20
  const DefaultIshaTime: string := "22:00"
  const CustomTitle: string := "Isha Reminder (custom time)"

  const SwitchToInApp: string := "Switch to \"In-app\" mode to schedule local notifications."
  const NoPermission: string := "Notification permission not granted."
  const NeedLocation: string := "Location permission required."
  const ScheduledToday: string := "Scheduled in-app reminders for today."
  const SwitchToCalendar: string := "Switch to \"Calendar (.ics)\" mode to export."
  const BuildingWeek: string := "Building 7\U{2011}day calendar\U{2026}"
  const DownloadedWeek: string := "Downloaded .ics for next 7 days."

  // ---------- stored preferences ----------

  /** The reminder preferences the screen keeps in its state. The offset is a
      JavaScript number: `Some(n)`, or `None` for the `NaN` that a non-numeric
      entry in the offset field leaves there. */
  datatype ReminderPrefs = ReminderPrefs(notifyMode: string, offsetMin: Option<int>, enabled: bool, ishaTime: string)

  /** The offset's raw text: `getItem(new) ?? getItem(legacy) ?? '20'`. Only an
      absent key falls through; a stored empty string does not. */
  function RawOffset(store: Prayer.Store): string
  {
    if OffsetKey in store then store[OffsetKey]
    else if LegacyOffsetKey in store then store[LegacyOffsetKey]
    else "20"
  }

  /** The initial offset: the raw text read by `parseInt(raw, 10)`, at least 1,
      and 20 when that is not a number. */
  function InitialOffset(store: Prayer.Store): (n: int)
    ensures n >= 1
    ensures OffsetKey !in store && LegacyOffsetKey !in store ==> n == DefaultOffset
    ensures OffsetKey in store ==>
              n == (match ParseInt(store[OffsetKey]) case None => DefaultOffset case Some(v) => Clock.Max(1, v))
    ensures OffsetKey !in store && LegacyOffsetKey in store ==>
              n == (match ParseInt(store[LegacyOffsetKey]) case None => DefaultOffset case Some(v) => Clock.Max(1, v))
  {
    ParseSmall(20);
    match ParseInt(RawOffset(store))
    case None => DefaultOffset
    case Some(v) => Clock.Max(1, v)
  }

  /** The screen's initial state. The mode and the Isha time use `||`, so an
      empty stored string also falls back; the toggle is on only for "1". */
  function LoadPrefs(store: Prayer.Store): (p: ReminderPrefs)
    ensures p.notifyMode == Prayer.StoredOr(store, NotifyModeKey, CalendarMode)
    ensures p.offsetMin == Some(InitialOffset(store))
    ensures p.enabled <==> EnabledKey in store && store[EnabledKey] == "1"
    ensures p.ishaTime == Prayer.StoredOr(store, IshaFixedKey, DefaultIshaTime)
    ensures p.notifyMode != "" && p.ishaTime != "" && p.offsetMin.Some? && p.offsetMin.value >= 1
  {
    ReminderPrefs(
      Prayer.StoredOr(store, NotifyModeKey, CalendarMode),
      Some(InitialOffset(store)),
      EnabledKey in store && store[EnabledKey] == "1",
      Prayer.StoredOr(store, IshaFixedKey, DefaultIshaTime))
  }

  /** `String(Math.max(1, offset))`: the digits of at least 1, or "NaN". */
  function OffsetText(offset: Option<int>): (t: string)
    ensures offset.Some? ==> AllDigits(t) && ParseInt(t) == Some(Clock.Max(1, offset.value))
    ensures offset.None? ==> t == "NaN" && ParseInt(t).None?
  {
    match offset
    case Some(n) => ParseIntRoundTrip(Clock.Max(1, n)); IntToString(Clock.Max(1, n))
    case None => NaNText(); "NaN"
  }

  lemma NaNText()
    ensures ParseInt("NaN").None?
  {
    assert TrimStart("NaN") == "NaN";
    assert Unsigned("NaN") == "NaN";
    assert DigitPrefix("NaN") == [];
  }

  /** The three effects that write state back: the mode, `String(max(1, offset))`
      and the Isha time. The toggle is not written here. */
  function PersistPrefs(store: Prayer.Store, p: ReminderPrefs): (r: Prayer.Store)
    ensures r.Keys == store.Keys + {NotifyModeKey, OffsetKey, IshaFixedKey}
    ensures r[NotifyModeKey] == p.notifyMode && r[IshaFixedKey] == p.ishaTime
    ensures p.offsetMin.Some? ==> AllDigits(r[OffsetKey]) && ParseInt(r[OffsetKey]) == Some(Clock.Max(1, p.offsetMin.value))
    ensures p.offsetMin.None? ==> r[OffsetKey] == "NaN"
    ensures forall k :: k in store && k != NotifyModeKey && k != OffsetKey && k != IshaFixedKey
                        ==> r[k] == store[k]
  {
    store[NotifyModeKey := p.notifyMode][OffsetKey := OffsetText(p.offsetMin)][IshaFixedKey := p.ishaTime]
  }

  /** `enableNotifications`: the answer becomes the permission state and is
      stored as "1" or "0"; the toggle is switched on when granted and otherwise
      left as it was. */
  method EnableNotifications(store: Prayer.Store, enabled: bool, available: bool, answer: Notify.Permission)
    returns (store': Prayer.Store, enabled': bool, notifState: Notify.Permission)
    ensures notifState == Notify.RequestPermission(available, answer)
    ensures store' == store[EnabledKey := if notifState == Notify.Granted then "1" else "0"]
    ensures enabled' <==> enabled || notifState == Notify.Granted
  {
    notifState := Notify.RequestPermission(available, answer);
    store' := store[EnabledKey := if notifState == Notify.Granted then "1" else "0"];
    enabled' := if notifState == Notify.Granted then true else enabled;
  }

  /** The offset field's `onChange`: `max(1, parseInt(value || '1', 10))`, with
      `None` for the `NaN` a non-numeric entry gives. */
  function OnOffsetInput(value: string): (r: Option<int>)
    ensures value == "" ==> r == Some(1)
    ensures r.Some? ==> r.value >= 1
    ensures value != "" ==> (r.None? <==> ParseInt(value).None?)
    ensures value != "" && r.Some? ==> r.value == Clock.Max(1, ParseInt(value).value)
  {
    ParseSmall(1);
    match ParseInt(if value == "" then "1" else value)
    case None => None
    case Some(v) => Some(Clock.Max(1, v))
  }

  /** The literals the screen falls back to read as themselves. */
  lemma ParseSmall(n: nat)
    requires n == 1 || n == 20
    ensures n == 1 ==> ParseInt("1") == Some(1)
    ensures n == 20 ==> ParseInt("20") == Some(20)
  {
    ParseIntRoundTrip(n);
    if n == 20 {
      assert NatToString(2) == "2";
      assert IntToString(20) == "20";
    } else {
      assert IntToString(1) == "1";
    }
  }

  // ---------- the calculation selects ----------

  /** The options of the three selects, in the order they are listed. */
  const MethodOptions: seq<string> := ["MuslimWorldLeague", "UmmAlQura", "Egyptian", "Karachi", "Dubai", "Qatar",
                                       "Kuwait", "MoonsightingCommittee", "NorthAmerica", "Singapore", "Tehran", "Turkey"]
  const MadhabOptions: seq<string> := ["Shafi", "Hanafi"]
  const HighLatOptions: seq<string> := ["MiddleOfTheNight", "SeventhOfTheNight", "TwilightAngle"]

  /** Which select changed. */
  datatype Field = MethodField | MadhabField | HighLatField

  /** `update(k, v)`: the settings with field `k` set to `v`, and the store
      after `saveSettings` writes them. */
  function Update(store: Prayer.Store, s: Prayer.PrayerSettings, k: Field, v: string)
    : (r: (Prayer.PrayerSettings, Prayer.Store))
    ensures k == MethodField ==> r.0.calcMethod == v && r.0.madhab == s.madhab && r.0.highLatRule == s.highLatRule
    ensures k == MadhabField ==> r.0.madhab == v && r.0.calcMethod == s.calcMethod && r.0.highLatRule == s.highLatRule
    ensures k == HighLatField ==> r.0.highLatRule == v && r.0.calcMethod == s.calcMethod && r.0.madhab == s.madhab
    ensures r.1 == Prayer.SaveSettings(store, r.0)
  {
    var n := match k
      case MethodField => s.(calcMethod := v)
      case MadhabField => s.(madhab := v)
      case HighLatField => s.(highLatRule := v);
    (n, Prayer.SaveSettings(store, n))
  }

  /** Every method the select offers is a preset the library knows, in the
      order of the presets; every madhab and high-latitude option selects the
      rule it names. */
  lemma OptionsKnown()
    ensures |MethodOptions| == |Prayer.Methods|
    ensures forall i :: 0 <= i < |MethodOptions| ==> MethodOptions[i] == Prayer.MethodKey(Prayer.Methods[i])
    ensures forall i :: 0 <= i < |MethodOptions| ==> Prayer.MethodParams(MethodOptions[i]) == Some(Prayer.Methods[i])
    ensures forall i :: 0 <= i < |MadhabOptions| ==> Prayer.MadhabKey(Prayer.MapMadhab(MadhabOptions[i])) == MadhabOptions[i]
    ensures forall i :: 0 <= i < |HighLatOptions| ==> Prayer.HighLatKey(Prayer.MapHighLat(HighLatOptions[i])) == HighLatOptions[i]
  {
    forall i | 0 <= i < |MethodOptions|
      ensures Prayer.MethodParams(MethodOptions[i]) == Some(Prayer.Methods[i])
    {
      assert MethodOptions[i] == Prayer.MethodKey(Prayer.Methods[i]);
      Prayer.MethodKeyRoundTrip(Prayer.Methods[i]);
    }
  }

  /** The options of the select for `k`. */
  function OptionsOf(k: Field): seq<string>
  {
    match k
    case MethodField => MethodOptions
    case MadhabField => MadhabOptions
    case HighLatField => HighLatOptions
  }

  /** No option is the empty string, and the methods offered are known presets. */
  lemma OfferedKnown(k: Field, i: nat)
    requires i < |OptionsOf(k)|
    ensures OptionsOf(k)[i] != ""
    ensures k == MethodField ==> Prayer.MethodParams(OptionsOf(k)[i]).Some?
  {
    match k
    case MethodField =>
      var m := Prayer.Methods[i];
      OptionsKnown();
      assert OptionsOf(k)[i] == Prayer.MethodKey(m) && Prayer.MethodParams(Prayer.MethodKey(m)) == Some(m);
      KeyNonEmpty(m);
    case MadhabField =>
      assert |OptionsOf(k)[i]| > 0;
    case HighLatField =>
      assert |OptionsOf(k)[i]| > 0;
  }

  lemma KeyNonEmpty(m: Prayer.Method)
    ensures Prayer.MethodKey(m) != ""
  {
    assert |Prayer.MethodKey(m)| >= 5;
  }

  /** A choice from a select is what the screen reads back on its next visit,
      and settings whose method came from the select always reach the library. */
  lemma UpdateReloads(store: Prayer.Store, s: Prayer.PrayerSettings, m: nat, k: Field, i: nat,
                      solar: Prayer.Solar, c: Prayer.Coordinates, day: Date)
    requires m < |MethodOptions| && s.calcMethod == MethodOptions[m] && s.madhab != "" && s.highLatRule != ""
    requires i < |OptionsOf(k)|
    ensures var r := Update(store, s, k, OptionsOf(k)[i]);
            Prayer.LoadSettings(r.1) == r.0 && Prayer.ComputePrayerTimes(solar, c, day, r.0).Some?
  {
    var r := Update(store, s, k, OptionsOf(k)[i]);
    OfferedKnown(k, i);
    OfferedKnown(MethodField, m);
    Prayer.LoadAfterSave(store, r.0);
  }

  // ---------- the reminder list ----------

  /** The six items pushed for one day, one per instant. */
  function SixItems(pt: Prayer.PrayerTimes): (r: seq<Notify.Sched>)
    ensures |r| == 6
    ensures forall i :: 0 <= i < 6 ==>
              r[i] == Notify.Sched(Prayer.Titles[i], Clock.At(Prayer.TimeOf(pt, Prayer.Order[i])))
  {
    [Notify.Sched("Fajr", Clock.At(pt.fajr)), Notify.Sched("Sunrise", Clock.At(pt.sunrise)),
     Notify.Sched("Dhuhr", Clock.At(pt.dhuhr)), Notify.Sched("Asr", Clock.At(pt.asr)),
     Notify.Sched("Maghrib", Clock.At(pt.maghrib)), Notify.Sched("Isha", Clock.At(pt.isha))]
  }

  /** `hhmm.split(':').map(Number)` then `setHours(h ?? 23, m ?? 59, 0, 0)` on
      `day`. The first field always exists, so the 23 is never used; a missing
      second field gives minute 59; a field that is not a number makes the
      `Date` invalid. */
  function CustomTime(hhmm: string, day: Date): (r: Clock.Moment)
    requires Valid(day)
    ensures r.At? <==> NumberOf(Split(hhmm, ':')[0]).Some?
                       && (|Split(hhmm, ':')| == 1 || NumberOf(Split(hhmm, ':')[1]).Some?)
  {
    var parts := Split(hhmm, ':');
    var h := NumberOf(parts[0]);
    var m := if |parts| >= 2 then NumberOf(parts[1]) else Some(59);
    if h.Some? && m.Some? then Clock.At(AtClock(day, h.value, m.value)) else Clock.Invalid
  }

  /** `makeIshaFixedReminder`: exactly one item, at the custom time today. */
  function IshaFixedReminder(hhmm: string, today: Date): (r: seq<Notify.Sched>)
    requires Valid(today)
    ensures |r| == 1 && r[0].title == CustomTitle && r[0].when == CustomTime(hhmm, today)
  {
    [Notify.Sched(CustomTitle, CustomTime(hhmm, today))]
  }

  /** What `scheduleToday` hands to the scheduler: the six instants, then the
      custom Isha reminder, which is included even for an empty time. */
  function TodayItems(pt: Prayer.PrayerTimes, ishaTime: string, today: Date): (r: seq<Notify.Sched>)
    requires Valid(today)
    ensures |r| == 7
    ensures forall i :: 0 <= i < 6 ==> r[i] == SixItems(pt)[i]
    ensures r[6] == Notify.Sched(CustomTitle, CustomTime(ishaTime, today))
  {
    SixItems(pt) + IshaFixedReminder(ishaTime, today)
  }

  /** How many items `exportIcs` pushes per day. */
  function PerDay(ishaTime: string): (k: nat)
    ensures k == 6 || k == 7
    ensures k == 7 <==> ishaTime != ""
  {
    if ishaTime == "" then 6 else 7
  }

  /** The items `exportIcs` pushes for one day: the six instants, and the
      custom reminder only when a time is set. */
  function DayItems(pt: Prayer.PrayerTimes, day: Date, ishaTime: string): (r: seq<Notify.Sched>)
    requires Valid(day)
    ensures |r| == PerDay(ishaTime)
    ensures forall i :: 0 <= i < 6 ==> r[i] == SixItems(pt)[i]
    ensures ishaTime != "" ==> r[6] == Notify.Sched(CustomTitle, CustomTime(ishaTime, day))
  {
    SixItems(pt) + (if ishaTime != "" then IshaFixedReminder(ishaTime, day) else [])
  }

  /** The items `exportIcs` pushes for day `d`: `base` moved on by `d` days,
      with the library's times under the parameters `p`. */
  function ItemsOfDay(solar: Prayer.Solar, p: Prayer.CalculationParameters, c: Prayer.Coordinates,
                      ishaTime: string, base: Date, d: int): (r: seq<Notify.Sched>)
    requires Valid(base)
    ensures |r| == PerDay(ishaTime)
  {
    var day := AddDays(base, d);
    DayItems(solar(c, day, p), day, ishaTime)
  }

  /** One block per day, for the first `n` days from `base`. */
  function DayBlocks(solar: Prayer.Solar, p: Prayer.CalculationParameters, c: Prayer.Coordinates,
                     ishaTime: string, base: Date, n: nat): (r: seq<seq<Notify.Sched>>)
    requires Valid(base)
    ensures |r| == n
    ensures forall d :: 0 <= d < n ==> r[d] == ItemsOfDay(solar, p, c, ishaTime, base, d)
  {
    if n == 0 then []
    else DayBlocks(solar, p, c, ishaTime, base, n - 1) + [ItemsOfDay(solar, p, c, ishaTime, base, n - 1)]
  }

  /** Every day of the export contributes `PerDay` items. */
  lemma ExportLength(solar: Prayer.Solar, p: Prayer.CalculationParameters, c: Prayer.Coordinates,
                     ishaTime: string, base: Date, n: nat)
    requires Valid(base)
    ensures |Seqs.Flatten(DayBlocks(solar, p, c, ishaTime, base, n))| == n * PerDay(ishaTime)
  {
    var blocks := DayBlocks(solar, p, c, ishaTime, base, n);
    Seqs.FlattenLength(blocks, PerDay(ishaTime));
  }

  /** The export is grouped by day in ascending order: the `d`-th block of
      `PerDay` items is exactly the items of `base` moved on by `d` days. */
  lemma ExportGrouped(solar: Prayer.Solar, p: Prayer.CalculationParameters, c: Prayer.Coordinates,
                      ishaTime: string, base: Date, n: nat, d: nat, k: nat)
    requires Valid(base) && d < n
    requires k == PerDay(ishaTime)
    ensures (d + 1) * k <= |Seqs.Flatten(DayBlocks(solar, p, c, ishaTime, base, n))|
    ensures Seqs.Flatten(DayBlocks(solar, p, c, ishaTime, base, n))[d * k..(d + 1) * k]
            == ItemsOfDay(solar, p, c, ishaTime, base, d)
  {
    var blocks := DayBlocks(solar, p, c, ishaTime, base, n);
    Seqs.FlattenBlock(blocks, k, d);
  }

  // ---------- the actions ----------

  /** `scheduleToday`, with the location lookup's answer `loc`, the settings
      `computePrayerTimes` loads, and the clock (`now`, on the local date `today`)
      as parameters. The guards are checked in order: mode, permission,
      location. When they pass, the message claims success even if the
      scheduler itself returns early because the page may not notify. */
  method ScheduleToday(mode: string, enabled: bool, notifState: Notify.Permission,
                       loc: Option<Prayer.Coordinates>, solar: Prayer.Solar, settings: Prayer.PrayerSettings,
                       ishaTime: string, offsetMin: Option<int>,
                       support: Notify.NotificationSupport, pending: seq<Notify.Timer>,
                       now: int, today: Date)
    returns (msg: Option<string>, scheduled: seq<Notify.Timer>)
    requires Valid(today)
    requires LocalMidnight(today) <= now < LocalMidnight(today) + Clock.MsPerDay
    ensures mode != InAppMode ==> msg == Some(SwitchToInApp) && scheduled == pending
    ensures mode == InAppMode && !(enabled && notifState == Notify.Granted)
            ==> msg == Some(NoPermission) && scheduled == pending
    ensures mode == InAppMode && enabled && notifState == Notify.Granted && loc.None?
            ==> msg == Some(NeedLocation) && scheduled == pending
    ensures mode == InAppMode && enabled && notifState == Notify.Granted && loc.Some?
            && Prayer.MethodParams(settings.calcMethod).None?
            ==> msg.None? && scheduled == pending
    ensures mode == InAppMode && enabled && notifState == Notify.Granted && loc.Some?
            && Prayer.MethodParams(settings.calcMethod).Some?
            ==> msg == Some(ScheduledToday)
                && (!Notify.Allowed(support) ==> scheduled == pending)
                && (Notify.Allowed(support) ==>
                      var items := TodayItems(solar(loc.value, today, Prayer.ParamsFor(settings).value), ishaTime, today);
                      |scheduled| == 8
                      && (forall i :: 0 <= i < 7 ==> scheduled[i] == Notify.ReminderFor(items[i], offsetMin, now))
                      && scheduled[7].MidnightPurge?)
  {
    if mode != InAppMode {
      return Some(SwitchToInApp), pending;
    }
    if !enabled || notifState != Notify.Granted {
      return Some(NoPermission), pending;
    }
    if loc.None? {
      return Some(NeedLocation), pending;
    }
    var pt := Prayer.ComputePrayerTimes(solar, loc.value, today, settings);
    if pt.None? {
      return None, pending;
    }
    var items := TodayItems(pt.value, ishaTime, today);
    scheduled := Notify.ScheduleForToday(support, pending, items, offsetMin, now, today);
    msg := Some(ScheduledToday);
  }

  /** The loop of `exportIcs`: day `d` is `base` moved `d` days on with `setDate`. */
  method CollectItems(days: int, c: Prayer.Coordinates, solar: Prayer.Solar,
                      p: Prayer.CalculationParameters, ishaTime: string, base: Date)
    returns (items: seq<Notify.Sched>)
    requires Valid(base)
    ensures days <= 0 ==> items == []
    ensures days > 0 ==> items == Seqs.Flatten(DayBlocks(solar, p, c, ishaTime, base, days))
  {
    items := [];
    var d := 0;
    while d < days
      invariant 0 <= d && (d == 0 || d <= days)
      invariant items == Seqs.Flatten(DayBlocks(solar, p, c, ishaTime, base, d))
    {
      var block := ItemsOfDay(solar, p, c, ishaTime, base, d);
      Seqs.FlattenPush(DayBlocks(solar, p, c, ishaTime, base, d), block);
      items := items + block;
      d := d + 1;
    }
  }

  /** `exportIcs(days, label)`: the items of `days` consecutive days from `base`,
      grouped by day in ascending order. With an unknown method the first
      day's computation throws and nothing is exported. */
  method ExportIcs(days: int, period: string, loc: Option<Prayer.Coordinates>, solar: Prayer.Solar,
                   settings: Prayer.PrayerSettings, ishaTime: string, base: Date)
    returns (msg: Option<string>, items: seq<Notify.Sched>)
    requires Valid(base)
    ensures loc.None? ==> msg == Some(NeedLocation) && items == []
    ensures loc.Some? && days <= 0 ==> msg == Some("Downloaded .ics for " + period + ".") && items == []
    ensures loc.Some? && days > 0 && Prayer.MethodParams(settings.calcMethod).None? ==> msg.None? && items == []
    ensures loc.Some? && days > 0 && Prayer.MethodParams(settings.calcMethod).Some?
            ==> msg == Some("Downloaded .ics for " + period + ".")
                && items == Seqs.Flatten(DayBlocks(solar, Prayer.ParamsFor(settings).value, loc.value, ishaTime, base, days))
  {
    if loc.None? {
      return Some(NeedLocation), [];
    }
    // The method does not depend on the day: with an unknown one the first
    // day's computation is the one that throws.
    var p := Prayer.ParamsFor(settings);
    if p.None? {
      return (if days > 0 then None else Some("Downloaded .ics for " + period + ".")), [];
    }
    items := CollectItems(days, loc.value, solar, p.value, ishaTime, base);
    msg := Some("Downloaded .ics for " + period + ".");
  }

  /** The file name of the weekly export: `athan-7days-YYYYMMDD.ics`. */
  function WeekFileName(today: Date): string
  {
    "athan-7days-" + DateKey.Compact(today) + ".ics"
  }

  /** The loop of `exportNext7Days`: day `i` is `new Date(y, m, d + i)`. */
  method WeekTimes(c: Prayer.Coordinates, solar: Prayer.Solar, p: Prayer.CalculationParameters, today: Date)
    returns (week: seq<Prayer.PrayerTimes>)
    requires Valid(today)
    ensures |week| == 7
    ensures forall i :: 0 <= i < 7 ==> week[i] == solar(c, AddDays(today, i), p)
  {
    week := [];
    var i := 0;
    while i < 7
      invariant 0 <= i <= 7 && |week| == i
      invariant forall j :: 0 <= j < i ==> week[j] == solar(c, AddDays(today, j), p)
    {
      var d := MakeDate(today.year, today.month, today.day + i);
      assert d == AddDays(today, i);
      week := week + [solar(c, d, p)];
      i := i + 1;
    }
  }

  /** `exportNext7Days`: the prayer times of the seven dates from `today`, each
      built with `new Date(y, m, d + i)`. Outside calendar mode, or without a
      location, nothing is built; with an unknown method the computation throws
      after the progress message was shown. */
  method ExportNext7Days(mode: string, loc: Option<Prayer.Coordinates>, solar: Prayer.Solar,
                         settings: Prayer.PrayerSettings, today: Date)
    returns (msg: Option<string>, week: seq<Prayer.PrayerTimes>, fileName: string)
    requires Valid(today)
    ensures mode != CalendarMode ==> msg == Some(SwitchToCalendar) && week == [] && fileName == ""
    ensures mode == CalendarMode && loc.None? ==> msg == Some(NeedLocation) && week == [] && fileName == ""
    ensures mode == CalendarMode && loc.Some? && Prayer.MethodParams(settings.calcMethod).None?
            ==> msg == Some(BuildingWeek) && week == [] && fileName == ""
    ensures mode == CalendarMode && loc.Some? && Prayer.MethodParams(settings.calcMethod).Some?
            ==> msg == Some(DownloadedWeek) && fileName == WeekFileName(today) && |week| == 7
                && forall i :: 0 <= i < 7 ==> Prayer.ComputePrayerTimes(solar, loc.value, AddDays(today, i), settings) == Some(week[i])
  {
    if mode != CalendarMode {
      return Some(SwitchToCalendar), [], "";
    }
    if loc.None? {
      return Some(NeedLocation), [], "";
    }
    // The method does not depend on the day: with an unknown one the first
    // day's computation throws, after the progress message was set.
    var p := Prayer.ParamsFor(settings);
    if p.None? {
      return Some(BuildingWeek), [], "";
    }
    week := WeekTimes(loc.value, solar, p.value, today);
    fileName := "athan-7days-" + DateKey.Compact(today) + ".ics";
    msg := Some(DownloadedWeek);
  }

  // ---------- lemmas ----------

  /** What the screen writes back is what it reads on the next visit: the
      offset as `max(1, offset)`, or 20 after a `NaN` offset was written as
      "NaN", the mode and the Isha time unless empty, and the toggle untouched. */
  lemma PrefsRoundTrip(store: Prayer.Store, p: ReminderPrefs)
    ensures var q := LoadPrefs(PersistPrefs(store, p));
      && (p.offsetMin.Some? ==> q.offsetMin == Some(Clock.Max(1, p.offsetMin.value)))
      && (p.offsetMin.None? ==> q.offsetMin == Some(DefaultOffset))
      && (p.notifyMode != "" ==> q.notifyMode == p.notifyMode)
      && (p.ishaTime != "" ==> q.ishaTime == p.ishaTime)
      && q.enabled == LoadPrefs(store).enabled
  {
    var r := PersistPrefs(store, p);
    assert RawOffset(r) == r[OffsetKey];
  }

  /** ".5", which a number field accepts, has no leading digit: the offset
      becomes `NaN`, is written as "NaN", and reads back as 20 next time. */
  lemma FractionEntryIsNaN(store: Prayer.Store, p: ReminderPrefs)
    requires p.offsetMin == OnOffsetInput(".5")
    ensures p.offsetMin.None?
    ensures PersistPrefs(store, p)[OffsetKey] == "NaN"
    ensures LoadPrefs(PersistPrefs(store, p)).offsetMin == Some(DefaultOffset)
  {
    assert TrimStart(".5") == ".5";
    assert Unsigned(".5") == ".5";
    assert DigitPrefix(".5") == [];
    PrefsRoundTrip(store, p);
  }

  /** A whole number typed into the offset field is taken as itself, raised to 1. */
  lemma OffsetInputOfNumber(n: int)
    ensures OnOffsetInput(IntToString(n)) == Some(Clock.Max(1, n))
  {
    ParseIntRoundTrip(n);
  }

  /** An `HH:MM` value with digit fields sets exactly that hour and minute on the day. */
  lemma CustomTimeOfFields(hh: string, mm: string, day: Date)
    requires Valid(day) && hh != [] && mm != [] && AllDigits(hh) && AllDigits(mm)
    ensures CustomTime(hh + ":" + mm, day) == Clock.At(AtClock(day, DigitsValue(hh), DigitsValue(mm)))
  {
    assert ':' !in hh;
    assert ':' !in mm;
    SplitTwo(hh, mm, ':');
  }

  /** The default `22:00` is ten in the evening. */
  lemma DefaultIshaTimeIsTenPm(day: Date)
    requires Valid(day)
    ensures CustomTime(DefaultIshaTime, day) == Clock.At(LocalMidnight(day) + 22 * Clock.MsPerHour)
  {
    assert DefaultIshaTime == "22" + ":" + "00";
    assert DigitsValue("22") == 22 && DigitsValue("00") == 0;
    CustomTimeOfFields("22", "00", day);
  }

  /** Without a colon the minute defaults to 59; the hour never defaults, so an
      empty time is 00:59 rather than 23:59. */
  lemma CustomTimeWithoutColon(hh: string, day: Date)
    requires Valid(day) && ':' !in hh
    ensures hh == "" ==> CustomTime(hh, day) == Clock.At(AtClock(day, 0, 59))
    ensures hh != [] && AllDigits(hh) ==> CustomTime(hh, day) == Clock.At(AtClock(day, DigitsValue(hh), 59))
  {
  }

  /** The weekly file name tells the export's first day apart: distinct dates
      give distinct names. */
  lemma WeekFileNameInjective(a: Date, b: Date)
    requires DateKey.InRange(a) && DateKey.InRange(b)
    ensures a != b ==> WeekFileName(a) != WeekFileName(b)
  {
    if WeekFileName(a) == WeekFileName(b) {
      Framed("athan-7days-", DateKey.Compact(a), ".ics");
      Framed("athan-7days-", DateKey.Compact(b), ".ics");
      KeyLayout.CompactInjective(a, b);
    }
  }

  lemma Framed(pre: string, x: string, suf: string)
    ensures |pre + x + suf| == |pre| + |x| + |suf|
    ensures (pre + x + suf)[|pre|..|pre| + |x|] == x
  {
  }
}
