# athan-pwa, modelled in Dafny

athan-pwa is a small offline web application for Muslim prayer. It shows the day's six prayer instants and a countdown to the next one, schedules reminder notifications, exports reminders to a calendar file, keeps a prayer log on a monthly heat-map calendar, lists the prayer times of a whole month, and reads the Quran with bookmarks.

This project models the logic behind those screens as immutable datatypes and pure functions. Instants are integer milliseconds; civil dates are Gregorian `(year, month, day)` with a 0-based month, as JavaScript's `Date` reports them. Browser storage is a `map<string, string>`, and the pending timers are a list of `Timer` values. Clock readings, the location lookup, the user's permission answer and the astronomy library's computation are all explicit parameters.

Modules, one per file:

- `Wrappers`: `Option`.
- `Clock`: millisecond constants, `Moment` (a valid time value or an invalid `Date`), `Math.max` and `Math.min`.
- `Text`: `toString`, `padStart`, `parseInt`, `Number` and `split`, written over strings.
- `Calendar`: the normalisation `new Date(y, m, d)` performs, day numbers and weekdays, and the tracker's month helpers.
- `DateKey` and `KeyLayout`: the `YYYY-MM-DD` log key and the `YYYYMMDD` file-name date, and why distinct dates get distinct texts.
- `Seqs`: concatenation of blocks and an order-preserving filter.
- `Prayer` (`src/lib/prayer.ts`): settings, parameter mapping and `nextPrayer`.
- `Notify` (`src/lib/notify.ts`): permission, `showNow` and the timer list.
- `Settings` (`src/features/Settings.tsx`): stored preferences, the calculation selects, the reminder lists, and the schedule and export actions.
- `SalahTracker` (`src/features/SalahTracker.tsx`): the per-day log, the 6×7 month grid and the month's totals.
- `PrayerMonth` (`src/features/PrayerMonth.tsx`): the monthly table, month navigation and the year selector.
- `Quran` (`src/features/Quran.tsx`): clamping, font size, bookmark keys, the bookmark set and the bookmarked-only view.
- `Countdown` (`src/features/Home.tsx`, `src/features/PrayerTimes.tsx`): the `hh:mm:ss` countdown.
- `PrayerTimesView` (`src/features/PrayerTimes.tsx`): the six-row table, the "Next:" line and the per-second tick.

Where the design description and the code differ, the model follows the code:

- Stored settings are cast to their key types without any check. An unknown stored method makes `methodParams` fall out of its `switch`, and the next line throws. The model returns `None` there rather than normalising to a default.
- The madhab keys are `Shafi` and `Hanafi`, not `Standard` and `Hanafi`.
- `scheduleForToday` subtracts the reminder offset from every item, including the custom-time Isha entry, so that entry does not fire at the literal clock time.
- `scheduleToday` always appends the custom Isha entry, even for an empty time. `exportIcs` appends it only when the time is non-empty.
- `makeIshaFixedReminder`'s `h ?? 23` never applies, because `split` always yields a first field. An empty time is hour `Number('') = 0` with the default minute 59, i.e. 00:59 (`Settings.CustomTimeWithoutColon`).
- Coordinates are not validated anywhere in the code.

## Model

| member | source | states |
|---|---|---|
| Prayer.StoredOr | src/lib/prayer.ts:32-34 | `getItem(key) \|\| fallback`: the stored string when present and non-empty, the fallback when absent or empty |
| Prayer.LoadSettings | src/lib/prayer.ts:17-36 | each field is its stored value or, independently, its default (MuslimWorldLeague, Shafi, MiddleOfTheNight); no loaded field is empty |
| Prayer.SaveSettings | src/lib/prayer.ts:38-42 | exactly the keys `method`, `madhab`, `highLatRule` are written, with the three values; every other key is unchanged |
| Prayer.LoadAfterSave | src/lib/prayer.ts:30-42 | loading after saving returns the saved settings if and only if no field is empty |
| Prayer.MethodParams | src/lib/prayer.ts:45-60 | a found preset is the one whose key is the string; an unknown string yields `None` (the `switch` falls through) |
| Prayer.MethodKeyRoundTrip | src/lib/prayer.ts:45-60 | every one of the twelve preset keys selects its own preset |
| Prayer.MethodKeyInjective | src/lib/prayer.ts:5-7 | distinct presets have distinct keys |
| Prayer.FindMethodReaches | src/lib/prayer.ts:46-58 | the `switch` stops at the first case whose key matches |
| Prayer.MapMadhab | src/lib/prayer.ts:62-64 | Hanafi exactly for the key `Hanafi`, Shafi for every other string |
| Prayer.MapHighLat | src/lib/prayer.ts:66-72 | SeventhOfTheNight and TwilightAngle exactly for their keys, MiddleOfTheNight otherwise |
| Prayer.RuleKeysRoundTrip | src/lib/prayer.ts:62-72 | each madhab and high-latitude key maps back to the rule it names |
| Prayer.ParamsFor | src/lib/prayer.ts:80-82 | parameters exist exactly when the method is known; they carry that preset, Hanafi iff the key is `Hanafi`, and the mapped high-latitude rule |
| Prayer.ComputePrayerTimes | src/lib/prayer.ts:75-84 | the library's result for the built parameters when the method is known, `None` (the thrown error) otherwise |
| Prayer.LoadedSettingsCompute | src/lib/prayer.ts:30-36 | settings loaded from a store whose method is absent, empty or a known key always reach the library |
| Prayer.FirstAfter | src/lib/prayer.ts:91-94 | the scan finds the first position whose instant is strictly after now, all earlier ones being at or before now; `None` when all have passed |
| Prayer.NextPrayer | src/lib/prayer.ts:86-97 | the name is one of the six keys; it is the first of fajr…isha strictly after now with that key and time; when all have passed, `fajr` at fajr + 86,400,000 |
| Prayer.NextPrayerAtInstant | src/lib/prayer.ts:93 | at a prayer's exact instant that prayer is skipped (strict `<`): the next one, or tomorrow's Fajr after Isha |
| Prayer.NextPrayerIsEarliestAhead | src/lib/prayer.ts:90-94 | on an ordered day before Isha the result is strictly ahead, no later than any instant still ahead, and the prayer before it has begun |
| Prayer.FirstAfterFinds | src/lib/prayer.ts:91-94 | before Isha the scan always finds a prayer |
| Prayer.NextPrayerAfterIsha | src/lib/prayer.ts:95-96 | from Isha on the result is `fajr` + 24 h, which is still ahead while less than a day has passed since Fajr |
| Prayer.NextPrayerMonotone | src/lib/prayer.ts:86-97 | on an ordered day the announced instant never moves backwards as now advances |
| Prayer.InOrder | src/lib/prayer.ts:90 | each of the six prayers has its position in the scan order |
| Prayer.OrderedMonotone | src/lib/prayer.ts:90 | on an ordered day the instants rise along the scan order |
| Notify.RequestPermission | src/lib/notify.ts:2-5 | `denied` without a `Notification` object, otherwise the user's answer |
| Notify.ShowNow | src/lib/notify.ts:6-9 | a notification with the given title and body exactly when supported and granted |
| Notify.ClearScheduled | src/lib/notify.ts:12 | no timer is pending afterwards |
| Notify.FireAt | src/lib/notify.ts:13-18 | the fire instant is `when − minutesBefore·60,000`; it is invalid exactly when the date is invalid or the offset is `NaN`; with the default offset 0 it is `when` |
| Notify.NaNOffsetFiresAtOnce | src/lib/notify.ts:18-20 | with a `NaN` offset every reminder's delay is 0, so all reminders fire at once |
| Notify.Delay | src/lib/notify.ts:19 | the delay is `max(0, fire − now)`: never negative, 0 for a past instant |
| Notify.ScheduleForToday | src/lib/notify.ts:13-24 | unsupported or not granted: the list is unchanged; otherwise it is cleared and holds exactly one reminder per item, in order and with each item's title and delay, then a purge firing one second after the next local midnight |
| Settings.InitialOffset | src/features/Settings.tsx:30-35 | new key, else legacy key, else `20`, read by `parseInt`; a non-number gives 20, otherwise `max(1, n)`, so always ≥ 1 |
| Settings.LoadPrefs | src/features/Settings.tsx:29-37 | the mode defaults to `calendar` and the Isha time to `22:00` (also for an empty string); reminders are enabled iff the stored flag is `1` |
| Settings.OffsetText | src/features/Settings.tsx:48 | `String(Math.max(1, offset))` is the digits of `max(1, n)`, reading back as that number, or `NaN` for a `NaN` offset, which does not parse |
| Settings.PersistPrefs | src/features/Settings.tsx:47-49 | the mode, `String(max(1, offset))` ("NaN" for a `NaN` offset) and the Isha time are written, and nothing else changes |
| Settings.PrefsRoundTrip | src/features/Settings.tsx:29-49 | the next visit reads back `max(1, offset)`, or 20 after a `NaN` offset, and the mode and the Isha time whenever they are non-empty; the enabled flag is untouched |
| Settings.EnableNotifications | src/features/Settings.tsx:51-56 | the answer becomes the permission state and is stored as `1`/`0`; reminders become enabled when granted and otherwise keep their value |
| Settings.Update | src/features/Settings.tsx:41-44 | the chosen field takes the new value, the other two are kept, and the store is exactly what `saveSettings` makes of the new settings: the three keys take their values and every other key is unchanged |
| Settings.OptionsKnown | src/features/Settings.tsx:15-17 | the twelve method options are the presets' keys in `switch` order, each selecting its preset; the madhab and high-latitude options map back to themselves |
| Settings.OfferedKnown | src/features/Settings.tsx:15-17 | no option is empty, and every method option is a known preset |
| Settings.UpdateReloads | src/features/Settings.tsx:41-44 | after choosing any option, loading the settings returns them, and they always reach the library |
| Settings.OnOffsetInput | src/features/Settings.tsx:182 | an empty field becomes 1; a number n becomes `max(1, n)`; a non-number gives no value (`NaN`) |
| Settings.FractionEntryIsNaN | src/features/Settings.tsx:182 | the entry `.5` makes the offset `NaN`, which is written as "NaN" and read back as 20 on the next visit |
| Settings.OffsetInputOfNumber | src/features/Settings.tsx:182 | a typed integer n is taken as `max(1, n)` |
| Settings.CustomTime | src/features/Settings.tsx:60-63 | the time is valid iff the hour field and any minute field parse as numbers |
| Settings.CustomTimeOfFields | src/features/Settings.tsx:60-63 | `HH:MM` with digit fields sets exactly that hour and minute on the day, seconds and milliseconds zero |
| Settings.CustomTimeWithoutColon | src/features/Settings.tsx:61-63 | without a colon the minute defaults to 59 and the hour is `Number(text)`, so an empty time is 00:59 |
| Settings.DefaultIshaTimeIsTenPm | src/features/Settings.tsx:37 | the default `22:00` is local midnight plus 22 hours |
| Settings.IshaFixedReminder | src/features/Settings.tsx:60-65 | exactly one entry, titled `Isha Reminder (custom time)`, at the custom time |
| Settings.SixItems | src/features/Settings.tsx:72-78 | six entries: Fajr, Sunrise, Dhuhr, Asr, Maghrib, Isha in that order, each at its instant |
| Settings.TodayItems | src/features/Settings.tsx:72-80 | exactly seven entries: the six prayers in order, then the custom Isha entry last |
| Settings.ScheduleToday | src/features/Settings.tsx:67-83 | guards are checked in order (mode, permission, location) and the first failure sets its message and schedules nothing; an unknown method throws; otherwise eight timers (seven items plus the purge), each built from its item with the offset |
| Settings.PerDay | src/features/Settings.tsx:92-104 | 7 entries per day when an Isha time is set, 6 otherwise |
| Settings.DayItems | src/features/Settings.tsx:92-104 | one day's entries: the six prayers, then the custom entry only when the time is non-empty |
| Settings.DayBlocks | src/features/Settings.tsx:89-105 | exactly one block per day, block d being the entries of `base` + d days |
| Settings.ExportLength | src/features/Settings.tsx:89-105 | `days` days produce `days·6` or `days·7` entries |
| Settings.ExportGrouped | src/features/Settings.tsx:89-105 | the d-th run of per-day entries is exactly day d's entries: grouped per day, in ascending day order |
| Settings.CollectItems | src/features/Settings.tsx:89-105 | the loop's list is the concatenation of the day blocks, and empty for `days ≤ 0` |
| Settings.ExportIcs | src/features/Settings.tsx:85-109 | no location: the message only; an unknown method throws on the first day; otherwise the day-grouped entries and the download message |
| Settings.WeekTimes | src/features/Settings.tsx:118-122 | seven records, the i-th computed for today + i days |
| Settings.ExportNext7Days | src/features/Settings.tsx:111-135 | wrong mode or no location: the message only; unknown method: the progress message stays; otherwise seven days of times for today + 0…6 and the file name `athan-7days-YYYYMMDD.ics` |
| Settings.WeekFileNameInjective | src/features/Settings.tsx:129-130 | distinct start dates give distinct file names |
| Text.NatToString | src/features/SalahTracker.tsx:15 | `toString` of a natural number is its decimal digits, with one digit exactly below 10 |
| Text.IntToString | src/features/Quran.tsx:10 | `toString` of an integer is digits with a leading minus exactly for negatives |
| Text.PadStart | src/features/SalahTracker.tsx:15 | `padStart` gives length `max(|s|, width)`: fill characters in front of an unchanged `s`, never truncating |
| Text.ParseInt | src/features/Settings.tsx:33 | `parseInt` gives no number exactly when no digit follows the white space and sign |
| Text.ParseIntRoundTrip | src/features/Settings.tsx:48 | `parseInt` reads back every integer that `String`/`toString` writes |
| Text.ParseIntAnyRadix | src/features/Quran.tsx:30 | `parseInt` without a radix reads as base 10 unless the text starts with `0x` |
| Text.NumberOf | src/features/Settings.tsx:61 | `Number` of a blank string is 0 and of a digit string its value |
| Text.Split | src/features/Settings.tsx:61 | `split` yields at least one field, and exactly one iff the separator is absent |
| Text.SplitJoin | src/features/Settings.tsx:61 | rejoining the fields with the separator gives the text back |
| Text.SplitTwo | src/features/Settings.tsx:61 | two separator-free fields joined by the separator split back into those fields |
| Text.IntToStringInjective | src/features/Quran.tsx:10 | distinct integers have distinct decimal texts |
| Text.Pad2Width | src/features/SalahTracker.tsx:15 | `pad2` of 0…99 is exactly two characters |
| Text.Pad2Value | src/features/SalahTracker.tsx:15 | `pad2` of n ≥ 0 is all digits and reads back as n |
| Text.Pad2Injective | src/features/SalahTracker.tsx:15 | distinct non-negative numbers pad to distinct texts |
| Calendar.DaysInMonth | src/features/PrayerMonth.tsx:14 | 28 to 31 days, 29 exactly for February of a leap year |
| Calendar.NextMonth | src/features/PrayerMonth.tsx:24 | the month after, carried into the next year after month 11 |
| Calendar.PrevMonth | src/features/PrayerMonth.tsx:23 | the month before, carried into the previous year before month 0 |
| Calendar.MakeDate | src/features/PrayerMonth.tsx:16 | `new Date(y, m, d)` always yields a valid date |
| Calendar.MakeDateDayNumber | src/features/SalahTracker.tsx:27 | `new Date(y, m, d)` is day d − 1 counted from the first of the normalised month, for any `m` and `d` |
| Calendar.Weekday | src/features/SalahTracker.tsx:26 | `getDay()` lies in 0…6 |
| Calendar.WeekdayStep | src/features/SalahTracker.tsx:34 | the next day falls on the next weekday |
| Calendar.UnixEpoch | src/features/Settings.tsx:119 | time value 0 is local midnight of 1 January 1970, a Thursday |
| Calendar.StartOfMonth | src/features/SalahTracker.tsx:17 | `startOfMonth` is day 1 of the same year and month |
| Calendar.EndOfMonth | src/features/SalahTracker.tsx:18 | `endOfMonth` is the month's last day, leap years included |
| Calendar.AddMonths | src/features/SalahTracker.tsx:19 | `addMonths` is day 1 of the month `delta` months on, carrying across years |
| Calendar.AddDays | src/features/Settings.tsx:90 | `setDate(getDate() + k)` yields a valid date |
| Calendar.AddDaysNumber | src/features/Settings.tsx:90 | moving on k days moves the day number on by k |
| Calendar.AddDaysUnique | src/features/SalahTracker.tsx:34 | the date k days on is the only valid date with that day number |
| Calendar.AddDaysCompose | src/features/SalahTracker.tsx:34 | moving a days then b days is moving a + b days |
| Calendar.DayNumberInjective | src/features/SalahTracker.tsx:221 | distinct valid dates have distinct day numbers |
| Calendar.NextMidnight | src/lib/notify.ts:22 | the next day's local midnight is exactly one day after this day's |
| Calendar.NextMonthStart | src/features/PrayerMonth.tsx:14 | the first of the next month is `DaysInMonth` days after the first of this one |
| KeyLayout.YmdLayout | src/features/SalahTracker.tsx:16 | the key is `YYYY-MM-DD`: ten characters, dashes at 4 and 7, the year reading back, then the padded 1-based month and the padded day |
| KeyLayout.YmdInjective | src/features/SalahTracker.tsx:16 | distinct dates get distinct keys |
| KeyLayout.CompactLength | src/features/Settings.tsx:129 | the compact date is eight characters: year, padded month, padded day |
| KeyLayout.CompactInjective | src/features/Settings.tsx:129 | distinct dates get distinct compact forms |
| SalahTracker.Count | src/features/SalahTracker.tsx:86 | the count over a prayer list is at most the list's length |
| SalahTracker.CountSix | src/features/SalahTracker.tsx:86 | the loop over `PRAYERS` counts each of the six marks once |
| SalahTracker.LogAt | src/features/SalahTracker.tsx:79 | `store[selKey] \|\| {}`: the stored log, or the empty log for a missing key |
| SalahTracker.CountAt | src/features/SalahTracker.tsx:81-88 | the count is in 0…6, and 0 for a day never logged |
| SalahTracker.CompletedCount | src/features/SalahTracker.tsx:81-88 | `completedCount(d)` is at most 6 |
| SalahTracker.SelectedScore | src/features/SalahTracker.tsx:130 | `selectedScore` is at most 6 |
| SalahTracker.ScoreIsCount | src/features/SalahTracker.tsx:78-88 | the selected day's score equals the heat map's count for its key |
| SalahTracker.CountExtremes | src/features/SalahTracker.tsx:81-88 | the count is 6 iff all six prayers are marked, and 0 iff none is |
| SalahTracker.Toggle | src/features/SalahTracker.tsx:90-98 | the chosen prayer's mark on the selected day flips (`undefined` becomes true), the day's other marks and all other days are unchanged |
| SalahTracker.MarkAll | src/features/SalahTracker.tsx:99-107 | all six marks of the selected day become `val`; other days are unchanged |
| SalahTracker.AllMarked | src/features/SalahTracker.tsx:102-103 | every prayer is present in the built log, set to `val` |
| SalahTracker.ToggleCount | src/features/SalahTracker.tsx:90-98 | a toggle moves the day's count by exactly one: up if unmarked, down if marked |
| SalahTracker.FlipCount | src/features/SalahTracker.tsx:94 | flipping one mark moves the count over `PRAYERS` by one |
| SalahTracker.FlipIn | src/features/SalahTracker.tsx:86 | over a list naming the prayer once, flipping it moves the count by one |
| SalahTracker.CountElsewhere | src/features/SalahTracker.tsx:86 | setting a prayer the list does not name leaves the count alone |
| SalahTracker.ToggleTwice | src/features/SalahTracker.tsx:90-98 | toggling twice restores every mark of the day and its count |
| SalahTracker.MarkAllCount | src/features/SalahTracker.tsx:81-107 | after `markAll(true)` the count is 6, after `markAll(false)` it is 0 |
| SalahTracker.EditsStayOnTheDay | src/features/SalahTracker.tsx:90-107 | toggling or marking the selected day leaves every other date's count unchanged |
| SalahTracker.OtherKeys | src/features/SalahTracker.tsx:92-95 | both edits leave the count under every other key unchanged |
| SalahTracker.SameDayIffKey | src/features/SalahTracker.tsx:20 | `sameDay` holds exactly when the two dates share a log key |
| SalahTracker.PrevMonthOf | src/features/SalahTracker.tsx:109 | ← gives day 1 of the month before, from January to December of the year before |
| SalahTracker.NextMonthOf | src/features/SalahTracker.tsx:110 | → gives day 1 of the month after, from December to January of the year after |
| SalahTracker.MonthButtonsUndo | src/features/SalahTracker.tsx:109-110 | ← then →, or → then ←, lands on the first of the month |
| SalahTracker.Days | src/features/SalahTracker.tsx:32-35 | a row has the requested number of cells |
| SalahTracker.Weeks | src/features/SalahTracker.tsx:30-37 | the grid has the requested number of rows of seven cells |
| SalahTracker.GridAt | src/features/SalahTracker.tsx:28-37 | cell (i, j) of the six-row grid is the start moved on by 7i + j days |
| SalahTracker.MonthMatrix | src/features/SalahTracker.tsx:22-39 | returns the first and the last of the month, and the six weeks from the Sunday on or before the first |
| SalahTracker.FillWeeks | src/features/SalahTracker.tsx:29-37 | the outer loop yields six rows, each continuing from where the last ended |
| SalahTracker.WeekFrom | src/features/SalahTracker.tsx:31-35 | the inner loop yields seven consecutive days from the cursor, and the cursor ends seven days on |
| SalahTracker.GridOpensOnSunday | src/features/SalahTracker.tsx:24-27 | the first cell is a Sunday, 0…6 days before the first of the month |
| SalahTracker.GridConsecutive | src/features/SalahTracker.tsx:28-37 | reading row by row, cell (i, j) has the start's day number plus 7i + j |
| SalahTracker.GridCoversMonth | src/features/SalahTracker.tsx:22-37 | each day d of the month is the cell at position `weekday(first) + d − 1`, inside the 42 cells |
| SalahTracker.LoggedBound | src/features/SalahTracker.tsx:225 | the logged total over n days is at most 6n |
| SalahTracker.Percent | src/features/SalahTracker.tsx:228 | the percentage is 0 when the maximum is 0 |
| SalahTracker.PercentNearest | src/features/SalahTracker.tsx:228 | `pct` is the nearest whole percentage of `total/max`, halves rounding up, and at most 100 |
| SalahTracker.MidnightOrder | src/features/SalahTracker.tsx:221 | comparing two dates' `Date` values is comparing their day numbers |
| SalahTracker.MonthSpan | src/features/SalahTracker.tsx:218-219 | from `startOfMonth` to `endOfMonth` inclusive is exactly the month's day count |
| SalahTracker.Walk | src/features/SalahTracker.tsx:220-226 | the loop runs once per day from the first to the last inclusive and adds up each day's count |
| SalahTracker.Step | src/features/SalahTracker.tsx:221-225 | one pass counts the day, adds its score and moves the cursor on one day |
| SalahTracker.MonthStats | src/features/SalahTracker.tsx:217-228 | `days` is the month's length, `total` the sum of its days' counts, `max = 6·days`, `total ≤ max`, and `pct` the rounded percentage in 0…100 |
| SalahTracker.Ratio | src/features/SalahTracker.tsx:227-228 | `max = days·6` and `pct ≤ 100` |
| PrayerMonth.DayCount | src/features/PrayerMonth.tsx:14 | `new Date(year, month + 1, 0).getDate()` is the number of days in the month |
| PrayerMonth.DayOfMonth | src/features/PrayerMonth.tsx:16 | `new Date(year, month, d)` for d in the month is that very date |
| PrayerMonth.RowColumns | src/features/PrayerMonth.tsx:4 | a row has six cells, Fajr…Isha in order, each the formatted instant of that prayer |
| PrayerMonth.RowLabel | src/features/PrayerMonth.tsx:19 | a row's `String(d)` label reads back as d |
| PrayerMonth.Table | src/features/PrayerMonth.tsx:15-20 | n rows, row i being day i + 1's row |
| PrayerMonth.FillRows | src/features/PrayerMonth.tsx:14-20 | the loop over d = 1…count yields one row per day of the month, in day order |
| PrayerMonth.MonthRows | src/features/PrayerMonth.tsx:12-21 | no location or an unknown method: no rows; otherwise the month's table |
| PrayerMonth.RowLabelsAscending | src/features/PrayerMonth.tsx:15-19 | labels are distinct and row i reads back as i + 1 |
| PrayerMonth.Prev | src/features/PrayerMonth.tsx:23 | ◀ from month 0 goes to month 11 of the year before, otherwise to the previous month; the month stays in 0…11 |
| PrayerMonth.Next | src/features/PrayerMonth.tsx:24 | ▶ from month 11 goes to month 0 of the year after, otherwise to the next month; the month stays in 0…11 |
| PrayerMonth.PrevNextInverse | src/features/PrayerMonth.tsx:23-24 | ◀ undoes ▶ and ▶ undoes ◀ |
| PrayerMonth.NextSteps | src/features/PrayerMonth.tsx:24 | k presses of ▶ move exactly k months on across year ends, the month staying in 0…11 |
| PrayerMonth.YearOptions | src/features/PrayerMonth.tsx:34 | eleven options |
| PrayerMonth.YearOptionsRange | src/features/PrayerMonth.tsx:34 | a year is offered iff it is within five of the current one, in increasing order |
| PrayerMonth.YearSelectReadsBack | src/features/PrayerMonth.tsx:33 | choosing an offered year sets exactly that year, within five of the current one |
| Quran.Clamp | src/features/Quran.tsx:9 | the result is at most `max`, at least `min` when `min ≤ max`, and the identity inside the range |
| Quran.KeyForReadsBack | src/features/Quran.tsx:10 | `"s:a"` splits at its colon into the two numbers, which read back |
| Quran.KeyForInjective | src/features/Quran.tsx:10 | distinct (surah, ayah) pairs have distinct keys |
| Quran.InitialFontPct | src/features/Quran.tsx:28-32 | 100 when absent, empty or not a number, otherwise the `parseInt` value clamped to 80…180 |
| Quran.SaveFontPct | src/features/Quran.tsx:33 | `String(fontPct)` is written under the font key, reading back as the value; nothing else changes |
| Quran.FontPctRoundTrip | src/features/Quran.tsx:28-33 | a saved font percent in range is the one the reader starts with next time |
| Quran.FontDown | src/features/Quran.tsx:53 | − lowers the size by 10 and stays within 80…180 |
| Quran.FontUp | src/features/Quran.tsx:55 | + raises the size by 10 and stays within 80…180 |
| Quran.FontStepsUndo | src/features/Quran.tsx:53-55 | a step that was not cut off is undone by the opposite step |
| Quran.FromArray | src/features/Quran.tsx:12 | `new Set(array)` holds each key of the array once |
| Quran.LoadBookmarks | src/features/Quran.tsx:11-13 | the stored array as a set, or the empty set when it does not parse |
| Quran.BookmarksRoundTrip | src/features/Quran.tsx:11-14 | what `saveBookmarks` writes loads back as the same list |
| Quran.Remove | src/features/Quran.tsx:42 | `delete` removes the key and keeps all other keys |
| Quran.ToggleBookmark | src/features/Quran.tsx:39-44 | the ayah's key flips membership; every other key is unchanged; a list without repeats stays without repeats |
| Quran.ToggleTwice | src/features/Quran.tsx:39-44 | toggling twice gives the same set back, and the very same list if the key was absent |
| Quran.RemoveAbsent | src/features/Quran.tsx:39-44 | adding an absent key and then deleting it gives the list back |
| Quran.RemoveNothing | src/features/Quran.tsx:42 | deleting an absent key changes nothing |
| Quran.ToggleOtherAyah | src/features/Quran.tsx:38-44 | toggling one ayah leaves every other ayah's bookmark as it was |
| Quran.ClearBookmarks | src/features/Quran.tsx:45 | afterwards no ayah is bookmarked |
| Quran.BookmarkedOnly | src/features/Quran.tsx:105 | the filtered list is no longer than the surah's list |
| Quran.BookmarkedOnlyMembers | src/features/Quran.tsx:105 | the view holds exactly the bookmarked ayahs of the list |
| Quran.BookmarkedOnlyAppend | src/features/Quran.tsx:128 | the filter keeps order: filtering two pieces is filtering each |
| Quran.BookmarkedOnlyAll | src/features/Quran.tsx:148 | with every ayah bookmarked the view is the whole list |
| Quran.BookmarkedOnlyCleared | src/features/Quran.tsx:45 | after clearing, the bookmarked-only view is empty |
| Quran.Shown | src/features/Quran.tsx:105-148 | all ayahs when the filter is off, the bookmarked-only view when it is on |
| Seqs.FilterAppend | src/features/Quran.tsx:105 | `filter` distributes over concatenation |
| Seqs.FilterAll | src/features/Quran.tsx:105 | `filter` keeps a list whose every element passes |
| Seqs.FilterNone | src/features/Quran.tsx:105 | `filter` empties a list whose every element fails |
| Seqs.FilterMembers | src/features/Quran.tsx:105 | an element is kept iff it is in the list and passes the test |
| Seqs.FlattenLength | src/features/Settings.tsx:92-104 | blocks of k entries concatenate to k entries per block |
| Seqs.FlattenBlock | src/features/Settings.tsx:89-105 | block d sits at positions d·k to (d + 1)·k of the concatenation |
| Clock.Max | src/features/Home.tsx:47 | `Math.max` is one of its arguments and at least both |
| Clock.Min | src/features/Quran.tsx:9 | `Math.min` is one of its arguments and at most both |
| Countdown.Remaining | src/features/Home.tsx:47 | `max(0, target − now)`: 0 once the instant has come, the difference before |
| Countdown.Split3 | src/features/Home.tsx:48-50 | minutes and seconds lie in 0…59, and h·3,600,000 + m·60,000 + s·1,000 ≤ diff < that + 1,000 |
| Countdown.Split3Unique | src/features/Home.tsx:48-50 | the split is the only triple with minutes and seconds below 60 that covers the difference |
| Countdown.Format | src/features/Home.tsx:51-52 | the text has at least eight characters, exactly eight below 100 hours |
| Countdown.FormatZero | src/features/Home.tsx:51-52 | a difference of 0 renders `00:00:00` |
| Countdown.FormatReadsBack | src/features/Home.tsx:48-52 | below 100 hours the text splits at its colons into three fields that read back as h, m and s, which make up the whole seconds left |
| Countdown.FormatFields | src/features/PrayerTimes.tsx:22 | the text is the three padded fields joined by `:` |
| Countdown.WholeSeconds | src/features/PrayerTimes.tsx:21 | (h·60 + m)·60 + s is the number of whole seconds left |
| PrayerTimesView.TableRows | src/features/PrayerTimes.tsx:33-35 | six rows, fajr…isha in that order, each with its instant |
| PrayerTimesView.RowOfPrayer | src/features/PrayerTimes.tsx:33-35 | each prayer has exactly one row, showing its instant |
| PrayerTimesView.NextRow | src/features/PrayerTimes.tsx:17 | the "Next:" name is one of the rows; while a prayer is ahead its time is that row's, and after Isha it is the Fajr row plus one day |
| PrayerTimesView.Tick | src/features/PrayerTimes.tsx:19-23 | the per-second text has at least eight characters, exactly eight below 100 hours |
| PrayerTimesView.TickDue | src/features/PrayerTimes.tsx:20 | once the instant has come the text stays `00:00:00` |
| PrayerTimesView.TickReadsBack | src/features/PrayerTimes.tsx:19-23 | below 100 hours the three fields read back as h, m, s with m, s < 60, and they make up the whole seconds to the instant |

## Left out

- The solar computation inside the `adhan` library: twilight angles, the Asr shadow factor and the high-latitude correction. It is a function-valued parameter (`Prayer.Solar`), and the ordering of its six instants is an assumption (`Prayer.Ordered`) where a lemma needs it.
- Coordinates are `real` values passed through untouched: no validation, no `toFixed(3)` in the export file name.
- Local time is a fixed offset without daylight-saving changes: a day is always 86,400,000 ms from local midnight.
- `toLocaleTimeString`, `toLocaleString` and `toLocaleDateString` are not modelled. The month table takes the time format as a parameter (`PrayerMonth.TimeFormat`); `monthName` and the tracker's labels are left out.
- The iCalendar text and `downloadICS` (`src/lib/ics` is not part of this model). The model stops at the entry lists and the file name.
- `Notify.ScheduleForToday`: one clock reading `now` stands for the three readings of `scheduleForToday` (the `Date.now()` and `new Date()` on lines 16, 22 and 23). In the program the purge's delay uses the last one, a few milliseconds later.
- `setTimeout` and `clearTimeout` are not modelled. A timer is represented by its delay, and a fired notification by `Notify.ShowNow`'s result.
- React state, effects and re-rendering, the `busy` flag, and the initial `—:—:—` countdown text.
- The tracker's `loadStore`/`saveStore` JSON is not modelled; the log is held as a map.
- The bookmarks' `JSON.parse` is modelled by its outcome: an optional array, `None` when malformed.
- A parsed JSON value that is not an array is treated as malformed.
- The tracker's `heatClass` colour classes and `goToday` (a clock reading followed by `StartOfMonth`).
- The Quran view mode, the edition selector and the text fetch (`src/lib/quran.ts`), plus Qibla, the Hijri date and geolocation (`src/lib/location.ts`). Location is an `Option` parameter.
- `Text.NumberOf`: `Number()` of fractional, hexadecimal, exponent or `Infinity` text is treated as `NaN` rather than a value; only blank strings and optionally signed runs of decimal digits are read.
- `Text.ParseInt`: a digit run too large for a double (about 1.8·10^308 and up) gives `Infinity` in JavaScript, but the model keeps the exact integer. So `Settings.InitialOffset` and `Quran.InitialFontPct` read such a stored text as a huge number instead of falling back to 20 and 100. An offset entry of that size, which the program stores as "Infinity", is likewise a huge finite offset here.
- `Calendar.MakeDate`: the `Date` constructor's mapping of years 0–99 to 1900–1999 is not modelled.
- `SalahTracker.PercentNearest`: `Math.round((total / max) * 100)` is modelled by exact rational rounding, not floating point.
- `Quran.ToggleTwice`: when the key was present, only set equality is stated, because re-adding appends the key at the end.
- `Quran.BookmarksRoundTrip` is stated for a list without repeats, because a `Set` never holds one.
- `Settings.CustomTime`: the result is only classified as valid or invalid. The instant itself is given by `Settings.CustomTimeOfFields` and `Settings.CustomTimeWithoutColon`, which cover digit fields.
