/** The in-page reminder timers. The module-level `scheduled` array of
    `setTimeout` handles is modelled by what each pending timer will do and after
    how many milliseconds; the functions return the new list instead of
    mutating a global. */
module Notify {
  import opened Wrappers
  import Clock
  import Calendar

  datatype Permission = Default | Denied | Granted

  /** Whether the page has a `Notification` object, and its `permission`. */
  datatype NotificationSupport = NotificationSupport(available: bool, permission: Permission)

  predicate Allowed(s: NotificationSupport) { s.available && s.permission == Granted }

  /** A pending `setTimeout`: a notification titled `title` showing `body`, or the
      purge at midnight. */
  datatype Timer = Reminder(title: string, body: string, delay: int) | MidnightPurge(delay: int)

  /** The title every reminder notification carries. */
  const ReminderTitle: string := "Prayer Reminder"

  /** An item to remind about: a title and the `Date` of the prayer. */
  datatype Sched = Sched(title: string, when: Clock.Moment)

  /** The value `minutesBefore` takes when the caller leaves it out. An offset
      is `Some(n)` for a number and `None` for `NaN`. */
  const DefaultMinutesBefore: Option<int> := Some(0)

  /** `requestNotificationPermission`: "denied" without a `Notification` object,
      otherwise whatever the user answers. */
  function RequestPermission(available: bool, answer: Permission): (r: Permission)
    ensures !available ==> r == Denied
    ensures available ==> r == answer
  {
    if available then answer else Denied
  }

  /** `showNow`: the notification shown, as (title, body), or `None` when the page
      may not show one. */
  function ShowNow(s: NotificationSupport, title: string, body: string): (r: Option<(string, string)>)
    ensures r.Some? <==> Allowed(s)
    ensures r.Some? ==> r.value == (title, body)
  {
    if s.available && s.permission == Granted then Some((title, body)) else None
  }

  /** `clearScheduled`: every pending timer is cancelled and the list emptied. */
  function ClearScheduled(pending: seq<Timer>): (r: seq<Timer>)
    ensures |r| == 0
  {
    []
  }

  /** The instant a reminder fires: `minutesBefore` minutes ahead of the prayer.
      An invalid `Date` stays invalid, and a `NaN` offset makes the instant
      `NaN` as well. */
  function FireAt(when: Clock.Moment, minutesBefore: Option<int>): (r: Clock.Moment)
    ensures r.At? <==> when.At? && minutesBefore.Some?
    ensures r.At? ==> when.ms - r.ms == minutesBefore.value * Clock.MsPerMinute
    ensures minutesBefore == DefaultMinutesBefore ==> r == when
  {
    match (when, minutesBefore)
    case (At(t), Some(m)) => Clock.At(t - m * 60_000)
    case _ => Clock.Invalid
  }

  /** `Math.max(0, when - now)`: the timer's delay. For an invalid `Date` the
      difference is `NaN`, which `setTimeout` treats as 0. */
  function Delay(fire: Clock.Moment, now: int): (d: int)
    ensures d >= 0
    ensures fire.At? ==> now + d == Clock.Max(now, fire.ms)
    ensures fire.At? && fire.ms <= now ==> d == 0
  {
    match fire
    case At(t) => Clock.Max(0, t - now)
    case Invalid => 0
  }

  /** The timer pushed for one item. */
  function ReminderFor(item: Sched, minutesBefore: Option<int>, now: int): Timer
  {
    Reminder(ReminderTitle, item.title + " is now.", Delay(FireAt(item.when, minutesBefore), now))
  }

  /** `scheduleForToday` with the clock made explicit: `now` is `Date.now()` and
      `today` the local date it falls on. Without a granted permission nothing
      changes; otherwise the old timers are cleared and one timer per item is
      pushed, in order, followed by the purge one second after the next midnight. */
  method ScheduleForToday(support: NotificationSupport, pending: seq<Timer>, items: seq<Sched>,
                          minutesBefore: Option<int>, now: int, today: Calendar.Date)
    returns (scheduled: seq<Timer>)
    requires Calendar.Valid(today)
    requires Calendar.LocalMidnight(today) <= now < Calendar.LocalMidnight(today) + Clock.MsPerDay
    ensures !Allowed(support) ==> scheduled == pending
    ensures Allowed(support) ==> |scheduled| == |items| + 1
    ensures Allowed(support) ==> forall i :: 0 <= i < |items| ==>
              scheduled[i].Reminder? && scheduled[i].title == ReminderTitle
              && scheduled[i].body == items[i].title + " is now."
              && scheduled[i].delay == Delay(FireAt(items[i].when, minutesBefore), now)
    ensures Allowed(support) ==> scheduled[|items|].MidnightPurge?
    ensures Allowed(support) ==>
              now + scheduled[|items|].delay == Calendar.LocalMidnight(Calendar.AddDays(today, 1)) + Clock.MsPerSecond
    ensures Allowed(support) ==> Clock.MsPerSecond < scheduled[|items|].delay <= Clock.MsPerDay + Clock.MsPerSecond
  {
    if !(support.available && support.permission == Granted) {
      return pending;
    }
    scheduled := ClearScheduled(pending);
    var i := 0;
    while i < |items|
      invariant 0 <= i <= |items| && |scheduled| == i
      invariant forall j :: 0 <= j < i ==> scheduled[j] == ReminderFor(items[j], minutesBefore, now)
    {
      scheduled := scheduled + [ReminderFor(items[i], minutesBefore, now)];
      i := i + 1;
    }
    var midnight := Calendar.AtClock(today, 24, 0);
    Calendar.NextMidnight(today);
    scheduled := scheduled + [MidnightPurge(midnight - now + 1000)];
  }

  /** With a `NaN` offset every reminder's delay is `NaN`, which `setTimeout`
      runs at once: all reminders fire as soon as they are scheduled. */
  lemma NaNOffsetFiresAtOnce(item: Sched, now: int)
    ensures ReminderFor(item, None, now).delay == 0
  {
  }
}
