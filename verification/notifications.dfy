/** The daily review reminder (src/utils/notifications.ts). Time is an integer
    number of milliseconds; days are 24 hours long, time zones and daylight
    saving are not part of this model. The timer API is modelled by the effects
    a call asks for, and the module-level `notificationTimeoutId` by a
    parameter and a result. */
module Notifications {
  import opened Optional
  import opened Note

  const HourMs := 3600000
  const MinuteMs := 60000

  /** `NotificationTime`. */
  datatype NotificationTime = NotificationTime(hours: int, minutes: int)

  predicate ValidTime(t: NotificationTime) {
    0 <= t.hours < 24 && 0 <= t.minutes < 60
  }

  /** What `scheduleDailyNotification` and the timeout callback ask of the host. */
  datatype Effect =
    | ClearTimeout(id: int)
    | SetTimeout(id: int, delay: int)
    | ShowNotice(message: string)
    | ActivateChangedNotesView

  const ReminderText := "Time to review your notes!"

  /** The effects of a call, and the timeout id it leaves behind. */
  datatype Schedule = Schedule(effects: seq<Effect>, pending: Option<int>)

  function StartOfDay(now: int): (s: int)
    ensures s <= now < s + DayMs && s % DayMs == 0
  {
    now - now % DayMs
  }

  /** `moment().set({hour, minute, second: 0, millisecond: 0})`: today at the
      configured time. `moment` lets out-of-range fields overflow into
      neighbouring days, which plain arithmetic does as well. */
  function TodayAt(now: int, t: NotificationTime): int {
    StartOfDay(now) + t.hours * HourMs + t.minutes * MinuteMs
  }

  /** The next notification time: today's if it is not before `now`, else
      exactly one day later. */
  function NextNotificationTime(now: int, t: NotificationTime): (r: int)
    ensures TodayAt(now, t) < now ==> r == TodayAt(now, t) + DayMs
    ensures TodayAt(now, t) >= now ==> r == TodayAt(now, t)
  {
    var target := TodayAt(now, t);
    if target < now then target + DayMs else target
  }

  /** `nextNotificationTime.diff(now)`. For a valid time the delay is less
      than a day, never negative, and lands on the configured time of day. */
  function Delay(now: int, t: NotificationTime): (d: int)
    ensures ValidTime(t) ==> 0 <= d < DayMs
    ensures (now + d) % DayMs == (t.hours * HourMs + t.minutes * MinuteMs) % DayMs
  {
    var s := StartOfDay(now);
    var k := t.hours * HourMs + t.minutes * MinuteMs;
    var d := NextNotificationTime(now, t) - now;
    assert now + d == s + k || now + d == s + k + DayMs;
    DayShift(s / DayMs, k);
    d
  }

  lemma DayShift(q: int, k: int)
    ensures (q * DayMs + k) % DayMs == k % DayMs
    ensures (q * DayMs + k + DayMs) % DayMs == k % DayMs
  {
    assert q * DayMs + k + DayMs == (q + 1) * DayMs + k;
  }

  /** No earlier moment at or after `now` has the configured time of day: the
      delay is the least such wait. */
  lemma DelayIsLeast(now: int, t: NotificationTime, w: int)
    requires ValidTime(t) && 0 <= w
    requires (now + w) % DayMs == (t.hours * HourMs + t.minutes * MinuteMs) % DayMs
    ensures Delay(now, t) <= w
  {
    var d := Delay(now, t);
    if w < d {
      var a, b := now + w, now + d;
      assert a % DayMs == b % DayMs;
      assert 0 < b - a < DayMs;
      assert (b - a) % DayMs == 0 by { Congruent(a, b); }
    }
  }

  lemma Congruent(a: int, b: int)
    requires a % DayMs == b % DayMs
    ensures (b - a) % DayMs == 0
  {
    assert a == (a / DayMs) * DayMs + a % DayMs;
    assert b == (b / DayMs) * DayMs + b % DayMs;
    assert b - a == (b / DayMs - a / DayMs) * DayMs;
  }

  /** At the configured instant itself the target is not before `now`, so the
      delay is zero. */
  lemma DelayAtTarget(now: int, t: NotificationTime)
    requires now == TodayAt(now, t)
    ensures Delay(now, t) == 0
  {
  }

  /** `notificationTimeoutId` is read as a truth value; `0` counts as none. */
  predicate Pending(id: Option<int>) {
    id.Some? && id.value != 0
  }

  /** `scheduleDailyNotification(notificationTime)`: clears the pending
      timeout, if any, and sets a new one, whose id is `newId`, for the delay. */
  function ScheduleDailyNotification(pending: Option<int>, now: int, t: NotificationTime, newId: int): (r: Schedule)
    ensures Pending(pending) ==> r.effects == [ClearTimeout(pending.value), SetTimeout(newId, Delay(now, t))]
    ensures !Pending(pending) ==> r.effects == [SetTimeout(newId, Delay(now, t))]
    ensures r.pending == Some(newId)
  {
    var clear := if Pending(pending) then [ClearTimeout(pending.value)] else [];
    Schedule(clear + [SetTimeout(newId, Delay(now, t))], Some(newId))
  }

  /** Exactly one timeout is set, as the last effect, and any clear comes
      before it. */
  lemma ScheduleSetsOneTimeout(pending: Option<int>, now: int, t: NotificationTime, newId: int)
    ensures var e := ScheduleDailyNotification(pending, now, t, newId).effects;
      && |e| >= 1 && e[|e| - 1] == SetTimeout(newId, Delay(now, t))
      && (forall i :: 0 <= i < |e| - 1 ==> e[i].ClearTimeout?)
      && (forall i :: 0 <= i < |e| && e[i].SetTimeout? ==> i == |e| - 1)
  {
  }

  /** The timeout callback at time `now`: the notice and the view first, then
      the same time is scheduled again. The fired timeout's id is still the
      pending one, so it is cleared once more. */
  function Fire(pending: Option<int>, now: int, t: NotificationTime, newId: int): (r: Schedule)
    ensures |r.effects| >= 3
    ensures r.effects[..2] == [ShowNotice(ReminderText), ActivateChangedNotesView]
    ensures r.effects[2..] == ScheduleDailyNotification(pending, now, t, newId).effects
    ensures r.pending == Some(newId)
  {
    var next := ScheduleDailyNotification(pending, now, t, newId);
    var r := Schedule([ShowNotice(ReminderText), ActivateChangedNotesView] + next.effects, next.pending);
    assert r.effects[2..] == next.effects;
    r
  }
}
