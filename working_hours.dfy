/** The working-hours deadline calculator of the manager dashboard: time is
    counted only inside the daily 09:00-18:00 window, in local time.

    Timestamps are epoch milliseconds. Local time is a fixed UTC+8 offset
    (China Standard Time, which has no daylight saving), so the time of day
    of `t` is `(t + UTC_OFFSET) mod DAY`. Weekends and holidays are not
    excluded, exactly as in the source. */
module WorkingHours {

  const HOUR: int := 3_600_000
  const DAY: int := 24 * HOUR
  const UTC_OFFSET: int := 8 * HOUR
  /** 09:00 and 18:00 as offsets into the local day. */
  const WORK_START: int := 9 * HOUR
  const WORK_END: int := 18 * HOUR
  /** The working time in one full day: 9 hours. */
  const WORKDAY: int := WORK_END - WORK_START

  /** Milliseconds since local midnight (`getHours` and below). */
  function TimeOfDay(t: int): (r: int)
    ensures 0 <= r < DAY
  {
    (t + UTC_OFFSET) % DAY
  }

  /** Local midnight of the day containing `t`. */
  function DayStart(t: int): int
  {
    t - TimeOfDay(t)
  }

  /** Going `x` into a day (or into the next one) lands at time of day `x`
      of that day: what `setHours` and `setDate(getDate() + 1)` compute. */
  lemma {:induction false} WithinDay(t: int, days: int, x: int)
    requires 0 <= x < DAY
    ensures TimeOfDay(DayStart(t) + days * DAY + x) == x
    ensures DayStart(DayStart(t) + days * DAY + x) == DayStart(t) + days * DAY
  {
    var q := (t + UTC_OFFSET) / DAY;
    assert DayStart(t) + days * DAY + x + UTC_OFFSET == (q + days) * DAY + x;
  }

  /** Inside the working window: from 09:00 up to, not including, 18:00. */
  predicate InWindow(t: int)
  {
    WORK_START <= TimeOfDay(t) < WORK_END
  }

  /** Lines 27-35 of the source: a start before 09:00 moves to 09:00 that day,
      one at or after 18:00 to 09:00 the next day. The result is the first
      working instant at or after `t`: it is in the window, never earlier than
      `t`, and no instant in between is a working instant. */
  function Normalize(t: int): (r: int)
    ensures InWindow(r) && r >= t
    ensures InWindow(t) ==> r == t
    ensures forall u :: t <= u < r ==> !InWindow(u)
  {
    WithinDay(t, 0, WORK_START);
    WithinDay(t, 1, WORK_START);
    var r := if TimeOfDay(t) < WORK_START then DayStart(t) + WORK_START
             else if TimeOfDay(t) >= WORK_END then DayStart(t) + DAY + WORK_START
             else t;
    forall u | t <= u < r ensures !InWindow(u) {
      if u < DayStart(t) + DAY {
        WithinDay(t, 0, u - DayStart(t));
      } else {
        WithinDay(t, 1, u - DayStart(t) - DAY);
      }
    }
    r
  }

  /** The loop of lines 37-53, from a pointer inside the window with
      `remaining` milliseconds still to place. The deadline never precedes the
      pointer and lies in [09:00, 18:00] of its day; it can be exactly 18:00,
      since the source accepts a day whose remainder equals what is needed. */
  function DeadlineFrom(current: int, remaining: int): (r: int)
    requires InWindow(current)
    ensures r >= current
    ensures WORK_START <= TimeOfDay(r) <= WORK_END
    decreases remaining
  {
    if remaining <= 0 then current
    else
      var timeLeftToday := DayStart(current) + WORK_END - current;
      if timeLeftToday >= remaining then
        WithinDay(current, 0, TimeOfDay(current) + remaining);
        current + remaining
      else
        WithinDay(current, 1, WORK_START);
        DeadlineFrom(DayStart(current) + DAY + WORK_START, remaining - timeLeftToday)
  }

  /** `getWorkingHoursDeadline(startTime, hoursNeeded)`. */
  function Deadline(startTime: int, hoursNeeded: int): int
  {
    DeadlineFrom(Normalize(startTime), hoursNeeded * HOUR)
  }

  /** The source's loop, with its `Date` pointer as an integer timestamp. */
  method WorkingHoursDeadline(startTime: int, hoursNeeded: int) returns (deadline: int)
    ensures deadline == Deadline(startTime, hoursNeeded)
    ensures deadline >= startTime
    ensures WORK_START <= TimeOfDay(deadline) <= WORK_END
  {
    var current := startTime;
    var remainingMs := hoursNeeded * HOUR;
    if TimeOfDay(current) < WORK_START {
      current := DayStart(current) + WORK_START;
    }
    if TimeOfDay(current) >= WORK_END {
      current := DayStart(current) + DAY + WORK_START;
    }
    assert current == Normalize(startTime);
    while remainingMs > 0
      invariant InWindow(current)
      invariant DeadlineFrom(current, remainingMs) == Deadline(startTime, hoursNeeded)
      decreases remainingMs
    {
      var todayEnd := DayStart(current) + WORK_END;
      var timeLeftToday := todayEnd - current;
      if timeLeftToday >= remainingMs {
        return current + remainingMs;
      } else {
        remainingMs := remainingMs - timeLeftToday;
        WithinDay(current, 1, WORK_START);
        current := DayStart(current) + DAY + WORK_START;
      }
    }
    deadline := current;
  }

  /** Zero hours needed gives the normalised start. */
  lemma DeadlineOfNothing(startTime: int)
    ensures Deadline(startTime, 0) == Normalize(startTime)
  {
  }

  /** An independent closed form: if the need fits before 18:00 of the first
      day it ends there; otherwise the first day's remainder is used up and
      `k` further full working days, and the rest is placed after 09:00 of the
      day after those. */
  function ClosedForm(current: int, remaining: int): int
    requires InWindow(current)
  {
    var timeLeftToday := DayStart(current) + WORK_END - current;
    if remaining <= timeLeftToday then current + (if remaining <= 0 then 0 else remaining)
    else
      var rest := remaining - timeLeftToday;
      var k := (rest - 1) / WORKDAY;
      DayStart(current) + (k + 1) * DAY + WORK_START + (rest - k * WORKDAY)
  }

  lemma {:induction false} DeadlineFromIsClosedForm(current: int, remaining: int)
    requires InWindow(current)
    ensures DeadlineFrom(current, remaining) == ClosedForm(current, remaining)
    decreases remaining
  {
    var timeLeftToday := DayStart(current) + WORK_END - current;
    if remaining > timeLeftToday {
      var next := DayStart(current) + DAY + WORK_START;
      var rest := remaining - timeLeftToday;
      WithinDay(current, 1, WORK_START);
      DeadlineFromIsClosedForm(next, rest);
      NextDayClosedForm(current, rest);
    }
  }

  /** One step of the closed form: from 09:00 of the next day, `rest`
      milliseconds end where the carry-over formula of the first day says. */
  lemma NextDayClosedForm(current: int, rest: int)
    requires InWindow(current) && rest > 0
    ensures InWindow(DayStart(current) + DAY + WORK_START)
    ensures var next := DayStart(current) + DAY + WORK_START;
            var k := (rest - 1) / WORKDAY;
            ClosedForm(next, rest) == DayStart(current) + (k + 1) * DAY + WORK_START + (rest - k * WORKDAY)
  {
    var next := DayStart(current) + DAY + WORK_START;
    WithinDay(current, 1, WORK_START);
    assert DayStart(next) == DayStart(current) + DAY;
    var k := (rest - 1) / WORKDAY;
    if rest > WORKDAY {
      var k' := (rest - WORKDAY - 1) / WORKDAY;
      assert k' == k - 1;
      assert (k' + 1) * DAY == k * DAY;
    } else {
      assert k == 0;
    }
  }

  /** More hours never give an earlier deadline. */
  lemma {:induction false} DeadlineFromMonotone(current: int, a: int, b: int)
    requires InWindow(current)
    requires a <= b
    ensures DeadlineFrom(current, a) <= DeadlineFrom(current, b)
    decreases b
  {
    var timeLeftToday := DayStart(current) + WORK_END - current;
    if a > 0 && timeLeftToday < a {
      WithinDay(current, 1, WORK_START);
      DeadlineFromMonotone(DayStart(current) + DAY + WORK_START, a - timeLeftToday, b - timeLeftToday);
    } else if a > 0 && timeLeftToday < b {
      WithinDay(current, 1, WORK_START);
      assert DeadlineFrom(current, a) <= DayStart(current) + WORK_END;
    }
  }

  lemma DeadlineMonotone(startTime: int, h1: int, h2: int)
    requires h1 <= h2
    ensures Deadline(startTime, h1) <= Deadline(startTime, h2)
  {
    DeadlineFromMonotone(Normalize(startTime), h1 * HOUR, h2 * HOUR);
  }

  /** The same-day case and the carry-over case of the loop, stated on the
      normalised start. */
  lemma DeadlineCases(startTime: int, hoursNeeded: int)
    requires hoursNeeded > 0
    ensures var n := Normalize(startTime);
            var timeLeftToday := DayStart(n) + WORK_END - n;
            (hoursNeeded * HOUR <= timeLeftToday ==> Deadline(startTime, hoursNeeded) == n + hoursNeeded * HOUR) &&
            (hoursNeeded * HOUR > timeLeftToday ==>
               InWindow(DayStart(n) + DAY + WORK_START) &&
               Deadline(startTime, hoursNeeded) ==
                 DeadlineFrom(DayStart(n) + DAY + WORK_START, hoursNeeded * HOUR - timeLeftToday) &&
               Deadline(startTime, hoursNeeded) > DayStart(n) + DAY)
  {
    WithinDay(Normalize(startTime), 1, WORK_START);
  }

  /** 2024-01-01 00:00 local time, a Monday. */
  const MONDAY: int := 1_704_038_400_000

  lemma MondayExamples()
    ensures Deadline(MONDAY + 10 * HOUR, 4) == MONDAY + 14 * HOUR
    ensures Deadline(MONDAY + 16 * HOUR, 4) == MONDAY + DAY + 11 * HOUR
    ensures Deadline(MONDAY + 20 * HOUR, 4) == MONDAY + DAY + 13 * HOUR
  {
    assert DayStart(MONDAY + 16 * HOUR) == MONDAY;
    assert DayStart(MONDAY + 20 * HOUR) == MONDAY;
    assert TimeOfDay(MONDAY + DAY + 9 * HOUR) == WORK_START;
    assert DayStart(MONDAY + DAY + 9 * HOUR) == MONDAY + DAY;
    assert DeadlineFrom(MONDAY + DAY + 9 * HOUR, 2 * HOUR) == MONDAY + DAY + 11 * HOUR;
    assert DeadlineFrom(MONDAY + 16 * HOUR, 4 * HOUR) == MONDAY + DAY + 11 * HOUR;
  }
}
