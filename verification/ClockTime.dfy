/** Time-of-day arithmetic: arrival countdown, the Due window, overnight windows and the
    GTFS 29-hour clock.

    A datetime is an Instant, microseconds counted from one fixed midnight; a time is a
    TimeOfDay, microseconds into a day. */
module ClockTime {
  import opened Prelude

  const SECOND: int := 1_000_000
  const MINUTE: int := 60_000_000
  const HOUR: int := 3_600_000_000
  const HALF_DAY: int := 43_200_000_000
  const DAY: int := 86_400_000_000

  type Instant = int

  type TimeOfDay = t: int | 0 <= t < DAY

  /** datetime.time(). */
  function TimeOf(i: Instant): TimeOfDay {
    i % DAY
  }

  /** The midnight that starts the day of i: datetime.combine(i.date(), time()). */
  function MidnightOf(i: Instant): Instant {
    i - i % DAY
  }

  function HourOf(t: TimeOfDay): (h: int)
    ensures 0 <= h < 24 && h * HOUR <= t < (h + 1) * HOUR
  {
    t / HOUR
  }

  /** timedelta.total_seconds() / 60. */
  function ToMinutes(micros: int): real {
    (micros as real) / 60_000_000.0
  }

  function MinutesUntilArrival(arrival: TimeOfDay, now: Instant): real {
    var dtArrival := MidnightOf(now) + arrival;
    if HourOf(arrival) == 23 && HourOf(TimeOf(now)) == 0 then
      ToMinutes(dtArrival - now) - 1440.0
    else if HourOf(arrival) == 0 && HourOf(TimeOf(now)) == 23 then
      ToMinutes(dtArrival - now) + 1440.0
    else
      ToMinutes(dtArrival - now)
  }

  /** The day by which the countdown wraps: only between hour 23 and hour 0. */
  function Wrap(arrival: TimeOfDay, now: Instant): int {
    if HourOf(arrival) == 23 && HourOf(TimeOf(now)) == 0 then -DAY
    else if HourOf(arrival) == 0 && HourOf(TimeOf(now)) == 23 then DAY
    else 0
  }

  lemma CountdownInMicros(arrival: TimeOfDay, now: Instant)
    ensures MinutesUntilArrival(arrival, now) == ToMinutes(arrival - TimeOf(now) + Wrap(arrival, now))
  {
  }

  lemma ToMinutesInjective(x: int, y: int)
    ensures ToMinutes(x) == ToMinutes(y) <==> x == y
  {
  }

  predicate IsDueArrival(arrival: TimeOfDay, now: Instant) {
    -1.0 < MinutesUntilArrival(arrival, now) < 0.0
  }

  /** The delay is in whole seconds and may be negative or longer than a day. */
  function RealArrivalTime(scheduled: TimeOfDay, delayInSeconds: int, now: Instant): TimeOfDay {
    TimeOf(MidnightOf(now) + scheduled + delayInSeconds * SECOND)
  }

  /** How long ago, on a 24-hour circle, a service scheduled at that time with that delay arrived. */
  function SinceArrival(scheduled: TimeOfDay, delayInSeconds: int, now: Instant): TimeOfDay {
    TimeOf(now - scheduled - delayInSeconds * SECOND)
  }

  /** On the clock, the row is due when now follows it by less than a minute. */
  lemma DueOnClock(arrival: TimeOfDay, now: Instant)
    ensures IsDueArrival(arrival, now) <==> 0 < TimeOf(TimeOf(now) - arrival) < MINUTE
  {
    CountdownInMicros(arrival, now);
    hide TimeOf, MinutesUntilArrival;
    DueInMicros(arrival, TimeOf(now), Wrap(arrival, now));
  }

  lemma DueInMicros(arrival: TimeOfDay, n: TimeOfDay, wrap: int)
    requires wrap == if HourOf(arrival) == 23 && HourOf(n) == 0 then -DAY
                     else if HourOf(arrival) == 0 && HourOf(n) == 23 then DAY else 0
    ensures -1.0 < ToMinutes(arrival - n + wrap) < 0.0 <==> 0 < TimeOf(n - arrival) < MINUTE
  {
    assert -1.0 < ToMinutes(arrival - n + wrap) < 0.0 <==> 0 < n - arrival - wrap < MINUTE;
    hide ToMinutes;
  }

  /** Due is a circular window: strictly between 0 and 60 seconds after the delayed arrival,
      whatever the delay and on whichever side of midnight the three times fall. */
  lemma DueIsCircularWindow(scheduled: TimeOfDay, delayInSeconds: int, now: Instant)
    ensures IsDueArrival(RealArrivalTime(scheduled, delayInSeconds, now), now)
       <==> 0 < SinceArrival(scheduled, delayInSeconds, now) < MINUTE
  {
    var d := delayInSeconds * SECOND;
    TimeOfShift(scheduled + d, MidnightOf(now) / DAY);
    assert RealArrivalTime(scheduled, delayInSeconds, now) == TimeOf(scheduled + d);
    hide IsDueArrival, RealArrivalTime, TimeOf;
    DueOnClock(RealArrivalTime(scheduled, delayInSeconds, now), now);
    TimeOfDifference(now, scheduled + d);
  }

  lemma TimeOfShift(i: Instant, days: int)
    ensures TimeOf(i + days * DAY) == TimeOf(i)
  {
  }

  lemma TimeOfDifference(i: Instant, j: Instant)
    ensures TimeOf(i - j) == TimeOf(TimeOf(i) - TimeOf(j))
  {
  }

  /** a - b taken the short way round the clock. */
  function NearestDifference(a: int, b: int): (d: int)
    ensures -HALF_DAY <= d < HALF_DAY && TimeOf(d) == TimeOf(a - b)
  {
    TimeOf(a - b + HALF_DAY) - HALF_DAY
  }

  /** The countdown wraps only between hour 23 and hour 0, so it is the short way round
      exactly when that wrap fires or the two times are already within half a day. */
  lemma CountdownIsNearestIff(arrival: TimeOfDay, now: Instant)
    ensures MinutesUntilArrival(arrival, now) == ToMinutes(NearestDifference(arrival, now))
       <==> || (HourOf(arrival) == 23 && HourOf(TimeOf(now)) == 0)
            || (HourOf(arrival) == 0 && HourOf(TimeOf(now)) == 23)
            || -HALF_DAY <= arrival - TimeOf(now) < HALF_DAY
  {
    CountdownInMicros(arrival, now);
    ToMinutesInjective(arrival - TimeOf(now) + Wrap(arrival, now), NearestDifference(arrival, now));
    TimeOfDifference(arrival, now);
    var d: int := arrival - TimeOf(now);
    NearestIs(d, arrival, now, Wrap(arrival, now));
  }

  lemma NearestIs(d: int, a: int, b: int, wrap: int)
    requires -DAY < d < DAY && TimeOf(d) == TimeOf(a - b) && wrap in {-DAY, 0, DAY}
    ensures -HALF_DAY <= d + wrap < HALF_DAY <==> NearestDifference(a, b) == d + wrap
  {
    TimeOfDifference(a - b, -HALF_DAY);
    TimeOfDifference(d, -HALF_DAY);
    assert NearestDifference(a, b) == TimeOf(d + HALF_DAY) - HALF_DAY;
    hide NearestDifference, TimeOf;
    ShiftedIntoDay(d + HALF_DAY, wrap);
  }

  lemma ShiftedIntoDay(i: int, wrap: int)
    requires wrap in {-DAY, 0, DAY}
    ensures 0 <= i + wrap < DAY <==> TimeOf(i) == i + wrap
  {
    TimeOfShift(i, if wrap == 0 then 0 else if wrap == DAY then 1 else -1);
  }

  /** At 01:30 an arrival at 22:00 is 150 minutes ago but counts down from 1230. */
  lemma CountdownIsNotAlwaysNearest()
    ensures MinutesUntilArrival(22 * HOUR, HOUR + 30 * MINUTE) == 1230.0
    ensures ToMinutes(NearestDifference(22 * HOUR, HOUR + 30 * MINUTE)) == -210.0
  {
  }

  /** The conditions that _arrival_time_conditions adds to a query, as one test on a row's
      arrival; either bound missing means no condition at all. */
  predicate ArrivalTimeConditions(startTime: Option<TimeOfDay>, endTime: Option<TimeOfDay>, arrival: TimeOfDay) {
    if startTime.None? || endTime.None? then true
    else if startTime.value > endTime.value then arrival >= startTime.value || arrival <= endTime.value
    else arrival >= startTime.value && arrival <= endTime.value
  }

  predicate IsActiveBetweenTimes(arrival: TimeOfDay, startTime: TimeOfDay, endTime: TimeOfDay) {
    if startTime > endTime then arrival >= startTime || arrival <= endTime
    else startTime <= arrival <= endTime
  }

  /** Going forward around the clock from startTime, t comes no later than endTime. */
  predicate InCircularInterval(t: TimeOfDay, startTime: TimeOfDay, endTime: TimeOfDay) {
    TimeOf(t - startTime) <= TimeOf(endTime - startTime)
  }

  lemma WindowsAreCircularIntervals(t: TimeOfDay, startTime: TimeOfDay, endTime: TimeOfDay)
    ensures ArrivalTimeConditions(Some(startTime), Some(endTime), t) <==> InCircularInterval(t, startTime, endTime)
    ensures IsActiveBetweenTimes(t, startTime, endTime) <==> InCircularInterval(t, startTime, endTime)
  {
  }

  /** Without both bounds the query is not restricted. */
  lemma ConditionsIff(startTime: Option<TimeOfDay>, endTime: Option<TimeOfDay>, t: TimeOfDay)
    ensures ArrivalTimeConditions(startTime, endTime, t)
       <==> startTime.None? || endTime.None? || InCircularInterval(t, startTime.value, endTime.value)
  {
    if startTime.Some? && endTime.Some? {
      WindowsAreCircularIntervals(t, startTime.value, endTime.value);
    }
  }

  /** The time window of the delay poll, 20 minutes either side of now, without the poll's other
      conditions. */
  predicate IsPrefetched(arrival: TimeOfDay, now: Instant) {
    ArrivalTimeConditions(Some(TimeOf(now - 20 * MINUTE)), Some(TimeOf(now + 20 * MINUTE)), arrival)
  }

  /** Is the delayed arrival Due at now? */
  predicate IsDueAt(scheduled: TimeOfDay, delayInSeconds: int, now: Instant) {
    IsDueArrival(RealArrivalTime(scheduled, delayInSeconds, now), now)
  }

  /** A delay reduced to the half day either side of zero. */
  function DelayOnClock(delayInSeconds: int): (d: int)
    ensures -43200 <= d < 43200 && (d - delayInSeconds) % 86400 == 0
  {
    (delayInSeconds + 43200) % 86400 - 43200
  }

  lemma PrefetchedOnClock(scheduled: TimeOfDay, now: Instant)
    ensures IsPrefetched(scheduled, now) <==> TimeOf(scheduled - now + 20 * MINUTE) <= 40 * MINUTE
  {
    hide TimeOf, ArrivalTimeConditions;
    WindowsAreCircularIntervals(scheduled, TimeOf(now - 20 * MINUTE), TimeOf(now + 20 * MINUTE));
    TimeOfDifference(now + 20 * MINUTE, now - 20 * MINUTE);
    TimeOfDifference(scheduled, now - 20 * MINUTE);
    TimeOfItself(scheduled);
    TimeOfItself(40 * MINUTE);
  }

  lemma TimeOfItself(t: TimeOfDay)
    ensures TimeOf(t) == t
  {
  }

  /** A row is prefetched exactly when its arrival lies within 20 minutes of now on the clock. */
  lemma PrefetchedWhen(scheduled: TimeOfDay, delayInSeconds: int, now: Instant)
    ensures IsPrefetched(scheduled, now)
       <==> TimeOf(20 * MINUTE - SinceArrival(scheduled, delayInSeconds, now)
                   - DelayOnClock(delayInSeconds) * SECOND) <= 40 * MINUTE
  {
    var since := now - scheduled - delayInSeconds * SECOND;
    hide IsPrefetched, DelayOnClock, TimeOf;
    PrefetchedOnClock(scheduled, now);
    DaysOf(since);
    DaysOfDelay(delayInSeconds);
    SameTime(scheduled - now + 20 * MINUTE, 20 * MINUTE - TimeOf(since) - DelayOnClock(delayInSeconds) * SECOND,
             -(since / DAY) - (delayInSeconds + 43200) / 86400);
  }

  lemma DaysOf(i: Instant)
    ensures i == TimeOf(i) + i / DAY * DAY
  {
  }

  lemma DaysOfDelay(delayInSeconds: int)
    ensures delayInSeconds == DelayOnClock(delayInSeconds) + (delayInSeconds + 43200) / 86400 * 86400
  {
  }

  lemma SameTime(i: Instant, j: Instant, days: int)
    requires i == j + days * DAY
    ensures TimeOf(i) == TimeOf(j)
  {
    TimeOfShift(j, days);
  }

  /** The time window alone never drops a Due row exactly when its delay, taken on the clock, lies
      between -20 and +19 minutes. */
  lemma PrefetchKeepsDueRowsIff(scheduled: TimeOfDay, delayInSeconds: int)
    ensures (forall now: Instant :: IsDueAt(scheduled, delayInSeconds, now) ==> IsPrefetched(scheduled, now))
       <==> -20 * 60 <= DelayOnClock(delayInSeconds) <= 19 * 60
  {
    hide IsPrefetched, SinceArrival, DelayOnClock, IsDueAt;
    var d := DelayOnClock(delayInSeconds);
    var arrived: int := scheduled + delayInSeconds * SECOND;
    forall now: Instant | IsDueAt(scheduled, delayInSeconds, now)
      ensures -20 * 60 <= d <= 19 * 60 ==> IsPrefetched(scheduled, now)
    {
      DueRowIsPrefetchedIff(scheduled, delayInSeconds, now);
    }
    DueJustAfter(scheduled, delayInSeconds, 1);
    DueRowIsPrefetchedIff(scheduled, delayInSeconds, arrived + 1);
    DueJustAfter(scheduled, delayInSeconds, MINUTE - 1);
    DueRowIsPrefetchedIff(scheduled, delayInSeconds, arrived + MINUTE - 1);
  }

  lemma DueJustAfter(scheduled: TimeOfDay, delayInSeconds: int, x: int)
    requires 0 < x < MINUTE
    ensures var now := scheduled + delayInSeconds * SECOND + x;
            IsDueAt(scheduled, delayInSeconds, now) && SinceArrival(scheduled, delayInSeconds, now) == x
  {
    DueIsCircularWindow(scheduled, delayInSeconds, scheduled + delayInSeconds * SECOND + x);
  }

  lemma DueRowIsPrefetchedIff(scheduled: TimeOfDay, delayInSeconds: int, now: Instant)
    requires IsDueAt(scheduled, delayInSeconds, now)
    ensures 0 < SinceArrival(scheduled, delayInSeconds, now) < MINUTE
    ensures IsPrefetched(scheduled, now)
       <==> -20 * MINUTE <= SinceArrival(scheduled, delayInSeconds, now) + DelayOnClock(delayInSeconds) * SECOND <= 20 * MINUTE
  {
    DueIsCircularWindow(scheduled, delayInSeconds, now);
    PrefetchedWhen(scheduled, delayInSeconds, now);
    hide IsPrefetched, SinceArrival, DelayOnClock;
    WindowAroundZero(SinceArrival(scheduled, delayInSeconds, now) + DelayOnClock(delayInSeconds) * SECOND);
  }

  lemma WindowAroundZero(y: int)
    requires -HALF_DAY <= y <= HALF_DAY + MINUTE
    ensures TimeOf(20 * MINUTE - y) <= 40 * MINUTE <==> -20 * MINUTE <= y <= 20 * MINUTE
  {
  }

  /** convert_29_hours_to_24_hours on the three integers of HH:MM:SS; datetime.time raises for
      anything that is still outside the 24-hour clock. */
  function ConvertTo24Hours(hours: int, minutes: int, seconds: int): Result<TimeOfDay> {
    var h := if hours > 23 then hours - 24 else hours;
    if 0 <= h < 24 && 0 <= minutes < 60 && 0 <= seconds < 60 then
      Ok(h * HOUR + minutes * MINUTE + seconds * SECOND)
    else
      Raised("ValueError")
  }

  /** The conversion reads the times of two days and gives them on the clock of one. */
  lemma ConvertTo24HoursIs(hours: int, minutes: int, seconds: int, t: TimeOfDay)
    ensures ConvertTo24Hours(hours, minutes, seconds) == Ok(t)
       <==> 0 <= hours < 48 && 0 <= minutes < 60 && 0 <= seconds < 60
            && t == TimeOf(hours * HOUR + minutes * MINUTE + seconds * SECOND)
  {
    if 0 <= hours < 48 && 0 <= minutes < 60 && 0 <= seconds < 60 {
      var h := if hours > 23 then hours - 24 else hours;
      var onClock := h * HOUR + minutes * MINUTE + seconds * SECOND;
      SameTime(hours * HOUR + minutes * MINUTE + seconds * SECOND, onClock, if hours > 23 then 1 else 0);
      TimeOfItself(onClock);
      hide TimeOf;
    }
  }

  /** Proleptic Gregorian ordinals start on a Monday: date.toordinal() is 1 on 0001-01-01. */
  type Date = int

  /** datetime.date(): instant 0 is the midnight that starts day 0. */
  function DateOf(i: Instant): Date {
    i / DAY
  }

  function Weekday(d: Date): (w: int)
    ensures 0 <= w < 7
  {
    (d + 6) % 7
  }

  function NextDateForDay(day: int, fromDate: Date): Date {
    fromDate + (day - Weekday(fromDate)) % 7
  }

  /** The first date, not before fromDate, that falls on the day. */
  lemma NextDateForDayIsFirst(day: int, fromDate: Date)
    requires 0 <= day < 7
    ensures Weekday(NextDateForDay(day, fromDate)) == day
    ensures forall d: Date :: fromDate <= d < NextDateForDay(day, fromDate) ==> Weekday(d) != day
  {
  }
}
