/** What the delay poll loads at an instant: which rows that are due it has at hand, and how often it
    must run so that it misses no arrival. */
module DelayLoading {
  import opened Prelude
  import opened ClockTime
  import opened Records
  import opened Overlay
  import opened RealtimeSchedule
  import opened RecordingKeys
  import opened ServiceDay
  import opened DelayPolls

  // ---------- the query of one poll ----------

  /** The poll asks for the trips it has realtime rows for, 20 minutes either side of now. */
  function PollQuery(now: Instant, tripIds: seq<string>): Query {
    Query(None, Some(TimeOf(now - 20 * MINUTE)), Some(TimeOf(now + 20 * MINUTE)), Some(tripIds))
  }

  /** No trips at all leaves the query without a condition on trips. */
  predicate IsWanted(r: ScheduleRow, tripIds: seq<string>) {
    tripIds == [] || r.trip.id in tripIds
  }

  /** The rows are what the poll has at hand at now. */
  ghost predicate IsLoadAt(rows: seq<ScheduleRow>, t: Tables, tripIds: seq<string>, now: Instant) {
    IsServiceOn(rows, t, DateOf(now), PollQuery(now, tripIds))
  }

  lemma LoadedIff(rows: seq<ScheduleRow>, t: Tables, tripIds: seq<string>, now: Instant, r: ScheduleRow)
    requires IsLoadAt(rows, t, tripIds, now)
    ensures r in rows <==> && r in Join(t, t.stopTimes) && IsWanted(r, tripIds)
                           && IsPrefetched(r.stopTime.arrivalTime, now) && RunsOn(r, t.calendarDates, DateOf(now))
  {
    hide Join, RunsOn, ArrivalTimeConditions;
    assert r in rows <==> multiset(rows)[r] > 0;
    assert r in Join(t, t.stopTimes) <==> multiset(Join(t, t.stopTimes))[r] > 0;
  }

  /** A Due row is loaded exactly when its shifted delay is within 20 minutes and its service runs on
      the date that the poll falls on. */
  lemma DueRowIsLoadedIff(rows: seq<ScheduleRow>, t: Tables, tripIds: seq<string>, now: Instant, r: ScheduleRow, delayInSeconds: int)
    requires IsLoadAt(rows, t, tripIds, now)
    requires r in Join(t, t.stopTimes) && IsWanted(r, tripIds) && IsDueAt(r.stopTime.arrivalTime, delayInSeconds, now)
    ensures var since := SinceArrival(r.stopTime.arrivalTime, delayInSeconds, now);
            r in rows <==> -20 * MINUTE <= since + DelayOnClock(delayInSeconds) * SECOND <= 20 * MINUTE
                           && RunsOn(r, t.calendarDates, DateOf(now))
  {
    hide IsLoadAt, Join, RunsOn, IsPrefetched, SinceArrival, DelayOnClock, IsDueAt, IsWanted;
    LoadedIff(rows, t, tripIds, now, r);
    DueRowIsPrefetchedIff(r.stopTime.arrivalTime, delayInSeconds, now);
  }

  // ---------- one arrival ----------

  /** A row's raw time in the timetable, hours possibly past 23, and the arrival time stored for it. */
  predicate IsRawTimeOf(hours: int, minutes: int, seconds: int, r: ScheduleRow) {
    ConvertTo24Hours(hours, minutes, seconds) == Ok(r.stopTime.arrivalTime)
  }

  /** The instant of the arrival that belongs to the service date. */
  function ArrivalInstant(serviceDate: Date, hours: int, minutes: int, seconds: int, delayInSeconds: int): Instant {
    serviceDate * DAY + hours * HOUR + minutes * MINUTE + seconds * SECOND + delayInSeconds * SECOND
  }

  lemma ArrivalOnClock(serviceDate: Date, hours: int, minutes: int, seconds: int, delayInSeconds: int, r: ScheduleRow)
    requires IsRawTimeOf(hours, minutes, seconds, r)
    ensures TimeOf(ArrivalInstant(serviceDate, hours, minutes, seconds, delayInSeconds))
         == TimeOf(r.stopTime.arrivalTime + delayInSeconds * SECOND)
  {
    var days := if hours > 23 then serviceDate + 1 else serviceDate;
    SameTime(ArrivalInstant(serviceDate, hours, minutes, seconds, delayInSeconds),
             r.stopTime.arrivalTime + delayInSeconds * SECOND, days);
  }

  /** Would a poll at now load the row? */
  predicate WouldLoad(t: Tables, r: ScheduleRow, now: Instant) {
    IsPrefetched(r.stopTime.arrivalTime, now) && RunsOn(r, t.calendarDates, DateOf(now))
  }

  /** A poll at any moment of the minute after the arrival would load the row exactly when the delay on
      the clock is between -20 and +19 minutes and the service runs on the date, or the two dates, on
      which that minute falls. The date of service does not come into it. */
  lemma ArrivalIsNeverDroppedIff(t: Tables, r: ScheduleRow, serviceDate: Date, hours: int, minutes: int, seconds: int, delayInSeconds: int)
    requires IsRawTimeOf(hours, minutes, seconds, r)
    ensures var a := ArrivalInstant(serviceDate, hours, minutes, seconds, delayInSeconds);
            (forall now :: a < now < a + MINUTE ==> WouldLoad(t, r, now))
            <==> && -20 * 60 <= DelayOnClock(delayInSeconds) <= 19 * 60
                 && RunsOn(r, t.calendarDates, DateOf(a + 1)) && RunsOn(r, t.calendarDates, DateOf(a + MINUTE - 1))
  {
    var a, d := ArrivalInstant(serviceDate, hours, minutes, seconds, delayInSeconds), DelayOnClock(delayInSeconds);
    ArrivalOnClock(serviceDate, hours, minutes, seconds, delayInSeconds, r);
    hide ArrivalInstant, IsRawTimeOf, IsPrefetched, DelayOnClock, RunsOn, TimeOf, DateOf;
    forall now | a < now < a + MINUTE
      ensures IsPrefetched(r.stopTime.arrivalTime, now) <==> -20 * MINUTE <= now - a + d * SECOND <= 20 * MINUTE
      ensures DateOf(now) == DateOf(a + 1) || DateOf(now) == DateOf(a + MINUTE - 1)
    {
      PrefetchedAfterArrival(r.stopTime.arrivalTime, delayInSeconds, a, now);
      DatesOfAMinute(a, now);
    }
    assert WouldLoad(t, r, a + 1) || !WouldLoad(t, r, a + 1);
    assert WouldLoad(t, r, a + MINUTE - 1) || !WouldLoad(t, r, a + MINUTE - 1);
  }

  lemma PrefetchedAfterArrival(scheduled: TimeOfDay, delayInSeconds: int, a: Instant, now: Instant)
    requires TimeOf(a) == TimeOf(scheduled + delayInSeconds * SECOND) && a < now < a + MINUTE
    ensures IsDueAt(scheduled, delayInSeconds, now)
    ensures IsPrefetched(scheduled, now) <==> -20 * MINUTE <= now - a + DelayOnClock(delayInSeconds) * SECOND <= 20 * MINUTE
  {
    SinceKnownArrival(scheduled, delayInSeconds, a, now);
    DueIsCircularWindow(scheduled, delayInSeconds, now);
    hide IsPrefetched, SinceArrival, DelayOnClock, IsDueArrival, RealArrivalTime, TimeOf;
    DueRowIsPrefetchedIff(scheduled, delayInSeconds, now);
  }

  lemma SinceKnownArrival(scheduled: TimeOfDay, delayInSeconds: int, a: Instant, now: Instant)
    requires TimeOf(a) == TimeOf(scheduled + delayInSeconds * SECOND) && a < now < a + MINUTE
    ensures SinceArrival(scheduled, delayInSeconds, now) == now - a
  {
    var arrived := scheduled + delayInSeconds * SECOND;
    TimeOfDifference(now, arrived);
    TimeOfDifference(now, a);
  }

  lemma DatesOfAMinute(a: Instant, now: Instant)
    requires a < now < a + MINUTE
    ensures DateOf(now) == DateOf(a + 1) || DateOf(now) == DateOf(a + MINUTE - 1)
  {
  }

  /** A service that runs on a Friday only, at 23:55:00 and ten minutes late, polled on Saturday at
      00:05:30. It is due, its delay is short and it is in the window, but Saturday's query drops it. */
  lemma LateFridayServiceIsDropped(t: Tables, r: ScheduleRow)
    requires r.stopTime.arrivalTime == 23 * HOUR + 55 * MINUTE
    requires r.calendar.weekdays == [0, 0, 0, 0, 1, 0, 0] && r.calendar.startDate <= 5 <= r.calendar.endDate
    requires t.calendarDates == []
    ensures var friday, now := 5, 6 * DAY + 5 * MINUTE + 30 * SECOND;
            && Weekday(friday) == 4 && RunsOn(r, t.calendarDates, friday)
            && ArrivalInstant(friday, 23, 55, 0, 600) == now - 30 * SECOND
            && IsDueAt(r.stopTime.arrivalTime, 600, now) && DelayOnClock(600) == 600
            && IsPrefetched(r.stopTime.arrivalTime, now) && !WouldLoad(t, r, now)
  {
  }

  /** At noon a service 20 minutes late leaves the window half a minute after it has arrived. */
  lemma LongDelayLeavesTheWindow()
    ensures var now := 12 * HOUR + 20 * MINUTE + 30 * SECOND;
            IsDueAt(12 * HOUR, 20 * 60, now) && !IsPrefetched(12 * HOUR, now)
  {
  }

  // ---------- times past midnight ----------

  /** Does the row's service really pass on the clock date? With a raw hour past 23 it belongs to the
      service of the day before. */
  predicate PassesOn(r: ScheduleRow, hours: int, calendarDates: seq<CalendarDate>, onDate: Date) {
    RunsOn(r, calendarDates, if hours > 23 then onDate - 1 else onDate)
  }

  /** A date from which on the service does not run. */
  function AfterLastRun(r: ScheduleRow, calendarDates: seq<CalendarDate>): (last: Date)
    ensures last > r.calendar.endDate
    ensures forall d :: d in calendarDates ==> last > d.date
  {
    if calendarDates == [] then r.calendar.endDate + 1
    else
      var rest := AfterLastRun(r, calendarDates[1..]);
      if rest > calendarDates[0].date then rest else calendarDates[0].date + 1
  }

  lemma NeverRunsAfter(r: ScheduleRow, calendarDates: seq<CalendarDate>, d: Date)
    requires d >= AfterLastRun(r, calendarDates)
    ensures !RunsOn(r, calendarDates, d)
  {
  }

  lemma {:induction false} RunsThenStops(r: ScheduleRow, calendarDates: seq<CalendarDate>, d: Date) returns (last: Date)
    requires RunsOn(r, calendarDates, d)
    ensures RunsOn(r, calendarDates, last) && !RunsOn(r, calendarDates, last + 1)
    decreases AfterLastRun(r, calendarDates) - d
  {
    hide RunsOn;
    if RunsOn(r, calendarDates, d + 1) {
      if d + 1 >= AfterLastRun(r, calendarDates) { NeverRunsAfter(r, calendarDates, d + 1); }
      last := RunsThenStops(r, calendarDates, d + 1);
    } else {
      last := d;
    }
  }

  /** Asking by the clock date gives, on every date, the rows that really pass on it exactly when the
      raw hour is at most 23 or the service never runs. */
  lemma ClockDateIsServiceDateIff(r: ScheduleRow, hours: int, calendarDates: seq<CalendarDate>)
    ensures (forall d :: RunsOn(r, calendarDates, d) <==> PassesOn(r, hours, calendarDates, d))
       <==> hours <= 23 || (forall d :: !RunsOn(r, calendarDates, d))
  {
    hide RunsOn;
    if hours > 23 && exists d :: RunsOn(r, calendarDates, d) {
      var d :| RunsOn(r, calendarDates, d);
      var last := RunsThenStops(r, calendarDates, d);
      assert PassesOn(r, hours, calendarDates, last + 1);
    }
  }

  /** A Friday-only row at 24:05:00 passes on Saturday at 00:05:00, on time, and Saturday's query drops it. */
  lemma FridayNightRowIsDropped(t: Tables, r: ScheduleRow)
    requires IsRawTimeOf(24, 5, 0, r)
    requires r.calendar.weekdays == [0, 0, 0, 0, 1, 0, 0] && r.calendar.startDate <= 5 <= r.calendar.endDate
    requires t.calendarDates == []
    ensures var friday, saturday := 5, 6;
            var now := saturday * DAY + 5 * MINUTE + 30 * SECOND;
            && ArrivalInstant(friday, 24, 5, 0, 0) == now - 30 * SECOND && IsDueAt(r.stopTime.arrivalTime, 0, now)
            && PassesOn(r, 24, t.calendarDates, saturday) && !WouldLoad(t, r, now)
  {
  }

  // ---------- the whole poll ----------

  /** The tables at one poll, the rows no older than cutoff being recent, and what the poll loaded. */
  datatype Snapshot = Snapshot(now: Instant, cutoff: Instant, tables: Tables, tripTable: seq<RTTrip>, stopTable: seq<RTStopTime>,
                               tripIds: seq<string>, schedules: seq<ScheduleRow>,
                               overlayTrips: map<string, RTTrip>, overlayStopTimes: map<CellKey, StopOverlay>, fault: PollFault)

  ghost predicate HasTripRow(tripTable: seq<RTTrip>, tripId: string) {
    exists i :: 0 <= i < |tripTable| && tripTable[i].tripId == tripId
  }

  /** What was loaded is what the tables require. */
  ghost predicate IsLoad(s: Snapshot) {
    && (forall id :: id in s.tripIds <==> HasTripRow(s.tripTable, id))
    && IsLoadAt(s.schedules, s.tables, s.tripIds, s.now)
    && IsTripIndex(s.schedules, s.tripTable, s.cutoff, s.overlayTrips)
    && IsStopIndex(s.schedules, s.stopTable, s.cutoff, s.overlayStopTimes)
  }

  function PollOf(s: Snapshot): Poll {
    Poll(s.now, RecordsFromModels(s.schedules, s.overlayTrips, s.overlayStopTimes, s.now), s.fault)
  }

  function PollsOf(snapshots: seq<Snapshot>): seq<Poll> {
    seq(|snapshots|, i requires 0 <= i < |snapshots| => PollOf(snapshots[i]))
  }

  /** Every trip of the realtime table, once. */
  method GetDistinctRealtimeTrips(tripTable: seq<RTTrip>) returns (tripIds: seq<string>)
    ensures forall id :: id in tripIds <==> HasTripRow(tripTable, id)
    ensures forall i, j :: 0 <= i < j < |tripIds| ==> tripIds[i] != tripIds[j]
  {
    tripIds := [];
    for k := 0 to |tripTable|
      invariant forall id :: id in tripIds <==> exists i :: 0 <= i < k && tripTable[i].tripId == id
      invariant forall i, j :: 0 <= i < j < |tripIds| ==> tripIds[i] != tripIds[j]
    {
      if tripTable[k].tripId !in tripIds {
        tripIds := tripIds + [tripTable[k].tripId];
      }
    }
  }

  /** record_all_delays with now for every reading of the local clock and utcNow for the cutoff of the
      realtime rows. The poll loads the service of the day, overlays it, and takes one step. */
  method RecordAllDelays(delays: DelaysService, service: ScheduleService, tripTable: seq<RTTrip>, stopTable: seq<RTStopTime>,
                         now: Instant, utcNow: Instant, fault: PollFault)
    returns (recorded: Result<nat>, ghost loaded: Snapshot)
    modifies delays, delays.redisCache
    ensures loaded.now == now && loaded.cutoff == utcNow - 30 * MINUTE && loaded.fault == fault
    ensures loaded.tables == service.repo.tables && loaded.tripTable == tripTable && loaded.stopTable == stopTable
    ensures IsLoad(loaded)
    ensures delays.State() == PollStep(old(delays.State()), PollOf(loaded))
    ensures recorded.Ok? ==> |delays.history| == |old(delays.history)| + recorded.value
    ensures fault == NoFault ==> recorded.Ok?
  {
    hide IsServiceOn, IsScheduleFor, RecordsFromModels, PollStep, IsTripIndex, IsStopIndex;
    var currentDay, onDate := Weekday(DateOf(now)), DateOf(now);
    var tripIds := GetDistinctRealtimeTrips(tripTable);
    var schedules := service.SchedulesOn(currentDay, onDate, PollQuery(now, tripIds));
    var rows := Rows(schedules.value);
    var overlayTrips, overlayStopTimes := LoadRecentRtOverlayForSchedules(rows, tripTable, stopTable, utcNow);
    recorded := delays.RecordDueDelays(rows, overlayTrips, overlayStopTimes, now, fault);
    loaded := Snapshot(now, utcNow - 30 * MINUTE, service.repo.tables, tripTable, stopTable, tripIds, rows,
                       overlayTrips, overlayStopTimes, fault);
  }

  // ---------- polls often enough ----------

  /** The realtime rows of the trip give the cell the overlay o, which is no skip and has the delay. */
  ghost predicate GivesDelay(tripRows: seq<RTStopTime>, key: CellKey, delayInSeconds: int, o: StopOverlay) {
    IsCellOverlay(tripRows, key, Some(o)) && !(o.exactMatch && o.row.relationship == "SKIPPED") && IsDelay(o.row, delayInSeconds)
  }

  /** In the tables at poll s the row exists, its trip is among the realtime trips, its service runs on
      the date of the poll, its newest trip row does not remove it, its cell gets the delay from the recent
      rows, and the schedules loaded first are of its dataset. */
  ghost predicate IsCarried(s: Snapshot, row: ScheduleRow, delayInSeconds: int) {
    && row in Join(s.tables, s.tables.stopTimes) && RunsOn(row, s.tables.calendarDates, DateOf(s.now))
    && (s.tripTable == [] || HasTripRow(s.tripTable, row.trip.id))
    && (s.schedules != [] ==> s.schedules[0].trip.dataset == row.trip.dataset)
    && (forall i :: IsNewestTrip(s.tripTable, row.trip.dataset, s.cutoff, row.trip.id, i) ==> s.tripTable[i].relationship !in {"CANCELED", "DELETED"})
    && exists o :: GivesDelay(RecentRowsOfTrip(s.stopTable, row.trip.dataset, s.cutoff, row.trip.id), CellKey(row.trip.id, row.stop.id, row.stopTime.stopSequence), delayInSeconds, o)
  }

  lemma CarriedRowIsWanted(s: Snapshot, row: ScheduleRow, delayInSeconds: int)
    requires IsLoad(s) && IsCarried(s, row, delayInSeconds)
    ensures IsWanted(row, s.tripIds)
  {
    hide IsLoadAt, IsTripIndex, IsStopIndex, Join, RunsOn;
    if s.tripIds != [] {
      assert s.tripIds[0] in s.tripIds;
    }
  }

  /** The overlays that were loaded for the row do not remove it and give it the delay. */
  lemma CarriedRowIsOverlaid(s: Snapshot, row: ScheduleRow, delayInSeconds: int)
    requires IsLoad(s) && IsCarried(s, row, delayInSeconds) && row in s.schedules
    ensures !(row.trip.id in s.overlayTrips && s.overlayTrips[row.trip.id].relationship in {"CANCELED", "DELETED"})
    ensures var key := CellKey(row.trip.id, row.stop.id, row.stopTime.stopSequence);
            key in s.overlayStopTimes
            && !(s.overlayStopTimes[key].exactMatch && s.overlayStopTimes[key].row.relationship == "SKIPPED")
            && IsDelay(s.overlayStopTimes[key].row, delayInSeconds)
  {
    hide IsLoadAt, Join, RunsOn, IsCellOverlay, IsNewestTrip, RecentRowsOfTrip, IsDelay;
    var rows := RecentRowsOfTrip(s.stopTable, row.trip.dataset, s.cutoff, row.trip.id);
    var key := CellKey(row.trip.id, row.stop.id, row.stopTime.stopSequence);
    var o :| GivesDelay(rows, key, delayInSeconds, o);
    assert IsCellOverlay(rows, key, Lookup(s.overlayStopTimes, key));
    CellOverlayIsUnique(rows, key, Some(o), Lookup(s.overlayStopTimes, key));
    assert row.trip.id in TripIds(s.schedules);
  }

  /** The poll right after the arrival has the row at hand and finds it due. */
  lemma CarriedRowIsDue(s: Snapshot, row: ScheduleRow, delayInSeconds: int, a: Instant)
    requires IsLoad(s) && IsCarried(s, row, delayInSeconds) && a < s.now < a + MINUTE
    requires TimeOf(a) == TimeOf(row.stopTime.arrivalTime + delayInSeconds * SECOND)
    requires -20 * 60 <= DelayOnClock(delayInSeconds) <= 19 * 60
    ensures RecordOf(row, delayInSeconds) in PollOf(s).due
  {
    hide IsLoad, IsCarried, DelayOnClock, RecordsFromModels, TimeOf, SinceArrival, IsPrefetched;
    PrefetchedAfterArrival(row.stopTime.arrivalTime, delayInSeconds, a, s.now);
    SinceKnownArrival(row.stopTime.arrivalTime, delayInSeconds, a, s.now);
    CarriedRowIsRecorded(s, row, delayInSeconds);
    RecordedExactly(s.schedules, s.overlayTrips, s.overlayStopTimes, s.now, RecordOf(row, delayInSeconds));
  }

  lemma CarriedRowIsRecorded(s: Snapshot, row: ScheduleRow, delayInSeconds: int)
    requires IsLoad(s) && IsCarried(s, row, delayInSeconds) && IsPrefetched(row.stopTime.arrivalTime, s.now)
    requires 0 < SinceArrival(row.stopTime.arrivalTime, delayInSeconds, s.now) < MINUTE
    ensures row in s.schedules && IsRecorded(row, s.overlayTrips, s.overlayStopTimes, s.now, delayInSeconds)
  {
    hide IsLoad, IsPrefetched, SinceArrival, IsDelay, Join, RunsOn, IsWanted, GivesDelay, HasTripRow, IsNewestTrip;
    CarriedRowIsWanted(s, row, delayInSeconds);
    LoadedRowsOf(s, row);
    hide IsCarried;
    CarriedRowIsOverlaid(s, row, delayInSeconds);
  }

  lemma LoadedRowsOf(s: Snapshot, r: ScheduleRow)
    requires IsLoad(s)
    ensures r in s.schedules <==> && r in Join(s.tables, s.tables.stopTimes) && IsWanted(r, s.tripIds)
                                  && IsPrefetched(r.stopTime.arrivalTime, s.now) && RunsOn(r, s.tables.calendarDates, DateOf(s.now))
  {
    hide Join, RunsOn, IsWanted, IsPrefetched, IsLoadAt, IsTripIndex, IsStopIndex;
    LoadedIff(s.schedules, s.tables, s.tripIds, s.now, r);
  }

  predicate LessThanAMinuteApart(snapshots: seq<Snapshot>) {
    forall i :: 0 < i < |snapshots| ==> snapshots[i - 1].now <= snapshots[i].now < snapshots[i - 1].now + MINUTE
  }

  lemma SomePollFallsAfter(snapshots: seq<Snapshot>, a: Instant) returns (k: int)
    requires snapshots != [] && LessThanAMinuteApart(snapshots)
    requires snapshots[0].now <= a < snapshots[|snapshots| - 1].now
    ensures 0 <= k < |snapshots| && a < snapshots[k].now < a + MINUTE
  {
    k := 1;
    while snapshots[k].now <= a
      invariant 0 < k < |snapshots| && snapshots[k - 1].now <= a
      decreases |snapshots| - k
    {
      k := k + 1;
    }
  }

  lemma {:induction false} InOrderFromGaps(snapshots: seq<Snapshot>, i: int, j: int)
    requires LessThanAMinuteApart(snapshots) && 0 <= i <= j < |snapshots|
    ensures snapshots[i].now <= snapshots[j].now
    decreases j
  {
    if i == j {
    } else {
      InOrderFromGaps(snapshots, i, j - 1);
    }
  }

  /** Over a run of polls less than 60 seconds apart, however long, no arrival at an instant a is missed
      whose delay on the clock is between -20 and +19 minutes and whose row the tables carry in the minute
      after a, unless a poll fails before it writes: some poll in that minute leaves a record for its key
      no older than 300 seconds. */
  lemma FrequentPollsNeverMiss(snapshots: seq<Snapshot>, row: ScheduleRow, delayInSeconds: int, a: Instant)
    requires snapshots != [] && LessThanAMinuteApart(snapshots)
    requires forall i :: 0 <= i < |snapshots| ==> IsLoad(snapshots[i])
    requires snapshots[0].now <= a < snapshots[|snapshots| - 1].now
    requires TimeOf(a) == TimeOf(row.stopTime.arrivalTime + delayInSeconds * SECOND)
    requires -20 * 60 <= DelayOnClock(delayInSeconds) <= 19 * 60
    requires forall i :: 0 <= i < |snapshots| && a < snapshots[i].now < a + MINUTE ==>
               IsCarried(snapshots[i], row, delayInSeconds) && snapshots[i].fault != NothingWritten
    ensures exists k :: && 0 <= k < |snapshots| && a < snapshots[k].now < a + MINUTE
                        && HasFreshRecord(RunPolls(PollsOf(snapshots)).history,
                                          RecordingKey(RecordOf(row, delayInSeconds)), k, snapshots[k].now)
  {
    hide IsLoad, IsCarried, RecordingKey, RunPolls, DelayOnClock, TimeOf, PollOf, HasFreshRecord;
    var k := SomePollFallsAfter(snapshots, a);
    var polls := PollsOf(snapshots);
    CarriedRowIsDue(snapshots[k], row, delayInSeconds, a);
    PollsInOrder(snapshots);
    PollTime(snapshots[k]);
    DueKeysHaveFreshRecords(polls, k, RecordOf(row, delayInSeconds));
  }

  lemma PollTime(s: Snapshot)
    ensures PollOf(s).now == s.now && PollOf(s).fault == s.fault
  {
  }

  lemma PollsInOrder(snapshots: seq<Snapshot>)
    requires LessThanAMinuteApart(snapshots)
    ensures InOrder(PollsOf(snapshots))
  {
    hide RecordsFromModels;
    forall i, j | 0 <= i < j < |snapshots| ensures PollsOf(snapshots)[i].now <= PollsOf(snapshots)[j].now {
      InOrderFromGaps(snapshots, i, j);
    }
  }

  /** A row scheduled on a whole second, as the importer stores it, arrives at a, between the two polls. */
  predicate ArrivesBetween(scheduled: TimeOfDay, delayInSeconds: int, first: Instant, a: Instant, second: Instant) {
    scheduled % SECOND == 0 && TimeOf(a) == TimeOf(scheduled + delayInSeconds * SECOND) && first <= a < second
  }

  /** Of two consecutive polls the second finds every arrival since the first due, whatever the delay,
      exactly when no whole second since the first is a minute or more before the second. */
  lemma NextPollFindsEveryArrivalDueIff(delayInSeconds: int, first: Instant, second: Instant)
    ensures (forall scheduled: TimeOfDay, a :: ArrivesBetween(scheduled, delayInSeconds, first, a, second)
               ==> IsDueAt(scheduled, delayInSeconds, second))
       <==> (forall a :: first <= a <= second - MINUTE ==> a % SECOND != 0)
  {
    hide IsDueAt;
    var last := WholeSecond(second - MINUTE);
    WholeSecondIsLast(second - MINUTE);
    if first <= last {
      var scheduled := TimeOf(last - delayInSeconds * SECOND);
      OlderThanAMinuteIsNotDue(scheduled, delayInSeconds, last, second);
      assert ArrivesBetween(scheduled, delayInSeconds, first, last, second);
    } else {
      forall scheduled: TimeOfDay, a | ArrivesBetween(scheduled, delayInSeconds, first, a, second)
        ensures IsDueAt(scheduled, delayInSeconds, second)
      {
        ArrivalOnWholeSecond(scheduled, delayInSeconds, a);
        PrefetchedAfterArrival(scheduled, delayInSeconds, a, second);
      }
    }
  }

  /** So less than 60 seconds between polls is always enough, and 61 never. */
  lemma GapsThatFindEveryArrival(delayInSeconds: int, first: Instant, second: Instant)
    ensures second - first < MINUTE ==> forall a :: first <= a <= second - MINUTE ==> a % SECOND != 0
    ensures second - first >= MINUTE + SECOND ==> exists a :: first <= a <= second - MINUTE && a % SECOND == 0
  {
    WholeSecondIsLast(second - MINUTE);
    if second - first >= MINUTE + SECOND {
      assert first <= WholeSecond(second - MINUTE) <= second - MINUTE;
    }
  }

  /** The last whole second up to i. */
  function WholeSecond(i: Instant): Instant {
    i - i % SECOND
  }

  lemma WholeSecondIsLast(i: Instant)
    ensures WholeSecond(i) % SECOND == 0 && i - SECOND < WholeSecond(i) <= i
    ensures forall a :: WholeSecond(i) < a <= i ==> a % SECOND != 0
  {
    var n := i / SECOND;
    assert WholeSecond(i) == n * SECOND;
    forall a | WholeSecond(i) < a <= i ensures a % SECOND != 0 {
      assert a / SECOND == n;
    }
  }

  lemma ArrivalOnWholeSecond(scheduled: TimeOfDay, delayInSeconds: int, a: Instant)
    requires scheduled % SECOND == 0 && TimeOf(a) == TimeOf(scheduled + delayInSeconds * SECOND)
    ensures a % SECOND == 0
  {
    WholeSecondsOfDay(a);
    WholeSecondsOfDay(scheduled + delayInSeconds * SECOND);
    WholeSecondsAdd(scheduled, delayInSeconds);
  }

  lemma WholeSecondsAdd(i: Instant, seconds: int)
    requires i % SECOND == 0
    ensures (i + seconds * SECOND) % SECOND == 0
  {
    assert i + seconds * SECOND == (i / SECOND + seconds) * SECOND;
  }

  lemma RemainderIs(i: Instant, seconds: int, rest: int)
    requires i == seconds * SECOND + rest && 0 <= rest < SECOND
    ensures i % SECOND == rest
  {
  }

  lemma WholeSecondsOfDay(i: Instant)
    ensures i % SECOND == TimeOf(i) % SECOND
  {
    DaysOf(i);
    hide TimeOf;
    var t: int, days := TimeOf(i), i / DAY;
    RemainderIs(i, t / SECOND + 86400 * days, t % SECOND);
  }

  lemma OlderThanAMinuteIsNotDue(scheduled: TimeOfDay, delayInSeconds: int, a: Instant, now: Instant)
    requires scheduled == TimeOf(a - delayInSeconds * SECOND) && a % SECOND == 0 && MINUTE <= now - a < 2 * MINUTE
    ensures scheduled % SECOND == 0 && TimeOf(a) == TimeOf(scheduled + delayInSeconds * SECOND)
    ensures !IsDueAt(scheduled, delayInSeconds, now)
  {
    var days := (a - delayInSeconds * SECOND) / DAY;
    DaysOf(a - delayInSeconds * SECOND);
    WholeSecondsOfDay(a - delayInSeconds * SECOND);
    WholeSecondsAdd(a, -delayInSeconds);
    TimeOfItself(now - a);
    hide TimeOf;
    SameTime(a, scheduled + delayInSeconds * SECOND, days);
    SameTime(now - scheduled - delayInSeconds * SECOND, now - a, days);
    hide IsDueArrival, RealArrivalTime;
    DueIsCircularWindow(scheduled, delayInSeconds, now);
  }
}
