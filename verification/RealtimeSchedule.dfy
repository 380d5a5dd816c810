/** RealtimeScheduleModel objects, and due_delay_records as a fast path for the same decisions. */
module RealtimeSchedule {
  import opened Prelude
  import opened ClockTime
  import opened Records
  import opened Overlay

  datatype OnTimeStatus = Early | OnTime | Late | Unknown | SkippedStop

  datatype DelayText = Cancelled | Dash | Skipped | DelayMinutes(minutes: int)

  datatype EtaText = Left | Due | UnderOneMinute | EtaMinutes(minutes: int)

  /** The fields of a RealtimeScheduleModel once its constructor has returned. */
  datatype Classification = Classification(
    delay: DelayText, delayInSeconds: int, realArrivalTime: TimeOfDay,
    realEtaText: EtaText, isDue: bool, onTimeStatus: OnTimeStatus, isTripRemoved: bool)

  /** max(arrival_delay or 0, departure_delay or 0). */
  function DelayOf(row: RTStopTime): int {
    var arrival := if row.arrivalDelay.Some? then row.arrivalDelay.value else 0;
    var departure := if row.departureDelay.Some? then row.departureDelay.value else 0;
    if departure > arrival then departure else arrival
  }

  /** The larger of the two delays, a missing one counting as zero. */
  predicate IsDelay(row: RTStopTime, delayInSeconds: int) {
    && (if row.arrivalDelay.Some? then delayInSeconds >= row.arrivalDelay.value else delayInSeconds >= 0)
    && (if row.departureDelay.Some? then delayInSeconds >= row.departureDelay.value else delayInSeconds >= 0)
    && (row.arrivalDelay == Some(delayInSeconds) || row.departureDelay == Some(delayInSeconds)
        || (delayInSeconds == 0 && (row.arrivalDelay.None? || row.departureDelay.None?)))
  }

  lemma DelayIs(row: RTStopTime, delayInSeconds: int)
    ensures IsDelay(row, delayInSeconds) <==> delayInSeconds == DelayOf(row)
  {
  }

  function EtaTextFor(arrival: TimeOfDay, now: Instant): EtaText {
    var timeDifference := MinutesUntilArrival(arrival, now);
    if timeDifference <= -1.0 then Left
    else if timeDifference < 0.0 then Due
    else if timeDifference < 1.0 then UnderOneMinute
    else EtaMinutes(timeDifference.Floor)
  }

  /** In microseconds until the arrival, a day added or taken off between hour 23 and hour 0. */
  lemma EtaTextIs(arrival: TimeOfDay, now: Instant)
    ensures var until := arrival - TimeOf(now) + Wrap(arrival, now);
            && (EtaTextFor(arrival, now) == Left <==> until <= -MINUTE)
            && (EtaTextFor(arrival, now) == Due <==> -MINUTE < until < 0)
            && (EtaTextFor(arrival, now) == UnderOneMinute <==> 0 <= until < MINUTE)
            && (forall n :: EtaTextFor(arrival, now) == EtaMinutes(n) <==> n >= 1 && n * MINUTE <= until < (n + 1) * MINUTE)
  {
    CountdownInMicros(arrival, now);
    var until := arrival - TimeOf(now) + Wrap(arrival, now);
    hide MinutesUntilArrival, TimeOf, Wrap;
    FloorOfMinutes(until);
    MinutesCompare(until);
    forall n ensures until / MINUTE == n <==> n * MINUTE <= until < (n + 1) * MINUTE {
    }
    hide ToMinutes;
  }

  lemma MinutesCompare(micros: int)
    ensures ToMinutes(micros) <= -1.0 <==> micros <= -MINUTE
    ensures ToMinutes(micros) < 0.0 <==> micros < 0
    ensures ToMinutes(micros) < 1.0 <==> micros < MINUTE
  {
  }

  lemma FloorOfMinutes(micros: int)
    ensures ToMinutes(micros).Floor == micros / MINUTE
  {
    var n, rest := micros / MINUTE, micros % MINUTE;
    assert micros == n * MINUTE + rest;
    assert ToMinutes(micros) == n as real + ToMinutes(rest);
  }

  /** The wrap of set_on_time_status, in whole days. */
  function StatusWrap(realArrival: TimeOfDay, scheduled: TimeOfDay): int {
    if HourOf(realArrival) == 23 && HourOf(scheduled) == 0 then -1
    else if HourOf(realArrival) == 0 && HourOf(scheduled) == 23 then 1
    else 0
  }

  function LatenessInMinutes(realArrival: TimeOfDay, scheduled: TimeOfDay): real {
    ToMinutes(realArrival - scheduled) + 1440.0 * (StatusWrap(realArrival, scheduled) as real)
  }

  function OnTimeStatusFor(realArrival: TimeOfDay, scheduled: TimeOfDay): OnTimeStatus {
    var timeDifference := LatenessInMinutes(realArrival, scheduled);
    if timeDifference < -1.0 then Early
    else if timeDifference > 5.0 then Late
    else OnTime
  }

  /** The lateness behind the status is the delay itself exactly when the midnights the delay
      crosses are the ones the 23:00/00:00 wrap accounts for. */
  lemma LatenessIsTheDelayIff(scheduled: TimeOfDay, delayInSeconds: int, now: Instant)
    ensures LatenessInMinutes(RealArrivalTime(scheduled, delayInSeconds, now), scheduled)
            == (delayInSeconds as real) / 60.0
       <==> (scheduled + delayInSeconds * SECOND) / DAY
            == StatusWrap(RealArrivalTime(scheduled, delayInSeconds, now), scheduled)
  {
    var shifted := scheduled + delayInSeconds * SECOND;
    TimeOfShift(shifted, MidnightOf(now) / DAY);
    var r: int := RealArrivalTime(scheduled, delayInSeconds, now);
    assert r == shifted - shifted / DAY * DAY;
    var wrap := StatusWrap(r, scheduled);
    LatenessInDays(r - scheduled, wrap);
    assert LatenessInMinutes(r, scheduled) == ToMinutes(r - scheduled + wrap * DAY);
    ToMinutesInjective(r - scheduled + wrap * DAY, delayInSeconds * SECOND);
    assert ToMinutes(delayInSeconds * SECOND) == (delayInSeconds as real) / 60.0;
  }

  lemma LatenessInDays(d: int, days: int)
    ensures ToMinutes(d) + 1440.0 * (days as real) == ToMinutes(d + days * DAY)
  {
  }

  /** The status a delay calls for. */
  function StatusCalledFor(delayInSeconds: int): OnTimeStatus {
    if delayInSeconds < -60 then Early else if delayInSeconds > 300 then Late else OnTime
  }

  /** Up to an hour either way the wrap is right: the status follows the delay alone, early beyond
      one minute and late beyond five. */
  lemma StatusOfDelaysUpToAnHour(scheduled: TimeOfDay, delayInSeconds: int, now: Instant)
    requires -3600 <= delayInSeconds <= 3600
    ensures OnTimeStatusFor(RealArrivalTime(scheduled, delayInSeconds, now), scheduled)
            == StatusCalledFor(delayInSeconds)
  {
    LatenessIsTheDelayIff(scheduled, delayInSeconds, now);
    CrossesMidnightOnce(scheduled, delayInSeconds, now);
    hide LatenessInMinutes, RealArrivalTime;
  }

  lemma CrossesMidnightOnce(scheduled: TimeOfDay, delayInSeconds: int, now: Instant)
    requires -3600 <= delayInSeconds <= 3600
    ensures (scheduled + delayInSeconds * SECOND) / DAY
            == StatusWrap(RealArrivalTime(scheduled, delayInSeconds, now), scheduled)
  {
    TimeOfShift(scheduled + delayInSeconds * SECOND, MidnightOf(now) / DAY);
    var r := RealArrivalTime(scheduled, delayInSeconds, now);
    assert r == scheduled + delayInSeconds * SECOND - (scheduled + delayInSeconds * SECOND) / DAY * DAY;
  }

  predicate StatusIsRight(scheduled: TimeOfDay, delayInSeconds: int, now: Instant) {
    OnTimeStatusFor(RealArrivalTime(scheduled, delayInSeconds, now), scheduled) == StatusCalledFor(delayInSeconds)
  }

  /** For which delays the status is right at every scheduled time: those that the clock shows as at
      most an hour either way and that call for the same status as what the clock shows. */
  lemma StatusIsRightIff(delayInSeconds: int, now: Instant)
    ensures (forall scheduled: TimeOfDay :: StatusIsRight(scheduled, delayInSeconds, now))
       <==> -3600 <= DelayOnClock(delayInSeconds) <= 3600
            && StatusCalledFor(DelayOnClock(delayInSeconds)) == StatusCalledFor(delayInSeconds)
  {
    var d := DelayOnClock(delayInSeconds);
    hide OnTimeStatusFor, RealArrivalTime, DelayOnClock;
    forall scheduled: TimeOfDay
      ensures RealArrivalTime(scheduled, delayInSeconds, now) == RealArrivalTime(scheduled, d, now)
    {
      OnlyTheClockDelayShows(scheduled, delayInSeconds, now);
    }
    if -3600 <= d <= 3600 {
      forall scheduled: TimeOfDay
        ensures StatusIsRight(scheduled, delayInSeconds, now) <==> StatusCalledFor(d) == StatusCalledFor(delayInSeconds)
      {
        StatusOfDelaysUpToAnHour(scheduled, d, now);
      }
      assert StatusIsRight(0, delayInSeconds, now) <==> StatusCalledFor(d) == StatusCalledFor(delayInSeconds);
    } else {
      LongDelaysReadBothWays(d, now);
      assert StatusIsRight(0, delayInSeconds, now) ==> !StatusIsRight(DAY - 1, delayInSeconds, now);
    }
  }

  lemma OnlyTheClockDelayShows(scheduled: TimeOfDay, delayInSeconds: int, now: Instant)
    ensures RealArrivalTime(scheduled, delayInSeconds, now) == RealArrivalTime(scheduled, DelayOnClock(delayInSeconds), now)
  {
    var days := (delayInSeconds + 43200) / 86400;
    assert delayInSeconds == DelayOnClock(delayInSeconds) + days * 86400;
    SameTime(MidnightOf(now) + scheduled + delayInSeconds * SECOND,
             MidnightOf(now) + scheduled + DelayOnClock(delayInSeconds) * SECOND, days);
  }

  /** Beyond an hour the first and the last moment of the day give opposite statuses. */
  lemma LongDelaysReadBothWays(d: int, now: Instant)
    requires -43200 <= d < -3600 || 3600 < d < 43200
    ensures OnTimeStatusFor(RealArrivalTime(0, d, now), 0) == Late
    ensures OnTimeStatusFor(RealArrivalTime(DAY - 1, d, now), DAY - 1) == Early
  {
    ShownArrival(0, d, now, if d > 0 then 0 else -1);
    ShownArrival(DAY - 1, d, now, if d > 0 then 1 else 0);
    hide RealArrivalTime, OnTimeStatusFor;
    ShownHoursLater(RealArrivalTime(0, d, now));
    ShownHoursEarlier(RealArrivalTime(DAY - 1, d, now));
  }

  lemma ShownArrival(scheduled: TimeOfDay, d: int, now: Instant, days: int)
    requires 0 <= scheduled + d * SECOND - days * DAY < DAY
    ensures RealArrivalTime(scheduled, d, now) == scheduled + d * SECOND - days * DAY
  {
    TimeOfShift(scheduled + d * SECOND, MidnightOf(now) / DAY);
    TimeOfShift(scheduled + d * SECOND - days * DAY, days);
  }

  lemma ShownHoursLater(r: TimeOfDay)
    requires HOUR < r < 23 * HOUR
    ensures OnTimeStatusFor(r, 0) == Late
  {
  }

  lemma ShownHoursEarlier(r: TimeOfDay)
    requires HOUR <= r < 23 * HOUR
    ensures OnTimeStatusFor(r, DAY - 1) == Early
  {
  }

  /** A service at 22:45 running 90 minutes late is reported early. */
  lemma LateCanReadAsEarly(now: Instant)
    ensures OnTimeStatusFor(RealArrivalTime(22 * HOUR + 45 * MINUTE, 90 * 60, now), 22 * HOUR + 45 * MINUTE) == Early
  {
    TimeOfShift(22 * HOUR + 45 * MINUTE + 90 * 60 * SECOND, MidnightOf(now) / DAY);
  }

  /** A day late always reads as on time. */
  lemma DayLateReadsOnTime(scheduled: TimeOfDay, now: Instant)
    ensures OnTimeStatusFor(RealArrivalTime(scheduled, 24 * 3600, now), scheduled) == OnTime
    ensures StatusCalledFor(24 * 3600) == Late
  {
    OnlyTheClockDelayShows(scheduled, 24 * 3600, now);
    StatusOfDelaysUpToAnHour(scheduled, 0, now);
  }

  /** Which of the five constructor branches applies, and what it leaves in the fields. */
  function Classify(schedule: ScheduleRow, rtStopTime: Option<RTStopTime>, rtTrip: Option<RTTrip>,
                    exact: bool, now: Instant): Classification
  {
    var scheduled := schedule.stopTime.arrivalTime;
    var eta, due := EtaTextFor(scheduled, now), IsDueArrival(scheduled, now);
    if rtTrip.Some? && IsRemovedTrip(rtTrip.value.relationship) then
      Classification(Cancelled, 0, scheduled, eta, due, Unknown, true)
    else if rtStopTime.None? then
      Classification(Dash, 0, scheduled, eta, due, Unknown, false)
    else if exact && IsSkipped(rtStopTime.value) then
      Classification(Skipped, 0, scheduled, eta, due, SkippedStop, false)
    else
      var d := DelayOf(rtStopTime.value);
      var arrival := RealArrivalTime(scheduled, d, now);
      Classification(DelayMinutes(d / 60), d, arrival, EtaTextFor(arrival, now),
                     IsDueArrival(arrival, now), OnTimeStatusFor(arrival, scheduled), false)
  }

  class RealtimeScheduleModel {
    const staticSchedule: ScheduleRow
    const rtStopTime: Option<RTStopTime>
    const rtTrip: Option<RTTrip>
    const rtStopOverlayExact: bool
    var delay: DelayText
    var delayInSeconds: int
    var realArrivalTime: TimeOfDay
    var realEtaText: EtaText
    var isDue: bool
    var onTimeStatus: OnTimeStatus
    var isTripRemoved: bool

    /** now stands for every clock reading the constructor takes. */
    constructor (schedule: ScheduleRow, stop: Option<RTStopTime>, trip: Option<RTTrip>, exact: bool, now: Instant)
      ensures staticSchedule == schedule && rtStopTime == stop && rtTrip == trip && rtStopOverlayExact == exact
      ensures Fields() == Classify(schedule, stop, trip, exact, now)
    {
      staticSchedule, rtStopTime, rtTrip, rtStopOverlayExact := schedule, stop, trip, exact;
      delay, delayInSeconds, realArrivalTime := Dash, 0, 0;
      realEtaText, isDue, onTimeStatus, isTripRemoved := Left, false, Unknown, false;
      new;
      if trip.Some? && IsRemovedTrip(trip.value.relationship) {
        isTripRemoved := true;
        delay := Cancelled;
        delayInSeconds := 0;
        realArrivalTime := schedule.stopTime.arrivalTime;
        SetRealEtaTextAndDue(now);
        onTimeStatus := Unknown;
      } else if stop.None? && trip.None? {
        delay := Dash;
        delayInSeconds := 0;
        realArrivalTime := schedule.stopTime.arrivalTime;
        SetRealEtaTextAndDue(now);
        onTimeStatus := Unknown;
      } else if stop.Some? && exact && stop.value.relationship == SKIPPED {
        delay := Skipped;
        delayInSeconds := 0;
        realArrivalTime := schedule.stopTime.arrivalTime;
        SetRealEtaTextAndDue(now);
        onTimeStatus := SkippedStop;
      } else if stop.Some? {
        SetDelay();
        realArrivalTime := RealArrivalTime(staticSchedule.stopTime.arrivalTime, delayInSeconds, now);
        SetRealEtaTextAndDue(now);
        onTimeStatus := OnTimeStatusFor(realArrivalTime, staticSchedule.stopTime.arrivalTime);
      } else {
        delay := Dash;
        delayInSeconds := 0;
        realArrivalTime := schedule.stopTime.arrivalTime;
        SetRealEtaTextAndDue(now);
        onTimeStatus := Unknown;
      }
    }

    method SetDelay()
      requires rtStopTime.Some?
      modifies this`delay, this`delayInSeconds
      ensures delayInSeconds == DelayOf(rtStopTime.value) && delay == DelayMinutes(delayInSeconds / 60)
    {
      delayInSeconds := DelayOf(rtStopTime.value);
      delay := DelayMinutes(delayInSeconds / 60);
    }

    /** The text reads Due exactly when the flag is set. */
    method SetRealEtaTextAndDue(now: Instant)
      modifies this`realEtaText, this`isDue
      ensures realEtaText == EtaTextFor(realArrivalTime, now)
      ensures isDue == IsDueArrival(realArrivalTime, now)
      ensures isDue <==> realEtaText == Due
    {
      var timeDifference := MinutesUntilArrival(realArrivalTime, now);
      if timeDifference <= -1.0 {
        realEtaText := Left;
      } else if timeDifference < 0.0 {
        realEtaText := Due;
      } else if timeDifference < 1.0 {
        realEtaText := UnderOneMinute;
      } else {
        realEtaText := EtaMinutes(timeDifference.Floor);
      }
      isDue := IsDueArrival(realArrivalTime, now);
    }

    function Fields(): Classification
      reads this
    {
      Classification(delay, delayInSeconds, realArrivalTime, realEtaText, isDue, onTimeStatus, isTripRemoved)
    }
  }

  // ---------- the slow path: build every model, then filter ----------

  /** What the model built for one schedule row holds. */
  function Classified(s: ScheduleRow, overlayTrips: map<string, RTTrip>,
                      overlayStopTimes: map<CellKey, StopOverlay>, now: Instant): Classification
  {
    var overlay := Lookup(overlayStopTimes, CellOf(s));
    Classify(s,
             if overlay.Some? then Some(overlay.value.row) else None,
             Lookup(overlayTrips, s.trip.id),
             overlay.Some? && overlay.value.exactMatch, now)
  }

  /** The model is built from the row's own trip and cell; a removed trip takes no stop update. */
  ghost predicate IsBuiltFrom(m: RealtimeScheduleModel, s: ScheduleRow, overlayTrips: map<string, RTTrip>,
                        overlayStopTimes: map<CellKey, StopOverlay>)
  {
    var key := CellKey(s.trip.id, s.stop.id, s.stopTime.stopSequence);
    var removed := s.trip.id in overlayTrips && overlayTrips[s.trip.id].relationship in {"CANCELED", "DELETED"};
    var stops := key in overlayStopTimes && !removed;
    && m.staticSchedule == s
    && m.rtTrip == (if s.trip.id in overlayTrips then Some(overlayTrips[s.trip.id]) else None)
    && m.rtStopTime == (if stops then Some(overlayStopTimes[key].row) else None)
    && m.rtStopOverlayExact == (stops && overlayStopTimes[key].exactMatch)
  }

  method BuildRealtimeSchedules(schedules: seq<ScheduleRow>, overlayTrips: map<string, RTTrip>,
                                overlayStopTimes: map<CellKey, StopOverlay>, now: Instant)
    returns (models: seq<RealtimeScheduleModel>)
    ensures |models| == |schedules|
    ensures forall i :: 0 <= i < |models| ==>
      && fresh(models[i]) && IsBuiltFrom(models[i], schedules[i], overlayTrips, overlayStopTimes)
      && models[i].Fields() == Classified(schedules[i], overlayTrips, overlayStopTimes, now)
  {
    models := [];
    for k := 0 to |schedules|
      invariant |models| == k
      invariant forall i :: 0 <= i < k ==>
        && fresh(models[i]) && IsBuiltFrom(models[i], schedules[i], overlayTrips, overlayStopTimes)
        && models[i].Fields() == Classified(schedules[i], overlayTrips, overlayStopTimes, now)
    {
      var s := schedules[k];
      var rtTrip := Lookup(overlayTrips, s.trip.id);
      var overlay := Lookup(overlayStopTimes, CellOf(s));
      var model;
      if rtTrip.Some? && IsRemovedTrip(rtTrip.value.relationship) {
        model := new RealtimeScheduleModel(s, None, rtTrip, false, now);
      } else if overlay.Some? {
        model := new RealtimeScheduleModel(s, Some(overlay.value.row), rtTrip, overlay.value.exactMatch, now);
      } else if rtTrip.Some? {
        model := new RealtimeScheduleModel(s, None, rtTrip, false, now);
      } else {
        model := new RealtimeScheduleModel(s, None, None, false, now);
      }
      models := models + [model];
    }
  }

  /** One row of the delay history, before it is given a timestamp. */
  datatype DelayRecord = DelayRecord(stopId: string, routeCode: string, scheduledTime: TimeOfDay, delayInSeconds: int)

  /** filter_to_only_schedules_with_updates and filter_to_only_due_schedules, less skipped stops. */
  predicate IsDueWithDelay(c: Classification) {
    c.isDue && (c.onTimeStatus == Early || c.onTimeStatus == OnTime || c.onTimeStatus == Late)
  }

  function RecordOf(s: ScheduleRow, delayInSeconds: int): DelayRecord {
    DelayRecord(s.stop.id, s.route.shortName, s.stopTime.arrivalTime, delayInSeconds)
  }

  /** The records read off the models of the rows that are due with a known delay, in order. */
  function RecordsFromModels(schedules: seq<ScheduleRow>, overlayTrips: map<string, RTTrip>,
                             overlayStopTimes: map<CellKey, StopOverlay>, now: Instant): seq<DelayRecord>
  {
    if schedules == [] then []
    else
      var s := schedules[|schedules| - 1];
      var c := Classified(s, overlayTrips, overlayStopTimes, now);
      RecordsFromModels(schedules[..|schedules| - 1], overlayTrips, overlayStopTimes, now)
      + (if IsDueWithDelay(c) then [RecordOf(s, c.delayInSeconds)] else [])
  }

  // ---------- the fast path ----------

  /** A row is recorded when its trip runs, it has an overlay that is not an exact skip, and its
      delayed arrival was strictly less than a minute ago, on whichever side of midnight. */
  ghost predicate IsRecorded(s: ScheduleRow, overlayTrips: map<string, RTTrip>,
                             overlayStopTimes: map<CellKey, StopOverlay>, now: Instant, delayInSeconds: int)
  {
    && !(s.trip.id in overlayTrips && overlayTrips[s.trip.id].relationship in {"CANCELED", "DELETED"})
    && var key := CellKey(s.trip.id, s.stop.id, s.stopTime.stopSequence);
    && key in overlayStopTimes
    && !(overlayStopTimes[key].exactMatch && overlayStopTimes[key].row.relationship == "SKIPPED")
    && IsDelay(overlayStopTimes[key].row, delayInSeconds)
    && 0 < SinceArrival(s.stopTime.arrivalTime, delayInSeconds, now) < MINUTE
  }

  method DueDelayRecords(schedules: seq<ScheduleRow>, overlayTrips: map<string, RTTrip>,
                         overlayStopTimes: map<CellKey, StopOverlay>, now: Instant)
    returns (records: seq<DelayRecord>)
    ensures records == RecordsFromModels(schedules, overlayTrips, overlayStopTimes, now)
  {
    hide RealArrivalTime, IsDueArrival, EtaTextFor, DelayOf, CellOf;
    records := [];
    for k := 0 to |schedules|
      invariant records == RecordsFromModels(schedules[..k], overlayTrips, overlayStopTimes, now)
    {
      var s := schedules[k];
      assert schedules[..k + 1][..k] == schedules[..k];
      var rtTrip := Lookup(overlayTrips, s.trip.id);
      if rtTrip.Some? && IsRemovedTrip(rtTrip.value.relationship) {
        continue;
      }
      var overlay := Lookup(overlayStopTimes, CellOf(s));
      if overlay.None? {
        continue;
      }
      if overlay.value.exactMatch && overlay.value.row.relationship == SKIPPED {
        continue;
      }
      var delayInSeconds := DelayOf(overlay.value.row);
      var arrival := RealArrivalTime(s.stopTime.arrivalTime, delayInSeconds, now);
      if !IsDueArrival(arrival, now) {
        continue;
      }
      records := records + [RecordOf(s, delayInSeconds)];
    }
    assert schedules[..|schedules|] == schedules;
  }

  lemma RecordedWhenDue(s: ScheduleRow, overlayTrips: map<string, RTTrip>,
                        overlayStopTimes: map<CellKey, StopOverlay>, now: Instant, delayInSeconds: int)
    ensures var c := Classified(s, overlayTrips, overlayStopTimes, now);
            IsDueWithDelay(c) && c.delayInSeconds == delayInSeconds
            <==> IsRecorded(s, overlayTrips, overlayStopTimes, now, delayInSeconds)
  {
    if CellOf(s) in overlayStopTimes {
      var row := overlayStopTimes[CellOf(s)].row;
      DelayIs(row, delayInSeconds);
      DueIsCircularWindow(s.stopTime.arrivalTime, DelayOf(row), now);
    }
    hide IsDueArrival, RealArrivalTime, SinceArrival, EtaTextFor, DelayOf, IsDelay;
  }

  /** Which rows are recorded, and with what. */
  lemma {:induction false} RecordedExactly(schedules: seq<ScheduleRow>, overlayTrips: map<string, RTTrip>,
                                           overlayStopTimes: map<CellKey, StopOverlay>, now: Instant, r: DelayRecord)
    ensures r in RecordsFromModels(schedules, overlayTrips, overlayStopTimes, now)
       <==> exists s :: && s in schedules && IsRecorded(s, overlayTrips, overlayStopTimes, now, r.delayInSeconds)
                        && r.stopId == s.stop.id && r.routeCode == s.route.shortName
                        && r.scheduledTime == s.stopTime.arrivalTime
  {
    if schedules == [] {
    } else {
      hide Classified, IsDueWithDelay, IsRecorded;
      var n := |schedules| - 1;
      RecordedExactly(schedules[..n], overlayTrips, overlayStopTimes, now, r);
      RecordedWhenDue(schedules[n], overlayTrips, overlayStopTimes, now, r.delayInSeconds);
      assert schedules == schedules[..n] + [schedules[n]];
    }
  }

  /** Both paths, run on the same overlays at the same instant, give the same records in the same order. */
  method FastPathEqualsSlowPath(schedules: seq<ScheduleRow>, overlayTrips: map<string, RTTrip>,
                                overlayStopTimes: map<CellKey, StopOverlay>, now: Instant)
    returns (fast: seq<DelayRecord>, slow: seq<DelayRecord>)
    ensures fast == slow == RecordsFromModels(schedules, overlayTrips, overlayStopTimes, now)
  {
    fast := DueDelayRecords(schedules, overlayTrips, overlayStopTimes, now);
    var models := BuildRealtimeSchedules(schedules, overlayTrips, overlayStopTimes, now);
    hide Classified, IsDueWithDelay, RecordOf;
    slow := [];
    for k := 0 to |models|
      invariant slow == RecordsFromModels(schedules[..k], overlayTrips, overlayStopTimes, now)
    {
      assert schedules[..k + 1][..k] == schedules[..k];
      if IsDueWithDelay(models[k].Fields()) {
        slow := slow + [RecordOf(models[k].staticSchedule, models[k].delayInSeconds)];
      }
    }
    assert schedules[..|schedules|] == schedules;
  }
}
