/** Which scheduled stops run on a date: the weekday query, less removed and inactive services,
    plus the services that calendar_dates adds. */
module ServiceDay {
  import opened Prelude
  import opened ClockTime
  import opened Records

  datatype ExceptionType = AddedService | RemovedService

  datatype CalendarDate = CalendarDate(serviceId: string, date: Date, exceptionType: ExceptionType)

  /** The static tables; the maps are the tables with a primary key. */
  datatype TableValues = TableValues(
    stopTimes: seq<StopTime>, trips: map<string, Trip>, stops: map<string, Stop>,
    routes: map<string, Route>, calendars: map<string, Calendar>, calendarDates: seq<CalendarDate>)
  {
    predicate KeyedById() {
      && (forall k :: k in trips ==> trips[k].id == k)
      && (forall k :: k in stops ==> stops[k].id == k)
      && (forall k :: k in routes ==> routes[k].id == k)
      && (forall k :: k in calendars ==> calendars[k].id == k)
    }
  }

  type Tables = t: TableValues | t.KeyedById() witness TableValues([], map[], map[], map[], map[], [])

  // ---------- the join and its conditions ----------

  function JoinOne(t: Tables, st: StopTime): seq<ScheduleRow> {
    if st.tripId in t.trips && st.stopId in t.stops then
      var trip := t.trips[st.tripId];
      if trip.routeId in t.routes && trip.serviceId in t.calendars then
        [ScheduleRow(st, t.routes[trip.routeId], t.calendars[trip.serviceId], t.stops[st.stopId], trip)]
      else []
    else []
  }

  /** The inner join, in the order of the stop times. */
  function Join(t: Tables, stopTimes: seq<StopTime>): seq<ScheduleRow> {
    if stopTimes == [] then []
    else Join(t, stopTimes[..|stopTimes| - 1]) + JoinOne(t, stopTimes[|stopTimes| - 1])
  }

  /** The join is inner: a row for each stop time whose trip, stop, route and calendar all exist. */
  lemma {:induction false} JoinIs(t: Tables, stopTimes: seq<StopTime>, r: ScheduleRow)
    ensures r in Join(t, stopTimes)
       <==> && r.stopTime in stopTimes
            && r.stopTime.tripId in t.trips && r.trip == t.trips[r.stopTime.tripId]
            && r.stopTime.stopId in t.stops && r.stop == t.stops[r.stopTime.stopId]
            && r.trip.routeId in t.routes && r.route == t.routes[r.trip.routeId]
            && r.trip.serviceId in t.calendars && r.calendar == t.calendars[r.trip.serviceId]
  {
    if stopTimes == [] {
    } else {
      JoinIs(t, stopTimes[..|stopTimes| - 1], r);
      assert stopTimes == stopTimes[..|stopTimes| - 1] + [stopTimes[|stopTimes| - 1]];
    }
  }

  /** The keys by which the tables are joined agree in every row. */
  lemma JoinedRowsFit(t: Tables, stopTimes: seq<StopTime>, r: ScheduleRow)
    requires r in Join(t, stopTimes)
    ensures r.trip.id == r.stopTime.tripId && r.stop.id == r.stopTime.stopId
    ensures r.route.id == r.trip.routeId && r.calendar.id == r.trip.serviceId
  {
    JoinIs(t, stopTimes, r);
  }

  /** One element of the list of SQL conditions. */
  datatype Condition =
    | WeekdayIs(day: int)
    | StopIs(stopId: string)
    | TripIn(trips: seq<string>)
    | ServiceIn(serviceIds: set<string>)
    | ArrivalBetween(startTime: Option<TimeOfDay>, endTime: Option<TimeOfDay>)

  predicate Holds(c: Condition, r: ScheduleRow) {
    match c
    case WeekdayIs(day) => 0 <= day < 7 && r.calendar.weekdays[day] == 1
    case StopIs(stopId) => r.stop.id == stopId
    case TripIn(trips) => r.trip.id in trips
    case ServiceIn(ids) => r.calendar.id in ids
    case ArrivalBetween(startTime, endTime) => ArrivalTimeConditions(startTime, endTime, r.stopTime.arrivalTime)
  }

  function Select(rows: seq<ScheduleRow>, p: ScheduleRow -> bool): seq<ScheduleRow> {
    if rows == [] then []
    else
      var r := rows[|rows| - 1];
      Select(rows[..|rows| - 1], p) + (if p(r) then [r] else [])
  }

  function AllHold(conditions: seq<Condition>): ScheduleRow -> bool {
    (r: ScheduleRow) => forall c :: c in conditions ==> Holds(c, r)
  }

  lemma AllHoldAppend(conditions: seq<Condition>, c: Condition)
    ensures forall r :: AllHold(conditions + [c])(r) <==> AllHold(conditions)(r) && Holds(c, r)
  {
    forall r ensures AllHold(conditions + [c])(r) <==> AllHold(conditions)(r) && Holds(c, r) {
      if AllHold(conditions + [c])(r) {
        assert c in conditions + [c];
        assert forall d :: d in conditions ==> d in conditions + [c];
      }
    }
  }

  /** The optional arguments of a query. */
  datatype Query = Query(stopId: Option<string>, startTime: Option<TimeOfDay>, endTime: Option<TimeOfDay>,
                         trips: Option<seq<string>>)

  /** An absent or empty stop id or trip list asks for nothing in particular. */
  predicate InScope(r: ScheduleRow, q: Query) {
    && (q.stopId.Some? && q.stopId.value != "" ==> r.stop.id == q.stopId.value)
    && (q.trips.Some? && q.trips.value != [] ==> r.trip.id in q.trips.value)
    && ArrivalTimeConditions(q.startTime, q.endTime, r.stopTime.arrivalTime)
  }

  function OnWeekday(day: int, q: Query): ScheduleRow -> bool {
    (r: ScheduleRow) => 0 <= day < 7 && r.calendar.weekdays[day] == 1 && InScope(r, q)
  }

  function OfServices(ids: set<string>, q: Query): ScheduleRow -> bool {
    (r: ScheduleRow) => r.calendar.id in ids && InScope(r, q)
  }

  lemma SelectSame(rows: seq<ScheduleRow>, p: ScheduleRow -> bool, p': ScheduleRow -> bool)
    requires forall r :: p(r) == p'(r)
    ensures Select(rows, p) == Select(rows, p')
  {
  }

  lemma SelectCount(rows: seq<ScheduleRow>, p: ScheduleRow -> bool, r: ScheduleRow)
    ensures multiset(Select(rows, p))[r] == if p(r) then multiset(rows)[r] else 0
  {
    if rows != [] {
      assert rows == rows[..|rows| - 1] + [rows[|rows| - 1]];
    }
  }

  class StaticScheduleModel {
    const row: ScheduleRow
    var isAddedException: bool

    constructor (r: ScheduleRow, added: bool)
      ensures row == r && isAddedException == added
    {
      row, isAddedException := r, added;
    }
  }

  function Rows(schedules: seq<StaticScheduleModel>): seq<ScheduleRow> {
    seq(|schedules|, i requires 0 <= i < |schedules| => schedules[i].row)
  }

  // ---------- queries ----------

  class ScheduleRepo {
    const tables: Tables

    constructor (t: Tables)
      ensures tables == t
    {
      tables := t;
    }

    method ExecuteStaticSchedules(conditions: seq<Condition>) returns (schedules: seq<StaticScheduleModel>)
      ensures Rows(schedules) == Select(Join(tables, tables.stopTimes), AllHold(conditions))
      ensures forall s :: s in schedules ==> fresh(s) && !s.isAddedException
    {
      var rows := Select(Join(tables, tables.stopTimes), AllHold(conditions));
      schedules := [];
      for k := 0 to |rows|
        invariant Rows(schedules) == rows[..k]
        invariant forall s :: s in schedules ==> fresh(s) && !s.isAddedException
      {
        var s := new StaticScheduleModel(rows[k], false);
        schedules := schedules + [s];
      }
    }

    /** The conditions both queries share. */
    method WithScope(conditions: seq<Condition>, q: Query) returns (all: seq<Condition>)
      ensures forall r :: AllHold(all)(r) <==> AllHold(conditions)(r) && InScope(r, q)
    {
      hide AllHold, ArrivalTimeConditions;
      all := conditions;
      if q.stopId.Some? && q.stopId.value != "" {
        AllHoldAppend(all, StopIs(q.stopId.value));
        all := all + [StopIs(q.stopId.value)];
      }
      if q.trips.Some? && q.trips.value != [] {
        AllHoldAppend(all, TripIn(q.trips.value));
        all := all + [TripIn(q.trips.value)];
      }
      AllHoldAppend(all, ArrivalBetween(q.startTime, q.endTime));
      all := all + [ArrivalBetween(q.startTime, q.endTime)];
    }

    method GetStaticSchedules(day: int, q: Query) returns (schedules: Result<seq<StaticScheduleModel>>)
      ensures schedules.Ok? <==> 0 <= day < 7
      ensures schedules.Ok? ==>
        && Rows(schedules.value) == Select(Join(tables, tables.stopTimes), OnWeekday(day, q))
        && forall s :: s in schedules.value ==> fresh(s) && !s.isAddedException
    {
      if !(0 <= day < 7) {
        return Raised("ValueError");
      }
      var conditions := WithScope([WeekdayIs(day)], q);
      OneHolds(WeekdayIs(day));
      var found := ExecuteStaticSchedules(conditions);
      hide AllHold, InScope;
      SelectSame(Join(tables, tables.stopTimes), AllHold(conditions), OnWeekday(day, q));
      schedules := Ok(found);
    }

    method GetStaticSchedulesForServiceIds(serviceIds: set<string>, q: Query) returns (schedules: seq<StaticScheduleModel>)
      ensures Rows(schedules) == Select(Join(tables, tables.stopTimes), OfServices(serviceIds, q))
      ensures forall s :: s in schedules ==> fresh(s) && !s.isAddedException
    {
      if serviceIds == {} {
        NothingSelected(Join(tables, tables.stopTimes), OfServices(serviceIds, q));
        return [];
      }
      var conditions := WithScope([ServiceIn(serviceIds)], q);
      OneHolds(ServiceIn(serviceIds));
      schedules := ExecuteStaticSchedules(conditions);
      hide AllHold, InScope;
      SelectSame(Join(tables, tables.stopTimes), AllHold(conditions), OfServices(serviceIds, q));
    }
  }

  lemma OneHolds(c: Condition)
    ensures forall r :: AllHold([c])(r) <==> Holds(c, r)
  {
    AllHoldAppend([], c);
    assert [] + [c] == [c];
  }

  lemma NothingSelected(rows: seq<ScheduleRow>, p: ScheduleRow -> bool)
    requires forall r :: !p(r)
    ensures Select(rows, p) == []
  {
  }

  // ---------- the calendar rule ----------

  function ServicesWith(calendarDates: seq<CalendarDate>, onDate: Date, kind: ExceptionType): set<string> {
    set d | d in calendarDates && d.date == onDate && d.exceptionType == kind :: d.serviceId
  }

  /** CalendarModel.is_active_on_date: in range and on its weekday. */
  predicate IsActiveOnDate(c: Calendar, d: Date) {
    if !(c.startDate <= d <= c.endDate) then false else c.weekdays[Weekday(d)] == 1
  }

  /** Regular service on the date: in range, on its weekday and not removed. */
  predicate CalendarRuns(c: Calendar, calendarDates: seq<CalendarDate>, onDate: Date) {
    && c.startDate <= onDate <= c.endDate && c.weekdays[Weekday(onDate)] == 1
    && CalendarDate(c.id, onDate, RemovedService) !in calendarDates
  }

  lemma ServicesAre(calendarDates: seq<CalendarDate>, onDate: Date, kind: ExceptionType, id: string)
    ensures id in ServicesWith(calendarDates, onDate, kind) <==> CalendarDate(id, onDate, kind) in calendarDates
  {
  }

  /** What the two checks of the code come to. */
  lemma CalendarRunsIff(c: Calendar, calendarDates: seq<CalendarDate>, onDate: Date)
    ensures IsActiveOnDate(c, onDate) && c.id !in ServicesWith(calendarDates, onDate, RemovedService)
       <==> CalendarRuns(c, calendarDates, onDate)
  {
    ServicesAre(calendarDates, onDate, RemovedService, c.id);
  }

  predicate RunsRegularly(r: ScheduleRow, calendarDates: seq<CalendarDate>, onDate: Date) {
    CalendarRuns(r.calendar, calendarDates, onDate)
  }

  function Regular(calendarDates: seq<CalendarDate>, onDate: Date): ScheduleRow -> bool {
    (r: ScheduleRow) => RunsRegularly(r, calendarDates, onDate)
  }

  /** The objects whose row runs regularly, in order. */
  function RegularSchedules(schedules: seq<StaticScheduleModel>, calendarDates: seq<CalendarDate>, onDate: Date): seq<StaticScheduleModel> {
    if schedules == [] then []
    else
      var s := schedules[|schedules| - 1];
      RegularSchedules(schedules[..|schedules| - 1], calendarDates, onDate)
      + (if RunsRegularly(s.row, calendarDates, onDate) then [s] else [])
  }

  lemma {:induction false} RegularSchedulesRows(schedules: seq<StaticScheduleModel>, calendarDates: seq<CalendarDate>, onDate: Date)
    ensures Rows(RegularSchedules(schedules, calendarDates, onDate)) == Select(Rows(schedules), Regular(calendarDates, onDate))
    ensures forall s :: s in RegularSchedules(schedules, calendarDates, onDate) ==> s in schedules
  {
    if schedules == [] {
    } else {
      hide RunsRegularly;
      var shorter := schedules[..|schedules| - 1];
      RegularSchedulesRows(shorter, calendarDates, onDate);
      assert Rows(schedules)[..|schedules| - 1] == Rows(shorter);
    }
  }

  function KeyOf(r: ScheduleRow): (string, int) {
    (r.trip.id, r.stopTime.stopSequence)
  }

  function KeysOf(rows: seq<ScheduleRow>): set<(string, int)> {
    set r | r in rows :: KeyOf(r)
  }

  function NotAmong(keys: set<(string, int)>): ScheduleRow -> bool {
    (r: ScheduleRow) => KeyOf(r) !in keys
  }

  class ScheduleService {
    const repo: ScheduleRepo

    constructor (r: ScheduleRepo)
      ensures repo == r
    {
      repo := r;
    }

    /** Drops what does not run regularly; what is kept is the same objects in the same order. */
    method RemoveExceptionsAndInactiveCalendars(schedules: seq<StaticScheduleModel>, onDate: Date)
      returns (kept: seq<StaticScheduleModel>)
      ensures kept == RegularSchedules(schedules, repo.tables.calendarDates, onDate)
    {
      var removedIds := ServicesWith(repo.tables.calendarDates, onDate, RemovedService);
      kept := [];
      for k := 0 to |schedules|
        invariant kept == RegularSchedules(schedules[..k], repo.tables.calendarDates, onDate)
      {
        assert schedules[..k + 1][..k] == schedules[..k];
        CalendarRunsIff(schedules[k].row.calendar, repo.tables.calendarDates, onDate);
        hide CalendarRuns, IsActiveOnDate, ServicesWith;
        if !IsActiveOnDate(schedules[k].row.calendar, onDate) {
          continue;
        }
        if schedules[k].row.calendar.id in removedIds {
          continue;
        }
        kept := kept + [schedules[k]];
      }
      assert schedules[..|schedules|] == schedules;
    }

    /** Appends the rows of added services whose key is not there yet, each flagged. */
    method AddInAddedExceptions(schedules: seq<StaticScheduleModel>, onDate: Date, q: Query)
      returns (result: seq<StaticScheduleModel>, ghost extras: seq<StaticScheduleModel>)
      ensures result == schedules + extras
      ensures forall s :: s in extras ==> fresh(s) && s.isAddedException
      ensures Rows(extras) ==
              Select(Select(Join(repo.tables, repo.tables.stopTimes), AddedInScope(repo.tables.calendarDates, onDate, q)),
                     NotAmong(KeysOf(Rows(schedules))))
    {
      var addedServiceIds := ServicesWith(repo.tables.calendarDates, onDate, AddedService);
      AddedSelection(Join(repo.tables, repo.tables.stopTimes), repo.tables.calendarDates, onDate, q);
      hide ServicesWith, IsAdded;
      var found: seq<StaticScheduleModel>;
      if addedServiceIds == {} {
        found := [];
        NothingSelected(Join(repo.tables, repo.tables.stopTimes), OfServices(addedServiceIds, q));
        extras := [];
        return schedules, extras;
      }
      found := repo.GetStaticSchedulesForServiceIds(addedServiceIds, q);
      var existingKeys := KeysOf(Rows(schedules));
      var extraSchedules: seq<StaticScheduleModel> := [];
      for k := 0 to |found|
        invariant Rows(extraSchedules) == Select(Rows(found[..k]), NotAmong(existingKeys))
        invariant forall s :: s in found ==> fresh(s)
        invariant forall s :: s in extraSchedules ==> s in found && s.isAddedException
      {
        assert Rows(found[..k + 1])[..k] == Rows(found[..k]);
        var schedule := found[k];
        assert schedule in found;
        if KeyOf(schedule.row) in existingKeys {
          continue;
        }
        schedule.isAddedException := true;
        extraSchedules := extraSchedules + [schedule];
      }
      assert found[..|found|] == found;
      extras := extraSchedules;
      result := schedules + extraSchedules;
    }

    /** The three steps every caller takes for a day and a date. */
    method SchedulesOn(day: int, onDate: Date, q: Query) returns (result: Result<seq<StaticScheduleModel>>)
      ensures result.Ok? <==> 0 <= day < 7
      ensures result.Ok? ==>
        && IsScheduleFor(Rows(result.value), repo.tables, day, onDate, q)
        && (forall s :: s in result.value ==>
              (s.isAddedException <==> !IsRegularFor(s.row, repo.tables.calendarDates, day, onDate)))
      // on the day the date falls on, this is the GTFS rule
      ensures Weekday(onDate) == day ==>
        && IsServiceOn(Rows(result.value), repo.tables, onDate, q)
        && (forall s :: s in result.value ==>
              (s.isAddedException <==> !RunsRegularly(s.row, repo.tables.calendarDates, onDate)))
    {
      hide Select, Join, InScope, RunsRegularly, RunsOn, IsAdded, IsServiceOn, IsScheduleFor, IsRegularFor, RegularSchedules;
      if !(0 <= day < 7) {
        return Raised("ValueError");
      }
      var onDay := repo.GetStaticSchedules(day, q);
      var regular := RemoveExceptionsAndInactiveCalendars(onDay.value, onDate);
      RegularSchedulesRows(onDay.value, repo.tables.calendarDates, onDate);
      assert forall s :: s in regular ==> !s.isAddedException;
      var all, extras := AddInAddedExceptions(regular, onDate, q);
      PipelineRefinesCalendarRule(repo.tables, day, onDate, q, Rows(regular), Rows(extras));
      assert Rows(all) == Rows(regular) + Rows(extras);
      forall s | s in all
        ensures s.isAddedException <==> !IsRegularFor(s.row, repo.tables.calendarDates, day, onDate)
      {
        if s in regular { RowIn(regular, s); } else { RowIn(extras, s); }
      }
      if Weekday(onDate) == day {
        ScheduleIsService(Rows(all), repo.tables, onDate, q);
        forall s | s in all
          ensures s.isAddedException <==> !RunsRegularly(s.row, repo.tables.calendarDates, onDate)
        {
          RegularOnItsDay(s.row, repo.tables.calendarDates, onDate);
        }
      }
      result := Ok(all);
    }
  }

  lemma RowIn(schedules: seq<StaticScheduleModel>, s: StaticScheduleModel)
    requires s in schedules
    ensures s.row in Rows(schedules)
  {
    var i :| 0 <= i < |schedules| && schedules[i] == s;
    assert Rows(schedules)[i] == s.row;
  }

  /** Carries the weekday flag of the day and runs regularly on the date. */
  predicate IsRegularFor(r: ScheduleRow, calendarDates: seq<CalendarDate>, day: int, onDate: Date) {
    0 <= day < 7 && r.calendar.weekdays[day] == 1 && RunsRegularly(r, calendarDates, onDate)
  }

  /** The rows are those of the join, as often as they occur there, that are in scope and regular for
      the day and date or added for the date. */
  ghost predicate IsScheduleFor(rows: seq<ScheduleRow>, t: Tables, day: int, onDate: Date, q: Query) {
    forall r :: multiset(rows)[r] ==
                if InScope(r, q) && (IsRegularFor(r, t.calendarDates, day, onDate) || IsAdded(r, t.calendarDates, onDate))
                then multiset(Join(t, t.stopTimes))[r] else 0
  }

  predicate IsAdded(r: ScheduleRow, calendarDates: seq<CalendarDate>, onDate: Date) {
    CalendarDate(r.calendar.id, onDate, AddedService) in calendarDates
  }

  function AddedInScope(calendarDates: seq<CalendarDate>, onDate: Date, q: Query): ScheduleRow -> bool {
    (r: ScheduleRow) => IsAdded(r, calendarDates, onDate) && InScope(r, q)
  }

  lemma AddedSelection(rows: seq<ScheduleRow>, calendarDates: seq<CalendarDate>, onDate: Date, q: Query)
    ensures Select(rows, AddedInScope(calendarDates, onDate, q))
         == Select(rows, OfServices(ServicesWith(calendarDates, onDate, AddedService), q))
  {
    forall r: ScheduleRow
      ensures IsAdded(r, calendarDates, onDate) <==> r.calendar.id in ServicesWith(calendarDates, onDate, AddedService)
    {
      ServicesAre(calendarDates, onDate, AddedService, r.calendar.id);
    }
    hide InScope, ServicesWith, IsAdded;
    SelectSame(rows, AddedInScope(calendarDates, onDate, q), OfServices(ServicesWith(calendarDates, onDate, AddedService), q));
  }

  /** The GTFS rule: a service runs when it runs regularly or is added for the date. */
  predicate RunsOn(r: ScheduleRow, calendarDates: seq<CalendarDate>, onDate: Date) {
    RunsRegularly(r, calendarDates, onDate) || IsAdded(r, calendarDates, onDate)
  }

  /** The rows are those of the join in scope whose service runs on the date, as often as they occur. */
  ghost predicate IsServiceOn(rows: seq<ScheduleRow>, t: Tables, onDate: Date, q: Query) {
    forall r :: multiset(rows)[r] ==
                if InScope(r, q) && RunsOn(r, t.calendarDates, onDate) then multiset(Join(t, t.stopTimes))[r] else 0
  }

  /** Spelled out over the calendar's fields and the rows of calendar_dates. */
  lemma RunsOnIff(r: ScheduleRow, calendarDates: seq<CalendarDate>, onDate: Date)
    ensures RunsOn(r, calendarDates, onDate)
       <==> || (&& r.calendar.startDate <= onDate <= r.calendar.endDate && r.calendar.weekdays[Weekday(onDate)] == 1
                && CalendarDate(r.calendar.id, onDate, RemovedService) !in calendarDates)
            || CalendarDate(r.calendar.id, onDate, AddedService) in calendarDates
  {
  }

  lemma RegularOnItsDay(r: ScheduleRow, calendarDates: seq<CalendarDate>, onDate: Date)
    ensures IsRegularFor(r, calendarDates, Weekday(onDate), onDate) <==> RunsRegularly(r, calendarDates, onDate)
  {
  }

  lemma ScheduleIsService(rows: seq<ScheduleRow>, t: Tables, onDate: Date, q: Query)
    requires IsScheduleFor(rows, t, Weekday(onDate), onDate, q)
    ensures IsServiceOn(rows, t, onDate, q)
  {
    hide IsRegularFor, RunsRegularly, InScope, Join, IsAdded;
    forall r
      ensures multiset(rows)[r] ==
              if InScope(r, q) && RunsOn(r, t.calendarDates, onDate) then multiset(Join(t, t.stopTimes))[r] else 0
    {
      RegularOnItsDay(r, t.calendarDates, onDate);
    }
  }

  /** The primary key of stop_times.txt. */
  predicate StopTimesAreUnique(stopTimes: seq<StopTime>) {
    forall i, j :: 0 <= i < j < |stopTimes| ==>
      !(stopTimes[i].tripId == stopTimes[j].tripId && stopTimes[i].stopSequence == stopTimes[j].stopSequence)
  }

  lemma JoinedFrom(t: Tables, stopTimes: seq<StopTime>)
    ensures forall r :: r in Join(t, stopTimes) ==>
      r.stopTime in stopTimes && r.trip.id == r.stopTime.tripId && JoinOne(t, r.stopTime) == [r]
  {
  }

  lemma {:induction false} JoinHasNoDuplicates(t: Tables, stopTimes: seq<StopTime>)
    requires StopTimesAreUnique(stopTimes)
    ensures forall r :: multiset(Join(t, stopTimes))[r] <= 1
  {
    if stopTimes == [] {
    } else {
      var n := |stopTimes| - 1;
      JoinHasNoDuplicates(t, stopTimes[..n]);
      JoinedFrom(t, stopTimes[..n]);
      assert stopTimes[n] !in stopTimes[..n];
      forall r | r in JoinOne(t, stopTimes[n]) ensures r !in Join(t, stopTimes[..n]) {
        assert r.stopTime == stopTimes[n];
      }
    }
  }

  /** Rows of the join with the same key are stops of one trip, so they have one calendar. */
  lemma SameKeySameCalendar(t: Tables, r1: ScheduleRow, r2: ScheduleRow)
    requires r1 in Join(t, t.stopTimes) && r2 in Join(t, t.stopTimes) && KeyOf(r1) == KeyOf(r2)
    ensures r1.calendar == r2.calendar
  {
    JoinIs(t, t.stopTimes, r1);
    JoinIs(t, t.stopTimes, r2);
  }

  predicate IsRegularResult(t: Tables, day: int, onDate: Date, q: Query, regular: seq<ScheduleRow>) {
    regular == Select(Select(Join(t, t.stopTimes), OnWeekday(day, q)), Regular(t.calendarDates, onDate))
  }

  predicate IsExtrasResult(t: Tables, onDate: Date, q: Query, regular: seq<ScheduleRow>, extras: seq<ScheduleRow>) {
    extras == Select(Select(Join(t, t.stopTimes), AddedInScope(t.calendarDates, onDate, q)), NotAmong(KeysOf(regular)))
  }

  lemma RegularCount(t: Tables, day: int, onDate: Date, q: Query, regular: seq<ScheduleRow>, r: ScheduleRow)
    requires IsRegularResult(t, day, onDate, q, regular)
    ensures multiset(regular)[r] ==
            if InScope(r, q) && IsRegularFor(r, t.calendarDates, day, onDate) then multiset(Join(t, t.stopTimes))[r] else 0
  {
    hide Select, Join, InScope, RunsRegularly;
    SelectCount(Join(t, t.stopTimes), OnWeekday(day, q), r);
    SelectCount(Select(Join(t, t.stopTimes), OnWeekday(day, q)), Regular(t.calendarDates, onDate), r);
  }

  /** The key of an added row is taken exactly when the row itself is regular: a row with the same key
      has the same calendar. */
  lemma KeyTakenIff(t: Tables, day: int, onDate: Date, q: Query, regular: seq<ScheduleRow>, r: ScheduleRow)
    requires IsRegularResult(t, day, onDate, q, regular) && r in Join(t, t.stopTimes) && InScope(r, q)
    ensures KeyOf(r) in KeysOf(regular) <==> IsRegularFor(r, t.calendarDates, day, onDate)
  {
    hide Select, Join, InScope, CalendarRuns;
    var joined := Join(t, t.stopTimes);
    if KeyOf(r) in KeysOf(regular) {
      var r' :| r' in regular && KeyOf(r') == KeyOf(r);
      RegularCount(t, day, onDate, q, regular, r');
      assert multiset(regular)[r'] > 0;
      assert multiset(joined)[r'] > 0;
      SameKeySameCalendar(t, r, r');
    } else {
      RegularCount(t, day, onDate, q, regular, r);
      assert r !in regular;
      assert multiset(joined)[r] > 0;
    }
  }

  lemma ExtrasCount(t: Tables, day: int, onDate: Date, q: Query, regular: seq<ScheduleRow>, extras: seq<ScheduleRow>, r: ScheduleRow)
    requires IsRegularResult(t, day, onDate, q, regular) && IsExtrasResult(t, onDate, q, regular, extras)
    ensures multiset(extras)[r] ==
            if InScope(r, q) && !IsRegularFor(r, t.calendarDates, day, onDate) && IsAdded(r, t.calendarDates, onDate)
            then multiset(Join(t, t.stopTimes))[r] else 0
  {
    hide Select, Join, InScope, IsRegularFor, IsAdded;
    var joined, added := Join(t, t.stopTimes), AddedInScope(t.calendarDates, onDate, q);
    SelectCount(joined, added, r);
    SelectCount(Select(joined, added), NotAmong(KeysOf(regular)), r);
    if r in joined && InScope(r, q) {
      KeyTakenIff(t, day, onDate, q, regular, r);
    } else {
      assert r !in joined ==> multiset(joined)[r] == 0;
    }
  }

  /** The three steps yield, as often as they occur in the join, the rows in scope that are regular for
      the day and date, then the other rows of services added for the date. */
  lemma PipelineRefinesCalendarRule(t: Tables, day: int, onDate: Date, q: Query, regular: seq<ScheduleRow>, extras: seq<ScheduleRow>)
    requires IsRegularResult(t, day, onDate, q, regular) && IsExtrasResult(t, onDate, q, regular, extras)
    ensures IsScheduleFor(regular + extras, t, day, onDate, q)
    ensures forall r :: r in regular ==> IsRegularFor(r, t.calendarDates, day, onDate)
    ensures forall r :: r in extras ==> !IsRegularFor(r, t.calendarDates, day, onDate)
  {
    hide Select, Join, InScope, IsRegularFor, IsAdded, IsRegularResult, IsExtrasResult;
    assert multiset(regular + extras) == multiset(regular) + multiset(extras);
    forall r
      ensures multiset(regular + extras)[r] ==
              if InScope(r, q) && (IsRegularFor(r, t.calendarDates, day, onDate) || IsAdded(r, t.calendarDates, onDate))
              then multiset(Join(t, t.stopTimes))[r] else 0
      ensures r in regular ==> IsRegularFor(r, t.calendarDates, day, onDate)
      ensures r in extras ==> !IsRegularFor(r, t.calendarDates, day, onDate)
    {
      RegularCount(t, day, onDate, q, regular, r);
      ExtrasCount(t, day, onDate, q, regular, extras, r);
      assert r in regular ==> multiset(regular)[r] > 0;
      assert r in extras ==> multiset(extras)[r] > 0;
    }
  }

  /** With the primary key of stop_times.txt every row comes out at most once. */
  lemma ServiceRowsComeOnce(rows: seq<ScheduleRow>, t: Tables, onDate: Date, q: Query, r: ScheduleRow)
    requires StopTimesAreUnique(t.stopTimes) && IsServiceOn(rows, t, onDate, q)
    ensures multiset(rows)[r] ==
            if r in Join(t, t.stopTimes) && InScope(r, q) && RunsOn(r, t.calendarDates, onDate) then 1 else 0
  {
    JoinHasNoDuplicates(t, t.stopTimes);
    hide Join, InScope, RunsOn;
    assert r in Join(t, t.stopTimes) <==> multiset(Join(t, t.stopTimes))[r] > 0;
  }
}
