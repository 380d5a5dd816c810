/** Moving the trips of a realtime payload to the present: each trip's stop times are shifted so that
    its first stop falls on the trip's anchor, and the payload is patched to match. */
module SeedShift {
  import opened Prelude
  import opened ClockTime
  import opened Records
  import opened RealtimeImport
  import opened ServiceDay

  datatype SeedRow = SeedRow(tripId: string, dataset: string, stopSequence: int,
                             arrivalTime: TimeOfDay, departureTime: TimeOfDay)

  // ---------- trips in first-seen order ----------

  predicate Distinct(ids: seq<string>) {
    forall a, b :: 0 <= a < b < |ids| ==> ids[a] != ids[b]
  }

  ghost predicate IsNamed(feed: Feed, id: string) {
    exists p :: 0 <= p < |feed| && NamesTrip(feed[p], id)
  }

  /** Whenever `later` is named, `earlier` has been named before. */
  ghost predicate NamedFirst(feed: Feed, earlier: string, later: string) {
    forall q :: 0 <= q < |feed| && NamesTrip(feed[q], later) ==> IsNamed(feed[..q], earlier)
  }

  /** The trips the payload names, each once, in the order in which they first appear. */
  ghost predicate IsTripOrder(order: seq<string>, feed: Feed) {
    Distinct(order)
    && (forall id :: id in order <==> IsNamed(feed, id))
    && (forall a, b :: 0 <= a < b < |order| ==> NamedFirst(feed, order[a], order[b]))
  }

  method TripOrder(payload: array<Entity>) returns (order: seq<string>)
    ensures IsTripOrder(order, payload[..])
  {
    order := [];
    var seen: set<string> := {};
    for k := 0 to payload.Length
      invariant IsTripOrder(order, payload[..k])
      invariant forall id :: id in seen <==> id in order
    {
      assert payload[..k + 1] == payload[..k] + [payload[k]];
      var e := payload[k];
      var id := if e.tripUpdate.Some? then EffectiveTripId(e.tripUpdate.value) else "";
      OrderStep(order, payload[..k], e, id);
      if id != "" && id !in seen {
        seen := seen + {id};
        order := order + [id];
      }
    }
    assert payload[..payload.Length] == payload[..];
  }

  lemma OrderStep(order: seq<string>, feed: Feed, e: Entity, id: string)
    requires IsTripOrder(order, feed)
    requires id == if e.tripUpdate.Some? then EffectiveTripId(e.tripUpdate.value) else ""
    ensures IsTripOrder(if id == "" || id in order then order else order + [id], feed + [e])
  {
    if e.tripUpdate.Some? {
      forall t { EffectiveTripIdIs(e.tripUpdate.value, t); }
    }
    hide EffectiveTripId;
    var order', feed' := if id == "" || id in order then order else order + [id], feed + [e];
    forall t ensures t in order' <==> IsNamed(feed', t) {
      if t in order {
        var p :| 0 <= p < |feed| && NamesTrip(feed[p], t);
        assert NamesTrip(feed'[p], t);
      }
      if t == id != "" { assert NamesTrip(feed'[|feed|], t); }
      if p :| 0 <= p < |feed'| && NamesTrip(feed'[p], t) {
        if p < |feed| { assert NamesTrip(feed[p], t); }
      }
    }
    forall a, b | 0 <= a < b < |order'| ensures NamedFirst(feed', order'[a], order'[b]) {
      NamedFirstStays(order, feed, e, id, a, b);
    }
  }

  lemma NamedFirstStays(order: seq<string>, feed: Feed, e: Entity, id: string, a: nat, b: nat)
    requires IsTripOrder(order, feed)
    requires id == if e.tripUpdate.Some? then EffectiveTripId(e.tripUpdate.value) else ""
    requires a < b && (b < |order| || (b == |order| && id !in order))
    ensures NamedFirst(feed + [e], order[a], if b < |order| then order[b] else id)
  {
    hide EffectiveTripId;
    var feed', later := feed + [e], if b < |order| then order[b] else id;
    assert IsNamed(feed, order[a]);
    forall q | 0 <= q < |feed'| && NamesTrip(feed'[q], later) ensures IsNamed(feed'[..q], order[a]) {
      if q == |feed| {
        assert feed'[..q] == feed;
      } else {
        assert IsNamed(feed, later) by { assert NamesTrip(feed[q], later); }
        assert feed'[..q] == feed[..q];
        assert NamedFirst(feed, order[a], order[b]);
      }
    }
  }

  // ---------- anchors and the shift ----------

  /** Two minutes from now, down to the minute. */
  function Base(now: Instant): Instant {
    (now + 2 * MINUTE) - (now + 2 * MINUTE) % MINUTE
  }

  /** Trips start ten minutes apart. */
  function Anchor(now: Instant, i: int): Instant {
    Base(now) + 10 * MINUTE * i
  }

  /** The first anchor is a whole minute, more than one and at most two minutes ahead; the others
      follow at ten-minute steps. */
  lemma AnchorsAre(now: Instant, i: int, j: int)
    ensures Anchor(now, 0) % MINUTE == 0 && now + MINUTE < Anchor(now, 0) <= now + 2 * MINUTE
    ensures Anchor(now, j) - Anchor(now, i) == 10 * MINUTE * (j - i)
  {
    var m := (now + 2 * MINUTE) / MINUTE;
    assert Base(now) == m * MINUTE;
  }

  /** datetime.combine(). */
  function Combine(d: Date, t: TimeOfDay): Instant {
    d * DAY + t
  }

  lemma CombineIs(d: Date, t: TimeOfDay)
    ensures DateOf(Combine(d, t)) == d && TimeOf(Combine(d, t)) == t
  {
  }

  predicate IsOfTrip(r: SeedRow, tripId: string, dataset: string) {
    r.tripId == tripId && r.dataset == dataset
  }

  /** The trip's stop with the lowest sequence; -1 when it has no rows. */
  function FirstStop(rows: seq<SeedRow>, tripId: string, dataset: string): (first: int)
    ensures -1 <= first < |rows|
    ensures first >= 0 ==> IsOfTrip(rows[first], tripId, dataset)
    ensures forall k :: 0 <= k < |rows| && IsOfTrip(rows[k], tripId, dataset) ==>
              first >= 0 && rows[first].stopSequence <= rows[k].stopSequence
  {
    if rows == [] then -1 else
    var n := |rows| - 1;
    var first := FirstStop(rows[..n], tripId, dataset);
    if IsOfTrip(rows[n], tripId, dataset) && (first < 0 || rows[n].stopSequence < rows[first].stopSequence) then n
    else first
  }

  function Moved(r: SeedRow, oldFirst: TimeOfDay, anchor: Instant): SeedRow {
    var t := TimeOf(r.arrivalTime - oldFirst + anchor);
    r.(arrivalTime := t, departureTime := t)
  }

  function IndexOf(order: seq<string>, id: string): (i: nat)
    requires id in order
    ensures i < |order| && order[i] == id
  {
    if order[0] == id then 0 else 1 + IndexOf(order[1..], id)
  }

  /** What becomes of one row when the first k trips of the order have been moved. */
  function ShiftedRow(rows: seq<SeedRow>, r: SeedRow, order: seq<string>, dataset: string, now: Instant, k: nat): SeedRow {
    if r.dataset == dataset && r.tripId in order && IndexOf(order, r.tripId) < k && FirstStop(rows, r.tripId, dataset) >= 0
    then Moved(r, rows[FirstStop(rows, r.tripId, dataset)].arrivalTime, Anchor(now, IndexOf(order, r.tripId)))
    else r
  }

  ghost predicate IsShifted(rows': seq<SeedRow>, rows: seq<SeedRow>, order: seq<string>, dataset: string, now: Instant) {
    |rows'| == |rows|
    && forall j :: 0 <= j < |rows| ==> rows'[j] == ShiftedRow(rows, rows[j], order, dataset, now, |order|)
  }

  lemma SameDay(today: Date, t: TimeOfDay, first: TimeOfDay, anchor: Instant)
    ensures TimeOf(Combine(today, t) + (anchor - Combine(today, first))) == TimeOf(t - first + anchor)
  {
  }

  /** Moves one trip, given that the rows of other trips are untouched by it. */
  method ShiftTrip(table: array<SeedRow>, tripId: string, dataset: string, today: Date, anchor: Instant)
    modifies table
    ensures var rows := old(table[..]);
            var first := FirstStop(rows, tripId, dataset);
            forall j :: 0 <= j < table.Length ==>
              table[j] == if IsOfTrip(rows[j], tripId, dataset) && first >= 0
                          then Moved(rows[j], rows[first].arrivalTime, anchor) else rows[j]
  {
    var first := FirstStop(table[..], tripId, dataset);
    if first < 0 {
      return;
    }
    var oldFirst := Combine(today, table[first].arrivalTime);
    var delta := anchor - oldFirst;
    ghost var firstArrival := table[first].arrivalTime;
    for j := 0 to table.Length
      invariant forall i :: 0 <= i < table.Length ==>
                  table[i] == if i < j && IsOfTrip(old(table[i]), tripId, dataset)
                              then Moved(old(table[i]), firstArrival, anchor) else old(table[i])
    {
      if IsOfTrip(table[j], tripId, dataset) {
        var naive := Combine(today, table[j].arrivalTime) + delta;
        SameDay(today, table[j].arrivalTime, firstArrival, anchor);
        table[j] := table[j].(arrivalTime := TimeOf(naive));
        table[j] := table[j].(departureTime := TimeOf(naive));
      }
    }
  }

  predicate SameRow(r: SeedRow, r': SeedRow) {
    r.tripId == r'.tripId && r.dataset == r'.dataset && r.stopSequence == r'.stopSequence
  }

  predicate SameRows(rows: seq<SeedRow>, rows': seq<SeedRow>) {
    |rows| == |rows'| && forall j :: 0 <= j < |rows| ==> SameRow(rows[j], rows'[j])
  }

  lemma {:induction false} FirstStopIgnoresTimes(rows: seq<SeedRow>, rows': seq<SeedRow>, tripId: string, dataset: string)
    requires SameRows(rows, rows')
    ensures FirstStop(rows, tripId, dataset) == FirstStop(rows', tripId, dataset)
  {
    if rows == [] {
    } else {
      FirstStopIgnoresTimes(rows[..|rows| - 1], rows'[..|rows| - 1], tripId, dataset);
    }
  }

  lemma IndexOfIs(order: seq<string>, k: nat)
    requires Distinct(order) && k < |order|
    ensures order[k] in order && IndexOf(order, order[k]) == k
  {
    var i := IndexOf(order, order[k]);
    assert order[i] == order[k];
  }

  lemma ShiftStep(rows: seq<SeedRow>, now: Instant, order: seq<string>, dataset: string, k: nat, table: seq<SeedRow>)
    requires Distinct(order) && k < |order| && |table| == |rows|
    requires forall j :: 0 <= j < |rows| ==> table[j] == ShiftedRow(rows, rows[j], order, dataset, now, k)
    ensures var first := FirstStop(table, order[k], dataset);
            forall j :: 0 <= j < |rows| ==>
              ShiftedRow(rows, rows[j], order, dataset, now, k + 1)
              == if IsOfTrip(table[j], order[k], dataset) && first >= 0
                 then Moved(table[j], table[first].arrivalTime, Anchor(now, k)) else table[j]
  {
    hide FirstStop, Moved;
    var id := order[k];
    IndexOfIs(order, k);
    forall j | 0 <= j < |rows| ensures SameRow(rows[j], table[j]) {
      MovedIsSameRow(rows, rows[j], order, dataset, now, k);
    }
    FirstStopIgnoresTimes(rows, table, id, dataset);
    var first := FirstStop(rows, id, dataset);
    forall j | 0 <= j < |rows|
      ensures ShiftedRow(rows, rows[j], order, dataset, now, k + 1)
           == if IsOfTrip(table[j], id, dataset) && first >= 0
              then Moved(table[j], table[first].arrivalTime, Anchor(now, k)) else table[j]
    {
      assert SameRow(rows[j], table[j]);
      if rows[j].dataset == dataset && rows[j].tripId in order && rows[j].tripId != id {
        assert IndexOf(order, rows[j].tripId) != k;
      }
    }
  }

  lemma MovedIsSameRow(rows: seq<SeedRow>, r: SeedRow, order: seq<string>, dataset: string, now: Instant, k: nat)
    ensures SameRow(r, ShiftedRow(rows, r, order, dataset, now, k))
  {
  }

  method ShiftStopTimes(table: array<SeedRow>, order: seq<string>, dataset: string, today: Date, now: Instant)
    requires Distinct(order)
    modifies table
    ensures IsShifted(table[..], old(table[..]), order, dataset, now)
  {
    ghost var rows := table[..];
    for k := 0 to |order|
      invariant forall j :: 0 <= j < table.Length ==> table[j] == ShiftedRow(rows, rows[j], order, dataset, now, k)
    {
      hide ShiftedRow, FirstStop;
      ShiftStep(rows, now, order, dataset, k, table[..]);
      ShiftTrip(table, order[k], dataset, today, Anchor(now, k));
    }
  }

  // ---------- what the shift keeps ----------

  /** The first stop of the i-th trip lands on that trip's anchor, and departs as it arrives. */
  lemma FirstStopLandsOnAnchor(rows: seq<SeedRow>, rows': seq<SeedRow>, order: seq<string>, dataset: string, now: Instant, i: nat)
    requires Distinct(order) && IsShifted(rows', rows, order, dataset, now)
    requires i < |order| && FirstStop(rows, order[i], dataset) >= 0
    ensures var first := FirstStop(rows', order[i], dataset);
            first == FirstStop(rows, order[i], dataset)
            && rows'[first].arrivalTime == rows'[first].departureTime == TimeOf(Anchor(now, i))
  {
    hide FirstStop, Anchor, TimeOf, IndexOf, IsOfTrip, SameRows;
    IndexOfIs(order, i);
    ShiftedIsSameRows(rows, rows', order, dataset, now);
    FirstStopIgnoresTimes(rows, rows', order[i], dataset);
    ShiftedFirstStop(rows, rows', order, dataset, now, i, FirstStop(rows, order[i], dataset));
  }

  lemma ShiftedFirstStop(rows: seq<SeedRow>, rows': seq<SeedRow>, order: seq<string>, dataset: string, now: Instant, i: nat, first: int)
    requires IsShifted(rows', rows, order, dataset, now)
    requires i < |order| && order[i] in order && IndexOf(order, order[i]) == i
    requires 0 <= first == FirstStop(rows, order[i], dataset)
    ensures rows'[first].arrivalTime == rows'[first].departureTime == TimeOf(Anchor(now, i))
  {
    hide FirstStop, Anchor, TimeOf, IndexOf;
    assert rows'[first] == ShiftedRow(rows, rows[first], order, dataset, now, |order|);
  }

  lemma ShiftedIsSameRows(rows: seq<SeedRow>, rows': seq<SeedRow>, order: seq<string>, dataset: string, now: Instant)
    requires IsShifted(rows', rows, order, dataset, now)
    ensures SameRows(rows, rows')
  {
    hide ShiftedRow;
    forall j | 0 <= j < |rows| ensures SameRow(rows[j], rows'[j]) {
      MovedIsSameRow(rows, rows[j], order, dataset, now, |order|);
    }
  }

  lemma MovedDifference(a: TimeOfDay, b: TimeOfDay, first: TimeOfDay, anchor: Instant)
    ensures TimeOf(TimeOf(a - first + anchor) - TimeOf(b - first + anchor)) == TimeOf(a - b)
  {
    TimeOfDifference(a - first + anchor, b - first + anchor);
  }

  /** Stops of one trip stay as far apart as they were, around the clock. */
  lemma SpacingIsKept(rows: seq<SeedRow>, rows': seq<SeedRow>, order: seq<string>, dataset: string, now: Instant, j: nat, k: nat)
    requires IsShifted(rows', rows, order, dataset, now)
    requires j < |rows| && k < |rows| && rows[j].tripId == rows[k].tripId && rows[j].dataset == rows[k].dataset
    ensures TimeOf(rows'[j].arrivalTime - rows'[k].arrivalTime) == TimeOf(rows[j].arrivalTime - rows[k].arrivalTime)
  {
    hide FirstStop, IndexOf, Anchor, TimeOf;
    var id := rows[j].tripId;
    if rows[j].dataset == dataset && id in order {
      var first := FirstStop(rows, id, dataset);
      MovedDifference(rows[j].arrivalTime, rows[k].arrivalTime, rows[first].arrivalTime, Anchor(now, IndexOf(order, id)));
    }
  }

  /** Rows of other datasets and of trips the payload does not name stay as they are. */
  lemma OtherRowsStay(rows: seq<SeedRow>, rows': seq<SeedRow>, order: seq<string>, dataset: string, now: Instant, j: nat)
    requires IsShifted(rows', rows, order, dataset, now)
    requires j < |rows| && (rows[j].dataset != dataset || rows[j].tripId !in order)
    ensures rows'[j] == rows[j]
  {
    assert rows'[j] == ShiftedRow(rows, rows[j], order, dataset, now, |order|);
  }

  lemma MovedAgain(t: TimeOfDay, first: TimeOfDay, anchor: Instant, next: Instant)
    ensures TimeOf(TimeOf(t - first + anchor) - TimeOf(anchor) + next) == TimeOf(t - first + next)
  {
    TimeOfDifference(t - first + anchor, anchor);
    TimeOfSum(TimeOf(t - first + anchor) - TimeOf(anchor), next);
    TimeOfSum(t - first, next);
  }

  lemma TimeOfSum(i: Instant, j: Instant)
    ensures TimeOf(i + j) == TimeOf(TimeOf(i) + j)
  {
  }

  /** Shifting twice is shifting once, to the later anchors. */
  lemma ShiftingTwiceIsShiftingOnce(rows: seq<SeedRow>, rows1: seq<SeedRow>, rows2: seq<SeedRow>, order: seq<string>,
                                    dataset: string, now: Instant, later: Instant)
    requires Distinct(order)
    requires IsShifted(rows1, rows, order, dataset, now) && IsShifted(rows2, rows1, order, dataset, later)
    ensures IsShifted(rows2, rows, order, dataset, later)
  {
    hide FirstStop, Anchor, TimeOf;
    ShiftedIsSameRows(rows, rows1, order, dataset, now);
    forall j | 0 <= j < |rows| ensures rows2[j] == ShiftedRow(rows, rows[j], order, dataset, later, |order|) {
      var id := rows[j].tripId;
      assert SameRow(rows[j], rows1[j]);
      FirstStopIgnoresTimes(rows, rows1, id, dataset);
      var first := FirstStop(rows, id, dataset);
      if rows[j].dataset == dataset && id in order {
        var i := IndexOf(order, id);
        FirstStopLandsOnAnchor(rows, rows1, order, dataset, now, i);
        MovedAgain(rows[j].arrivalTime, rows[first].arrivalTime, Anchor(now, i), Anchor(later, i));
      }
    }
  }

  /** Every stop of a named trip departs when it arrives. */
  lemma MovedStopsDepartOnArrival(rows: seq<SeedRow>, rows': seq<SeedRow>, order: seq<string>, dataset: string, now: Instant, j: nat)
    requires IsShifted(rows', rows, order, dataset, now)
    requires j < |rows| && rows[j].dataset == dataset && rows[j].tripId in order
    ensures rows'[j].departureTime == rows'[j].arrivalTime
  {
    hide Anchor, TimeOf, IndexOf;
    assert IsOfTrip(rows[j], rows[j].tripId, dataset) && IndexOf(order, rows[j].tripId) < |order|;
    assert FirstStop(rows, rows[j].tripId, dataset) >= 0;
    hide FirstStop;
    assert rows'[j] == ShiftedRow(rows, rows[j], order, dataset, now, |order|);
  }

  // ---------- the service of today ----------

  /** Any service of the dataset that runs today; the calendars and dates are the dataset's own. */
  method ServiceIdActiveOnLocalToday(calendars: seq<Calendar>, calendarDates: seq<CalendarDate>, today: Date)
    returns (serviceId: Option<string>)
    ensures serviceId.Some? ==> exists i :: 0 <= i < |calendars| && calendars[i].id == serviceId.value
                                            && CalendarRuns(calendars[i], calendarDates, today)
    ensures serviceId.None? ==> forall i :: 0 <= i < |calendars| && CalendarRuns(calendars[i], calendarDates, today) ==>
                                  exists j :: 0 <= j <= i && calendars[j].id == "" && CalendarRuns(calendars[j], calendarDates, today)
  {
    var removedServices := ServicesWith(calendarDates, today, RemovedService);
    for k := 0 to |calendars|
      invariant forall i :: 0 <= i < k ==> !CalendarRuns(calendars[i], calendarDates, today)
    {
      CalendarRunsIff(calendars[k], calendarDates, today);
      hide CalendarRuns, ServicesWith;
      if IsActiveOnDate(calendars[k], today) && calendars[k].id !in removedServices {
        if calendars[k].id == "" {
          return None;
        }
        return Some(calendars[k].id);
      }
    }
    return None;
  }

  /** Named trips of the dataset are moved to the service, when there is one. */
  function Repointed(t: Trip, order: seq<string>, dataset: string, serviceId: Option<string>): Trip {
    if serviceId.Some? && t.dataset == dataset && t.id in order then t.(serviceId := serviceId.value) else t
  }

  /** Nothing but the service of a trip changes, and only a named trip of the dataset gets the new one. */
  lemma RepointedOnlyIfNamed(t: Trip, order: seq<string>, dataset: string, serviceId: Option<string>)
    ensures var t' := Repointed(t, order, dataset, serviceId);
            && t'.id == t.id && t'.routeId == t.routeId && t'.direction == t.direction && t'.dataset == t.dataset
            && (t.dataset != dataset || t.id !in order || serviceId.None? ==> t'.serviceId == t.serviceId)
            && (t.dataset == dataset && t.id in order && serviceId.Some? ==> t'.serviceId == serviceId.value)
  {
  }

  /** So every stop of a named trip runs today. */
  lemma RepointedTripRunsToday(r: ScheduleRow, t: Trip, order: seq<string>, dataset: string, serviceId: Option<string>,
                               calendars: seq<Calendar>, calendarDates: seq<CalendarDate>, today: Date)
    requires serviceId.Some? && exists i :: 0 <= i < |calendars| && calendars[i].id == serviceId.value
                                            && CalendarRuns(calendars[i], calendarDates, today)
    requires t.dataset == dataset && t.id in order && r.trip == Repointed(t, order, dataset, serviceId)
    requires r.calendar in calendars && r.calendar.id == r.trip.serviceId
    requires forall i, j :: 0 <= i < j < |calendars| ==> calendars[i].id != calendars[j].id
    ensures RunsRegularly(r, calendarDates, today)
  {
    hide CalendarRuns;
    var i :| 0 <= i < |calendars| && calendars[i].id == serviceId.value && CalendarRuns(calendars[i], calendarDates, today);
    var j :| 0 <= j < |calendars| && calendars[j] == r.calendar;
    assert i == j;
  }

  method RepointTrips(trips: array<Trip>, order: seq<string>, dataset: string, serviceId: Option<string>)
    modifies trips
    ensures forall k :: 0 <= k < trips.Length ==> trips[k] == Repointed(old(trips[k]), order, dataset, serviceId)
  {
    if serviceId.None? {
      return;
    }
    for k := 0 to trips.Length
      invariant forall i :: 0 <= i < trips.Length ==>
                  trips[i] == if i < k then Repointed(old(trips[i]), order, dataset, serviceId) else old(trips[i])
    {
      if trips[k].dataset == dataset && trips[k].id in order {
        trips[k] := trips[k].(serviceId := serviceId.value);
      }
    }
  }

  // ---------- the payload ----------

  /** The start as strftime writes it, the time to the second; in the properties too if they are there. */
  function Patched(e: Entity, order: seq<string>, now: Instant): Entity {
    if e.tripUpdate.Some? && EffectiveTripId(e.tripUpdate.value) in order then
      var u := e.tripUpdate.value;
      var anchor := Anchor(now, IndexOf(order, EffectiveTripId(u)));
      var t := TimeOf(anchor);
      var date, time := Some(GoodDate(DateOf(anchor))), Some(Clock(t / HOUR, t / MINUTE % 60, t / SECOND % 60));
      e.(tripUpdate := Some(u.(trip := u.trip.(startDate := date, startTime := time),
                               properties := if u.properties.None? then None
                                             else Some(u.properties.value.(startDate := date, startTime := time)))))
    else e
  }

  method PatchPayload(payload: array<Entity>, order: seq<string>, now: Instant)
    modifies payload
    ensures forall k :: 0 <= k < payload.Length ==> payload[k] == Patched(old(payload[k]), order, now)
  {
    hide EffectiveTripId, Anchor, IndexOf, TimeOf, DateOf;
    for k := 0 to payload.Length
      invariant forall i :: 0 <= i < payload.Length ==>
                  payload[i] == if i < k then Patched(old(payload[i]), order, now) else old(payload[i])
    {
      if payload[k].tripUpdate.None? {
        continue;
      }
      var u := payload[k].tripUpdate.value;
      var id := EffectiveTripId(u);
      if id !in order {
        continue;
      }
      var anchor := Anchor(now, IndexOf(order, id));
      var t := TimeOf(anchor);
      var startDate, startTime := Some(GoodDate(DateOf(anchor))), Some(Clock(t / HOUR, t / MINUTE % 60, t / SECOND % 60));
      u := u.(trip := u.trip.(startDate := startDate, startTime := startTime));
      if u.properties.Some? {
        u := u.(properties := Some(u.properties.value.(startDate := startDate, startTime := startTime)));
      }
      payload[k] := payload[k].(tripUpdate := Some(u));
    }
  }

  /** Returns the service that the trips were moved to. */
  method ShiftStopTimesAndPatchPayloadForNow(table: array<SeedRow>, trips: array<Trip>, payload: array<Entity>, dataset: string,
                                             calendars: seq<Calendar>, calendarDates: seq<CalendarDate>, today: Date, now: Instant)
    returns (serviceId: Option<string>, ghost order: seq<string>)
    modifies table, trips, payload
    ensures IsTripOrder(order, old(payload[..]))
    ensures serviceId.Some? ==> exists i :: 0 <= i < |calendars| && calendars[i].id == serviceId.value
                                            && CalendarRuns(calendars[i], calendarDates, today)
    ensures forall k :: 0 <= k < trips.Length ==> trips[k] == Repointed(old(trips[k]), order, dataset, serviceId)
    ensures IsShifted(table[..], old(table[..]), order, dataset, now)
    ensures forall k :: 0 <= k < payload.Length ==> payload[k] == Patched(old(payload[k]), order, now)
  {
    hide IsShifted, CalendarRuns, Patched, Repointed;
    var tripOrder := TripOrder(payload);
    order := tripOrder;
    if tripOrder == [] {
      NothingShifted(table[..], dataset, now);
      forall e { NothingPatched(e, now); }
      forall t { NothingRepointed(t, dataset); }
      return None, order;
    }
    serviceId := ServiceIdActiveOnLocalToday(calendars, calendarDates, today);
    RepointTrips(trips, tripOrder, dataset, serviceId);
    ShiftStopTimes(table, tripOrder, dataset, today, now);
    PatchPayload(payload, tripOrder, now);
  }

  lemma NothingPatched(e: Entity, now: Instant)
    ensures Patched(e, [], now) == e
  {
  }

  lemma NothingRepointed(t: Trip, dataset: string)
    ensures Repointed(t, [], dataset, None) == t
  {
  }

  lemma NothingShifted(rows: seq<SeedRow>, dataset: string, now: Instant)
    ensures IsShifted(rows, rows, [], dataset, now)
  {
  }

  lemma WholeMinutesOfDay(minutes: int)
    ensures TimeOf(minutes * MINUTE) % MINUTE == 0
  {
    var days := minutes * MINUTE / DAY;
    assert TimeOf(minutes * MINUTE) == (minutes - 1440 * days) * MINUTE;
  }

  lemma AnchorIsWholeMinutes(now: Instant, i: int)
    ensures TimeOf(Anchor(now, i)) % MINUTE == 0
  {
    var minutes := (now + 2 * MINUTE) / MINUTE + 10 * i;
    assert Anchor(now, i) == minutes * MINUTE;
    hide *;
    WholeMinutesOfDay(minutes);
  }

  lemma ClockReadsBack(t: TimeOfDay)
    requires t % MINUTE == 0
    ensures ParseStartTime(Some(Clock(t / HOUR, t / MINUTE % 60, t / SECOND % 60))) == Ok(t)
  {
    var minutes := t / MINUTE;
    assert t == minutes * MINUTE;
    assert t / HOUR == minutes / 60 && t / SECOND == 60 * minutes;
    assert t / SECOND % 60 == 0;
    assert minutes == minutes / 60 * 60 + minutes % 60;
  }

  /** Importing the patched payload gives each of its trips the start its shifted timetable has. */
  lemma PatchedPayloadStartsOnAnchor(e: Entity, order: seq<string>, now: Instant, c: Context)
    requires Distinct(order) && IsUsable(Patched(e, order, now), c.directory)
    requires EffectiveTripId(e.tripUpdate.value) in order
    ensures IsUsable(e, c.directory)
    ensures var records := EntityRecords(Patched(e, order, now), c);
            var anchor := Anchor(now, IndexOf(order, EffectiveTripId(e.tripUpdate.value)));
            records.Ok? && |records.value.trips| == 1 && records.value.trips[0].TripRow?
            && records.value.trips[0].trip.startTime == TimeOf(anchor)
            && records.value.trips[0].trip.startDate == DateOf(anchor)
  {
    hide StopTimeRecords, Anchor, TimeOf, DateOf;
    var i := IndexOf(order, EffectiveTripId(e.tripUpdate.value));
    AnchorIsWholeMinutes(now, i);
    ClockReadsBack(TimeOf(Anchor(now, i)));
  }
}
