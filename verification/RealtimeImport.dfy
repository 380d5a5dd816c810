/** Importing a GTFS Realtime trip-update feed: the ids it names, the static rows loaded for them,
    the records built from both, and the snapshot that replaces one dataset. */
module RealtimeImport {
  import opened Prelude
  import opened ClockTime
  import opened Records

  // ---------- the feed ----------

  /** A start_time that splits into three integers, or one that does not. */
  datatype ClockText = Unreadable | Clock(hours: int, minutes: int, seconds: int)

  datatype DateText = BadDate | GoodDate(date: Date)

  datatype SequenceText = NoSequence | BadSequence | Sequence(value: int)

  /** Times and dates sent as empty text are None, as they are treated as missing. */
  datatype TripDescriptor = TripDescriptor(tripId: Option<string>, routeId: Option<string>, directionId: Option<int>,
                                           startTime: Option<ClockText>, startDate: Option<DateText>,
                                           relationship: Option<string>)

  datatype TripProperties = TripProperties(tripId: Option<string>, startDate: Option<DateText>, startTime: Option<ClockText>)

  datatype StopTimeUpdate = StopTimeUpdate(stopId: Option<string>, stopSequence: SequenceText,
                                           relationship: Option<string>,
                                           arrivalDelay: Option<int>, departureDelay: Option<int>)

  datatype TripUpdate = TripUpdate(trip: TripDescriptor, properties: Option<TripProperties>, stopTimes: seq<StopTimeUpdate>)

  /** An entity without a trip_update, or with an empty one, has None. */
  datatype Entity = Entity(id: Option<string>, tripUpdate: Option<TripUpdate>)

  type Feed = seq<Entity>

  /** Python's `text or default`. */
  function OrElse(text: Option<string>, default: string): string {
    if text.Some? && text.value != "" then text.value else default
  }

  function RelationshipOf(trip: TripDescriptor): string {
    OrElse(trip.relationship, SCHEDULED)
  }

  /** trip_update.get("trip_properties") or {}. */
  function PropertiesOf(u: TripUpdate): TripProperties {
    if u.properties.Some? then u.properties.value else TripProperties(None, None, None)
  }

  /** The id of the running trip: a duplicate's own id if it has one. Empty when there is none. */
  function EffectiveTripId(u: TripUpdate): string {
    if RelationshipOf(u.trip) == DUPLICATED && OrElse(PropertiesOf(u).tripId, "") != ""
    then OrElse(PropertiesOf(u).tripId, "")
    else OrElse(u.trip.tripId, "")
  }

  function ParseStartTime(text: Option<ClockText>): Result<TimeOfDay> {
    match text
    case None => Ok(0)
    case Some(Unreadable) => Raised("ValueError")
    case Some(Clock(h, m, s)) => ConvertTo24Hours(h, m, s)
  }

  function ParseStartDate(text: Option<DateText>, fallback: Date): Result<Date> {
    match text
    case None => Ok(fallback)
    case Some(BadDate) => Raised("ValueError")
    case Some(GoodDate(d)) => Ok(d)
  }

  // ---------- what the feed means ----------

  predicate IsFilled(text: Option<string>) {
    text.Some? && text.value != ""
  }

  /** The trip an update is about: a duplicate under its own id when the properties give one, any other
      trip under the descriptor's. */
  predicate IsTripIdOf(u: TripUpdate, id: string) {
    && id != ""
    && if u.trip.relationship == Some("DUPLICATED") && u.properties.Some? && IsFilled(u.properties.value.tripId)
       then u.properties.value.tripId == Some(id)
       else u.trip.tripId == Some(id)
  }

  predicate IsTakenOut(trip: TripDescriptor) {
    trip.relationship == Some("CANCELED") || trip.relationship == Some("DELETED")
  }

  /** A missing or empty relationship means scheduled. */
  predicate IsRelationship(text: Option<string>, relationship: string) {
    if IsFilled(text) then text == Some(relationship) else relationship == "SCHEDULED"
  }

  /** Hours up to 47 are read, those past 23 as times of the next day. */
  predicate IsStartTime(text: Option<ClockText>, t: TimeOfDay) {
    match text
    case None => t == 0
    case Some(Unreadable) => false
    case Some(Clock(h, m, s)) =>
      0 <= h < 48 && 0 <= m < 60 && 0 <= s < 60 && t == TimeOf(h * HOUR + m * MINUTE + s * SECOND)
  }

  /** The descriptor's date comes before the properties', and today when neither has one. */
  predicate IsStartDate(u: TripUpdate, date: Date, today: Date) {
    if u.trip.startDate.Some? then u.trip.startDate == Some(GoodDate(date))
    else if u.properties.Some? && u.properties.value.startDate.Some? then u.properties.value.startDate == Some(GoodDate(date))
    else date == today
  }

  lemma OrElseIs(text: Option<string>, default: string)
    ensures IsFilled(text) ==> text == Some(OrElse(text, default))
    ensures !IsFilled(text) ==> OrElse(text, default) == default
  {
  }

  /** The computed id is the one meant, and empty when there is none. */
  lemma EffectiveTripIdIs(u: TripUpdate, id: string)
    ensures IsTripIdOf(u, id) <==> EffectiveTripId(u) == id && id != ""
  {
  }

  lemma TakenOutIff(trip: TripDescriptor)
    ensures IsRemovedTrip(RelationshipOf(trip)) <==> IsTakenOut(trip)
    ensures IsRelationship(trip.relationship, RelationshipOf(trip))
  {
  }

  lemma StartTimeIs(text: Option<ClockText>, t: TimeOfDay)
    ensures ParseStartTime(text) == Ok(t) <==> IsStartTime(text, t)
  {
    if text.Some? && text.value.Clock? {
      ConvertTo24HoursIs(text.value.hours, text.value.minutes, text.value.seconds, t);
    }
  }

  lemma StartDateIs(u: TripUpdate, date: Date, today: Date)
    ensures ParseStartDate(StartDateText(u), today) == Ok(date) <==> IsStartDate(u, date, today)
  {
  }

  // ---------- the ids a feed names ----------

  predicate NamesTrip(e: Entity, id: string) {
    e.tripUpdate.Some? && IsTripIdOf(e.tripUpdate.value, id)
  }

  /** Stops of a trip taken out of service are not named. */
  predicate NamesStop(e: Entity, id: string) {
    e.tripUpdate.Some? && !IsTakenOut(e.tripUpdate.value.trip) && StopIsIn(e.tripUpdate.value.stopTimes, id)
  }

  predicate StopIsIn(updates: seq<StopTimeUpdate>, id: string) {
    id != "" && exists i :: 0 <= i < |updates| && updates[i].stopId == Some(id)
  }

  ghost predicate IsFeedIds(feed: Feed, tripIds: set<string>, stopIds: set<string>) {
    (forall id :: id in tripIds <==> exists i :: 0 <= i < |feed| && NamesTrip(feed[i], id))
    && (forall id :: id in stopIds <==> exists i :: 0 <= i < |feed| && NamesStop(feed[i], id))
  }

  method CollectTripUpdateFeedIds(feed: Feed) returns (tripIds: set<string>, stopIds: set<string>)
    ensures IsFeedIds(feed, tripIds, stopIds)
  {
    tripIds, stopIds := {}, {};
    for k := 0 to |feed|
      invariant IsFeedIds(feed[..k], tripIds, stopIds)
    {
      var e := feed[k];
      ghost var tripsBefore, stopsBefore := tripIds, stopIds;
      if e.tripUpdate.Some? {
        var u := e.tripUpdate.value;
        var id := EffectiveTripId(u);
        forall x ensures IsTripIdOf(u, x) <==> x == id != "" { EffectiveTripIdIs(u, x); }
        TakenOutIff(u.trip);
        hide EffectiveTripId, IsTripIdOf, IsRemovedTrip, RelationshipOf, IsTakenOut;
        if id != "" {
          tripIds := tripIds + {id};
        }
        if !IsRemovedTrip(RelationshipOf(u.trip)) {
          for j := 0 to |u.stopTimes|
            invariant forall s :: s in stopIds <==> s in stopsBefore || StopIsIn(u.stopTimes[..j], s)
          {
            var stop := u.stopTimes[j].stopId;
            assert u.stopTimes[..j + 1] == u.stopTimes[..j] + [u.stopTimes[j]];
            if stop.Some? && stop.value != "" {
              stopIds := stopIds + {stop.value};
            }
          }
          assert u.stopTimes[..|u.stopTimes|] == u.stopTimes;
        }
      }
      NamesOneMore(feed, k, tripsBefore, stopsBefore, tripIds, stopIds);
    }
    assert feed[..|feed|] == feed;
  }

  lemma NamesOneMore(feed: Feed, k: nat, tripIds: set<string>, stopIds: set<string>, tripIds': set<string>, stopIds': set<string>)
    requires k < |feed| && IsFeedIds(feed[..k], tripIds, stopIds)
    requires forall id :: id in tripIds' <==> id in tripIds || NamesTrip(feed[k], id)
    requires forall id :: id in stopIds' <==> id in stopIds || NamesStop(feed[k], id)
    ensures IsFeedIds(feed[..k + 1], tripIds', stopIds')
  {
    hide NamesTrip, NamesStop;
    var longer := feed[..k + 1];
    assert longer == feed[..k] + [feed[k]];
    forall id ensures id in tripIds' <==> exists i :: 0 <= i < |longer| && NamesTrip(longer[i], id) {
      if NamesTrip(feed[k], id) { assert NamesTrip(longer[k], id); }
      if id in tripIds {
        var i :| 0 <= i < k && NamesTrip(feed[..k][i], id);
        assert NamesTrip(longer[i], id);
      }
      if i :| 0 <= i < |longer| && NamesTrip(longer[i], id) {
        if i < k { assert NamesTrip(feed[..k][i], id); }
      }
    }
    forall id ensures id in stopIds' <==> exists i :: 0 <= i < |longer| && NamesStop(longer[i], id) {
      if NamesStop(feed[k], id) { assert NamesStop(longer[k], id); }
      if id in stopIds {
        var i :| 0 <= i < k && NamesStop(feed[..k][i], id);
        assert NamesStop(longer[i], id);
      }
      if i :| 0 <= i < |longer| && NamesStop(longer[i], id) {
        if i < k { assert NamesStop(feed[..k][i], id); }
      }
    }
  }

  // ---------- static rows ----------

  datatype StaticStop = StaticStop(id: string, dataset: string)

  datatype TripInfo = TripInfo(routeId: string, direction: Option<int>)

  type TripDirectory = map<string, TripInfo>

  /** Everything the dataset has on its trips. */
  function DirectoryOf(trips: seq<Trip>, dataset: string): TripDirectory {
    if trips == [] then map[] else
    var rest, t := DirectoryOf(trips[..|trips| - 1], dataset), trips[|trips| - 1];
    if t.dataset == dataset then rest[t.id := TripInfo(t.routeId, t.direction)] else rest
  }

  function Restricted(directory: TripDirectory, ids: set<string>): TripDirectory {
    map id | id in directory && id in ids :: directory[id]
  }

  function StopsOf(stops: seq<StaticStop>, dataset: string): set<string> {
    set s | s in stops && s.dataset == dataset :: s.id
  }

  /** Only the named rows are read; a table nothing is wanted from is not queried. */
  method LoadRealtimeLookups(trips: seq<Trip>, stops: seq<StaticStop>, dataset: string,
                             tripIds: set<string>, stopIds: set<string>)
    returns (directory: TripDirectory, stopsInDb: set<string>)
    ensures directory == Restricted(DirectoryOf(trips, dataset), tripIds)
    ensures stopsInDb == StopsOf(stops, dataset) * stopIds
  {
    directory, stopsInDb := map[], {};
    if tripIds == {} && stopIds == {} {
      return;
    }
    if tripIds != {} {
      for k := 0 to |trips|
        invariant directory == Restricted(DirectoryOf(trips[..k], dataset), tripIds)
      {
        assert trips[..k + 1][..k] == trips[..k];
        var t := trips[k];
        if t.dataset == dataset && t.id in tripIds {
          directory := directory[t.id := TripInfo(t.routeId, t.direction)];
        }
      }
      assert trips[..|trips|] == trips;
    }
    if stopIds != {} {
      for k := 0 to |stops|
        invariant stopsInDb == StopsOf(stops[..k], dataset) * stopIds
      {
        assert stops[..k + 1] == stops[..k] + [stops[k]];
        var s := stops[k];
        if s.dataset == dataset && s.id in stopIds {
          stopsInDb := stopsInDb + {s.id};
        }
      }
      assert stops[..|stops|] == stops;
    }
  }

  // ---------- records ----------

  /** A record of either table. */
  datatype RtRow = TripRow(trip: RTTrip) | StopTimeRow(stopTime: RTStopTime)

  /** What the unique constraints and the de-duplication look at. */
  datatype RowKey = TripKey(tripId: string, routeId: string, dataset: string)
                  | StopTimeKey(stopId: string, tripId: string, stopSequence: int, dataset: string)

  function KeyOf(r: RtRow): RowKey {
    match r
    case TripRow(t) => TripKey(t.tripId, t.routeId, t.dataset)
    case StopTimeRow(s) => StopTimeKey(s.stopId, s.tripId, s.stopSequence, s.dataset)
  }

  /** The declared unique constraints: trip, route and dataset of a trip row; stop, trip, sequence and
      dataset of a stop row. */
  predicate SameUniqueFields(r1: RtRow, r2: RtRow) {
    || (r1.TripRow? && r2.TripRow? && r1.trip.tripId == r2.trip.tripId && r1.trip.routeId == r2.trip.routeId
        && r1.trip.dataset == r2.trip.dataset)
    || (r1.StopTimeRow? && r2.StopTimeRow? && r1.stopTime.stopId == r2.stopTime.stopId
        && r1.stopTime.tripId == r2.stopTime.tripId && r1.stopTime.stopSequence == r2.stopTime.stopSequence
        && r1.stopTime.dataset == r2.stopTime.dataset)
  }

  /** The de-duplication looks at exactly the fields of the constraints. */
  lemma KeysAreTheUniqueFields(r1: RtRow, r2: RtRow)
    ensures KeyOf(r1) == KeyOf(r2) <==> SameUniqueFields(r1, r2)
  {
  }

  function DatasetOf(r: RtRow): string {
    match r
    case TripRow(t) => t.dataset
    case StopTimeRow(s) => s.dataset
  }

  function TripIdOf(r: RtRow): string {
    match r
    case TripRow(t) => t.tripId
    case StopTimeRow(s) => s.tripId
  }

  datatype Built = Built(trips: seq<RtRow>, stopTimes: seq<RtRow>)

  /** What a build takes besides the feed. */
  datatype Context = Context(dataset: string, directory: TripDirectory, stops: set<string>, today: Date, createdAt: Instant)

  predicate IsImportable(s: StopTimeUpdate, stops: set<string>) {
    s.stopId.Some? && s.stopId.value != "" && s.stopId.value in stops && s.stopSequence.Sequence?
  }

  function StopTimeRecord(s: StopTimeUpdate, tripId: string, entityId: string, c: Context): RtRow
    requires IsImportable(s, c.stops)
  {
    StopTimeRow(RTStopTime(s.stopId.value, tripId, s.stopSequence.value, OrElse(s.relationship, SCHEDULED),
                           s.arrivalDelay, s.departureDelay, entityId, c.dataset, c.createdAt))
  }

  function StopTimeRecords(updates: seq<StopTimeUpdate>, tripId: string, entityId: string, c: Context): seq<RtRow> {
    if updates == [] then [] else
    var rest, s := StopTimeRecords(updates[..|updates| - 1], tripId, entityId, c), updates[|updates| - 1];
    if IsImportable(s, c.stops) then rest + [StopTimeRecord(s, tripId, entityId, c)] else rest
  }

  /** The feed's route, else the timetable's; empty when neither has one. */
  function RouteOf(trip: TripDescriptor, info: TripInfo): string {
    OrElse(trip.routeId, info.routeId)
  }

  /** Whether the entity is about a known trip with a route. */
  predicate IsUsable(e: Entity, directory: TripDirectory) {
    e.tripUpdate.Some?
    && var id := EffectiveTripId(e.tripUpdate.value);
    id != "" && id in directory && RouteOf(e.tripUpdate.value.trip, directory[id]) != ""
  }

  function DirectionOf(trip: TripDescriptor, info: TripInfo): int {
    if trip.directionId.Some? then trip.directionId.value
    else if info.direction.Some? then info.direction.value else 0
  }

  function StartDateText(u: TripUpdate): Option<DateText> {
    if u.trip.startDate.Some? then u.trip.startDate else PropertiesOf(u).startDate
  }

  function TripRecord(e: Entity, startTime: TimeOfDay, startDate: Date, c: Context): RtRow
    requires IsUsable(e, c.directory)
  {
    var u := e.tripUpdate.value;
    var id := EffectiveTripId(u);
    TripRow(RTTrip(id, RouteOf(u.trip, c.directory[id]), startTime, startDate, RelationshipOf(u.trip),
                   DirectionOf(u.trip, c.directory[id]), OrElse(e.id, ""), c.dataset, c.createdAt))
  }

  function EntityRecords(e: Entity, c: Context): Result<Built> {
    if !IsUsable(e, c.directory) then Ok(Built([], [])) else
    var u := e.tripUpdate.value;
    match ParseStartTime(u.trip.startTime)
    case Raised(error) => Raised(error)
    case Ok(startTime) =>
      match ParseStartDate(StartDateText(u), c.today)
      case Raised(error) => Raised(error)
      case Ok(startDate) =>
        Ok(Built([TripRecord(e, startTime, startDate, c)],
                 if IsRemovedTrip(RelationshipOf(u.trip)) then []
                 else StopTimeRecords(u.stopTimes, EffectiveTripId(u), OrElse(e.id, ""), c)))
  }

  /** Both lists before duplicates go; one unreadable time or date raises for the whole feed. */
  function RawRecords(feed: Feed, c: Context): Result<Built> {
    if feed == [] then Ok(Built([], [])) else
    match RawRecords(feed[..|feed| - 1], c)
    case Raised(error) => Raised(error)
    case Ok(raw) =>
      match EntityRecords(feed[|feed| - 1], c)
      case Raised(error) => Raised(error)
      case Ok(b) => Ok(Built(raw.trips + b.trips, raw.stopTimes + b.stopTimes))
  }

  lemma {:induction false} RaisedStaysRaised(feed: Feed, k: nat, c: Context)
    requires k <= |feed| && RawRecords(feed[..k], c).Raised?
    ensures RawRecords(feed, c) == RawRecords(feed[..k], c)
    decreases |feed|
  {
    if k == |feed| {
      assert feed[..k] == feed;
    } else {
      assert feed[..|feed| - 1][..k] == feed[..k];
      RaisedStaysRaised(feed[..|feed| - 1], k, c);
    }
  }

  // ---------- last one wins ----------

  /** Where a record of the key is in the dictionary; its length if nowhere. */
  function Slot(latest: seq<RtRow>, key: RowKey): (i: nat)
    ensures i <= |latest| && (i < |latest| ==> KeyOf(latest[i]) == key)
    ensures forall j :: 0 <= j < i ==> KeyOf(latest[j]) != key
  {
    if latest == [] then 0 else if KeyOf(latest[0]) == key then 0 else 1 + Slot(latest[1..], key)
  }

  /** An assignment to an insertion-ordered dictionary: a known key keeps its place. */
  function Put(latest: seq<RtRow>, r: RtRow): seq<RtRow> {
    var i := Slot(latest, KeyOf(r));
    if i < |latest| then latest[i := r] else latest + [r]
  }

  function Deduped(records: seq<RtRow>): seq<RtRow> {
    if records == [] then [] else Put(Deduped(records[..|records| - 1]), records[|records| - 1])
  }

  method DedupRecordsByKey(records: seq<RtRow>) returns (latest: seq<RtRow>)
    ensures latest == Deduped(records)
    ensures IsDedupOf(latest, records)
  {
    latest := [];
    for k := 0 to |records|
      invariant latest == Deduped(records[..k])
    {
      assert records[..k + 1][..k] == records[..k];
      latest := Put(latest, records[k]);
    }
    assert records[..|records|] == records;
    DedupedIsDedup(records);
  }

  predicate KeysDiffer(rows: seq<RtRow>) {
    forall i, j :: 0 <= i < j < |rows| ==> KeyOf(rows[i]) != KeyOf(rows[j])
  }

  /** The rows meet the declared unique constraint. */
  predicate AreUnique(rows: seq<RtRow>) {
    forall i, j :: 0 <= i < j < |rows| ==> !SameUniqueFields(rows[i], rows[j])
  }

  lemma AreUniqueIff(rows: seq<RtRow>)
    ensures AreUnique(rows) <==> KeysDiffer(rows)
  {
    hide SameUniqueFields, KeyOf;
    forall i, j | 0 <= i < j < |rows| ensures KeyOf(rows[i]) == KeyOf(rows[j]) <==> SameUniqueFields(rows[i], rows[j]) {
      KeysAreTheUniqueFields(rows[i], rows[j]);
    }
  }

  /** r is the last record of its key. */
  predicate IsLastOfKey(records: seq<RtRow>, p: nat, r: RtRow) {
    p < |records| && records[p] == r && forall q :: p < q < |records| ==> KeyOf(records[q]) != KeyOf(r)
  }

  ghost predicate HasLast(records: seq<RtRow>, r: RtRow) {
    exists p: nat :: IsLastOfKey(records, p, r)
  }

  ghost predicate HasKey(records: seq<RtRow>, key: RowKey) {
    exists p :: 0 <= p < |records| && KeyOf(records[p]) == key
  }

  /** Every occurrence of the later key comes after some occurrence of the earlier one. */
  ghost predicate FirstSeenBefore(records: seq<RtRow>, earlier: RowKey, later: RowKey) {
    forall q :: 0 <= q < |records| && KeyOf(records[q]) == later ==> HasKey(records[..q], earlier)
  }

  /** One row per key, the last one given, in the order in which the keys were first seen. */
  ghost predicate IsDedupOf(out: seq<RtRow>, records: seq<RtRow>) {
    KeysDiffer(out)
    && (forall i :: 0 <= i < |out| ==> HasLast(records, out[i]))
    && (forall q :: 0 <= q < |records| ==> HasKey(out, KeyOf(records[q])))
    && (forall i, j :: 0 <= i < j < |out| ==> FirstSeenBefore(records, KeyOf(out[i]), KeyOf(out[j])))
  }

  lemma {:induction false} DedupedIsDedup(records: seq<RtRow>)
    ensures IsDedupOf(Deduped(records), records)
  {
    if records == [] {
    } else {
      var shorter, r := records[..|records| - 1], records[|records| - 1];
      DedupedIsDedup(shorter);
      assert records == shorter + [r];
      hide Deduped, Put;
      PutKeepsDedup(Deduped(shorter), shorter, r);
      PutDefined(records);
    }
  }

  lemma PutDefined(records: seq<RtRow>)
    requires records != []
    ensures Deduped(records) == Put(Deduped(records[..|records| - 1]), records[|records| - 1])
  {
  }

  lemma PutKeepsDedup(out: seq<RtRow>, records: seq<RtRow>, r: RtRow)
    requires IsDedupOf(out, records)
    ensures IsDedupOf(Put(out, r), records + [r])
  {
    hide KeyOf, Slot, FirstSeenBefore;
    var out', records', slot := Put(out, r), records + [r], Slot(out, KeyOf(r));
    assert IsLastOfKey(records', |records|, r);
    forall i | 0 <= i < |out'| ensures HasLast(records', out'[i]) {
      if i != slot {
        assert HasLast(records, out[i]);
        var p: nat :| IsLastOfKey(records, p, out[i]);
        assert IsLastOfKey(records', p, out[i]);
      }
    }
    forall q | 0 <= q < |records'| ensures HasKey(out', KeyOf(records'[q])) {
      if q < |records| {
        assert HasKey(out, KeyOf(records[q]));
        var p :| 0 <= p < |out| && KeyOf(out[p]) == KeyOf(records[q]);
        assert KeyOf(out'[p]) == KeyOf(records'[q]);
      } else {
        assert KeyOf(out'[slot]) == KeyOf(r);
      }
    }
    forall i, j | 0 <= i < j < |out'| ensures FirstSeenBefore(records', KeyOf(out'[i]), KeyOf(out'[j])) {
      SeenBeforeStays(out, records, r, i, j);
    }
  }

  lemma SeenBeforeStays(out: seq<RtRow>, records: seq<RtRow>, r: RtRow, i: nat, j: nat)
    requires IsDedupOf(out, records) && i < j < |Put(out, r)|
    ensures FirstSeenBefore(records + [r], KeyOf(Put(out, r)[i]), KeyOf(Put(out, r)[j]))
  {
    hide KeyOf, Slot;
    var out', records' := Put(out, r), records + [r];
    assert KeyOf(out'[i]) == KeyOf(out[i]);
    assert HasLast(records, out[i]);
    var p: nat :| IsLastOfKey(records, p, out[i]);
    forall q | 0 <= q < |records'| && KeyOf(records'[q]) == KeyOf(out'[j])
      ensures HasKey(records'[..q], KeyOf(out'[i]))
    {
      if q == |records| {
        assert records'[..q][p] == out[i];
      } else {
        assert HasKey(out, KeyOf(records[q]));
        assert FirstSeenBefore(records, KeyOf(out[i]), KeyOf(out[j]));
        assert records'[..q] == records[..q];
      }
    }
  }

  // ---------- building ----------

  /** The records handed to the tables. */
  function ImportedRecords(feed: Feed, c: Context): Result<Built> {
    match RawRecords(feed, c)
    case Raised(error) => Raised(error)
    case Ok(raw) => Ok(Built(Deduped(raw.trips), Deduped(raw.stopTimes)))
  }

  method BuildRtTripAndStopTimeRecords(feed: Feed, c: Context) returns (built: Result<Built>)
    ensures built == ImportedRecords(feed, c)
  {
    hide RawRecords, StopTimeRecords, Deduped;
    var trips: seq<RtRow>, stopTimes: seq<RtRow> := [], [];
    RawRecordsOfNone(c);
    for k := 0 to |feed|
      invariant RawRecords(feed[..k], c) == Ok(Built(trips, stopTimes))
    {
      RawRecordsStep(feed, k, c);
      assert trips + [] == trips && stopTimes + [] == stopTimes;
      var e := feed[k];
      if !IsUsable(e, c.directory) {
        continue;
      }
      var u := e.tripUpdate.value;
      var startTime := ParseStartTime(u.trip.startTime);
      if startTime.Raised? {
        RaisedStaysRaised(feed, k + 1, c);
        return Raised(startTime.error);
      }
      var startDate := ParseStartDate(StartDateText(u), c.today);
      if startDate.Raised? {
        RaisedStaysRaised(feed, k + 1, c);
        return Raised(startDate.error);
      }
      trips := trips + [TripRecord(e, startTime.value, startDate.value, c)];
      if IsRemovedTrip(RelationshipOf(u.trip)) {
        continue;
      }
      var ofEntity := StopTimeRecordsOf(u.stopTimes, EffectiveTripId(u), OrElse(e.id, ""), c);
      stopTimes := stopTimes + ofEntity;
    }
    assert feed[..|feed|] == feed;
    var latestTrips := DedupRecordsByKey(trips);
    var latestStopTimes := DedupRecordsByKey(stopTimes);
    return Ok(Built(latestTrips, latestStopTimes));
  }

  method StopTimeRecordsOf(updates: seq<StopTimeUpdate>, tripId: string, entityId: string, c: Context) returns (records: seq<RtRow>)
    ensures records == StopTimeRecords(updates, tripId, entityId, c)
  {
    records := [];
    for j := 0 to |updates|
      invariant records == StopTimeRecords(updates[..j], tripId, entityId, c)
    {
      assert updates[..j + 1][..j] == updates[..j];
      if !IsImportable(updates[j], c.stops) {
        continue;
      }
      records := records + [StopTimeRecord(updates[j], tripId, entityId, c)];
    }
    assert updates[..|updates|] == updates;
  }

  lemma RawRecordsOfNone(c: Context)
    ensures RawRecords([], c) == Ok(Built([], []))
  {
  }

  lemma RawRecordsStep(feed: Feed, k: nat, c: Context)
    requires k < |feed|
    ensures feed[..k + 1] != []
    ensures RawRecords(feed[..k + 1], c) ==
            match RawRecords(feed[..k], c)
            case Raised(error) => Raised(error)
            case Ok(raw) =>
              match EntityRecords(feed[k], c)
              case Raised(error) => Raised(error)
              case Ok(b) => Ok(Built(raw.trips + b.trips, raw.stopTimes + b.stopTimes))
  {
    assert feed[..k + 1][..k] == feed[..k];
  }

  // ---------- restricted lookups ----------

  /** The ids the lookups are loaded for leave out nothing an entity needs. */
  ghost predicate Covers(feed: Feed, tripIds: set<string>, stopIds: set<string>) {
    forall i, id :: 0 <= i < |feed| ==>
      (NamesTrip(feed[i], id) ==> id in tripIds) && (NamesStop(feed[i], id) ==> id in stopIds)
  }

  function RestrictedContext(c: Context, tripIds: set<string>, stopIds: set<string>): Context {
    c.(directory := Restricted(c.directory, tripIds), stops := c.stops * stopIds)
  }

  /** Building from the rows the feed names gives what building from the whole tables gives. */
  lemma RestrictedLookupsPreserveMeaning(feed: Feed, c: Context, tripIds: set<string>, stopIds: set<string>)
    requires IsFeedIds(feed, tripIds, stopIds)
    ensures ImportedRecords(feed, RestrictedContext(c, tripIds, stopIds)) == ImportedRecords(feed, c)
  {
    hide RawRecords, NamesTrip, NamesStop;
    RestrictedRawRecords(feed, c, tripIds, stopIds);
  }

  lemma {:induction false} RestrictedRawRecords(feed: Feed, c: Context, tripIds: set<string>, stopIds: set<string>)
    requires Covers(feed, tripIds, stopIds)
    ensures RawRecords(feed, RestrictedContext(c, tripIds, stopIds)) == RawRecords(feed, c)
  {
    if feed == [] {
    } else {
      hide EntityRecords;
      var e := feed[|feed| - 1];
      RestrictedRawRecords(feed[..|feed| - 1], c, tripIds, stopIds);
      RestrictedEntityRecords(e, c, tripIds, stopIds);
    }
  }

  lemma RestrictedEntityRecords(e: Entity, c: Context, tripIds: set<string>, stopIds: set<string>)
    requires forall id :: NamesTrip(e, id) ==> id in tripIds
    requires forall id :: NamesStop(e, id) ==> id in stopIds
    ensures EntityRecords(e, RestrictedContext(c, tripIds, stopIds)) == EntityRecords(e, c)
  {
    hide StopTimeRecords, ParseStartTime, ParseStartDate;
    if IsUsable(e, c.directory) {
      var u := e.tripUpdate.value;
      EffectiveTripIdIs(u, EffectiveTripId(u));
      TakenOutIff(u.trip);
      assert NamesTrip(e, EffectiveTripId(u));
      if !IsRemovedTrip(RelationshipOf(u.trip)) {
        forall id | StopIsIn(u.stopTimes, id) ensures id in stopIds { assert NamesStop(e, id); }
        RestrictedStopTimeRecords(u.stopTimes, EffectiveTripId(u), OrElse(e.id, ""), c, tripIds, stopIds);
      }
    }
  }

  lemma {:induction false} RestrictedStopTimeRecords(updates: seq<StopTimeUpdate>, tripId: string, entityId: string,
                                                     c: Context, tripIds: set<string>, stopIds: set<string>)
    requires forall id :: StopIsIn(updates, id) ==> id in stopIds
    ensures StopTimeRecords(updates, tripId, entityId, RestrictedContext(c, tripIds, stopIds))
         == StopTimeRecords(updates, tripId, entityId, c)
  {
    if updates == [] {
    } else {
      var shorter, s := updates[..|updates| - 1], updates[|updates| - 1];
      forall id | StopIsIn(shorter, id) ensures id in stopIds {
        var i :| 0 <= i < |shorter| && shorter[i].stopId == Some(id);
        assert updates[i].stopId == Some(id);
      }
      RestrictedStopTimeRecords(shorter, tripId, entityId, c, tripIds, stopIds);
      if s.stopId.Some? && s.stopId.value != "" {
        assert StopIsIn(updates, s.stopId.value);
      }
    }
  }

  // ---------- what the records say ----------

  /** The entity is about the trip, which the timetable knows, and one of them gives it a route. */
  predicate IsKnown(e: Entity, directory: TripDirectory, id: string) {
    && e.tripUpdate.Some? && IsTripIdOf(e.tripUpdate.value, id) && id in directory
    && (IsFilled(e.tripUpdate.value.trip.routeId) || directory[id].routeId != "")
  }

  predicate IsEntityId(e: Entity, id: string) {
    if e.id.Some? then e.id == Some(id) else id == ""
  }

  /** Field by field, the stop record is the update's, of a stop the timetable knows. */
  predicate SaysUpdate(r: RTStopTime, e: Entity, s: StopTimeUpdate, c: Context) {
    && s.stopId == Some(r.stopId) && r.stopId != "" && r.stopId in c.stops
    && s.stopSequence == Sequence(r.stopSequence)
    && r.arrivalDelay == s.arrivalDelay && r.departureDelay == s.departureDelay
    && IsRelationship(s.relationship, r.relationship)
    && IsEntityId(e, r.entityId) && r.dataset == c.dataset && r.createdAt == c.createdAt
  }

  ghost predicate IsStopRecord(e: Entity, c: Context, r: RtRow) {
    && r.StopTimeRow? && IsKnown(e, c.directory, r.stopTime.tripId) && !IsTakenOut(e.tripUpdate.value.trip)
    && exists j :: 0 <= j < |e.tripUpdate.value.stopTimes| && SaysUpdate(r.stopTime, e, e.tripUpdate.value.stopTimes[j], c)
  }

  /** The trip record takes route and direction from the feed, else from the timetable. */
  ghost predicate IsTripRecord(e: Entity, c: Context, r: RtRow) {
    && r.TripRow? && IsKnown(e, c.directory, r.trip.tripId)
    && var u, t, info := e.tripUpdate.value, r.trip, c.directory[r.trip.tripId];
    && IsRelationship(u.trip.relationship, t.relationship)
    && (if IsFilled(u.trip.routeId) then u.trip.routeId == Some(t.routeId) else t.routeId == info.routeId)
    && (if u.trip.directionId.Some? then u.trip.directionId == Some(t.direction)
        else if info.direction.Some? then info.direction == Some(t.direction)
        else t.direction == 0)
    && IsStartTime(u.trip.startTime, t.startTime) && IsStartDate(u, t.startDate, c.today)
    && IsEntityId(e, t.entityId) && t.dataset == c.dataset && t.createdAt == c.createdAt
  }

  lemma UsableIs(e: Entity, directory: TripDirectory, id: string)
    ensures IsKnown(e, directory, id) <==> IsUsable(e, directory) && EffectiveTripId(e.tripUpdate.value) == id
  {
    if e.tripUpdate.Some? {
      var u := e.tripUpdate.value;
      EffectiveTripIdIs(u, id);
      EffectiveTripIdIs(u, EffectiveTripId(u));
      if id in directory {
        OrElseIs(u.trip.routeId, directory[id].routeId);
      }
    }
    hide EffectiveTripId, IsTripIdOf, OrElse;
  }

  ghost predicate SomeEntitySays(feed: Feed, c: Context, r: RtRow) {
    exists i :: 0 <= i < |feed| && (IsStopRecord(feed[i], c, r) || IsTripRecord(feed[i], c, r))
  }

  lemma StopTimeRecordSays(s: StopTimeUpdate, tripId: string, e: Entity, c: Context, r: RtRow)
    ensures IsImportable(s, c.stops) && r == StopTimeRecord(s, tripId, OrElse(e.id, ""), c)
       <==> r.StopTimeRow? && r.stopTime.tripId == tripId && SaysUpdate(r.stopTime, e, s, c)
  {
    OrElseIs(s.relationship, SCHEDULED);
    OrElseIs(e.id, "");
    hide OrElse;
  }

  lemma {:induction false} StopTimeRecordsSay(updates: seq<StopTimeUpdate>, tripId: string, e: Entity, c: Context, r: RtRow)
    ensures r in StopTimeRecords(updates, tripId, OrElse(e.id, ""), c)
       <==> && r.StopTimeRow? && r.stopTime.tripId == tripId
            && exists j :: 0 <= j < |updates| && SaysUpdate(r.stopTime, e, updates[j], c)
  {
    if updates == [] {
    } else {
      var shorter, s := updates[..|updates| - 1], updates[|updates| - 1];
      StopTimeRecordsSay(shorter, tripId, e, c, r);
      StopTimeRecordSays(s, tripId, e, c, r);
      hide SaysUpdate, OrElse;
      assert updates == shorter + [s];
    }
  }

  lemma TripRecordSays(e: Entity, startTime: TimeOfDay, startDate: Date, c: Context, r: RtRow)
    requires IsUsable(e, c.directory)
    requires ParseStartTime(e.tripUpdate.value.trip.startTime) == Ok(startTime)
    requires ParseStartDate(StartDateText(e.tripUpdate.value), c.today) == Ok(startDate)
    ensures r == TripRecord(e, startTime, startDate, c) <==> IsTripRecord(e, c, r)
  {
    var u := e.tripUpdate.value;
    var id := EffectiveTripId(u);
    if r.TripRow? {
      UsableIs(e, c.directory, r.trip.tripId);
      StartTimeIs(u.trip.startTime, r.trip.startTime);
      StartDateIs(u, r.trip.startDate, c.today);
    }
    TakenOutIff(u.trip);
    OrElseIs(u.trip.routeId, c.directory[id].routeId);
    OrElseIs(e.id, "");
    hide OrElse, EffectiveTripId, IsKnown, IsUsable, ParseStartTime, ParseStartDate, StartDateText, IsStartTime, IsStartDate,
         RelationshipOf;
  }

  lemma EntityRecordsSay(e: Entity, c: Context, r: RtRow)
    requires EntityRecords(e, c).Ok?
    ensures var b := EntityRecords(e, c).value;
            && (r in b.stopTimes <==> IsStopRecord(e, c, r))
            && (r in b.trips <==> IsTripRecord(e, c, r))
  {
    if IsUsable(e, c.directory) {
      var u := e.tripUpdate.value;
      TripRecordSays(e, ParseStartTime(u.trip.startTime).value, ParseStartDate(StartDateText(u), c.today).value, c, r);
      UsableIs(e, c.directory, TripIdOf(r));
      TakenOutIff(u.trip);
      StopTimeRecordsSay(u.stopTimes, EffectiveTripId(u), e, c, r);
    } else {
      UsableIs(e, c.directory, TripIdOf(r));
    }
    hide StopTimeRecords, ParseStartTime, ParseStartDate, StartDateText, SaysUpdate, IsKnown, EffectiveTripId, IsUsable, OrElse,
         IsRemovedTrip, RelationshipOf, IsTakenOut, TripRecord;
  }

  lemma {:induction false} RawRecordsSay(feed: Feed, c: Context, r: RtRow)
    requires RawRecords(feed, c).Ok?
    ensures var raw := RawRecords(feed, c).value;
            && (r in raw.stopTimes <==> r.StopTimeRow? && SomeEntitySays(feed, c, r))
            && (r in raw.trips <==> r.TripRow? && SomeEntitySays(feed, c, r))
  {
    if feed == [] {
    } else {
      hide EntityRecords, IsStopRecord, IsTripRecord;
      var shorter, e := feed[..|feed| - 1], feed[|feed| - 1];
      RawRecordsSay(shorter, c, r);
      EntityRecordsSay(e, c, r);
      SaidByOneMore(shorter, e, c, r);
      KindOfRecord(e, c, r);
      assert feed == shorter + [e];
    }
  }

  lemma SaidByOneMore(feed: Feed, e: Entity, c: Context, r: RtRow)
    ensures SomeEntitySays(feed + [e], c, r) <==> SomeEntitySays(feed, c, r) || IsStopRecord(e, c, r) || IsTripRecord(e, c, r)
  {
    hide IsStopRecord, IsTripRecord;
    var longer := feed + [e];
    assert longer[|feed|] == e;
    if i :| 0 <= i < |feed| && (IsStopRecord(feed[i], c, r) || IsTripRecord(feed[i], c, r)) {
      assert longer[i] == feed[i];
    }
    if i :| 0 <= i < |longer| && (IsStopRecord(longer[i], c, r) || IsTripRecord(longer[i], c, r)) {
      if i < |feed| { assert longer[i] == feed[i]; }
    }
  }

  lemma KindOfRecord(e: Entity, c: Context, r: RtRow)
    ensures IsStopRecord(e, c, r) ==> r.StopTimeRow?
    ensures IsTripRecord(e, c, r) ==> r.TripRow?
  {
  }

  /** Nothing is imported that no entity says, and whatever an entity says is imported unless a
      later record has its key. */
  lemma ImportedRecordsAreWhatTheFeedSays(feed: Feed, c: Context, r: RtRow)
    requires ImportedRecords(feed, c).Ok?
    ensures var b := ImportedRecords(feed, c).value;
            && (r in b.trips + b.stopTimes ==> SomeEntitySays(feed, c, r))
            && (SomeEntitySays(feed, c, r) ==> HasKey(if r.TripRow? then b.trips else b.stopTimes, KeyOf(r)))
  {
    var raw := RawRecords(feed, c).value;
    RawRecordsSay(feed, c, r);
    hide RawRecords, Deduped, SomeEntitySays, KeyOf;
    KeptFrom(raw.trips, r);
    KeptFrom(raw.stopTimes, r);
  }

  lemma KeptFrom(rows: seq<RtRow>, r: RtRow)
    ensures r in Deduped(rows) ==> r in rows
    ensures r in rows ==> HasKey(Deduped(rows), KeyOf(r))
  {
    hide Deduped, KeyOf;
    if r in Deduped(rows) {
      var i :| 0 <= i < |Deduped(rows)| && Deduped(rows)[i] == r;
      DedupedRowIsGiven(rows, i);
    }
    if r in rows {
      var p :| 0 <= p < |rows| && rows[p] == r;
      var i := GivenKeyIsKept(rows, p);
    }
  }

  // ---------- what the records keep ----------

  /** The update has a readable sequence and a stop the timetable knows. */
  predicate GivesStopTime(s: StopTimeUpdate, stops: set<string>) {
    s.stopSequence.Sequence? && IsFilled(s.stopId) && s.stopId.value in stops
  }

  /** Some entity gives the trip stop rows: it is about that trip, which runs, and one of its
      updates can be imported. */
  predicate SuppliesStops(e: Entity, c: Context, tripId: string) {
    && IsKnown(e, c.directory, tripId) && !IsTakenOut(e.tripUpdate.value.trip)
    && exists j :: 0 <= j < |e.tripUpdate.value.stopTimes| && GivesStopTime(e.tripUpdate.value.stopTimes[j], c.stops)
  }

  ghost predicate SomeSuppliesStops(feed: Feed, c: Context, tripId: string) {
    exists i :: 0 <= i < |feed| && SuppliesStops(feed[i], c, tripId)
  }

  ghost predicate HasTrip(rows: seq<RtRow>, tripId: string) {
    exists i :: 0 <= i < |rows| && TripIdOf(rows[i]) == tripId
  }

  predicate AllTrips(rows: seq<RtRow>) {
    forall i :: 0 <= i < |rows| ==> rows[i].TripRow?
  }

  predicate AllStopTimes(rows: seq<RtRow>) {
    forall i :: 0 <= i < |rows| ==> rows[i].StopTimeRow?
  }

  predicate AllOfDataset(rows: seq<RtRow>, dataset: string) {
    forall i :: 0 <= i < |rows| ==> DatasetOf(rows[i]) == dataset
  }

  predicate Kinds(b: Built, dataset: string) {
    AllTrips(b.trips) && AllStopTimes(b.stopTimes)
    && AllOfDataset(b.trips, dataset) && AllOfDataset(b.stopTimes, dataset)
  }

  lemma {:induction false} StopTimeRecordsAre(updates: seq<StopTimeUpdate>, tripId: string, entityId: string, c: Context)
    ensures var rows := StopTimeRecords(updates, tripId, entityId, c);
            && AllStopTimes(rows) && AllOfDataset(rows, c.dataset)
            && (forall i :: 0 <= i < |rows| ==> TripIdOf(rows[i]) == tripId)
            && (rows != [] <==> exists j :: 0 <= j < |updates| && GivesStopTime(updates[j], c.stops))
  {
    if updates == [] {
    } else {
      var shorter := updates[..|updates| - 1];
      StopTimeRecordsAre(shorter, tripId, entityId, c);
      if j :| 0 <= j < |updates| && GivesStopTime(updates[j], c.stops) {
        if j < |shorter| { assert GivesStopTime(shorter[j], c.stops); }
      }
    }
  }

  lemma EntityRecordsAre(e: Entity, c: Context, tripId: string)
    requires EntityRecords(e, c).Ok?
    ensures var b := EntityRecords(e, c).value;
            && Kinds(b, c.dataset)
            && (HasTrip(b.stopTimes, tripId) <==> SuppliesStops(e, c, tripId))
            && (HasTrip(b.stopTimes, tripId) ==> HasTrip(b.trips, tripId))
  {
    hide StopTimeRecords, ParseStartTime, ParseStartDate, IsImportable, GivesStopTime, EffectiveTripId, IsKnown, IsTakenOut;
    var b := EntityRecords(e, c).value;
    UsableIs(e, c.directory, tripId);
    if IsUsable(e, c.directory) {
      var u := e.tripUpdate.value;
      TakenOutIff(u.trip);
      StopTimeRecordsAre(u.stopTimes, EffectiveTripId(u), OrElse(e.id, ""), c);
      assert TripIdOf(b.trips[0]) == EffectiveTripId(u);
      if SuppliesStops(e, c, tripId) { assert TripIdOf(b.stopTimes[0]) == tripId; }
    }
  }

  lemma HasTripInSum(rows1: seq<RtRow>, rows2: seq<RtRow>, tripId: string)
    ensures HasTrip(rows1 + rows2, tripId) <==> HasTrip(rows1, tripId) || HasTrip(rows2, tripId)
  {
    var rows := rows1 + rows2;
    if i :| 0 <= i < |rows1| && TripIdOf(rows1[i]) == tripId { assert TripIdOf(rows[i]) == tripId; }
    if i :| 0 <= i < |rows2| && TripIdOf(rows2[i]) == tripId { assert TripIdOf(rows[|rows1| + i]) == tripId; }
  }

  lemma KindsSum(b1: Built, b2: Built, dataset: string)
    requires Kinds(b1, dataset) && Kinds(b2, dataset)
    ensures Kinds(Built(b1.trips + b2.trips, b1.stopTimes + b2.stopTimes), dataset)
  {
    hide DatasetOf;
  }

  lemma SuppliedByOneMore(feed: Feed, e: Entity, c: Context, tripId: string)
    ensures SomeSuppliesStops(feed + [e], c, tripId) <==> SomeSuppliesStops(feed, c, tripId) || SuppliesStops(e, c, tripId)
  {
    hide SuppliesStops;
    var longer := feed + [e];
    assert longer[|feed|] == e;
    if i :| 0 <= i < |feed| && SuppliesStops(feed[i], c, tripId) { assert longer[i] == feed[i]; }
    if i :| 0 <= i < |longer| && SuppliesStops(longer[i], c, tripId) {
      if i < |feed| { assert longer[i] == feed[i]; }
    }
  }

  lemma {:induction false} RawRecordsAre(feed: Feed, c: Context, tripId: string)
    requires RawRecords(feed, c).Ok?
    ensures var raw := RawRecords(feed, c).value;
            && Kinds(raw, c.dataset)
            && (HasTrip(raw.stopTimes, tripId) <==> SomeSuppliesStops(feed, c, tripId))
            && (HasTrip(raw.stopTimes, tripId) ==> HasTrip(raw.trips, tripId))
  {
    if feed == [] {
      assert !HasTrip([], tripId);
    } else {
      hide EntityRecords, HasTrip, SuppliesStops, Kinds, SomeSuppliesStops;
      var shorter, e := feed[..|feed| - 1], feed[|feed| - 1];
      var before, b := RawRecords(shorter, c).value, EntityRecords(e, c).value;
      RawRecordsAre(shorter, c, tripId);
      EntityRecordsAre(e, c, tripId);
      KindsSum(before, b, c.dataset);
      HasTripInSum(before.trips, b.trips, tripId);
      HasTripInSum(before.stopTimes, b.stopTimes, tripId);
      SuppliedByOneMore(shorter, e, c, tripId);
      assert feed == shorter + [e];
    }
  }

  lemma DedupKeepsKinds(b: Built, dataset: string, tripId: string)
    requires Kinds(b, dataset)
    ensures Kinds(Built(Deduped(b.trips), Deduped(b.stopTimes)), dataset)
    ensures HasTrip(Deduped(b.trips), tripId) <==> HasTrip(b.trips, tripId)
    ensures HasTrip(Deduped(b.stopTimes), tripId) <==> HasTrip(b.stopTimes, tripId)
  {
    hide Deduped;
    DedupKeepsKind(b.trips, dataset, tripId);
    DedupKeepsKind(b.stopTimes, dataset, tripId);
  }

  lemma DedupedRowIsGiven(rows: seq<RtRow>, i: nat)
    requires i < |Deduped(rows)|
    ensures Deduped(rows)[i] in rows
  {
    DedupedIsDedup(rows);
    hide Deduped;
    assert HasLast(rows, Deduped(rows)[i]);
  }

  lemma GivenKeyIsKept(rows: seq<RtRow>, p: nat) returns (i: nat)
    requires p < |rows|
    ensures i < |Deduped(rows)| && KeyOf(Deduped(rows)[i]) == KeyOf(rows[p])
  {
    DedupedIsDedup(rows);
    hide Deduped;
    assert HasKey(Deduped(rows), KeyOf(rows[p]));
    i :| 0 <= i < |Deduped(rows)| && KeyOf(Deduped(rows)[i]) == KeyOf(rows[p]);
  }

  lemma DedupKeepsKind(rows: seq<RtRow>, dataset: string, tripId: string)
    requires AllOfDataset(rows, dataset) && (AllTrips(rows) || AllStopTimes(rows))
    ensures AllOfDataset(Deduped(rows), dataset)
    ensures AllTrips(rows) ==> AllTrips(Deduped(rows))
    ensures AllStopTimes(rows) ==> AllStopTimes(Deduped(rows))
    ensures HasTrip(Deduped(rows), tripId) <==> HasTrip(rows, tripId)
  {
    hide Deduped;
    var out := Deduped(rows);
    forall i | 0 <= i < |out| ensures out[i] in rows {
      DedupedRowIsGiven(rows, i);
    }
    if i :| 0 <= i < |out| && TripIdOf(out[i]) == tripId {
      var p :| 0 <= p < |rows| && rows[p] == out[i];
      assert TripIdOf(rows[p]) == tripId;
    }
    if p :| 0 <= p < |rows| && TripIdOf(rows[p]) == tripId {
      var i := GivenKeyIsKept(rows, p);
      assert TripIdOf(out[i]) == tripId;
    }
  }

  /** Every stop record's trip has a trip record, and a trip has stop records exactly when some
      entity supplies one while the trip runs. */
  lemma StopRecordsHaveTripRecords(feed: Feed, c: Context, tripId: string)
    requires ImportedRecords(feed, c).Ok?
    ensures var b := ImportedRecords(feed, c).value;
            && Kinds(b, c.dataset) && AreUnique(b.trips) && AreUnique(b.stopTimes)
            && (HasTrip(b.stopTimes, tripId) ==> HasTrip(b.trips, tripId))
            && (HasTrip(b.stopTimes, tripId) <==> SomeSuppliesStops(feed, c, tripId))
  {
    hide RawRecords, Deduped, HasTrip, SomeSuppliesStops;
    var raw := RawRecords(feed, c).value;
    RawRecordsAre(feed, c, tripId);
    DedupKeepsKinds(raw, c.dataset, tripId);
    DedupedIsDedup(raw.trips);
    DedupedIsDedup(raw.stopTimes);
    AreUniqueIff(Deduped(raw.trips));
    AreUniqueIff(Deduped(raw.stopTimes));
  }

  /** The row of the stop, trip and sequence. */
  predicate IsVisit(r: RtRow, tripId: string, stopId: string, stopSequence: int) {
    r.StopTimeRow? && r.stopTime.tripId == tripId && r.stopTime.stopId == stopId && r.stopTime.stopSequence == stopSequence
  }

  /** Every update of a running trip that gives a stop time leaves a row for its stop and sequence, so two
      visits of one stop both stay. */
  lemma EveryVisitStays(feed: Feed, c: Context, i: nat, j: nat, tripId: string)
    requires ImportedRecords(feed, c).Ok? && i < |feed|
    requires IsKnown(feed[i], c.directory, tripId) && !IsTakenOut(feed[i].tripUpdate.value.trip)
    requires j < |feed[i].tripUpdate.value.stopTimes| && GivesStopTime(feed[i].tripUpdate.value.stopTimes[j], c.stops)
    ensures var s := feed[i].tripUpdate.value.stopTimes[j];
            exists k :: 0 <= k < |ImportedRecords(feed, c).value.stopTimes|
                        && IsVisit(ImportedRecords(feed, c).value.stopTimes[k], tripId, s.stopId.value, s.stopSequence.value)
  {
    var e, s := feed[i], feed[i].tripUpdate.value.stopTimes[j];
    var r := StopTimeRecord(s, tripId, OrElse(e.id, ""), c);
    StopTimeRecordSays(s, tripId, e, c, r);
    assert IsStopRecord(e, c, r);
    assert SomeEntitySays(feed, c, r);
    hide IsStopRecord, SomeEntitySays, ImportedRecords, IsKnown, IsTakenOut;
    ImportedRecordsAreWhatTheFeedSays(feed, c, r);
    var rows := ImportedRecords(feed, c).value.stopTimes;
    var k :| 0 <= k < |rows| && KeyOf(rows[k]) == KeyOf(r);
    KeysAreTheUniqueFields(rows[k], r);
  }

  // ---------- feeds that cannot be read ----------

  /** A start time or date is there and cannot be read. */
  predicate IsUnreadable(u: TripUpdate) {
    || (u.trip.startTime.Some? && (u.trip.startTime.value.Unreadable? || !IsOnClock(u.trip.startTime.value)))
    || (if u.trip.startDate.Some? then u.trip.startDate.value.BadDate?
        else u.properties.Some? && u.properties.value.startDate == Some(BadDate))
  }

  predicate IsOnClock(t: ClockText)
    requires t.Clock?
  {
    0 <= t.hours < 48 && 0 <= t.minutes < 60 && 0 <= t.seconds < 60
  }

  ghost predicate IsKnownAndUnreadable(e: Entity, directory: TripDirectory) {
    exists id :: IsKnown(e, directory, id) && IsUnreadable(e.tripUpdate.value)
  }

  lemma EntityRaisesIff(e: Entity, c: Context)
    ensures EntityRecords(e, c).Raised? <==> IsKnownAndUnreadable(e, c.directory)
  {
    if IsUsable(e, c.directory) {
      var u := e.tripUpdate.value;
      UsableIs(e, c.directory, EffectiveTripId(u));
      if u.trip.startTime.Some? && u.trip.startTime.value.Clock? {
        var t := u.trip.startTime.value;
        ConvertTo24HoursIs(t.hours, t.minutes, t.seconds, TimeOf(t.hours * HOUR + t.minutes * MINUTE + t.seconds * SECOND));
        if ConvertTo24Hours(t.hours, t.minutes, t.seconds).Ok? {
          ConvertTo24HoursIs(t.hours, t.minutes, t.seconds, ConvertTo24Hours(t.hours, t.minutes, t.seconds).value);
        }
      }
      hide IsKnown, IsUsable, EffectiveTripId, ConvertTo24Hours, StopTimeRecords, TripRecord;
      assert IsKnown(e, c.directory, EffectiveTripId(u));
    } else {
      hide IsUsable, EffectiveTripId;
      forall id ensures !IsKnown(e, c.directory, id) { UsableIs(e, c.directory, id); }
    }
  }

  /** One unreadable time or date of a known trip raises for the whole feed, and nothing else does. */
  lemma {:induction false} ImportRaisesIff(feed: Feed, c: Context)
    ensures ImportedRecords(feed, c).Raised? <==> exists i :: 0 <= i < |feed| && IsKnownAndUnreadable(feed[i], c.directory)
  {
    if feed == [] {
    } else {
      var shorter, e := feed[..|feed| - 1], feed[|feed| - 1];
      ImportRaisesIff(shorter, c);
      EntityRaisesIff(e, c);
      hide EntityRecords, IsKnownAndUnreadable, Deduped;
      assert feed == shorter + [e];
      if i :| 0 <= i < |shorter| && IsKnownAndUnreadable(shorter[i], c.directory) {
        assert feed[i] == shorter[i];
      }
    }
  }

  // ---------- trips taken out of service ----------

  predicate NamedOnce(feed: Feed, tripId: string) {
    forall i, j :: 0 <= i < j < |feed| ==> !(NamesTrip(feed[i], tripId) && NamesTrip(feed[j], tripId))
  }

  /** A trip that one entity takes out of service, and no other names, has no stop records. */
  lemma RemovedTripHasNoStopRecords(feed: Feed, c: Context, r: RtRow)
    requires ImportedRecords(feed, c).Ok? && r in ImportedRecords(feed, c).value.trips
    requires r.TripRow? && IsRemovedTrip(r.trip.relationship) && NamedOnce(feed, r.trip.tripId)
    ensures !HasTrip(ImportedRecords(feed, c).value.stopTimes, r.trip.tripId)
  {
    hide ImportedRecords, HasTrip, IsTripIdOf, IsStopRecord;
    ImportedRecordsAreWhatTheFeedSays(feed, c, r);
    KindsOfRecord(feed, c, r);
    StopRecordsHaveTripRecords(feed, c, r.trip.tripId);
    var i :| 0 <= i < |feed| && IsTripRecord(feed[i], c, r);
    assert forall j :: 0 <= j < |feed| && SuppliesStops(feed[j], c, r.trip.tripId) ==> NamesTrip(feed[j], r.trip.tripId);
  }

  lemma KindsOfRecord(feed: Feed, c: Context, r: RtRow)
    requires SomeEntitySays(feed, c, r) && r.TripRow?
    ensures exists i :: 0 <= i < |feed| && IsTripRecord(feed[i], c, r)
  {
    var i :| 0 <= i < |feed| && (IsStopRecord(feed[i], c, r) || IsTripRecord(feed[i], c, r));
    assert IsTripRecord(feed[i], c, r);
  }

  /** Two entities on one trip: running with a stop time, then canceled. The trip record says
      canceled, yet the stop record of the first entity stays. */
  lemma CanceledLaterKeepsStopRecords(c: Context) returns (feed: Feed)
    requires "t" in c.directory && "s" in c.stops
    ensures ImportedRecords(feed, c).Ok?
    ensures var b := ImportedRecords(feed, c).value;
            && |b.trips| == 1 && b.trips[0].TripRow? && b.trips[0].trip.relationship == CANCELED
            && |b.stopTimes| == 1 && b.stopTimes[0].StopTimeRow? && b.stopTimes[0].stopTime.tripId == b.trips[0].trip.tripId
  {
    var running := TripDescriptor(Some("t"), Some("r"), None, None, None, None);
    var stop := StopTimeUpdate(Some("s"), Sequence(1), None, Some(0), Some(0));
    var e1 := Entity(None, Some(TripUpdate(running, None, [stop])));
    var e2 := Entity(None, Some(TripUpdate(running.(relationship := Some(CANCELED)), None, [])));
    feed := [e1, e2];
    var r1, r2, s := TripRecord(e1, 0, c.today, c), TripRecord(e2, 0, c.today, c), StopTimeRecord(stop, "t", "", c);
    OneStopTime(stop, "t", "", c);
    hide StopTimeRecords;
    TwoEntities(e1, e2, c);
    hide RawRecords;
    var raw := RawRecords(feed, c).value;
    assert raw.trips == [r1, r2] && raw.stopTimes == [s];
    DedupedPair(r1, r2);
    DedupedOne(s);
  }

  lemma OneStopTime(s: StopTimeUpdate, tripId: string, entityId: string, c: Context)
    requires IsImportable(s, c.stops)
    ensures StopTimeRecords([s], tripId, entityId, c) == [StopTimeRecord(s, tripId, entityId, c)]
  {
    assert [s][..0] == [] && StopTimeRecords([], tripId, entityId, c) == [];
  }

  lemma DedupedOne(r: RtRow)
    ensures Deduped([r]) == [r]
  {
    assert [r][..0] == [];
    assert Deduped([r]) == Put(Deduped([]), r);
  }

  lemma TwoEntities(e1: Entity, e2: Entity, c: Context)
    requires EntityRecords(e1, c).Ok? && EntityRecords(e2, c).Ok?
    ensures var b1, b2 := EntityRecords(e1, c).value, EntityRecords(e2, c).value;
            RawRecords([e1, e2], c) == Ok(Built(b1.trips + b2.trips, b1.stopTimes + b2.stopTimes))
  {
    var feed, b := [e1, e2], EntityRecords(e1, c).value;
    RawRecordsOfNone(c);
    hide RawRecords, EntityRecords;
    RawRecordsStep(feed, 0, c);
    RawRecordsStep(feed, 1, c);
    assert feed[..2] == feed && feed[..0] == [] && [] + b.trips == b.trips && [] + b.stopTimes == b.stopTimes;
  }

  lemma DedupedPair(r1: RtRow, r2: RtRow)
    requires KeyOf(r1) == KeyOf(r2)
    ensures Deduped([r1, r2]) == [r2]
  {
    DedupedOne(r1);
    assert [r1, r2][..1] == [r1];
    assert Deduped([r1, r2]) == Put([r1], r2);
  }
}
