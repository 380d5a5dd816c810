/** Replacing one dataset in the realtime tables, and the whole import of a trip-update feed. */
module SnapshotImport {
  import opened Prelude
  import opened ClockTime
  import opened Records
  import opened RealtimeImport

  datatype IdRow = IdRow(id: int, record: RtRow)

  function WithIds(records: seq<RtRow>, firstId: int): seq<IdRow> {
    seq(|records|, i requires 0 <= i < |records| => IdRow(firstId + i, records[i]))
  }

  /** The rows of the other datasets. */
  function Without(rows: seq<IdRow>, dataset: string): seq<IdRow> {
    if rows == [] then [] else
    var rest, r := Without(rows[..|rows| - 1], dataset), rows[|rows| - 1];
    if DatasetOf(r.record) == dataset then rest else rest + [r]
  }

  function Replaced(rows: seq<IdRow>, dataset: string, records: seq<RtRow>, firstId: int): seq<IdRow> {
    Without(rows, dataset) + WithIds(records, firstId)
  }

  /** The table's unique constraint. */
  predicate IsUnique(rows: seq<IdRow>) {
    forall i, j :: 0 <= i < j < |rows| ==> !SameUniqueFields(rows[i].record, rows[j].record)
  }

  lemma {:induction false} WithoutIs(rows: seq<IdRow>, dataset: string)
    ensures forall i :: 0 <= i < |Without(rows, dataset)| ==>
              Without(rows, dataset)[i] in rows && DatasetOf(Without(rows, dataset)[i].record) != dataset
    ensures IsUnique(rows) ==> IsUnique(Without(rows, dataset))
  {
    if rows == [] {
    } else {
      hide SameUniqueFields, DatasetOf;
      var shorter, r := rows[..|rows| - 1], rows[|rows| - 1];
      WithoutIs(shorter, dataset);
    }
  }

  lemma {:induction false} WithoutSum(rows1: seq<IdRow>, rows2: seq<IdRow>, dataset: string)
    ensures Without(rows1 + rows2, dataset) == Without(rows1, dataset) + Without(rows2, dataset)
  {
    if rows2 == [] {
      assert rows1 + rows2 == rows1;
    } else {
      assert (rows1 + rows2)[..|rows1 + rows2| - 1] == rows1 + rows2[..|rows2| - 1];
      WithoutSum(rows1, rows2[..|rows2| - 1], dataset);
    }
  }

  lemma {:induction false} WithoutOthers(rows: seq<IdRow>, dataset: string)
    ensures (forall i :: 0 <= i < |rows| ==> DatasetOf(rows[i].record) != dataset) ==> Without(rows, dataset) == rows
    ensures (forall i :: 0 <= i < |rows| ==> DatasetOf(rows[i].record) == dataset) ==> Without(rows, dataset) == []
  {
    if rows == [] {
    } else {
      WithoutOthers(rows[..|rows| - 1], dataset);
      assert rows == rows[..|rows| - 1] + [rows[|rows| - 1]];
    }
  }

  /** A snapshot leaves the other datasets as they were, row for row, and a de-duplicated one keeps
      the unique constraint. */
  lemma ReplacedIsSafe(rows: seq<IdRow>, dataset: string, records: seq<RtRow>, firstId: int)
    requires AllOfDataset(records, dataset)
    ensures Without(Replaced(rows, dataset, records, firstId), dataset) == Without(rows, dataset)
    ensures IsUnique(rows) && AreUnique(records) ==> IsUnique(Replaced(rows, dataset, records, firstId))
  {
    var others, added := Without(rows, dataset), WithIds(records, firstId);
    WithoutIs(rows, dataset);
    WithoutSum(others, added, dataset);
    WithoutOthers(others, dataset);
    WithoutOthers(added, dataset);
    if IsUnique(rows) && AreUnique(records) {
      hide Without;
      KeysOfDifferentDatasets(others, added, dataset);
    }
  }

  lemma KeysOfDifferentDatasets(others: seq<IdRow>, added: seq<IdRow>, dataset: string)
    requires IsUnique(others) && IsUnique(added)
    requires forall i :: 0 <= i < |others| ==> DatasetOf(others[i].record) != dataset
    requires forall i :: 0 <= i < |added| ==> DatasetOf(added[i].record) == dataset
    ensures IsUnique(others + added)
  {
    forall i, j | 0 <= i < |others| && 0 <= j < |added|
      ensures !SameUniqueFields(others[i].record, added[j].record)
    {
      KeyHasDataset(others[i].record, added[j].record);
    }
  }

  lemma KeyHasDataset(r1: RtRow, r2: RtRow)
    ensures SameUniqueFields(r1, r2) ==> DatasetOf(r1) == DatasetOf(r2)
  {
  }

  // ---------- the primary key ----------

  /** The table's primary key. */
  predicate IdsDiffer(rows: seq<IdRow>) {
    forall i, j :: 0 <= i < j < |rows| ==> rows[i].id != rows[j].id
  }

  /** No id is beyond the sequence. Nothing in the database enforces it. */
  predicate IdsAreReserved(rows: seq<IdRow>, sequence: int) {
    forall i :: 0 <= i < |rows| ==> rows[i].id <= sequence
  }

  /** No row has one of the count ids from firstId on. */
  predicate RangeIsFree(rows: seq<IdRow>, firstId: int, count: nat) {
    forall i :: 0 <= i < |rows| ==> !(firstId <= rows[i].id < firstId + count)
  }

  lemma {:induction false} WithoutKeepsIds(rows: seq<IdRow>, dataset: string)
    requires IdsDiffer(rows)
    ensures IdsDiffer(Without(rows, dataset))
  {
    if rows == [] {
    } else {
      var shorter := rows[..|rows| - 1];
      WithoutKeepsIds(shorter, dataset);
      WithoutIs(shorter, dataset);
      hide IsUnique, DatasetOf;
    }
  }

  /** A snapshot keeps the primary key exactly when no row of another dataset has an id of the range it
      was given. */
  lemma ReplacedIdsDifferIff(rows: seq<IdRow>, dataset: string, records: seq<RtRow>, firstId: int)
    requires IdsDiffer(rows)
    ensures IdsDiffer(Replaced(rows, dataset, records, firstId)) <==> RangeIsFree(Without(rows, dataset), firstId, |records|)
  {
    WithoutKeepsIds(rows, dataset);
    hide Without;
    var others, after := Without(rows, dataset), Replaced(rows, dataset, records, firstId);
    if !RangeIsFree(others, firstId, |records|) {
      var i :| 0 <= i < |others| && firstId <= others[i].id < firstId + |records|;
      assert after[i].id == after[|others| + (others[i].id - firstId)].id;
    }
  }

  /** Ids that were all reserved stay so, and leave the next range free. */
  lemma ReservedIdsStay(rows: seq<IdRow>, dataset: string, records: seq<RtRow>, sequence: int)
    requires IdsAreReserved(rows, sequence)
    ensures RangeIsFree(Without(rows, dataset), sequence + 1, |records|)
    ensures IdsAreReserved(Replaced(rows, dataset, records, sequence + 1), sequence + |records|)
  {
    WithoutIs(rows, dataset);
    hide Without, IsUnique;
    var others := Without(rows, dataset);
    forall i | 0 <= i < |others| ensures others[i].id <= sequence {
      assert others[i] in rows;
    }
  }

  /** With the sequence behind, one new row repeats the id of another dataset's. */
  lemma SequenceBehindRepeatsAnId(other: RtRow, r: RtRow)
    requires DatasetOf(other) != DatasetOf(r)
    ensures !IdsDiffer(Replaced([IdRow(1, other)], DatasetOf(r), [r], 1))
  {
    WithoutOthers([IdRow(1, other)], DatasetOf(r));
    ReplacedIdsDifferIff([IdRow(1, other)], DatasetOf(r), [r], 1);
  }

  // ---------- the transaction ----------

  /** Where a database call of the transaction may fail. */
  datatype Fault = NoFault | OnDelete | OnReserve | OnCopy | OnCommit

  /** With nothing to copy the calls after the delete are not made. */
  predicate Bites(fault: Fault, records: seq<RtRow>) {
    fault == OnDelete || fault == OnCommit || (records != [] && fault != NoFault)
  }

  lemma NothingAdded(rows: seq<IdRow>, dataset: string, firstId: int)
    ensures Replaced(rows, dataset, [], firstId) == Without(rows, dataset)
  {
    hide Without;
  }

  class SnapshotTable {
    var rows: seq<IdRow>
    var sequence: int  // the last id given out; no rollback takes ids back

    constructor ()
      ensures rows == [] && sequence == 0
    {
      rows, sequence := [], 0;
    }

    /** One transaction: it replaces the dataset or changes no row. */
    method SnapshotCopy(records: seq<RtRow>, dataset: string, fault: Fault) returns (outcome: Result<()>)
      modifies this
      ensures old(sequence) <= sequence <= old(sequence) + |records|
      ensures var copied := Replaced(old(rows), dataset, records, old(sequence) + 1);
              outcome.Ok? <==> !Bites(fault, records) && (records == [] || (IsUnique(copied) && IdsDiffer(copied)))
      ensures rows == if outcome.Ok? then Replaced(old(rows), dataset, records, old(sequence) + 1) else old(rows)
      ensures outcome.Ok? ==> sequence == old(sequence) + |records|
    {
      hide Without, IsUnique, IdsDiffer, WithIds;
      var before := rows;
      NothingAdded(rows, dataset, sequence + 1);
      if fault == OnDelete {
        return Raised("DBAPIError");
      }
      rows := Without(rows, dataset);
      if records != [] {
        if fault == OnReserve {
          rows := before;
          return Raised("PostgresError");
        }
        var firstId := sequence + 1;
        sequence := sequence + |records|;
        var copied := rows + WithIds(records, firstId);
        if fault == OnCopy || !IsUnique(copied) || !IdsDiffer(copied) {
          rows := before;
          return Raised("UniqueViolationError");
        }
        rows := copied;
      }
      if fault == OnCommit {
        rows := before;
        return Raised("DBAPIError");
      }
      outcome := Ok(());
    }
  }

  // ---------- stop rows and trip rows ----------

  /** Every stop row of the dataset has a trip row of the dataset. */
  ghost predicate StopsHaveTrips(stopRows: seq<IdRow>, tripRows: seq<IdRow>, dataset: string) {
    forall i :: 0 <= i < |stopRows| && DatasetOf(stopRows[i].record) == dataset ==>
      HasTripRow(tripRows, dataset, TripIdOf(stopRows[i].record))
  }

  ghost predicate HasTripRow(rows: seq<IdRow>, dataset: string, tripId: string) {
    exists i :: 0 <= i < |rows| && DatasetOf(rows[i].record) == dataset && TripIdOf(rows[i].record) == tripId
  }

  /** Every stop row of the dataset is about one of the trips. */
  ghost predicate StopsAreOf(stopRows: seq<IdRow>, dataset: string, trips: seq<RtRow>) {
    forall i :: 0 <= i < |stopRows| && DatasetOf(stopRows[i].record) == dataset ==> HasTrip(trips, TripIdOf(stopRows[i].record))
  }

  /** After a snapshot the dataset's rows are about the records' trips. */
  lemma TripRowsAfter(rows: seq<IdRow>, dataset: string, records: seq<RtRow>, firstId: int, tripId: string)
    requires AllOfDataset(records, dataset)
    ensures HasTripRow(Replaced(rows, dataset, records, firstId), dataset, tripId) <==> HasTrip(records, tripId)
  {
    WithoutIs(rows, dataset);
    hide Without, DatasetOf, TripIdOf;
    var others := Without(rows, dataset);
    var after := Replaced(rows, dataset, records, firstId);
    if i :| 0 <= i < |records| && TripIdOf(records[i]) == tripId {
      assert after[|others| + i].record == records[i];
    }
    if i :| 0 <= i < |after| && DatasetOf(after[i].record) == dataset && TripIdOf(after[i].record) == tripId {
      assert i >= |others| && after[i].record == records[i - |others|];
    }
  }

  lemma StopRowsAfter(rows: seq<IdRow>, dataset: string, records: seq<RtRow>, firstId: int, i: nat)
    requires i < |Replaced(rows, dataset, records, firstId)|
    requires DatasetOf(Replaced(rows, dataset, records, firstId)[i].record) == dataset
    ensures HasTrip(records, TripIdOf(Replaced(rows, dataset, records, firstId)[i].record))
  {
    WithoutIs(rows, dataset);
    hide Without, DatasetOf, TripIdOf;
    var others, after := Without(rows, dataset), Replaced(rows, dataset, records, firstId);
    assert i >= |others| && after[i].record == records[i - |others|];
  }

  /** Both tables replaced from one feed: every stop row has its trip row. */
  lemma BothReplacedFit(feed: Feed, c: Context, tripRows: seq<IdRow>, stopRows: seq<IdRow>, firstTripId: int, firstStopId: int)
    requires ImportedRecords(feed, c).Ok?
    ensures var b := ImportedRecords(feed, c).value;
            StopsHaveTrips(Replaced(stopRows, c.dataset, b.stopTimes, firstStopId),
                           Replaced(tripRows, c.dataset, b.trips, firstTripId), c.dataset)
  {
    hide ImportedRecords, Replaced, HasTrip, HasTripRow, SomeSuppliesStops, AreUnique;
    var b := ImportedRecords(feed, c).value;
    var after := Replaced(stopRows, c.dataset, b.stopTimes, firstStopId);
    forall i | 0 <= i < |after| && DatasetOf(after[i].record) == c.dataset
      ensures HasTripRow(Replaced(tripRows, c.dataset, b.trips, firstTripId), c.dataset, TripIdOf(after[i].record))
    {
      StopRowsAfter(stopRows, c.dataset, b.stopTimes, firstStopId, i);
      StopRecordsHaveTripRecords(feed, c, TripIdOf(after[i].record));
      TripRowsAfter(tripRows, c.dataset, b.trips, firstTripId, TripIdOf(after[i].record));
    }
  }

  /** Trips replaced alone: the stop rows fit exactly when the new trips cover the old stop rows. */
  lemma TripsReplacedFitIff(stopRows: seq<IdRow>, tripRows: seq<IdRow>, dataset: string, trips: seq<RtRow>, firstId: int)
    requires AllOfDataset(trips, dataset)
    ensures StopsHaveTrips(stopRows, Replaced(tripRows, dataset, trips, firstId), dataset) <==> StopsAreOf(stopRows, dataset, trips)
  {
    hide Replaced, HasTrip, HasTripRow, DatasetOf, TripIdOf, AllOfDataset;
    forall i | 0 <= i < |stopRows|
      ensures HasTripRow(Replaced(tripRows, dataset, trips, firstId), dataset, TripIdOf(stopRows[i].record))
         <==> HasTrip(trips, TripIdOf(stopRows[i].record))
    {
      TripRowsAfter(tripRows, dataset, trips, firstId, TripIdOf(stopRows[i].record));
    }
  }

  /** A feed that no longer names a trip, with only its first transaction committed: the trip's stop row
      stays behind. */
  lemma FailedSecondTransactionStrandsStops(t: RTTrip, s: RTStopTime)
    requires t.tripId == s.tripId && t.dataset == s.dataset
    ensures var tripRows, stopRows := [IdRow(1, TripRow(t))], [IdRow(1, StopTimeRow(s))];
            && StopsHaveTrips(stopRows, tripRows, s.dataset)
            && !StopsHaveTrips(stopRows, Replaced(tripRows, s.dataset, [], 2), s.dataset)
  {
    var tripRows, stopRows := [IdRow(1, TripRow(t))], [IdRow(1, StopTimeRow(s))];
    assert TripIdOf(tripRows[0].record) == s.tripId;
    TripsReplacedFitIff(stopRows, tripRows, s.dataset, [], 2);
    assert TripIdOf(stopRows[0].record) == s.tripId;
  }

  // ---------- the import ----------

  /** What the import would build with every static row of the dataset at hand. */
  function FullContext(trips: seq<Trip>, stops: seq<StaticStop>, dataset: string, today: Date, createdAt: Instant): Context {
    Context(dataset, DirectoryOf(trips, dataset), StopsOf(stops, dataset), today, createdAt)
  }

  /** What one snapshot of de-duplicated records does to a table and its two keys. */
  lemma TableStaysValid(rows: seq<IdRow>, dataset: string, records: seq<RtRow>, sequence: int)
    requires AllOfDataset(records, dataset) && AreUnique(records) && IsUnique(rows) && IdsDiffer(rows)
    ensures var after := Replaced(rows, dataset, records, sequence + 1);
            && Without(after, dataset) == Without(rows, dataset) && IsUnique(after)
            && (IdsDiffer(after) <==> RangeIsFree(Without(rows, dataset), sequence + 1, |records|))
            && (records == [] ==> IdsDiffer(after))
            && (IdsAreReserved(rows, sequence) ==>
                  RangeIsFree(Without(rows, dataset), sequence + 1, |records|) && IdsAreReserved(after, sequence + |records|))
  {
    hide Replaced, Without, IsUnique, IdsDiffer, AllOfDataset, AreUnique, IdsAreReserved;
    ReplacedIsSafe(rows, dataset, records, sequence + 1);
    ReplacedIdsDifferIff(rows, dataset, records, sequence + 1);
    if IdsAreReserved(rows, sequence) {
      ReservedIdsStay(rows, dataset, records, sequence);
    }
  }

  lemma ReservedUpTo(rows: seq<IdRow>, low: int, high: int)
    requires IdsAreReserved(rows, low) && low <= high
    ensures IdsAreReserved(rows, high)
  {
  }

  class RealTimeImporter {
    const dataset: string
    const rtTrips: SnapshotTable
    const rtStopTimes: SnapshotTable

    predicate Valid()
      reads rtTrips, rtStopTimes
    {
      rtTrips != rtStopTimes
      && IsUnique(rtTrips.rows) && IsUnique(rtStopTimes.rows) && IdsDiffer(rtTrips.rows) && IdsDiffer(rtStopTimes.rows)
    }

    /** Neither sequence is behind its table. */
    predicate SequencesAreAhead()
      reads rtTrips, rtStopTimes
    {
      IdsAreReserved(rtTrips.rows, rtTrips.sequence) && IdsAreReserved(rtStopTimes.rows, rtStopTimes.sequence)
    }

    constructor (name: string, trips: SnapshotTable, stopTimes: SnapshotTable)
      requires trips != stopTimes
      requires IsUnique(trips.rows) && IsUnique(stopTimes.rows) && IdsDiffer(trips.rows) && IdsDiffer(stopTimes.rows)
      ensures Valid() && dataset == name && rtTrips == trips && rtStopTimes == stopTimes
    {
      dataset, rtTrips, rtStopTimes := name, trips, stopTimes;
    }

    /** Two transactions, trips first. A feed that cannot be read changes neither table. A readable one is
        never stopped by the declared unique constraints, only by a failing call or by an id that is taken. */
    method ImportTripUpdates(feed: Feed, trips: seq<Trip>, stops: seq<StaticStop>, today: Date, createdAt: Instant,
                             tripFault: Fault, stopTimeFault: Fault)
      returns (counts: Result<(nat, nat)>)
      requires Valid()
      modifies rtTrips, rtStopTimes
      ensures Valid() && (old(SequencesAreAhead()) ==> SequencesAreAhead())
      ensures Without(rtTrips.rows, dataset) == Without(old(rtTrips.rows), dataset)
      ensures Without(rtStopTimes.rows, dataset) == Without(old(rtStopTimes.rows), dataset)
      ensures match ImportedRecords(feed, FullContext(trips, stops, dataset, today, createdAt))
              case Raised(_) =>
                counts.Raised? && rtTrips.rows == old(rtTrips.rows) && rtStopTimes.rows == old(rtStopTimes.rows)
              case Ok(b) =>
                var tripsDone := !Bites(tripFault, b.trips)
                                 && RangeIsFree(Without(old(rtTrips.rows), dataset), old(rtTrips.sequence) + 1, |b.trips|);
                var allDone := tripsDone && !Bites(stopTimeFault, b.stopTimes)
                               && RangeIsFree(Without(old(rtStopTimes.rows), dataset), old(rtStopTimes.sequence) + 1, |b.stopTimes|);
                && (counts.Ok? <==> allDone)
                && (counts.Ok? ==> counts.value == (|b.stopTimes|, |b.trips|))
                && rtTrips.rows == (if tripsDone then Replaced(old(rtTrips.rows), dataset, b.trips, old(rtTrips.sequence) + 1)
                                    else old(rtTrips.rows))
                && rtStopTimes.rows == (if allDone then Replaced(old(rtStopTimes.rows), dataset, b.stopTimes, old(rtStopTimes.sequence) + 1)
                                        else old(rtStopTimes.rows))
                // with the sequences ahead no id is taken, and they stay ahead
                && (old(SequencesAreAhead()) ==>
                      (counts.Ok? <==> !Bites(tripFault, b.trips) && !Bites(stopTimeFault, b.stopTimes)))
                // stop rows keep their trip rows unless the second transaction fails on its own
                && (StopsHaveTrips(rtStopTimes.rows, rtTrips.rows, dataset) <==>
                    if allDone then true
                    else if tripsDone then StopsAreOf(old(rtStopTimes.rows), dataset, b.trips)
                    else StopsHaveTrips(old(rtStopTimes.rows), old(rtTrips.rows), dataset))
    {
      hide ImportedRecords, Without, IsFeedIds, DirectoryOf, Restricted, Replaced, IsUnique, AreUnique, AllOfDataset, StopsHaveTrips, StopsAreOf,
           IdsDiffer, IdsAreReserved, RangeIsFree;
      var tripIds, stopIds := CollectTripUpdateFeedIds(feed);
      var directory, stopsInDb := LoadRealtimeLookups(trips, stops, dataset, tripIds, stopIds);
      var built := BuildRtTripAndStopTimeRecords(feed, Context(dataset, directory, stopsInDb, today, createdAt));
      ghost var full := FullContext(trips, stops, dataset, today, createdAt);
      RestrictedLookupsPreserveMeaning(feed, full, tripIds, stopIds);
      if built.Raised? {
        return Raised(built.error);
      }
      var b := built.value;
      StopRecordsHaveTripRecords(feed, full, "");
      TableStaysValid(rtTrips.rows, dataset, b.trips, rtTrips.sequence);
      TableStaysValid(rtStopTimes.rows, dataset, b.stopTimes, rtStopTimes.sequence);
      TripsReplacedFitIff(rtStopTimes.rows, rtTrips.rows, dataset, b.trips, rtTrips.sequence + 1);
      BothReplacedFit(feed, full, rtTrips.rows, rtStopTimes.rows, rtTrips.sequence + 1, rtStopTimes.sequence + 1);
      var tripOutcome := rtTrips.SnapshotCopy(b.trips, dataset, tripFault);
      if old(SequencesAreAhead()) && tripOutcome.Raised? {
        ReservedUpTo(rtTrips.rows, old(rtTrips.sequence), rtTrips.sequence);
      }
      if tripOutcome.Raised? {
        return Raised(tripOutcome.error);
      }
      var stopTimeOutcome := rtStopTimes.SnapshotCopy(b.stopTimes, dataset, stopTimeFault);
      if old(SequencesAreAhead()) && stopTimeOutcome.Raised? {
        ReservedUpTo(rtStopTimes.rows, old(rtStopTimes.sequence), rtStopTimes.sequence);
      }
      if stopTimeOutcome.Raised? {
        return Raised(stopTimeOutcome.error);
      }
      counts := Ok((|b.stopTimes|, |b.trips|));
    }
  }

  // ---------- importing the same feed again ----------

  function Stamped(r: RtRow, createdAt: Instant): RtRow {
    match r
    case TripRow(t) => TripRow(t.(createdAt := createdAt))
    case StopTimeRow(s) => StopTimeRow(s.(createdAt := createdAt))
  }

  function AllStamped(rows: seq<RtRow>, createdAt: Instant): (stamped: seq<RtRow>)
    ensures |stamped| == |rows|
  {
    seq(|rows|, i requires 0 <= i < |rows| => Stamped(rows[i], createdAt))
  }

  predicate SameButForTime(r1: RtRow, r2: RtRow) {
    match (r1, r2)
    case (TripRow(t1), TripRow(t2)) =>
      && t1.tripId == t2.tripId && t1.routeId == t2.routeId && t1.startTime == t2.startTime && t1.startDate == t2.startDate
      && t1.relationship == t2.relationship && t1.direction == t2.direction && t1.entityId == t2.entityId
      && t1.dataset == t2.dataset
    case (StopTimeRow(s1), StopTimeRow(s2)) =>
      && s1.stopId == s2.stopId && s1.tripId == s2.tripId && s1.stopSequence == s2.stopSequence
      && s1.relationship == s2.relationship && s1.arrivalDelay == s2.arrivalDelay && s1.departureDelay == s2.departureDelay
      && s1.entityId == s2.entityId && s1.dataset == s2.dataset
    case _ => false
  }

  /** Equal contents: the same rows in the same order, but for ids and creation times. */
  lemma SameContentsIff(rows1: seq<IdRow>, rows2: seq<IdRow>)
    ensures Contents(rows1) == Contents(rows2)
       <==> |rows1| == |rows2| && forall i :: 0 <= i < |rows1| ==> SameButForTime(rows1[i].record, rows2[i].record)
  {
    hide SameButForTime, Stamped;
    forall i | 0 <= i < |rows1| && i < |rows2|
      ensures Contents(rows1)[i] == Contents(rows2)[i] <==> SameButForTime(rows1[i].record, rows2[i].record)
    {
      StampedAlike(rows1[i].record, rows2[i].record);
    }
  }

  lemma StampedAlike(r1: RtRow, r2: RtRow)
    ensures Stamped(r1, 0) == Stamped(r2, 0) <==> SameButForTime(r1, r2)
  {
  }

  /** The rows without their ids and creation times. */
  function Contents(rows: seq<IdRow>): seq<RtRow> {
    seq(|rows|, i requires 0 <= i < |rows| => Stamped(rows[i].record, 0))
  }

  lemma {:induction false} StopTimeRecordsAtAnotherTime(updates: seq<StopTimeUpdate>, tripId: string, entityId: string, c: Context, createdAt: Instant)
    ensures StopTimeRecords(updates, tripId, entityId, c.(createdAt := createdAt))
         == AllStamped(StopTimeRecords(updates, tripId, entityId, c), createdAt)
  {
    if updates == [] {
    } else {
      StopTimeRecordsAtAnotherTime(updates[..|updates| - 1], tripId, entityId, c, createdAt);
    }
  }

  lemma EntityRecordsAtAnotherTime(e: Entity, c: Context, createdAt: Instant)
    ensures EntityRecords(e, c.(createdAt := createdAt)) ==
            match EntityRecords(e, c)
            case Raised(error) => Raised(error)
            case Ok(b) => Ok(Built(AllStamped(b.trips, createdAt), AllStamped(b.stopTimes, createdAt)))
  {
    hide StopTimeRecords, ParseStartTime, ParseStartDate;
    assert AllStamped([], createdAt) == [];
    if IsUsable(e, c.directory) {
      var u := e.tripUpdate.value;
      StopTimeRecordsAtAnotherTime(u.stopTimes, EffectiveTripId(u), OrElse(e.id, ""), c, createdAt);
      if EntityRecords(e, c).Ok? {
        var b, b' := EntityRecords(e, c).value, EntityRecords(e, c.(createdAt := createdAt)).value;
        assert b'.trips == AllStamped(b.trips, createdAt);
      }
    }
  }

  lemma {:induction false} RawRecordsAtAnotherTime(feed: Feed, c: Context, createdAt: Instant)
    ensures RawRecords(feed, c.(createdAt := createdAt)) ==
            match RawRecords(feed, c)
            case Raised(error) => Raised(error)
            case Ok(b) => Ok(Built(AllStamped(b.trips, createdAt), AllStamped(b.stopTimes, createdAt)))
  {
    if feed == [] {
    } else {
      hide EntityRecords, Stamped;
      RawRecordsAtAnotherTime(feed[..|feed| - 1], c, createdAt);
      EntityRecordsAtAnotherTime(feed[|feed| - 1], c, createdAt);
      if RawRecords(feed[..|feed| - 1], c).Ok? && EntityRecords(feed[|feed| - 1], c).Ok? {
        var raw, b := RawRecords(feed[..|feed| - 1], c).value, EntityRecords(feed[|feed| - 1], c).value;
        StampSum(raw.trips, b.trips, createdAt);
        StampSum(raw.stopTimes, b.stopTimes, createdAt);
      }
    }
  }

  lemma StampSum(rows1: seq<RtRow>, rows2: seq<RtRow>, createdAt: Instant)
    ensures AllStamped(rows1 + rows2, createdAt) == AllStamped(rows1, createdAt) + AllStamped(rows2, createdAt)
  {
  }

  lemma {:induction false} DedupedAtAnotherTime(rows: seq<RtRow>, createdAt: Instant)
    ensures Deduped(AllStamped(rows, createdAt)) == AllStamped(Deduped(rows), createdAt)
  {
    if rows == [] {
    } else {
      var shorter, r := rows[..|rows| - 1], rows[|rows| - 1];
      assert AllStamped(rows, createdAt)[..|rows| - 1] == AllStamped(shorter, createdAt);
      DedupedAtAnotherTime(shorter, createdAt);
      assert AllStamped(rows, createdAt)[|rows| - 1] == Stamped(r, createdAt);
      hide Put, Stamped, AllStamped;
      PutAtAnotherTime(Deduped(shorter), r, createdAt);
    }
  }

  lemma PutAtAnotherTime(latest: seq<RtRow>, r: RtRow, createdAt: Instant)
    ensures Put(AllStamped(latest, createdAt), Stamped(r, createdAt)) == AllStamped(Put(latest, r), createdAt)
  {
    StampKeepsKey(r, createdAt);
    forall i | 0 <= i < |latest| ensures KeyOf(AllStamped(latest, createdAt)[i]) == KeyOf(latest[i]) {
      StampKeepsKey(latest[i], createdAt);
    }
    hide Slot, KeyOf, Stamped;
    assert Slot(AllStamped(latest, createdAt), KeyOf(Stamped(r, createdAt))) == Slot(latest, KeyOf(r));
  }

  lemma StampKeepsKey(r: RtRow, createdAt: Instant)
    ensures KeyOf(Stamped(r, createdAt)) == KeyOf(r)
  {
  }

  /** The same feed read at another moment of the same day gives the same records but for their
      creation time, or raises again. */
  lemma ImportedAtAnotherTime(feed: Feed, c: Context, createdAt: Instant)
    ensures ImportedRecords(feed, c.(createdAt := createdAt)) ==
            match ImportedRecords(feed, c)
            case Raised(error) => Raised(error)
            case Ok(b) => Ok(Built(AllStamped(b.trips, createdAt), AllStamped(b.stopTimes, createdAt)))
  {
    hide RawRecords, Deduped, AllStamped;
    RawRecordsAtAnotherTime(feed, c, createdAt);
    if RawRecords(feed, c).Ok? {
      DedupedAtAnotherTime(RawRecords(feed, c).value.trips, createdAt);
      DedupedAtAnotherTime(RawRecords(feed, c).value.stopTimes, createdAt);
    }
  }

  /** Importing a feed again leaves the table as it was, up to ids and creation times. */
  lemma ReimportGivesTheSameRows(feed: Feed, c: Context, createdAt: Instant, rows: seq<IdRow>, firstId: int, nextFirstId: int)
    requires ImportedRecords(feed, c).Ok?
    ensures var again := ImportedRecords(feed, c.(createdAt := createdAt));
            && again.Ok?
            && var (b, b') := (ImportedRecords(feed, c).value, again.value);
            && var (once, onceStops) := (Replaced(rows, c.dataset, b.trips, firstId), Replaced(rows, c.dataset, b.stopTimes, firstId));
            && Contents(Replaced(once, c.dataset, b'.trips, nextFirstId)) == Contents(once)
            && Contents(Replaced(onceStops, c.dataset, b'.stopTimes, nextFirstId)) == Contents(onceStops)
  {
    hide ImportedRecords, Replaced, AllOfDataset;
    ImportedAtAnotherTime(feed, c, createdAt);
    StopRecordsHaveTripRecords(feed, c, "");
    var b := ImportedRecords(feed, c).value;
    ReplacedAgain(rows, c.dataset, b.trips, createdAt, firstId, nextFirstId);
    ReplacedAgain(rows, c.dataset, b.stopTimes, createdAt, firstId, nextFirstId);
  }

  lemma ReplacedAgain(rows: seq<IdRow>, dataset: string, records: seq<RtRow>, createdAt: Instant, firstId: int, nextFirstId: int)
    requires AllOfDataset(records, dataset)
    ensures var once := Replaced(rows, dataset, records, firstId);
            Contents(Replaced(once, dataset, AllStamped(records, createdAt), nextFirstId)) == Contents(once)
  {
    ReplacedIsSafe(rows, dataset, records, firstId);
    hide Without;
    var others := Without(rows, dataset);
    ContentsSum(others, WithIds(records, firstId));
    ContentsSum(others, WithIds(AllStamped(records, createdAt), nextFirstId));
    assert Contents(WithIds(AllStamped(records, createdAt), nextFirstId)) == Contents(WithIds(records, firstId));
  }

  lemma ContentsSum(rows1: seq<IdRow>, rows2: seq<IdRow>)
    ensures Contents(rows1 + rows2) == Contents(rows1) + Contents(rows2)
  {
  }

  /** The import run twice on one feed and one date, with no call to the database failing: when both runs
      succeed, each table has the rows that the first run alone would give it, up to ids and creation
      times. Both succeed or both raise when no sequence is behind its table. */
  method ImportTwice(importer: RealTimeImporter, feed: Feed, trips: seq<Trip>, stops: seq<StaticStop>, today: Date,
                     createdAt: Instant, createdAgainAt: Instant)
    returns (first: Result<(nat, nat)>, second: Result<(nat, nat)>)
    requires importer.Valid()
    modifies importer.rtTrips, importer.rtStopTimes
    ensures importer.Valid()
    ensures first.Ok? && second.Ok? ==>
      var built := ImportedRecords(feed, FullContext(trips, stops, importer.dataset, today, createdAt));
      && first == second && built.Ok?
      && Contents(importer.rtTrips.rows)
         == Contents(Replaced(old(importer.rtTrips.rows), importer.dataset, built.value.trips, old(importer.rtTrips.sequence) + 1))
      && Contents(importer.rtStopTimes.rows)
         == Contents(Replaced(old(importer.rtStopTimes.rows), importer.dataset, built.value.stopTimes, old(importer.rtStopTimes.sequence) + 1))
    ensures old(importer.SequencesAreAhead()) ==>
      && (first.Ok? <==> second.Ok?)
      && (first.Ok? <==> ImportedRecords(feed, FullContext(trips, stops, importer.dataset, today, createdAt)).Ok?)
      && (first.Raised? ==> importer.rtTrips.rows == old(importer.rtTrips.rows)
                            && importer.rtStopTimes.rows == old(importer.rtStopTimes.rows))
  {
    hide ImportedRecords, Replaced, Contents, StopsHaveTrips, StopsAreOf, Without, IsUnique, IdsDiffer, IdsAreReserved,
         RangeIsFree, DirectoryOf, StopsOf;
    ghost var c := FullContext(trips, stops, importer.dataset, today, createdAt);
    ghost var tripRows, stopRows := importer.rtTrips.rows, importer.rtStopTimes.rows;
    ghost var firstTripId, firstStopId := importer.rtTrips.sequence + 1, importer.rtStopTimes.sequence + 1;
    ImportedAtAnotherTime(feed, c, createdAgainAt);
    first := importer.ImportTripUpdates(feed, trips, stops, today, createdAt, NoFault, NoFault);
    if first.Ok? {
      ReimportGivesTheSameRows(feed, c, createdAgainAt, tripRows, firstTripId, importer.rtTrips.sequence + 1);
      ReimportGivesTheSameRows(feed, c, createdAgainAt, stopRows, firstStopId, importer.rtStopTimes.sequence + 1);
    }
    second := importer.ImportTripUpdates(feed, trips, stops, today, createdAgainAt, NoFault, NoFault);
  }
}
