# SimplyTransport in Dafny

SimplyTransport reads GTFS timetables and GTFS Realtime feeds, lays live delays over the timetable
and keeps a history of the delays it saw. This project models the logic between its web layer and
its databases and proves what that logic promises. A table is a sequence of rows, or a map when it
has a primary key. Redis is a set of maps with a clock. An instant is a number of microseconds, a
time of day is such a number below one day, and a date is a day number. Clock readings and uuids are
parameters, and so are the failures of Redis and the database in the lease, the realtime import and
the delay poll.

| file | subject |
|---|---|
| `RedisLeases.dfy`, `LeaseProtocol.dfy` | the Redis mutex and semaphore: the commands and the decorated call, then every interleaving of any number of calls with a clock, crashes and lost messages |
| `RealtimeImport.dfy`, `SnapshotImport.dfy` | a trip-update feed becomes records, and the records replace one dataset |
| `Overlay.dfy`, `RealtimeSchedule.dfy` | which realtime row applies to a scheduled stop, and what the schedule then shows |
| `RecordingKeys.dfy`, `DelayPolls.dfy`, `DelayLoading.dfy` | the polling job that records delays, its keys with a time to live, and what it loads at an instant |
| `ImportQueue.dfy`, `CopyImport.dfy`, `IdReservation.dfy` | the static importers: the bounded queue with its consumers, batched COPY, and id ranges reserved by many sessions |
| `ServiceDay.dfy`, `ScheduleSort.dfy`, `ClockTime.dfy` | which services run on a date, the 23:00/00:00 sort, windows and clock arithmetic |
| `NearestSegment.dfy`, `SeedShift.dfy` | the vehicle chevron's rotation, and the time shift of seeded trips |
| `Prelude.dfy`, `Records.dfy` | shared types and rows |

Code that works on objects and loops is modelled as classes and methods, each proved against a
function or predicate; lemmas then prove what is promised about those. The three protocols (the
lease, the import queue and the id reservation) are transition systems, and their claims hold in
every state that any sequence of steps reaches.

Some promises do not hold of the code as it is. For each the exact condition is proved, and a lemma
gives an input that fails:

- The countdown to an arrival is not always the short way round the clock:
  `ClockTime.CountdownIsNearestIff`, with `ClockTime.CountdownIsNotAlwaysNearest`. The Due window is
  right for every input.
- The on-time status can be wrong for delays beyond an hour: `RealtimeSchedule.StatusIsRightIff`, with
  `RealtimeSchedule.LateCanReadAsEarly` and `RealtimeSchedule.DayLateReadsOnTime`.
- The delay poll does not load every row that is due. It drops delays outside -20 to +19 minutes, and
  it asks for the services of the date of the clock: `DelayLoading.DueRowIsLoadedIff` and
  `DelayLoading.ArrivalIsNeverDroppedIff`, with `DelayLoading.LongDelayLeavesTheWindow` and
  `DelayLoading.LateFridayServiceIsDropped`.
- A row past 24:00:00 is looked up on the date on which it passes, not on its date of service:
  `DelayLoading.ClockDateIsServiceDateIff`, with `DelayLoading.FridayNightRowIsDropped`.
- A trip that one entity reports running and a later one cancels keeps its stop records:
  `RealtimeImport.StopRecordsHaveTripRecords`, with `RealtimeImport.CanceledLaterKeepsStopRecords`.
- An import whose second transaction fails can leave stop rows without trip rows:
  `SnapshotImport.RealTimeImporter.ImportTripUpdates`, with
  `SnapshotImport.FailedSecondTransactionStrandsStops`.
- An import fails when the sequence has fallen behind and an id it hands out is taken:
  `SnapshotImport.ReplacedIdsDifferIff`, with `SnapshotImport.SequenceBehindRepeatsAnId`.
- A list of schedules that mixes datasets is overlaid from the first one's dataset only:
  `Overlay.OverlaidFromOwnDatasetIff`, with `Overlay.OtherDatasetGetsNoOverlay`.
- A Redis failure after the rows are written lets the next poll record them again:
  `DelayPolls.RecordsAreSpaced`, with `DelayPolls.LostKeyRepeatsARecord`.
- Below its length threshold a segment is measured to its first point, which need not be the nearest:
  `NearestSegment.IsMinimumIff`, with `NearestSegment.TrillionthIsMissed`.
- Sessions that interleave their id reservations can be given the same id:
  `IdReservation.RangesAreApartIff`, with `IdReservation.LateSetValRepeatsAnId`.
- A job that outlives its lease can be joined by others: `LeaseProtocol.LimitHoldsIff`, with
  `LeaseProtocol.OverrunBreaksExclusion`.
- Two stops can share a recording key: `RecordingKeys.KeysTellCodesApartIff`, with
  `RecordingKeys.ColonsConfuseKeys`.
- Rows outside [03:00:00, 27:00:00) are sorted a day away from their raw time:
  `ScheduleSort.SortsByRawTimeIff`, with `ScheduleSort.EarlyMorningSortsLast`.

Redis drops a string key once the clock is past its expiry, so a key is still seen at the instant it
expires; the semaphore script drops a lease at that instant already. The model keeps both.

## Model

| member | source | states |
|---|---|---|
| RedisLeases.RedisServer.AcquireMutex | SimplyTransport/lib/concurrency.py:133-138 | the key is taken exactly when no live token holds it; a lapsed holder makes way, a live one stays, other keys keep their tokens, and a ttl that is not positive is refused with nothing changed |
| RedisLeases.RedisServer.ReleaseMutex | SimplyTransport/lib/concurrency.py:104-110 | only the caller's own live token is deleted, and the answer says whether it was |
| RedisLeases.RedisServer.AcquireSemaphore | SimplyTransport/lib/concurrency.py:112-130 | lapsed leases go, and the caller is added exactly when fewer than limit are left |
| RedisLeases.RedisServer.ReleaseSemaphore | SimplyTransport/lib/concurrency.py:156-157 | removes the caller's token and nothing else |
| RedisLeases.Concurrency | SimplyTransport/lib/concurrency.py:160-225 | for every fault of either Redis call, every ending of the body and whatever others do meanwhile: the outcome, how often the body ran and exactly which leases are left; without a failing Redis call none of this call's is left |
| LeaseProtocol.CallBegins | SimplyTransport/lib/concurrency.py:191-206 | in every state a new call can begin under every fault; it changes Redis as the decorated call does and runs its body exactly when Redis answers and there is room |
| LeaseProtocol.CallEnds | SimplyTransport/lib/concurrency.py:206-221 | a running call can crash at any time, or end and release under every fault; it changes Redis as the decorated call does |
| LeaseProtocol.RunKeepsInv | SimplyTransport/lib/concurrency.py:133-157 | in every reachable state at most limit leases are stored, each was drawn by one call, and a running call whose lease has not lapsed still has it in Redis |
| LeaseProtocol.AtMostLimitBodiesInLease | SimplyTransport/lib/concurrency.py:188-221 | over all interleavings of any number of calls with ticks, crashes and lost messages: never more than limit leases, never more than limit bodies inside their leases |
| LeaseProtocol.AtMostLimitBodies | SimplyTransport/lib/concurrency.py:173-179 | in a state where no running body has outlived its lease, at most limit bodies run at once |
| LeaseProtocol.LimitHoldsIff | SimplyTransport/lib/concurrency.py:173-179 | for every limit, ttl and longest body time, at most limit bodies run at once in every run of such bodies exactly when the time is below the ttl; a mutex also allows the ttl itself, and never starts a body with a ttl that is not positive |
| LeaseProtocol.OverrunIsRunOfBodies | SimplyTransport/lib/concurrency.py:176-177 | the failing run for every limit: a body outlasts its lease and limit more start, so limit + 1 run |
| LeaseProtocol.OverrunBreaksExclusion | SimplyTransport/lib/concurrency.py:176-177 | an instance: two bodies under a mutex with a ttl of one second |
| LeaseProtocol.LeaseLeavesOnlyByLapseOrOwner | SimplyTransport/lib/concurrency.py:104-130 | a lease disappears or changes only by lapsing or through its own call's release, so a late release never takes another holder's lease |
| LeaseProtocol.FinishedCallsHoldNothing | SimplyTransport/lib/concurrency.py:199-221 | a call that was skipped, or whose release reached Redis and came back, has no lease |
| LeaseProtocol.AcquireSucceedsAfterTtl | SimplyTransport/lib/concurrency.py:118-126 | from any reachable state, once more than one ttl has passed with no other step, the next acquire succeeds |
| RealtimeImport.EffectiveTripIdIs | SimplyTransport/lib/gtfs_realtime_importers.py:235-243 | an entity names its own trip id, but a duplicate with a non-empty id in its properties names that one instead |
| Records.RemovedTripsAre | SimplyTransport/domain/realtime/enums.py:18-20 | exactly CANCELED and DELETED take a trip out of service |
| RealtimeImport.CollectTripUpdateFeedIds | SimplyTransport/lib/gtfs_realtime_importers.py:262-281 | the two sets hold exactly the trips named (canceled ones and duplicates under their own id too) and the stops named by trips that run |
| RealtimeImport.LoadRealtimeLookups | SimplyTransport/lib/gtfs_realtime_importers.py:196-219 | what is loaded is the whole dataset's directory and stop set cut down to the ids asked for |
| RealtimeImport.RestrictedLookupsPreserveMeaning | SimplyTransport/lib/gtfs_realtime_importers.py:235-387 | for every feed, building from the named rows alone gives the records, or the exception, that building from the full tables gives |
| RealtimeImport.BuildRtTripAndStopTimeRecords | SimplyTransport/lib/gtfs_realtime_importers.py:293-387 | the loops compute the de-duplicated records of the specification, and raise for the whole feed at the first unreadable start time or date of a usable entity |
| RealtimeImport.ImportedRecordsAreWhatTheFeedSays | SimplyTransport/lib/gtfs_realtime_importers.py:308-383 | field by field, nothing is imported that no entity says, and everything an entity says is imported or superseded by a record of the same key |
| RealtimeImport.KeysAreTheUniqueFields | SimplyTransport/lib/gtfs_realtime_importers.py:76-77 | two trip rows have one key exactly when trip, route and dataset agree, two stop rows when stop, trip, stop sequence and dataset do |
| RealtimeImport.ImportRaisesIff | SimplyTransport/lib/gtfs_realtime_importers.py:314-335 | the import raises exactly when some entity on a known trip with a route has a start time or date that cannot be read |
| RealtimeImport.DedupRecordsByKey | SimplyTransport/lib/gtfs_realtime_importers.py:151-156 | one row per key, the last one given, in the order in which the keys were first seen |
| RealtimeImport.StopRecordsHaveTripRecords | SimplyTransport/lib/gtfs_realtime_importers.py:308-387 | keys are pairwise different as the unique constraints ask, all rows are of the dataset, every stop record's trip has a trip record, and a trip has stop records exactly when an entity supplies one while the trip runs |
| RealtimeImport.EveryVisitStays | SimplyTransport/lib/gtfs_realtime_importers.py:354-383 | each importable update of a running entity leaves a record of its stop and stop sequence, so a loop trip keeps both visits to a stop |
| RealtimeImport.RemovedTripHasNoStopRecords | SimplyTransport/lib/gtfs_realtime_importers.py:246-247 | a trip that is canceled or deleted and named by one entity only has no stop records |
| RealtimeImport.CanceledLaterKeepsStopRecords | SimplyTransport/lib/gtfs_realtime_importers.py:355-387 | the condition is needed: a feed with two entities on one trip leaves a canceled trip with a stop record |
| SnapshotImport.SnapshotTable.SnapshotCopy | SimplyTransport/lib/gtfs_realtime_importers.py:163-193 | the dataset is replaced as a whole or no row changes; it succeeds exactly when no call of the transaction fails and the copied rows meet the unique constraint and the primary key; ids come from one reserved range and are never given back |
| SnapshotImport.ReplacedIsSafe | SimplyTransport/domain/realtime/stop_time/rt_stop_time_model.py:25-30 | other datasets keep their rows in order, and a de-duplicated snapshot keeps the unique constraint |
| SnapshotImport.ReplacedIdsDifferIff | SimplyTransport/lib/gtfs_realtime_importers.py:184-193 | a snapshot keeps the primary key exactly when no row of another dataset has an id of the range that was reserved |
| SnapshotImport.ReservedIdsStay | SimplyTransport/lib/gtfs_realtime_importers.py:184-193 | as long as no id is beyond the sequence the range is free, and no id is beyond it afterwards |
| SnapshotImport.SequenceBehindRepeatsAnId | SimplyTransport/lib/gtfs_realtime_importers.py:184-193 | an input: with the sequence behind, one new row repeats the id of another dataset's row |
| SnapshotImport.RealTimeImporter.ImportTripUpdates | SimplyTransport/lib/gtfs_realtime_importers.py:491-533 | both tables' exact contents for every fault; an unreadable feed changes neither, and a readable one is stopped only by a failing call or by an id of the reserved range that is taken, never by the declared unique constraints; with no sequence behind its table no id is taken and that stays so; afterwards every stop row of the dataset has a trip row, unless nothing was committed and one lacked it before, or only the trips were and they do not cover the old stop rows |
| SnapshotImport.FailedSecondTransactionStrandsStops | SimplyTransport/lib/gtfs_realtime_importers.py:513-532 | an input for that last case: a stop row left without its trip |
| SnapshotImport.ImportedAtAnotherTime | SimplyTransport/lib/gtfs_realtime_importers.py:303-304 | the same feed on the same fallback date gives the same records but for created_at, or raises again |
| SnapshotImport.SameContentsIff | SimplyTransport/lib/gtfs_realtime_importers.py:44-65 | what up to id and created_at means: equal contents are the same rows in the same order in every other field |
| SnapshotImport.ReimportGivesTheSameRows | SimplyTransport/lib/gtfs_realtime_importers.py:163-193 | importing a feed twice leaves both tables as importing it once does, up to id and created_at |
| SnapshotImport.ImportTwice | SimplyTransport/lib/gtfs_realtime_importers.py:491-533 | two runs of the import on one feed with no failing call: when both succeed, the tables hold the rows that one run would give them, up to id and created_at; with no sequence behind, both succeed exactly when the feed is readable, and otherwise change nothing |
| Overlay.PickedPredecessorIsBest | SimplyTransport/domain/realtime/realtime_schedule/realtime_schedule_repo.py:24-33 | the filters and maxima pick the first best row at or before the stop in one order: not skipped, then latest in the trip, then newest; none exactly when there is no such row |
| Overlay.PickedSuccessorIsBest | SimplyTransport/domain/realtime/realtime_schedule/realtime_schedule_repo.py:36-46 | likewise at or after the stop: not skipped, then earliest, then newest |
| Overlay.PropagationNeverMovesBack | SimplyTransport/domain/realtime/realtime_schedule/realtime_schedule_repo.py:24-33 | once some update is at or before a stop, every later stop has one too, and its sequence never decreases; skipped rows included |
| Overlay.PropagationIsFlatBetweenUpdates | SimplyTransport/domain/realtime/realtime_schedule/realtime_schedule_repo.py:30-32 | from one non-skipped update up to the next every stop carries the same row |
| Overlay.IndexStops | SimplyTransport/domain/realtime/realtime_schedule/realtime_schedule_repo.py:121-129 | the one pass leaves, for every key, the newest exact row and, for every trip, its rows in order |
| Overlay.ResolvedIsCellOverlay | SimplyTransport/domain/realtime/realtime_schedule/realtime_schedule_repo.py:49-71 | each cell gets the newest exact match, else the best predecessor, else the best successor, and nothing exactly when its trip has no rows |
| Overlay.CellOverlayIsUnique | SimplyTransport/domain/realtime/realtime_schedule/realtime_schedule_repo.py:83-93 | that rule leaves no choice of row |
| Overlay.RecentRowsAre | SimplyTransport/domain/realtime/realtime_schedule/realtime_schedule_repo.py:114-120 | the rows taken for a trip are all its rows of the dataset and age, each once, in table order |
| Overlay.LoadRecentRtOverlayForSchedules | SimplyTransport/domain/realtime/realtime_schedule/realtime_schedule_repo.py:80-142 | both results agree with a scan of the whole realtime tables, cell by cell and trip by trip, and hold nothing else |
| Overlay.OverlaidFromOwnDatasetIff | SimplyTransport/domain/realtime/realtime_schedule/realtime_schedule_repo.py:97-119 | every schedule is served from its own dataset, whatever the realtime rows, exactly when all schedules are of one dataset |
| Overlay.OtherDatasetGetsNoOverlay | SimplyTransport/domain/realtime/realtime_schedule/realtime_schedule_repo.py:97-119 | an input for every mixed list: a row of another dataset than the first gets nothing from an exact update of its own |
| RealtimeSchedule.DelayIs | SimplyTransport/domain/realtime/realtime_schedule/realtime_schedule_model.py:96-99 | the delay is the larger of the two given, never below 0 unless both are given and negative |
| RealtimeSchedule.RealtimeScheduleModel.constructor | SimplyTransport/domain/realtime/realtime_schedule/realtime_schedule_model.py:38-94 | all seven fields in each of the five branches |
| RealtimeSchedule.RealtimeScheduleModel.SetRealEtaTextAndDue | SimplyTransport/domain/realtime/realtime_schedule/realtime_schedule_model.py:106-118 | the text reads Due exactly when the flag is set |
| RealtimeSchedule.EtaTextIs | SimplyTransport/domain/realtime/realtime_schedule/realtime_schedule_model.py:106-116 | which text for which countdown in microseconds, and the whole minutes that are left |
| RealtimeSchedule.StatusOfDelaysUpToAnHour | SimplyTransport/domain/realtime/realtime_schedule/realtime_schedule_model.py:120-138 | within an hour either way, across midnight too: early below -60 seconds, late above 300, on time between |
| RealtimeSchedule.StatusIsRightIff | SimplyTransport/domain/realtime/realtime_schedule/realtime_schedule_model.py:120-138 | for every delay, the status is the one the delay calls for at all scheduled times exactly when the delay on the clock is within an hour and calls for the same status |
| RealtimeSchedule.DayLateReadsOnTime | SimplyTransport/domain/realtime/realtime_schedule/realtime_schedule_model.py:120-138 | a service 24 hours late always reads as on time |
| RealtimeSchedule.LatenessIsTheDelayIff | SimplyTransport/domain/realtime/realtime_schedule/realtime_schedule_model.py:120-131 | the computed lateness is the delay exactly when the 23:00/00:00 wrap accounts for the midnights the delay crosses |
| RealtimeSchedule.LateCanReadAsEarly | SimplyTransport/domain/realtime/realtime_schedule/realtime_schedule_model.py:120-138 | a service at 22:45 running 90 minutes late is reported early |
| RealtimeSchedule.BuildRealtimeSchedules | SimplyTransport/domain/services/realtime_service.py:29-71 | one new model per schedule, in order, each classified from its trip's and its cell's overlay |
| RealtimeSchedule.DueDelayRecords | SimplyTransport/timescale/services/delays_service.py:35-70 | the fast path returns, in order, the records read off the models that are due with a known delay |
| RealtimeSchedule.FastPathEqualsSlowPath | SimplyTransport/domain/services/realtime_service.py:97-113 | the fast path and building, filtering and reading every model give the same sequence |
| RealtimeSchedule.RecordedExactly | SimplyTransport/timescale/services/delays_service.py:45-69 | a record is there exactly when it is the row, route, time and delay of a schedule whose trip runs, whose overlay is not an exact skip and whose delayed arrival was strictly between 0 and 60 seconds ago on the clock |
| RecordingKeys.KeysAgreeIff | SimplyTransport/timescale/services/delays_service.py:27-32 | for any two records, the keys are equal exactly when the scheduled times are and route:stop is the same text |
| RecordingKeys.KeysTellCodesApartIff | SimplyTransport/timescale/services/delays_service.py:27-32 | two route codes' records never share a key, except for the same route, stop and time, exactly when neither code goes on from the other with a colon |
| RecordingKeys.ColonsConfuseKeys | SimplyTransport/lib/cache_keys.py:75-75 | an instance: stop c of route a:b and stop b:c of route a share a key |
| DelayPolls.RedisService.CheckKeysExist | SimplyTransport/lib/cache.py:170-186 | one answer per distinct key: whether it is live |
| DelayPolls.RedisService.SetManyEmptyKeys | SimplyTransport/lib/cache.py:188-202 | whatever the batch size, every given key has the new expiry and every other key keeps its own; a batch size that is not positive raises with nothing set |
| DelayPolls.DelaysService.RecordDueDelays | SimplyTransport/timescale/services/delays_service.py:126-147 | on what was loaded, a poll appends the due records without a live key and renews exactly their keys for five minutes; a failure before the commit writes nothing, one while keys are set leaves the rows and the keys set so far |
| DelayPolls.RunKeepsKeysMatched | SimplyTransport/timescale/services/delays_service.py:128-143 | after any run of polls, failing ones included, the keys and the history match: each row whose key was set left one outliving it by five minutes, each key was left by a row |
| DelayPolls.RecordsAreSpaced | SimplyTransport/timescale/services/delays_service.py:132-143 | over any run, a record is more than 300 seconds after every record of its key from an earlier poll that set the key, and every poll without a failure sets the keys of all its records |
| DelayPolls.LostKeyRepeatsARecord | SimplyTransport/timescale/services/delays_service.py:142-143 | an input: when a Redis failure loses the key, the next poll records the arrival again, however soon |
| DelayPolls.DueKeysHaveFreshRecords | SimplyTransport/timescale/services/delays_service.py:132-143 | every poll at which a key is due leaves a record for it no older than 300 seconds, unless it fails before it writes |
| DelayLoading.RecordAllDelays | SimplyTransport/timescale/services/delays_service.py:87-147 | the whole poll: it loads exactly the wanted rows in the window whose service runs on the date, overlays them as the realtime tables require, and takes one step of the run |
| DelayLoading.DueRowIsLoadedIff | SimplyTransport/timescale/services/delays_service.py:94-119 | a due row of a wanted trip is loaded exactly when its shifted delay is within 20 minutes and its service runs on the date of the poll |
| DelayLoading.ArrivalIsNeverDroppedIff | SimplyTransport/timescale/services/delays_service.py:94-119 | every moment of the minute after an arrival would load the row exactly when the delay on the clock is between -20 and +19 minutes and the service runs on the dates that minute falls on |
| DelayLoading.LateFridayServiceIsDropped | SimplyTransport/timescale/services/delays_service.py:94-119 | an input: a Friday-only service at 23:55:00, 600 seconds late, due on Saturday at 00:05:30 and not loaded |
| DelayLoading.LongDelayLeavesTheWindow | SimplyTransport/timescale/services/delays_service.py:95-96 | an input: a service 20 minutes late is out of the window half a minute after it arrives |
| DelayLoading.ClockDateIsServiceDateIff | SimplyTransport/timescale/services/delays_service.py:108-119 | asking by the clock date gives the rows that pass on it, on every date, exactly when the raw hour is at most 23 or the service never runs |
| DelayLoading.FridayNightRowIsDropped | SimplyTransport/timescale/services/delays_service.py:94-119 | an input: a Friday-only row at 24:05:00 passes on Saturday on time and is not loaded |
| DelayLoading.FrequentPollsNeverMiss | SimplyTransport/timescale/services/delays_service.py:87-147 | over runs of any length, polls less than 60 seconds apart never miss an arrival with such a delay while the tables carry it for the minute after it and no poll then fails before it writes; that the row is loaded and overlaid is derived from the tables |
| DelayLoading.NextPollFindsEveryArrivalDueIff | SimplyTransport/domain/realtime/realtime_schedule/realtime_schedule_model.py:22-29 | of two consecutive polls the second finds every arrival since the first due, of rows scheduled on whole seconds, exactly when no whole second since the first is a minute or more before the second |
| ImportQueue.NeverDeadlocked | SimplyTransport/lib/gtfs_importers.py:237-257 | in every reachable state that is not finished some step can be taken |
| ImportQueue.EveryScheduleEnds | SimplyTransport/lib/gtfs_importers.py:331-354 | no schedule is longer than four steps a row and two a consumer, by a decreasing measure |
| ImportQueue.FinishedImportIsComplete | SimplyTransport/lib/gtfs_importers.py:327-354 | the committed batches are, as a multiset, the file cut into batches, their rows as a multiset the file's rows, and each consumer took exactly one sentinel |
| ImportQueue.BatchesFlatten | SimplyTransport/lib/gtfs_importers.py:339-351 | the batches lose, repeat and reorder nothing, and none is empty or too long |
| CopyImport.ProgressTicker.Create | SimplyTransport/lib/progress.py:17-30 | a count below one is refused; otherwise nothing is pending |
| CopyImport.ProgressTicker.Tick | SimplyTransport/lib/progress.py:32-39 | what is shown plus what is pending grows by n, and the bar is redrawn only for at least `every` items |
| CopyImport.ProgressTicker.Flush | SimplyTransport/lib/progress.py:41-52 | everything pending is shown and nothing is counted twice |
| IdReservation.RangesAreApartIff | SimplyTransport/lib/gtfs_importers.py:174-180 | over every run of nextval and setval steps of any number of sessions, no id is given out twice exactly when each nextval follows the setval of whoever drew last, or a nextval for one id |
| IdReservation.SerialReservationsAreContiguous | SimplyTransport/lib/gtfs_importers.py:174-180 | when nobody draws between a nextval and its setval, the ranges follow one another without gap or overlap |
| IdReservation.InterleavedReservationsAreApartIff | SimplyTransport/lib/gtfs_importers.py:174-180 | two interleaved reservations and the next one share no id exactly when the first wanted one id and its setval comes first |
| IdReservation.LateSetValRepeatsAnId | SimplyTransport/lib/gtfs_importers.py:174-180 | an input: one id each, the second session's setval first, and a third session is given id 2 again |
| CopyImport.CopyImporter.CopyBatch | SimplyTransport/lib/gtfs_importers.py:419-431 | appends the batch in order with ids above all those copied before |
| CopyImport.CopyImporter.CopyFile | SimplyTransport/lib/gtfs_importers.py:397-417 | the copied rows are the file's rows in order with strictly increasing ids over all batches, or whole batches of them before a malformed row, and progress advanced by exactly what was copied |
| ServiceDay.JoinIs | SimplyTransport/domain/schedule/schedule_repo.py:124-130 | the query has a row for exactly the stop times whose trip, stop, route and calendar exist |
| ServiceDay.JoinedRowsFit | SimplyTransport/domain/schedule/schedule_repo.py:127-130 | in every joined row the keys of trip, stop, route and calendar agree |
| ServiceDay.ScheduleRepo.GetStaticSchedules | SimplyTransport/domain/schedule/schedule_repo.py:51-101 | the accumulated conditions select the rows in scope on the weekday; an invalid day raises |
| ServiceDay.ScheduleRepo.GetStaticSchedulesForServiceIds | SimplyTransport/domain/schedule/schedule_repo.py:103-122 | the rows in scope of the given services, whatever the weekday |
| ServiceDay.ScheduleService.RemoveExceptionsAndInactiveCalendars | SimplyTransport/domain/services/schedule_service.py:60-75 | keeps, object by object and in order, exactly the schedules whose service is active and not removed |
| ServiceDay.ScheduleService.AddInAddedExceptions | SimplyTransport/domain/services/schedule_service.py:77-112 | appends the added services' rows whose key is not there yet, each flagged, the given ones untouched |
| ServiceDay.ScheduleService.SchedulesOn | SimplyTransport/domain/services/schedule_service.py:60-112 | for any tables, day and date, query, remove, add yield the rows of the join in scope that are regular for the day and date or added, as often as they occur; on the date's own day these are the rows whose service runs, and the flag marks those that do not run regularly |
| ServiceDay.RunsOnIff | SimplyTransport/domain/services/schedule_service.py:60-112 | a row runs on a date when the date is in range, on a weekday of its calendar and has no removed exception, or has an added one |
| ServiceDay.PipelineRefinesCalendarRule | SimplyTransport/domain/calendar/calendar_model.py:41-54 | no row is lost or doubled between the two queries, even when (trip_id, stop_sequence) repeats |
| ServiceDay.ScheduleIsService | SimplyTransport/domain/calendar/calendar_model.py:41-54 | on the day that the date falls on, the result is the GTFS rule: in range, on its weekday and not removed, or added |
| ServiceDay.ServiceRowsComeOnce | SimplyTransport/domain/schedule/schedule_repo.py:124-137 | with the primary key of stop_times.txt each row comes out exactly once |
| ScheduleSort.KeysOrderBySecondsSinceThree | SimplyTransport/domain/services/schedule_service.py:46-54 | the mixed-length tuples order times by the seconds since 03:00 |
| ScheduleSort.CustomSortingIsStable | SimplyTransport/domain/services/schedule_service.py:41-58 | the sort is the stable sort by (time - 03:00) modulo 24 hours |
| ScheduleSort.StableSortIsUnique | SimplyTransport/domain/services/realtime_service.py:78-95 | there is only one stable sort, so the algorithm behind sorted does not matter |
| ClockTime.ConvertTo24HoursIs | SimplyTransport/lib/time_date_conversions.py:9-20 | raw times up to 47:59:59 convert to the time modulo 24 hours, and all others raise |
| ScheduleSort.SortUndoesConversion | SimplyTransport/lib/time_date_conversions.py:9-20 | rows whose raw times lie in [03:00:00, 27:00:00) come out in raw time order after conversion to 24 hours |
| ScheduleSort.SortsByRawTimeIff | SimplyTransport/domain/services/schedule_service.py:46-54 | a row that can be stored is placed by raw time against every row of the service day exactly when its own raw time lies in [03:00:00, 27:00:00) |
| ScheduleSort.EarlyMorningSortsLast | SimplyTransport/domain/services/schedule_service.py:49-54 | an instance: 02:59:00 sorts after 25:00:00 |
| ClockTime.DueIsCircularWindow | SimplyTransport/domain/realtime/realtime_schedule/realtime_schedule_model.py:11-34 | for every scheduled time, delay and now, due means (now - scheduled - delay) modulo 24 hours strictly between 0 and 60 seconds |
| ClockTime.CountdownIsNearestIff | SimplyTransport/domain/realtime/realtime_schedule/realtime_schedule_model.py:11-19 | the countdown is the short way round the clock exactly when the 23/0 wrap fires or the two times are within half a day |
| ClockTime.CountdownIsNotAlwaysNearest | SimplyTransport/domain/realtime/realtime_schedule/realtime_schedule_model.py:11-19 | at 01:30 an arrival at 22:00 counts down from 1230 minutes instead of -210 |
| ClockTime.WindowsAreCircularIntervals | SimplyTransport/domain/schedule/schedule_repo.py:17-30 | the SQL conditions and is_active_between_times are both membership in the circular interval, overnight or not |
| ClockTime.ConditionsIff | SimplyTransport/domain/schedule/schedule_repo.py:17-30 | a missing bound imposes nothing; with both, exactly the circular interval passes |
| ClockTime.PrefetchKeepsDueRowsIff | SimplyTransport/domain/schedule/schedule_repo.py:17-30 | the poll's time window, without its other conditions, never drops a due row exactly when the delay on the clock is between -20 and +19 minutes |
| ClockTime.NextDateForDayIsFirst | SimplyTransport/lib/time_date_conversions.py:81-85 | the first date from the given one that falls on the day |
| NearestSegment.ProjectionAttainsMinimum | SimplyTransport/static/static/js/maplibre-map-shared.js:223-241 | above the threshold the clamped projection attains the minimum squared distance to the whole segment |
| NearestSegment.IsMinimumIff | SimplyTransport/static/static/js/maplibre-map-shared.js:229-233 | for every segment, the computed distance is that minimum exactly when the segment is above the threshold or does not point towards the point |
| NearestSegment.ShortSegmentIsMissed | SimplyTransport/static/static/js/maplibre-map-shared.js:229-233 | any segment below the threshold with a length is missed from its far end |
| NearestSegment.TrillionthIsMissed | SimplyTransport/static/static/js/maplibre-map-shared.js:229-233 | an instance: a segment a trillionth of a degree long |
| NearestSegment.ChosenSegmentIsNearestOnLine | SimplyTransport/static/static/js/maplibre-map-shared.js:284-298 | the chosen segment is at least as near as every point of every segment of the polyline for which that condition holds |
| NearestSegment.NormalizedIsTheAngle | SimplyTransport/static/static/js/maplibre-map-shared.js:216-217 | the double remainder is the one angle in [0, 360) that points the same way |
| NearestSegment.BearingAlongLineAtSegmentIndex | SimplyTransport/static/static/js/maplibre-map-shared.js:249-264 | the bearing of the first segment with a direction at or after the index; none exactly when there is none |
| NearestSegment.VehicleIconRotateDegrees | SimplyTransport/static/static/js/maplibre-map-shared.js:275-304 | always in [0, 360); a quarter turn less than the bearing from the first nearest segment, or 0 without a line or a direction |
| SeedShift.TripOrder | SimplyTransport/lib/realtime_seed_time_shift.py:75-82 | the trips the payload names, each once, in first-seen order |
| SeedShift.ServiceIdActiveOnLocalToday | SimplyTransport/lib/realtime_seed_time_shift.py:31-52 | a service of the dataset that runs today and is not removed, if there is one |
| SeedShift.ShiftStopTimesAndPatchPayloadForNow | SimplyTransport/lib/realtime_seed_time_shift.py:55-140 | every stop time, trip and payload entity afterwards, the properties included; without named trips nothing changes |
| SeedShift.RepointedOnlyIfNamed | SimplyTransport/lib/realtime_seed_time_shift.py:94-99 | only named trips of the dataset change, only in their service, and only when one is found |
| SeedShift.RepointedTripRunsToday | SimplyTransport/lib/realtime_seed_time_shift.py:87-99 | once a service is found, every stop of a named trip runs today by the calendar rule |
| SeedShift.FirstStopLandsOnAnchor | SimplyTransport/lib/realtime_seed_time_shift.py:116-122 | each trip's first stop lands on the trip's anchor, and stays its first stop |
| SeedShift.MovedStopsDepartOnArrival | SimplyTransport/lib/realtime_seed_time_shift.py:119-122 | every shifted stop departs when it arrives |
| SeedShift.SpacingIsKept | SimplyTransport/lib/realtime_seed_time_shift.py:117-122 | any two stops of a trip stay as far apart modulo 24 hours |
| SeedShift.ShiftingTwiceIsShiftingOnce | SimplyTransport/lib/realtime_seed_time_shift.py:106-122 | a second shift gives what it would have given on the original rows |
| SeedShift.PatchedPayloadStartsOnAnchor | SimplyTransport/lib/realtime_seed_time_shift.py:126-136 | importing the patched payload gives each shifted trip the date and time of its anchor, whatever it said before |

## Left out

- `skip_if_lock_held` is a check before the call, not exclusion: a static import can start after it. It has no safety to prove.
- Named locks (`try_acquire_lock`, `release_lock`) use the mutex commands that are modelled; their wrapping of errors is not.
- Tokens are fresh by assumption: no call draws a uuid that another drew.
- The queue model needs one consumer and one slot at least, and no consumer or commit fails; the code has no recovery from that.
- The vehicle import follows the trip-update import with fewer steps and is not modelled.
- HTTP fetching, retries and JSON parsing: feeds arrive as typed values, with text that does not parse kept as its own case. Direction ids and delays that are not numbers are not modelled.
- The order of rows that a query returns without asking for one is that of the table, and the order by arrival time of the schedule query is not modelled; no claim depends on either, except which of two equally new rows counts as first.
- DelayPolls.RecordsAreSpaced: it is about different polls; duplicates within one poll are not filtered by the code. A poll is one instant, though the code reads the clock several times.
- Database failures of the file import, the import queue and the seed shift: their calls succeed or the row is malformed.
- The progress bar of the realtime import; the ticker itself is modelled with the file import.
- The cache as a whole can be flushed and other keys set; the recorder's keys are taken to be its own.
- NearestSegment.VehicleIconRotateDegrees: works over the reals; the cosine of the latitude and the raw bearing are parameters, so floating-point rounding, infinities and the trigonometry itself are not modelled.
- Countdown minutes are real numbers, not floats.
- Local time is one unbroken clock: changes of the clock for summer time are not modelled.
- The copying methods and the snapshot reserve ids in one step, as in the serial runs of `IdReservation`; the calendar query of the seed shift reads the dataset's own rows.
- The seed shift overwrites departures with arrivals, so nothing is said about dwell times.
- Dates beyond the years that `datetime` can represent.
- `clear_table`, index dropping, table statistics, stop features, the other importers' record builders, and telemetry.
- Controllers, templates, authentication, settings and the rest of the map script.
