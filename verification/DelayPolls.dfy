/** The delay recorder: a job that polls, skips what it recorded in the last five minutes, and
    remembers what it recorded as keys with a time to live. */
module DelayPolls {
  import opened Prelude
  import opened ClockTime
  import opened Records
  import opened Overlay
  import opened RealtimeSchedule
  import opened RecordingKeys

  const FIVE_MINUTES: int := 300_000_000

  // ---------- the key store ----------

  /** A key set with a time to live is seen up to and including the instant it expires. */
  predicate IsLive(expiry: map<string, Instant>, key: string, now: Instant) {
    key in expiry && now <= expiry[key]
  }

  function WithKeys(expiry: map<string, Instant>, keys: seq<string>, until: Instant): map<string, Instant> {
    map k | k in expiry.Keys + (set x | x in keys) :: if k in keys then until else expiry[k]
  }

  lemma WithKeysAppend(expiry: map<string, Instant>, first: seq<string>, second: seq<string>, until: Instant)
    ensures WithKeys(WithKeys(expiry, first, until), second, until) == WithKeys(expiry, first + second, until)
  {
  }

  lemma WithOneKey(expiry: map<string, Instant>, key: string, until: Instant)
    ensures WithKeys(expiry, [key], until) == expiry[key := until]
    ensures WithKeys(expiry, [], until) == expiry
  {
  }

  class RedisService {
    var expiry: map<string, Instant>
    const defaultExpiration: nat

    constructor (expiration: nat)
      ensures expiry == map[] && defaultExpiration == expiration
    {
      expiry, defaultExpiration := map[], expiration;
    }

    /** dict(zip(keys, ...)): one answer for each distinct key. */
    method CheckKeysExist(keys: seq<string>, now: Instant) returns (found: map<string, bool>)
      ensures found.Keys == set k | k in keys
      ensures forall k :: k in found ==> found[k] == IsLive(expiry, k, now)
    {
      found := map[];
      for i := 0 to |keys|
        invariant found.Keys == set k | k in keys[..i]
        invariant forall k :: k in found ==> found[k] == IsLive(expiry, k, now)
      {
        found := found[keys[i] := IsLive(expiry, keys[i], now)];
      }
      assert keys[..|keys|] == keys;
    }

    /** One pipeline of SET commands. */
    method ExecuteBatch(batch: seq<string>, until: Instant)
      modifies this
      ensures expiry == WithKeys(old(expiry), batch, until)
    {
      hide WithKeys;
      WithOneKey(expiry, "", until);
      for i := 0 to |batch|
        invariant expiry == WithKeys(old(expiry), batch[..i], until)
      {
        WithKeysAppend(old(expiry), batch[..i], [batch[i]], until);
        WithOneKey(expiry, batch[i], until);
        assert batch[..i + 1] == batch[..i] + [batch[i]];
        expiry := expiry[batch[i] := until];
      }
      assert batch[..|batch|] == batch;
    }

    /** Every key ends up with the new expiry, whatever the batch size; other keys keep theirs. */
    method SetManyEmptyKeys(keys: seq<string>, expiration: Option<nat>, batchSize: int, now: Instant)
      returns (outcome: Result<()>)
      modifies this
      ensures batchSize <= 0 ==> outcome.Raised? && expiry == old(expiry)
      ensures batchSize > 0 ==>
        var seconds := if expiration.Some? && expiration.value != 0 then expiration.value else defaultExpiration;
        outcome.Ok? && expiry == WithKeys(old(expiry), keys, now + seconds * SECOND)
    {
      hide WithKeys;
      if batchSize <= 0 {
        return Raised("ValueError");
      }
      var seconds := if expiration.Some? && expiration.value != 0 then expiration.value else defaultExpiration;
      var until := now + seconds * SECOND;
      WithOneKey(expiry, "", until);
      var i := 0;
      while i < |keys|
        invariant 0 <= i <= |keys|
        invariant expiry == WithKeys(old(expiry), keys[..i], until)
      {
        var end := if i + batchSize < |keys| then i + batchSize else |keys|;
        ExecuteBatch(keys[i..end], until);
        WithKeysAppend(old(expiry), keys[..i], keys[i..end], until);
        assert keys[..i] + keys[i..end] == keys[..end];
        i := end;
      }
      assert keys[..|keys|] == keys;
      outcome := Ok(());
    }
  }

  // ---------- one poll ----------

  /** A row of the delay history, with the instant and the poll that wrote it, and whether that poll
      set its key. */
  datatype Stored = Stored(record: DelayRecord, at: Instant, poll: nat, keyed: bool)

  datatype PollState = PollState(expiry: map<string, Instant>, history: seq<Stored>, polls: nat)

  /** How a poll may fail: before its rows are committed, or after so many of their keys are set. */
  datatype PollFault = NoFault | NothingWritten | KeysFail(keysSet: nat)

  datatype Poll = Poll(now: Instant, due: seq<DelayRecord>, fault: PollFault)

  /** The due records whose key has lapsed or was never set, duplicates included. */
  function Unrecorded(due: seq<DelayRecord>, expiry: map<string, Instant>, now: Instant): seq<DelayRecord> {
    if due == [] then []
    else
      var r := due[|due| - 1];
      Unrecorded(due[..|due| - 1], expiry, now) + (if IsLive(expiry, RecordingKey(r), now) then [] else [r])
  }

  function KeysOf(records: seq<DelayRecord>): seq<string> {
    seq(|records|, i requires 0 <= i < |records| => RecordingKey(records[i]))
  }

  lemma KeyIsAmong(records: seq<DelayRecord>, r: DelayRecord)
    requires r in records
    ensures RecordingKey(r) in KeysOf(records)
  {
    hide RecordingKey;
    var i :| 0 <= i < |records| && records[i] == r;
    assert KeysOf(records)[i] == RecordingKey(r);
  }

  function Stamped(records: seq<DelayRecord>, at: Instant, poll: nat, keysSet: seq<string>): seq<Stored> {
    seq(|records|, i requires 0 <= i < |records| => Stored(records[i], at, poll, RecordingKey(records[i]) in keysSet))
  }

  /** What a poll with the fault writes of the records it found. */
  function Written(recorded: seq<DelayRecord>, fault: PollFault): seq<DelayRecord> {
    if fault == NothingWritten then [] else recorded
  }

  function KeysSet(recorded: seq<DelayRecord>, fault: PollFault): seq<string> {
    match fault
    case NoFault => KeysOf(recorded)
    case NothingWritten => []
    case KeysFail(n) => KeysOf(if n < |recorded| then recorded[..n] else recorded)
  }

  function PollStep(s: PollState, p: Poll): PollState {
    var recorded := Unrecorded(p.due, s.expiry, p.now);
    var keys := KeysSet(recorded, p.fault);
    PollState(WithKeys(s.expiry, keys, p.now + FIVE_MINUTES),
              s.history + Stamped(Written(recorded, p.fault), p.now, s.polls, keys),
              s.polls + 1)
  }

  class DelaysService {
    const redisCache: RedisService
    var history: seq<Stored>
    var polls: nat  // only numbers the rows of the history

    constructor (cache: RedisService)
      ensures redisCache == cache && history == [] && polls == 0
    {
      redisCache, history, polls := cache, [], 0;
    }

    ghost function State(): PollState
      reads this, redisCache
    {
      PollState(redisCache.expiry, history, polls)
    }

    /** The part of record_all_delays after loading, on the schedules and overlays it loaded. A Redis
        failure while keys are set leaves the keys set before it, and the rows. */
    method RecordDueDelays(schedules: seq<ScheduleRow>, overlayTrips: map<string, RTTrip>,
                           overlayStopTimes: map<CellKey, StopOverlay>, now: Instant, fault: PollFault)
      returns (recorded: Result<nat>)
      modifies this, redisCache
      ensures State() == PollStep(old(State()), Poll(now, RecordsFromModels(schedules, overlayTrips, overlayStopTimes, now), fault))
      ensures recorded.Ok? ==> |history| == |old(history)| + recorded.value
      ensures fault == NoFault ==> recorded.Ok?
      ensures recorded.Raised? ==> fault == NothingWritten || |old(history)| < |history|
    {
      hide RecordingKey, Unrecorded, RecordsFromModels, IsLive;
      polls := polls + 1;
      if fault == NothingWritten {
        WithOneKey(redisCache.expiry, "", now + FIVE_MINUTES);
        return Raised("DBAPIError");
      }
      var objectsToCommit := DueDelayRecords(schedules, overlayTrips, overlayStopTimes, now);
      var keysToCheck := KeysOf(objectsToCommit);
      var keysInCache := redisCache.CheckKeysExist(keysToCheck, now);
      forall r | r in objectsToCommit ensures RecordingKey(r) in keysToCheck {
        KeyIsAmong(objectsToCommit, r);
      }
      var filtered := WithoutLiveKeys(objectsToCommit, keysInCache, redisCache.expiry, now);
      var keysToSet := KeysSet(filtered, fault);
      history := history + Stamped(filtered, now, polls - 1, keysToSet);
      var done := redisCache.SetManyEmptyKeys(keysToSet, Some(60 * 5), 1000, now);
      if fault.KeysFail? && filtered != [] {
        return Raised("RedisError");
      }
      recorded := Ok(|filtered|);
    }
  }

  /** Drops the rows whose key was found in the cache. */
  method WithoutLiveKeys(rows: seq<DelayRecord>, keysInCache: map<string, bool>, ghost expiry: map<string, Instant>, ghost now: Instant)
    returns (filtered: seq<DelayRecord>)
    requires forall r :: r in rows ==> RecordingKey(r) in keysInCache
    requires forall k :: k in keysInCache ==> keysInCache[k] == IsLive(expiry, k, now)
    ensures filtered == Unrecorded(rows, expiry, now)
  {
    hide RecordingKey;
    filtered := [];
    for i := 0 to |rows|
      invariant filtered == Unrecorded(rows[..i], expiry, now)
    {
      assert rows[..i + 1][..i] == rows[..i];
      assert rows[i] in rows;
      if keysInCache[RecordingKey(rows[i])] {
        continue;
      }
      filtered := filtered + [rows[i]];
    }
    assert rows[..|rows|] == rows;
  }

  // ---------- whole runs ----------

  /** The recorder's own keys start out absent. */
  function RunPolls(polls: seq<Poll>): PollState {
    if polls == [] then PollState(map[], [], 0)
    else PollStep(RunPolls(polls[..|polls| - 1]), polls[|polls| - 1])
  }

  /** Polls happen at instants that never go backwards. */
  predicate InOrder(polls: seq<Poll>) {
    forall i, j :: 0 <= i < j < |polls| ==> polls[i].now <= polls[j].now
  }

  ghost predicate HasKeyAt(history: seq<Stored>, i: int, key: string, at: Instant) {
    0 <= i < |history| && RecordingKey(history[i].record) == key && history[i].at == at
  }

  ghost predicate HasRecordFor(history: seq<Stored>, key: string, at: Instant) {
    exists i :: HasKeyAt(history, i, key, at)
  }

  /** Every row was due at the poll that wrote it. */
  ghost predicate HistoryIsFromPolls(s: PollState, polls: seq<Poll>) {
    forall i :: 0 <= i < |s.history| ==>
      && s.history[i].poll < |polls|
      && s.history[i].at == polls[s.history[i].poll].now
      && s.history[i].record in polls[s.history[i].poll].due
  }

  /** Every row whose key was set left a key that outlives it by five minutes. */
  ghost predicate RowsHaveKeys(s: PollState) {
    forall i :: 0 <= i < |s.history| && s.history[i].keyed ==>
      var key := RecordingKey(s.history[i].record);
      key in s.expiry && s.history[i].at + FIVE_MINUTES <= s.expiry[key]
  }

  /** Every key was left by a row written five minutes before it expires. */
  ghost predicate KeysHaveRows(s: PollState) {
    forall k :: k in s.expiry ==> HasRecordFor(s.history, k, s.expiry[k] - FIVE_MINUTES)
  }

  /** What links the keys to the history after every poll. */
  ghost predicate KeysMatchHistory(s: PollState, polls: seq<Poll>) {
    s.polls == |polls| && HistoryIsFromPolls(s, polls) && RowsHaveKeys(s) && KeysHaveRows(s)
  }

  lemma UnrecordedWhen(due: seq<DelayRecord>, expiry: map<string, Instant>, now: Instant)
    ensures forall r :: r in Unrecorded(due, expiry, now) <==> r in due && !IsLive(expiry, RecordingKey(r), now)
  {
    if due != [] {
      assert due == due[..|due| - 1] + [due[|due| - 1]];
    }
  }

  lemma {:induction false} RunKeepsKeysMatched(polls: seq<Poll>)
    requires InOrder(polls)
    ensures KeysMatchHistory(RunPolls(polls), polls)
  {
    if polls == [] {
    } else {
      var n := |polls| - 1;
      RunKeepsKeysMatched(polls[..n]);
      StepKeepsKeysMatched(RunPolls(polls[..n]), polls);
    }
  }

  lemma StepKeepsKeysMatched(s: PollState, polls: seq<Poll>)
    requires polls != [] && InOrder(polls)
    requires KeysMatchHistory(s, polls[..|polls| - 1])
    ensures KeysMatchHistory(PollStep(s, polls[|polls| - 1]), polls)
  {
    hide Unrecorded, RecordingKey;
    var p := polls[|polls| - 1];
    StepHistoryIsFromPolls(s, polls);
    forall i | 0 <= i < |s.history| ensures s.history[i].at <= p.now {
      assert polls[..|polls| - 1][s.history[i].poll].now <= p.now;
    }
    StepRowsHaveKeys(s, p);
    StepKeysHaveRows(s, p);
  }

  lemma StepHistoryIsFromPolls(s: PollState, polls: seq<Poll>)
    requires polls != [] && s.polls == |polls| - 1
    requires HistoryIsFromPolls(s, polls[..|polls| - 1])
    ensures HistoryIsFromPolls(PollStep(s, polls[|polls| - 1]), polls)
  {
    hide RecordingKey;
    var p := polls[|polls| - 1];
    UnrecordedWhen(p.due, s.expiry, p.now);
    var written := Written(Unrecorded(p.due, s.expiry, p.now), p.fault);
    hide Unrecorded, WithKeys, KeysSet;
    var s' := PollStep(s, p);
    forall i | 0 <= i < |s'.history|
      ensures s'.history[i].poll < |polls| && s'.history[i].at == polls[s'.history[i].poll].now
      ensures s'.history[i].record in polls[s'.history[i].poll].due
    {
      if i < |s.history| {
        assert s'.history[i] == s.history[i];
      } else {
        assert s'.history[i].record == written[i - |s.history|] && s'.history[i].poll == s.polls;
        assert written[i - |s.history|] in written;
      }
    }
  }

  lemma StepRowsHaveKeys(s: PollState, p: Poll)
    requires RowsHaveKeys(s) && forall i :: 0 <= i < |s.history| ==> s.history[i].at <= p.now
    ensures RowsHaveKeys(PollStep(s, p))
  {
    hide RecordingKey, Unrecorded, KeysSet;
    var s' := PollStep(s, p);
    forall i | 0 <= i < |s'.history| && s'.history[i].keyed
      ensures RecordingKey(s'.history[i].record) in s'.expiry
      ensures s'.history[i].at + FIVE_MINUTES <= s'.expiry[RecordingKey(s'.history[i].record)]
    {
      if i < |s.history| {
        assert s'.history[i] == s.history[i];
      }
    }
  }

  /** A key that is set belongs to a record that is written. */
  lemma SetKeyIsWritten(recorded: seq<DelayRecord>, fault: PollFault, key: string) returns (j: nat)
    requires key in KeysSet(recorded, fault)
    ensures j < |Written(recorded, fault)| && RecordingKey(Written(recorded, fault)[j]) == key
  {
    hide RecordingKey;
    var keys := KeysSet(recorded, fault);
    j :| 0 <= j < |keys| && keys[j] == key;
  }

  lemma StepKeysHaveRows(s: PollState, p: Poll)
    requires KeysHaveRows(s)
    ensures KeysHaveRows(PollStep(s, p))
  {
    hide RecordingKey, Unrecorded, KeysSet;
    var recorded := Unrecorded(p.due, s.expiry, p.now);
    var s' := PollStep(s, p);
    forall k | k in s'.expiry
      ensures HasRecordFor(s'.history, k, s'.expiry[k] - FIVE_MINUTES)
    {
      if k in KeysSet(recorded, p.fault) {
        var j := SetKeyIsWritten(recorded, p.fault, k);
        assert HasKeyAt(s'.history, |s.history| + j, k, p.now);
      } else {
        var i :| HasKeyAt(s.history, i, k, s.expiry[k] - FIVE_MINUTES);
        assert HasKeyAt(s'.history, i, k, s'.expiry[k] - FIVE_MINUTES);
      }
    }
  }

  /** A record made now is more than 300 seconds after every earlier row with its key that set it. */
  lemma NewRecordIsSpaced(s: PollState, p: Poll, i: int, r: DelayRecord)
    requires RowsHaveKeys(s) && 0 <= i < |s.history| && s.history[i].keyed
    requires r in Unrecorded(p.due, s.expiry, p.now)
    requires RecordingKey(s.history[i].record) == RecordingKey(r)
    ensures p.now - s.history[i].at > 300 * SECOND
  {
    hide RecordingKey;
    UnrecordedWhen(p.due, s.expiry, p.now);
  }

  /** A record is more than 300 seconds after every record with its key from an earlier poll that set the
      key. */
  ghost predicate IsSpaced(history: seq<Stored>) {
    forall i, j :: 0 <= i < |history| && 0 <= j < |history| && history[i].poll < history[j].poll && history[i].keyed
                   && RecordingKey(history[i].record) == RecordingKey(history[j].record)
                   ==> history[j].at - history[i].at > 300 * SECOND
  }

  /** A poll without a Redis failure sets the key of every row it writes. */
  ghost predicate FaultlessPollsSetKeys(history: seq<Stored>, polls: seq<Poll>) {
    forall i :: 0 <= i < |history| ==>
      history[i].poll < |polls| && (polls[history[i].poll].fault == NoFault ==> history[i].keyed)
  }

  /** Over any run, whatever fails. */
  lemma RecordsAreSpaced(polls: seq<Poll>)
    requires InOrder(polls)
    ensures IsSpaced(RunPolls(polls).history) && FaultlessPollsSetKeys(RunPolls(polls).history, polls)
  {
    hide RunPolls, RecordingKey;
    var h := RunPolls(polls).history;
    forall i, j | 0 <= i < |h| && 0 <= j < |h| && h[i].poll < h[j].poll && h[i].keyed
                  && RecordingKey(h[i].record) == RecordingKey(h[j].record)
      ensures h[j].at - h[i].at > 300 * SECOND
    {
      PairIsSpaced(polls, i, j);
    }
    RunSetsKeys(polls);
  }

  lemma {:induction false} RunSetsKeys(polls: seq<Poll>)
    ensures RunPolls(polls).polls == |polls| && FaultlessPollsSetKeys(RunPolls(polls).history, polls)
  {
    if polls == [] {
    } else {
      RunSetsKeys(polls[..|polls| - 1]);
      hide FaultlessPollsSetKeys, PollStep;
      StepSetsKeys(RunPolls(polls[..|polls| - 1]), polls);
    }
  }

  lemma StepSetsKeys(s: PollState, polls: seq<Poll>)
    requires polls != [] && s.polls == |polls| - 1 && FaultlessPollsSetKeys(s.history, polls[..|polls| - 1])
    ensures var s' := PollStep(s, polls[|polls| - 1]);
            s'.polls == |polls| && FaultlessPollsSetKeys(s'.history, polls)
  {
    hide RecordingKey, Unrecorded, WithKeys;
    var p := polls[|polls| - 1];
    var recorded, h := Unrecorded(p.due, s.expiry, p.now), PollStep(s, p).history;
    forall i | 0 <= i < |h| ensures h[i].poll < |polls| && (polls[h[i].poll].fault == NoFault ==> h[i].keyed) {
      if i < |s.history| {
        assert h[i] == s.history[i];
      } else if p.fault == NoFault {
        KeyIsAmong(recorded, recorded[i - |s.history|]);
      }
    }
  }

  /** A poll leaves the earlier rows and adds rows of its own, of records it found without a live key. */
  lemma StepAddsRows(s: PollState, p: Poll, j: int)
    requires 0 <= j < |PollStep(s, p).history|
    ensures |s.history| <= |PollStep(s, p).history|
    ensures j < |s.history| ==> PollStep(s, p).history[j] == s.history[j]
    ensures j >= |s.history| ==>
              var row := PollStep(s, p).history[j];
              row.poll == s.polls && row.at == p.now && row.record in Unrecorded(p.due, s.expiry, p.now)
  {
    hide RecordingKey, Unrecorded, KeysSet, WithKeys;
  }

  lemma {:induction false} PairIsSpaced(polls: seq<Poll>, i: int, j: int)
    requires InOrder(polls)
    requires 0 <= i < |RunPolls(polls).history| && 0 <= j < |RunPolls(polls).history|
    requires RunPolls(polls).history[i].poll < RunPolls(polls).history[j].poll && RunPolls(polls).history[i].keyed
    requires RecordingKey(RunPolls(polls).history[i].record) == RecordingKey(RunPolls(polls).history[j].record)
    ensures RunPolls(polls).history[j].at - RunPolls(polls).history[i].at > 300 * SECOND
  {
    hide RecordingKey, Unrecorded, PollStep;
    var n := |polls| - 1;
    var s, h := RunPolls(polls[..n]), RunPolls(polls).history;
    RunKeepsKeysMatched(polls[..n]);
    StepAddsRows(s, polls[n], i);
    StepAddsRows(s, polls[n], j);
    if j < |s.history| {
      assert h[j].poll < n;
      PairIsSpaced(polls[..n], i, j);
    } else {
      NewRecordIsSpaced(s, polls[n], i, h[j].record);
    }
  }

  /** With the first poll's keys lost to a Redis failure the next poll records the arrival again. */
  lemma LostKeyRepeatsARecord(r: DelayRecord, now: Instant, later: Instant)
    ensures var h := RunPolls([Poll(now, [r], KeysFail(0)), Poll(later, [r], NoFault)]).history;
            |h| == 2 && h[0].record == h[1].record == r && h[0].at == now && h[1].at == later
  {
    hide RecordingKey;
    var p1, p2 := Poll(now, [r], KeysFail(0)), Poll(later, [r], NoFault);
    assert [p1, p2][..1] == [p1] && [p1][..0] == [];
    OneUnrecorded(r, map[], now);
    OneUnrecorded(r, map[], later);
    assert RunPolls([p1]).expiry == map[];
  }

  lemma OneUnrecorded(r: DelayRecord, expiry: map<string, Instant>, now: Instant)
    requires !IsLive(expiry, RecordingKey(r), now)
    ensures Unrecorded([r], expiry, now) == [r]
  {
    assert [r][..0] == [];
  }

  /** A row for the key, written at poll k or before, at most 300 seconds before now. */
  ghost predicate IsFreshRecord(history: seq<Stored>, i: int, key: string, k: int, now: Instant) {
    && 0 <= i < |history| && RecordingKey(history[i].record) == key
    && history[i].poll <= k && now - 300 * SECOND <= history[i].at <= now
  }

  ghost predicate HasFreshRecord(history: seq<Stored>, key: string, k: int, now: Instant) {
    exists i :: IsFreshRecord(history, i, key, k, now)
  }

  /** A live key was left by a row that is fresh. */
  lemma LiveKeyHasFreshRecord(s: PollState, polls: seq<Poll>, key: string)
    requires polls != [] && InOrder(polls) && KeysMatchHistory(s, polls[..|polls| - 1])
    requires IsLive(s.expiry, key, polls[|polls| - 1].now)
    ensures HasFreshRecord(s.history, key, |polls| - 1, polls[|polls| - 1].now)
  {
    hide RecordingKey;
    var n := |polls| - 1;
    var i :| HasKeyAt(s.history, i, key, s.expiry[key] - FIVE_MINUTES);
    assert s.history[i].at == polls[s.history[i].poll].now;
    assert IsFreshRecord(s.history, i, key, n, polls[n].now);
  }

  lemma FreshRecordStays(history: seq<Stored>, more: seq<Stored>, key: string, k: int, now: Instant)
    requires HasFreshRecord(history, key, k, now)
    ensures HasFreshRecord(history + more, key, k, now)
  {
    hide RecordingKey;
    var i :| IsFreshRecord(history, i, key, k, now);
    assert IsFreshRecord(history + more, i, key, k, now);
  }

  lemma NewRecordIsFresh(history: seq<Stored>, recorded: seq<DelayRecord>, r: DelayRecord, k: nat, now: Instant, keysSet: seq<string>)
    requires r in recorded
    ensures HasFreshRecord(history + Stamped(recorded, now, k, keysSet), RecordingKey(r), k, now)
  {
    hide RecordingKey;
    var i :| 0 <= i < |recorded| && recorded[i] == r;
    assert IsFreshRecord(history + Stamped(recorded, now, k, keysSet), |history| + i, RecordingKey(r), k, now);
  }

  lemma LastPollIsFresh(s: PollState, polls: seq<Poll>, r: DelayRecord)
    requires polls != [] && InOrder(polls) && KeysMatchHistory(s, polls[..|polls| - 1])
    requires r in polls[|polls| - 1].due && polls[|polls| - 1].fault != NothingWritten
    ensures HasFreshRecord(PollStep(s, polls[|polls| - 1]).history, RecordingKey(r), |polls| - 1, polls[|polls| - 1].now)
  {
    var p := polls[|polls| - 1];
    UnrecordedWhen(p.due, s.expiry, p.now);
    hide RecordingKey, Unrecorded, HasFreshRecord, Stamped, KeysSet, WithKeys;
    var recorded := Unrecorded(p.due, s.expiry, p.now);
    var keys := KeysSet(recorded, p.fault);
    if IsLive(s.expiry, RecordingKey(r), p.now) {
      LiveKeyHasFreshRecord(s, polls, RecordingKey(r));
      FreshRecordStays(s.history, Stamped(recorded, p.now, s.polls, keys), RecordingKey(r), |polls| - 1, p.now);
    } else {
      NewRecordIsFresh(s.history, recorded, r, s.polls, p.now, keys);
    }
  }

  /** Every poll at which a key is due, unless it fails before it writes, leaves a record for that key no
      older than 300 seconds. */
  lemma {:induction false} DueKeysHaveFreshRecords(polls: seq<Poll>, k: int, r: DelayRecord)
    requires InOrder(polls)
    requires 0 <= k < |polls| && r in polls[k].due
    ensures polls[k].fault != NothingWritten ==> HasFreshRecord(RunPolls(polls).history, RecordingKey(r), k, polls[k].now)
  {
    hide RecordingKey, Unrecorded, KeysSet, WithKeys, Stamped;
    var n := |polls| - 1;
    if polls[k].fault == NothingWritten {
    } else if k < n {
      DueKeysHaveFreshRecords(polls[..n], k, r);
      var i :| IsFreshRecord(RunPolls(polls[..n]).history, i, RecordingKey(r), k, polls[k].now);
      assert IsFreshRecord(RunPolls(polls).history, i, RecordingKey(r), k, polls[k].now);
    } else {
      RunKeepsKeysMatched(polls[..n]);
      LastPollIsFresh(RunPolls(polls[..n]), polls, r);
    }
  }
}
