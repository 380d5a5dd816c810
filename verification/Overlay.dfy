/** Which realtime stop row applies to each static schedule cell: exact match, else the delay
    carried forward from a predecessor, else the nearest successor. */
module Overlay {
  import opened Prelude
  import opened ClockTime
  import opened Records

  datatype StopOverlay = StopOverlay(row: RTStopTime, exactMatch: bool)

  // ---------- the two carry-forward choices, as the source computes them ----------

  function Predecessors(rows: seq<RTStopTime>, s: int): seq<RTStopTime> {
    if rows == [] then []
    else (if rows[0].stopSequence <= s then [rows[0]] else []) + Predecessors(rows[1..], s)
  }

  function Successors(rows: seq<RTStopTime>, s: int): seq<RTStopTime> {
    if rows == [] then []
    else (if rows[0].stopSequence >= s then [rows[0]] else []) + Successors(rows[1..], s)
  }

  function NonSkipped(rows: seq<RTStopTime>): seq<RTStopTime> {
    if rows == [] then []
    else (if IsSkipped(rows[0]) then [] else [rows[0]]) + NonSkipped(rows[1..])
  }

  predicate IsSkipped(r: RTStopTime) {
    r.relationship == SKIPPED
  }

  /** max(rows, key=(stop_sequence, created_at)): the first of equals wins. */
  function MaxBySequence(rows: seq<RTStopTime>): (r: RTStopTime)
    requires rows != []
    ensures r in rows
  {
    if |rows| == 1 then rows[0]
    else
      var rest := MaxBySequence(rows[1..]);
      if || rows[0].stopSequence < rest.stopSequence
         || (rows[0].stopSequence == rest.stopSequence && rows[0].createdAt < rest.createdAt)
      then rest else rows[0]
  }

  function MinSequence(rows: seq<RTStopTime>): int
    requires rows != []
  {
    if |rows| == 1 then rows[0].stopSequence
    else
      var rest := MinSequence(rows[1..]);
      if rest < rows[0].stopSequence then rest else rows[0].stopSequence
  }

  function AtSequence(rows: seq<RTStopTime>, s: int): seq<RTStopTime> {
    if rows == [] then []
    else (if rows[0].stopSequence == s then [rows[0]] else []) + AtSequence(rows[1..], s)
  }

  /** max(rows, key=created_at): the first of equals wins. */
  function MaxByCreated(rows: seq<RTStopTime>): (r: RTStopTime)
    requires rows != []
    ensures r in rows
  {
    if |rows| == 1 then rows[0]
    else
      var rest := MaxByCreated(rows[1..]);
      if rows[0].createdAt < rest.createdAt then rest else rows[0]
  }

  function PickPredecessorCarryForward(tripRows: seq<RTStopTime>, staticSequence: int): Option<RTStopTime> {
    var predecessors := Predecessors(tripRows, staticSequence);
    if predecessors == [] then None
    else
      var nonSkipped := NonSkipped(predecessors);
      if nonSkipped != [] then Some(MaxBySequence(nonSkipped))
      else Some(MaxBySequence(predecessors))
  }

  /** The newest row of the pool among those at its lowest sequence. */
  function EarliestOf(pool: seq<RTStopTime>): RTStopTime
    requires pool != []
  {
    AtSequenceWhen(pool, MinSequence(pool));
    MaxByCreated(AtSequence(pool, MinSequence(pool)))
  }

  function PickSuccessorCarryForward(tripRows: seq<RTStopTime>, staticSequence: int): Option<RTStopTime> {
    var successors := Successors(tripRows, staticSequence);
    if successors == [] then None
    else
      var nonSkipped := NonSkipped(successors);
      Some(EarliestOf(if nonSkipped != [] then nonSkipped else successors))
  }

  // ---------- the reference: one lexicographic order for each direction ----------

  /** a is a better update to carry forward than b: not skipped, then later in the trip, then newer. */
  predicate BetterPredecessor(a: RTStopTime, b: RTStopTime) {
    if (a.relationship == "SKIPPED") != (b.relationship == "SKIPPED") then b.relationship == "SKIPPED"
    else if a.stopSequence != b.stopSequence then a.stopSequence > b.stopSequence
    else a.createdAt > b.createdAt
  }

  /** a is a better update to fall back on than b: not skipped, then earlier in the trip, then newer. */
  predicate BetterSuccessor(a: RTStopTime, b: RTStopTime) {
    if (a.relationship == "SKIPPED") != (b.relationship == "SKIPPED") then b.relationship == "SKIPPED"
    else if a.stopSequence != b.stopSequence then a.stopSequence < b.stopSequence
    else a.createdAt > b.createdAt
  }

  /** Row i is the first best of the rows at or before the static sequence. */
  ghost predicate IsBestPredecessor(rows: seq<RTStopTime>, s: int, i: int) {
    && 0 <= i < |rows| && rows[i].stopSequence <= s
    && forall j :: 0 <= j < |rows| && rows[j].stopSequence <= s ==>
                     && !BetterPredecessor(rows[j], rows[i])
                     && (j < i ==> BetterPredecessor(rows[i], rows[j]))
  }

  ghost predicate IsBestSuccessor(rows: seq<RTStopTime>, s: int, i: int) {
    && 0 <= i < |rows| && rows[i].stopSequence >= s
    && forall j :: 0 <= j < |rows| && rows[j].stopSequence >= s ==>
                     && !BetterSuccessor(rows[j], rows[i])
                     && (j < i ==> BetterSuccessor(rows[i], rows[j]))
  }

  // ---------- the choices agree with the reference ----------

  lemma AtSequenceWhen(rows: seq<RTStopTime>, s: int)
    requires rows != [] && s <= MinSequence(rows)
    ensures s == MinSequence(rows) <==> AtSequence(rows, s) != []
  {
  }

  lemma AtSequenceHolds(rows: seq<RTStopTime>, s: int)
    ensures forall r :: r in AtSequence(rows, s) ==> r in rows && r.stopSequence == s
  {
  }

  lemma NonSkippedHolds(rows: seq<RTStopTime>)
    ensures forall r :: r in NonSkipped(rows) ==> !IsSkipped(r)
    ensures NonSkipped(rows) == [] ==> forall r :: r in rows ==> IsSkipped(r)
  {
  }

  lemma MaxBySequenceCons(x: RTStopTime, rest: seq<RTStopTime>)
    requires rest != []
    ensures var m := MaxBySequence(rest);
            MaxBySequence([x] + rest) ==
            if || x.stopSequence < m.stopSequence
               || (x.stopSequence == m.stopSequence && x.createdAt < m.createdAt) then m else x
  {
    assert ([x] + rest)[1..] == rest;
  }

  lemma MaxByCreatedCons(x: RTStopTime, rest: seq<RTStopTime>)
    requires rest != []
    ensures MaxByCreated([x] + rest) ==
            if x.createdAt < MaxByCreated(rest).createdAt then MaxByCreated(rest) else x
  {
    assert ([x] + rest)[1..] == rest;
  }

  /** The filters on a list with one more row in front. */
  lemma FiltersCons(x: RTStopTime, rest: seq<RTStopTime>, s: int)
    ensures NonSkipped([x] + rest) == (if IsSkipped(x) then [] else [x]) + NonSkipped(rest)
    ensures AtSequence([x] + rest, s) == (if x.stopSequence == s then [x] else []) + AtSequence(rest, s)
    ensures Predecessors([x] + rest, s) == (if x.stopSequence <= s then [x] else []) + Predecessors(rest, s)
    ensures Successors([x] + rest, s) == (if x.stopSequence >= s then [x] else []) + Successors(rest, s)
    ensures rest != [] ==> MinSequence([x] + rest) ==
                           (if MinSequence(rest) < x.stopSequence then MinSequence(rest) else x.stopSequence)
  {
    assert ([x] + rest)[1..] == rest;
  }

  /** Picking a predecessor one row at a time. */
  lemma PickPredecessorStep(x: RTStopTime, rows: seq<RTStopTime>, s: int)
    ensures PickPredecessorCarryForward([x] + rows, s) ==
            var rest := PickPredecessorCarryForward(rows, s);
            if x.stopSequence > s then rest
            else if rest.None? || !BetterPredecessor(rest.value, x) then Some(x)
            else rest
  {
    var ps := Predecessors(rows, s);
    FiltersCons(x, rows, s);
    FiltersCons(x, ps, s);
    NonSkippedHolds(ps);
    assert [] + ps == ps && [] + NonSkipped(ps) == NonSkipped(ps);
    if ps != [] { MaxBySequenceCons(x, ps); }
    if NonSkipped(ps) != [] { MaxBySequenceCons(x, NonSkipped(ps)); }
  }

  lemma EarliestOfIn(pool: seq<RTStopTime>)
    requires pool != []
    ensures EarliestOf(pool) in pool && EarliestOf(pool).stopSequence == MinSequence(pool)
  {
    AtSequenceWhen(pool, MinSequence(pool));
    AtSequenceHolds(pool, MinSequence(pool));
  }

  lemma EarliestOfCons(x: RTStopTime, rest: seq<RTStopTime>)
    requires rest != []
    ensures EarliestOf([x] + rest) ==
            var e := EarliestOf(rest);
            if x.stopSequence < e.stopSequence
               || (x.stopSequence == e.stopSequence && x.createdAt >= e.createdAt) then x else e
  {
    var s := MinSequence([x] + rest);
    FiltersCons(x, rest, s);
    EarliestOfIn(rest);
    AtSequenceWhen(rest, s);
    assert [] + AtSequence(rest, s) == AtSequence(rest, s);
    if x.stopSequence == s && AtSequence(rest, s) != [] {
      MaxByCreatedCons(x, AtSequence(rest, s));
    }
  }

  lemma EarliestOfOne(x: RTStopTime)
    ensures EarliestOf([x]) == x
  {
    assert AtSequence([x], x.stopSequence) == [x];
  }

  lemma PickSuccessorStep(x: RTStopTime, rows: seq<RTStopTime>, s: int)
    ensures PickSuccessorCarryForward([x] + rows, s) ==
            var rest := PickSuccessorCarryForward(rows, s);
            if x.stopSequence < s then rest
            else if rest.None? || !BetterSuccessor(rest.value, x) then Some(x)
            else rest
  {
    var ss := Successors(rows, s);
    FiltersCons(x, rows, s);
    FiltersCons(x, ss, s);
    NonSkippedHolds(ss);
    assert [] + ss == ss && [] + NonSkipped(ss) == NonSkipped(ss);
    EarliestOfOne(x);
    assert [x] + [] == [x];
    if ss != [] { EarliestOfIn(ss); EarliestOfCons(x, ss); }
    if NonSkipped(ss) != [] { EarliestOfIn(NonSkipped(ss)); EarliestOfCons(x, NonSkipped(ss)); }
  }

  lemma BestPredecessorStep(x: RTStopTime, rows: seq<RTStopTime>, s: int, i: int)
    requires IsBestPredecessor(rows, s, i)
    ensures IsBestPredecessor([x] + rows, s,
                              if x.stopSequence > s || BetterPredecessor(rows[i], x) then i + 1 else 0)
  {
    var all := [x] + rows;
    assert forall j :: 0 < j < |all| ==> all[j] == rows[j - 1];
  }

  lemma BestSuccessorStep(x: RTStopTime, rows: seq<RTStopTime>, s: int, i: int)
    requires IsBestSuccessor(rows, s, i)
    ensures IsBestSuccessor([x] + rows, s,
                            if x.stopSequence < s || BetterSuccessor(rows[i], x) then i + 1 else 0)
  {
    var all := [x] + rows;
    assert forall j :: 0 < j < |all| ==> all[j] == rows[j - 1];
  }

  lemma {:induction false} PickedPredecessorIsBest(rows: seq<RTStopTime>, s: int) returns (i: int)
    ensures var picked := PickPredecessorCarryForward(rows, s);
            if picked.None? then forall j :: 0 <= j < |rows| ==> rows[j].stopSequence > s
            else IsBestPredecessor(rows, s, i) && rows[i] == picked.value
  {
    i := 0;
    if rows == [] {
    } else {
      var k := PickedPredecessorIsBest(rows[1..], s);
      PickPredecessorStep(rows[0], rows[1..], s);
      assert [rows[0]] + rows[1..] == rows;
      if PickPredecessorCarryForward(rows[1..], s).Some? {
        BestPredecessorStep(rows[0], rows[1..], s, k);
        i := if rows[0].stopSequence > s || BetterPredecessor(rows[1..][k], rows[0]) then k + 1 else 0;
      } else {
        assert forall j :: 0 < j < |rows| ==> rows[j] == rows[1..][j - 1];
      }
    }
  }

  lemma {:induction false} PickedSuccessorIsBest(rows: seq<RTStopTime>, s: int) returns (i: int)
    ensures var picked := PickSuccessorCarryForward(rows, s);
            if picked.None? then forall j :: 0 <= j < |rows| ==> rows[j].stopSequence < s
            else IsBestSuccessor(rows, s, i) && rows[i] == picked.value
  {
    i := 0;
    if rows == [] {
    } else {
      var k := PickedSuccessorIsBest(rows[1..], s);
      PickSuccessorStep(rows[0], rows[1..], s);
      assert [rows[0]] + rows[1..] == rows;
      if PickSuccessorCarryForward(rows[1..], s).Some? {
        BestSuccessorStep(rows[0], rows[1..], s, k);
        i := if rows[0].stopSequence < s || BetterSuccessor(rows[1..][k], rows[0]) then k + 1 else 0;
      } else {
        assert forall j :: 0 < j < |rows| ==> rows[j] == rows[1..][j - 1];
      }
    }
  }

  // ---------- delay propagation along a trip ----------

  /** As the static sequence grows, the update carried forward never moves back along the trip. */
  lemma PropagationNeverMovesBack(rows: seq<RTStopTime>, s1: int, s2: int)
    requires s1 <= s2
    requires PickPredecessorCarryForward(rows, s1).Some?
    ensures PickPredecessorCarryForward(rows, s2).Some?
    ensures PickPredecessorCarryForward(rows, s1).value.stopSequence
         <= PickPredecessorCarryForward(rows, s2).value.stopSequence
  {
    var i := PickedPredecessorIsBest(rows, s1);
    var k := PickedPredecessorIsBest(rows, s2);
    assert rows[k].stopSequence > s1 || !BetterPredecessor(rows[k], rows[i]);
    assert !BetterPredecessor(rows[i], rows[k]);
  }

  /** Between one update that is not skipped and the next, every stop carries the same update. */
  lemma PropagationIsFlatBetweenUpdates(rows: seq<RTStopTime>, s1: int, s2: int)
    requires s1 <= s2
    requires exists j :: 0 <= j < |rows| && !IsSkipped(rows[j]) && rows[j].stopSequence <= s1
    requires forall j :: 0 <= j < |rows| && !IsSkipped(rows[j]) ==> !(s1 < rows[j].stopSequence <= s2)
    ensures PickPredecessorCarryForward(rows, s1).Some?
    ensures !IsSkipped(PickPredecessorCarryForward(rows, s1).value)
    ensures PickPredecessorCarryForward(rows, s1) == PickPredecessorCarryForward(rows, s2)
  {
    var j :| 0 <= j < |rows| && !IsSkipped(rows[j]) && rows[j].stopSequence <= s1;
    var i := PickedPredecessorIsBest(rows, s1);
    var k := PickedPredecessorIsBest(rows, s2);
    assert !BetterPredecessor(rows[j], rows[i]) && !BetterPredecessor(rows[j], rows[k]);
    assert rows[k].stopSequence <= s1;
    assert i == k;
  }

  // ---------- the one-pass index against a scan of the table ----------

  function OverlayForStaticScheduleRow(key: CellKey, byTriple: map<CellKey, RTStopTime>,
                                       tripRows: seq<RTStopTime>): Option<StopOverlay>
  {
    if key in byTriple then Some(StopOverlay(byTriple[key], true))
    else
      var predecessor := PickPredecessorCarryForward(tripRows, key.stopSequence);
      var row := if predecessor.Some? then predecessor
                 else PickSuccessorCarryForward(tripRows, key.stopSequence);
      if row.None? then None else Some(StopOverlay(row.value, false))
  }

  /** The realtime rows the query loads, in the order the database returns them. */
  function RecentStops(table: seq<RTStopTime>, dataset: string, cutoff: Instant, tripIds: set<string>): seq<RTStopTime> {
    if table == [] then []
    else
      var r := table[|table| - 1];
      RecentStops(table[..|table| - 1], dataset, cutoff, tripIds)
      + (if r.dataset == dataset && r.createdAt >= cutoff && r.tripId in tripIds then [r] else [])
  }

  function RecentTrips(table: seq<RTTrip>, dataset: string, cutoff: Instant, tripIds: set<string>): seq<RTTrip> {
    if table == [] then []
    else
      var r := table[|table| - 1];
      RecentTrips(table[..|table| - 1], dataset, cutoff, tripIds)
      + (if r.tripId in tripIds && r.dataset == dataset && r.createdAt >= cutoff then [r] else [])
  }

  /** A row of the trip and dataset, no older than cutoff. */
  predicate IsRecentStop(r: RTStopTime, dataset: string, cutoff: Instant, tripId: string) {
    r.tripId == tripId && r.dataset == dataset && r.createdAt >= cutoff
  }

  /** The recent rows of one trip, straight from the table. */
  function RecentRowsOfTrip(table: seq<RTStopTime>, dataset: string, cutoff: Instant, tripId: string): seq<RTStopTime> {
    if table == [] then []
    else
      var r := table[|table| - 1];
      var rest := RecentRowsOfTrip(table[..|table| - 1], dataset, cutoff, tripId);
      if IsRecentStop(r, dataset, cutoff, tripId) then rest + [r] else rest
  }

  /** Where the rows are in the table: every recent row of the trip, once, in the table's order. */
  predicate AreRowsAt(rows: seq<RTStopTime>, at: seq<nat>, table: seq<RTStopTime>, dataset: string, cutoff: Instant, tripId: string) {
    && |at| == |rows|
    && (forall k :: 0 <= k < |at| ==> at[k] < |table| && table[at[k]] == rows[k])
    && (forall j, k :: 0 <= j < k < |at| ==> at[j] < at[k])
    && (forall p :: 0 <= p < |table| ==> (IsRecentStop(table[p], dataset, cutoff, tripId) <==> p in at))
  }

  lemma OneMoreRow(rows: seq<RTStopTime>, at: seq<nat>, table: seq<RTStopTime>, r: RTStopTime, dataset: string, cutoff: Instant, tripId: string)
    requires AreRowsAt(rows, at, table, dataset, cutoff, tripId)
    ensures if IsRecentStop(r, dataset, cutoff, tripId)
            then AreRowsAt(rows + [r], at + [|table|], table + [r], dataset, cutoff, tripId)
            else AreRowsAt(rows, at, table + [r], dataset, cutoff, tripId)
  {
    hide IsRecentStop;
    assert forall k :: 0 <= k < |at| ==> at[k] in at && at[k] < |table|;
    assert forall p :: 0 <= p < |table| ==> (table + [r])[p] == table[p];
  }

  lemma {:induction false} RecentRowsAre(table: seq<RTStopTime>, dataset: string, cutoff: Instant, tripId: string) returns (at: seq<nat>)
    ensures AreRowsAt(RecentRowsOfTrip(table, dataset, cutoff, tripId), at, table, dataset, cutoff, tripId)
  {
    at := [];
    if table == [] {
    } else {
      var shorter, r := table[..|table| - 1], table[|table| - 1];
      var rows := RecentRowsOfTrip(shorter, dataset, cutoff, tripId);
      assert RecentRowsOfTrip(table, dataset, cutoff, tripId) == if IsRecentStop(r, dataset, cutoff, tripId) then rows + [r] else rows;
      hide AreRowsAt, IsRecentStop, RecentRowsOfTrip;
      at := RecentRowsAre(shorter, dataset, cutoff, tripId);
      OneMoreRow(rows, at, shorter, r, dataset, cutoff, tripId);
      assert shorter + [r] == table;
      if IsRecentStop(r, dataset, cutoff, tripId) {
        at := at + [|shorter|];
      }
    }
  }

  predicate IsAtCell(r: RTStopTime, key: CellKey) {
    r.tripId == key.tripId && r.stopId == key.stopId && r.stopSequence == key.stopSequence
  }

  ghost predicate IsNewestExact(rows: seq<RTStopTime>, key: CellKey, i: int) {
    && 0 <= i < |rows| && IsAtCell(rows[i], key)
    && forall j :: 0 <= j < |rows| && IsAtCell(rows[j], key) ==>
                     && rows[j].createdAt <= rows[i].createdAt
                     && (j < i ==> rows[j].createdAt < rows[i].createdAt)
  }

  ghost predicate HasExact(rows: seq<RTStopTime>, key: CellKey) {
    exists j :: 0 <= j < |rows| && IsAtCell(rows[j], key)
  }

  ghost predicate HasPredecessor(rows: seq<RTStopTime>, s: int) {
    exists j :: 0 <= j < |rows| && rows[j].stopSequence <= s
  }

  /** What one static cell must be given, from a scan of its trip's recent rows. */
  ghost predicate IsCellOverlay(tripRows: seq<RTStopTime>, key: CellKey, o: Option<StopOverlay>) {
    if tripRows == [] then o.None?
    else
      && o.Some?
      && o.value.exactMatch == HasExact(tripRows, key)
      && exists i :: && 0 <= i < |tripRows| && tripRows[i] == o.value.row
                     && (if HasExact(tripRows, key) then IsNewestExact(tripRows, key, i)
                         else if HasPredecessor(tripRows, key.stopSequence) then
                           IsBestPredecessor(tripRows, key.stopSequence, i)
                         else IsBestSuccessor(tripRows, key.stopSequence, i))
  }

  /** The rule leaves no choice. */
  lemma CellOverlayIsUnique(tripRows: seq<RTStopTime>, key: CellKey, o1: Option<StopOverlay>, o2: Option<StopOverlay>)
    requires IsCellOverlay(tripRows, key, o1) && IsCellOverlay(tripRows, key, o2)
    ensures o1 == o2
  {
  }

  ghost predicate IsNewestTrip(table: seq<RTTrip>, dataset: string, cutoff: Instant, tripId: string, i: int) {
    && 0 <= i < |table| && IsRecentTrip(table[i], dataset, cutoff, tripId)
    && forall j :: 0 <= j < |table| && IsRecentTrip(table[j], dataset, cutoff, tripId) ==>
                     && table[j].createdAt <= table[i].createdAt
                     && (j < i ==> table[j].createdAt < table[i].createdAt)
  }

  predicate IsRecentTrip(r: RTTrip, dataset: string, cutoff: Instant, tripId: string) {
    r.tripId == tripId && r.dataset == dataset && r.createdAt >= cutoff
  }

  function TripIds(schedules: seq<ScheduleRow>): set<string> {
    set s | s in schedules :: s.trip.id
  }

  function Cells(schedules: seq<ScheduleRow>): set<CellKey> {
    set s | s in schedules :: CellOf(s)
  }

  function Lookup<K, V>(m: map<K, V>, k: K): Option<V> {
    if k in m then Some(m[k]) else None
  }

  // The folds that the loading loops compute.

  function NewestExact(rows: seq<RTStopTime>, key: CellKey): Option<RTStopTime> {
    if rows == [] then None
    else
      var r := rows[|rows| - 1];
      var prev := NewestExact(rows[..|rows| - 1], key);
      if CellOfUpdate(r) == key && (prev.None? || r.createdAt > prev.value.createdAt) then Some(r) else prev
  }

  function RowsOfTrip(rows: seq<RTStopTime>, tripId: string): seq<RTStopTime> {
    if rows == [] then []
    else
      var r := rows[|rows| - 1];
      RowsOfTrip(rows[..|rows| - 1], tripId) + (if r.tripId == tripId then [r] else [])
  }

  function NewestTrip(rows: seq<RTTrip>, tripId: string): Option<RTTrip> {
    if rows == [] then None
    else
      var r := rows[|rows| - 1];
      var prev := NewestTrip(rows[..|rows| - 1], tripId);
      if r.tripId == tripId && (prev.None? || r.createdAt > prev.value.createdAt) then Some(r) else prev
  }

  lemma RowsOfTripFromTable(table: seq<RTStopTime>, dataset: string, cutoff: Instant, tripIds: set<string>, tripId: string)
    requires tripId in tripIds
    ensures RowsOfTrip(RecentStops(table, dataset, cutoff, tripIds), tripId)
         == RecentRowsOfTrip(table, dataset, cutoff, tripId)
  {
    if table == [] {
    } else {
      var rest := RecentStops(table[..|table| - 1], dataset, cutoff, tripIds);
      assert forall r :: (rest + [r])[..|rest|] == rest;
      assert rest + [] == rest;
    }
  }

  lemma NewestExactInTrip(rows: seq<RTStopTime>, key: CellKey)
    ensures NewestExact(rows, key) == NewestExact(RowsOfTrip(rows, key.tripId), key)
  {
    if rows != [] {
      var rest := RowsOfTrip(rows[..|rows| - 1], key.tripId);
      assert forall r :: (rest + [r])[..|rest|] == rest;
      assert rest + [] == rest;
    }
  }

  lemma {:induction false} NewestExactIs(rows: seq<RTStopTime>, key: CellKey) returns (i: int)
    ensures var newest := NewestExact(rows, key);
            if newest.None? then !HasExact(rows, key)
            else IsNewestExact(rows, key, i) && rows[i] == newest.value
  {
    i := -1;
    if rows == [] {
    } else {
      var n := |rows| - 1;
      i := NewestExactIs(rows[..n], key);
      var prev := NewestExact(rows[..n], key);
      if CellOfUpdate(rows[n]) == key && (prev.None? || rows[n].createdAt > prev.value.createdAt) {
        i := n;
      }
    }
  }

  lemma NewestTripStep(table: seq<RTTrip>, dataset: string, cutoff: Instant, tripIds: set<string>, tripId: string)
    requires tripId in tripIds && table != []
    ensures NewestTrip(RecentTrips(table, dataset, cutoff, tripIds), tripId) ==
            var r := table[|table| - 1];
            var prev := NewestTrip(RecentTrips(table[..|table| - 1], dataset, cutoff, tripIds), tripId);
            if IsRecentTrip(r, dataset, cutoff, tripId) && (prev.None? || r.createdAt > prev.value.createdAt)
            then Some(r) else prev
  {
    var r := table[|table| - 1];
    var rest := RecentTrips(table[..|table| - 1], dataset, cutoff, tripIds);
    assert (rest + [r])[..|rest|] == rest;
    assert rest + [] == rest;
  }

  lemma NewestTripGrows(table: seq<RTTrip>, dataset: string, cutoff: Instant, tripId: string, i: int)
    requires table != [] && IsNewestTrip(table[..|table| - 1], dataset, cutoff, tripId, i)
    ensures var n := |table| - 1;
            IsNewestTrip(table, dataset, cutoff, tripId,
                         if IsRecentTrip(table[n], dataset, cutoff, tripId) && table[n].createdAt > table[i].createdAt
                         then n else i)
  {
    assert forall j :: 0 <= j < |table| - 1 ==> table[j] == table[..|table| - 1][j];
  }

  lemma {:induction false} NewestTripIs(table: seq<RTTrip>, dataset: string, cutoff: Instant, tripIds: set<string>, tripId: string)
    returns (i: int)
    requires tripId in tripIds
    ensures var newest := NewestTrip(RecentTrips(table, dataset, cutoff, tripIds), tripId);
            if newest.None? then forall j :: 0 <= j < |table| ==> !IsRecentTrip(table[j], dataset, cutoff, tripId)
            else IsNewestTrip(table, dataset, cutoff, tripId, i) && table[i] == newest.value
  {
    i := -1;
    if table == [] {
    } else {
      var n := |table| - 1;
      NewestTripStep(table, dataset, cutoff, tripIds, tripId);
      var k := NewestTripIs(table[..n], dataset, cutoff, tripIds, tripId);
      assert forall j :: 0 <= j < n ==> table[j] == table[..n][j];
      var prev := NewestTrip(RecentTrips(table[..n], dataset, cutoff, tripIds), tripId);
      if prev.Some? {
        NewestTripGrows(table, dataset, cutoff, tripId, k);
      }
      i := if IsRecentTrip(table[n], dataset, cutoff, tripId) && (prev.None? || table[n].createdAt > prev.value.createdAt)
           then n else k;
    }
  }

  /** What the lookup answers for one cell is what the rule requires. */
  lemma ResolvedIsCellOverlay(rows: seq<RTStopTime>, byTriple: map<CellKey, RTStopTime>, key: CellKey)
    requires Lookup(byTriple, key) == NewestExact(rows, key)
    ensures IsCellOverlay(RowsOfTrip(rows, key.tripId), key,
                          OverlayForStaticScheduleRow(key, byTriple, RowsOfTrip(rows, key.tripId)))
  {
    var tripRows := RowsOfTrip(rows, key.tripId);
    NewestExactInTrip(rows, key);
    var e := NewestExactIs(tripRows, key);
    var p := PickedPredecessorIsBest(tripRows, key.stopSequence);
    var q := PickedSuccessorIsBest(tripRows, key.stopSequence);
  }

  method IndexTrips(trips: seq<RTTrip>) returns (tripsById: map<string, RTTrip>)
    ensures forall t :: Lookup(tripsById, t) == NewestTrip(trips, t)
  {
    tripsById := map[];
    for k := 0 to |trips|
      invariant forall t :: Lookup(tripsById, t) == NewestTrip(trips[..k], t)
    {
      var row := trips[k];
      assert trips[..k + 1][..k] == trips[..k];
      if row.tripId !in tripsById || row.createdAt > tripsById[row.tripId].createdAt {
        tripsById := tripsById[row.tripId := row];
      }
    }
    assert trips[..|trips|] == trips;
  }

  lemma NewestExactStep(rows: seq<RTStopTime>, k: nat, key: CellKey)
    requires k < |rows|
    ensures NewestExact(rows[..k + 1], key) ==
            var prev := NewestExact(rows[..k], key);
            if CellOfUpdate(rows[k]) == key && (prev.None? || rows[k].createdAt > prev.value.createdAt) then Some(rows[k]) else prev
  {
    assert rows[..k + 1][..k] == rows[..k];
  }

  lemma RowsOfTripStep(rows: seq<RTStopTime>, k: nat, t: string)
    requires k < |rows|
    ensures RowsOfTrip(rows[..k + 1], t) ==
            if rows[k].tripId == t then RowsOfTrip(rows[..k], t) + [rows[k]] else RowsOfTrip(rows[..k], t)
  {
    assert rows[..k + 1][..k] == rows[..k];
    assert RowsOfTrip(rows[..k], t) + [] == RowsOfTrip(rows[..k], t);
  }

  /** One pass over the loaded rows builds both indexes. */
  method IndexStops(rows: seq<RTStopTime>)
    returns (byTriple: map<CellKey, RTStopTime>, byTrip: map<string, seq<RTStopTime>>)
    ensures forall key :: Lookup(byTriple, key) == NewestExact(rows, key)
    ensures forall t :: GetRows(byTrip, t) == RowsOfTrip(rows, t)
  {
    byTriple, byTrip := map[], map[];
    assert forall key :: NewestExact(rows[..0], key).None?;
    assert forall t :: RowsOfTrip(rows[..0], t) == [];
    hide NewestExact, RowsOfTrip, CellOfUpdate;
    for k := 0 to |rows|
      invariant forall key :: Lookup(byTriple, key) == NewestExact(rows[..k], key)
      invariant forall t :: GetRows(byTrip, t) == RowsOfTrip(rows[..k], t)
    {
      var st := rows[k];
      byTrip := byTrip[st.tripId := GetRows(byTrip, st.tripId) + [st]];
      var key := CellOfUpdate(st);
      if key !in byTriple || st.createdAt > byTriple[key].createdAt {
        byTriple := byTriple[key := st];
      }
      forall key ensures Lookup(byTriple, key) == NewestExact(rows[..k + 1], key) {
        NewestExactStep(rows, k, key);
      }
      forall t ensures GetRows(byTrip, t) == RowsOfTrip(rows[..k + 1], t) {
        RowsOfTripStep(rows, k, t);
      }
    }
    assert rows[..|rows|] == rows;
  }

  /** by_trip.get(trip_id, []). */
  function GetRows(byTrip: map<string, seq<RTStopTime>>, tripId: string): seq<RTStopTime> {
    if tripId in byTrip then byTrip[tripId] else []
  }

  /** load_recent_rt_overlay_for_schedules on the two realtime tables, in the order the
      database returns their rows. */
  method LoadRecentRtOverlayForSchedules(schedules: seq<ScheduleRow>, tripTable: seq<RTTrip>,
                                         stopTable: seq<RTStopTime>, now: Instant)
    returns (tripsById: map<string, RTTrip>, stopMap: map<CellKey, StopOverlay>)
    ensures IsTripIndex(schedules, tripTable, now - 30 * MINUTE, tripsById)
    ensures IsStopIndex(schedules, stopTable, now - 30 * MINUTE, stopMap)
  {
    tripsById, stopMap := map[], map[];
    if schedules == [] {
      return;
    }
    var dataset := schedules[0].trip.dataset;
    var tripIds := TripIds(schedules);
    var thirtyMinsAgo := now - 30 * MINUTE;
    tripsById := IndexTrips(RecentTrips(tripTable, dataset, thirtyMinsAgo, tripIds));
    TripIndexFromFold(schedules, tripTable, thirtyMinsAgo, tripsById);
    stopMap := ResolveCells(schedules, stopTable, thirtyMinsAgo);
  }

  method ResolveCells(schedules: seq<ScheduleRow>, stopTable: seq<RTStopTime>, cutoff: Instant)
    returns (stopMap: map<CellKey, StopOverlay>)
    requires schedules != []
    ensures IsStopIndex(schedules, stopTable, cutoff, stopMap)
  {
    hide ResolvedFor, RecentStops, CellOf, IsStopIndex, NewestExact, RowsOfTrip, GetRows;
    stopMap := map[];
    var dataset := schedules[0].trip.dataset;
    var tripIds := TripIds(schedules);
    var rows := RecentStops(stopTable, dataset, cutoff, tripIds);
    var byTriple, byTrip := IndexStops(rows);
    for k := 0 to |schedules|
      invariant stopMap.Keys <= Cells(schedules)
      invariant forall key :: key in stopMap ==> Some(stopMap[key]) == ResolvedFor(key, byTriple, byTrip)
      invariant forall i :: 0 <= i < k ==>
        Lookup(stopMap, CellOf(schedules[i])) == ResolvedFor(CellOf(schedules[i]), byTriple, byTrip)
    {
      var key := CellOf(schedules[k]);
      var resolved := ResolvedFor(key, byTriple, byTrip);
      if resolved.Some? {
        stopMap := stopMap[key := resolved.value];
      }
    }
    assert forall s :: s in schedules ==> Lookup(stopMap, CellOf(s)) == ResolvedFor(CellOf(s), byTriple, byTrip);
    StopIndexFromLookups(schedules, stopTable, cutoff, byTriple, byTrip, stopMap);
  }

  lemma StopIndexFromLookups(schedules: seq<ScheduleRow>, table: seq<RTStopTime>, cutoff: Instant,
                             byTriple: map<CellKey, RTStopTime>, byTrip: map<string, seq<RTStopTime>>,
                             stopMap: map<CellKey, StopOverlay>)
    requires schedules != [] && stopMap.Keys <= Cells(schedules)
    requires var rows := RecentStops(table, schedules[0].trip.dataset, cutoff, TripIds(schedules));
             && (forall key :: Lookup(byTriple, key) == NewestExact(rows, key))
             && (forall t :: GetRows(byTrip, t) == RowsOfTrip(rows, t))
    requires forall s :: s in schedules ==> Lookup(stopMap, CellOf(s)) == ResolvedFor(CellOf(s), byTriple, byTrip)
    ensures IsStopIndex(schedules, table, cutoff, stopMap)
  {
    var dataset := schedules[0].trip.dataset;
    var rows := RecentStops(table, dataset, cutoff, TripIds(schedules));
    forall s | s in schedules
      ensures IsCellOverlay(RecentRowsOfTrip(table, dataset, cutoff, s.trip.id), CellOf(s), Lookup(stopMap, CellOf(s)))
    {
      ResolvedIsCellOverlay(rows, byTriple, CellOf(s));
      RowsOfTripFromTable(table, dataset, cutoff, TripIds(schedules), s.trip.id);
    }
  }

  function ResolvedFor(key: CellKey, byTriple: map<CellKey, RTStopTime>, byTrip: map<string, seq<RTStopTime>>): Option<StopOverlay> {
    OverlayForStaticScheduleRow(key, byTriple, GetRows(byTrip, key.tripId))
  }

  /** Every scheduled trip is given its newest recent row, and no other trip is given one. */
  ghost predicate IsTripIndex(schedules: seq<ScheduleRow>, table: seq<RTTrip>, cutoff: Instant, index: map<string, RTTrip>) {
    forall t :: if t !in TripIds(schedules) then t !in index
                else if t !in index then
                  forall j :: 0 <= j < |table| ==> !IsRecentTrip(table[j], schedules[0].trip.dataset, cutoff, t)
                else exists i :: IsNewestTrip(table, schedules[0].trip.dataset, cutoff, t, i) && table[i] == index[t]
  }

  /** Every scheduled cell is given what a scan of its trip's rows requires, and no other cell is
      given anything. */
  ghost predicate IsStopIndex(schedules: seq<ScheduleRow>, table: seq<RTStopTime>, cutoff: Instant, index: map<CellKey, StopOverlay>) {
    && index.Keys <= Cells(schedules)
    && forall s :: s in schedules ==>
         IsCellOverlay(RecentRowsOfTrip(table, schedules[0].trip.dataset, cutoff, s.trip.id),
                       CellKey(s.trip.id, s.stop.id, s.stopTime.stopSequence),
                       Lookup(index, CellKey(s.trip.id, s.stop.id, s.stopTime.stopSequence)))
  }

  /** Every scheduled cell is given what a scan of its own dataset's rows requires. */
  ghost predicate IsOverlaidFromOwnDataset(schedules: seq<ScheduleRow>, table: seq<RTStopTime>, cutoff: Instant, index: map<CellKey, StopOverlay>) {
    forall s :: s in schedules ==>
      IsCellOverlay(RecentRowsOfTrip(table, s.trip.dataset, cutoff, s.trip.id), CellOf(s), Lookup(index, CellOf(s)))
  }

  predicate IsOneDataset(schedules: seq<ScheduleRow>) {
    forall s :: s in schedules ==> s.trip.dataset == schedules[0].trip.dataset
  }

  /** The update of a row's own dataset: on time, at that very cell. */
  function OwnUpdate(s: ScheduleRow): RTStopTime {
    RTStopTime(s.stop.id, s.trip.id, s.stopTime.stopSequence, SCHEDULED, Some(0), Some(0), "", s.trip.dataset, 0)
  }

  lemma OneRecentRow(r: RTStopTime, dataset: string, cutoff: Instant, tripId: string)
    ensures RecentRowsOfTrip([r], dataset, cutoff, tripId) == if IsRecentStop(r, dataset, cutoff, tripId) then [r] else []
  {
    assert [r][..0] == [] && RecentRowsOfTrip([], dataset, cutoff, tripId) == [];
  }

  lemma NoOverlayIff(tripRows: seq<RTStopTime>, key: CellKey)
    ensures IsCellOverlay(tripRows, key, None) <==> tripRows == []
    ensures forall o :: IsCellOverlay([], key, o) ==> o.None?
  {
  }

  /** Only the dataset of the first schedule is read: a row of another one gets no overlay, even from an
      exact update of its own. */
  lemma OtherDatasetGetsNoOverlay(schedules: seq<ScheduleRow>, s: ScheduleRow)
    requires s in schedules && s.trip.dataset != schedules[0].trip.dataset
    ensures IsStopIndex(schedules, [OwnUpdate(s)], 0, map[])
    ensures forall index :: IsStopIndex(schedules, [OwnUpdate(s)], 0, index) ==> Lookup(index, CellOf(s)).None?
    ensures !IsCellOverlay(RecentRowsOfTrip([OwnUpdate(s)], s.trip.dataset, 0, s.trip.id), CellOf(s), None)
  {
    var table, dataset := [OwnUpdate(s)], schedules[0].trip.dataset;
    hide IsCellOverlay, RecentRowsOfTrip;
    forall x | x in schedules
      ensures RecentRowsOfTrip(table, dataset, 0, x.trip.id) == []
      ensures IsCellOverlay([], CellOf(x), None)
    {
      OneRecentRow(OwnUpdate(s), dataset, 0, x.trip.id);
      NoOverlayIff([], CellOf(x));
    }
    NoOverlayIff([], CellOf(s));
    OneRecentRow(OwnUpdate(s), s.trip.dataset, 0, s.trip.id);
    NoOverlayIff([OwnUpdate(s)], CellOf(s));
  }

  /** The index serves every row from its own dataset, whatever the realtime rows, exactly when all
      schedules are of one dataset. */
  lemma OverlaidFromOwnDatasetIff(schedules: seq<ScheduleRow>)
    ensures (forall table, cutoff, index :: IsStopIndex(schedules, table, cutoff, index) ==>
               IsOverlaidFromOwnDataset(schedules, table, cutoff, index))
       <==> IsOneDataset(schedules)
  {
    hide IsCellOverlay, RecentRowsOfTrip;
    if !IsOneDataset(schedules) {
      var s :| s in schedules && s.trip.dataset != schedules[0].trip.dataset;
      OtherDatasetGetsNoOverlay(schedules, s);
      assert !IsOverlaidFromOwnDataset(schedules, [OwnUpdate(s)], 0, map[]);
    }
  }

  lemma TripIndexFromFold(schedules: seq<ScheduleRow>, table: seq<RTTrip>, cutoff: Instant, index: map<string, RTTrip>)
    requires schedules != []
    requires forall t :: Lookup(index, t) ==
                         NewestTrip(RecentTrips(table, schedules[0].trip.dataset, cutoff, TripIds(schedules)), t)
    ensures IsTripIndex(schedules, table, cutoff, index)
  {
    var ids, dataset := TripIds(schedules), schedules[0].trip.dataset;
    forall t | t !in ids ensures t !in index {
      NoNewestOutside(table, dataset, cutoff, ids, t);
      assert Lookup(index, t).None?;
    }
    forall t | t in ids
      ensures if t !in index then forall j :: 0 <= j < |table| ==> !IsRecentTrip(table[j], dataset, cutoff, t)
              else exists i :: IsNewestTrip(table, dataset, cutoff, t, i) && table[i] == index[t]
    {
      var i := NewestTripIs(table, dataset, cutoff, ids, t);
      assert Lookup(index, t) == NewestTrip(RecentTrips(table, dataset, cutoff, ids), t);
    }
  }

  lemma NoNewestOutside(table: seq<RTTrip>, dataset: string, cutoff: Instant, ids: set<string>, t: string)
    requires t !in ids
    ensures NewestTrip(RecentTrips(table, dataset, cutoff, ids), t).None?
  {
    if table != [] {
      var rest := RecentTrips(table[..|table| - 1], dataset, cutoff, ids);
      assert (rest + [table[|table| - 1]])[..|rest|] == rest;
      assert rest + [] == rest;
    }
  }
}
