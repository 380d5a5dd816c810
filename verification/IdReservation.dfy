/** Reserving ids from a shared sequence. setval(nextval + count - 1) is two steps, and any number of
    other sessions may take steps of their own between them. */
module IdReservation {
  import opened Prelude

  type Session = nat

  /** The ids first, first + 1, ..., count of them. */
  datatype Range = Range(first: int, count: int)

  /** A session that has its nextval but has not run its setval; index counts the draws before it. */
  datatype Pending = Pending(index: nat, range: Range)

  /** The sequence's last value, the ranges in the order of their nextvals, and who is halfway. */
  datatype State = State(sequence: int, drawn: seq<Range>, pending: map<Session, Pending>)

  datatype Step = NextVal(session: Session, count: int) | SetVal(session: Session)

  predicate Enabled(s: State, step: Step) {
    match step
    case NextVal(x, count) => count >= 1 && x !in s.pending
    case SetVal(x) => x in s.pending
  }

  function Apply(s: State, step: Step): State
    requires Enabled(s, step)
  {
    match step
    case NextVal(x, count) =>
      var range := Range(s.sequence + 1, count);
      State(s.sequence + 1, s.drawn + [range], s.pending[x := Pending(|s.drawn|, range)])
    case SetVal(x) =>
      State(LastId(s.pending[x].range), s.drawn, s.pending - {x})
  }

  function LastId(r: Range): int {
    r.first + r.count - 1
  }

  function Exec(start: int, steps: seq<Step>): Option<State> {
    if steps == [] then Some(State(start, [], map[]))
    else
      var before := Exec(start, steps[..|steps| - 1]);
      var step := steps[|steps| - 1];
      if before.Some? && Enabled(before.value, step) then Some(Apply(before.value, step)) else None
  }

  predicate InRange(id: int, r: Range) {
    r.first <= id <= LastId(r)
  }

  /** No id is in two ranges. */
  ghost predicate AreApart(ranges: seq<Range>) {
    forall i, j, id :: 0 <= i < j < |ranges| && InRange(id, ranges[i]) ==> !InRange(id, ranges[j])
  }

  // ---------- when the ranges are apart ----------

  /** The session of the last nextval. */
  function LastDrawer(steps: seq<Step>): Option<Session> {
    if steps == [] then None
    else
      var step := steps[|steps| - 1];
      if step.NextVal? then Some(step.session) else LastDrawer(steps[..|steps| - 1])
  }

  /** The step right before step k was the setval of whoever drew last, or a nextval for a single id. */
  predicate IsInTurn(steps: seq<Step>, k: nat)
    requires 0 < k < |steps|
  {
    match steps[k - 1]
    case NextVal(_, count) => count == 1
    case SetVal(x) => LastDrawer(steps[..k]) == Some(x)
  }

  predicate DrawsInTurn(steps: seq<Step>) {
    forall k :: 0 < k < |steps| && steps[k].NextVal? ==> IsInTurn(steps, k)
  }

  predicate PendingFits(steps: seq<Step>, s: State) {
    && (s.drawn == [] <==> steps == []) && (LastDrawer(steps).None? <==> steps == [])
    && (forall x :: x in s.pending ==> s.pending[x].index < |s.drawn| && s.drawn[s.pending[x].index] == s.pending[x].range)
    && (forall x :: x in s.pending ==> (s.pending[x].index == |s.drawn| - 1 <==> LastDrawer(steps) == Some(x)))
    && (forall i :: 0 <= i < |s.drawn| ==> s.drawn[i].count >= 1)
  }

  /** Where the last step left the sequence: at the first id of the last range after a nextval, at the
      last id of some range after a setval. */
  ghost predicate SequenceFits(steps: seq<Step>, s: State)
    requires steps != [] && PendingFits(steps, s)
  {
    match steps[|steps| - 1]
    case NextVal(_, count) => s.sequence == s.drawn[|s.drawn| - 1].first && count == s.drawn[|s.drawn| - 1].count
    case SetVal(x) => exists i :: AtEndOf(s, i) && (i == |s.drawn| - 1 <==> LastDrawer(steps) == Some(x))
  }

  predicate AtEndOf(s: State, i: int) {
    0 <= i < |s.drawn| && s.sequence == LastId(s.drawn[i])
  }

  lemma {:induction false} RunKeepsFit(start: int, steps: seq<Step>, s: State)
    requires Exec(start, steps) == Some(s)
    ensures PendingFits(steps, s) && (steps != [] ==> SequenceFits(steps, s))
    ensures steps == [] ==> s.sequence == start
  {
    if steps == [] {
    } else {
      var n := |steps| - 1;
      var before := Exec(start, steps[..n]).value;
      RunKeepsFit(start, steps[..n], before);
      if steps[n].SetVal? {
        assert AtEndOf(s, before.pending[steps[n].session].index);
      }
    }
  }

  /** Each range starts where the one before it ends. */
  predicate AreContiguous(ranges: seq<Range>) {
    forall i :: 0 < i < |ranges| ==> ranges[i].first == LastId(ranges[i - 1]) + 1
  }

  lemma {:induction false} ContiguousIncrease(ranges: seq<Range>, i: int, j: int)
    requires AreContiguous(ranges) && 0 <= i < j < |ranges|
    requires forall k :: 0 <= k < |ranges| ==> ranges[k].count >= 1
    ensures LastId(ranges[i]) < ranges[j].first
    decreases j
  {
    if i < j - 1 {
      ContiguousIncrease(ranges, i, j - 1);
    }
  }

  lemma ContiguousAreApart(ranges: seq<Range>)
    requires AreContiguous(ranges) && forall k :: 0 <= k < |ranges| ==> ranges[k].count >= 1
    ensures AreApart(ranges)
  {
    forall i, j | 0 <= i < j < |ranges| ensures LastId(ranges[i]) < ranges[j].first {
      ContiguousIncrease(ranges, i, j);
    }
  }

  lemma InTurnPrefix(steps: seq<Step>)
    requires steps != []
    ensures var n := |steps| - 1;
            DrawsInTurn(steps) <==> DrawsInTurn(steps[..n]) && (n > 0 && steps[n].NextVal? ==> IsInTurn(steps, n))
  {
    var n := |steps| - 1;
    var shorter := steps[..n];
    forall k | 0 < k < n ensures IsInTurn(shorter, k) <==> IsInTurn(steps, k) {
      assert shorter[..k] == steps[..k];
    }
    hide IsInTurn;
    if DrawsInTurn(steps) {
      forall k | 0 < k < n && shorter[k].NextVal? ensures IsInTurn(shorter, k) {
        assert steps[k].NextVal?;
      }
    }
  }

  /** The nextval after steps draws a fresh id exactly when it is in turn; otherwise the id it draws is
      already in a range. */
  lemma NextDrawIsFreshIff(steps: seq<Step>, next: Step, s: State)
    requires steps != [] && PendingFits(steps, s) && SequenceFits(steps, s) && AreContiguous(s.drawn)
    ensures IsInTurn(steps + [next], |steps|) ==> s.sequence == LastId(s.drawn[|s.drawn| - 1])
    ensures !IsInTurn(steps + [next], |steps|) ==> exists i :: 0 <= i < |s.drawn| && InRange(s.sequence + 1, s.drawn[i])
  {
    var n := |s.drawn| - 1;
    assert (steps + [next])[..|steps|] == steps;
    match steps[|steps| - 1] {
      case NextVal(_, count) => assert count > 1 ==> InRange(s.sequence + 1, s.drawn[n]);
      case SetVal(x) =>
        var i :| AtEndOf(s, i) && (i == n <==> LastDrawer(steps) == Some(x));
        if i < n {
          assert InRange(s.sequence + 1, s.drawn[i + 1]);
        }
    }
  }

  lemma {:induction false} InTurnIsContiguous(start: int, steps: seq<Step>, s: State)
    requires Exec(start, steps) == Some(s) && DrawsInTurn(steps)
    ensures AreContiguous(s.drawn)
  {
    if steps == [] {
    } else {
      var n := |steps| - 1;
      var before := Exec(start, steps[..n]).value;
      InTurnPrefix(steps);
      InTurnIsContiguous(start, steps[..n], before);
      if n > 0 {
        RunKeepsFit(start, steps[..n], before);
        hide Exec, PendingFits, SequenceFits;
        NextDrawIsFreshIff(steps[..n], steps[n], before);
        assert steps == steps[..n] + [steps[n]];
      }
    }
  }

  lemma {:induction false} OutOfTurnOverlaps(start: int, steps: seq<Step>, s: State)
    requires Exec(start, steps) == Some(s) && !DrawsInTurn(steps)
    ensures !AreApart(s.drawn)
  {
    var n := |steps| - 1;
    var before := Exec(start, steps[..n]).value;
    InTurnPrefix(steps);
    if !DrawsInTurn(steps[..n]) {
      OutOfTurnOverlaps(start, steps[..n], before);
      EarlierOverlapStays(before.drawn, s.drawn);
    } else {
      RunKeepsFit(start, steps[..n], before);
      InTurnIsContiguous(start, steps[..n], before);
      NextDrawIsFreshIff(steps[..n], steps[n], before);
      assert steps == steps[..n] + [steps[n]];
      var i :| 0 <= i < |before.drawn| && InRange(before.sequence + 1, before.drawn[i]);
      assert InRange(before.sequence + 1, s.drawn[i]) && InRange(before.sequence + 1, s.drawn[|before.drawn|]);
    }
  }

  lemma EarlierOverlapStays(ranges: seq<Range>, more: seq<Range>)
    requires !AreApart(ranges) && ranges <= more
    ensures !AreApart(more)
  {
    var i, j, id :| 0 <= i < j < |ranges| && InRange(id, ranges[i]) && InRange(id, ranges[j]);
    assert InRange(id, more[i]) && InRange(id, more[j]);
  }

  /** Over every run of any number of sessions no id is given out twice exactly when every nextval
      comes right after the setval of whoever drew last, or after a nextval for a single id. */
  lemma RangesAreApartIff(start: int, steps: seq<Step>, s: State)
    requires Exec(start, steps) == Some(s)
    ensures AreApart(s.drawn) <==> DrawsInTurn(steps)
  {
    if DrawsInTurn(steps) {
      InTurnIsContiguous(start, steps, s);
      RunKeepsFit(start, steps, s);
      ContiguousAreApart(s.drawn);
    } else {
      OutOfTurnOverlaps(start, steps, s);
    }
  }

  // ---------- the cases that occur ----------

  /** Every nextval is answered by its own setval before anyone else draws. */
  predicate IsSerial(steps: seq<Step>) {
    forall k :: 0 < k < |steps| && steps[k].NextVal? ==> steps[k - 1].SetVal? && LastDrawer(steps[..k]) == Some(steps[k - 1].session)
  }

  /** Then the ranges follow one another without a gap. */
  lemma SerialReservationsAreContiguous(start: int, steps: seq<Step>, s: State)
    requires Exec(start, steps) == Some(s) && IsSerial(steps)
    ensures AreContiguous(s.drawn) && AreApart(s.drawn)
  {
    forall k | 0 < k < |steps| && steps[k].NextVal? ensures IsInTurn(steps, k) {
    }
    InTurnIsContiguous(start, steps, s);
    RangesAreApartIff(start, steps, s);
  }

  /** Two sessions draw one after the other, run their setvals in either order, and a third draws. */
  function TwoInterleaved(count1: int, count2: int, count3: int, firstSetsFirst: bool): seq<Step> {
    [NextVal(1, count1), NextVal(2, count2)]
    + (if firstSetsFirst then [SetVal(1), SetVal(2)] else [SetVal(2), SetVal(1)])
    + [NextVal(3, count3)]
  }

  /** After the two draws, whichever sets first, the third draws after what was set last. */
  lemma SetValsThenDraw(start: int, steps: seq<Step>, s: State, x: Session, y: Session, count3: int)
    requires Exec(start, steps) == Some(s) && s.pending.Keys == {x, y} && x != y && x != 3 && y != 3 && count3 >= 1
    ensures var run := Exec(start, steps + [SetVal(x), SetVal(y), NextVal(3, count3)]);
            run.Some? && run.value.drawn == s.drawn + [Range(LastId(s.pending[y].range) + 1, count3)]
  {
    var steps1, steps2 := steps + [SetVal(x)], steps + [SetVal(x), SetVal(y)];
    ExecStep(start, steps, SetVal(x), steps1);
    ExecStep(start, steps1, SetVal(y), steps2);
    ExecStep(start, steps2, NextVal(3, count3), steps + [SetVal(x), SetVal(y), NextVal(3, count3)]);
    hide Exec;
  }

  lemma TwoDraws(start: int, count1: int, count2: int)
    requires count1 >= 1 && count2 >= 1
    ensures var run := Exec(start, [NextVal(1, count1), NextVal(2, count2)]);
            var r1, r2 := Range(start + 1, count1), Range(start + 2, count2);
            run.Some? && run.value.drawn == [r1, r2] && run.value.pending == map[1 := Pending(0, r1), 2 := Pending(1, r2)]
  {
    assert Exec(start, []) == Some(State(start, [], map[]));
    ExecStep(start, [], NextVal(1, count1), [NextVal(1, count1)]);
    ExecStep(start, [NextVal(1, count1)], NextVal(2, count2), [NextVal(1, count1), NextVal(2, count2)]);
    hide Exec;
  }

  lemma InterleavedRuns(start: int, count1: int, count2: int, count3: int, firstSetsFirst: bool)
    requires count1 >= 1 && count2 >= 1 && count3 >= 1
    ensures var run := Exec(start, TwoInterleaved(count1, count2, count3, firstSetsFirst));
            run.Some? && run.value.drawn ==
              [Range(start + 1, count1), Range(start + 2, count2),
               Range(if firstSetsFirst then start + 2 + count2 else start + 1 + count1, count3)]
  {
    hide Exec;
    var draws := [NextVal(1, count1), NextVal(2, count2)];
    var x, y := if firstSetsFirst then 1 else 2, if firstSetsFirst then 2 else 1;
    TwoDraws(start, count1, count2);
    SetValsThenDraw(start, draws, Exec(start, draws).value, x, y, count3);
    assert TwoInterleaved(count1, count2, count3, firstSetsFirst) == draws + [SetVal(x), SetVal(y), NextVal(3, count3)];
  }

  lemma ExecStep(start: int, steps: seq<Step>, step: Step, longer: seq<Step>)
    requires longer == steps + [step]
    ensures Exec(start, longer) ==
            var before := Exec(start, steps);
            if before.Some? && Enabled(before.value, step) then Some(Apply(before.value, step)) else None
  {
    assert longer[..|steps|] == steps;
  }

  /** Two interleaved reservations leave every id given out once, the next one included, exactly when
      the first wanted a single id and its setval comes first. */
  lemma InterleavedReservationsAreApartIff(start: int, count1: int, count2: int, count3: int, firstSetsFirst: bool)
    requires count1 >= 1 && count2 >= 1 && count3 >= 1
    ensures var run := Exec(start, TwoInterleaved(count1, count2, count3, firstSetsFirst));
            run.Some? && (AreApart(run.value.drawn) <==> count1 == 1 && firstSetsFirst)
  {
    var steps := TwoInterleaved(count1, count2, count3, firstSetsFirst);
    InterleavedRuns(start, count1, count2, count3, firstSetsFirst);
    RangesAreApartIff(start, steps, Exec(start, steps).value);
    hide Exec;
    LastDrawerAfterSetVals(steps[..2], steps[2], steps[3]);
    assert steps[..4] == steps[..2] + [steps[2]] + [steps[3]];
    assert IsInTurn(steps, 1) <==> count1 == 1;
    assert IsInTurn(steps, 4) <==> firstSetsFirst;
  }

  lemma LastDrawerAfterSetVals(steps: seq<Step>, step1: Step, step2: Step)
    requires step1.SetVal? && step2.SetVal?
    ensures LastDrawer(steps + [step1] + [step2]) == LastDrawer(steps)
  {
    assert (steps + [step1] + [step2])[..|steps| + 1] == steps + [step1];
    assert (steps + [step1])[..|steps|] == steps;
  }

  /** One id each, but the second session's setval runs first: the third session gets id 2 again. */
  lemma LateSetValRepeatsAnId()
    ensures var run := Exec(0, TwoInterleaved(1, 1, 1, false));
            run.Some? && run.value.drawn == [Range(1, 1), Range(2, 1), Range(2, 1)]
  {
    InterleavedRuns(0, 1, 1, 1, false);
  }
}
