/** The static importer's pipeline: one producer batching rows into a bounded queue, several
    consumers committing the batches, one sentinel for each consumer. A step is whatever one
    coroutine does between two awaits, or less. */
module ImportQueue {
  import opened Prelude

  /** A row of the file, or the model object built from it. */
  datatype Row = Row(columns: map<string, string>)

  /** The importer's batchsize and how many consumers and queue slots the pipeline has. */
  datatype Config = Config(batchSize: nat, consumers: nat, maxSize: nat)

  datatype Consumer = Waiting | Committing(batch: seq<Row>) | Stopped

  datatype State = State(
    rows: seq<Row>,                 // still unread
    rowsImported: nat,
    pending: seq<Row>,              // objects_to_commit
    sentinelsPut: nat,
    queue: seq<Option<seq<Row>>>,   // None is the sentinel
    consumers: seq<Consumer>,
    sentinelsTaken: seq<nat>,     // by each consumer
    committed: seq<seq<Row>>)

  datatype Step = ReadRow | PutBatch | PutSentinel | Get(i: nat) | Commit(i: nat)

  function Init(cfg: Config, rows: seq<Row>): State {
    State(rows, 0, [], 0, [], seq(cfg.consumers, _ => Waiting), seq(cfg.consumers, _ => 0), [])
  }

  /** The producer has a batch it must put before it can do anything else. */
  predicate BatchReady(cfg: Config, s: State) {
    s.pending != [] && (|s.pending| >= cfg.batchSize || s.rows == [])
  }

  predicate Enabled(cfg: Config, s: State, step: Step) {
    match step
    case ReadRow => s.rows != [] && !BatchReady(cfg, s)
    case PutBatch => BatchReady(cfg, s) && |s.queue| < cfg.maxSize
    case PutSentinel => s.rows == [] && s.pending == [] && s.sentinelsPut < cfg.consumers && |s.queue| < cfg.maxSize
    case Get(i) => i < |s.consumers| && |s.sentinelsTaken| == |s.consumers| && s.consumers[i].Waiting? && s.queue != []
    case Commit(i) => i < |s.consumers| && s.consumers[i].Committing?
  }

  function Apply(cfg: Config, s: State, step: Step): State
    requires Enabled(cfg, s, step)
  {
    match step
    case ReadRow =>
      s.(rows := s.rows[1..], pending := s.pending + [s.rows[0]], rowsImported := s.rowsImported + 1)
    case PutBatch => s.(queue := s.queue + [Some(s.pending)], pending := [])
    case PutSentinel => s.(queue := s.queue + [None], sentinelsPut := s.sentinelsPut + 1)
    case Get(i) =>
      if s.queue[0].Some? then
        s.(queue := s.queue[1..], consumers := s.consumers[i := Committing(s.queue[0].value)])
      else
        s.(queue := s.queue[1..], consumers := s.consumers[i := Stopped],
           sentinelsTaken := s.sentinelsTaken[i := s.sentinelsTaken[i] + 1])
    case Commit(i) =>
      s.(committed := s.committed + [s.consumers[i].batch], consumers := s.consumers[i := Waiting])
  }

  /** gather() has nothing left to wait for. */
  predicate Finished(cfg: Config, s: State) {
    && s.rows == [] && s.pending == [] && s.sentinelsPut == cfg.consumers
    && forall i :: 0 <= i < |s.consumers| ==> s.consumers[i].Stopped?
  }

  /** The state after the steps, if they can be taken one after the other. */
  function Exec(cfg: Config, rows: seq<Row>, steps: seq<Step>): Option<State> {
    if steps == [] then Some(Init(cfg, rows))
    else
      var before := Exec(cfg, rows, steps[..|steps| - 1]);
      var step := steps[|steps| - 1];
      if before.Some? && Enabled(cfg, before.value, step) then Some(Apply(cfg, before.value, step)) else None
  }

  // ---------- what the batches should be ----------

  /** The rows cut into batches of batchSize, the last one possibly shorter. */
  function Batches(batchSize: nat, rows: seq<Row>): seq<seq<Row>> {
    if rows == [] then []
    else
      var n := if batchSize == 0 then 1 else if batchSize < |rows| then batchSize else |rows|;
      [rows[..n]] + Batches(batchSize, rows[n..])
  }

  function Flatten(batches: seq<seq<Row>>): seq<Row> {
    if batches == [] then [] else batches[0] + Flatten(batches[1..])
  }

  /** The batches lose, repeat and reorder nothing. */
  lemma {:induction false} BatchesFlatten(batchSize: nat, rows: seq<Row>)
    ensures Flatten(Batches(batchSize, rows)) == rows
    ensures forall b :: b in Batches(batchSize, rows) ==> 0 < |b| && (batchSize > 0 ==> |b| <= batchSize)
  {
    if rows == [] {
    } else {
      var n := if batchSize == 0 then 1 else if batchSize < |rows| then batchSize else |rows|;
      BatchesFlatten(batchSize, rows[n..]);
    }
  }

  // ---------- the invariant ----------

  /** How many times batch b is waiting in the queue. */
  function Queued(queue: seq<Option<seq<Row>>>, b: seq<Row>): nat {
    if queue == [] then 0 else (if queue[0] == Some(b) then 1 else 0) + Queued(queue[1..], b)
  }

  /** How many consumers are committing batch b. */
  function Held(consumers: seq<Consumer>, b: seq<Row>): nat {
    if consumers == [] then 0 else (if consumers[0] == Committing(b) then 1 else 0) + Held(consumers[1..], b)
  }

  function QueuedSentinels(queue: seq<Option<seq<Row>>>): nat {
    if queue == [] then 0 else (if queue[0].None? then 1 else 0) + QueuedSentinels(queue[1..])
  }

  function StoppedConsumers(consumers: seq<Consumer>): nat {
    if consumers == [] then 0 else (if consumers[0].Stopped? then 1 else 0) + StoppedConsumers(consumers[1..])
  }

  /** How many times batch b exists, wherever it is, counting the batches still to be made. */
  function Occurrences(cfg: Config, s: State, b: seq<Row>): nat {
    multiset(s.committed)[b] + Held(s.consumers, b) + Queued(s.queue, b)
    + multiset(Batches(cfg.batchSize, s.pending + s.rows))[b]
  }

  predicate Bounded(cfg: Config, rows: seq<Row>, s: State) {
    && |s.queue| <= cfg.maxSize
    && s.rowsImported + |s.rows| == |rows|
    && (s.pending != [] ==> |s.pending| <= cfg.batchSize || |s.pending| == 1)
  }

  /** Every sentinel is in the queue or was taken, once, by the consumer it stopped; and
      sentinels come after every batch. */
  predicate SentinelsLast(cfg: Config, s: State) {
    && |s.consumers| == |s.sentinelsTaken| == cfg.consumers
    && s.sentinelsPut == QueuedSentinels(s.queue) + StoppedConsumers(s.consumers) <= cfg.consumers
    && (forall i :: 0 <= i < |s.consumers| ==> s.sentinelsTaken[i] == if s.consumers[i].Stopped? then 1 else 0)
    && (s.sentinelsPut > 0 ==> s.rows == [] && s.pending == [])
    && (forall j, k :: 0 <= j < k < |s.queue| && s.queue[j].None? ==> s.queue[k].None?)
    && (StoppedConsumers(s.consumers) > 0 ==> forall k :: 0 <= k < |s.queue| ==> s.queue[k].None?)
  }

  ghost predicate Inv(cfg: Config, rows: seq<Row>, s: State) {
    && Bounded(cfg, rows, s) && SentinelsLast(cfg, s)
    && forall b :: Occurrences(cfg, s, b) == multiset(Batches(cfg.batchSize, rows))[b]
  }

  lemma QueueAppend(queue: seq<Option<seq<Row>>>, x: Option<seq<Row>>, b: seq<Row>)
    ensures Queued(queue + [x], b) == Queued(queue, b) + (if x == Some(b) then 1 else 0)
    ensures QueuedSentinels(queue + [x]) == QueuedSentinels(queue) + (if x.None? then 1 else 0)
  {
    if queue != [] {
      assert (queue + [x])[1..] == queue[1..] + [x];
    }
  }

  lemma NoSentinels(queue: seq<Option<seq<Row>>>)
    ensures QueuedSentinels(queue) == 0 <==> forall k :: 0 <= k < |queue| ==> queue[k].Some?
    ensures QueuedSentinels(queue) <= |queue|
  {
    if queue != [] {
      assert forall k :: 0 < k < |queue| ==> queue[k] == queue[1..][k - 1];
    }
  }

  lemma {:induction false} ConsumerChange(cs: seq<Consumer>, i: nat, c: Consumer, b: seq<Row>)
    requires i < |cs|
    ensures Held(cs[i := c], b) + (if cs[i] == Committing(b) then 1 else 0)
         == Held(cs, b) + (if c == Committing(b) then 1 else 0)
    ensures StoppedConsumers(cs[i := c]) + (if cs[i].Stopped? then 1 else 0)
         == StoppedConsumers(cs) + (if c.Stopped? then 1 else 0)
  {
    if i == 0 {
      assert cs[i := c][1..] == cs[1..];
    } else {
      assert cs[i := c][1..] == cs[1..][i - 1 := c];
      ConsumerChange(cs[1..], i - 1, c, b);
    }
  }

  lemma AllWaiting(n: nat, b: seq<Row>)
    ensures StoppedConsumers(seq(n, _ => Waiting)) == 0 && Held(seq(n, _ => Waiting), b) == 0
  {
    if n > 0 {
      assert seq(n, _ => Waiting)[1..] == seq<Consumer>(n - 1, _ => Waiting);
      AllWaiting(n - 1, b);
    }
  }

  lemma StoppedAtMost(cs: seq<Consumer>)
    ensures StoppedConsumers(cs) <= |cs|
    ensures StoppedConsumers(cs) == |cs| <==> forall i :: 0 <= i < |cs| ==> cs[i].Stopped?
  {
    if cs != [] {
      assert forall i :: 0 < i < |cs| ==> cs[i] == cs[1..][i - 1];
    }
  }

  lemma InitInv(cfg: Config, rows: seq<Row>)
    ensures Inv(cfg, rows, Init(cfg, rows))
  {
    AllWaiting(cfg.consumers, []);
    assert [] + rows == rows;
    forall b ensures Occurrences(cfg, Init(cfg, rows), b) == multiset(Batches(cfg.batchSize, rows))[b] {
      AllWaiting(cfg.consumers, b);
    }
  }

  lemma FullBatchFirst(batchSize: nat, pending: seq<Row>, rows: seq<Row>)
    requires pending != [] && (|pending| <= batchSize || |pending| == 1)
    requires |pending| >= batchSize || rows == []
    ensures Batches(batchSize, pending + rows) == [pending] + Batches(batchSize, rows)
  {
    assert (pending + rows)[..|pending|] == pending;
    assert (pending + rows)[|pending|..] == rows;
  }

  lemma QueueHead(queue: seq<Option<seq<Row>>>, b: seq<Row>)
    requires queue != []
    ensures Queued(queue, b) == (if queue[0] == Some(b) then 1 else 0) + Queued(queue[1..], b)
  {
  }

  lemma PutBatchKeepsOccurrences(cfg: Config, rows: seq<Row>, s: State, b: seq<Row>)
    requires Bounded(cfg, rows, s) && Enabled(cfg, s, PutBatch)
    ensures Occurrences(cfg, Apply(cfg, s, PutBatch), b) == Occurrences(cfg, s, b)
  {
    QueueAppend(s.queue, Some(s.pending), b);
    FullBatchFirst(cfg.batchSize, s.pending, s.rows);
    hide Batches, Held, Queued;
    assert [] + s.rows == s.rows;
    var rest := Batches(cfg.batchSize, s.rows);
    assert multiset([s.pending] + rest) == multiset([s.pending]) + multiset(rest);
  }

  lemma ConsumerStepKeepsOccurrences(cfg: Config, s: State, step: Step, b: seq<Row>)
    requires Enabled(cfg, s, step) && (step.Get? || step.Commit?)
    ensures Occurrences(cfg, Apply(cfg, s, step), b) == Occurrences(cfg, s, b)
  {
    hide Batches, Held, Queued;
    if step.Get? {
      QueueHead(s.queue, b);
      ConsumerChange(s.consumers, step.i, Apply(cfg, s, step).consumers[step.i], b);
    } else {
      ConsumerChange(s.consumers, step.i, Waiting, b);
    }
  }

  /** No step changes how often any batch occurs. */
  lemma StepKeepsOccurrences(cfg: Config, rows: seq<Row>, s: State, step: Step, b: seq<Row>)
    requires Bounded(cfg, rows, s) && Enabled(cfg, s, step)
    ensures Occurrences(cfg, Apply(cfg, s, step), b) == Occurrences(cfg, s, b)
  {
    match step {
      case ReadRow =>
        assert s.pending + [s.rows[0]] + s.rows[1..] == s.pending + s.rows;
      case PutBatch => PutBatchKeepsOccurrences(cfg, rows, s, b);
      case PutSentinel => QueueAppend(s.queue, None, b);
      case _ => ConsumerStepKeepsOccurrences(cfg, s, step, b);
    }
  }

  lemma StepKeepsSentinelsLast(cfg: Config, s: State, step: Step)
    requires SentinelsLast(cfg, s) && Enabled(cfg, s, step)
    ensures SentinelsLast(cfg, Apply(cfg, s, step))
  {
    match step {
      case ReadRow =>
      case PutBatch =>
        QueueAppend(s.queue, Some(s.pending), []);
        NoSentinels(s.queue);
      case PutSentinel =>
        QueueAppend(s.queue, None, []);
        StoppedAtMost(s.consumers);
      case Get(i) => GetKeepsSentinelsLast(cfg, s, i);
      case Commit(i) =>
        ConsumerChange(s.consumers, i, Waiting, []);
    }
  }

  lemma GetKeepsSentinelsLast(cfg: Config, s: State, i: nat)
    requires SentinelsLast(cfg, s) && Enabled(cfg, s, Get(i))
    ensures SentinelsLast(cfg, Apply(cfg, s, Get(i)))
  {
    var s' := Apply(cfg, s, Get(i));
    ConsumerChange(s.consumers, i, s'.consumers[i], []);
    assert forall k :: 0 <= k < |s'.queue| ==> s'.queue[k] == s.queue[k + 1];
  }

  lemma StepKeepsInv(cfg: Config, rows: seq<Row>, s: State, step: Step)
    requires Inv(cfg, rows, s) && Enabled(cfg, s, step)
    ensures Inv(cfg, rows, Apply(cfg, s, step))
  {
    StepKeepsSentinelsLast(cfg, s, step);
    forall b ensures Occurrences(cfg, Apply(cfg, s, step), b) == multiset(Batches(cfg.batchSize, rows))[b] {
      StepKeepsOccurrences(cfg, rows, s, step, b);
    }
    hide SentinelsLast, Occurrences;
  }

  lemma {:induction false} RunKeepsInv(cfg: Config, rows: seq<Row>, steps: seq<Step>, s: State)
    requires Exec(cfg, rows, steps) == Some(s)
    ensures Inv(cfg, rows, s)
  {
    if steps == [] {
      InitInv(cfg, rows);
    } else {
      var before := Exec(cfg, rows, steps[..|steps| - 1]).value;
      RunKeepsInv(cfg, rows, steps[..|steps| - 1], before);
      StepKeepsInv(cfg, rows, before, steps[|steps| - 1]);
    }
  }

  // ---------- what every schedule achieves ----------

  /** The queue never exceeds its bound, on any schedule. */
  lemma QueueStaysBounded(cfg: Config, rows: seq<Row>, steps: seq<Step>, s: State)
    requires Exec(cfg, rows, steps) == Some(s)
    ensures |s.queue| <= cfg.maxSize
  {
    RunKeepsInv(cfg, rows, steps, s);
  }

  /** No reachable state is stuck before the import has finished. */
  lemma NeverDeadlocked(cfg: Config, rows: seq<Row>, steps: seq<Step>, s: State) returns (next: Step)
    requires cfg.maxSize > 0 && cfg.consumers > 0
    requires Exec(cfg, rows, steps) == Some(s) && !Finished(cfg, s)
    ensures Enabled(cfg, s, next)
  {
    RunKeepsInv(cfg, rows, steps, s);
    StoppedAtMost(s.consumers);
    NoSentinels(s.queue);
    next := ReadRow;
    if i :| 0 <= i < |s.consumers| && s.consumers[i].Committing? {
      next := Commit(i);
    } else if s.queue != [] && exists i :: 0 <= i < |s.consumers| && s.consumers[i].Waiting? {
      var i :| 0 <= i < |s.consumers| && s.consumers[i].Waiting?;
      next := Get(i);
    } else if BatchReady(cfg, s) {
      next := PutBatch;
    } else if s.rows != [] {
      next := ReadRow;
    } else {
      next := PutSentinel;
    }
  }

  /** The work left: each row can still be read, put, taken and committed. */
  function Work(cfg: Config, s: State): int {
    4 * |s.rows| + 3 * |s.pending| + QueueWork(s.queue) + ConsumerWork(s.consumers)
    + 2 * (cfg.consumers - s.sentinelsPut)
  }

  function QueueWork(queue: seq<Option<seq<Row>>>): nat {
    if queue == [] then 0 else (if queue[0].Some? then 2 else 1) + QueueWork(queue[1..])
  }

  function ConsumerWork(consumers: seq<Consumer>): nat {
    if consumers == [] then 0 else (if consumers[0].Committing? then 1 else 0) + ConsumerWork(consumers[1..])
  }

  lemma QueueWorkAppend(queue: seq<Option<seq<Row>>>, x: Option<seq<Row>>)
    ensures QueueWork(queue + [x]) == QueueWork(queue) + (if x.Some? then 2 else 1)
  {
    if queue != [] {
      assert (queue + [x])[1..] == queue[1..] + [x];
    }
  }

  lemma {:induction false} ConsumerWorkChange(cs: seq<Consumer>, i: nat, c: Consumer)
    requires i < |cs|
    ensures ConsumerWork(cs[i := c]) + (if cs[i].Committing? then 1 else 0)
         == ConsumerWork(cs) + (if c.Committing? then 1 else 0)
  {
    if i == 0 {
      assert cs[i := c][1..] == cs[1..];
    } else {
      assert cs[i := c][1..] == cs[1..][i - 1 := c];
      ConsumerWorkChange(cs[1..], i - 1, c);
    }
  }

  lemma StepDoesWork(cfg: Config, s: State, step: Step)
    requires Enabled(cfg, s, step)
    ensures Work(cfg, Apply(cfg, s, step)) < Work(cfg, s)
  {
    match step {
      case ReadRow =>
      case PutBatch => QueueWorkAppend(s.queue, Some(s.pending));
      case PutSentinel => QueueWorkAppend(s.queue, None);
      case Get(i) => ConsumerWorkChange(s.consumers, i, Apply(cfg, s, step).consumers[i]);
      case Commit(i) => ConsumerWorkChange(s.consumers, i, Waiting);
    }
  }

  lemma NoConsumerWork(n: nat)
    ensures ConsumerWork(seq(n, _ => Waiting)) == 0
  {
    if n > 0 {
      assert seq(n, _ => Waiting)[1..] == seq<Consumer>(n - 1, _ => Waiting);
      NoConsumerWork(n - 1);
    }
  }

  /** Every schedule ends: none is longer than four steps a row and two a consumer. */
  lemma {:induction false} EveryScheduleEnds(cfg: Config, rows: seq<Row>, steps: seq<Step>, s: State)
    requires Exec(cfg, rows, steps) == Some(s)
    ensures |steps| + Work(cfg, s) <= 4 * |rows| + 2 * cfg.consumers
    ensures Work(cfg, s) >= 0
  {
    RunKeepsInv(cfg, rows, steps, s);
    if steps == [] {
      NoConsumerWork(cfg.consumers);
    } else {
      var before := Exec(cfg, rows, steps[..|steps| - 1]).value;
      EveryScheduleEnds(cfg, rows, steps[..|steps| - 1], before);
      StepDoesWork(cfg, before, steps[|steps| - 1]);
    }
  }

  lemma NothingHeld(cs: seq<Consumer>, b: seq<Row>)
    requires forall i :: 0 <= i < |cs| ==> cs[i].Stopped?
    ensures Held(cs, b) == 0
  {
    if cs != [] {
      assert forall i :: 0 <= i < |cs| - 1 ==> cs[1..][i] == cs[i + 1];
    }
  }

  /** A finished import has committed every row exactly once, in the batches the producer cut,
      and each consumer has taken exactly one sentinel. */
  lemma FinishedImportIsComplete(cfg: Config, rows: seq<Row>, steps: seq<Step>, s: State)
    requires cfg.consumers > 0
    requires Exec(cfg, rows, steps) == Some(s) && Finished(cfg, s)
    ensures multiset(s.committed) == multiset(Batches(cfg.batchSize, rows))
    ensures multiset(Flatten(s.committed)) == multiset(rows)
    ensures s.rowsImported == |rows| && s.queue == []
    ensures forall i :: 0 <= i < cfg.consumers ==> i < |s.sentinelsTaken| && s.sentinelsTaken[i] == 1
  {
    RunKeepsInv(cfg, rows, steps, s);
    DrainedQueue(cfg, s);
    forall b ensures multiset(s.committed)[b] == multiset(Batches(cfg.batchSize, rows))[b] {
      NothingHeld(s.consumers, b);
      assert s.pending + s.rows == [];
      assert Occurrences(cfg, s, b) == multiset(s.committed)[b];
    }
    BatchesFlatten(cfg.batchSize, rows);
    SameBatchesSameRows(s.committed, Batches(cfg.batchSize, rows));
  }

  lemma DrainedQueue(cfg: Config, s: State)
    requires cfg.consumers > 0 && SentinelsLast(cfg, s) && Finished(cfg, s)
    ensures s.queue == []
  {
    StoppedAtMost(s.consumers);
    NoSentinels(s.queue);
    assert QueuedSentinels(s.queue) == 0;
    assert forall k :: 0 <= k < |s.queue| ==> s.queue[k].Some? && s.queue[k].None?;
  }

  lemma {:induction false} FlattenRemove(batches: seq<seq<Row>>, k: nat)
    requires k < |batches|
    ensures multiset(Flatten(batches)) == multiset(batches[k]) + multiset(Flatten(batches[..k] + batches[k + 1..]))
  {
    var less := batches[..k] + batches[k + 1..];
    if k == 0 {
      assert less == batches[1..];
    } else {
      FlattenRemove(batches[1..], k - 1);
      assert less[1..] == batches[1..][..k - 1] + batches[1..][k..];
      assert less[0] == batches[0] && batches[1..][k - 1] == batches[k];
    }
  }

  lemma RemoveSame(a: seq<seq<Row>>, b: seq<seq<Row>>, k: nat)
    requires multiset(a) == multiset(b) && a != [] && k < |b| && b[k] == a[0]
    ensures multiset(a[1..]) == multiset(b[..k] + b[k + 1..])
  {
    var less := b[..k] + b[k + 1..];
    assert a == [a[0]] + a[1..] && b == b[..k] + [b[k]] + b[k + 1..];
    assert multiset(b) == multiset{a[0]} + multiset(less);
    assert multiset(a[1..]) == multiset(a) - multiset{a[0]};
  }

  lemma {:induction false} SameBatchesSameRows(a: seq<seq<Row>>, b: seq<seq<Row>>)
    requires multiset(a) == multiset(b)
    ensures multiset(Flatten(a)) == multiset(Flatten(b))
  {
    if a == [] {
      assert |multiset(b)| == 0;
    } else {
      assert a[0] in multiset(b);
      var k :| 0 <= k < |b| && b[k] == a[0];
      RemoveSame(a, b, k);
      SameBatchesSameRows(a[1..], b[..k] + b[k + 1..]);
      FlattenRemove(b, k);
    }
  }
}
