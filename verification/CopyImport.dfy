/** Importing a file by batched COPY with reserved id ranges, and the ticker that reports progress. */
module CopyImport {
  import opened Prelude

  // ---------- progress ----------

  /** The progress bar: what has been advanced in all. */
  class Progress {
    var advanced: int

    constructor ()
      ensures advanced == 0
    {
      advanced := 0;
    }
  }

  /** Without a progress bar every method does nothing. */
  class ProgressTicker {
    const progress: Progress?
    const every: int
    var pending: int

    predicate Valid()
      reads this
    {
      0 <= pending < every
    }

    constructor (bar: Progress?, batch: int)
      requires batch >= 1
      ensures Valid() && progress == bar && every == batch && pending == 0
    {
      progress, every, pending := bar, batch, 0;
    }

    /** A count below one is refused. */
    static method Create(bar: Progress?, batch: int) returns (ticker: Result<ProgressTicker>)
      ensures ticker.Ok? <==> batch >= 1
      ensures ticker.Ok? ==> fresh(ticker.value) && ticker.value.Valid() && ticker.value.progress == bar
                             && ticker.value.pending == 0 && ticker.value.every == batch
    {
      if batch < 1 {
        return Raised("ValueError");
      }
      var t := new ProgressTicker(bar, batch);
      return Ok(t);
    }

    /** What has been counted, shown or not. */
    function Counted(): int
      reads this, progress
    {
      pending + (if progress == null then 0 else progress.advanced)
    }

    method Tick(n: int)
      requires Valid()
      modifies this, progress
      ensures Valid()
      ensures Counted() == old(Counted()) + (if progress == null || n <= 0 then 0 else n)
      // the bar is redrawn only for at least `every` items
      ensures progress != null ==> progress.advanced == old(progress.advanced) || progress.advanced >= old(progress.advanced) + every
    {
      if progress == null || n <= 0 {
        return;
      }
      pending := pending + n;
      if pending >= every {
        progress.advanced := progress.advanced + pending;
        pending := 0;
      }
    }

    method Flush()
      requires Valid()
      modifies this, progress
      ensures Valid() && Counted() == old(Counted())
      ensures progress != null ==> pending == 0
    {
      if progress == null || pending == 0 {
        return;
      }
      progress.advanced := progress.advanced + pending;
      pending := 0;
    }
  }

  // ---------- ids ----------

  datatype Record = Record(fields: seq<string>)

  datatype Row = Row(id: Option<int>, record: Record)

  function RecordsWithIds(rows: seq<Record>, firstId: int): seq<Row> {
    seq(|rows|, i requires 0 <= i < |rows| => Row(Some(firstId + i), rows[i]))
  }

  function WithoutIds(rows: seq<Record>): seq<Row> {
    seq(|rows|, i requires 0 <= i < |rows| => Row(None, rows[i]))
  }

  class Table {
    var rows: seq<Row>
    var sequence: int  // the last id given out

    constructor ()
      ensures rows == [] && sequence == 0
    {
      rows, sequence := [], 0;
    }

    /** setval(nextval + count - 1), answered by one session before any other reserves. */
    method ReserveIdRange(count: int) returns (firstId: int)
      modifies this`sequence
      ensures firstId == old(sequence) + 1 && sequence == old(sequence) + count
    {
      var nextval := sequence + 1;
      sequence := nextval + count - 1;
      var last := sequence;
      firstId := last - count + 1;
    }
  }

  // ---------- the file ----------

  /** The new rows are the records in order, with strictly increasing ids above lo and up to hi. */
  ghost predicate IdsIncrease(rows: seq<Row>, records: seq<Record>, lo: int, hi: int) {
    && |rows| == |records| && lo <= hi
    && (forall i :: 0 <= i < |rows| ==> rows[i].record == records[i] && rows[i].id.Some? && lo < rows[i].id.value <= hi)
    && (forall i, j :: 0 <= i < j < |rows| ==> rows[i].id.value < rows[j].id.value)
  }

  ghost predicate Copied(rows: seq<Row>, records: seq<Record>, hasIds: bool, lo: int, hi: int) {
    if hasIds then IdsIncrease(rows, records, lo, hi)
    else |rows| == |records| && forall i :: 0 <= i < |rows| ==> rows[i].id.None? && rows[i].record == records[i]
  }

  lemma CopiedAppend(rows1: seq<Row>, records1: seq<Record>, rows2: seq<Row>, records2: seq<Record>, hasIds: bool, lo: int, mid: int, hi: int)
    requires Copied(rows1, records1, hasIds, lo, mid) && Copied(rows2, records2, hasIds, mid, hi)
    ensures Copied(rows1 + rows2, records1 + records2, hasIds, lo, hi)
  {
  }

  /** Since the table held base, records have been copied into it. */
  ghost predicate CopiedSince(base: seq<Row>, rows: seq<Row>, records: seq<Record>, hasIds: bool, lo: int, hi: int) {
    base <= rows && lo <= hi && Copied(rows[|base|..], records, hasIds, lo, hi)
  }

  /** How many of the first m rows have been copied when reading stops there: all of them at the
      end of the file, whole batches only when the next row is malformed. */
  function CopiedCount(m: nat, atEnd: bool, batchSize: int): nat {
    if atEnd || batchSize <= 1 then m else m / batchSize * batchSize
  }

  lemma NothingCopied(base: seq<Row>, hasIds: bool, lo: int, batchSize: int, good: seq<Record>)
    ensures CopiedSince(base, base, good[..0], hasIds, lo, lo) && CopiedCount(0, false, batchSize) == 0
    ensures IsBatch(good, 0, 0, [])
    ensures forall m: nat :: CopiedCount(m, true, batchSize) == m
  {
    assert base[|base|..] == [] && good[..0] == [];
  }

  /** The records read since the last copy. */
  predicate IsBatch(good: seq<Record>, copied: nat, i: nat, batch: seq<Record>) {
    copied <= i <= |good| && batch == good[copied..i]
  }

  lemma BatchGrows(good: seq<Record>, copied: nat, i: nat, batch: seq<Record>)
    requires IsBatch(good, copied, i, batch) && i < |good|
    ensures IsBatch(good, copied, i + 1, batch + [good[i]]) && |batch + [good[i]]| == i + 1 - copied
    ensures good[..copied] + (batch + [good[i]]) == good[..i + 1]
  {
  }

  lemma EmptyBatch(good: seq<Record>, i: nat)
    requires i <= |good|
    ensures IsBatch(good, i, i, [])
  {
  }

  lemma BatchIsRest(good: seq<Record>, copied: nat, i: nat, batch: seq<Record>)
    requires IsBatch(good, copied, i, batch) && i == |good|
    ensures copied + |batch| == i && good[..copied] + batch == good == good[..i]
  {
  }

  lemma CopiedCountStep(m: nat, batchSize: int)
    ensures CopiedCount(m, false, batchSize) <= m
    ensures CopiedCount(m + 1, false, batchSize) ==
            if m + 1 - CopiedCount(m, false, batchSize) >= batchSize then m + 1 else CopiedCount(m, false, batchSize)
  {
    if batchSize > 1 {
      var q, r := m / batchSize, m % batchSize;
      assert m == q * batchSize + r;
      if r + 1 == batchSize {
        assert m + 1 == (q + 1) * batchSize;
        DivideExactly(m + 1, q + 1, 0, batchSize);
      } else {
        DivideExactly(m + 1, q, r + 1, batchSize);
      }
    }
  }

  lemma DivideExactly(m: nat, q: nat, r: nat, n: nat)
    requires 0 < n && m == q * n + r && r < n
    ensures m / n == q
  {
    var d := m / n - q;
    assert m == m / n * n + m % n;
    assert d * n == r - m % n;
    assert d >= 1 ==> d * n >= n;
    assert d <= -1 ==> d * n + n <= 0;
  }

  /** The records before the first malformed row, None. */
  function GoodPrefix(rows: seq<Option<Record>>): (good: seq<Record>)
    ensures |good| <= |rows|
  {
    if rows == [] || rows[0].None? then [] else [rows[0].value] + GoodPrefix(rows[1..])
  }

  /** Reading goes on past row i exactly when it is not malformed. */
  lemma {:induction false} GoodPrefixAt(rows: seq<Option<Record>>, i: nat)
    requires i < |rows| && i <= |GoodPrefix(rows)|
    ensures rows[i].Some? ==> i < |GoodPrefix(rows)| && rows[i].value == GoodPrefix(rows)[i]
    ensures rows[i].None? ==> i == |GoodPrefix(rows)|
  {
    if i > 0 {
      GoodPrefixAt(rows[1..], i - 1);
    }
  }

  lemma {:induction false} GoodPrefixAtEnd(rows: seq<Option<Record>>)
    requires |rows| == |GoodPrefix(rows)|
    ensures forall k :: 0 <= k < |rows| ==> rows[k].Some?
  {
    if rows == [] {
    } else {
      GoodPrefixAtEnd(rows[1..]);
    }
  }

  class CopyImporter {
    const hasIdSequence: bool
    const batchSize: int
    var rowsImported: int

    constructor (ids: bool, size: int)
      ensures hasIdSequence == ids && batchSize == size && rowsImported == 0
    {
      hasIdSequence, batchSize, rowsImported := ids, size, 0;
    }

    /** base is the table before the file, soFar what has been copied from it already. */
    method CopyBatch(table: Table, batch: seq<Record>, othersTook: nat,
                     ghost base: seq<Row>, ghost soFar: seq<Record>, ghost lo: int)
      requires CopiedSince(base, table.rows, soFar, hasIdSequence, lo, table.sequence)
      modifies table
      ensures CopiedSince(base, table.rows, soFar + batch, hasIdSequence, lo, table.sequence)
    {
      ghost var mid := table.sequence;
      table.sequence := table.sequence + othersTook;
      var records := WithoutIds(batch);
      if hasIdSequence {
        var firstId := table.ReserveIdRange(|batch|);
        records := RecordsWithIds(batch, firstId);
      }
      CopiedAppend(table.rows[|base|..], soFar, records, batch, hasIdSequence, lo, mid, table.sequence);
      assert (table.rows + records)[|base|..] == table.rows[|base|..] + records;
      table.rows := table.rows + records;
    }

    method CopyAndTick(table: Table, batch: seq<Record>, ticker: ProgressTicker, othersTook: nat,
                       ghost base: seq<Row>, ghost soFar: seq<Record>, ghost lo: int)
      requires CopiedSince(base, table.rows, soFar, hasIdSequence, lo, table.sequence) && ticker.Valid()
      modifies table, ticker, ticker.progress
      ensures CopiedSince(base, table.rows, soFar + batch, hasIdSequence, lo, table.sequence) && ticker.Valid()
      ensures ticker.Counted() == old(ticker.Counted()) + (if ticker.progress == null then 0 else |batch|)
    {
      hide CopiedSince;
      CopyBatch(table, batch, othersTook, base, soFar, lo);
      ticker.Tick(|batch|);
    }

    /** Other sessions may reserve ids between the batches, othersTook(k) of them before batch k.
        A malformed row raises; the batches copied before it stay. */
    method CopyFile(table: Table, rows: seq<Option<Record>>, progress: Progress?, othersTook: nat -> nat)
      returns (outcome: Result<()>)
      modifies this, table, progress
      ensures outcome.Ok? <==> forall i :: 0 <= i < |rows| ==> rows[i].Some?
      ensures var good := GoodPrefix(rows);
              var copied := CopiedCount(|good|, outcome.Ok?, batchSize);
              && copied <= |good|
              && rowsImported == old(rowsImported) + |good|
              && CopiedSince(old(table.rows), table.rows, good[..copied], hasIdSequence, old(table.sequence), table.sequence)
              && (progress != null ==> progress.advanced == old(progress.advanced) + copied)
    {
      var ticker := new ProgressTicker(progress, 100);
      ghost var good, copied, lo := GoodPrefix(rows), 0, table.sequence;
      var batch: seq<Record>, batches: nat, i: nat := [], 0, 0;
      NothingCopied(table.rows, hasIdSequence, lo, batchSize, good);
      hide CopiedCount, CopiedSince, GoodPrefix, IsBatch;
      while i < |rows|
        invariant i <= |good| && IsBatch(good, copied, i, batch)
        invariant copied == CopiedCount(i, false, batchSize) <= i
        invariant rowsImported == old(rowsImported) + i
        invariant CopiedSince(old(table.rows), table.rows, good[..copied], hasIdSequence, lo, table.sequence)
        invariant ticker.Valid() && ticker.progress == progress && fresh(ticker)
        invariant progress != null ==> ticker.Counted() == old(progress.advanced) + copied
      {
        GoodPrefixAt(rows, i);
        if rows[i].None? {
          ticker.Flush();
          return Raised("ValueError");
        }
        CopiedCountStep(i, batchSize);
        BatchGrows(good, copied, i, batch);
        batch := batch + [rows[i].value];
        rowsImported := rowsImported + 1;
        i := i + 1;
        if |batch| >= batchSize {
          CopyAndTick(table, batch, ticker, othersTook(batches), old(table.rows), good[..copied], lo);
          batch := [];
          batches := batches + 1;
          copied := i;
          EmptyBatch(good, i);
        }
      }
      GoodPrefixAtEnd(rows);
      BatchIsRest(good, copied, i, batch);
      if batch != [] {
        CopyAndTick(table, batch, ticker, othersTook(batches), old(table.rows), good[..copied], lo);
      }
      ticker.Flush();
      outcome := Ok(());
    }
  }
}
