/** The 23:00/00:00 sort of schedules and realtime schedules, and why it undoes the 24-hour
    conversion of GTFS times. */
module ScheduleSort {
  import opened Prelude
  import opened ClockTime

  /** custom_sort_key: a tuple of four for hours 0 to 2, of three for the others. */
  function CustomSortKey(t: TimeOfDay): seq<int> {
    var h, m, s := HourOf(t), t / MINUTE % 60, t / SECOND % 60;
    if 0 <= h <= 2 then [24, h, m, s] else [h, m, s]
  }

  /** Python's order on tuples: the first difference decides, and a prefix comes first. */
  predicate TupleLess(a: seq<int>, b: seq<int>) {
    if b == [] then false
    else if a == [] then true
    else if a[0] != b[0] then a[0] < b[0]
    else TupleLess(a[1..], b[1..])
  }

  /** Whole seconds since the most recent 03:00. */
  function SecondsSinceThree(t: TimeOfDay): int {
    (t - 3 * HOUR) % DAY / SECOND
  }

  lemma ThreeTuples(a: seq<int>, b: seq<int>)
    requires |a| == |b| == 3
    ensures TupleLess(a, b) <==> a[0] < b[0] || (a[0] == b[0] && (a[1] < b[1] || (a[1] == b[1] && a[2] < b[2])))
  {
    TupleLessByHead(a, b);
    TupleLessByHead(a[1..], b[1..]);
    TupleLessByHead(a[1..][1..], b[1..][1..]);
  }

  lemma TupleLessByHead(a: seq<int>, b: seq<int>)
    requires a != [] && b != []
    ensures a[0] != b[0] ==> (TupleLess(a, b) <==> a[0] < b[0])
    ensures a[0] == b[0] ==> (TupleLess(a, b) <==> TupleLess(a[1..], b[1..]))
  {
  }

  lemma SecondsOfClock(t: TimeOfDay)
    ensures var h, m, s := HourOf(t), t / MINUTE % 60, t / SECOND % 60;
            0 <= h < 24 && 0 <= m < 60 && 0 <= s < 60 && t / SECOND == 3600 * h + 60 * m + s
  {
    var seconds, minutes := t / SECOND, t / MINUTE;
    assert minutes == seconds / 60 && HourOf(t) == minutes / 60;
    assert seconds == 60 * minutes + seconds % 60;
    assert minutes == 60 * HourOf(t) + minutes % 60;
  }

  lemma ClockFields(t: TimeOfDay)
    ensures var h, m, s := HourOf(t), t / MINUTE % 60, t / SECOND % 60;
            && 0 <= h < 24 && 0 <= m < 60 && 0 <= s < 60
            && t / SECOND == 3600 * h + 60 * m + s
            && SecondsSinceThree(t) == 3600 * (if h < 3 then h + 21 else h - 3) + 60 * m + s
  {
    SecondsOfClock(t);
    var later: int := if HourOf(t) < 3 then t + 21 * HOUR else t - 3 * HOUR;
    assert (t - 3 * HOUR) % DAY == later;
    assert later / SECOND == t / SECOND + (if HourOf(t) < 3 then 21 * 3600 else -3 * 3600);
  }

  /** The mixed-length tuples order times by how long ago 03:00 was. */
  lemma KeysOrderBySecondsSinceThree(t1: TimeOfDay, t2: TimeOfDay)
    ensures TupleLess(CustomSortKey(t1), CustomSortKey(t2)) <==> SecondsSinceThree(t1) < SecondsSinceThree(t2)
  {
    ClockFields(t1);
    ClockFields(t2);
    var k1, k2 := CustomSortKey(t1), CustomSortKey(t2);
    TupleLessByHead(k1, k2);
    if HourOf(t1) <= 2 && HourOf(t2) <= 2 {
      ThreeTuples(k1[1..], k2[1..]);
    } else if HourOf(t1) > 2 && HourOf(t2) > 2 {
      ThreeTuples(k1, k2);
    }
    hide SecondsSinceThree, HourOf;
  }

  // ---------- sorted(rows, key=...) ----------

  function Insert<T>(x: T, ys: seq<T>, key: T -> seq<int>): seq<T> {
    if ys == [] then [x]
    else if TupleLess(key(ys[0]), key(x)) then [ys[0]] + Insert(x, ys[1..], key)
    else [x] + ys
  }

  function Sorted<T>(xs: seq<T>, key: T -> seq<int>): seq<T> {
    if xs == [] then [] else Insert(xs[0], Sorted(xs[1..], key), key)
  }

  /** The elements of one rank, in order. */
  function OfRank<T>(xs: seq<T>, rank: T -> int, v: int): seq<T> {
    if xs == [] then [] else (if rank(xs[0]) == v then [xs[0]] else []) + OfRank(xs[1..], rank, v)
  }

  /** ys is xs put in rank order, with equals left in the order they had. */
  ghost predicate IsStableSort<T>(xs: seq<T>, ys: seq<T>, rank: T -> int) {
    && (forall i :: 0 <= i < |ys| - 1 ==> rank(ys[i]) <= rank(ys[i + 1]))
    && (forall v :: OfRank(ys, rank, v) == OfRank(xs, rank, v))
  }

  ghost predicate OrdersBy<T(!new)>(key: T -> seq<int>, rank: T -> int) {
    forall x: T, y: T :: TupleLess(key(x), key(y)) <==> rank(x) < rank(y)
  }

  lemma {:induction false} InsertIsOrdered<T(!new)>(x: T, ys: seq<T>, key: T -> seq<int>, rank: T -> int)
    requires OrdersBy(key, rank)
    requires forall i :: 0 <= i < |ys| - 1 ==> rank(ys[i]) <= rank(ys[i + 1])
    ensures var zs := Insert(x, ys, key);
            && zs != [] && (zs[0] == x || (ys != [] && zs[0] == ys[0]))
            && forall i :: 0 <= i < |zs| - 1 ==> rank(zs[i]) <= rank(zs[i + 1])
  {
    if ys != [] && TupleLess(key(ys[0]), key(x)) {
      var rest := ys[1..];
      assert forall i :: 0 <= i < |rest| ==> rest[i] == ys[i + 1];
      InsertIsOrdered(x, rest, key, rank);
      var zs := Insert(x, rest, key);
      assert Insert(x, ys, key) == [ys[0]] + zs;
    }
  }

  lemma OfRankCons<T>(x: T, ys: seq<T>, rank: T -> int, v: int)
    ensures OfRank([x] + ys, rank, v) == (if rank(x) == v then [x] else []) + OfRank(ys, rank, v)
  {
    assert ([x] + ys)[1..] == ys;
  }

  lemma {:induction false} InsertIsStable<T(!new)>(x: T, ys: seq<T>, key: T -> seq<int>, rank: T -> int, v: int)
    requires OrdersBy(key, rank)
    ensures OfRank(Insert(x, ys, key), rank, v) == (if rank(x) == v then [x] else []) + OfRank(ys, rank, v)
  {
    hide OfRank;
    OfRankCons(x, ys, rank, v);
    if ys == [] {
      OfRankCons(x, [], rank, v);
      assert [x] + [] == [x];
    } else if TupleLess(key(ys[0]), key(x)) {
      InsertIsStable(x, ys[1..], key, rank, v);
      var rest, inserted := ys[1..], Insert(x, ys[1..], key);
      OfRankCons(ys[0], inserted, rank, v);
      OfRankCons(ys[0], rest, rank, v);
      assert [ys[0]] + rest == ys && Insert(x, ys, key) == [ys[0]] + inserted;
      assert rank(ys[0]) < rank(x);
      hide Insert, TupleLess;
    }
  }

  lemma {:induction false} SortedIsStable<T(!new)>(xs: seq<T>, key: T -> seq<int>, rank: T -> int)
    requires OrdersBy(key, rank)
    ensures IsStableSort(xs, Sorted(xs, key), rank)
  {
    if xs == [] {
    } else {
      var rest := Sorted(xs[1..], key);
      SortedIsStable(xs[1..], key, rank);
      InsertIsOrdered(xs[0], rest, key, rank);
      forall v ensures OfRank(Sorted(xs, key), rank, v) == OfRank(xs, rank, v) {
        InsertIsStable(xs[0], rest, key, rank, v);
      }
    }
  }

  lemma OfRankWhen<T>(xs: seq<T>, rank: T -> int, v: int)
    ensures OfRank(xs, rank, v) != [] ==> exists i :: 0 <= i < |xs| && rank(xs[i]) == v
    ensures (exists i :: 0 <= i < |xs| && rank(xs[i]) == v) ==> OfRank(xs, rank, v) != []
  {
    if xs == [] {
    } else {
      OfRankWhen(xs[1..], rank, v);
      assert forall i :: 0 <= i < |xs| - 1 ==> xs[1..][i] == xs[i + 1];
    }
  }

  lemma {:induction false} FirstIsLeast<T>(ys: seq<T>, rank: T -> int, k: int)
    requires forall i :: 0 <= i < |ys| - 1 ==> rank(ys[i]) <= rank(ys[i + 1])
    requires 0 <= k < |ys|
    ensures rank(ys[0]) <= rank(ys[k])
  {
    if k > 0 {
      FirstIsLeast(ys, rank, k - 1);
    }
  }

  /** In two orderings of the same ranks the first elements have the same rank. */
  lemma SameFirstRank<T>(ys: seq<T>, zs: seq<T>, rank: T -> int)
    requires ys != [] && IsStableSort(ys, ys, rank) && IsStableSort(ys, zs, rank)
    ensures zs != [] && rank(zs[0]) <= rank(ys[0])
  {
    OfRankWhen(ys, rank, rank(ys[0]));
    OfRankWhen(zs, rank, rank(ys[0]));
    var k :| 0 <= k < |zs| && rank(zs[k]) == rank(ys[0]);
    FirstIsLeast(zs, rank, k);
  }

  /** There is only one stable sort, whatever algorithm sorted uses. */
  lemma {:induction false} StableSortIsUnique<T>(xs: seq<T>, ys: seq<T>, zs: seq<T>, rank: T -> int)
    requires IsStableSort(xs, ys, rank) && IsStableSort(xs, zs, rank)
    ensures ys == zs
    decreases |ys|
  {
    assert IsStableSort(ys, zs, rank) && IsStableSort(zs, ys, rank);
    if ys != [] {
      SameFirstRank(ys, zs, rank);
      SameFirstRank(zs, ys, rank);
      var v := rank(ys[0]);
      assert OfRank(ys, rank, v)[0] == ys[0] && OfRank(zs, rank, v)[0] == zs[0];
      forall w ensures OfRank(zs[1..], rank, w) == OfRank(ys[1..], rank, w) {
        var n := if w == v then 1 else 0;
        assert OfRank(ys[1..], rank, w) == OfRank(ys, rank, w)[n..];
        assert OfRank(zs[1..], rank, w) == OfRank(zs, rank, w)[n..];
      }
      assert forall i :: 0 <= i < |ys| - 1 ==> ys[1..][i] == ys[i + 1];
      assert forall i :: 0 <= i < |zs| - 1 ==> zs[1..][i] == zs[i + 1];
      StableSortIsUnique(ys[1..], ys[1..], zs[1..], rank);
    } else if zs != [] {
      SameFirstRank(zs, ys, rank);
    }
  }

  // ---------- the schedules ----------

  /** The key the sort uses for rows with an arrival time. */
  function SortKeyBy<T>(arrival: T -> TimeOfDay): T -> seq<int> {
    (x: T) => CustomSortKey(arrival(x))
  }

  function RankBy<T>(arrival: T -> TimeOfDay): T -> int {
    (x: T) => SecondsSinceThree(arrival(x))
  }

  /** apply_custom_23_00_sorting, on any rows with an arrival time. */
  function ApplyCustomSorting<T>(rows: seq<T>, arrival: T -> TimeOfDay): seq<T> {
    Sorted(rows, SortKeyBy(arrival))
  }

  /** The sort is the stable sort by (time - 03:00) modulo 24 hours. */
  lemma CustomSortingIsStable<T(!new)>(rows: seq<T>, arrival: T -> TimeOfDay)
    ensures IsStableSort(rows, ApplyCustomSorting(rows, arrival), RankBy(arrival))
  {
    forall x: T, y: T
      ensures TupleLess(SortKeyBy(arrival)(x), SortKeyBy(arrival)(y)) <==> RankBy(arrival)(x) < RankBy(arrival)(y)
    {
      KeysOrderBySecondsSinceThree(arrival(x), arrival(y));
    }
    SortedIsStable(rows, SortKeyBy(arrival), RankBy(arrival));
  }

  /** A schedule whose arrival is imported from HH:MM:SS. */
  datatype GtfsRow = GtfsRow(hours: int, minutes: int, seconds: int, row: string) {
    function RawSeconds(): int {
      3600 * hours + 60 * minutes + seconds
    }

    /** The importer can store the time. */
    predicate IsConvertible() {
      ConvertTo24Hours(hours, minutes, seconds).Ok?
    }

    predicate IsOnServiceDay() {
      IsConvertible() && 3 * 3600 <= RawSeconds() < 27 * 3600
    }
  }

  /** A row whose raw time lies in [03:00:00, 27:00:00). */
  type ServiceDayRow = x: GtfsRow | x.IsOnServiceDay() witness GtfsRow(3, 0, 0, "")

  /** The arrival time the importer stores for the row. */
  function ArrivalOf(x: GtfsRow): TimeOfDay
    requires x.IsConvertible()
  {
    ConvertTo24Hours(x.hours, x.minutes, x.seconds).value
  }

  function Arrival(x: ServiceDayRow): TimeOfDay {
    ArrivalOf(x)
  }

  function RawTime(x: ServiceDayRow): int {
    x.RawSeconds()
  }

  /** The conversion to a 24-hour clock keeps the order of a service day that starts at 03:00. */
  lemma ConversionKeepsOrder(x: ServiceDayRow)
    ensures SecondsSinceThree(Arrival(x)) == RawTime(x) - 3 * 3600
  {
    ClockFields(Arrival(x));
  }

  /** Rows whose raw GTFS times lie in [03:00:00, 27:00:00) come out in raw time order, equals in
      the order they had. */
  lemma SortUndoesConversion(rows: seq<ServiceDayRow>)
    ensures IsStableSort(rows, ApplyCustomSorting(rows, Arrival), RawTime)
  {
    forall x: ServiceDayRow, y: ServiceDayRow
      ensures TupleLess(SortKeyBy(Arrival)(x), SortKeyBy(Arrival)(y)) <==> RawTime(x) < RawTime(y)
    {
      KeysOrderBySecondsSinceThree(Arrival(x), Arrival(y));
      ConversionKeepsOrder(x);
      ConversionKeepsOrder(y);
    }
    SortedIsStable(rows, SortKeyBy(Arrival), RawTime);
  }

  /** x is placed against y by raw time. */
  predicate SortsByRawTime(x: GtfsRow, y: ServiceDayRow)
    requires x.IsConvertible()
  {
    (TupleLess(CustomSortKey(ArrivalOf(x)), CustomSortKey(Arrival(y))) <==> x.RawSeconds() < y.RawSeconds())
    && (TupleLess(CustomSortKey(Arrival(y)), CustomSortKey(ArrivalOf(x))) <==> y.RawSeconds() < x.RawSeconds())
  }

  /** Which rows the sort places rightly: a row that can be stored at all comes out in raw time order
      against every row of the service day exactly when it belongs to the service day itself. */
  lemma SortsByRawTimeIff(x: GtfsRow)
    requires x.IsConvertible()
    ensures (forall y: ServiceDayRow :: SortsByRawTime(x, y)) <==> 3 * 3600 <= x.RawSeconds() < 27 * 3600
  {
    hide SecondsSinceThree, CustomSortKey, TupleLess, HourOf;
    SecondsSinceThreeOf(x);
    forall y: ServiceDayRow
      ensures 3 * 3600 <= x.RawSeconds() < 27 * 3600 ==> SortsByRawTime(x, y)
    {
      ComparedByRank(x, y);
    }
    ComparedByRank(x, GtfsRow(3, 0, 0, ""));
    ComparedByRank(x, GtfsRow(26, 59, 59, ""));
  }

  lemma ComparedByRank(x: GtfsRow, y: ServiceDayRow)
    requires x.IsConvertible()
    ensures SortsByRawTime(x, y) <==>
            var rank := SecondsSinceThree(ArrivalOf(x)) + 3 * 3600;
            (rank < y.RawSeconds() <==> x.RawSeconds() < y.RawSeconds())
            && (y.RawSeconds() < rank <==> y.RawSeconds() < x.RawSeconds())
  {
    hide SecondsSinceThree, CustomSortKey, TupleLess, HourOf;
    KeysOrderBySecondsSinceThree(ArrivalOf(x), Arrival(y));
    KeysOrderBySecondsSinceThree(Arrival(y), ArrivalOf(x));
    ConversionKeepsOrder(y);
  }

  /** Hours 0 to 2 and hours from 27 on end up a day away from where their raw time is. */
  lemma SecondsSinceThreeOf(x: GtfsRow)
    requires x.IsConvertible()
    ensures 0 <= x.RawSeconds() < 48 * 3600
    ensures SecondsSinceThree(ArrivalOf(x)) + 3 * 3600 ==
            if x.RawSeconds() < 3 * 3600 then x.RawSeconds() + 24 * 3600
            else if x.RawSeconds() < 27 * 3600 then x.RawSeconds()
            else x.RawSeconds() - 24 * 3600
  {
    ClockFields(ArrivalOf(x));
  }

  /** 02:59:00 sorts after 25:00:00. */
  lemma EarlyMorningSortsLast()
    ensures TupleLess(CustomSortKey(ArrivalOf(GtfsRow(25, 0, 0, ""))), CustomSortKey(ArrivalOf(GtfsRow(2, 59, 0, ""))))
  {
    KeysOrderBySecondsSinceThree(ArrivalOf(GtfsRow(25, 0, 0, "")), ArrivalOf(GtfsRow(2, 59, 0, "")));
  }
}
