/** `DataResampler`: down-sampling of candles to a coarser storage
    timeframe, and the two operations that read 1-minute candles from the
    store, resample them and store the result.  A bucket is the candle
    length `P` of the target timeframe aligned to midnight; every `P`
    divides a day, so the bucket of `t` starts at `t - t % P`.  Like
    pandas, resampling reads the frame stably sorted by time, so "first" and
    "last" in a bucket are the earliest and latest candles; frames read from
    the store are already in that order. */
module Resampler {
  import opened Wrappers
  import opened Keys
  import opened Candles
  import opened PriceStore

  /** The start of the bucket of length `period` holding the instant `t`. */
  function Bucket(t: int, period: int): (b: int)
    requires period > 0
    ensures b <= t < b + period
  {
    t - t % period
  }

  /** One more candle joins a bucket: open kept, high/low widened, close
      replaced, volume added. */
  function Merge(a: Ohlcv, p: Ohlcv): Ohlcv {
    Ohlcv(a.open, if p.high > a.high then p.high else a.high, if p.low < a.low then p.low else a.low,
          p.close, a.volume + p.volume)
  }

  /** The rows falling in the bucket starting at `k`, in row order. */
  function InBucket(rows: seq<Bar>, k: int, period: int): (r: seq<Bar>)
    requires period > 0
    ensures forall b :: b in r <==> b in rows && Bucket(b.time, period) == k
  {
    if |rows| == 0 then []
    else
      var last := rows[|rows| - 1];
      assert forall b :: b in rows <==> b in rows[..|rows| - 1] || b == last by {
        assert rows == rows[..|rows| - 1] + [last];
      }
      InBucket(rows[..|rows| - 1], k, period) + (if Bucket(last.time, period) == k then [last] else [])
  }

  /** Total volume of the rows. */
  function SumVolume(rows: seq<Bar>): int {
    if |rows| == 0 then 0 else SumVolume(rows[..|rows| - 1]) + rows[|rows| - 1].price.volume
  }

  /** The candle that aggregates a non-empty run of rows: the first open, the
      highest high, the lowest low, the last close and the total volume. */
  function Aggregate(rows: seq<Bar>): (p: Ohlcv)
    requires |rows| > 0
    ensures p.open == rows[0].price.open && p.close == rows[|rows| - 1].price.close
    ensures forall i :: 0 <= i < |rows| ==> rows[i].price.low >= p.low && rows[i].price.high <= p.high
    ensures exists i :: 0 <= i < |rows| && rows[i].price.high == p.high
    ensures exists i :: 0 <= i < |rows| && rows[i].price.low == p.low
    ensures p.volume == SumVolume(rows)
  {
    if |rows| == 1 then rows[0].price
    else
      var init := rows[..|rows| - 1];
      var a := Aggregate(init);
      assert forall i :: 0 <= i < |init| ==> init[i] == rows[i];
      var p := Merge(a, rows[|rows| - 1].price);
      assert exists i :: 0 <= i < |rows| && rows[i].price.high == p.high by {
        if p.high != a.high {
          assert rows[|rows| - 1].price.high == p.high;
        } else {
          var i :| 0 <= i < |init| && init[i].price.high == a.high;
          assert rows[i].price.high == p.high;
        }
      }
      assert exists i :: 0 <= i < |rows| && rows[i].price.low == p.low by {
        if p.low != a.low {
          assert rows[|rows| - 1].price.low == p.low;
        } else {
          var i :| 0 <= i < |init| && init[i].price.low == a.low;
          assert rows[i].price.low == p.low;
        }
      }
      p
  }

  /** `resample(rule).agg(...)` as a fold: each row is merged into the
      candle of its bucket, in row order.  Only buckets that receive a row
      appear, so there are never more buckets than rows. */
  function Accumulate(rows: seq<Bar>, period: int): (acc: map<int, Ohlcv>)
    requires period > 0
    ensures |acc| <= |rows|
    decreases |rows|
  {
    if |rows| == 0 then map[]
    else
      var acc := Accumulate(rows[..|rows| - 1], period);
      var last := rows[|rows| - 1];
      var k := Bucket(last.time, period);
      acc[k := if k in acc then Merge(acc[k], last.price) else last.price]
  }

  /** The fold agrees with the per-bucket definition at one bucket: it
      appears exactly when some row falls in it, and its candle aggregates
      exactly the rows that fall in it. */
  lemma {:induction false} AccumulateAt(rows: seq<Bar>, period: int, k: int)
    requires period > 0
    ensures var acc := Accumulate(rows, period);
            var s := InBucket(rows, k, period);
            && (k in acc <==> |s| > 0)
            && (k in acc ==> acc[k] == Aggregate(s))
    decreases |rows|
  {
    if |rows| > 0 {
      var init := rows[..|rows| - 1];
      var last := rows[|rows| - 1];
      AccumulateAt(init, period, k);
      var before := InBucket(init, k, period);
      var accInit := Accumulate(init, period);
      var acc := Accumulate(rows, period);
      if Bucket(last.time, period) != k {
        assert InBucket(rows, k, period) == before;
        assert k in acc <==> k in accInit;
        assert k in acc ==> acc[k] == accInit[k];
      } else if |before| == 0 {
        assert InBucket(rows, k, period) == [last];
        assert acc[k] == last.price;
      } else {
        var now := before + [last];
        assert InBucket(rows, k, period) == now;
        assert now[..|now| - 1] == before;
        assert acc[k] == Merge(accInit[k], last.price);
        assert Aggregate(now) == Merge(Aggregate(before), last.price);
      }
    }
  }

  /** The same at every bucket. */
  lemma AccumulateIsPerBucket(rows: seq<Bar>, period: int)
    requires period > 0
    ensures var acc := Accumulate(rows, period);
            forall k :: (k in acc <==> |InBucket(rows, k, period)| > 0)
                        && (k in acc ==> acc[k] == Aggregate(InBucket(rows, k, period)))
  {
    forall k | true
      ensures var acc := Accumulate(rows, period);
              (k in acc <==> |InBucket(rows, k, period)| > 0)
              && (k in acc ==> acc[k] == Aggregate(InBucket(rows, k, period)))
    {
      AccumulateAt(rows, period, k);
    }
  }

  /** Candles in non-decreasing time order. */
  predicate SortedByTime(rows: seq<Bar>) {
    forall i, j :: 0 <= i < j < |rows| ==> rows[i].time <= rows[j].time
  }

  /** The first candle of a sorted run is no later than any of its candles. */
  lemma SortedHeadFirst(rows: seq<Bar>)
    requires |rows| > 0 && SortedByTime(rows)
    ensures forall x :: x in rows ==> rows[0].time <= x.time
  {
    forall x | x in rows ensures rows[0].time <= x.time {
      var i :| 0 <= i < |rows| && rows[i] == x;
    }
  }

  /** A candle no later than every candle of a sorted run can go in front. */
  lemma SortedCons(a: Bar, rest: seq<Bar>)
    requires SortedByTime(rest)
    requires forall x :: x in rest ==> a.time <= x.time
    ensures SortedByTime([a] + rest)
  {
    var r := [a] + rest;
    forall i, j | 0 <= i < j < |r| ensures r[i].time <= r[j].time {
      assert r[j] == rest[j - 1] && r[j] in rest;
      if i > 0 {
        assert r[i] == rest[i - 1];
      }
    }
  }

  /** `b` placed into a time-sorted run after every candle that is not later. */
  function InsertByTime(b: Bar, rows: seq<Bar>): (r: seq<Bar>)
    ensures |r| == |rows| + 1
  {
    if |rows| == 0 then [b]
    else if b.time < rows[0].time then [b] + rows
    else [rows[0]] + InsertByTime(b, rows[1..])
  }

  /** Inserting keeps the candles of the run and adds `b`, once. */
  lemma {:induction false} InsertKeepsRows(b: Bar, rows: seq<Bar>)
    ensures multiset(InsertByTime(b, rows)) == multiset(rows) + multiset{b}
    ensures forall x :: x in InsertByTime(b, rows) <==> x in rows || x == b
  {
    if |rows| > 0 && b.time >= rows[0].time {
      InsertKeepsRows(b, rows[1..]);
      assert rows == [rows[0]] + rows[1..];
    }
  }

  /** Inserting into a sorted run keeps it sorted. */
  lemma {:induction false} InsertKeepsSorted(b: Bar, rows: seq<Bar>)
    requires SortedByTime(rows)
    ensures SortedByTime(InsertByTime(b, rows))
  {
    if |rows| > 0 {
      SortedHeadFirst(rows);
      if b.time < rows[0].time {
        SortedCons(b, rows);
      } else {
        var rest := InsertByTime(b, rows[1..]);
        InsertKeepsSorted(b, rows[1..]);
        InsertKeepsRows(b, rows[1..]);
        assert forall x :: x in rows[1..] ==> x in rows;
        SortedCons(rows[0], rest);
      }
    }
  }

  /** The rows stably sorted by time: the order `resample` reads a frame in,
      candles of equal time keeping their relative order. */
  function SortByTime(rows: seq<Bar>): (r: seq<Bar>)
    ensures SortedByTime(r)
    ensures multiset(r) == multiset(rows)
  {
    if |rows| == 0 then []
    else
      var init := SortByTime(rows[..|rows| - 1]);
      assert rows == rows[..|rows| - 1] + [rows[|rows| - 1]];
      InsertKeepsRows(rows[|rows| - 1], init);
      InsertKeepsSorted(rows[|rows| - 1], init);
      InsertByTime(rows[|rows| - 1], init)
  }

  /** Sorting keeps the length and exactly the candles of the frame. */
  lemma SortByTimeKeepsRows(rows: seq<Bar>)
    ensures |SortByTime(rows)| == |rows|
    ensures forall x :: x in SortByTime(rows) <==> x in rows
  {
    var r := SortByTime(rows);
    assert |multiset(r)| == |multiset(rows)|;
    forall x ensures x in r <==> x in rows {
      assert x in r <==> x in multiset(r);
      assert x in rows <==> x in multiset(rows);
    }
  }

  /** A candle no earlier than every candle of a sorted run goes at its end. */
  lemma {:induction false} InsertLatest(b: Bar, rows: seq<Bar>)
    requires SortedByTime(rows)
    requires forall i :: 0 <= i < |rows| ==> rows[i].time <= b.time
    ensures InsertByTime(b, rows) == rows + [b]
  {
    if |rows| > 0 {
      InsertLatest(b, rows[1..]);
      assert rows == [rows[0]] + rows[1..];
    }
  }

  /** Sorting leaves a frame that is already in time order as it is, so a
      frame read from the store is aggregated in row order. */
  lemma {:induction false} SortKeepsSorted(rows: seq<Bar>)
    requires SortedByTime(rows)
    ensures SortByTime(rows) == rows
  {
    if |rows| > 0 {
      var init := rows[..|rows| - 1];
      SortKeepsSorted(init);
      InsertLatest(rows[|rows| - 1], init);
      assert init + [rows[|rows| - 1]] == rows;
    }
  }

  /** `resample_data`.  `None` for an empty frame, a frame without time, or a
      timeframe outside the seven storage timeframes; the frame itself when
      both timeframes are the same; otherwise one candle per non-empty bucket
      of the target timeframe, in ascending order, aggregating the rows of
      its bucket in time order (buckets without rows are dropped). */
  function ResampleData(frame: Frame, source: string, target: string): (r: Option<seq<Bar>>)
    ensures r.None? <==> |frame.rows| == 0 || !frame.timed || source !in Periods || target !in Periods
    ensures r.Some? && source == target ==> r.value == frame.rows
    ensures r.Some? && source != target ==> var period := Periods[target];
              var sorted := SortByTime(frame.rows);
              && AscendingTimes(r.value) && |r.value| <= |frame.rows|
              && (forall b :: b in r.value ==> |InBucket(sorted, b.time, period)| > 0
                                               && b.price == Aggregate(InBucket(sorted, b.time, period)))
              && (forall x :: x in frame.rows ==> exists b :: b in r.value && b.time == Bucket(x.time, period))
  {
    if |frame.rows| == 0 || !frame.timed || source !in Periods || target !in Periods then None
    else if source == target then Some(frame.rows)
    else
      var period := PeriodOf(target).value;
      var sorted := SortByTime(frame.rows);
      SortByTimeKeepsRows(frame.rows);
      var acc := Accumulate(sorted, period);
      AccumulateIsPerBucket(sorted, period);
      var out := TableRows(acc);
      forall x | x in frame.rows ensures exists b :: b in out && b.time == Bucket(x.time, period) {
        var k := Bucket(x.time, period);
        assert x in InBucket(sorted, k, period);
        assert Bar(k, acc[k]) in out;
      }
      Some(out)
  }

  /** Two candles given latest first are sorted into time order. */
  lemma SortTwo(late: Bar, early: Bar)
    requires early.time < late.time
    ensures SortByTime([late, early]) == [early, late]
  {
    assert [late, early][..1] == [late];
    assert [late][..0] == [];
    assert SortByTime([late]) == [late];
  }

  /** Two candles of one bucket, in time order, are exactly that bucket's rows. */
  lemma TwoInOneBucket(early: Bar, late: Bar, period: int)
    requires period > 0 && Bucket(early.time, period) == Bucket(late.time, period)
    ensures forall k :: |InBucket([early, late], k, period)| > 0 ==> k == Bucket(early.time, period)
    ensures InBucket([early, late], Bucket(early.time, period), period) == [early, late]
  {
    var k0 := Bucket(early.time, period);
    assert InBucket([early], k0, period) == [early] by {
      assert [early][..0] == [];
    }
    assert [early, late][..1] == [early];
    forall k | |InBucket([early, late], k, period)| > 0 ensures k == k0 {
      var x := InBucket([early, late], k, period)[0];
      assert x in InBucket([early, late], k, period);
    }
  }

  /** Candles that each aggregate a non-empty bucket of two time-ordered
      candles sharing one bucket all aggregate both of them. */
  lemma PairBucketOnly(out: seq<Bar>, early: Bar, late: Bar, period: int)
    requires period > 0 && Bucket(early.time, period) == Bucket(late.time, period)
    requires forall b :: b in out ==> |InBucket([early, late], b.time, period)| > 0
                                      && b.price == Aggregate(InBucket([early, late], b.time, period))
    ensures forall b :: b in out ==> b == Bar(Bucket(early.time, period), Aggregate([early, late]))
  {
    TwoInOneBucket(early, late, period);
  }

  /** A frame whose candles, in time order, are two candles of one bucket
      is resampled to candles of that bucket aggregating both. */
  lemma ResampleSortedPair(frame: Frame, source: string, target: string, early: Bar, late: Bar)
    requires frame.timed && |frame.rows| > 0 && source in Periods && target in Periods && source != target
    requires SortByTime(frame.rows) == [early, late]
    requires Bucket(early.time, Periods[target]) == Bucket(late.time, Periods[target])
    ensures var r := ResampleData(frame, source, target);
            && r.Some? && |r.value| > 0
            && forall b :: b in r.value ==> b == Bar(Bucket(early.time, Periods[target]), Aggregate([early, late]))
  {
    var r := ResampleData(frame, source, target);
    assert frame.rows[0] in frame.rows;
    PairBucketOnly(r.value, early, late, Periods[target]);
  }

  /** An unsorted frame is aggregated in time order: two candles of one
      bucket given latest first are resampled to a single candle whose open
      is the earlier candle's and whose close is the later one's. */
  lemma UnsortedBucketInTimeOrder(late: Bar, early: Bar, target: string)
    requires target in Periods && target != "1m"
    requires early.time < late.time && Bucket(early.time, Periods[target]) == Bucket(late.time, Periods[target])
    ensures var r := ResampleData(Frame(true, [late, early]), "1m", target);
            && r.Some? && |r.value| > 0
            && forall b :: b in r.value ==>
                 b.time == Bucket(early.time, Periods[target])
                 && b.price.open == early.price.open && b.price.close == late.price.close
  {
    SortTwo(late, early);
    ResampleSortedPair(Frame(true, [late, early]), "1m", target, early, late);
    var whole := Aggregate([early, late]);
    assert whole.open == early.price.open && whole.close == late.price.close;
  }

  /** The aggregate of well-formed candles is well formed: its open is the
      first candle's and its close the last one's, both inside the widened range. */
  lemma AggregateWellFormed(rows: seq<Bar>)
    requires |rows| > 0
    requires forall i :: 0 <= i < |rows| ==> WellFormed(rows[i].price)
    ensures WellFormed(Aggregate(rows))
  {
    assert WellFormed(rows[0].price) && WellFormed(rows[|rows| - 1].price);
  }

  /** Resampling keeps candles well formed: when every input candle has its
      open and close within its low..high range, so does every output candle. */
  lemma ResamplePreservesWellFormed(frame: Frame, source: string, target: string)
    requires forall b :: b in frame.rows ==> WellFormed(b.price)
    requires ResampleData(frame, source, target).Some?
    ensures forall b :: b in ResampleData(frame, source, target).value ==> WellFormed(b.price)
  {
    var out := ResampleData(frame, source, target).value;
    if source != target {
      var period := Periods[target];
      forall b | b in out ensures WellFormed(b.price) {
        var sorted := SortByTime(frame.rows);
        SortByTimeKeepsRows(frame.rows);
        var s := InBucket(sorted, b.time, period);
        forall i | 0 <= i < |s| ensures WellFormed(s[i].price) {
          assert s[i] in s;
        }
        AggregateWellFormed(s);
      }
    }
  }

  // ---------------------------------------------------------------------
  // Storing resampled candles
  // ---------------------------------------------------------------------

  /** Rows in strictly ascending time order never collide on the primary key. */
  lemma AscendingIsDistinct(rows: seq<Bar>)
    requires AscendingTimes(rows)
    ensures DistinctTimes(rows)
  {
  }

  /** Storing candles in ascending time order into a reachable database
      always commits: the candles already stored are dropped and the rest
      have distinct timestamps. */
  lemma {:induction false} StoreOfAscendingCommits(m: Manager, pair: string, rows: seq<Bar>, tf: string)
    requires m.db.online && CacheConsistent(m)
    requires |rows| > 0 && AscendingTimes(rows)
    ensures StorePriceData(m, pair, Frame(true, rows), tf).ok
  {
    StoreSucceedsExactly(m, pair, Frame(true, rows), tf);
    var m1 := EnsurePriceTable(m, pair, tf).value;
    var name := TableName(pair, tf);
    assert name in m1.db.tables;
    var incoming := NewRows(rows, m1.db.tables[name]);
    AscendingIsDistinct(incoming);
  }

  // ---------------------------------------------------------------------
  // get_resampled_price_data
  // ---------------------------------------------------------------------

  /** The table of `pair` and `tf` holds a candle within the bounds. */
  predicate HasStored(db: Db, pair: string, tf: string, start: Option<int>, end: Option<int>) {
    && db.online && TableName(pair, tf) in db.tables
    && exists k :: k in db.tables[TableName(pair, tf)] && InRange(k, start, end)
  }

  /** The stored candles of `pair` and `tf` within the bounds, ascending. */
  function StoredRange(db: Db, pair: string, tf: string, start: Option<int>, end: Option<int>): (rows: seq<Bar>)
    requires HasStored(db, pair, tf, start, end)
  {
    Query(db.tables[TableName(pair, tf)], start, end, None)
  }

  /** Tables that are kept (unchanged, or gained empty) hold candles in the
      same ranges. */
  lemma KeptTablesHoldAlike(before: Db, after: Db, pair: string, tf: string, start: Option<int>, end: Option<int>)
    requires TablesKept(before, after) && before.online == after.online
    ensures HasStored(before, pair, tf, start, end) <==> HasStored(after, pair, tf, start, end)
  {
  }

  /** Tables that are kept (unchanged, or gained empty) answer every range
      the same way. */
  lemma KeptTablesAnswerAlike(before: Db, after: Db, pair: string, tf: string, start: Option<int>, end: Option<int>)
    requires TablesKept(before, after) && before.online == after.online
    ensures HasStored(before, pair, tf, start, end) <==> HasStored(after, pair, tf, start, end)
    ensures HasStored(before, pair, tf, start, end) ==>
              StoredRange(before, pair, tf, start, end) == StoredRange(after, pair, tf, start, end)
  {
  }

  /** `TablesKept` composes. */
  lemma TablesKeptTransitive(a: Db, b: Db, c: Db)
    requires TablesKept(a, b) && TablesKept(b, c)
    ensures TablesKept(a, c)
  {
  }

  /** The fallback of `get_resampled_price_data`: the 1-minute candles
      within the bounds resampled to the target (`None` when there are none
      or the target is no storage timeframe), stored in the target table when
      `store` is set; that store always commits. */
  function ResampleFromMinutes(m: Manager, pair: string, target: string, start: Option<int>,
                               end: Option<int>, store: bool): (r: (Option<seq<Bar>>, Manager))
    ensures r.1.config == m.config && r.1.db.online == m.db.online
    ensures RowsKept(m.db, r.1.db)
    ensures CacheConsistent(m) ==> CacheConsistent(r.1)
    ensures !store ==> RowsUnchanged(m.db, r.1.db)
    ensures r.0.Some? <==> HasStored(m.db, pair, "1m", start, end) && target in Periods
    ensures r.0.Some? ==> r.0 == ResampleData(Frame(true, StoredRange(m.db, pair, "1m", start, end)), "1m", target)
    ensures store && CacheConsistent(m) && r.0.Some? ==>
              TableName(pair, target) in r.1.db.tables
              && forall b :: b in r.0.value ==> b.time in r.1.db.tables[TableName(pair, target)]
  {
    var base := GetPriceData(m, pair, "1m", start, end, None);
    KeptTablesAnswerAlike(m.db, base.mgr.db, pair, "1m", start, end);
    match base.rows
    case None => (None, base.mgr)
    case Some(rows) =>
      match ResampleData(Frame(true, rows), "1m", target)
      case None => (None, base.mgr)
      case Some(res) =>
        if !store then (Some(res), base.mgr)
        else
          var s := StorePriceData(base.mgr, pair, Frame(true, res), target);
          assert CacheConsistent(m) ==> s.ok by {
            if CacheConsistent(m) {
              StoreOfAscendingCommits(base.mgr, pair, res, target);
            }
          }
          (Some(res), s.mgr)
  }

  /** `get_resampled_price_data`.  When the target timeframe's table holds
      candles within the bounds, those are served and nothing is stored.
      Otherwise the 1-minute candles within the bounds are resampled to the
      target (`None` when there are none or the target is no storage
      timeframe) and, when `store` is set, stored in the target table; that
      store is the only change to the database, and it always commits. */
  function GetResampledPriceData(m: Manager, pair: string, target: string, start: Option<int>,
                                 end: Option<int>, store: bool): (r: (Option<seq<Bar>>, Manager))
    ensures r.1.config == m.config && r.1.db.online == m.db.online
    ensures RowsKept(m.db, r.1.db)
    ensures CacheConsistent(m) ==> CacheConsistent(r.1)
    ensures !store ==> RowsUnchanged(m.db, r.1.db)
    ensures HasStored(m.db, pair, target, start, end) ==>
              r.0 == Some(StoredRange(m.db, pair, target, start, end)) && RowsUnchanged(m.db, r.1.db)
    ensures !HasStored(m.db, pair, target, start, end) ==>
              && (r.0.Some? <==> HasStored(m.db, pair, "1m", start, end) && target in Periods)
              && (r.0.Some? ==> r.0 == ResampleData(Frame(true, StoredRange(m.db, pair, "1m", start, end)), "1m", target))
    ensures store && CacheConsistent(m) && r.0.Some? && !HasStored(m.db, pair, target, start, end) ==>
              TableName(pair, target) in r.1.db.tables
              && forall b :: b in r.0.value ==> b.time in r.1.db.tables[TableName(pair, target)]
  {
    var m1 := EnsurePriceTable(m, pair, target).GetOr(m);
    var stored := GetPriceData(m1, pair, target, start, end, None);
    KeptTablesAnswerAlike(m.db, m1.db, pair, target, start, end);
    if EnsurePriceTable(m, pair, target).Some? && stored.rows.Some? then (stored.rows, stored.mgr)
    else
      TablesKeptTransitive(m.db, m1.db, stored.mgr.db);
      KeptTablesAnswerAlike(m.db, stored.mgr.db, pair, "1m", start, end);
      ResampleFromMinutes(stored.mgr, pair, target, start, end, store)
  }

  // ---------------------------------------------------------------------
  // resample_latest_data
  // ---------------------------------------------------------------------

  /** The 1-minute candles resampled to `tf` are all stored in its table. */
  predicate StoredIn(db: Db, pair: string, rows: seq<Bar>, tf: string) {
    && ResampleData(Frame(true, rows), "1m", tf).Some?
    && TableName(pair, tf) in db.tables
    && forall b :: b in ResampleData(Frame(true, rows), "1m", tf).value ==> b.time in db.tables[TableName(pair, tf)]
  }

  /** Storing more candles keeps what `StoredIn` asks for. */
  lemma StoredInKept(before: Db, after: Db, pair: string, rows: seq<Bar>, tf: string)
    requires RowsKept(before, after) && StoredIn(before, pair, rows, tf)
    ensures StoredIn(after, pair, rows, tf)
  {
  }

  /** One pass of the loop of `resample_latest_data`: "1m" succeeds
      untouched; any other timeframe is resampled from the 1-minute candles
      and stored, and reports whether the store succeeded, or `false` when
      it cannot be resampled. */
  function ResampleOne(m: Manager, pair: string, rows: seq<Bar>, tf: string): (r: (bool, Manager))
    ensures r.1.config == m.config && r.1.db.online == m.db.online && r.1.db.pairs == m.db.pairs
    ensures RowsKept(m.db, r.1.db)
    ensures CacheConsistent(m) ==> CacheConsistent(r.1)
    ensures tf == "1m" ==> r.0
    ensures tf != "1m" && tf !in Periods ==> !r.0
    ensures tf != "1m" && ResampleData(Frame(true, rows), "1m", tf).Some? ==>
              r.0 == StorePriceData(m, pair, Frame(true, ResampleData(Frame(true, rows), "1m", tf).value), tf).ok
    ensures tf in Periods && |rows| > 0 && m.db.online && CacheConsistent(m) ==> r.0
    ensures r.0 && tf != "1m" ==> StoredIn(r.1.db, pair, rows, tf)
  {
    if tf == "1m" then (true, m)
    else match ResampleData(Frame(true, rows), "1m", tf)
      case None => (false, m)
      case Some(res) =>
        var s := StorePriceData(m, pair, Frame(true, res), tf);
        assert |rows| > 0 && m.db.online && CacheConsistent(m) ==> s.ok by {
          if |rows| > 0 && m.db.online && CacheConsistent(m) {
            StoreOfAscendingCommits(m, pair, res, tf);
          }
        }
        (s.ok, s.mgr)
  }

  /** The loop of `resample_latest_data` over the requested timeframes, in
      order, recording each outcome in `acc`; a later repetition of a
      timeframe overwrites an earlier one.  Every success is backed by the
      candles in the store. */
  function ResampleEach(m: Manager, pair: string, rows: seq<Bar>, tfs: seq<string>, acc: map<string, bool>)
    : (r: (map<string, bool>, Manager))
    requires forall tf :: tf in acc && acc[tf] && tf != "1m" ==> StoredIn(m.db, pair, rows, tf)
    ensures r.1.config == m.config && r.1.db.online == m.db.online && r.1.db.pairs == m.db.pairs
    ensures RowsKept(m.db, r.1.db)
    ensures CacheConsistent(m) ==> CacheConsistent(r.1)
    ensures r.0.Keys == acc.Keys + set tf | tf in tfs
    ensures forall tf :: tf in acc && tf !in tfs ==> r.0[tf] == acc[tf]
    ensures "1m" in tfs ==> r.0["1m"]
    ensures forall tf :: tf in tfs && tf != "1m" && tf !in Periods ==> !r.0[tf]
    ensures forall tf :: tf in r.0 && r.0[tf] && tf != "1m" ==> StoredIn(r.1.db, pair, rows, tf)
    decreases |tfs|
  {
    if |tfs| == 0 then (acc, m)
    else
      var tf := tfs[0];
      var step := ResampleOne(m, pair, rows, tf);
      forall t | t in acc && acc[t] && t != "1m" ensures StoredIn(step.1.db, pair, rows, t) {
        StoredInKept(m.db, step.1.db, pair, rows, t);
      }
      var r := ResampleEach(step.1, pair, rows, tfs[1..], acc[tf := step.0]);
      assert forall t :: t in tfs <==> t == tf || t in tfs[1..];
      RowsKeptTransitive(m.db, step.1.db, r.1.db);
      r
  }

  /** With 1-minute candles to work from, a reachable database and a
      consistent cache, the loop reports success for every requested
      storage timeframe: each resample has candles and each store commits. */
  lemma {:induction false} ResampleEachSucceeds(m: Manager, pair: string, rows: seq<Bar>, tfs: seq<string>,
                                                acc: map<string, bool>)
    requires forall tf :: tf in acc && acc[tf] && tf != "1m" ==> StoredIn(m.db, pair, rows, tf)
    requires |rows| > 0 && m.db.online && CacheConsistent(m)
    ensures var r := ResampleEach(m, pair, rows, tfs, acc);
            forall tf :: tf in tfs && tf in Periods ==> r.0[tf]
    decreases |tfs|
  {
    if |tfs| > 0 {
      var tf := tfs[0];
      var step := ResampleOne(m, pair, rows, tf);
      forall t | t in acc && acc[t] && t != "1m" ensures StoredIn(step.1.db, pair, rows, t) {
        StoredInKept(m.db, step.1.db, pair, rows, t);
      }
      var acc1 := acc[tf := step.0];
      ResampleEachSucceeds(step.1, pair, rows, tfs[1..], acc1);
      var r := ResampleEach(m, pair, rows, tfs, acc);
      assert r == ResampleEach(step.1, pair, rows, tfs[1..], acc1);
      forall t | t in tfs && t in Periods ensures r.0[t] {
        if t !in tfs[1..] {
          assert t == tf;
        }
      }
    }
  }

  /** The whole loop, from an empty result. */
  function ResampleAll(m: Manager, pair: string, rows: seq<Bar>, tfs: seq<string>): (r: (map<string, bool>, Manager))
    ensures r.1.config == m.config && r.1.db.online == m.db.online && r.1.db.pairs == m.db.pairs
    ensures RowsKept(m.db, r.1.db)
    ensures CacheConsistent(m) ==> CacheConsistent(r.1)
    ensures r.0.Keys == set tf | tf in tfs
    ensures "1m" in tfs ==> r.0["1m"]
    ensures forall tf :: tf in tfs && tf != "1m" && tf !in Periods ==> !r.0[tf]
    ensures |rows| > 0 && m.db.online && CacheConsistent(m) ==> forall tf :: tf in tfs && tf in Periods ==> r.0[tf]
    ensures forall tf :: tf in r.0 && r.0[tf] && tf != "1m" ==> StoredIn(r.1.db, pair, rows, tf)
  {
    var r := ResampleEach(m, pair, rows, tfs, map[]);
    assert |rows| > 0 && m.db.online && CacheConsistent(m) ==> forall tf :: tf in tfs && tf in Periods ==> r.0[tf] by {
      if |rows| > 0 && m.db.online && CacheConsistent(m) {
        ResampleEachSucceeds(m, pair, rows, tfs, map[]);
      }
    }
    r
  }

  /** `{tf: False for tf in target_timeframes}`. */
  function AllFailed(tfs: seq<string>): (r: map<string, bool>)
    ensures r.Keys == set tf | tf in tfs
    ensures forall tf :: tf in r ==> !r[tf]
  {
    map tf | tf in tfs :: false
  }

  /** `resample_latest_data`: the 1-minute candles of the last `lookbackDays`
      days before `now` are resampled to every requested timeframe and
      stored.  Every requested timeframe gets an outcome; all are `false`
      when there are no 1-minute candles; "1m" itself succeeds without
      work; a timeframe that is no storage timeframe fails.  Stored candles
      are never removed or altered. */
  function ResampleLatestData(m: Manager, pair: string, tfs: seq<string>, now: int, lookbackDays: int)
    : (r: (map<string, bool>, Manager))
    ensures r.1.config == m.config && r.1.db.online == m.db.online && r.1.db.pairs == m.db.pairs
    ensures RowsKept(m.db, r.1.db)
    ensures CacheConsistent(m) ==> CacheConsistent(r.1)
    ensures r.0.Keys == set tf | tf in tfs
    ensures var start := Some(now - lookbackDays * 86400);
            !HasStored(m.db, pair, "1m", start, Some(now)) ==> forall tf :: tf in r.0 ==> !r.0[tf]
    ensures var start := Some(now - lookbackDays * 86400);
            HasStored(m.db, pair, "1m", start, Some(now)) ==>
              && ("1m" in tfs ==> r.0["1m"])
              && (forall tf :: tf in tfs && tf != "1m" && tf !in Periods ==> !r.0[tf])
              && (CacheConsistent(m) ==> forall tf :: tf in tfs && tf in Periods ==> r.0[tf])
  {
    var start := now - lookbackDays * 86400;
    var base := GetPriceData(m, pair, "1m", Some(start), Some(now), None);
    KeptTablesHoldAlike(m.db, base.mgr.db, pair, "1m", Some(start), Some(now));
    match base.rows
    case None => (AllFailed(tfs), base.mgr)
    case Some(rows) => ResampleAll(base.mgr, pair, rows, tfs)
  }

  /** Every success `resample_latest_data` reports for a timeframe other
      than "1m" means the 1-minute candles of the window, resampled to it,
      are all in its table afterwards. */
  lemma ResampleLatestStores(m: Manager, pair: string, tfs: seq<string>, now: int, lookbackDays: int)
    ensures var r := ResampleLatestData(m, pair, tfs, now, lookbackDays);
            var start := Some(now - lookbackDays * 86400);
            forall tf :: tf in r.0 && r.0[tf] && tf != "1m" ==>
              && HasStored(m.db, pair, "1m", start, Some(now))
              && StoredIn(r.1.db, pair, StoredRange(m.db, pair, "1m", start, Some(now)), tf)
  {
    var start := now - lookbackDays * 86400;
    var base := GetPriceData(m, pair, "1m", Some(start), Some(now), None);
    KeptTablesAnswerAlike(m.db, base.mgr.db, pair, "1m", Some(start), Some(now));
    if base.rows.Some? {
      assert base.rows.value == StoredRange(m.db, pair, "1m", Some(start), Some(now));
    }
  }
}
