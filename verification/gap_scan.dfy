/** Gap detection and the expected candle count of `DataManager`: a linear
    scan over the stored timestamps of one table that reports each pair of
    neighbouring candles further apart than one candle length, unless the
    calendar calls it a weekend gap. */
module GapScan {
  import opened Wrappers
  import opened Keys
  import opened Clock
  import opened Candles
  import opened MarketHours
  import opened PriceStore

  /** A gap: the stored candles on either side of the missing ones. */
  datatype Gap = Gap(start: int, end: int)

  /** `int(actual / expected) > 1`: more than one candle length apart.  For a
      negative difference the truncating and the flooring quotient are both
      below 2, so Dafny's flooring `/` decides the test exactly as Python does. */
  predicate Apart(s: int, e: int, delta: int)
    requires delta > 0
  {
    (e - s) / delta > 1
  }

  /** The neighbours at `i` and `i + 1` form a gap the scan reports. */
  predicate ReportedAt(ts: seq<int>, i: int, delta: int, cal: Option<Calendar>)
    requires delta > 0
  {
    0 <= i < |ts| - 1 && Apart(ts[i], ts[i + 1], delta) && IsWeekendGap(cal, ts[i], ts[i + 1]) == Some(false)
  }

  /** The neighbours at `i` and `i + 1` are apart and the weekend test on them raises. */
  predicate RaisesAt(ts: seq<int>, i: int, delta: int, cal: Option<Calendar>)
    requires delta > 0
  {
    0 <= i < |ts| - 1 && Apart(ts[i], ts[i + 1], delta) && IsWeekendGap(cal, ts[i], ts[i + 1]).None?
  }

  /** Gaps in ascending, non-overlapping order, each one a proper interval. */
  predicate Ordered(gs: seq<Gap>) {
    && (forall j :: 0 <= j < |gs| ==> gs[j].start < gs[j].end)
    && (forall j, k :: 0 <= j < k < |gs| ==> gs[j].end <= gs[k].start)
  }

  /** The loop `for i in range(1, len(timestamps))` from the pair at `i` on.
      `None` is an exception out of the weekend test, which `find_data_gaps`
      turns into an empty result. */
  function ScanFrom(ts: seq<int>, i: nat, delta: int, cal: Option<Calendar>): (r: Option<seq<Gap>>)
    requires delta > 0
    ensures r.Some? ==> |r.value| < |ts| - i || |r.value| == 0
    decreases |ts| - i
  {
    if i + 1 >= |ts| then Some([])
    else
      var rest := ScanFrom(ts, i + 1, delta, cal);
      if !Apart(ts[i], ts[i + 1], delta) then rest
      else match IsWeekendGap(cal, ts[i], ts[i + 1])
        case None => None
        case Some(weekend) =>
          if weekend || rest.None? then rest else Some([Gap(ts[i], ts[i + 1])] + rest.value)
  }

  /** The scan raises exactly when the weekend test raises on some pair of
      neighbours that are apart. */
  lemma {:induction false} ScanFromRaises(ts: seq<int>, i: nat, delta: int, cal: Option<Calendar>)
    requires delta > 0
    ensures ScanFrom(ts, i, delta, cal).None? <==> exists k :: i <= k && RaisesAt(ts, k, delta, cal)
    decreases |ts| - i
  {
    if i + 1 < |ts| {
      ScanFromRaises(ts, i + 1, delta, cal);
      if ScanFrom(ts, i, delta, cal).None? && ScanFrom(ts, i + 1, delta, cal).Some? {
        assert RaisesAt(ts, i, delta, cal);
      }
      if exists k :: i <= k && RaisesAt(ts, k, delta, cal) {
        var k :| i <= k && RaisesAt(ts, k, delta, cal);
        if k == i {
          assert ScanFrom(ts, i, delta, cal).None?;
        }
      }
    }
  }

  /** Every gap the scan reports is a pair of neighbours that are apart and
      not a weekend gap. */
  lemma {:induction false} ScanFromSound(ts: seq<int>, i: nat, delta: int, cal: Option<Calendar>)
    requires delta > 0
    requires ScanFrom(ts, i, delta, cal).Some?
    ensures forall g :: g in ScanFrom(ts, i, delta, cal).value ==>
              exists k :: i <= k && ReportedAt(ts, k, delta, cal) && g == Gap(ts[k], ts[k + 1])
    decreases |ts| - i
  {
    if i + 1 < |ts| {
      ScanFromSound(ts, i + 1, delta, cal);
      var gs := ScanFrom(ts, i, delta, cal).value;
      var rest := ScanFrom(ts, i + 1, delta, cal).value;
      forall g | g in gs ensures exists k :: i <= k && ReportedAt(ts, k, delta, cal) && g == Gap(ts[k], ts[k + 1]) {
        if g !in rest {
          assert ReportedAt(ts, i, delta, cal);
        }
      }
    }
  }

  /** Without an exception, every pair of neighbours that are apart and not a
      weekend gap is reported. */
  lemma {:induction false} ScanFromComplete(ts: seq<int>, i: nat, delta: int, cal: Option<Calendar>)
    requires delta > 0
    requires ScanFrom(ts, i, delta, cal).Some?
    ensures forall k :: i <= k && ReportedAt(ts, k, delta, cal) ==> Gap(ts[k], ts[k + 1]) in ScanFrom(ts, i, delta, cal).value
    decreases |ts| - i
  {
    if i + 1 < |ts| {
      ScanFromComplete(ts, i + 1, delta, cal);
      if ReportedAt(ts, i, delta, cal) {
        assert ScanFrom(ts, i, delta, cal).value == [Gap(ts[i], ts[i + 1])] + ScanFrom(ts, i + 1, delta, cal).value;
      }
    }
  }

  /** A gap ending no later than every gap of an ordered run can go in front of it. */
  lemma OrderedCons(g: Gap, rest: seq<Gap>)
    requires Ordered(rest) && g.start < g.end
    requires forall j :: 0 <= j < |rest| ==> g.end <= rest[j].start
    ensures Ordered([g] + rest)
  {
    var r := [g] + rest;
    forall j, k | 0 <= j < k < |r| ensures r[j].end <= r[k].start {
      assert r[k] == rest[k - 1];
      if j > 0 {
        assert r[j] == rest[j - 1];
      }
    }
    forall j | 0 <= j < |r| ensures r[j].start < r[j].end {
      if j > 0 {
        assert r[j] == rest[j - 1];
      }
    }
  }

  /** Over ascending timestamps the reported gaps come out ascending and
      non-overlapping, each starting no earlier than the scan's position. */
  lemma {:induction false} ScanFromOrdered(ts: seq<int>, i: nat, delta: int, cal: Option<Calendar>)
    requires delta > 0 && StrictlyIncreasing(ts)
    requires ScanFrom(ts, i, delta, cal).Some?
    ensures Ordered(ScanFrom(ts, i, delta, cal).value)
    ensures forall j :: 0 <= j < |ScanFrom(ts, i, delta, cal).value| ==>
              i < |ts| && ts[i] <= ScanFrom(ts, i, delta, cal).value[j].start
    decreases |ts| - i
  {
    if i + 1 < |ts| {
      var rest := ScanFrom(ts, i + 1, delta, cal).value;
      ScanFromOrdered(ts, i + 1, delta, cal);
      var r := ScanFrom(ts, i, delta, cal).value;
      assert ts[i] < ts[i + 1];
      if r != rest {
        var g := Gap(ts[i], ts[i + 1]);
        assert r == [g] + rest;
        OrderedCons(g, rest);
        forall j | 0 <= j < |r| ensures ts[i] <= r[j].start {
          if j > 0 {
            assert r[j] == rest[j - 1];
          }
        }
      }
    }
  }

  /** `find_data_gaps`: the gaps between neighbouring stored candles of the
      table, in time order, for the seven storage timeframes; empty for an
      empty or unreachable table, another timeframe, or when a weekend test
      raises. */
  function FindDataGaps(m: Manager, pair: string, tf: string): (r: (seq<Gap>, Manager))
    ensures RowsUnchanged(m.db, r.1.db) && r.1.config == m.config && r.1.db.online == m.db.online
    ensures CacheConsistent(m) ==> CacheConsistent(r.1)
    ensures Ordered(r.0)
    ensures PeriodOf(tf).None? || !m.db.online ==> r.0 == []
    ensures |r.0| > 0 ==> m.db.online && PeriodOf(tf).Some? && TableName(pair, tf) in r.1.db.tables
    ensures m.db.online && PeriodOf(tf).Some? && TableName(pair, tf) in r.1.db.tables ==>
              var ts := SortedKeys(r.1.db.tables[TableName(pair, tf)].Keys);
              var delta := PeriodOf(tf).value;
              && ((exists k :: RaisesAt(ts, k, delta, m.config.calendar)) ==> r.0 == [])
              && ((forall k :: !RaisesAt(ts, k, delta, m.config.calendar)) ==>
                    forall g :: g in r.0 <==> exists k :: ReportedAt(ts, k, delta, m.config.calendar) && g == Gap(ts[k], ts[k + 1]))
  {
    match EnsurePriceTable(m, pair, tf)
    case None => ([], m)
    case Some(m1) =>
      var name := TableName(pair, tf);
      if !m1.db.online || name !in m1.db.tables || PeriodOf(tf).None? then ([], m1)
      else
        var ts := SortedKeys(m1.db.tables[name].Keys);
        var delta := PeriodOf(tf).value;
        ScanFromRaises(ts, 0, delta, m.config.calendar);
        if |ts| == 0 then ([], m1)
        else match ScanFrom(ts, 0, delta, m.config.calendar)
          case None => ([], m1)
          case Some(gaps) =>
            ScanFromOrdered(ts, 0, delta, m.config.calendar);
            ScanFromSound(ts, 0, delta, m.config.calendar);
            ScanFromComplete(ts, 0, delta, m.config.calendar);
            (gaps, m1)
  }

  /** Every gap `find_data_gaps` reports passed the weekend test; repeating
      that test on it with the same calendar answers "not a weekend gap"
      again, without raising. */
  lemma {:induction false} FoundGapsAreNotWeekend(m: Manager, pair: string, tf: string)
    ensures var gaps := FindDataGaps(m, pair, tf).0;
            forall g :: g in gaps ==> IsWeekendGap(m.config.calendar, g.start, g.end) == Some(false)
  {
    var (gaps, m1) := FindDataGaps(m, pair, tf);
    if |gaps| > 0 {
      var ts := SortedKeys(m1.db.tables[TableName(pair, tf)].Keys);
      forall g | g in gaps ensures IsWeekendGap(m.config.calendar, g.start, g.end) == Some(false) {
        var k :| ReportedAt(ts, k, PeriodOf(tf).value, m.config.calendar) && g == Gap(ts[k], ts[k + 1]);
      }
    }
  }

  // ---------------------------------------------------------------------
  // get_data_coverage: expected_count
  // ---------------------------------------------------------------------

  /** The candle length in minutes by which `get_data_coverage` divides. */
  function MinutesPer(tf: string): (n: int)
    ensures tf in Periods ==> n * 60 == Periods[tf] && 2880 % n == 0
  {
    if tf in Periods then Periods[tf] / 60 else 0
  }

  /** `expected_count` over a span of `span` seconds from the first to the
      last stored candle: the whole minutes of the span in candles of the
      timeframe, less 48 hours' worth of candles for each whole week of the
      span when weekend trading is off, and never below 0.  0 for any other
      timeframe. */
  function ExpectedCount(span: nat, tf: string, weekendTrading: bool): (r: int)
    ensures r >= 0
    ensures tf !in Periods ==> r == 0
    ensures tf in Periods ==> r <= span / 60 / MinutesPer(tf)
    ensures tf in Periods && weekendTrading ==> r == span / 60 / MinutesPer(tf)
    ensures tf in Periods && !weekendTrading && Days(span) < 7 ==> r == span / 60 / MinutesPer(tf)
  {
    if tf !in Periods then 0
    else
      var n := MinutesPer(tf);
      var weekends := if weekendTrading then 0 else Days(span) / 7;
      var c := span / 60 / n - weekends * (2880 / n);
      if c < 0 then 0 else c
  }

  /** The divisor the code writes out for each timeframe ("1m" is not divided). */
  function DivisorAsWritten(tf: string): real {
    if tf == "1m" then 1.0
    else if tf == "5m" then 5.0
    else if tf == "15m" then 15.0
    else if tf == "30m" then 30.0
    else if tf == "1h" then 60.0
    else if tf == "4h" then 240.0
    else if tf == "1d" then 1440.0
    else 0.0
  }

  /** The candles the code subtracts per weekend for each timeframe. */
  function WeekendCandlesAsWritten(tf: string): int {
    if tf == "1m" then 48 * 60
    else if tf == "5m" then 48 * 12
    else if tf == "15m" then 48 * 4
    else if tf == "30m" then 48 * 2
    else if tf == "1h" then 48
    else if tf == "4h" then 12
    else if tf == "1d" then 2
    else 0
  }

  /** `expected_count` as the code computes it: a float division of the
      whole minutes (plain minutes for "1m"), 0 for another timeframe, then
      the per-timeframe weekend subtraction, `max(0, ·)` and `int(·)`. */
  function ExpectedCountAsWritten(span: nat, tf: string, weekendTrading: bool): (r: int)
    ensures r >= 0
  {
    var minutes: int := span / 60;
    var expected: real := if tf in Periods then minutes as real / DivisorAsWritten(tf) else 0.0;
    var weekends: int := Days(span) / 7;
    var perWeekend: int := if weekendTrading then 0 else WeekendCandlesAsWritten(tf);
    var adjusted := expected - (weekends * perWeekend) as real;
    if adjusted < 0.0 then 0 else adjusted.Floor
  }

  /** The written-out constants are the candle length in minutes and the
      number of such candles in 48 hours. */
  lemma ConstantsAsWritten(tf: string)
    ensures tf in Periods ==> DivisorAsWritten(tf) == MinutesPer(tf) as real
    ensures tf in Periods ==> WeekendCandlesAsWritten(tf) == 2880 / MinutesPer(tf)
    ensures tf !in Periods ==> WeekendCandlesAsWritten(tf) == 0
  {
  }

  /** Subtracting a whole number commutes with taking the floor. */
  lemma FloorMinusInt(x: real, k: int)
    ensures (x - k as real).Floor == x.Floor - k
  {
  }

  /** Dividing whole minutes as reals and flooring is integer division. */
  lemma FloorOfQuotient(a: int, n: int)
    requires n > 0
    ensures (a as real / n as real).Floor == a / n
  {
    var q := a / n;
    var r := a % n;
    assert a == q * n + r && 0 <= r < n;
    assert a as real / n as real == q as real + r as real / n as real;
    assert 0.0 <= r as real / n as real < 1.0;
  }

  /** The integer formula is what the code computes, timeframe by timeframe. */
  lemma {:induction false} ExpectedCountMatchesCode(span: nat, tf: string, weekendTrading: bool)
    ensures ExpectedCountAsWritten(span, tf, weekendTrading) == ExpectedCount(span, tf, weekendTrading)
  {
    ConstantsAsWritten(tf);
    if tf in Periods {
      var minutes: int := span / 60;
      var n := MinutesPer(tf);
      var x := minutes as real / n as real;
      FloorOfQuotient(minutes, n);
      var w := (if weekendTrading then 0 else Days(span) / 7) * (2880 / n);
      FloorMinusInt(x, w);
      assert (x - w as real < 0.0) <==> (x.Floor - w < 0);
    }
  }

  /** `get_data_coverage`'s `expected_count` for one table: 0 for an empty
      table (one that exists empty, or is created empty by the call); the
      count formula over the span between the oldest and the newest
      candle otherwise; `None` when the call fails: the database is
      unreachable, a cached table name has no table, or there is data and
      no `calendar` section. */
  function ExpectedCountOf(m: Manager, pair: string, tf: string): (r: (Option<int>, Manager))
    ensures RowsUnchanged(m.db, r.1.db) && r.1.config == m.config
    ensures r.0.Some? ==> r.0.value >= 0
    ensures var name := TableName(pair, tf);
            r.0.None? <==> || !m.db.online
                           || (name !in m.db.tables && name in m.cache)
                           || (name in m.db.tables && m.db.tables[name] != map[] && m.config.calendar.None?)
    ensures var name := TableName(pair, tf);
            m.db.online && (name in m.db.tables || name !in m.cache) ==>
              (if name in m.db.tables && m.db.tables[name] != map[] then
                 m.config.calendar.Some? ==>
                   var keys := m.db.tables[name].Keys;
                   r.0 == Some(ExpectedCount(SetMax(keys) - SetMin(keys), tf, m.config.calendar.value.weekendTrading))
               else r.0 == Some(0))
    ensures r.0.Some? && r.0.value > 0 ==>
              && TableName(pair, tf) in r.1.db.tables && m.config.calendar.Some? && tf in Periods
              && var keys := r.1.db.tables[TableName(pair, tf)].Keys;
                 keys != {} && r.0.value == ExpectedCount(SetMax(keys) - SetMin(keys), tf, m.config.calendar.value.weekendTrading)
  {
    match EnsurePriceTable(m, pair, tf)
    case None => (None, m)
    case Some(m1) =>
      var name := TableName(pair, tf);
      if !m1.db.online || name !in m1.db.tables then (None, m1)
      else
        var keys := m1.db.tables[name].Keys;
        if keys == {} then (Some(0), m1)
        else if m.config.calendar.None? then (None, m1)
        else (Some(ExpectedCount(SetMax(keys) - SetMin(keys), tf, m.config.calendar.value.weekendTrading)), m1)
  }
}
