/** OHLCV candles, the per-pair price tables they are stored in, the frames
    passed between fetcher, store and resampler, and the seven storage
    timeframes the store and the resampler share. */
module Candles {
  import opened Wrappers
  import opened Keys

  /** The price columns of a candle.  Prices are fixed-point integers. */
  datatype Ohlcv = Ohlcv(open: int, high: int, low: int, close: int, volume: int)

  /** One candle: its opening instant in whole seconds since the epoch and its prices. */
  datatype Bar = Bar(time: int, price: Ohlcv)

  /** Prices whose open and close lie within their low..high range. */
  predicate WellFormed(p: Ohlcv) {
    p.low <= p.open <= p.high && p.low <= p.close <= p.high
  }

  /** A price table `price_data.<pair>_<timeframe>`: prices keyed by the
      timestamp, which is the table's primary key (one row per instant). */
  type Table = map<int, Ohlcv>

  /** A data frame of candles.  `timed` says whether it carries a `time`
      index or column at all; stores and resamples refuse a frame without one. */
  datatype Frame = Frame(timed: bool, rows: seq<Bar>)

  /** The seven storage timeframes and their candle length in seconds
      (`DataResampler.TIMEFRAME_MAP` with pandas rules 1T 5T 15T 30T 1H 4H 1D,
      and the `expected_delta` branches of gap detection). */
  const Periods: map<string, nat> := map[
    "1m" := 60, "5m" := 300, "15m" := 900, "30m" := 1800,
    "1h" := 3600, "4h" := 14400, "1d" := 86400]

  /** The candle length of a storage timeframe; `None` for any other name. */
  function PeriodOf(tf: string): (r: Option<nat>)
    ensures r.Some? <==> tf in Periods
    ensures r.Some? ==> r.value > 0 && r.value % 60 == 0 && 86400 % r.value == 0
  {
    if tf in Periods then Some(Periods[tf]) else None
  }

  /** Candles in strictly ascending time order: what a query ordered by the
      primary key returns. */
  predicate AscendingTimes(rows: seq<Bar>) {
    forall i, j :: 0 <= i < j < |rows| ==> rows[i].time < rows[j].time
  }

  /** Putting an earlier candle in front of an ascending run keeps it ascending. */
  lemma AscendingCons(b: Bar, rows: seq<Bar>)
    requires AscendingTimes(rows)
    requires forall c :: c in rows ==> b.time < c.time
    ensures AscendingTimes([b] + rows)
  {
    var r := [b] + rows;
    forall i, j | 0 <= i < j < |r| ensures r[i].time < r[j].time {
      assert r[j] == rows[j - 1];
      if i > 0 {
        assert r[i] == rows[i - 1];
      }
    }
  }

  /** The candles of a table at the given keys, in key order. */
  function BarsAt(t: Table, keys: seq<int>): (r: seq<Bar>)
    requires forall i :: 0 <= i < |keys| ==> keys[i] in t
    ensures |r| == |keys|
    ensures forall i :: 0 <= i < |keys| ==> r[i] == Bar(keys[i], t[keys[i]])
  {
    if |keys| == 0 then [] else [Bar(keys[0], t[keys[0]])] + BarsAt(t, keys[1..])
  }

  /** The candles at the sorted keys of a table are ascending. */
  lemma SortedBarsAscending(t: Table)
    ensures AscendingTimes(BarsAt(t, SortedKeys(t.Keys)))
  {
    var keys := SortedKeys(t.Keys);
    var r := BarsAt(t, keys);
    forall i, j | 0 <= i < j < |r| ensures r[i].time < r[j].time {
      assert r[i].time == keys[i] && r[j].time == keys[j];
    }
  }

  /** The candles at the sorted keys of a table are exactly its rows. */
  lemma {:induction false} SortedBarsMembers(t: Table)
    ensures var r := BarsAt(t, SortedKeys(t.Keys));
            forall b :: b in r <==> b.time in t && b.price == t[b.time]
  {
    var keys := SortedKeys(t.Keys);
    var r := BarsAt(t, keys);
    forall b: Bar | b.time in t && b.price == t[b.time] ensures b in r {
      assert b.time in t.Keys;
      assert b.time in keys;
      var i :| 0 <= i < |keys| && keys[i] == b.time;
      assert r[i] == b;
    }
  }

  /** A table's rows as candles in ascending time order, one per key. */
  function TableRows(t: Table): (r: seq<Bar>)
    ensures AscendingTimes(r) && |r| == |t|
    ensures forall b :: b in r <==> b.time in t && b.price == t[b.time]
  {
    SortedBarsAscending(t);
    SortedBarsMembers(t);
    assert |t.Keys| == |t|;
    BarsAt(t, SortedKeys(t.Keys))
  }
}
