/** `MT5Fetcher` (data/fetcher.py): the request logic in front of the
    MetaTrader 5 terminal.  The terminal is an oracle: whether it is up or
    accepts a login, which symbols it knows, and what each rates request
    returns.  What is modelled is which requests the fetcher makes, in which
    order, and what it makes of the replies; plus the session and timezone
    strings it formats. */
module Fetcher {
  import opened Wrappers
  import opened Text
  import opened Candles

  /** The nine MT5 timeframe names `TIMEFRAME_MAP` accepts. */
  const Mt5Timeframes: set<string> := {"M1", "M5", "M15", "M30", "H1", "H4", "D1", "W1", "MN1"}

  /** A rates request: `copy_rates_range(symbol, tf, from, to)` or
      `copy_rates_from_pos(symbol, tf, pos, count)`. */
  datatype RatesCall =
    | CopyRange(symbol: string, tf: string, from: int, to: int)
    | CopyFromPos(symbol: string, tf: string, pos: int, count: int)

  /** What a rates request gives back: candles (possibly none), `None`, or an exception. */
  datatype Reply = Rates(bars: seq<Bar>) | NoRates | Failed

  /** The MetaTrader 5 terminal as seen from Python: already running
      (`terminal_info()` truthy), accepting `initialize(...)`, the symbols
      `symbol_info` knows, and the reply to every rates request. */
  datatype Terminal = Terminal(up: bool, accepts: bool, symbols: set<string>, rates: RatesCall -> Reply)

  /** An `MT5Fetcher`: its `is_initialized` flag and the two settings of the
      `data` configuration section it reads, `start_date` (as an instant) and
      `update.max_candles_per_request`; `None` when the key is absent. */
  datatype Fetcher = Fetcher(initialized: bool, startDate: Option<int>, maxCandles: Option<int>)

  /** `initialize`: already initialized, a running terminal, or an accepted
      login all succeed and set the flag; otherwise nothing changes. */
  function Initialize(f: Fetcher, term: Terminal): (r: (bool, Fetcher))
    ensures r.0 <==> f.initialized || term.up || term.accepts
    ensures r.1 == if r.0 then f.(initialized := true) else f
  {
    if f.initialized then (true, f)
    else if term.up || term.accepts then (true, f.(initialized := true))
    else (false, f)
  }

  /** `shutdown`: clears the flag. */
  function Shutdown(f: Fetcher): (r: Fetcher)
    ensures !r.initialized && r.startDate == f.startDate && r.maxCandles == f.maxCandles
  {
    f.(initialized := false)
  }

  /** `check_symbol_available`: the connection can be made and the terminal
      knows the symbol. */
  function CheckSymbolAvailable(f: Fetcher, term: Terminal, symbol: string): (r: (bool, Fetcher))
    ensures r.0 <==> (f.initialized || term.up || term.accepts) && symbol in term.symbols
    ensures r.1 == Initialize(f, term).1
  {
    var (ok, f1) := Initialize(f, term);
    (ok && symbol in term.symbols, f1)
  }

  // ---------------------------------------------------------------------
  // Chunked download (_fetch_large_ohlcv)
  // ---------------------------------------------------------------------

  function Min(a: int, b: int): int {
    if a < b then a else b
  }

  /** The chunks collected and the requests made by the pagination loop. */
  datatype Chunked = Chunked(chunks: seq<seq<Bar>>, calls: seq<RatesCall>)

  /** The pagination loop of `_fetch_large_ohlcv` as a recursive definition:
      while candles remain, request `min(remaining, max)` candles from the
      current position; stop on an empty, missing or failed reply, and after
      a short chunk; otherwise advance by the chunk's length. */
  function ChunkLoop(rates: RatesCall -> Reply, symbol: string, tf: string, remaining: int, pos: int, max: int)
    : (r: Chunked)
    ensures |r.chunks| <= |r.calls|
    ensures forall i :: 0 <= i < |r.chunks| ==> |r.chunks[i]| > 0
    decreases remaining
  {
    if remaining <= 0 then Chunked([], [])
    else
      var size := Min(remaining, max);
      var call := CopyFromPos(symbol, tf, pos, size);
      var reply := rates(call);
      if !reply.Rates? || |reply.bars| == 0 then Chunked([], [call])
      else if |reply.bars| < size then Chunked([reply.bars], [call])
      else
        var rest := ChunkLoop(rates, symbol, tf, remaining - |reply.bars|, pos + |reply.bars|, max);
        Chunked([reply.bars] + rest.chunks, [call] + rest.calls)
  }

  /** Request `i` of the loop got back a full chunk, the `i`-th collected,
      and request `i + 1` starts where that chunk ended. */
  predicate Continues(r: Chunked, i: nat)
    requires i + 1 < |r.calls|
  {
    && r.calls[i].CopyFromPos? && r.calls[i + 1].CopyFromPos?
    && i < |r.chunks| && |r.chunks[i]| >= r.calls[i].count
    && r.calls[i + 1].pos == r.calls[i].pos + |r.chunks[i]|
  }

  /** Each request of the pagination loop asks for `min(remaining, max)`
      candles, `remaining` being what is still missing when it is made: the
      count less the candles from the starting position up to its own. */
  lemma {:induction false} ChunkRequestSizes(rates: RatesCall -> Reply, symbol: string, tf: string,
                                             remaining: int, pos: int, max: int)
    ensures forall i :: 0 <= i < |ChunkLoop(rates, symbol, tf, remaining, pos, max).calls| ==>
              && ChunkLoop(rates, symbol, tf, remaining, pos, max).calls[i].CopyFromPos?
              && ChunkLoop(rates, symbol, tf, remaining, pos, max).calls[i].count
                 == Min(remaining + pos - ChunkLoop(rates, symbol, tf, remaining, pos, max).calls[i].pos, max)
    decreases remaining
  {
    if remaining > 0 {
      var size := Min(remaining, max);
      var call := CopyFromPos(symbol, tf, pos, size);
      var reply := rates(call);
      if reply.Rates? && |reply.bars| >= size && |reply.bars| > 0 {
        var n := |reply.bars|;
        ChunkRequestSizes(rates, symbol, tf, remaining - n, pos + n, max);
        var rest := ChunkLoop(rates, symbol, tf, remaining - n, pos + n, max);
        var r := ChunkLoop(rates, symbol, tf, remaining, pos, max);
        assert r.calls == [call] + rest.calls;
        forall i | 0 < i < |r.calls| ensures r.calls[i] == rest.calls[i - 1] {
        }
      }
    }
  }

  /** The requests of the pagination loop: none exactly when nothing
      remains; the first starts at the starting position; each asks for
      `min(remaining, max)` candles, `remaining` being what is still missing
      when it is made (at least one when `max` is positive); every request
      but the last got back a full chunk, which is the chunk collected, and
      the next request starts where it ended. */
  lemma {:induction false} ChunkRequests(rates: RatesCall -> Reply, symbol: string, tf: string, remaining: int, pos: int, max: int)
    ensures var r := ChunkLoop(rates, symbol, tf, remaining, pos, max);
            && (|r.calls| == 0 <==> remaining <= 0)
            && (|r.calls| > 0 ==> r.calls[0] == CopyFromPos(symbol, tf, pos, Min(remaining, max)))
            && (forall i :: 0 <= i < |r.calls| ==>
                  && r.calls[i].CopyFromPos? && r.calls[i].symbol == symbol && r.calls[i].tf == tf
                  && r.calls[i].count == Min(remaining + pos - r.calls[i].pos, max)
                  && (max > 0 ==> r.calls[i].count >= 1))
            && (forall i :: 0 <= i < |r.chunks| ==>
                  rates(r.calls[i]).Rates? && rates(r.calls[i]).bars == r.chunks[i] && |r.chunks[i]| > 0)
            && (forall i :: 0 <= i < |r.calls| - 1 ==> Continues(r, i))
  {
    ChunkRequestShape(rates, symbol, tf, remaining, pos, max);
    ChunkRequestSizes(rates, symbol, tf, remaining, pos, max);
  }

  /** The requests of the pagination loop apart from their sizes. */
  lemma {:induction false} ChunkRequestShape(rates: RatesCall -> Reply, symbol: string, tf: string,
                                             remaining: int, pos: int, max: int)
    ensures var r := ChunkLoop(rates, symbol, tf, remaining, pos, max);
            && (|r.calls| == 0 <==> remaining <= 0)
            && (|r.calls| > 0 ==> r.calls[0] == CopyFromPos(symbol, tf, pos, Min(remaining, max)))
            && (forall i :: 0 <= i < |r.calls| ==>
                  && r.calls[i].CopyFromPos? && r.calls[i].symbol == symbol && r.calls[i].tf == tf
                  && r.calls[i].count <= max
                  && (max > 0 ==> r.calls[i].count >= 1))
            && (forall i :: 0 <= i < |r.chunks| ==>
                  rates(r.calls[i]).Rates? && rates(r.calls[i]).bars == r.chunks[i] && |r.chunks[i]| > 0)
            && (forall i :: 0 <= i < |r.calls| - 1 ==> Continues(r, i))
    decreases remaining
  {
    if remaining > 0 {
      var size := Min(remaining, max);
      var call := CopyFromPos(symbol, tf, pos, size);
      var reply := rates(call);
      if reply.Rates? && |reply.bars| >= size && |reply.bars| > 0 {
        var n := |reply.bars|;
        ChunkRequestShape(rates, symbol, tf, remaining - n, pos + n, max);
        var rest := ChunkLoop(rates, symbol, tf, remaining - n, pos + n, max);
        var r := ChunkLoop(rates, symbol, tf, remaining, pos, max);
        assert r.calls == [call] + rest.calls && r.chunks == [reply.bars] + rest.chunks;
        forall i | 0 <= i < |r.calls| - 1 ensures Continues(r, i) {
          if i == 0 {
            if |rest.calls| == 0 {
              assert false;
            }
          } else {
            assert Continues(rest, i - 1);
            assert r.calls[i] == rest.calls[i - 1] && r.calls[i + 1] == rest.calls[i];
          }
        }
      }
    }
  }

  /** All chunks, one after the other (`pd.concat(chunks)`). */
  function Flatten(chunks: seq<seq<Bar>>): (r: seq<Bar>)
    ensures forall b :: b in r <==> exists i :: 0 <= i < |chunks| && b in chunks[i]
  {
    if |chunks| == 0 then []
    else
      var rest := Flatten(chunks[1..]);
      assert forall b :: (exists i :: 0 <= i < |chunks| && b in chunks[i]) <==>
                         b in chunks[0] || exists i :: 0 <= i < |chunks[1..]| && b in chunks[1..][i] by {
        forall b | exists i :: 0 <= i < |chunks| && b in chunks[i]
          ensures b in chunks[0] || exists i :: 0 <= i < |chunks[1..]| && b in chunks[1..][i]
        {
          var i :| 0 <= i < |chunks| && b in chunks[i];
          if i > 0 {
            assert chunks[1..][i - 1] == chunks[i];
          }
        }
      }
      chunks[0] + rest
  }

  /** For every timestamp, the first candle with it. */
  function FirstByTime(rows: seq<Bar>): (t: Table)
    ensures forall k :: k in t ==> Bar(k, t[k]) in rows
    ensures forall b :: b in rows ==> b.time in t
  {
    if |rows| == 0 then map[]
    else FirstByTime(rows[1..])[rows[0].time := rows[0].price]
  }

  /** `sort_values("time").drop_duplicates(subset=["time"])`: one candle per
      timestamp, in strictly ascending time order, each one of the input's
      candles, no timestamp of the input missing.  pandas' default sort is
      not stable, so which of several candles with the same timestamp
      survives is not fixed; the model keeps the first in input order. */
  function SortDedup(rows: seq<Bar>): (r: seq<Bar>)
    ensures AscendingTimes(r)
    ensures forall b :: b in r ==> b in rows
    ensures forall x :: x in rows ==> exists b :: b in r && b.time == x.time
  {
    var t := FirstByTime(rows);
    var r := TableRows(t);
    forall x | x in rows ensures exists b :: b in r && b.time == x.time {
      assert Bar(x.time, t[x.time]) in r;
    }
    r
  }

  /** What `drop_duplicates(subset=["time"])` raises: after `_rates_to_dataframe`
      "time" is the index, not a column, and the subset may name columns only. */
  const DropDuplicatesError: string := "KeyError: time"

  /** `_fetch_large_ohlcv` as written: `None` when no chunk was collected;
      otherwise `sort_values("time")` succeeds on the time index, but
      `drop_duplicates(subset=["time"])` raises, outside any `try`, so the
      collected candles are never returned. */
  function FetchLargeAsWritten(rates: RatesCall -> Reply, symbol: string, tf: string, count: int, max: int)
    : (r: Result<Option<seq<Bar>>>)
    ensures r.Ok? ==> r.value.None?
    ensures r == Ok(None) <==> |ChunkLoop(rates, symbol, tf, count, 0, max).chunks| == 0
    ensures r.Raised? ==> r.error == DropDuplicatesError
  {
    if |ChunkLoop(rates, symbol, tf, count, 0, max).chunks| == 0 then Ok(None)
    else Raised(DropDuplicatesError)
  }

  /** `_fetch_large_ohlcv` as evidently intended: `None` when no chunk was
      collected, otherwise the collected candles sorted by time without
      repeated times: each a collected candle, every collected timestamp
      present. */
  function FetchLarge(rates: RatesCall -> Reply, symbol: string, tf: string, count: int, max: int)
    : (r: Option<seq<Bar>>)
    ensures r.Some? ==> |r.value| > 0 && AscendingTimes(r.value)
    ensures r.None? <==> |ChunkLoop(rates, symbol, tf, count, 0, max).chunks| == 0
    ensures r.Some? ==> var all := Flatten(ChunkLoop(rates, symbol, tf, count, 0, max).chunks);
              && (forall b :: b in r.value ==> b in all)
              && (forall x :: x in all ==> exists b :: b in r.value && b.time == x.time)
  {
    var chunks := ChunkLoop(rates, symbol, tf, count, 0, max).chunks;
    if |chunks| == 0 then None
    else
      var all := Flatten(chunks);
      assert chunks[0][0] in all;
      var r := SortDedup(all);
      assert r != [] by {
        var b :| b in r && b.time == chunks[0][0].time;
      }
      Some(r)
  }

  /** The two differ exactly where the intended version has candles to
      return: there the code as written raises instead. */
  lemma FetchLargeDiscrepancy(rates: RatesCall -> Reply, symbol: string, tf: string, count: int, max: int)
    ensures FetchLarge(rates, symbol, tf, count, max).None? <==> FetchLargeAsWritten(rates, symbol, tf, count, max) == Ok(None)
    ensures FetchLarge(rates, symbol, tf, count, max).Some? <==>
            FetchLargeAsWritten(rates, symbol, tf, count, max) == Raised(DropDuplicatesError)
  {
  }

  /** The pagination loop of `_fetch_large_ohlcv` as written: returns its
      outcome and the requests it made, which are those of the recursive
      definition. */
  method FetchLargeOhlcv(term: Terminal, symbol: string, tf: string, count: int, max: int)
    returns (rows: Result<Option<seq<Bar>>>, calls: seq<RatesCall>)
    ensures calls == ChunkLoop(term.rates, symbol, tf, count, 0, max).calls
    ensures rows == FetchLargeAsWritten(term.rates, symbol, tf, count, max)
  {
    var chunks: seq<seq<Bar>> := [];
    calls := [];
    var remaining := count;
    var position := 0;
    ghost var whole := ChunkLoop(term.rates, symbol, tf, count, 0, max);
    while remaining > 0
      invariant whole == Chunked(chunks + ChunkLoop(term.rates, symbol, tf, remaining, position, max).chunks,
                                 calls + ChunkLoop(term.rates, symbol, tf, remaining, position, max).calls)
      decreases remaining
    {
      ghost var rest := ChunkLoop(term.rates, symbol, tf, remaining, position, max);
      var size := Min(remaining, max);
      var call := CopyFromPos(symbol, tf, position, size);
      var reply := term.rates(call);
      if !reply.Rates? || |reply.bars| == 0 {
        ChunkedLast(whole, chunks, calls, rest, [], call);
        calls := calls + [call];
        break;
      }
      if |reply.bars| < size {
        ChunkedLast(whole, chunks, calls, rest, [reply.bars], call);
        chunks := chunks + [reply.bars];
        calls := calls + [call];
        break;
      }
      ghost var next := ChunkLoop(term.rates, symbol, tf, remaining - |reply.bars|, position + |reply.bars|, max);
      ChunkedAppend(whole, chunks, calls, rest, reply.bars, call, next);
      chunks := chunks + [reply.bars];
      calls := calls + [call];
      position := position + |reply.bars|;
      remaining := remaining - |reply.bars|;
    }
    if remaining <= 0 {
      ChunkedDone(whole, chunks, calls, ChunkLoop(term.rates, symbol, tf, remaining, position, max));
    }
    assert whole == Chunked(chunks, calls);
    if |chunks| == 0 {
      rows := Ok(None);
    } else {
      rows := Raised(DropDuplicatesError);
    }
  }

  /** A loop outcome split as what was collected before a request plus
      what that request and the ones after it collect. */
  lemma ChunkedAppend(whole: Chunked, chunks: seq<seq<Bar>>, calls: seq<RatesCall>, rest: Chunked,
                      bars: seq<Bar>, call: RatesCall, next: Chunked)
    requires whole == Chunked(chunks + rest.chunks, calls + rest.calls)
    requires rest == Chunked([bars] + next.chunks, [call] + next.calls)
    ensures whole == Chunked((chunks + [bars]) + next.chunks, (calls + [call]) + next.calls)
  {
    assert chunks + rest.chunks == (chunks + [bars]) + next.chunks;
    assert calls + rest.calls == (calls + [call]) + next.calls;
  }

  /** The same split when `rest` ends with its first request. */
  lemma ChunkedLast(whole: Chunked, chunks: seq<seq<Bar>>, calls: seq<RatesCall>, rest: Chunked,
                    last: seq<seq<Bar>>, call: RatesCall)
    requires whole == Chunked(chunks + rest.chunks, calls + rest.calls)
    requires rest == Chunked(last, [call])
    ensures whole == Chunked(chunks + last, calls + [call])
    ensures last == [] ==> whole == Chunked(chunks, calls + [call])
  {
    if last == [] {
      assert chunks + last == chunks;
    }
  }

  /** The same split when `rest` makes no request. */
  lemma ChunkedDone(whole: Chunked, chunks: seq<seq<Bar>>, calls: seq<RatesCall>, rest: Chunked)
    requires whole == Chunked(chunks + rest.chunks, calls + rest.calls)
    requires rest == Chunked([], [])
    ensures whole == Chunked(chunks, calls)
  {
    assert chunks + rest.chunks == chunks && calls + rest.calls == calls;
  }

  // ---------------------------------------------------------------------
  // fetch_ohlcv
  // ---------------------------------------------------------------------

  /** The two kinds of request `fetch_ohlcv` builds. */
  datatype Request = RangeRequest(from: int, to: int) | CountRequest(count: int)

  /** The request `fetch_ohlcv` builds as written: a range from `start` to
      `end` (default `now`) when a start is given, else a count request when
      a count is given, else none at all: the branch for neither reads the
      configured start date (raising when it is absent) but builds no
      request. */
  function RequestAsWritten(f: Fetcher, start: Option<int>, end: Option<int>, count: Option<int>, now: int)
    : (r: Result<Option<Request>>)
    ensures r.Raised? <==> start.None? && count.None? && f.startDate.None?
    ensures r == Ok(None) <==> start.None? && count.None? && f.startDate.Some?
    ensures start.Some? ==> r == Ok(Some(RangeRequest(start.value, end.GetOr(now))))
    ensures start.None? && count.Some? ==> r == Ok(Some(CountRequest(count.value)))
  {
    if start.None? then
      if count.None? then
        if f.startDate.None? then Raised("KeyError: start_date") else Ok(None)
      else Ok(Some(CountRequest(count.value)))
    else Ok(Some(RangeRequest(start.value, end.GetOr(now))))
  }

  /** The request `fetch_ohlcv` evidently means to build: as written, except
      that with neither start nor count it requests the range from the
      configured start date to `end` (default `now`). */
  function RequestFor(f: Fetcher, start: Option<int>, end: Option<int>, count: Option<int>, now: int)
    : (r: Result<Option<Request>>)
    ensures r.Raised? <==> start.None? && count.None? && f.startDate.None?
    ensures r.Ok? ==> r.value.Some?
    ensures start.None? && count.None? && f.startDate.Some? ==>
              r == Ok(Some(RangeRequest(f.startDate.value, end.GetOr(now))))
    ensures !(start.None? && count.None?) ==> r == RequestAsWritten(f, start, end, count, now)
  {
    if start.None? && count.None? then
      if f.startDate.None? then Raised("KeyError: start_date")
      else Ok(Some(RangeRequest(f.startDate.value, end.GetOr(now))))
    else RequestAsWritten(f, start, end, count, now)
  }

  /** The outcome of `fetch_ohlcv`: the candles (`None` for "no data"), or
      the exception it lets escape; the requests it made; the fetcher after. */
  datatype Download = Download(result: Result<Option<seq<Bar>>>, calls: seq<RatesCall>, fetcher: Fetcher)

  /** Whether `fetch_ohlcv` gets past its checks: a connection, a known
      symbol, a valid timeframe. */
  predicate Reachable(f: Fetcher, term: Terminal, symbol: string, tf: string) {
    (f.initialized || term.up || term.accepts) && symbol in term.symbols && tf in Mt5Timeframes
  }

  /** The request is a count above the maximum and the chunked loop
      collects at least one chunk for it. */
  predicate ChunkedWithData(f: Fetcher, term: Terminal, symbol: string, tf: string, req: Result<Option<Request>>) {
    && f.maxCandles.Some? && req.Ok? && req.value.Some? && req.value.value.CountRequest?
    && req.value.value.count > f.maxCandles.value
    && |ChunkLoop(term.rates, symbol, tf, req.value.value.count, 0, f.maxCandles.value).chunks| > 0
  }

  /** `fetch_ohlcv` from the point where the request has been built (or
      has failed to be): connection, symbol and timeframe checks, the
      max-candles setting, then one request, or the chunked loop for a count
      above the maximum (as written when `asWritten`, else as intended).  A
      reply without candles, or a failed request, gives `None`. */
  function Dispatch(f: Fetcher, term: Terminal, symbol: string, tf: string, req: Result<Option<Request>>,
                    asWritten: bool): (r: Download)
    ensures r.fetcher == Initialize(f, term).1
    ensures !Reachable(f, term, symbol, tf) ==> r.result == Ok(None) && r.calls == []
    ensures r.result.Ok? && r.result.value.Some? ==> |r.result.value.value| > 0
    ensures Reachable(f, term, symbol, tf) ==>
              && (req.Raised? || f.maxCandles.None? || req.value.None? || (asWritten && ChunkedWithData(f, term, symbol, tf, req))
                  <==> r.result.Raised?)
              && (r.result.Raised? && !ChunkedWithData(f, term, symbol, tf, req) ==> r.calls == [])
  {
    var (ok, f1) := Initialize(f, term);
    if !ok || symbol !in term.symbols || tf !in Mt5Timeframes then Download(Ok(None), [], f1)
    else if req.Raised? then Download(Raised(req.error), [], f1)
    else if f.maxCandles.None? then Download(Raised("KeyError: max_candles_per_request"), [], f1)
    else match req.value
      case None => Download(Raised("UnboundLocalError: rate_args"), [], f1)
      case Some(CountRequest(count)) =>
        if count > f.maxCandles.value then
          var chunked := ChunkLoop(term.rates, symbol, tf, count, 0, f.maxCandles.value);
          var large := if asWritten then FetchLargeAsWritten(term.rates, symbol, tf, count, f.maxCandles.value)
                       else Ok(FetchLarge(term.rates, symbol, tf, count, f.maxCandles.value));
          Download(large, chunked.calls, f1)
        else
          var call := CopyFromPos(symbol, tf, 0, count);
          Download(Ok(ReplyCandles(term.rates(call))), [call], f1)
      case Some(RangeRequest(from, to)) =>
        var call := CopyRange(symbol, tf, from, to);
        Download(Ok(ReplyCandles(term.rates(call))), [call], f1)
  }

  /** What one plain request yields: its candles when there are any. */
  function ReplyCandles(reply: Reply): (r: Option<seq<Bar>>)
    ensures r.Some? <==> reply.Rates? && |reply.bars| > 0
    ensures r.Some? ==> r.value == reply.bars
  {
    if reply.Rates? && |reply.bars| > 0 then Some(reply.bars) else None
  }

  /** `fetch_ohlcv` as written.  No connection, an unknown symbol or an
      unmapped timeframe give `None` without a request; a missing maximum
      raises; neither start nor count raises without a request; a start
      gives one range request; a count within the maximum one request for
      the latest candles; a larger count runs the chunked loop, which raises
      once it has collected a chunk and never returns candles. */
  function FetchOhlcvAsWritten(f: Fetcher, term: Terminal, symbol: string, tf: string, start: Option<int>,
                               end: Option<int>, count: Option<int>, now: int): (r: Download)
    ensures r.fetcher == Initialize(f, term).1
    ensures !Reachable(f, term, symbol, tf) ==> r.result == Ok(None) && r.calls == []
    ensures Reachable(f, term, symbol, tf) && start.None? && count.None? ==> r.result.Raised? && r.calls == []
    ensures Reachable(f, term, symbol, tf) && f.maxCandles.None? ==> r.result.Raised? && r.calls == []
    ensures Reachable(f, term, symbol, tf) && f.maxCandles.Some? ==>
              && (start.Some? ==>
                    var call := CopyRange(symbol, tf, start.value, end.GetOr(now));
                    r.calls == [call] && r.result == Ok(ReplyCandles(term.rates(call))))
              && (start.None? && count.Some? && count.value <= f.maxCandles.value ==>
                    var call := CopyFromPos(symbol, tf, 0, count.value);
                    r.calls == [call] && r.result == Ok(ReplyCandles(term.rates(call))))
              && (start.None? && count.Some? && count.value > f.maxCandles.value ==>
                    && r.calls == ChunkLoop(term.rates, symbol, tf, count.value, 0, f.maxCandles.value).calls
                    && r.result == FetchLargeAsWritten(term.rates, symbol, tf, count.value, f.maxCandles.value)
                    && (r.result.Ok? ==> r.result.value.None?))
  {
    Dispatch(f, term, symbol, tf, RequestAsWritten(f, start, end, count, now), true)
  }

  /** `fetch_ohlcv` as evidently intended: with neither start nor count the
      configured start date is the start of a range request, and the
      chunked loop returns the collected candles sorted by time without
      repeated times.  A timeframe outside the nine MT5 names, an unknown
      symbol or no connection give `None` without any request.  Otherwise a
      start date gives one range request up to `end` (default `now`); a
      count within the maximum gives one request for the `count` latest
      candles; a larger count goes through the chunked loop.  The result is
      `None` exactly when the request yields no candles. */
  function FetchOhlcv(f: Fetcher, term: Terminal, symbol: string, tf: string, start: Option<int>,
                      end: Option<int>, count: Option<int>, now: int): (r: Download)
    ensures r.fetcher == Initialize(f, term).1
    ensures tf !in Mt5Timeframes ==> r.result == Ok(None) && r.calls == []
    ensures !Reachable(f, term, symbol, tf) ==> r.result == Ok(None) && r.calls == []
    ensures r.result.Ok? && r.result.value.Some? ==> |r.result.value.value| > 0
    ensures Reachable(f, term, symbol, tf) ==>
              (r.result.Raised? <==> f.maxCandles.None? || (start.None? && count.None? && f.startDate.None?))
    ensures Reachable(f, term, symbol, tf) && f.maxCandles.Some? ==>
              && (start.Some? ==>
                    var call := CopyRange(symbol, tf, start.value, end.GetOr(now));
                    r.calls == [call] && r.result == Ok(ReplyCandles(term.rates(call))))
              && (start.None? && count.None? && f.startDate.Some? ==>
                    var call := CopyRange(symbol, tf, f.startDate.value, end.GetOr(now));
                    r.calls == [call] && r.result == Ok(ReplyCandles(term.rates(call))))
              && (start.None? && count.Some? && count.value <= f.maxCandles.value ==>
                    var call := CopyFromPos(symbol, tf, 0, count.value);
                    r.calls == [call] && r.result == Ok(ReplyCandles(term.rates(call))))
              && (start.None? && count.Some? && count.value > f.maxCandles.value ==>
                    && r.calls == ChunkLoop(term.rates, symbol, tf, count.value, 0, f.maxCandles.value).calls
                    && r.result == Ok(FetchLarge(term.rates, symbol, tf, count.value, f.maxCandles.value)))
  {
    Dispatch(f, term, symbol, tf, RequestFor(f, start, end, count, now), false)
  }

  /** The two make the same requests whenever a start or a count is given,
      and give the same outcome except for a count above the maximum whose
      chunked loop collects candles: the code as written raises there, the
      intended version returns them. */
  lemma FetchAgreesWithAsWritten(f: Fetcher, term: Terminal, symbol: string, tf: string, start: Option<int>,
                                 end: Option<int>, count: Option<int>, now: int)
    requires start.Some? || count.Some?
    ensures var a := FetchOhlcvAsWritten(f, term, symbol, tf, start, end, count, now);
            var c := FetchOhlcv(f, term, symbol, tf, start, end, count, now);
            && a.calls == c.calls && a.fetcher == c.fetcher
            && (var req := RequestAsWritten(f, start, end, count, now);
                if Reachable(f, term, symbol, tf) && ChunkedWithData(f, term, symbol, tf, req)
                then a.result == Raised(DropDuplicatesError) && c.result.Ok? && c.result.value.Some?
                else a.result == c.result)
  {
  }

  /** The discrepancy: a connected fetcher with a configured start date and
      maximum, asked for "M1" candles with neither start nor count, raises
      as written without making a request, while the corrected fetcher
      requests the range from the start date to now. */
  lemma NoStartNoCountExample(term: Terminal)
    requires term.up && "EURUSD" in term.symbols
    ensures var f := Fetcher(true, Some(1577836800), Some(1000));
            && FetchOhlcvAsWritten(f, term, "EURUSD", "M1", None, None, None, 1700000000).result.Raised?
            && FetchOhlcvAsWritten(f, term, "EURUSD", "M1", None, None, None, 1700000000).calls == []
            && FetchOhlcv(f, term, "EURUSD", "M1", None, None, None, 1700000000).calls
               == [CopyRange("EURUSD", "M1", 1577836800, 1700000000)]
  {
    var f := Fetcher(true, Some(1577836800), Some(1000));
    assert Reachable(f, term, "EURUSD", "M1");
  }

  /** A terminal that answers every rates request with the same one candle. */
  function OneCandleRates(bar: Bar): RatesCall -> Reply {
    (c: RatesCall) => Rates([bar])
  }

  /** Asked for two candles, one per request, such a terminal yields two
      chunks over two requests. */
  lemma TwoChunksOfOne(bar: Bar)
    ensures ChunkLoop(OneCandleRates(bar), "EURUSD", "M1", 2, 0, 1)
            == Chunked([[bar], [bar]], [CopyFromPos("EURUSD", "M1", 0, 1), CopyFromPos("EURUSD", "M1", 1, 1)])
  {
    var rates := OneCandleRates(bar);
    assert rates(CopyFromPos("EURUSD", "M1", 0, 1)) == Rates([bar]);
    assert rates(CopyFromPos("EURUSD", "M1", 1, 1)) == Rates([bar]);
    assert ChunkLoop(rates, "EURUSD", "M1", 0, 2, 1) == Chunked([], []);
    assert ChunkLoop(rates, "EURUSD", "M1", 1, 1, 1)
           == Chunked([[bar]], [CopyFromPos("EURUSD", "M1", 1, 1)]);
  }

  /** The candles of repeated chunks of one candle, sorted and deduplicated,
      are that candle once. */
  lemma DedupOfRepeatedCandle(bar: Bar)
    ensures SortDedup(Flatten([[bar], [bar]])) == [bar]
  {
    var all := Flatten([[bar], [bar]]);
    assert forall b :: b in all <==> b == bar;
    var t := FirstByTime(all);
    assert bar in all;
    assert t.Keys == {bar.time};
    assert |t| == |t.Keys| == 1;
    var r := SortDedup(all);
    assert r == TableRows(t);
    assert forall b :: b in r ==> b == bar;
    assert r[0] in r;
  }

  /** The chunked discrepancy: a fetcher allowing one candle per request,
      asked for the two latest "M1" candles of a terminal that always
      answers with the same candle, collects two chunks; as written it then
      raises, while the intended version returns that one candle. */
  lemma ChunkedCountExample()
    ensures var bar := Bar(1700000000, Ohlcv(110, 120, 100, 115, 7));
            var term := Terminal(true, true, {"EURUSD"}, OneCandleRates(bar));
            var f := Fetcher(true, None, Some(1));
            && FetchOhlcvAsWritten(f, term, "EURUSD", "M1", None, None, Some(2), 0).result == Raised(DropDuplicatesError)
            && FetchOhlcv(f, term, "EURUSD", "M1", None, None, Some(2), 0).result == Ok(Some([bar]))
            && FetchOhlcv(f, term, "EURUSD", "M1", None, None, Some(2), 0).calls
               == [CopyFromPos("EURUSD", "M1", 0, 1), CopyFromPos("EURUSD", "M1", 1, 1)]
  {
    var bar := Bar(1700000000, Ohlcv(110, 120, 100, 115, 7));
    ChunkedCountAsWritten(bar);
    ChunkedCountIntended(bar);
  }

  /** The first half of `ChunkedCountExample`: the code as written raises. */
  lemma ChunkedCountAsWritten(bar: Bar)
    ensures var term := Terminal(true, true, {"EURUSD"}, OneCandleRates(bar));
            FetchOhlcvAsWritten(Fetcher(true, None, Some(1)), term, "EURUSD", "M1", None, None, Some(2), 0).result
            == Raised(DropDuplicatesError)
  {
    var term := Terminal(true, true, {"EURUSD"}, OneCandleRates(bar));
    assert Reachable(Fetcher(true, None, Some(1)), term, "EURUSD", "M1");
    TwoChunksOfOne(bar);
  }

  /** The second half of `ChunkedCountExample`: the intended version
      returns the one candle after two requests. */
  lemma ChunkedCountIntended(bar: Bar)
    ensures var term := Terminal(true, true, {"EURUSD"}, OneCandleRates(bar));
            var d := FetchOhlcv(Fetcher(true, None, Some(1)), term, "EURUSD", "M1", None, None, Some(2), 0);
            && d.result == Ok(Some([bar]))
            && d.calls == [CopyFromPos("EURUSD", "M1", 0, 1), CopyFromPos("EURUSD", "M1", 1, 1)]
  {
    var term := Terminal(true, true, {"EURUSD"}, OneCandleRates(bar));
    assert Reachable(Fetcher(true, None, Some(1)), term, "EURUSD", "M1");
    TwoChunksOfOne(bar);
    FetchLargeOfOneCandle(bar);
  }

  /** The intended loop over the two chunks of one candle gives that candle. */
  lemma FetchLargeOfOneCandle(bar: Bar)
    ensures FetchLarge(OneCandleRates(bar), "EURUSD", "M1", 2, 1) == Some([bar])
  {
    TwoChunksOfOne(bar);
    DedupOfRepeatedCandle(bar);
  }

  // ---------------------------------------------------------------------
  // Session and timezone strings
  // ---------------------------------------------------------------------

  /** `f"{t // 60:02d}:{t % 60:02d}"` for a time in minutes since midnight. */
  function FormatClock(t: int): (r: string)
    ensures |r| >= 5 && r[|r| - 3] == ':'
    ensures ParseInt(r[..|r| - 3]) == Some(t / 60)
    ensures IsDigits(r[|r| - 2..]) && ParseInt(r[|r| - 2..]) == Some(t % 60)
    ensures 0 <= t < 6000 ==> |r| == 5
  {
    var h := ZeroPad2(t / 60);
    var m := ZeroPad2(t % 60);
    assert |m| == 2;
    var r := h + ":" + m;
    assert |r| == |h| + 3;
    assert r[..|h|] == h;
    assert r[|h| + 1..] == m;
    r
  }

  /** Text of the form "<number>:xy" splits at its last colon but two. */
  lemma HeadBeforeClockColon(r: string, hour: int)
    requires |r| >= 5 && r[|r| - 3] == ':' && ParseInt(r[..|r| - 3]) == Some(hour)
    ensures ParseInt(SplitHead(r, ':')) == Some(hour)
  {
    ParsedHasNoColon(r[..|r| - 3]);
    SplitBeforeClockColon(r);
  }

  /** Text whose only colon is the third character from the end splits there. */
  lemma SplitBeforeClockColon(r: string)
    requires |r| >= 3 && r[|r| - 3] == ':' && ':' !in r[..|r| - 3]
    ensures SplitHead(r, ':') == r[..|r| - 3]
  {
  }

  /** The market-hours parser reads back the hour of a formatted time:
      `int("hh:mm".split(":")[0])` is `t // 60`. */
  lemma FormatClockHourRoundTrip(t: int)
    ensures ParseInt(SplitHead(FormatClock(t), ':')) == Some(t / 60)
  {
    HeadBeforeClockColon(FormatClock(t), t / 60);
  }

  /** A trading session, held as its open and close in minutes since
      midnight; the "open" and "close" entries of its dictionary are those
      minutes formatted as "hh:mm". */
  datatype Session = Session(openMinutes: int, closeMinutes: int) {
    function Open(): string { FormatClock(openMinutes) }
    function Close(): string { FormatClock(closeMinutes) }
  }

  /** Python's `s[j]`: negative indices count from the end; out of range raises. */
  function PyIndex(s: seq<int>, j: int): (r: Option<int>)
    ensures r.Some? <==> -|s| <= j < |s|
    ensures 0 <= j < |s| ==> r == Some(s[j])
    ensures -|s| <= j < 0 ==> r == Some(s[|s| + j])
  {
    if 0 <= j < |s| then Some(s[j]) else if -|s| <= j < 0 then Some(s[|s| + j]) else None
  }

  /** Both lists can be read at `j`. */
  predicate Readable(opens: seq<int>, closes: seq<int>, j: int) {
    PyIndex(opens, j).Some? && PyIndex(closes, j).Some?
  }

  /** The pair at `j` is an empty session. */
  predicate EmptyAt(opens: seq<int>, closes: seq<int>, j: int)
    requires Readable(opens, closes, j)
  {
    PyIndex(opens, j).value == 0 && PyIndex(closes, j).value == 0
  }

  /** The session at `j`. */
  function SessionAt(opens: seq<int>, closes: seq<int>, j: int): Session
    requires Readable(opens, closes, j)
  {
    Session(PyIndex(opens, j).value, PyIndex(closes, j).value)
  }

  /** Both lists can be read at the `k`-th value of `day`. */
  predicate ReadableOn(opens: seq<int>, closes: seq<int>, day: int, k: int) {
    Readable(opens, closes, day * 2 + k)
  }

  /** `s` is the session of the non-empty `k`-th pair of `day`. */
  predicate SessionOn(opens: seq<int>, closes: seq<int>, day: int, k: int, s: Session) {
    && Readable(opens, closes, day * 2 + k)
    && !EmptyAt(opens, closes, day * 2 + k)
    && s == SessionAt(opens, closes, day * 2 + k)
  }

  /** The loop `for i in range(lo, n)` of `_extract_sessions` reading index
      `day * 2 + i`: an index out of range raises `IndexError`; an all-zero
      pair is skipped. */
  function SessionsFrom(opens: seq<int>, closes: seq<int>, day: int, i: int, n: int): (r: Result<seq<Session>>)
    ensures r.Ok? ==> |r.value| <= if n > i then n - i else 0
    decreases n - i
  {
    if i >= n then Ok([])
    else
      var j := day * 2 + i;
      if !Readable(opens, closes, j) then Raised("IndexError: list index out of range")
      else
        var rest := SessionsFrom(opens, closes, day, i + 1, n);
        if rest.Raised? then rest
        else if EmptyAt(opens, closes, j) then rest
        else Ok([SessionAt(opens, closes, j)] + rest.value)
  }

  /** The loop succeeds exactly when every index it reads is in range. */
  lemma {:induction false} SessionsFromRaises(opens: seq<int>, closes: seq<int>, day: int, i: int, n: int)
    ensures SessionsFrom(opens, closes, day, i, n).Ok? <==> forall k :: i <= k < n ==> ReadableOn(opens, closes, day, k)
    decreases n - i
  {
    if i < n {
      SessionsFromRaises(opens, closes, day, i + 1, n);
      assert Readable(opens, closes, day * 2 + i) <==> ReadableOn(opens, closes, day, i);
    }
  }

  /** When the loop succeeds, its sessions are exactly those of the
      non-empty pairs it reads, each formatted from its pair. */
  lemma {:induction false} SessionsFromMembers(opens: seq<int>, closes: seq<int>, day: int, i: int, n: int)
    requires SessionsFrom(opens, closes, day, i, n).Ok?
    ensures forall s :: s in SessionsFrom(opens, closes, day, i, n).value <==>
              exists k :: i <= k < n && SessionOn(opens, closes, day, k, s)
    decreases n - i
  {
    if i < n {
      var j := day * 2 + i;
      var r := SessionsFrom(opens, closes, day, i, n);
      var rest := SessionsFrom(opens, closes, day, i + 1, n);
      assert Readable(opens, closes, j) && rest.Ok?;
      SessionsFromMembers(opens, closes, day, i + 1, n);
      forall s ensures s in r.value <==> exists k :: i <= k < n && SessionOn(opens, closes, day, k, s) {
        if exists k :: i <= k < n && SessionOn(opens, closes, day, k, s) {
          var k :| i <= k < n && SessionOn(opens, closes, day, k, s);
          if k > i {
            assert s in rest.value;
          }
        }
        if s in r.value && s !in rest.value {
          assert SessionOn(opens, closes, day, i, s);
        }
      }
    }
  }

  /** The positions `k` in `[i, n)` whose pair of `day` can be read and is
      not empty, in increasing order. */
  function NonEmptyIndices(opens: seq<int>, closes: seq<int>, day: int, i: int, n: int): seq<int>
    decreases n - i
  {
    if i >= n then []
    else
      var rest := NonEmptyIndices(opens, closes, day, i + 1, n);
      if ReadableOn(opens, closes, day, i) && !EmptyAt(opens, closes, day * 2 + i) then [i] + rest
      else rest
  }

  /** `NonEmptyIndices` holds each such position once, in increasing order. */
  lemma {:induction false} NonEmptyIndicesSpec(opens: seq<int>, closes: seq<int>, day: int, i: int, n: int)
    ensures var ks := NonEmptyIndices(opens, closes, day, i, n);
            && (forall k :: k in ks <==> (i <= k < n && ReadableOn(opens, closes, day, k)
                                          && !EmptyAt(opens, closes, day * 2 + k)))
            && (forall a, b :: 0 <= a < b < |ks| ==> ks[a] < ks[b])
    decreases n - i
  {
    if i < n {
      NonEmptyIndicesSpec(opens, closes, day, i + 1, n);
      var rest := NonEmptyIndices(opens, closes, day, i + 1, n);
      assert forall a :: 0 <= a < |rest| ==> i < rest[a] by {
        forall a | 0 <= a < |rest| ensures i < rest[a] {
          assert rest[a] in rest;
        }
      }
    }
  }

  /** One step of `NonEmptyIndices`. */
  lemma NonEmptyIndicesStep(opens: seq<int>, closes: seq<int>, day: int, i: int, n: int)
    requires i < n && ReadableOn(opens, closes, day, i)
    ensures NonEmptyIndices(opens, closes, day, i, n) ==
              if EmptyAt(opens, closes, day * 2 + i) then NonEmptyIndices(opens, closes, day, i + 1, n)
              else [i] + NonEmptyIndices(opens, closes, day, i + 1, n)
  {
  }

  /** One step of a successful loop: an empty pair adds nothing, any other
      pair puts its session in front of the rest. */
  lemma SessionsFromStep(opens: seq<int>, closes: seq<int>, day: int, i: int, n: int)
    requires i < n && SessionsFrom(opens, closes, day, i, n).Ok?
    ensures Readable(opens, closes, day * 2 + i) && SessionsFrom(opens, closes, day, i + 1, n).Ok?
    ensures var r := SessionsFrom(opens, closes, day, i, n).value;
            var rest := SessionsFrom(opens, closes, day, i + 1, n).value;
            if EmptyAt(opens, closes, day * 2 + i) then r == rest
            else r == [SessionAt(opens, closes, day * 2 + i)] + rest
  {
  }

  /** `r` holds the sessions of the positions `ks` of `day`, one each, in
      the same order. */
  predicate SessionsAtPositions(opens: seq<int>, closes: seq<int>, day: int, r: seq<Session>, ks: seq<int>) {
    && |r| == |ks|
    && forall j :: 0 <= j < |ks| ==>
         ReadableOn(opens, closes, day, ks[j]) && r[j] == SessionAt(opens, closes, day * 2 + ks[j])
  }

  /** Sessions in the order of their positions stay so when the session
      of an earlier position is put in front. */
  lemma SessionsInOrderCons(opens: seq<int>, closes: seq<int>, day: int, i: int, rest: seq<Session>, ks: seq<int>)
    requires ReadableOn(opens, closes, day, i)
    requires SessionsAtPositions(opens, closes, day, rest, ks)
    ensures SessionsAtPositions(opens, closes, day, [SessionAt(opens, closes, day * 2 + i)] + rest, [i] + ks)
  {
    var r := [SessionAt(opens, closes, day * 2 + i)] + rest;
    forall j | 0 <= j < |[i] + ks|
      ensures ReadableOn(opens, closes, day, ([i] + ks)[j]) && r[j] == SessionAt(opens, closes, day * 2 + ([i] + ks)[j])
    {
      if j > 0 {
        assert ([i] + ks)[j] == ks[j - 1] && r[j] == rest[j - 1];
      }
    }
  }

  /** When the loop succeeds, its sessions are those of the non-empty
      pairs it reads, one each, in the order it reads them. */
  lemma {:induction false} SessionsFromInOrder(opens: seq<int>, closes: seq<int>, day: int, i: int, n: int)
    requires SessionsFrom(opens, closes, day, i, n).Ok?
    ensures SessionsAtPositions(opens, closes, day, SessionsFrom(opens, closes, day, i, n).value,
                                NonEmptyIndices(opens, closes, day, i, n))
    decreases n - i
  {
    if i < n {
      SessionsFromStep(opens, closes, day, i, n);
      SessionsFromInOrder(opens, closes, day, i + 1, n);
      SessionsInOrderStep(opens, closes, day, i, n);
    }
  }

  /** The step of `SessionsFromInOrder`: from the sessions after position
      `i` to those from `i`. */
  lemma SessionsInOrderStep(opens: seq<int>, closes: seq<int>, day: int, i: int, n: int)
    requires i < n && SessionsFrom(opens, closes, day, i, n).Ok?
    requires ReadableOn(opens, closes, day, i) && SessionsFrom(opens, closes, day, i + 1, n).Ok?
    requires SessionsAtPositions(opens, closes, day, SessionsFrom(opens, closes, day, i + 1, n).value,
                                 NonEmptyIndices(opens, closes, day, i + 1, n))
    ensures SessionsAtPositions(opens, closes, day, SessionsFrom(opens, closes, day, i, n).value,
                                NonEmptyIndices(opens, closes, day, i, n))
  {
    SessionsFromStep(opens, closes, day, i, n);
    NonEmptyIndicesStep(opens, closes, day, i, n);
    if !EmptyAt(opens, closes, day * 2 + i) {
      SessionsInOrderCons(opens, closes, day, i, SessionsFrom(opens, closes, day, i + 1, n).value,
                          NonEmptyIndices(opens, closes, day, i + 1, n));
    }
  }

  /** Both facts together. */
  lemma SessionsFromSpec(opens: seq<int>, closes: seq<int>, day: int, i: int, n: int)
    ensures var r := SessionsFrom(opens, closes, day, i, n);
            && (r.Ok? <==> forall k :: i <= k < n ==> ReadableOn(opens, closes, day, k))
            && (r.Ok? ==> forall s :: s in r.value <==> exists k :: i <= k < n && SessionOn(opens, closes, day, k, s))
            && (r.Ok? ==> var ks := NonEmptyIndices(opens, closes, day, i, n);
                  && (forall k :: k in ks <==> (i <= k < n && ReadableOn(opens, closes, day, k)
                                                    && !EmptyAt(opens, closes, day * 2 + k)))
                  && (forall a, b :: 0 <= a < b < |ks| ==> ks[a] < ks[b])
                  && |r.value| == |ks|
                  && forall j :: 0 <= j < |ks| ==>
                       ReadableOn(opens, closes, day, ks[j]) && r.value[j] == SessionAt(opens, closes, day * 2 + ks[j]))
  {
    SessionsFromRaises(opens, closes, day, i, n);
    if SessionsFrom(opens, closes, day, i, n).Ok? {
      SessionsFromMembers(opens, closes, day, i, n);
      SessionsFromInOrder(opens, closes, day, i, n);
      NonEmptyIndicesSpec(opens, closes, day, i, n);
    }
  }

  /** `_extract_sessions` as written: no sessions when either list is empty,
      otherwise the loop over `range(len(opens) // 2)`. */
  function ExtractSessionsAsWritten(opens: seq<int>, closes: seq<int>, day: int): (r: Result<seq<Session>>)
    ensures |opens| == 0 || |closes| == 0 ==> r == Ok([])
    ensures r.Ok? ==> |r.value| <= |opens| / 2
  {
    if |opens| == 0 || |closes| == 0 then Ok([])
    else SessionsFrom(opens, closes, day, 0, |opens| / 2)
  }

  /** `_extract_sessions` reading the two values MT5 stores per day, at
      `day * 2` and `day * 2 + 1`: no sessions when either list is empty;
      otherwise `IndexError` exactly when one of those indices is out of
      range, and else one session per non-empty pair, in index order, at
      most two. */
  function ExtractSessions(opens: seq<int>, closes: seq<int>, day: int): (r: Result<seq<Session>>)
    ensures |opens| == 0 || |closes| == 0 ==> r == Ok([])
    ensures |opens| > 0 && |closes| > 0 ==>
              (r.Ok? <==> ReadableOn(opens, closes, day, 0) && ReadableOn(opens, closes, day, 1))
    ensures r.Ok? ==> |r.value| <= 2
    ensures |opens| > 0 && |closes| > 0 && r.Ok? ==>
              forall s :: s in r.value <==> exists k :: 0 <= k < 2 && SessionOn(opens, closes, day, k, s)
    ensures |opens| > 0 && |closes| > 0 && r.Ok? ==>
              var ks := NonEmptyIndices(opens, closes, day, 0, 2);
              && (forall k :: k in ks <==> (0 <= k < 2 && ReadableOn(opens, closes, day, k)
                                                    && !EmptyAt(opens, closes, day * 2 + k)))
              && (forall a, b :: 0 <= a < b < |ks| ==> ks[a] < ks[b])
              && |r.value| == |ks|
              && forall j :: 0 <= j < |ks| ==>
                   ReadableOn(opens, closes, day, ks[j]) && r.value[j] == SessionAt(opens, closes, day * 2 + ks[j])
  {
    if |opens| == 0 || |closes| == 0 then Ok([])
    else
      SessionsFromSpec(opens, closes, day, 0, 2);
      SessionsFrom(opens, closes, day, 0, 2)
  }

  /** The discrepancy: with the fourteen values of a week (two per day,
      Monday to Thursday opening at 01:00 and closing at 22:00, Friday
      closing at 21:00), reading Friday's sessions as written steps past the
      end of the lists and raises, while reading Friday's two values gives
      its one session. */
  lemma WeekOfSessionsExample()
    ensures var opens := [60, 0, 60, 0, 60, 0, 60, 0, 60, 0, 0, 0, 0, 0];
            var closes := [1320, 0, 1320, 0, 1320, 0, 1320, 0, 1260, 0, 0, 0, 0, 0];
            && ExtractSessionsAsWritten(opens, closes, 4).Raised?
            && ExtractSessions(opens, closes, 4) == Ok([Session(60, 1260)])
            && Session(60, 1260).Open() == "01:00" && Session(60, 1260).Close() == "21:00"
  {
    var opens := [60, 0, 60, 0, 60, 0, 60, 0, 60, 0, 0, 0, 0, 0];
    var closes := [1320, 0, 1320, 0, 1320, 0, 1320, 0, 1260, 0, 0, 0, 0, 0];
    SessionsFromRaises(opens, closes, 4, 0, 7);
    assert !ReadableOn(opens, closes, 4, 6);
    assert |opens| / 2 == 7;
    assert ExtractSessionsAsWritten(opens, closes, 4).Raised?;
    assert SessionsFrom(opens, closes, 4, 1, 2) == Ok([]);
    assert Readable(opens, closes, 8) && !EmptyAt(opens, closes, 8);
    assert SessionAt(opens, closes, 8) == Session(60, 1260);
    assert [Session(60, 1260)] + [] == [Session(60, 1260)];
    assert SessionsFrom(opens, closes, 4, 0, 2) == Ok([Session(60, 1260)]);
    FridayClockTexts();
  }

  /** 60 and 1260 minutes are "01:00" and "21:00". */
  lemma FridayClockTexts()
    ensures FormatClock(60) == "01:00" && FormatClock(1260) == "21:00"
  {
    assert ZeroPad2(1) == "01" && ZeroPad2(0) == "00";
    assert NatToString(21) == "21";
    assert ZeroPad2(21) == "21";
  }

  /** The timezone label of `get_trading_hours`: "GMT+" and the hours for a
      non-negative offset, "GMT" and the (negative, floored) hours otherwise.
      The text after "GMT" reads back as the floored hour offset, and carries
      a '+' exactly when the offset is not negative. */
  function TimezoneLabel(tz: int): (r: string)
    ensures |r| > 3 && r[..3] == "GMT"
    ensures ParseInt(r[3..]) == Some(tz / 3600)
    ensures r[3] == '+' <==> tz >= 0
    ensures r[3] == '-' <==> tz < 0
  {
    ParseIntRoundTrip(tz / 3600);
    if tz >= 0 then
      NatToStringRoundTrip(tz / 3600);
      var r := "GMT+" + IntToString(tz / 3600);
      assert r[3..] == "+" + NatToString(tz / 3600);
      assert r[3..][1..] == NatToString(tz / 3600);
      r
    else
      var r := "GMT" + IntToString(tz / 3600);
      assert r[3..] == IntToString(tz / 3600);
      r
  }
}
