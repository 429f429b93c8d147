/** `DataUpdater` (data/updater.py): keeping the one-minute price tables
    current.  For every configured pair the latest candles are fetched and
    stored, and the holes the gap scan finds in the pair's one-minute table
    are filled from the terminal; a scheduled run repeats the update of all
    pairs until a round succeeds or the configured attempts are used up.

    The updater's thread pool becomes a sequential pass over the pairs in
    the order they were submitted; sleeping is recorded, not performed; the
    current instant is the parameter `now`. */
module Updater {
  import opened Wrappers
  import opened Keys
  import opened Clock
  import opened Candles
  import opened MarketHours
  import opened PriceStore
  import opened GapScan
  import opened Fetcher

  /** A `DataUpdater`: its fetcher and its data manager.  The terminal
      behind the fetcher is a separate parameter of every operation, since
      nothing the updater does changes it.  The updater and its data manager load the same
      configuration, so the calendar the updater's own weekend test reads is
      the manager's. */
  datatype DataUpdater = DataUpdater(fetcher: Fetcher, mgr: Manager)

  /** The boolean an updater operation returns and the updater after it. */
  datatype Step = Step(ok: bool, upd: DataUpdater)

  /** What no updater operation changes: the configuration,
      the fetcher's settings and whether the database is reachable; and no
      stored candle is lost or altered. */
  predicate Evolves(u: DataUpdater, v: DataUpdater) {
    && v.mgr.config == u.mgr.config && v.mgr.db.online == u.mgr.db.online
    && v.fetcher.startDate == u.fetcher.startDate && v.fetcher.maxCandles == u.fetcher.maxCandles
    && RowsKept(u.mgr.db, v.mgr.db)
    && (CacheConsistent(u.mgr) ==> CacheConsistent(v.mgr))
  }

  lemma EvolvesTransitive(a: DataUpdater, b: DataUpdater, c: DataUpdater)
    requires Evolves(a, b) && Evolves(b, c)
    ensures Evolves(a, c)
  {
    RowsKeptTransitive(a.mgr.db, b.mgr.db, c.mgr.db);
  }

  /** Whether a connection to the terminal is or can be made. */
  predicate Linked(f: Fetcher, term: Terminal) {
    f.initialized || term.up || term.accepts
  }

  /** The candles a download yields; `None` for no candles and for an exception. */
  function Received(d: Download): (r: Option<seq<Bar>>)
    ensures r.Some? <==> d.result.Ok? && d.result.value.Some?
    ensures r.Some? ==> r.value == d.result.value.value
  {
    if d.result.Ok? then d.result.value else None
  }

  /** The one-minute table of `pair` holds every candle time of `rows`. */
  predicate HoldsTimes(db: Db, pair: string, rows: seq<Bar>) {
    TableName(pair, "1m") in db.tables && forall b :: b in rows ==> b.time in db.tables[TableName(pair, "1m")]
  }

  lemma HoldsTimesKept(a: Db, b: Db, pair: string, rows: seq<Bar>)
    requires HoldsTimes(a, pair, rows) && RowsKept(a, b)
    ensures HoldsTimes(b, pair, rows)
  {
  }

  /** Storing fetched candles as a one-minute frame: the frame carries its
      `time` index, and the manager is the updater's. */
  function StoreMinutes(u: DataUpdater, pair: string, rows: seq<Bar>): (r: Step)
    ensures Evolves(u, r.upd) && r.upd.fetcher == u.fetcher
    ensures r.ok == StorePriceData(u.mgr, pair, Frame(true, rows), "1m").ok
    ensures r.ok ==> |rows| > 0 && HoldsTimes(r.upd.mgr.db, pair, rows)
    ensures !r.ok ==> RowsUnchanged(u.mgr.db, r.upd.mgr.db)
  {
    var s := StorePriceData(u.mgr, pair, Frame(true, rows), "1m");
    Step(s.ok, u.(mgr := s.mgr))
  }

  // ---------------------------------------------------------------------
  // update_latest_data
  // ---------------------------------------------------------------------

  /** `update_latest_data`: fetch the `n` latest one-minute candles and store
      them in the pair's "1m" table.  The fetch is `fetch_ohlcv` as written:
      a count above the maximum per request goes through the chunked loop,
      which never returns candles (it raises once it has any), so such a
      call always gives false.  No candles, a refused store and an exception
      out of the fetcher (a missing maximum per request) all give false;
      true means every fetched candle is now stored. */
  function UpdateLatestData(u: DataUpdater, term: Terminal, pair: string, n: int, now: int): (r: Step)
    ensures Evolves(u, r.upd) && r.upd.fetcher == Initialize(u.fetcher, term).1
    ensures !Reachable(u.fetcher, term, pair, "M1") || u.fetcher.maxCandles.None? ==> !r.ok && r.upd.mgr == u.mgr
    ensures u.fetcher.maxCandles.Some? && n > u.fetcher.maxCandles.value ==> !r.ok && r.upd.mgr == u.mgr
    ensures var got := Received(FetchOhlcvAsWritten(u.fetcher, term, pair, "M1", None, None, Some(n), now));
            r.ok ==> got.Some? && HoldsTimes(r.upd.mgr.db, pair, got.value)
    ensures Reachable(u.fetcher, term, pair, "M1") && u.fetcher.maxCandles.Some? && n <= u.fetcher.maxCandles.value ==>
              var reply := term.rates(CopyFromPos(pair, "M1", 0, n));
              r.ok <==> reply.Rates? && |reply.bars| > 0 && StorePriceData(u.mgr, pair, Frame(true, reply.bars), "1m").ok
  {
    var d := FetchOhlcvAsWritten(u.fetcher, term, pair, "M1", None, None, Some(n), now);
    var u1 := u.(fetcher := d.fetcher);
    match Received(d)
    case None => Step(false, u1)
    case Some(rows) => StoreMinutes(u1, pair, rows)
  }

  // ---------------------------------------------------------------------
  // fill_data_gaps
  // ---------------------------------------------------------------------

  /** A gap the fill loop fetches: at most `maxGapDays` days long and, by the
      weekend test, not a weekend gap. */
  predicate Eligible(cal: Option<Calendar>, g: Gap, maxGapDays: int) {
    g.end - g.start <= maxGapDays * SecondsPerDay && IsWeekendGap(cal, g.start, g.end) == Some(false)
  }

  /** The request that fills a gap. */
  function GapCall(pair: string, g: Gap): RatesCall {
    CopyRange(pair, "M1", g.start, g.end)
  }

  /** The gap makes the fill loop raise: it is short enough to be looked at,
      and either the weekend test raises (no calendar, or an unreadable
      market hour) or the fetch for it raises (a missing maximum per request). */
  predicate RaisesOn(u: DataUpdater, term: Terminal, pair: string, g: Gap, maxGapDays: int) {
    var w := IsWeekendGap(u.mgr.config.calendar, g.start, g.end);
    && g.end - g.start <= maxGapDays * SecondsPerDay
    && (w.None? || (w == Some(false) && Reachable(u.fetcher, term, pair, "M1") && u.fetcher.maxCandles.None?))
  }

  /** The fill loop after some gaps: whether it raised, the gaps it fetched,
      those whose candles it stored, and the updater. */
  datatype Filling = Filling(raised: bool, fetched: seq<Gap>, filled: seq<Gap>, upd: DataUpdater)

  /** The loop over the gaps, oldest first.  A gap longer than `maxGapDays`
      days is skipped, then a weekend gap; the others are fetched, and
      stored when the fetch yields candles.  An exception ends the loop.
      The fetch is `fetch_ohlcv` as written, always a range request here,
      for which it agrees with the corrected fetch (`FetchAgreesWithAsWritten`). */
  function FillGaps(u: DataUpdater, term: Terminal, pair: string, gaps: seq<Gap>, maxGapDays: int, now: int): (r: Filling)
    ensures Evolves(u, r.upd)
    ensures r.upd.fetcher == u.fetcher || r.upd.fetcher == Initialize(u.fetcher, term).1
    ensures |r.filled| <= |r.fetched| <= |gaps|
    ensures forall g :: g in r.fetched ==> g in gaps && Eligible(u.mgr.config.calendar, g, maxGapDays)
    ensures forall g :: g in r.filled ==> g in r.fetched
    decreases |gaps|
  {
    if |gaps| == 0 then Filling(false, [], [], u)
    else
      var g := gaps[0];
      if g.end - g.start > maxGapDays * SecondsPerDay then FillGaps(u, term, pair, gaps[1..], maxGapDays, now)
      else match IsWeekendGap(u.mgr.config.calendar, g.start, g.end)
        case None => Filling(true, [], [], u)
        case Some(weekend) =>
          if weekend then FillGaps(u, term, pair, gaps[1..], maxGapDays, now)
          else
            var d := FetchOhlcvAsWritten(u.fetcher, term, pair, "M1", Some(g.start), Some(g.end), None, now);
            var u1 := u.(fetcher := d.fetcher);
            if d.result.Raised? then Filling(true, [g], [], u1)
            else match d.result.value
              case None =>
                var rest := FillGaps(u1, term, pair, gaps[1..], maxGapDays, now);
                rest.(fetched := [g] + rest.fetched)
              case Some(rows) =>
                var s := StoreMinutes(u1, pair, rows);
                var rest := FillGaps(s.upd, term, pair, gaps[1..], maxGapDays, now);
                EvolvesTransitive(u, s.upd, rest.upd);
                rest.(fetched := [g] + rest.fetched, filled := if s.ok then [g] + rest.filled else rest.filled)
  }

  /** No gaps, nothing done. */
  lemma FillGapsOfNone(u: DataUpdater, term: Terminal, pair: string, maxGapDays: int, now: int)
    ensures FillGaps(u, term, pair, [], maxGapDays, now) == Filling(false, [], [], u)
  {
  }

  /** Initializing keeps a fetcher linked, so whether the gap fetches get
      past their checks does not change along the loop. */
  lemma ReachableAfterInitialize(f: Fetcher, term: Terminal, pair: string)
    ensures Reachable(Initialize(f, term).1, term, pair, "M1") == Reachable(f, term, pair, "M1")
  {
  }

  /** The loop raises exactly when some gap makes it raise: it looks at
      every gap until the first one that does. */
  lemma {:induction false} FillGapsRaises(u: DataUpdater, term: Terminal, pair: string, gaps: seq<Gap>, maxGapDays: int, now: int)
    ensures FillGaps(u, term, pair, gaps, maxGapDays, now).raised <==> exists g :: g in gaps && RaisesOn(u, term, pair, g, maxGapDays)
    decreases |gaps|
  {
    if |gaps| > 0 {
      var g := gaps[0];
      var rest := gaps[1..];
      assert forall h :: h in gaps <==> h == g || h in rest;
      var cal := u.mgr.config.calendar;
      if g.end - g.start > maxGapDays * SecondsPerDay {
        FillGapsRaises(u, term, pair, rest, maxGapDays, now);
      } else if IsWeekendGap(cal, g.start, g.end) == Some(true) {
        FillGapsRaises(u, term, pair, rest, maxGapDays, now);
      } else if IsWeekendGap(cal, g.start, g.end) == Some(false) {
        var d := FetchOhlcvAsWritten(u.fetcher, term, pair, "M1", Some(g.start), Some(g.end), None, now);
        var u1 := u.(fetcher := d.fetcher);
        ReachableAfterInitialize(u.fetcher, term, pair);
        if d.result.Ok? {
          assert !RaisesOn(u, term, pair, g, maxGapDays);
          var next := if d.result.value.None? then u1 else StoreMinutes(u1, pair, d.result.value.value).upd;
          assert next.fetcher == u1.fetcher && next.mgr.config == u.mgr.config;
          FillGapsRaises(next, term, pair, rest, maxGapDays, now);
          forall h | h in rest ensures RaisesOn(next, term, pair, h, maxGapDays) == RaisesOn(u, term, pair, h, maxGapDays) {
          }
        } else {
          assert RaisesOn(u, term, pair, g, maxGapDays);
        }
      } else {
        assert RaisesOn(u, term, pair, g, maxGapDays);
      }
    }
  }

  /** Unless it raised, the loop fetched every eligible gap. */
  lemma {:induction false} FillGapsComplete(u: DataUpdater, term: Terminal, pair: string, gaps: seq<Gap>, maxGapDays: int, now: int)
    ensures var r := FillGaps(u, term, pair, gaps, maxGapDays, now);
            !r.raised ==> forall g :: g in gaps && Eligible(u.mgr.config.calendar, g, maxGapDays) ==> g in r.fetched
    decreases |gaps|
  {
    if |gaps| > 0 {
      var g := gaps[0];
      var rest := gaps[1..];
      assert forall h :: h in gaps <==> h == g || h in rest;
      var cal := u.mgr.config.calendar;
      if g.end - g.start > maxGapDays * SecondsPerDay || IsWeekendGap(cal, g.start, g.end) == Some(true) {
        FillGapsComplete(u, term, pair, rest, maxGapDays, now);
      } else if IsWeekendGap(cal, g.start, g.end) == Some(false) {
        var d := FetchOhlcvAsWritten(u.fetcher, term, pair, "M1", Some(g.start), Some(g.end), None, now);
        var u1 := u.(fetcher := d.fetcher);
        if d.result.Ok? {
          var next := if d.result.value.None? then u1 else StoreMinutes(u1, pair, d.result.value.value).upd;
          FillGapsComplete(next, term, pair, rest, maxGapDays, now);
        }
      }
    }
  }

  /** A gap counted as filled had its candles fetched by a range request,
      and the one-minute table still holds every one of them at the end. */
  lemma {:induction false} FilledGapsStored(u: DataUpdater, term: Terminal, pair: string, gaps: seq<Gap>, maxGapDays: int, now: int)
    ensures var r := FillGaps(u, term, pair, gaps, maxGapDays, now);
            forall g :: g in r.filled ==> var reply := term.rates(GapCall(pair, g));
                                         reply.Rates? && HoldsTimes(r.upd.mgr.db, pair, reply.bars)
    decreases |gaps|
  {
    if |gaps| > 0 {
      var g := gaps[0];
      var rest := gaps[1..];
      var cal := u.mgr.config.calendar;
      if g.end - g.start > maxGapDays * SecondsPerDay || IsWeekendGap(cal, g.start, g.end) == Some(true) {
        FilledGapsStored(u, term, pair, rest, maxGapDays, now);
      } else if IsWeekendGap(cal, g.start, g.end) == Some(false) {
        var d := FetchOhlcvAsWritten(u.fetcher, term, pair, "M1", Some(g.start), Some(g.end), None, now);
        var u1 := u.(fetcher := d.fetcher);
        if d.result.Ok? {
          if d.result.value.None? {
            FilledGapsStored(u1, term, pair, rest, maxGapDays, now);
          } else {
            var rows := d.result.value.value;
            assert rows == term.rates(GapCall(pair, g)).bars;
            var s := StoreMinutes(u1, pair, rows);
            var r := FillGaps(s.upd, term, pair, rest, maxGapDays, now);
            FilledGapsStored(s.upd, term, pair, rest, maxGapDays, now);
            if s.ok {
              HoldsTimesKept(s.upd.mgr.db, r.upd.mgr.db, pair, rows);
            }
          }
        }
      }
    }
  }

  /** `fill_data_gaps`: only the "1m" timeframe is filled.  The gaps the
      scan reports are filled oldest first (the scan already lists them in
      ascending order, so sorting them changes nothing); the operation
      succeeds unless it raised, however many gaps it filled. */
  function FillDataGaps(u: DataUpdater, term: Terminal, pair: string, tf: string, maxGapDays: int, now: int): (r: Step)
    ensures Evolves(u, r.upd)
    ensures tf != "1m" ==> r == Step(false, u)
    ensures tf == "1m" && |FindDataGaps(u.mgr, pair, tf).0| == 0 ==> r.ok && r.upd.fetcher == u.fetcher
    ensures tf == "1m" ==>
              var (gaps, m1) := FindDataGaps(u.mgr, pair, tf);
              r == (var f := FillGaps(u.(mgr := m1), term, pair, gaps, maxGapDays, now); Step(!f.raised, f.upd))
  {
    if tf != "1m" then Step(false, u)
    else
      var (gaps, m1) := FindDataGaps(u.mgr, pair, tf);
      var u1 := u.(mgr := m1);
      if |gaps| == 0 then
        FillGapsOfNone(u1, term, pair, maxGapDays, now);
        Step(true, u1)
      else
        var f := FillGaps(u1, term, pair, gaps, maxGapDays, now);
        EvolvesTransitive(u, u1, f.upd);
        Step(!f.raised, f.upd)
  }

  /** The gaps the scan reports are already sorted by their start. */
  lemma FoundGapsSortedByStart(m: Manager, pair: string, tf: string)
    ensures var gaps := FindDataGaps(m, pair, tf).0;
            forall j, k :: 0 <= j < k < |gaps| ==> gaps[j].start < gaps[k].start
  {
    var gaps := FindDataGaps(m, pair, tf).0;
    forall j, k | 0 <= j < k < |gaps| ensures gaps[j].start < gaps[k].start {
      assert gaps[j].start < gaps[j].end <= gaps[k].start;
    }
  }

  /** What filling the one-minute gaps of a pair achieves.  The updater's
      own weekend test repeats the scan's test with the same calendar, so it
      never skips a reported gap and never raises: every reported gap of at
      most `maxGapDays` days is fetched, and the operation fails only when the
      fetcher lacks its maximum per request (and some such gap reaches it). */
  lemma FillDataGapsOutcome(u: DataUpdater, term: Terminal, pair: string, maxGapDays: int, now: int)
    ensures var (gaps, m1) := FindDataGaps(u.mgr, pair, "1m");
            var r := FillDataGaps(u, term, pair, "1m", maxGapDays, now);
            && (!r.ok <==> && Reachable(u.fetcher, term, pair, "M1") && u.fetcher.maxCandles.None?
                           && exists g :: g in gaps && g.end - g.start <= maxGapDays * SecondsPerDay)
            && (r.ok ==> forall g :: g in gaps && g.end - g.start <= maxGapDays * SecondsPerDay ==>
                           g in FillGaps(u.(mgr := m1), term, pair, gaps, maxGapDays, now).fetched)
  {
    var (gaps, m1) := FindDataGaps(u.mgr, pair, "1m");
    var u1 := u.(mgr := m1);
    FoundGapsAreNotWeekend(u.mgr, pair, "1m");
    FillGapsRaises(u1, term, pair, gaps, maxGapDays, now);
    FillGapsComplete(u1, term, pair, gaps, maxGapDays, now);
    forall g | g in gaps ensures IsWeekendGap(u1.mgr.config.calendar, g.start, g.end) == Some(false) {
    }
  }

  // ---------------------------------------------------------------------
  // _update_single_pair and update_all_pairs
  // ---------------------------------------------------------------------

  /** `max_candles_per_request` as the updater reads it, 1000 when absent. */
  const DefaultLatestCount: int := 1000

  /** Gaps longer than this many days are not filled. */
  const MaxGapDays: int := 30

  /** `_update_single_pair`: the latest-data update and the gap filling, each
      when requested.  Both run when both are requested, the gap filling
      after (and whatever the outcome of) the latest-data update; the pair
      succeeds when every requested part did. */
  function UpdateSinglePair(u: DataUpdater, term: Terminal, pair: string, latest: bool, fill: bool, now: int): (r: Step)
    ensures Evolves(u, r.upd)
    ensures !latest && !fill ==> r == Step(true, u)
    ensures var l := UpdateLatestData(u, term, pair, u.fetcher.maxCandles.GetOr(DefaultLatestCount), now);
            var g := FillDataGaps(if latest then l.upd else u, term, pair, "1m", MaxGapDays, now);
            r.ok <==> (latest ==> l.ok) && (fill ==> g.ok)
    ensures latest && r.ok ==> exists rows: seq<Bar> :: |rows| > 0 && HoldsTimes(r.upd.mgr.db, pair, rows)
  {
    var l := if latest then UpdateLatestData(u, term, pair, u.fetcher.maxCandles.GetOr(DefaultLatestCount), now)
             else Step(true, u);
    var g := if fill then FillDataGaps(l.upd, term, pair, "1m", MaxGapDays, now) else Step(true, l.upd);
    EvolvesTransitive(u, l.upd, g.upd);
    assert latest && l.ok ==> exists rows: seq<Bar> :: |rows| > 0 && HoldsTimes(g.upd.mgr.db, pair, rows) by {
      if latest && l.ok {
        var got := Received(FetchOhlcvAsWritten(u.fetcher, term, pair, "M1", None, None,
                                                Some(u.fetcher.maxCandles.GetOr(DefaultLatestCount)), now));
        HoldsTimesKept(l.upd.mgr.db, g.upd.mgr.db, pair, got.value);
        assert |got.value| > 0;
      }
    }
    Step(l.ok && g.ok, g.upd)
  }

  /** The latest-data update asks for exactly the configured maximum, so it
      is always one request for the latest candles, never the chunked loop. */
  lemma LatestUpdateIsOneRequest(u: DataUpdater, term: Terminal, pair: string, now: int)
    requires Reachable(u.fetcher, term, pair, "M1") && u.fetcher.maxCandles.Some?
    ensures var n := u.fetcher.maxCandles.GetOr(DefaultLatestCount);
            FetchOhlcvAsWritten(u.fetcher, term, pair, "M1", None, None, Some(n), now).calls == [CopyFromPos(pair, "M1", 0, n)]
  {
  }

  /** The names `ensure_currency_pairs` enters into its dictionary, in the
      order it first enters them: configuration order, each name once,
      leaving out the names in `seen`. */
  function PairOrder(cfgs: seq<PairConfig>, seen: set<string>): (r: seq<string>)
    ensures forall n :: n in r <==> n in ConfiguredNames(cfgs) && n !in seen
    ensures forall i, j :: 0 <= i < j < |r| ==> r[i] != r[j]
  {
    if |cfgs| == 0 then []
    else
      assert forall n :: n in ConfiguredNames(cfgs) <==> (cfgs[0].name == Some(n) || n in ConfiguredNames(cfgs[1..])) by {
        forall n ensures n in ConfiguredNames(cfgs) ==> (cfgs[0].name == Some(n) || n in ConfiguredNames(cfgs[1..])) {
          if n in ConfiguredNames(cfgs) {
            var c :| c in cfgs && c.name == Some(n);
            if c != cfgs[0] {
              assert c in cfgs[1..];
            }
          }
        }
        forall n ensures n in ConfiguredNames(cfgs[1..]) ==> n in ConfiguredNames(cfgs) {
          if n in ConfiguredNames(cfgs[1..]) {
            var c :| c in cfgs[1..] && c.name == Some(n);
            assert c in cfgs;
          }
        }
      }
      match cfgs[0].name
      case None => PairOrder(cfgs[1..], seen)
      case Some(n) =>
        if n in seen then PairOrder(cfgs[1..], seen)
        else [n] + PairOrder(cfgs[1..], seen + {n})
  }

  /** The result of `update_all_pairs` and the updater after it. */
  datatype Round = Round(results: map<string, bool>, upd: DataUpdater)

  /** The one-minute table of `pair` holds at least one candle. */
  predicate HasMinutes(db: Db, pair: string) {
    TableName(pair, "1m") in db.tables && |db.tables[TableName(pair, "1m")]| > 0
  }

  lemma HasMinutesKept(a: Db, b: Db, pair: string)
    requires HasMinutes(a, pair) && RowsKept(a, b)
    ensures HasMinutes(b, pair)
  {
    var t := a.tables[TableName(pair, "1m")];
    assert |t.Keys| == |t|;
    NonEmptyHasElement(t.Keys);
    var k :| k in t;
    assert k in b.tables[TableName(pair, "1m")];
  }

  /** The pairs updated one after another, each result recorded under its
      name. */
  function UpdateEach(u: DataUpdater, term: Terminal, names: seq<string>, latest: bool, fill: bool, now: int,
                      acc: map<string, bool>): (r: Round)
    ensures Evolves(u, r.upd)
    ensures forall n :: n in r.results <==> n in acc || n in names
    ensures forall n :: n in acc && n !in names ==> r.results[n] == acc[n]
    decreases |names|
  {
    if |names| == 0 then Round(acc, u)
    else
      var s := UpdateSinglePair(u, term, names[0], latest, fill, now);
      var r := UpdateEach(s.upd, term, names[1..], latest, fill, now, acc[names[0] := s.ok]);
      EvolvesTransitive(u, s.upd, r.upd);
      assert forall n :: n in names <==> n == names[0] || n in names[1..];
      r
  }

  /** One step of a pass: the first pair, then the rest. */
  lemma UpdateEachStep(u: DataUpdater, term: Terminal, names: seq<string>, latest: bool, fill: bool, now: int,
                       acc: map<string, bool>)
    requires |names| > 0
    ensures var s := UpdateSinglePair(u, term, names[0], latest, fill, now);
            UpdateEach(u, term, names, latest, fill, now, acc)
              == UpdateEach(s.upd, term, names[1..], latest, fill, now, acc[names[0] := s.ok])
  {
  }

  /** With nothing requested, every pair of a pass succeeds. */
  lemma {:induction false} UpdateEachNothingRequested(u: DataUpdater, term: Terminal, names: seq<string>, now: int,
                                                      acc: map<string, bool>)
    requires forall n :: n in acc ==> acc[n]
    ensures var r := UpdateEach(u, term, names, false, false, now, acc);
            forall n :: n in r.results ==> r.results[n]
    decreases |names|
  {
    if |names| > 0 {
      var s := UpdateSinglePair(u, term, names[0], false, false, now);
      assert s == Step(true, u);
      UpdateEachStep(u, term, names, false, false, now, acc);
      UpdateEachNothingRequested(u, term, names[1..], now, acc[names[0] := true]);
    }
  }

  /** With the latest-data update requested, a pair a pass reports
      successful has candles in its one-minute table at the end. */
  lemma {:induction false} UpdateEachLatestStored(u: DataUpdater, term: Terminal, names: seq<string>, fill: bool,
                                                  now: int, acc: map<string, bool>)
    requires forall n :: n in acc && acc[n] ==> HasMinutes(u.mgr.db, n)
    ensures var r := UpdateEach(u, term, names, true, fill, now, acc);
            forall n :: n in r.results && r.results[n] ==> HasMinutes(r.upd.mgr.db, n)
    decreases |names|
  {
    if |names| > 0 {
      var s := UpdateSinglePair(u, term, names[0], true, fill, now);
      var acc1 := acc[names[0] := s.ok];
      forall n | n in acc1 && acc1[n] ensures HasMinutes(s.upd.mgr.db, n) {
        if n == names[0] {
          var rows: seq<Bar> :| |rows| > 0 && HoldsTimes(s.upd.mgr.db, names[0], rows);
          assert rows[0].time in s.upd.mgr.db.tables[TableName(names[0], "1m")];
        } else {
          HasMinutesKept(u.mgr.db, s.upd.mgr.db, n);
        }
      }
      UpdateEachStep(u, term, names, true, fill, now, acc);
      UpdateEachLatestStored(s.upd, term, names[1..], fill, now, acc1);
    }
  }

  /** Every configured pair updated once, in configuration order. */
  function UpdateConfigured(u: DataUpdater, term: Terminal, cfgs: seq<PairConfig>, latest: bool, fill: bool, now: int)
    : (r: Round)
    ensures Evolves(u, r.upd)
    ensures r.results.Keys == ConfiguredNames(cfgs)
  {
    var round := UpdateEach(u, term, PairOrder(cfgs, {}), latest, fill, now, map[]);
    assert round.results.Keys == ConfiguredNames(cfgs);
    round
  }

  /** `update_all_pairs` once connected: make sure the pairs exist in the
      database, then update each of them.  The pairs updated are the
      configured ones: a non-empty result has one entry per configured
      name, and a configuration of named pairs with a reachable database
      always gives one.  No pairs give an empty result. */
  function UpdatePairs(u: DataUpdater, term: Terminal, latest: bool, fill: bool, now: int): (r: Round)
    ensures Evolves(u, r.upd) && r.upd.fetcher.maxCandles == u.fetcher.maxCandles
    ensures |r.results| > 0 ==> && u.mgr.config.currencyPairs.Some?
                                && r.results.Keys == ConfiguredNames(u.mgr.config.currencyPairs.value)
    ensures var ps := u.mgr.config.currencyPairs;
            ps.Some? && AllNamed(ps.value) && |ps.value| > 0 && u.mgr.db.online ==>
              r.results.Keys == ConfiguredNames(ps.value)
  {
    var (pairMap, m1) := EnsureCurrencyPairs(u.mgr);
    var u1 := u.(mgr := m1);
    assert Evolves(u, u1);
    if |pairMap| == 0 then Round(map[], u1)
    else
      var round := UpdateConfigured(u1, term, u.mgr.config.currencyPairs.value, latest, fill, now);
      EvolvesTransitive(u, u1, round.upd);
      round
  }

  /** `update_all_pairs`: connect (unless connected), update the pairs, and
      shut the connection down whatever happened.  No connection or no pairs
      give an empty result; otherwise there is one result per configured
      pair. */
  function UpdateAllPairs(u: DataUpdater, term: Terminal, latest: bool, fill: bool, now: int): (r: Round)
    ensures Evolves(u, r.upd) && !r.upd.fetcher.initialized
    ensures !Linked(u.fetcher, term) ==> r == Round(map[], u.(fetcher := Shutdown(u.fetcher)))
    ensures |r.results| > 0 ==> && Linked(u.fetcher, term) && u.mgr.config.currencyPairs.Some?
                                && r.results.Keys == ConfiguredNames(u.mgr.config.currencyPairs.value)
    ensures var ps := u.mgr.config.currencyPairs;
            Linked(u.fetcher, term) && ps.Some? && AllNamed(ps.value) && |ps.value| > 0 && u.mgr.db.online ==>
              r.results.Keys == ConfiguredNames(ps.value)
  {
    var (ok, f1) := Initialize(u.fetcher, term);
    if !ok then Round(map[], u.(fetcher := Shutdown(f1)))
    else
      var p := UpdatePairs(u.(fetcher := f1), term, latest, fill, now);
      Round(p.results, p.upd.(fetcher := Shutdown(p.upd.fetcher)))
  }

  /** The results of `update_all_pairs` mean what they say: with nothing
      requested every pair succeeds, and a pair whose latest-data update
      succeeded has candles in its one-minute table afterwards. */
  lemma UpdateAllPairsResults(u: DataUpdater, term: Terminal, latest: bool, fill: bool, now: int)
    ensures var r := UpdateAllPairs(u, term, latest, fill, now);
            && (!latest && !fill ==> forall n :: n in r.results ==> r.results[n])
            && (latest ==> forall n :: n in r.results && r.results[n] ==> HasMinutes(r.upd.mgr.db, n))
  {
    var (ok, f1) := Initialize(u.fetcher, term);
    if ok {
      var u1 := u.(fetcher := f1);
      var (pairMap, m1) := EnsureCurrencyPairs(u1.mgr);
      if |pairMap| > 0 {
        var names := PairOrder(u.mgr.config.currencyPairs.value, {});
        if latest {
          UpdateEachLatestStored(u1.(mgr := m1), term, names, fill, now, map[]);
        } else if !fill {
          UpdateEachNothingRequested(u1.(mgr := m1), term, names, now, map[]);
        }
        assert UpdatePairs(u1, term, latest, fill, now) == UpdateEach(u1.(mgr := m1), term, names, latest, fill, now, map[]);
      }
    }
  }

  // ---------------------------------------------------------------------
  // run_scheduled_update
  // ---------------------------------------------------------------------

  /** The `update` settings a scheduled run reads: `retry_attempts` and
      `retry_delay` in seconds; `None` when absent. */
  datatype Schedule = Schedule(retryAttempts: Option<int>, retryDelay: Option<int>)

  const DefaultRetryAttempts: int := 3
  const DefaultRetryDelay: int := 300

  /** What a scheduled run did: whether each round it ran succeeded, the
      delays it slept, and the updater after it. */
  datatype Run = Run(outcomes: seq<bool>, sleeps: seq<int>, upd: DataUpdater)

  /** Every pair of a round succeeded (Python's `all(results.values())`,
      true for an empty round). */
  predicate AllSucceeded(results: map<string, bool>) {
    forall n :: n in results ==> results[n]
  }

  /** The rounds from attempt `attempt` to `attempts`, each round being
      `rounds` applied to the updater as the previous round left it.  A
      successful round ends the run; after a failed round other than the
      last the run sleeps `delay` seconds and tries again.  A negative delay
      makes `time.sleep` raise; the handler tries to sleep again, raises
      again, and the run ends. */
  function RunFrom(u: DataUpdater, rounds: DataUpdater -> Round, attempt: int, attempts: int, delay: int): (r: Run)
    ensures |r.outcomes| <= (if attempts < attempt then 0 else attempts - attempt + 1)
    ensures attempt <= attempts ==> |r.outcomes| >= 1 && r.outcomes[0] == AllSucceeded(rounds(u).results)
    ensures attempt <= attempts && AllSucceeded(rounds(u).results) ==> r == Run([true], [], rounds(u).upd)
    decreases attempts - attempt
  {
    if attempt > attempts then Run([], [], u)
    else
      var round := rounds(u);
      if AllSucceeded(round.results) then Run([true], [], round.upd)
      else if attempt == attempts || delay < 0 then Run([false], [], round.upd)
      else After([false], [delay], RunFrom(round.upd, rounds, attempt + 1, attempts, delay))
  }

  /** The round of a scheduled run: `update_all_pairs` with both the
      latest-data update and the gap filling requested. */
  function UpdateRound(term: Terminal, now: int): DataUpdater -> Round {
    v => UpdateAllPairs(v, term, true, true, now)
  }

  /** The rounds and sleeps of a run that are already behind, followed by the rest of the run. */
  function After(outcomes: seq<bool>, sleeps: seq<int>, rest: Run): (r: Run)
    ensures |r.outcomes| == |outcomes| + |rest.outcomes| && r.outcomes[..|outcomes|] == outcomes
    ensures |r.sleeps| == |sleeps| + |rest.sleeps| && r.sleeps[..|sleeps|] == sleeps
    ensures r.upd == rest.upd
  {
    Run(outcomes + rest.outcomes, sleeps + rest.sleeps, rest.upd)
  }

  lemma AfterAfter(o1: seq<bool>, s1: seq<int>, o2: seq<bool>, s2: seq<int>, rest: Run)
    ensures After(o1, s1, After(o2, s2, rest)) == After(o1 + o2, s1 + s2, rest)
  {
    assert o1 + (o2 + rest.outcomes) == (o1 + o2) + rest.outcomes;
    assert s1 + (s2 + rest.sleeps) == (s1 + s2) + rest.sleeps;
  }

  /** How any run goes: at most `attempts` rounds (at least one when that
      is positive), no round after a successful one, a stop before the last
      attempt only after a success (or a failed sleep), and the delay slept
      between consecutive rounds and nowhere else. */
  lemma {:induction false} RunFromShape(u: DataUpdater, rounds: DataUpdater -> Round, attempt: int, attempts: int,
                                        delay: int)
    ensures var r := RunFrom(u, rounds, attempt, attempts, delay);
            var left := if attempts < attempt then 0 else attempts - attempt + 1;
            && |r.outcomes| <= left && (left >= 1 ==> |r.outcomes| >= 1)
            && (forall i :: 0 <= i < |r.outcomes| - 1 ==> !r.outcomes[i])
            && (0 < |r.outcomes| < left && delay >= 0 ==> r.outcomes[|r.outcomes| - 1])
            && (forall i :: 0 <= i < |r.sleeps| ==> r.sleeps[i] == delay && delay >= 0)
            && (|r.outcomes| > 0 && delay >= 0 ==> |r.sleeps| == |r.outcomes| - 1)
            && (delay < 0 ==> r.sleeps == [] && |r.outcomes| <= 1)
    decreases attempts - attempt
  {
    if attempt <= attempts {
      var round := rounds(u);
      if !AllSucceeded(round.results) && attempt < attempts && delay >= 0 {
        var rest := RunFrom(round.upd, rounds, attempt + 1, attempts, delay);
        RunFromShape(round.upd, rounds, attempt + 1, attempts, delay);
        var r := After([false], [delay], rest);
        assert forall i :: 0 < i < |r.outcomes| ==> r.outcomes[i] == rest.outcomes[i - 1];
        assert forall i :: 0 < i < |r.sleeps| ==> r.sleeps[i] == delay;
      }
    }
  }

  /** A run keeps what each of its rounds keeps. */
  lemma {:induction false} RunFromEvolves(u: DataUpdater, rounds: DataUpdater -> Round, attempt: int, attempts: int,
                                          delay: int)
    requires forall v :: Evolves(v, rounds(v).upd)
    ensures Evolves(u, RunFrom(u, rounds, attempt, attempts, delay).upd)
    decreases attempts - attempt
  {
    if attempt <= attempts {
      var round := rounds(u);
      if !AllSucceeded(round.results) && attempt < attempts && delay >= 0 {
        RunFromEvolves(round.upd, rounds, attempt + 1, attempts, delay);
        EvolvesTransitive(u, round.upd, RunFrom(round.upd, rounds, attempt + 1, attempts, delay).upd);
      }
    }
  }

  /** An empty round counts as a success: with a terminal that is down and
      refuses the login, `update_all_pairs` returns an empty result and the
      scheduled run ends after that one round, without sleeping. */
  lemma UnreachableTerminalEndsRun(u: DataUpdater, term: Terminal, s: Schedule, now: int)
    requires !Linked(u.fetcher, term) && s.retryAttempts.GetOr(DefaultRetryAttempts) >= 1
    ensures RunFrom(u, UpdateRound(term, now), 1, s.retryAttempts.GetOr(DefaultRetryAttempts), s.retryDelay.GetOr(DefaultRetryDelay))
              == Run([true], [], u.(fetcher := Shutdown(u.fetcher)))
  {
    assert UpdateRound(term, now)(u).results == map[];
  }

  /** `run_scheduled_update`: the settings with their defaults, then the
      attempts one after another, as `RunFrom` describes them. */
  method RunScheduledUpdate(u: DataUpdater, term: Terminal, s: Schedule, now: int) returns (r: Run)
    ensures r == RunFrom(u, UpdateRound(term, now), 1, s.retryAttempts.GetOr(DefaultRetryAttempts),
                         s.retryDelay.GetOr(DefaultRetryDelay))
  {
    r := RunRounds(u, UpdateRound(term, now), s.retryAttempts.GetOr(DefaultRetryAttempts),
                   s.retryDelay.GetOr(DefaultRetryDelay));
  }

  /** The retry loop of `run_scheduled_update` for any kind of round. */
  method RunRounds(u: DataUpdater, rounds: DataUpdater -> Round, attempts: int, delay: int) returns (r: Run)
    ensures r == RunFrom(u, rounds, 1, attempts, delay)
  {
    var outcomes: seq<bool> := [];
    var sleeps: seq<int> := [];
    var v := u;
    var attempt := 1;
    while attempt <= attempts
      invariant RunFrom(u, rounds, 1, attempts, delay) == After(outcomes, sleeps, RunFrom(v, rounds, attempt, attempts, delay))
      decreases attempts - attempt
    {
      var round := rounds(v);
      if AllSucceeded(round.results) {
        assert sleeps + [] == sleeps;
        return Run(outcomes + [true], sleeps, round.upd);
      }
      if attempt == attempts || delay < 0 {
        assert sleeps + [] == sleeps;
        return Run(outcomes + [false], sleeps, round.upd);
      }
      AfterAfter(outcomes, sleeps, [false], [delay], RunFrom(round.upd, rounds, attempt + 1, attempts, delay));
      outcomes := outcomes + [false];
      sleeps := sleeps + [delay];
      v := round.upd;
      attempt := attempt + 1;
    }
    assert outcomes + [] == outcomes && sleeps + [] == sleeps;
    r := Run(outcomes, sleeps, v);
  }
}
