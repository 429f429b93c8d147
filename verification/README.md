# Forex data pipeline: a Dafny model

This project models the data layer of a forex trading system in Dafny. The layer has five parts:

- `MT5Fetcher` downloads one-minute candles from a MetaTrader 5 terminal.
- `DataManager` keeps the candles in per-pair PostgreSQL tables and finds holes in them.
- `DataResampler` aggregates the one-minute candles into longer timeframes.
- `DataUpdater` orchestrates the latest-data updates, the gap filling and the scheduled, retried runs.
- The configuration loader finds the YAML file and applies `FOREX_AI_*` environment overrides.

How the source is represented:

- Timestamps are whole seconds since 1970-01-01. Weekday and hour are computed from them.
- A candle is a record with integer (fixed-point) prices.
- Each price table `price_data.<pair>_<timeframe>` is a map keyed by timestamp, its primary key.
- The database is a value holding the `currency_pairs` rows and the tables. One flag says whether it can be reached; when it cannot, every access raises.
- The MetaTrader 5 terminal is an oracle: whether it is running, whether it accepts the login, the symbols it knows, and its reply to every rates request.
- The clock (`now`), the file system, the environment and the YAML parser are parameters.
- An operation that mutates an object returns the new state together with its result.
- An exception is a `Result.Raised` or an `Option.None` wherever the source catches it.

Modules, in dependency order:

- `Wrappers` holds `Option` and `Result`.
- `Text` holds decimal rendering and parsing, `isdigit`, `lower` and `split`.
- `Keys` holds the minimum, the maximum and the sorted listing of a key set.
- `Clock` holds weekday and hour arithmetic.
- `Candles` holds candles, tables, frames and the seven storage timeframes.
- `MarketHours` holds the calendar and the weekend-gap test.
- `PriceStore` models `DataManager`'s pairs, table cache, store and query.
- `GapScan` models gap detection and the expected candle count.
- `Fetcher` models `MT5Fetcher`.
- `Resampler` models `DataResampler`.
- `Updater` models the second `DataUpdater` class.
- `Config` models `utils/config.py`.

## Model

| member | source | states |
|---|---|---|
| Text.ParseInt | data/database.py:402 | the subset of `int(text)` the model accepts: exactly ASCII digits after at most one leading '+' or '-'; the digits read as their value and a leading '-' negates it; every other text is the `ValueError` |
| Text.NatToStringRoundTrip | data/fetcher.py:384-385 | a rendered number is all digits and reads back as itself |
| Text.ParseIntRoundTrip | data/database.py:402 | `int(str(i)) == i` for every integer |
| Text.ZeroPad2 | data/fetcher.py:384-385 | `:02d` gives at least two characters, exactly two digits below 100, and reads back as the number |
| Text.SplitHead | data/database.py:402 | `split(":")[0]` is a prefix of the text, holds no separator, and stops at the first one |
| Text.SplitHeadOfJoin | data/database.py:402 | splitting `head + ":" + tail` gives `head` back when `head` has no colon |
| Keys.SortedKeys | data/database.py:306-310 | `ORDER BY timestamp` lists every stored key exactly once, strictly ascending |
| Keys.SetMin | data/database.py:441 | `min(timestamp)` is a stored key no larger than any other |
| Keys.SetMax | data/database.py:442 | `max(timestamp)` is a stored key no smaller than any other |
| Clock.ShiftByDays | data/database.py:376 | moving an instant by whole days shifts its weekday by as many days and keeps its hour |
| Clock.ShiftByWeeks | data/database.py:376-383 | whole weeks later the weekday and the hour are the same |
| Candles.PeriodOf | data/database.py:317-333 | exactly the seven storage timeframes have a candle length, a positive whole number of minutes dividing a day |
| Candles.TableRows | db/schema.py:32 | a table read in key order is strictly ascending, one candle per key, holding exactly the stored rows |
| MarketHours.FirstEntryFor | data/database.py:398-400 | the scan finds the first entry for the day, and no earlier entry is for that day |
| MarketHours.MarketHour | data/database.py:388-422 | the hour is read from the first entry for the day (its time defaulting to "22:00"/"00:00"), and is 22/0 when no entry matches |
| MarketHours.UntimedEntryMeansDefault | data/database.py:401-404 | an entry without a time gives the same hours as no entry: 22 for the close and 0 for the open |
| MarketHours.IsWeekendGap | data/database.py:362-386 | a gap is a weekend gap iff weekend trading is off, it starts on a Friday at or after the close hour and it ends on a Monday at or before the open hour; it raises iff the calendar is missing or a Friday-to-Monday lookup cannot be parsed |
| MarketHours.WeekendGapIgnoresWholeWeeks | data/database.py:376-383 | only weekdays and hours matter, so a Friday-to-Monday gap several weeks long is still a weekend gap |
| MarketHours.DefaultWeekendExample | data/database.py:383-386 | with the default calendar, Friday 22:00 to the following Monday 00:00 is a weekend gap |
| PriceStore.TableName | data/database.py:87 | the table name is the lower-cased pair, "_", then the timeframe |
| PriceStore.EnsurePriceTable | data/database.py:104-134 | a cached name returns without touching the database; otherwise the table is found or created empty and cached; no stored row changes; it fails only when the name is uncached and the database is unreachable |
| PriceStore.CachedTableSkipsDatabase | data/database.py:118-120 | after one call the name is cached, and a second call returns at once whatever the database holds, even an unreachable one |
| PriceStore.LastConfig | data/database.py:49-84 | the values a name ends up with come from the last configuration entry naming it |
| PriceStore.LastConfigIsLast | data/database.py:49-84 | `LastConfig` picks exactly the last entry carrying the name |
| PriceStore.UpsertPair | data/database.py:50-92 | one loop step creates the row with a fresh id or updates its description, pip value and spread, keeps the id of an existing row, and ensures the 1-minute table |
| PriceStore.UpsertPairs | data/database.py:49-99 | the loop runs to the end iff every entry is named and the database is reachable; rows of unconfigured pairs and all price tables are kept |
| PriceStore.UpsertPairsIds | data/database.py:92 | a completed loop records an id for exactly the configured names |
| PriceStore.UpsertPairsRows | data/database.py:55-89 | after a completed loop every configured name has a row with its last entry's values and a 1-minute table |
| PriceStore.EnsureCurrencyPairs | data/database.py:35-102 | on success the map's keys are exactly the configured names, each mapped to its row's id, and each row holds the configured description, pip value and spread (defaults "", 0.0001, 0); a missing list or name, or an unreachable database, gives {} |
| PriceStore.NewRows | data/database.py:165-189 | a candle is in the result iff it comes in and its timestamp is not stored; no longer than the input; ascending input stays ascending |
| PriceStore.NewRowsCounts | data/database.py:187-189 | each incoming candle whose timestamp is not stored comes out exactly as often as it comes in, repeats included; the others never |
| PriceStore.NewRowsAppend | data/database.py:187-189 | the filter keeps input order: the new candles of `a + b` are those of `a` followed by those of `b` |
| PriceStore.NewRowsSingle | data/database.py:187-189 | a single candle is kept iff its timestamp is not stored |
| PriceStore.InsertCommitsExactly | data/database.py:187-212 | the insert commits iff no incoming timestamp that is not stored comes in twice; a repeated new timestamp reaches the insert and collides on the primary key |
| PriceStore.Insert | data/database.py:198-212 | inserting fresh, distinct timestamps keeps every old row, stores each new candle under its timestamp and adds nothing else |
| PriceStore.InsertNew | data/database.py:187-212 | the insert commits iff the new candles do not collide on the key; old rows are never overwritten; when every incoming timestamp is stored already, the table is unchanged |
| PriceStore.StorePriceData | data/database.py:136-219 | an empty frame, a frame without `time`, or a failed transaction gives false with no row changed; success means every incoming timestamp is stored, no stored row was overwritten, and every new row is an incoming candle |
| PriceStore.StoreSucceedsExactly | data/database.py:148-215 | `store_price_data` returns true iff the frame is non-empty and timed, the table is reachable, and the insert commits |
| PriceStore.StoreOfStoredRowsIsNoOp | data/database.py:188-194 | storing candles that are all stored already returns true and leaves the database as it was |
| PriceStore.SelectRange | data/database.py:253-263 | the rows returned are exactly the stored candles with start ≤ timestamp ≤ end, ascending; a missing bound does not filter |
| PriceStore.Limited | data/database.py:265-267 | a truthy limit keeps the first `limit` rows; `None` and 0 keep them all |
| PriceStore.Query | data/database.py:253-267 | the rows read are ascending, each a stored candle within the bounds, at most `limit` of them |
| PriceStore.QueryComplete | data/database.py:253-276 | the query is empty iff no stored candle is in range; otherwise it misses no candle in range up to its last row |
| PriceStore.GetPriceData | data/database.py:221-288 | the result is `None` iff nothing is in range, the table is unreachable, or the limit is negative; otherwise it is the ascending in-range rows, at most `limit` of them; nothing is stored |
| GapScan.ScanFromRaises | data/database.py:337-353 | the scan raises iff the weekend test raises on some pair of neighbours more than one candle apart |
| GapScan.ScanFromSound | data/database.py:337-353 | every reported gap is a pair of consecutive timestamps, more than one candle apart and not a weekend gap |
| GapScan.ScanFromComplete | data/database.py:337-353 | without an exception, every such pair of neighbours is reported |
| GapScan.ScanFromOrdered | data/database.py:337-356 | over ascending timestamps the gaps come out ascending and non-overlapping |
| GapScan.FindDataGaps | data/database.py:290-360 | an unsupported timeframe, an empty or unreachable table, or a raising weekend test gives []; otherwise the gaps are exactly the reported neighbour pairs, in order; nothing is stored |
| GapScan.FoundGapsAreNotWeekend | data/database.py:352 | repeating the weekend test on a reported gap answers false without raising |
| GapScan.ExpectedCount | data/database.py:446-501 | the expected count is never negative and is 0 for an unknown timeframe; it is at most the span in candles, and equals that when weekend trading is on or the span is under a week |
| GapScan.ConstantsAsWritten | data/database.py:448-498 | the divisors written out are the candle length in minutes, and the weekend subtractions are the candles in 48 hours |
| GapScan.ExpectedCountAsWritten | data/database.py:446-501 | the code's float computation, with its written-out divisors and weekend subtractions, never gives a negative count |
| GapScan.ExpectedCountMatchesCode | data/database.py:446-513 | the code's float computation, after `max(0, ·)` and `int(·)`, equals the integer formula `max(0, minutes div N − (days div 7)·W)` |
| GapScan.ExpectedCountOf | data/database.py:424-513 | the call fails iff the database is unreachable, a cached name has no table, or the table has rows and there is no `calendar` section; an empty table gives 0; a non-empty one with a calendar gives the formula over the span from the first to the last stored candle |
| Fetcher.Initialize | data/fetcher.py:43-73 | initialization succeeds iff already initialized, the terminal is running, or the login is accepted, and only then sets the flag |
| Fetcher.Shutdown | data/fetcher.py:75-79 | shutdown clears the flag and keeps the settings |
| Fetcher.CheckSymbolAvailable | data/fetcher.py:82-104 | a symbol is available iff a connection can be made and the terminal knows it |
| Fetcher.ChunkLoop | data/fetcher.py:230-249 | the loop collects only non-empty chunks, and at most one per request |
| Fetcher.ChunkRequests | data/fetcher.py:227-249 | each request asks for exactly min(remaining, max) candles, `remaining` being the count minus the candles collected before it, and at least 1 when max > 0; the first starts at position 0; each later one starts where the previous full chunk ended; no request when nothing remains |
| Fetcher.ChunkRequestSizes | data/fetcher.py:231-241 | every request of the loop asks for min(remaining, max) candles, with `remaining` reduced by the candles collected before that request |
| Fetcher.Flatten | data/fetcher.py:255 | concatenating the chunks keeps exactly their candles |
| Fetcher.SortDedup | data/fetcher.py:255-258 | sorting and dropping duplicate times, as intended, gives strictly ascending times, only input candles, and no input timestamp missing |
| Fetcher.FetchLargeAsWritten | data/fetcher.py:251-261 | as written, no collected chunk gives `None`, and any collected chunk makes `drop_duplicates(subset=["time"])` raise `KeyError`, so no candles are ever returned |
| Fetcher.FetchLarge | data/fetcher.py:251-261 | as intended, no collected chunk gives `None`; otherwise the result is non-empty, strictly ascending, and covers exactly the collected timestamps |
| Fetcher.FetchLargeDiscrepancy | data/fetcher.py:251-261 | the two versions agree on `None`, and the intended version returns candles exactly when the code as written raises `KeyError` |
| Fetcher.FetchLargeOhlcv | data/fetcher.py:213-261 | the while loop makes the requests of the recursive definition, and its outcome is that of the code as written |
| Fetcher.RequestAsWritten | data/fetcher.py:142-169 | a start gives a range request ending at `end` or now; otherwise a count gives a count request; with neither, no request is built (and a missing configured start date raises) |
| Fetcher.RequestFor | data/fetcher.py:142-169 | as written, except that with neither start nor count it builds the range from the configured start date |
| Fetcher.Dispatch | data/fetcher.py:130-211 | no connection, an unknown symbol or an unmapped timeframe gives `None` without a request; otherwise the call raises iff the request failed or is missing, the maximum is missing, or (as written) the chunked loop collected candles; only that last case raises after requests |
| Fetcher.ReplyCandles | data/fetcher.py:200-207 | a reply yields candles iff it holds at least one |
| Fetcher.FetchOhlcvAsWritten | data/fetcher.py:106-211 | no connection, symbol or timeframe gives `None` without a request; neither start nor count, or a missing maximum, raises without a request; a start gives one range request; a count within the maximum one request for the latest candles; a larger count runs the chunked loop, which never returns candles |
| Fetcher.FetchOhlcv | data/fetcher.py:106-211 | as intended: a timeframe outside the nine-entry map gives `None`; a start, or else the configured start date, gives one range request; a count within the maximum gives one request for the latest `count`; a larger count returns the chunked loop's sorted, deduplicated candles; it raises iff the maximum is missing or no start can be found |
| Fetcher.FetchAgreesWithAsWritten | data/fetcher.py:142-261 | whenever a start or a count is given, the two make the same requests and give the same outcome, except where the chunked loop collects candles: there the code as written raises and the intended version returns them |
| Fetcher.NoStartNoCountExample | data/fetcher.py:142-174 | a concrete call with neither start nor count raises as written, while the corrected fetch requests the configured range |
| Fetcher.DedupOfRepeatedCandle | data/fetcher.py:255-258 | the same candle collected twice is returned once by the intended sort and deduplication |
| Fetcher.ChunkedCountExample | data/fetcher.py:176-178 | a fetcher allowed one candle per request, asked for two, makes two requests; as written it raises `KeyError`, while the intended version returns the one candle |
| Fetcher.FetchLargeOfOneCandle | data/fetcher.py:250-258 | the intended loop over two chunks holding the same candle returns that candle once |
| Fetcher.FormatClock | data/fetcher.py:384-385 | "hh:mm" reads back as `t div 60` and `t mod 60`, and has five characters for a time under 100 hours |
| Fetcher.FormatClockHourRoundTrip | data/fetcher.py:384-385 | the market-hours parser reads the hour of a formatted time back as `t div 60` |
| Fetcher.PyIndex | data/fetcher.py:376-377 | Python indexing: negative indices count from the end, and out-of-range indices raise |
| Fetcher.SessionsFromSpec | data/fetcher.py:375-390 | the session loop succeeds iff every index it reads is in range; it then yields exactly the sessions of the non-empty pairs, one per pair, in increasing index order |
| Fetcher.NonEmptyIndicesSpec | data/fetcher.py:375-381 | the positions the loop turns into sessions: each position whose pair is readable and not all zero, once, in increasing order |
| Fetcher.SessionsFromInOrder | data/fetcher.py:375-390 | the i-th session of a successful loop is the session of the i-th non-empty position, and there are as many sessions as such positions |
| Fetcher.ExtractSessionsAsWritten | data/fetcher.py:358-392 | either list empty gives []; otherwise there are at most len(opens) div 2 sessions |
| Fetcher.ExtractSessions | data/fetcher.py:358-392 | either list empty gives []; otherwise it raises iff one of the day's two indices is out of range, and yields the sessions of the non-empty pairs among the two, one each, in index order |
| Fetcher.WeekOfSessionsExample | data/fetcher.py:375-377 | for a 14-value week, Friday's sessions raise as written, while reading Friday's two values gives the one session from minute 60 to minute 1260, formatted "01:00" and "21:00" |
| Fetcher.TimezoneLabel | data/fetcher.py:343-344 | the label starts "GMT", reads back as `tz // 3600`, and has a '+' exactly when the offset is not negative |
| Resampler.Bucket | data/resampler.py:84 | every instant lies in its bucket's half-open interval |
| Resampler.InBucket | data/resampler.py:84 | the rows of a bucket are exactly the input rows falling in it |
| Resampler.Aggregate | data/resampler.py:84-90 | a bucket's candle has the first open, the highest high, the lowest low, the last close and the summed volume |
| Resampler.AccumulateIsPerBucket | data/resampler.py:84-93 | the fold has a bucket iff some row falls in it, and its candle aggregates exactly those rows |
| Resampler.SortByTime | data/resampler.py:84 | `resample` reads the frame sorted by time, keeping exactly its candles with their multiplicities |
| Resampler.InsertKeepsSorted | data/resampler.py:84 | inserting a candle into a time-sorted list keeps it sorted |
| Resampler.SortKeepsSorted | data/resampler.py:84 | a frame already in time order is read as it is |
| Resampler.ResampleData | data/resampler.py:37-102 | `None` iff the frame is empty or untimed or a timeframe is outside the seven; the same timeframe returns the input; otherwise one ascending candle per non-empty bucket, aggregating the bucket's candles in time order, never more candles than rows, every input candle's bucket present |
| Resampler.UnsortedBucketInTimeOrder | data/resampler.py:84-90 | two candles of one bucket given latest first resample to that bucket with the earlier candle's open and the later one's close |
| Resampler.ResamplePreservesWellFormed | data/resampler.py:84-90 | when every input candle has low ≤ open, close ≤ high, so does every output candle |
| Resampler.StoreOfAscendingCommits | data/database.py:187-212 | storing ascending candles into a reachable database always commits |
| Resampler.KeptTablesAnswerAlike | data/resampler.py:127-135 | creating empty tables does not change any range query |
| Resampler.ResampleFromMinutes | data/resampler.py:134-151 | the fallback resamples the in-range 1-minute candles, is `None` iff there are none or the target is unknown, and stores them when asked; that store commits |
| Resampler.GetResampledPriceData | data/resampler.py:104-155 | stored target candles in range are served as they are; otherwise the 1-minute ones are resampled, and stored only when `store_result` is set |
| Resampler.ResampleOne | data/resampler.py:188-200 | "1m" succeeds without storing; an unknown timeframe fails; otherwise the outcome is the store result of the resampled candles, true whenever there are candles, the database is reachable and the cache is consistent; a success means the resampled candles are in the target table |
| Resampler.ResampleEach | data/resampler.py:188-200 | the loop records an outcome for every requested timeframe and keeps the others; "1m" is true, an unknown timeframe false, and each other success is backed by stored candles |
| Resampler.ResampleEachSucceeds | data/resampler.py:188-200 | with 1-minute candles, a reachable database and a consistent cache, every requested storage timeframe is reported true |
| Resampler.ResampleAll | data/resampler.py:174-203 | the result keys are exactly the requested timeframes; with candles, a reachable database and a consistent cache every storage timeframe succeeds; each success is backed by stored candles |
| Resampler.AllFailed | data/resampler.py:185 | every requested timeframe maps to false |
| Resampler.ResampleLatestData | data/resampler.py:157-207 | the keys are exactly the requested timeframes; without 1-minute data in the window all are false; with it "1m" is true, an unknown timeframe is false, and with a consistent cache every storage timeframe is true; stored candles are never lost |
| Resampler.ResampleLatestStores | data/resampler.py:194-198 | each other timeframe reported true has the resampled window stored in its table |
| Updater.StoreMinutes | data/updater.py:425 | storing fetched candles succeeds as `store_price_data` does, and a success means every fetched timestamp is held |
| Updater.UpdateLatestData | data/updater.py:400-435 | no connection, symbol or maximum gives false with the store untouched; more candles than the maximum also give false, since the chunked fetch as written never returns candles; true means the fetched candles are stored; within the maximum it is true iff the latest-candles request returns candles and the store succeeds |
| Updater.FillGaps | data/updater.py:470-507 | only gaps from the list that are short enough and not weekend gaps are fetched; filled ≤ fetched ≤ gaps |
| Updater.FillGapsRaises | data/updater.py:478-511 | the loop raises iff some gap short enough to be looked at makes the weekend test or the fetch raise |
| Updater.FillGapsComplete | data/updater.py:478-496 | unless it raised, every eligible gap was fetched |
| Updater.FilledGapsStored | data/updater.py:492-501 | a gap counted as filled had its range fetched, and all its candles are held at the end |
| Updater.FillDataGaps | data/updater.py:437-511 | a timeframe other than "1m" gives false; no gaps gives true; otherwise the outcome is the loop's, true unless it raised |
| Updater.FoundGapsSortedByStart | data/updater.py:470-471 | the gaps are visited in ascending start order (sorting them changes nothing) |
| Updater.FillDataGapsOutcome | data/updater.py:478-507 | the updater's own weekend test never skips a reported gap; every gap of at most 30 days is fetched; the operation fails only when the fetcher lacks its maximum and such a gap exists |
| Updater.UpdateSinglePair | data/updater.py:639-685 | the result is the conjunction of the requested parts, the gap filling running after the latest update; nothing requested gives true |
| Updater.LatestUpdateIsOneRequest | data/updater.py:664-667 | the latest update asks for exactly the configured maximum, so it is one request and never the chunked loop |
| Updater.PairOrder | data/database.py:49-92 | the visited pairs are exactly the configured names, each once |
| Updater.UpdateEach | data/updater.py:610-626 | every visited pair gets a result; earlier results for other names are kept |
| Updater.UpdateEachNothingRequested | data/updater.py:656-681 | with nothing requested, every pair's result is true |
| Updater.UpdateEachLatestStored | data/updater.py:662-668 | with the latest update requested, a pair reported true has candles in its 1-minute table |
| Updater.UpdateConfigured | data/updater.py:610-626 | one pass over the configured pairs gives a result for exactly the configured names, and never loses a stored candle |
| Updater.UpdatePairs | data/updater.py:600-629 | a non-empty result has exactly the configured names as keys, and named pairs with a reachable database always give one |
| Updater.UpdateAllPairs | data/updater.py:575-637 | no connection gives {}; a non-empty result has one entry per configured pair; the fetcher is shut down on every path |
| Updater.UpdateAllPairsResults | data/updater.py:592-629 | with nothing requested every pair is true, and a pair true after a latest update has candles stored |
| Updater.RunFrom | data/updater.py:703-733 | a run from attempt `a` of `n` has at most `n - a + 1` rounds, at least one when `a ≤ n`, the first being whether the first round fully succeeded; a fully successful first round ends the run at once without sleeping |
| Updater.RunFromShape | data/updater.py:703-733 | at most `retry_attempts` rounds; the run stops at the first round whose results are all true; `retry_delay` is slept only between rounds, never after the last |
| Updater.RunFromEvolves | data/updater.py:703-733 | a run keeps the configuration and never loses a stored candle |
| Updater.UnreachableTerminalEndsRun | data/updater.py:703-714 | an empty result map counts as success: with an unreachable terminal the run ends after one round, without sleeping |
| Updater.RunScheduledUpdate | data/updater.py:687-736 | the settings default to 3 attempts and 300 s, and the run is the recursive retry definition |
| Updater.RunRounds | data/updater.py:703-733 | the retry loop computes the rounds and sleeps of the recursive definition |
| Config.FirstExisting | utils/config.py:20-43 | the reference search gives the first existing candidate, or the fallback when none exists |
| Config.ConfigPath | utils/config.py:10-43 | the path is one of the candidates, and it exists iff some candidate exists |
| Config.ConfigPathIsFirstExisting | utils/config.py:20-43 | the path is the first existing of the package path, the project path and `$FOREX_AI_CONFIG_DIR` (when set), and the package path otherwise |
| Config.ConfigDirOnlyAsLastResort | utils/config.py:35-40 | the variable matters only when neither fixed place holds the file |
| Config.Classify | utils/config.py:109-116 | an all-digit value becomes an int; digits after removing one dot become a float; anything else stays the same string |
| Config.ClassifyRendered | utils/config.py:111-112 | `str(n)` converts back to the integer `n` |
| Config.ClassifyKeepsText | utils/config.py:109-116 | "-5", "" and "1.2.3" stay strings |
| Config.ClassifyDecimal | utils/config.py:113-114 | "1.5" and ".25" become the numbers they denote |
| Config.ApplyAll | utils/config.py:106-120 | the overrides either keep every top-level name or raise the assignment error |
| Config.OverrideWithEnv | utils/config.py:71-120 | `_override_with_env_vars` keeps every top-level name, and its only failure is the assignment error |
| Config.ApplyAllRaises | utils/config.py:106-120 | the overrides raise iff a set variable targets a present entry that is not a mapping |
| Config.ApplyAllPatches | utils/config.py:106-120 | successful overrides keep every top-level name, leave non-mapping entries alone, and set exactly the targeted keys of present sections |
| Config.OnlyMappedVariablesMatter | utils/config.py:106-107 | variables outside the mappings have no effect |
| Config.MappingsDistinct | utils/config.py:81-104 | no two of the eleven variables target the same (section, key) |
| Config.OverrideOfTarget | utils/config.py:106-120 | each mapped place receives its own variable's converted value exactly when that variable is set |
| Config.OverrideWithEnvEffect | utils/config.py:71-120 | only the eleven places change, each to its variable's converted value; no section is created or removed |
| Config.MissingSectionNotCreated | utils/config.py:119-120 | a section missing from the configuration stays missing |
| Config.PresentSectionGetsKey | utils/config.py:119-120 | a present section gets the key of every set variable mapped into it, added if absent |
| Config.UnmappedPlaceUnchanged | utils/config.py:81-120 | when the override succeeds, keys of an existing section that no mapping names keep their values |
| Config.LoadConfig | utils/config.py:45-69 | loading raises `FileNotFoundError` exactly when no candidate path exists; a loaded document keeps the parsed top-level names |
| Config.LoadConfigOutcome | utils/config.py:58-67 | loading fails iff the resolved path is missing or an override targets a non-mapping entry |

## Left out

- MetaTrader 5: the terminal is an oracle that never changes. `symbol_select` for hidden symbols, `get_available_symbols`, `_rates_to_dataframe`'s column handling and the other fields of `get_trading_hours` are not modelled.
- Fetcher: the `copy_rates_from` branch (data/fetcher.py:188-191) needs a start without an end. The start branch always sets an end, so this branch cannot be reached.
- Fetcher: a session is held as its open and close in minutes since midnight. Its "open" and "close" entries are those minutes formatted "hh:mm" by `Session.Open` and `Session.Close`.
- Fetcher: date strings parsed with `strptime` are taken as already-parsed instants. The start-date setting is `None` when absent or unparsable, and both raise.
- SQLAlchemy: engine and session handling, metadata reflection and DDL are not modelled. The `price_data` schema's timestamp primary key is the map key of each table.
- `ensure_currency_pairs`: the test against `self.metadata.tables` (data/database.py:88) compares an unqualified name with schema-qualified keys, so it is always true. The model always calls `_ensure_price_table`, which caches the table and creates it when the database does not have it.
- Concurrency: the thread pool of `update_all_pairs` is a sequential pass in configuration order.
- `update_all_pairs`: the per-future exception branch (data/updater.py:624-626) cannot be reached in the model, because `_update_single_pair` catches every exception. Its "False for a pair whose task raised" therefore has no counterpart.
- Floating point:
  - rounding prices to six decimals (data/database.py:203-207);
  - pip values and spreads are exact reals;
  - `coverage_percent` and the record count of `get_data_coverage` are not modelled, only `expected_count`;
  - GapScan.ExpectedCountAsWritten takes the float divisions of data/database.py:449-470 as exact real division. For any realistic span the float result truncates to the same count.
- Config.Classify: a float override keeps the exact decimal value, not its binary rounding. Only ASCII digits count as digits. Python's limit on the length of digit strings that `int` accepts is not modelled.
- pandas: the time index of a frame is a flag plus an ordered list of candles. The resampler's buckets start at multiples of the period from the epoch. Every one of the seven periods divides a day, so these are the bucket starts of pandas' default origin, midnight of the first day. pandas' `sort_values` defaults to an unstable quicksort, so which of several same-time candles `drop_duplicates` keeps is not fixed. The intended version in the model keeps the first input candle of each timestamp, which is one of the outcomes pandas allows.
- Time: `datetime.now`, `pd.Timestamp.now` and `time.sleep` are parameters. The run records the sleeps it would make instead of sleeping.
- The first `DataUpdater` class (data/updater.py:20-351) is shadowed by the second and is not modelled.
- `run_scheduled_update`: the unused `frequency` setting and the log messages are not modelled.
- Logging, the YAML parser (a function from a path to its document), the CLI script, the directory scaffolding and the tests are not modelled.
- Text.ParseInt: Python's `int` also accepts surrounding whitespace, underscores between digits and non-ASCII digits; those texts give `None` here, as if they raised.
- MarketHours.MarketHour: Python's `int` also accepts surrounding whitespace, underscores between digits and non-ASCII digits; a calendar time such as " 21:00" or "2_1:00" reads as unparsable here and raises.
- PriceStore.TableName: `str.lower` folds every cased Unicode letter; the model folds ASCII letters only, which covers currency pair names.
- Config: paths are strings joined with "/", with no normalisation. `get_module_root` and `get_project_root` are not modelled; the two roots are parameters. A YAML document that is not a mapping at the top level is not modelled.

## Findings

| source | as written | input that shows it | evidently intended | confidence | as-written member | corrected member |
|---|---|---|---|---|---|---|
| data/fetcher.py:142-174 | with neither `start_date` nor `count`, the configured start date is parsed but no request arguments are built, and reading `rate_args` raises `UnboundLocalError` outside the `try` | a connected fetcher asked for "M1" candles of a known symbol with no start and no count | the comment at line 144 says the configured start date is the default, so request the range from it to now | high (not executed) | Fetcher.FetchOhlcvAsWritten, Fetcher.NoStartNoCountExample | Fetcher.FetchOhlcv |
| data/fetcher.py:375-377 | the loop runs `len(opens) // 2` times from index `day_index * 2`, reading far past the day's two values | a 14-value week with day index 4 (Friday) reads index 14 and raises `IndexError` | the comment says MT5 stores two values per day, so read indices `day_index * 2` and `day_index * 2 + 1` | medium (not executed) | Fetcher.ExtractSessionsAsWritten, Fetcher.WeekOfSessionsExample | Fetcher.ExtractSessions |
| data/fetcher.py:255-258 | `_rates_to_dataframe` makes "time" the index, so `drop_duplicates(subset=["time"])` raises `KeyError` outside any `try` once a chunk was collected; the call at line 176 is not guarded, so a count above the maximum never returns candles | a fetcher allowing one candle per request, asked for the two latest "M1" candles of a terminal that answers every request with one candle | return the collected candles sorted by time with one candle per timestamp | high (not executed) | Fetcher.FetchLargeAsWritten, Fetcher.ChunkedCountExample | Fetcher.FetchLarge |
