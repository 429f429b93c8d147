/** The storage half of `DataManager` (data/database.py): the table cache,
    the configured currency pairs, duplicate-free insertion of candles and
    range queries.  The PostgreSQL database is the value `Db`; a database
    that cannot be reached (`online == false`) makes every statement raise,
    and `DataManager` turns each such exception into its documented failure
    value. */
module PriceStore {
  import opened Wrappers
  import opened Text
  import opened Keys
  import opened Candles
  import opened MarketHours

  /** One entry of `data.currency_pairs` in the configuration; absent keys are `None`. */
  datatype PairConfig = PairConfig(
    name: Option<string>,
    description: Option<string>,
    pipValue: Option<real>,
    spreadAvg: Option<real>)

  /** The parts of the configuration `DataManager` reads: `data.currency_pairs`
      and the top-level `calendar` section (`None` when the key is absent). */
  datatype DataConfig = DataConfig(currencyPairs: Option<seq<PairConfig>>, calendar: Option<Calendar>)

  /** A row of the `currency_pairs` table. */
  datatype PairRow = PairRow(id: int, description: string, pipValue: real, spreadAvg: real)

  /** The database: the `currency_pairs` table (with its id sequence) and the
      `price_data` schema's tables by name. */
  datatype Db = Db(online: bool, pairs: map<string, PairRow>, nextId: int, tables: map<string, Table>)

  /** A `DataManager` instance: its configuration, the names in its table
      cache `self.tables`, and the database it talks to. */
  datatype Manager = Manager(config: DataConfig, cache: set<string>, db: Db)

  const DefaultDescription: string := ""
  const DefaultPipValue: real := 0.0001
  const DefaultSpreadAvg: real := 0.0

  /** `f"{pair_name.lower()}_{timeframe}"`. */
  function TableName(pair: string, tf: string): (name: string)
    ensures |name| == |pair| + 1 + |tf|
    ensures name[..|pair|] == Lower(pair) && name[|pair|] == '_' && name[|pair| + 1..] == tf
  {
    Lower(pair) + "_" + tf
  }

  /** Every table the database holds is unchanged, and any table it gained is empty:
      no stored candle was added, removed or altered. */
  predicate RowsUnchanged(before: Db, after: Db) {
    after.pairs == before.pairs && TablesKept(before, after)
  }

  /** No stored candle was removed or altered: every row of every table of
      `before` is still in `after` with the same prices. */
  predicate RowsKept(before: Db, after: Db) {
    forall n :: n in before.tables ==>
      n in after.tables && forall k :: k in before.tables[n] ==> k in after.tables[n] && after.tables[n][k] == before.tables[n][k]
  }

  /** `RowsKept` composes. */
  lemma RowsKeptTransitive(a: Db, b: Db, c: Db)
    requires RowsKept(a, b) && RowsKept(b, c)
    ensures RowsKept(a, c)
  {
  }

  /** Every table of `before` is in `after` with the same rows, and any
      table `after` gained is empty. */
  predicate TablesKept(before: Db, after: Db) {
    && (forall n :: n in before.tables ==> n in after.tables && after.tables[n] == before.tables[n])
    && (forall n :: n in after.tables && n !in before.tables ==> after.tables[n] == map[])
  }

  /** Every cached table name names a table of the database: the cache only
      ever records tables the manager found or created. */
  predicate CacheConsistent(m: Manager) {
    forall n :: n in m.cache ==> n in m.db.tables
  }

  // ---------------------------------------------------------------------
  // _ensure_price_table
  // ---------------------------------------------------------------------

  /** `_ensure_price_table`: a cached name is returned without touching the
      database; otherwise the table is looked up, created empty if missing,
      and cached.  `None` is the exception an unreachable database raises. */
  function EnsurePriceTable(m: Manager, pair: string, tf: string): (r: Option<Manager>)
    ensures TableName(pair, tf) in m.cache ==> r == Some(m)
    ensures r.None? <==> TableName(pair, tf) !in m.cache && !m.db.online
    ensures r.Some? ==> && r.value.config == m.config
                        && r.value.cache == m.cache + {TableName(pair, tf)}
                        && RowsUnchanged(m.db, r.value.db)
                        && r.value.db.online == m.db.online
                        && r.value.db.nextId == m.db.nextId
                        && r.value.db.tables.Keys <= m.db.tables.Keys + {TableName(pair, tf)}
                        && (TableName(pair, tf) !in m.cache ==> TableName(pair, tf) in r.value.db.tables)
                        && (CacheConsistent(m) ==> CacheConsistent(r.value))
  {
    var name := TableName(pair, tf);
    if name in m.cache then Some(m)
    else if !m.db.online then None
    else if name in m.db.tables then Some(m.(cache := m.cache + {name}))
    else Some(m.(cache := m.cache + {name}, db := m.db.(tables := m.db.tables[name := map[]])))
  }

  /** After one successful call the name is cached: a second call returns the
      same manager whatever the database holds, even an unreachable one. */
  lemma CachedTableSkipsDatabase(m: Manager, pair: string, tf: string, other: Db)
    requires EnsurePriceTable(m, pair, tf).Some?
    ensures var m1 := EnsurePriceTable(m, pair, tf).value;
            && EnsurePriceTable(m1, pair, tf) == Some(m1)
            && EnsurePriceTable(m1.(db := other), pair, tf) == Some(m1.(db := other))
  {
  }

  // ---------------------------------------------------------------------
  // ensure_currency_pairs
  // ---------------------------------------------------------------------

  /** The row a configuration entry asks for, with the documented defaults. */
  function Configured(c: PairConfig, id: int): PairRow {
    PairRow(id, c.description.GetOr(DefaultDescription), c.pipValue.GetOr(DefaultPipValue),
            c.spreadAvg.GetOr(DefaultSpreadAvg))
  }

  /** Every entry has a `name` (otherwise `pair_config["name"]` raises). */
  predicate AllNamed(cfgs: seq<PairConfig>) {
    forall i :: 0 <= i < |cfgs| ==> cfgs[i].name.Some?
  }

  /** The names the configuration entries carry. */
  function ConfiguredNames(cfgs: seq<PairConfig>): set<string> {
    set c | c in cfgs && c.name.Some? :: c.name.value
  }

  /** The entry whose values a name finally has in the database: the last
      one naming it, since later entries overwrite earlier ones. */
  function LastConfig(cfgs: seq<PairConfig>, n: string): (r: Option<PairConfig>)
    ensures r.Some? <==> n in ConfiguredNames(cfgs)
    ensures r.Some? ==> r.value.name == Some(n) && r.value in cfgs
  {
    if |cfgs| == 0 then None
    else
      var later := LastConfig(cfgs[1..], n);
      assert forall c :: c in cfgs <==> c == cfgs[0] || c in cfgs[1..];
      if later.Some? then later
      else if cfgs[0].name == Some(n) then Some(cfgs[0])
      else None
  }

  /** `LastConfig` picks exactly the last entry carrying the name. */
  lemma {:induction false} LastConfigIsLast(cfgs: seq<PairConfig>, i: int, n: string)
    requires IsLastFor(cfgs, i, n)
    ensures LastConfig(cfgs, n) == Some(cfgs[i])
    decreases |cfgs|
  {
    if i > 0 {
      forall j | i - 1 < j < |cfgs[1..]| ensures cfgs[1..][j].name != Some(n) {
        assert cfgs[1..][j] == cfgs[j + 1];
      }
      assert cfgs[1..][i - 1] == cfgs[i];
      LastConfigIsLast(cfgs[1..], i - 1, n);
    }
  }

  /** Outcome of the reconciliation loop: whether it ran to the end without
      raising, the name-to-id map built so far, and the manager afterwards
      (every pair row is committed as soon as it is written). */
  datatype Upserted = Upserted(ok: bool, ids: map<string, int>, mgr: Manager)

  /** One iteration of the loop on a reachable database: the pair's row is
      created with the next id, or its fields are brought in line with the
      entry; then its 1-minute table is ensured.  Returns the row id. */
  function UpsertPair(c: PairConfig, m: Manager): (r: (int, Manager))
    requires c.name.Some? && m.db.online
    ensures var (id, m2) := r;
            && m2.config == m.config && m2.db.online
            && (c.name.value in m.db.pairs ==> id == m.db.pairs[c.name.value].id)
            && m2.db.pairs == m.db.pairs[c.name.value := Configured(c, id)]
            && TablesKept(m.db, m2.db)
            && (CacheConsistent(m) ==> CacheConsistent(m2) && TableName(c.name.value, "1m") in m2.db.tables)
  {
    var name := c.name.value;
    var id := if name in m.db.pairs then m.db.pairs[name].id else m.db.nextId;
    var nextId := if name in m.db.pairs then m.db.nextId else m.db.nextId + 1;
    var m1 := m.(db := m.db.(pairs := m.db.pairs[name := Configured(c, id)], nextId := nextId));
    (id, EnsurePriceTable(m1, name, "1m").value)
  }

  /** The loop of `ensure_currency_pairs` over the remaining entries, each
      step recording the pair's id. */
  function UpsertPairs(cfgs: seq<PairConfig>, m: Manager, acc: map<string, int>): (r: Upserted)
    ensures r.mgr.config == m.config && r.mgr.db.online == m.db.online
    ensures r.ok <==> AllNamed(cfgs) && (|cfgs| == 0 || m.db.online)
    ensures forall n :: n in m.db.pairs ==> n in r.mgr.db.pairs
    ensures forall n :: n in m.db.pairs && n !in ConfiguredNames(cfgs) ==> r.mgr.db.pairs[n] == m.db.pairs[n]
    ensures TablesKept(m.db, r.mgr.db)
    ensures CacheConsistent(m) ==> CacheConsistent(r.mgr)
    decreases |cfgs|
  {
    if |cfgs| == 0 then Upserted(true, acc, m)
    else if cfgs[0].name.None? || !m.db.online then Upserted(false, acc, m)
    else
      var (id, m2) := UpsertPair(cfgs[0], m);
      assert AllNamed(cfgs) <==> AllNamed(cfgs[1..]) by {
        assert forall i :: 1 <= i < |cfgs| ==> cfgs[i] == cfgs[1..][i - 1];
      }
      assert forall c :: c in cfgs <==> c == cfgs[0] || c in cfgs[1..];
      UpsertPairs(cfgs[1..], m2, acc[cfgs[0].name.value := id])
  }

  /** A run of the loop that does not raise records an id for exactly the
      configured names, and keeps the ids recorded earlier for other names. */
  lemma {:induction false} UpsertPairsIds(cfgs: seq<PairConfig>, m: Manager, acc: map<string, int>)
    requires UpsertPairs(cfgs, m, acc).ok
    ensures var r := UpsertPairs(cfgs, m, acc);
            && r.ids.Keys == acc.Keys + ConfiguredNames(cfgs)
            && (forall n :: n in acc && n !in ConfiguredNames(cfgs) ==> r.ids[n] == acc[n])
    decreases |cfgs|
  {
    if |cfgs| > 0 {
      var (id, m2) := UpsertPair(cfgs[0], m);
      var rest := cfgs[1..];
      assert forall c :: c in cfgs <==> c == cfgs[0] || c in rest;
      assert ConfiguredNames(cfgs) == {cfgs[0].name.value} + ConfiguredNames(rest);
      UpsertPairsIds(rest, m2, acc[cfgs[0].name.value := id]);
    }
  }

  /** After a run of the loop that does not raise, each configured name has a
      row holding the values of the last entry naming it under its recorded
      id, and (when the cache was consistent) a 1-minute table. */
  lemma {:induction false} UpsertPairsRows(cfgs: seq<PairConfig>, m: Manager, acc: map<string, int>)
    requires UpsertPairs(cfgs, m, acc).ok
    ensures var r := UpsertPairs(cfgs, m, acc);
            forall n :: n in ConfiguredNames(cfgs) ==>
              && n in r.mgr.db.pairs && n in r.ids
              && r.mgr.db.pairs[n] == Configured(LastConfig(cfgs, n).value, r.ids[n])
              && (CacheConsistent(m) ==> TableName(n, "1m") in r.mgr.db.tables)
    decreases |cfgs|
  {
    if |cfgs| > 0 {
      var c := cfgs[0];
      var name := c.name.value;
      var (id, m2) := UpsertPair(c, m);
      var rest := cfgs[1..];
      var r := UpsertPairs(rest, m2, acc[name := id]);
      assert forall c :: c in cfgs <==> c == cfgs[0] || c in rest;
      assert ConfiguredNames(cfgs) == {name} + ConfiguredNames(rest);
      UpsertPairsIds(rest, m2, acc[name := id]);
      UpsertPairsRows(rest, m2, acc[name := id]);
      if name !in ConfiguredNames(rest) {
        assert LastConfig(cfgs, name) == Some(c);
        assert r.mgr.db.pairs[name] == m2.db.pairs[name];
      }
      forall n | n in ConfiguredNames(rest) ensures LastConfig(cfgs, n) == LastConfig(rest, n) { }
    }
  }

  /** `ensure_currency_pairs`: every configured pair gets a row holding its
      configured description, pip value and average spread (defaults "",
      0.0001 and 0) and a 1-minute price table; the result maps each
      configured name to its row id.  A missing `currency_pairs` or `name`
      key, or an unreachable database, yields the empty map (rows committed
      before the failure stay). */
  function EnsureCurrencyPairs(m: Manager): (r: (map<string, int>, Manager))
    ensures r.1.config == m.config && r.1.db.online == m.db.online
    ensures m.config.currencyPairs.None? ==> r == (map[], m)
    ensures var ps := m.config.currencyPairs;
            ps.Some? && AllNamed(ps.value) && (|ps.value| == 0 || m.db.online) ==>
              && r.0.Keys == ConfiguredNames(ps.value)
              && (forall n :: n in r.0 ==> && n in r.1.db.pairs
                                           && r.0[n] == r.1.db.pairs[n].id
                                           && (CacheConsistent(m) ==> TableName(n, "1m") in r.1.db.tables))
              && (forall i, n :: IsLastFor(ps.value, i, n) ==> r.1.db.pairs[n] == Configured(ps.value[i], r.0[n]))
    ensures var ps := m.config.currencyPairs;
            ps.None? || !AllNamed(ps.value) || (|ps.value| > 0 && !m.db.online) ==> r.0 == map[]
    ensures TablesKept(m.db, r.1.db)
    ensures CacheConsistent(m) ==> CacheConsistent(r.1)
  {
    match m.config.currencyPairs
    case None => (map[], m)
    case Some(cfgs) =>
      var u := UpsertPairs(cfgs, m, map[]);
      if u.ok then
        UpsertPairsIds(cfgs, m, map[]);
        UpsertPairsRows(cfgs, m, map[]);
        forall i, n | IsLastFor(cfgs, i, n) ensures u.mgr.db.pairs[n] == Configured(cfgs[i], u.ids[n]) {
          LastConfigIsLast(cfgs, i, n);
        }
        (u.ids, u.mgr)
      else (map[], u.mgr)
  }

  /** `cfgs[i]` is the last entry naming `n`. */
  predicate IsLastFor(cfgs: seq<PairConfig>, i: int, n: string) {
    0 <= i < |cfgs| && cfgs[i].name == Some(n) && forall j :: i < j < |cfgs| ==> cfgs[j].name != Some(n)
  }

  // ---------------------------------------------------------------------
  // store_price_data
  // ---------------------------------------------------------------------

  /** The candles whose timestamp the table does not hold yet, in input order. */
  function NewRows(rows: seq<Bar>, table: Table): (r: seq<Bar>)
    ensures |r| <= |rows|
    ensures forall b :: b in r <==> b in rows && b.time !in table
    ensures AscendingTimes(rows) ==> AscendingTimes(r)
  {
    if |rows| == 0 then []
    else
      var rest := NewRows(rows[1..], table);
      assert AscendingTimes(rows) ==> AscendingTimes(rows[1..]) by {
        if AscendingTimes(rows) {
          forall i, j | 0 <= i < j < |rows[1..]| ensures rows[1..][i].time < rows[1..][j].time {
            assert rows[1..][i] == rows[i + 1] && rows[1..][j] == rows[j + 1];
          }
        }
      }
      if rows[0].time in table then rest
      else
        assert AscendingTimes(rows) ==> AscendingTimes([rows[0]] + rest) by {
          if AscendingTimes(rows) {
            forall c | c in rest ensures rows[0].time < c.time {
              var j :| 0 <= j < |rows[1..]| && rows[1..][j] == c;
              assert rows[j + 1] == c;
            }
            AscendingCons(rows[0], rest);
          }
        }
        [rows[0]] + rest
  }

  /** No two candles share a timestamp. */
  predicate DistinctTimes(rows: seq<Bar>) {
    forall i, j :: 0 <= i < j < |rows| ==> rows[i].time != rows[j].time
  }

  /** Inserting candles with fresh, distinct timestamps: every old row stays,
      every new candle is stored under its timestamp, and nothing else appears. */
  function Insert(table: Table, rows: seq<Bar>): (t: Table)
    requires DistinctTimes(rows)
    requires forall b :: b in rows ==> b.time !in table
    ensures forall k :: k in table ==> k in t && t[k] == table[k]
    ensures forall b :: b in rows ==> b.time in t && t[b.time] == b.price
    ensures forall k :: k in t && k !in table ==> Bar(k, t[k]) in rows
    decreases |rows|
  {
    if |rows| == 0 then table
    else
      var t1 := table[rows[0].time := rows[0].price];
      assert forall b :: b in rows <==> b == rows[0] || b in rows[1..];
      assert forall b :: b in rows[1..] ==> b.time != rows[0].time by {
        forall b | b in rows[1..] ensures b.time != rows[0].time {
          var j :| 0 <= j < |rows[1..]| && rows[1..][j] == b;
          assert rows[j + 1] == b;
        }
      }
      assert DistinctTimes(rows[1..]) by {
        forall i, j | 0 <= i < j < |rows[1..]| ensures rows[1..][i].time != rows[1..][j].time {
          assert rows[1..][i] == rows[i + 1] && rows[1..][j] == rows[j + 1];
        }
      }
      Insert(t1, rows[1..])
  }

  /** Whether the single insert transaction commits: either nothing is new,
      or the new candles do not collide on the primary key. */
  predicate InsertCommits(rows: seq<Bar>, table: Table) {
    var incoming := NewRows(rows, table);
    |incoming| == 0 || DistinctTimes(incoming)
  }

  /** One step of `NewRows`. */
  lemma NewRowsStep(rows: seq<Bar>, table: Table)
    requires |rows| > 0
    ensures NewRows(rows, table) ==
              if rows[0].time in table then NewRows(rows[1..], table) else [rows[0]] + NewRows(rows[1..], table)
  {
  }

  /** Each candle whose timestamp is not stored comes out as often as it
      comes in; the others not at all. */
  lemma {:induction false} NewRowsCounts(rows: seq<Bar>, table: Table)
    ensures forall b :: multiset(NewRows(rows, table))[b] == if b.time in table then 0 else multiset(rows)[b]
    decreases |rows|
  {
    if |rows| > 0 {
      NewRowsCounts(rows[1..], table);
      NewRowsStep(rows, table);
      CountsCons(rows, NewRows(rows, table), NewRows(rows[1..], table), table);
    }
  }

  /** The step of `NewRowsCounts`, on plain sequences. */
  lemma CountsCons(rows: seq<Bar>, r: seq<Bar>, rest: seq<Bar>, table: Table)
    requires |rows| > 0
    requires r == if rows[0].time in table then rest else [rows[0]] + rest
    requires forall b :: multiset(rest)[b] == if b.time in table then 0 else multiset(rows[1..])[b]
    ensures forall b :: multiset(r)[b] == if b.time in table then 0 else multiset(rows)[b]
  {
    assert rows == [rows[0]] + rows[1..];
  }

  /** Filtering keeps input order: the new candles of two runs of input
      are those of the first run followed by those of the second. */
  lemma {:induction false} NewRowsAppend(a: seq<Bar>, b: seq<Bar>, table: Table)
    ensures NewRows(a + b, table) == NewRows(a, table) + NewRows(b, table)
    decreases |a|
  {
    if |a| == 0 {
      assert a + b == b;
    } else {
      NewRowsAppend(a[1..], b, table);
      NewRowsAppendStep(a, b, table);
    }
  }

  /** The step of `NewRowsAppend`, from `a[1..]` to `a`. */
  lemma NewRowsAppendStep(a: seq<Bar>, b: seq<Bar>, table: Table)
    requires |a| > 0
    requires NewRows(a[1..] + b, table) == NewRows(a[1..], table) + NewRows(b, table)
    ensures NewRows(a + b, table) == NewRows(a, table) + NewRows(b, table)
  {
    TailOfAppend(a, b);
    NewRowsStep(a + b, table);
    NewRowsStep(a, table);
    PrependAppend(a[0].time !in table, [a[0]], NewRows(a + b, table), NewRows(a, table),
                  NewRows(a[1..] + b, table), NewRows(a[1..], table), NewRows(b, table));
  }

  /** Dropping the head of a concatenation with a non-empty first part. */
  lemma TailOfAppend<T>(a: seq<T>, b: seq<T>)
    requires |a| > 0
    ensures (a + b)[0] == a[0] && (a + b)[1..] == a[1..] + b
  {
  }

  /** Putting the same prefix, or none, in front of both sides of `rab == ra + rb`. */
  lemma PrependAppend<T>(keep: bool, x: seq<T>, wab: seq<T>, wa: seq<T>, rab: seq<T>, ra: seq<T>, rb: seq<T>)
    requires rab == ra + rb
    requires wab == if keep then x + rab else rab
    requires wa == if keep then x + ra else ra
    ensures wab == wa + rb
  {
  }

  /** A single candle is new exactly when its timestamp is not stored. */
  lemma NewRowsSingle(x: Bar, table: Table)
    ensures NewRows([x], table) == if x.time in table then [] else [x]
  {
    assert [x][1..] == [];
    NewRowsStep([x], table);
  }

  /** No candle whose timestamp is not stored shares it with a later candle. */
  predicate FreshTimesDistinct(rows: seq<Bar>, table: Table) {
    forall i, j :: 0 <= i < j < |rows| && rows[i].time !in table ==> rows[i].time != rows[j].time
  }

  /** The insert commits exactly when no new timestamp comes in twice:
      `isin` drops only stored timestamps, so a repeated new one reaches the
      insert and collides on the primary key. */
  lemma {:induction false} InsertCommitsExactly(rows: seq<Bar>, table: Table)
    ensures InsertCommits(rows, table) <==> FreshTimesDistinct(rows, table)
    decreases |rows|
  {
    if |rows| > 0 {
      var x := rows[0];
      var tl := rows[1..];
      var rest := NewRows(tl, table);
      InsertCommitsExactly(tl, table);
      assert InsertCommits(tl, table) <==> DistinctTimes(rest);
      FreshTimesDistinctCons(rows, table);
      if x.time !in table {
        assert NewRows(rows, table) == [x] + rest;
        DistinctTimesCons(x, rest);
        NoClashWithFresh(x, tl, table);
      } else {
        assert NewRows(rows, table) == rest;
      }
    }
  }

  /** `FreshTimesDistinct` of a non-empty sequence, split at its head. */
  lemma FreshTimesDistinctCons(rows: seq<Bar>, table: Table)
    requires |rows| > 0
    ensures FreshTimesDistinct(rows, table) <==>
              && FreshTimesDistinct(rows[1..], table)
              && (rows[0].time !in table ==> forall j :: 0 <= j < |rows[1..]| ==> rows[1..][j].time != rows[0].time)
  {
    var tl := rows[1..];
    if FreshTimesDistinct(rows, table) {
      forall i, j | 0 <= i < j < |tl| && tl[i].time !in table ensures tl[i].time != tl[j].time {
        assert tl[i] == rows[i + 1] && tl[j] == rows[j + 1];
      }
      forall j | 0 <= j < |tl| && rows[0].time !in table ensures tl[j].time != rows[0].time {
        assert tl[j] == rows[j + 1];
      }
    }
  }

  /** `DistinctTimes` of a sequence with a candle put in front. */
  lemma DistinctTimesCons(x: Bar, s: seq<Bar>)
    ensures DistinctTimes([x] + s) <==> DistinctTimes(s) && forall c :: c in s ==> c.time != x.time
  {
    var xs := [x] + s;
    if DistinctTimes(xs) {
      forall i, j | 0 <= i < j < |s| ensures s[i].time != s[j].time {
        assert s[i] == xs[i + 1] && s[j] == xs[j + 1];
      }
      forall c | c in s ensures c.time != x.time {
        var j :| 0 <= j < |s| && s[j] == c;
        assert xs[0] == x && xs[j + 1] == c;
      }
    }
    if DistinctTimes(s) && forall c :: c in s ==> c.time != x.time {
      forall i, j | 0 <= i < j < |xs| ensures xs[i].time != xs[j].time {
        assert xs[j] == s[j - 1];
        if i > 0 {
          assert xs[i] == s[i - 1];
        }
      }
    }
  }

  /** A new candle clashes with none of the later new candles exactly when
      no later candle at all shares its timestamp. */
  lemma NoClashWithFresh(x: Bar, tl: seq<Bar>, table: Table)
    requires x.time !in table
    ensures (forall c :: c in NewRows(tl, table) ==> c.time != x.time) <==>
            (forall j :: 0 <= j < |tl| ==> tl[j].time != x.time)
  {
    if forall c :: c in NewRows(tl, table) ==> c.time != x.time {
      forall j | 0 <= j < |tl| ensures tl[j].time != x.time {
        assert tl[j] in tl;
      }
    }
  }

  /** The effect on one reachable table: drop the candles already stored,
      insert the rest; `None` when the insert fails. */
  function InsertNew(table: Table, rows: seq<Bar>): (r: Option<Table>)
    ensures r.Some? <==> InsertCommits(rows, table)
    ensures r.Some? ==> var t := r.value;
              && (forall k :: k in table ==> k in t && t[k] == table[k])
              && (forall b :: b in rows ==> b.time in t)
              && (forall k :: k in t && k !in table ==> Bar(k, t[k]) in rows)
    ensures (forall b :: b in rows ==> b.time in table) ==> r == Some(table)
  {
    var incoming := NewRows(rows, table);
    if |incoming| == 0 then
      Some(table)
    else if !DistinctTimes(incoming) then None
    else
      assert incoming[0] in incoming;
      Some(Insert(table, incoming))
  }

  /** Outcome of `store_price_data`: the returned flag and the manager after the call. */
  datatype Stored = Stored(ok: bool, mgr: Manager)

  /** `store_price_data`.  An empty frame is refused before anything else; the
      table is then ensured (and cached) even when the frame turns out to have
      no `time`.  Candles whose timestamp is already stored are dropped and
      the rest go in one transaction, which a primary-key collision among
      them (or an unreachable database) rolls back.  On success no stored
      row is overwritten, every incoming timestamp is stored, and every new
      row is one of the incoming candles. */
  function StorePriceData(m: Manager, pair: string, frame: Frame, tf: string): (r: Stored)
    ensures r.mgr.config == m.config && r.mgr.db.online == m.db.online && r.mgr.db.pairs == m.db.pairs
    ensures CacheConsistent(m) ==> CacheConsistent(r.mgr)
    ensures |frame.rows| == 0 ==> r == Stored(false, m)
    ensures r.ok ==> |frame.rows| > 0 && frame.timed
    ensures !r.ok ==> RowsUnchanged(m.db, r.mgr.db)
    ensures RowsKept(m.db, r.mgr.db)
    ensures r.mgr.db.tables.Keys <= m.db.tables.Keys + {TableName(pair, tf)}
    ensures forall n :: n in m.db.tables && n != TableName(pair, tf) ==>
              n in r.mgr.db.tables && r.mgr.db.tables[n] == m.db.tables[n]
    ensures r.ok ==> var name := TableName(pair, tf);
                     var before := if name in m.db.tables then m.db.tables[name] else map[];
                     && name in r.mgr.db.tables
                     && (forall k :: k in before ==> k in r.mgr.db.tables[name] && r.mgr.db.tables[name][k] == before[k])
                     && (forall b :: b in frame.rows ==> b.time in r.mgr.db.tables[name])
                     && (forall k :: k in r.mgr.db.tables[name] && k !in before ==>
                           Bar(k, r.mgr.db.tables[name][k]) in frame.rows)
  {
    if |frame.rows| == 0 then Stored(false, m)
    else match EnsurePriceTable(m, pair, tf)
      case None => Stored(false, m)
      case Some(m1) =>
        var name := TableName(pair, tf);
        if !frame.timed || !m1.db.online || name !in m1.db.tables then Stored(false, m1)
        else match InsertNew(m1.db.tables[name], frame.rows)
          case None => Stored(false, m1)
          case Some(t) => Stored(true, m1.(db := m1.db.(tables := m1.db.tables[name := t])))
  }

  /** `store_price_data` succeeds exactly when the frame is non-empty and has
      a time, the table can be reached, and the insert transaction commits. */
  lemma StoreSucceedsExactly(m: Manager, pair: string, frame: Frame, tf: string)
    ensures var name := TableName(pair, tf);
            var m1 := EnsurePriceTable(m, pair, tf);
            StorePriceData(m, pair, frame, tf).ok <==>
              && |frame.rows| > 0 && frame.timed && m1.Some? && m1.value.db.online
              && name in m1.value.db.tables
              && InsertCommits(frame.rows, m1.value.db.tables[name])
  {
  }

  /** Storing candles whose timestamps are all stored already succeeds and
      leaves every table's rows as they were. */
  lemma StoreOfStoredRowsIsNoOp(m: Manager, pair: string, frame: Frame, tf: string)
    requires |frame.rows| > 0 && frame.timed && m.db.online
    requires TableName(pair, tf) in m.db.tables
    requires forall b :: b in frame.rows ==> b.time in m.db.tables[TableName(pair, tf)]
    ensures StorePriceData(m, pair, frame, tf).ok
    ensures StorePriceData(m, pair, frame, tf).mgr.db == m.db
  {
  }

  // ---------------------------------------------------------------------
  // get_price_data
  // ---------------------------------------------------------------------

  /** The SQL `WHERE` of `get_price_data`: a missing bound does not filter. */
  predicate InRange(t: int, start: Option<int>, end: Option<int>) {
    (start.None? || start.value <= t) && (end.None? || t <= end.value)
  }

  /** The stored candles at the given ascending keys that fall within the bounds, in key order. */
  function RowsAt(table: Table, keys: seq<int>, start: Option<int>, end: Option<int>): (r: seq<Bar>)
    requires forall k :: k in keys ==> k in table
    requires StrictlyIncreasing(keys)
    ensures AscendingTimes(r)
    ensures forall b :: b in r ==> b.time in keys && b.time in table && b.price == table[b.time] && InRange(b.time, start, end)
    ensures forall k :: k in keys && InRange(k, start, end) ==> Bar(k, table[k]) in r
  {
    if |keys| == 0 then []
    else
      var rest := RowsAt(table, keys[1..], start, end);
      assert forall k :: k in keys <==> k == keys[0] || k in keys[1..];
      assert StrictlyIncreasing(keys[1..]) by {
        forall i, j | 0 <= i < j < |keys[1..]| ensures keys[1..][i] < keys[1..][j] {
          assert keys[1..][i] == keys[i + 1] && keys[1..][j] == keys[j + 1];
        }
      }
      if InRange(keys[0], start, end) then
        forall b | b in rest ensures keys[0] < b.time {
          var j :| 0 <= j < |keys[1..]| && keys[1..][j] == b.time;
          assert keys[j + 1] == b.time;
        }
        AscendingCons(Bar(keys[0], table[keys[0]]), rest);
        [Bar(keys[0], table[keys[0]])] + rest
      else rest
  }

  /** `SELECT * WHERE start <= timestamp <= end ORDER BY timestamp` on one table. */
  function SelectRange(table: Table, start: Option<int>, end: Option<int>): (r: seq<Bar>)
    ensures AscendingTimes(r)
    ensures forall b :: b in r ==> b.time in table && b.price == table[b.time] && InRange(b.time, start, end)
    ensures forall k :: k in table && InRange(k, start, end) ==> Bar(k, table[k]) in r
  {
    var keys := SortedKeys(table.Keys);
    assert forall k :: k in keys ==> k in table by {
      forall k | k in keys ensures k in table {
        var i :| 0 <= i < |keys| && keys[i] == k;
      }
    }
    RowsAt(table, keys, start, end)
  }

  /** `if limit:` in Python: `None` and `0` both mean "no limit". */
  predicate Limits(limit: Option<int>) {
    limit.Some? && limit.value != 0
  }

  /** `.limit(n)` on an ordered result: its first `n` rows. */
  function Limited(rows: seq<Bar>, limit: Option<int>): (r: seq<Bar>)
    requires limit.None? || limit.value >= 0
    ensures r <= rows
    ensures Limits(limit) ==> |r| == if |rows| < limit.value then |rows| else limit.value
    ensures !Limits(limit) ==> r == rows
  {
    if Limits(limit) && limit.value < |rows| then rows[..limit.value] else rows
  }

  /** The rows `get_price_data` reads from one table: those within the
      bounds in ascending order, cut to the first `limit` when one is given. */
  function Query(table: Table, start: Option<int>, end: Option<int>, limit: Option<int>): (rows: seq<Bar>)
    requires limit.None? || limit.value >= 0
    ensures AscendingTimes(rows)
    ensures forall b :: b in rows ==> b.time in table && b.price == table[b.time] && InRange(b.time, start, end)
    ensures Limits(limit) ==> |rows| <= limit.value
  {
    var all := SelectRange(table, start, end);
    var rows := Limited(all, limit);
    PrefixMembers(rows, all);
    rows
  }

  /** The query comes back empty exactly when no stored candle is in range,
      and otherwise misses no candle in range up to the last one returned. */
  lemma QueryComplete(table: Table, start: Option<int>, end: Option<int>, limit: Option<int>)
    requires limit.None? || limit.value >= 0
    ensures var rows := Query(table, start, end, limit);
            && (|rows| == 0 <==> forall k :: k in table ==> !InRange(k, start, end))
            && (|rows| > 0 ==> forall k :: (k in table && InRange(k, start, end)
                                            && (!Limits(limit) || k <= rows[|rows| - 1].time)
                                            ==> Bar(k, table[k]) in rows))
  {
    var all := SelectRange(table, start, end);
    var rows := Query(table, start, end, limit);
    assert rows == Limited(all, limit);
    if |rows| > 0 {
      assert rows[0] in rows;
      forall k | k in table && InRange(k, start, end) && (!Limits(limit) || k <= rows[|rows| - 1].time)
        ensures Bar(k, table[k]) in rows
      {
        assert Bar(k, table[k]) in all;
        if Limits(limit) {
          PrefixKeepsEarlier(all, rows, Bar(k, table[k]));
        }
      }
    }
  }

  /** A prefix holds only candles of the whole, in the same order. */
  lemma PrefixMembers(rows: seq<Bar>, all: seq<Bar>)
    requires rows <= all
    ensures forall b :: b in rows ==> b in all
    ensures AscendingTimes(all) ==> AscendingTimes(rows)
  {
    forall b | b in rows ensures b in all {
      var j :| 0 <= j < |rows| && rows[j] == b;
      assert all[j] == b;
    }
  }

  /** A non-empty prefix of an ascending run holds every candle of the run
      that is not later than the prefix's last one. */
  lemma PrefixKeepsEarlier(all: seq<Bar>, rows: seq<Bar>, b: Bar)
    requires AscendingTimes(all) && rows <= all && |rows| > 0
    requires b in all && b.time <= rows[|rows| - 1].time
    ensures b in rows
  {
    var j :| 0 <= j < |all| && all[j] == b;
    if j < |rows| {
      assert rows[j] == all[j];
    }
  }

  /** Outcome of `get_price_data`: the rows (`None` for "no data or error")
      and the manager after the call. */
  datatype Fetched = Fetched(rows: Option<seq<Bar>>, mgr: Manager)

  /** `get_price_data`: the stored candles within the inclusive bounds in
      ascending time order, the first `limit` of them when a non-zero limit
      is given; `None` when nothing matches, the table cannot be reached, or
      the limit is negative (which PostgreSQL rejects). */
  function GetPriceData(m: Manager, pair: string, tf: string, start: Option<int>, end: Option<int>,
                        limit: Option<int>): (r: Fetched)
    ensures RowsUnchanged(m.db, r.mgr.db) && r.mgr.config == m.config && r.mgr.db.online == m.db.online
    ensures CacheConsistent(m) ==> CacheConsistent(r.mgr)
    ensures r.mgr.db.tables.Keys <= m.db.tables.Keys + {TableName(pair, tf)}
    ensures r.rows.Some? <==> && m.db.online && TableName(pair, tf) in r.mgr.db.tables
                              && (limit.None? || limit.value >= 0)
                              && exists k :: k in r.mgr.db.tables[TableName(pair, tf)] && InRange(k, start, end)
    ensures r.rows.Some? ==> r.rows.value == Query(r.mgr.db.tables[TableName(pair, tf)], start, end, limit)
  {
    match EnsurePriceTable(m, pair, tf)
    case None => Fetched(None, m)
    case Some(m1) =>
      var name := TableName(pair, tf);
      if !m1.db.online || name !in m1.db.tables || (limit.Some? && limit.value < 0) then Fetched(None, m1)
      else
        var rows := Query(m1.db.tables[name], start, end, limit);
        QueryComplete(m1.db.tables[name], start, end, limit);
        if |rows| == 0 then Fetched(None, m1) else Fetched(Some(rows), m1)
  }
}
