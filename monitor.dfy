/**
 * One sampling tick, `monitor(sqlitedb)`: fetch the prices, then for every
 * tracked coin in order insert a row and check the change against the coin's
 * latest row. A fetch failure, or a coin missing from the fetched data, ends
 * the tick at the catch-all.
 */
module Monitor {
  import opened Wrappers
  import opened PricesTable
  import opened DbMigrations

  /** The coins the program tracks, in the order a tick visits them. */
  const Coins: seq<string> := [
    "bitcoin", "ethereum", "ripple", "tether", "solana", "binancecoin", "dogecoin", "tron",
    "chainlink", "weth", "litecoin", "official-trump", "pepe", "binance-staked-sol", "mantle-staked-ether",
    "msol", "solv-btc"]

  predicate Distinct(coins: seq<string>)
  {
    forall i, j :: 0 <= i < j < |coins| ==> coins[i] != coins[j]
  }

  /** No coin is tracked twice. */
  lemma CoinsDistinct()
    ensures Distinct(Coins)
  {
  }

  /** What `await fetchCoinData()` gives: a rejection, or the price in USD of each coin the API returned. */
  datatype FetchResult = FetchFailed | Fetched(data: map<string, real>)

  /**
   * The order in which the engine runs a coin's insert and the query of its
   * check. Both are issued back to back on one connection without
   * `serialize()`, so the program does not fix it.
   */
  datatype Order = ReadBeforeInsert | ReadAfterInsert

  /**
   * Everything outside the program that decides a tick besides the fetch: the
   * insert time, the order of each coin's two statements, and the faults the
   * engine meets on a coin's insert and on its query.
   */
  datatype Env = Env(now: int, order: Order, insertFaults: map<string, string>, lookupFaults: map<string, string>)

  /** One iteration of the loop: the coin, its fetched price, the insert's error, the answer its check read, the alert. */
  datatype Check = Check(coin: string, price: real, insertError: Option<string>, previous: Lookup, alert: Option<Alert>)

  /** A tick after a successful fetch: the coin list, the table it starts from, the fetched data and its environment. */
  datatype TickInput = TickInput(coins: seq<string>, tableExists: bool, rows: seq<Row>, data: map<string, real>, env: Env)

  /** The number of leading coins present in the fetched data: the loop reaches the first missing one and throws. */
  function PresentPrefix(coins: seq<string>, data: map<string, real>): (n: nat)
    ensures n <= |coins|
    ensures forall k :: 0 <= k < n ==> coins[k] in data
    ensures n < |coins| ==> coins[n] !in data
  {
    if coins == [] || coins[0] !in data then 0 else 1 + PresentPrefix(coins[1..], data)
  }

  /** How many coins a tick processes. */
  function Processed(fetch: FetchResult): nat
  {
    match fetch
    case FetchFailed => 0
    case Fetched(data) => PresentPrefix(Coins, data)
  }

  /**
   * If coin k is the first one missing, exactly the coins before it are
   * processed; if none is missing, all are.
   */
  lemma {:induction false} FirstMissingEndsLoop(coins: seq<string>, data: map<string, real>, k: nat)
    requires k <= |coins| && (k < |coins| ==> coins[k] !in data)
    requires forall j :: 0 <= j < k ==> coins[j] in data
    ensures PresentPrefix(coins, data) == k
  {
    if k > 0 {
      FirstMissingEndsLoop(coins[1..], data, k - 1);
    }
  }

  /** The loop gets past the first n coins of the tick. */
  predicate Reaches(t: TickInput, n: nat)
  {
    n <= |t.coins| && forall k :: 0 <= k < n ==> t.coins[k] in t.data
  }

  /** The error the insert of `coin` reports in a tick. */
  function InsertError(t: TickInput, coin: string): Option<string>
  {
    StatementError(t.tableExists, Get(t.env.insertFaults, coin))
  }

  /** The table once the inserts of the first `n` coins of a tick have run. */
  function TableAfter(t: TickInput, n: nat): (rows: seq<Row>)
    requires Reaches(t, n)
    ensures |t.rows| <= |rows| && rows[..|t.rows|] == t.rows
    ensures !t.tableExists ==> rows == t.rows
    ensures ConsecutiveIds(t.rows) ==> ConsecutiveIds(rows)
  {
    if n == 0 then t.rows
    else
      var before := TableAfter(t, n - 1);
      var coin := t.coins[n - 1];
      if InsertError(t, coin).None? then Appended(before, coin, t.data[coin], t.env.now) else before
  }

  /** The table the check of coin k reads: before or after that coin's own insert. */
  function CheckedTable(t: TickInput, k: nat): seq<Row>
    requires Reaches(t, k + 1)
  {
    TableAfter(t, if t.env.order == ReadAfterInsert then k + 1 else k)
  }

  /** `c` is what iteration k of the tick may produce. */
  ghost predicate CheckOfTick(t: TickInput, k: nat, c: Check)
    requires Reaches(t, k + 1)
  {
    var coin := t.coins[k];
    && c.coin == coin
    && c.price == t.data[coin]
    && c.insertError == InsertError(t, coin)
    && Answers(t.tableExists, CheckedTable(t, k), coin, None, Get(t.env.lookupFaults, coin), c.previous)
    && c.alert == AlertFor(coin, c.price, c.previous)
  }

  /** `checks` are what the first iterations of the tick may produce. */
  ghost predicate ChecksOfTick(t: TickInput, checks: seq<Check>)
  {
    Reaches(t, |checks|) && forall k :: 0 <= k < |checks| ==> CheckOfTick(t, k, checks[k])
  }

  lemma ChecksExtend(t: TickInput, checks: seq<Check>, c: Check)
    requires ChecksOfTick(t, checks) && Reaches(t, |checks| + 1) && CheckOfTick(t, |checks|, c)
    ensures ChecksOfTick(t, checks + [c])
  {
    assert forall k :: 0 <= k < |checks| ==> (checks + [c])[k] == checks[k];
  }

  /** The alerts a tick emits, in the order of its checks: one for each check that alerts. */
  function Alerts(checks: seq<Check>): (alerts: seq<Alert>)
    ensures |alerts| <= |checks|
    ensures forall a :: a in alerts <==> exists k :: 0 <= k < |checks| && checks[k].alert == Some(a)
  {
    if checks == [] then []
    else
      var rest := Alerts(checks[1..]);
      assert forall k :: 1 <= k < |checks| ==> checks[k] == checks[1..][k - 1];
      (match checks[0].alert case Some(a) => [a] case None => []) + rest
  }

  /**
   * Every alert of a tick comes from a processed coin whose check found a
   * previous row: it names that coin and carries the change from that row's
   * price to the fetched one, which reaches the threshold.
   */
  lemma TickAlerts(t: TickInput, checks: seq<Check>)
    requires ChecksOfTick(t, checks)
    ensures forall a :: a in Alerts(checks) ==>
      exists k :: 0 <= k < |checks| && AlertOfCheck(t, k, checks[k], a)
  {
    forall a | a in Alerts(checks)
      ensures exists k :: 0 <= k < |checks| && AlertOfCheck(t, k, checks[k], a)
    {
      var k :| 0 <= k < |checks| && checks[k].alert == Some(a);
      AlertOnlyFromFoundRow(t.coins[k], checks[k].price, checks[k].previous);
      assert AlertOfCheck(t, k, checks[k], a);
    }
  }

  /** `a` is the alert of check k: coin k's, from its previous row's price to its fetched price, at the threshold. */
  ghost predicate AlertOfCheck(t: TickInput, k: nat, c: Check, a: Alert)
    requires Reaches(t, k + 1)
  {
    && a.coin == t.coins[k]
    && c.previous.Found?
    && a.priceChange == PercentChange(t.data[t.coins[k]], c.previous.row.price)
    && ReachesThreshold(a.priceChange)
  }

  /**
   * `monitor(sqlitedb)`. Nothing escapes to the caller: every error ends in a
   * log line, a fetch failure before any statement is issued.
   */
  method Monitor(sqlitedb: Connection, fetch: FetchResult, env: Env) returns (checks: seq<Check>)
    requires sqlitedb.Valid()
    modifies sqlitedb
    ensures sqlitedb.Valid() && sqlitedb.tableExists == old(sqlitedb.tableExists)
    ensures |checks| == Processed(fetch)
    ensures fetch.FetchFailed? ==> checks == [] && Alerts(checks) == [] && sqlitedb.rows == old(sqlitedb.rows)
    ensures fetch.Fetched? ==>
      var t := TickInput(Coins, old(sqlitedb.tableExists), old(sqlitedb.rows), fetch.data, env);
      && Reaches(t, |checks|)
      && sqlitedb.rows == TableAfter(t, |checks|)
      && forall k :: 0 <= k < |checks| ==> CheckOfTick(t, k, checks[k])
  {
    match fetch
    case FetchFailed =>
      checks := [];
    case Fetched(data) =>
      checks := CheckCoins(sqlitedb, Coins, data, env);
  }

  /**
   * The loop of `monitor` over `coins`: each coin's insert and check in turn,
   * until the coins run out or one is missing from the fetched data.
   */
  method CheckCoins(sqlitedb: Connection, coins: seq<string>, data: map<string, real>, env: Env)
    returns (checks: seq<Check>)
    requires sqlitedb.Valid()
    modifies sqlitedb
    ensures sqlitedb.Valid() && sqlitedb.tableExists == old(sqlitedb.tableExists)
    ensures |checks| == PresentPrefix(coins, data)
    ensures
      var t := TickInput(coins, old(sqlitedb.tableExists), old(sqlitedb.rows), data, env);
      && Reaches(t, |checks|)
      && sqlitedb.rows == TableAfter(t, |checks|)
      && forall k :: 0 <= k < |checks| ==> CheckOfTick(t, k, checks[k])
  {
    ghost var t := TickInput(coins, sqlitedb.tableExists, sqlitedb.rows, data, env);
    var db := new Database(sqlitedb);
    checks := [];
    var i := 0;
    while i < |coins|
      invariant 0 <= i <= |coins| && |checks| == i
      invariant Reaches(t, i)
      invariant db.db == sqlitedb
      invariant sqlitedb.Valid() && sqlitedb.tableExists == t.tableExists
      invariant sqlitedb.rows == TableAfter(t, i)
      invariant ChecksOfTick(t, checks)
    {
      var coin := coins[i];
      if coin !in data {
        // `coinData[coin].usd` throws and the catch-all ends the loop
        break;
      }
      var check := CheckCoin(db, coin, data[coin], env, t, i);
      ChecksExtend(t, checks, check);
      checks := checks + [check];
      i := i + 1;
    }
    FirstMissingEndsLoop(coins, data, i);
  }

  /**
   * One pass of the loop body for coin i of the tick: the coin's insert and its
   * check, in the order the environment gives. A failed insert is only logged;
   * its check still runs.
   */
  method CheckCoin(db: Database, coin: string, currentPrice: real, env: Env, ghost t: TickInput, ghost i: nat)
    returns (check: Check)
    requires Reaches(t, i + 1) && coin == t.coins[i] && currentPrice == t.data[coin] && env == t.env
    requires db.db.Valid() && db.db.tableExists == t.tableExists && db.db.rows == TableAfter(t, i)
    modifies db.db
    ensures db.db.Valid() && db.db.tableExists == t.tableExists
    ensures db.db.rows == TableAfter(t, i + 1)
    ensures CheckOfTick(t, i, check)
  {
    var sqlitedb := db.db;
    ghost var before := sqlitedb.rows;
    var insertError: Option<string>;
    var previous: Lookup;
    var alert: Option<Alert>;
    if env.order == ReadAfterInsert {
      insertError := sqlitedb.Insert(coin, currentPrice, env.now, Get(env.insertFaults, coin));
      previous, alert := db.CheckPriceChanges(coin, currentPrice, Get(env.lookupFaults, coin));
    } else {
      previous, alert := db.CheckPriceChanges(coin, currentPrice, Get(env.lookupFaults, coin));
      insertError := sqlitedb.Insert(coin, currentPrice, env.now, Get(env.insertFaults, coin));
    }
    check := Check(coin, currentPrice, insertError, previous, alert);
    CheckStep(t, i, before, sqlitedb.rows, check);
  }

  /**
   * One iteration of the loop: from the tables before and after coin i's
   * insert, and what its insert and its check reported, the new table and the
   * new check are those of the tick.
   */
  lemma CheckStep(t: TickInput, i: nat, before: seq<Row>, after: seq<Row>, c: Check)
    requires Reaches(t, i + 1)
    requires before == TableAfter(t, i)
    requires c.coin == t.coins[i] && c.price == t.data[t.coins[i]]
    requires c.insertError == InsertError(t, t.coins[i])
    requires after == if c.insertError.None? then Appended(before, c.coin, c.price, t.env.now) else before
    requires Answers(t.tableExists, if t.env.order == ReadAfterInsert then after else before, c.coin, None,
                     Get(t.env.lookupFaults, c.coin), c.previous)
    requires c.alert == AlertFor(c.coin, c.price, c.previous)
    ensures after == TableAfter(t, i + 1)
    ensures CheckOfTick(t, i, c)
  {
  }

  /** One step of `TableAfter`: coin n-1's insert appends its row unless it fails. */
  lemma TableStep(t: TickInput, n: nat)
    requires 0 < n && Reaches(t, n)
    ensures var before := TableAfter(t, n - 1);
      var coin := t.coins[n - 1];
      TableAfter(t, n) == if InsertError(t, coin).None? then before + [Row(|before| + 1, coin, t.data[coin], t.env.now)] else before
  {
  }

  /** The `(price, timestamp)` samples the table holds for `coin`, in insertion order. */
  function Samples(rows: seq<Row>, coin: string): seq<(real, int)>
  {
    if rows == [] then []
    else
      var last := rows[|rows| - 1];
      Samples(rows[..|rows| - 1], coin) + if last.coin == coin then [(last.price, last.timestamp)] else []
  }

  lemma SamplesAppended(rows: seq<Row>, r: Row, coin: string)
    ensures Samples(rows + [r], coin) == Samples(rows, coin) + if r.coin == coin then [(r.price, r.timestamp)] else []
  {
    assert (rows + [r])[..|rows|] == rows;
  }

  /** In a list without repetitions, coin n is not among the coins before it. */
  lemma CoinNotEarlier(coins: seq<string>, n: nat)
    requires Distinct(coins) && n < |coins|
    ensures coins[n] !in coins[..n]
  {
    assert forall j :: 0 <= j < n ==> coins[..n][j] == coins[j] != coins[n];
  }

  /** The sample a tick adds for `coin` once the loop has passed it, if its insert succeeds. */
  function Gained(t: TickInput, coin: string): seq<(real, int)>
    requires coin in t.data
  {
    if InsertError(t, coin).None? then [(t.data[coin], t.env.now)] else []
  }

  /** Coin n-1's insert adds a sample for that coin only. */
  lemma SamplesStep(t: TickInput, n: nat, coin: string)
    requires 0 < n && Reaches(t, n)
    ensures Samples(TableAfter(t, n), coin) ==
      Samples(TableAfter(t, n - 1), coin) + if coin == t.coins[n - 1] then Gained(t, coin) else []
  {
    var before := TableAfter(t, n - 1);
    var c := t.coins[n - 1];
    TableStep(t, n);
    if InsertError(t, c).None? {
      SamplesAppended(before, Row(|before| + 1, c, t.data[c], t.env.now), coin);
    }
  }

  /**
   * Each processed coin whose insert succeeds gains exactly one sample, its
   * fetched price at the tick's time; every other coin's samples are unchanged.
   */
  lemma {:induction false} TickSamples(t: TickInput, n: nat, coin: string)
    requires Distinct(t.coins) && Reaches(t, n)
    ensures Samples(TableAfter(t, n), coin) ==
      Samples(t.rows, coin) + if coin in t.coins[..n] then Gained(t, coin) else []
  {
    if n == 0 {
      assert Samples(t.rows, coin) + [] == Samples(t.rows, coin);
    } else {
      TickSamples(t, n - 1, coin);
      SamplesStep(t, n, coin);
      var c := t.coins[n - 1];
      assert t.coins[..n] == t.coins[..n - 1] + [c];
      if c == coin {
        CoinNotEarlier(t.coins, n - 1);
      } else {
        assert (coin in t.coins[..n]) == (coin in t.coins[..n - 1]);
      }
    }
  }

  /** The inserts of a tick add rows only for the coins processed so far. */
  lemma {:induction false} TickAddsProcessedCoinsOnly(t: TickInput, n: nat, coin: string)
    requires Reaches(t, n) && coin !in t.coins[..n]
    ensures forall r :: r in TableAfter(t, n) && r.coin == coin ==> r in t.rows
  {
    if n > 0 {
      assert t.coins[..n] == t.coins[..n - 1] + [t.coins[n - 1]];
      TickAddsProcessedCoinsOnly(t, n - 1, coin);
    }
  }

  /** Read before its own insert, a coin's check answers as on the table the tick started from. */
  lemma ReadBeforeSeesStartTable(t: TickInput, k: nat, c: Check)
    requires Distinct(t.coins) && Reaches(t, k + 1)
    requires t.env.order == ReadBeforeInsert
    requires CheckOfTick(t, k, c)
    ensures Answers(t.tableExists, t.rows, t.coins[k], None, Get(t.env.lookupFaults, t.coins[k]), c.previous)
  {
    var coin := t.coins[k];
    CoinNotEarlier(t.coins, k);
    TickAddsProcessedCoinsOnly(t, k, coin);
    var seen := TableAfter(t, k);
    assert t.rows == seen[..|t.rows|];
    AnswersDependOnCoinRows(t.tableExists, seen, t.rows, coin, None, Get(t.env.lookupFaults, coin), c.previous);
  }

  /**
   * A coin without a stored row only gets its baseline: its check raises no
   * alert, in either order of its insert and its query.
   */
  lemma FirstSampleIsBaseline(t: TickInput, k: nat, c: Check)
    requires Distinct(t.coins) && Reaches(t, k + 1)
    requires !HasMatch(t.rows, t.coins[k], None)
    requires CheckOfTick(t, k, c)
    ensures c.alert == None
  {
    var coin := t.coins[k];
    CoinNotEarlier(t.coins, k);
    TickAddsProcessedCoinsOnly(t, k, coin);
    if t.env.order == ReadBeforeInsert {
      ReadBeforeSeesStartTable(t, k, c);
    } else if c.previous.Found? {
      var before := TableAfter(t, k);
      var r := c.previous.row;
      assert r in CheckedTable(t, k) && r.coin == coin;
      assert r !in t.rows;
      assert r == Row(|before| + 1, coin, t.data[coin], t.env.now);
      SamePriceNeverAlerts(coin, r);
    }
  }

  /**
   * Read after its own successful insert, when the coin's older rows are all
   * strictly older than the tick, a coin's check finds its own new row: the
   * change is zero and no alert fires.
   */
  lemma ReadAfterSeesOwnRow(t: TickInput, k: nat, c: Check)
    requires Distinct(t.coins) && Reaches(t, k + 1)
    requires t.env.order == ReadAfterInsert
    requires InsertError(t, t.coins[k]).None? && t.coins[k] !in t.env.lookupFaults
    requires forall r :: r in t.rows && r.coin == t.coins[k] ==> r.timestamp < t.env.now
    requires CheckOfTick(t, k, c)
    ensures c.previous.Found? && c.previous.row.price == c.price
    ensures c.alert == None
  {
    var coin := t.coins[k];
    CoinNotEarlier(t.coins, k);
    TickAddsProcessedCoinsOnly(t, k, coin);
    var before := TableAfter(t, k);
    var own := Row(|before| + 1, coin, t.data[coin], t.env.now);
    var seen := CheckedTable(t, k);
    assert seen == before + [own];
    assert HasMatch(seen, coin, None) by {
      assert own in seen && Matches(own, coin, None);
    }
    var r := c.previous.row;
    assert own.timestamp <= r.timestamp;
    assert r == own;
    SamePriceNeverAlerts(coin, r);
  }
}
