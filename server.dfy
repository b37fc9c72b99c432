/**
 * The server in `index.js`: the start-up run and the cron schedule of the
 * sampling tick, the `/api/prices` query, and the dashboard's look-back
 * prices. Routing, rendering and the listening socket are not modelled; each
 * request handler becomes a function or a method from the table and its
 * inputs to the response it sends.
 */
module Server {
  import opened Wrappers
  import opened PricesTable
  import opened DbMigrations
  import opened Monitor

  // ---------------------------------------------------------------- start-up

  /**
   * `db.runMigrations()` followed by the initial `monitor(sqlitedb)`: the
   * first tick runs on a table that exists, the old one or a new empty one.
   */
  method StartUp(sqlitedb: Connection, fetch: FetchResult, env: Env) returns (checks: seq<Check>)
    requires sqlitedb.Valid()
    modifies sqlitedb
    ensures sqlitedb.Valid() && sqlitedb.tableExists
    ensures |checks| == Processed(fetch)
    ensures fetch.FetchFailed? ==> checks == [] && sqlitedb.rows == (if old(sqlitedb.tableExists) then old(sqlitedb.rows) else [])
    ensures fetch.Fetched? ==>
      var t := TickInput(Coins, true, if old(sqlitedb.tableExists) then old(sqlitedb.rows) else [], fetch.data, env);
      && Reaches(t, |checks|)
      && sqlitedb.rows == TableAfter(t, |checks|)
      && forall k :: 0 <= k < |checks| ==> CheckOfTick(t, k, checks[k])
  {
    var db := new Database(sqlitedb);
    db.RunMigrations();
    checks := Monitor.Monitor(sqlitedb, fetch, env);
  }

  // ---------------------------------------------------------------- schedule

  // Twelve hours, in seconds: the period of the cron expression `0 */12 * * *`.
  const HalfDay: int := 43200

  function Second(t: int): int { t % 60 }
  function Minute(t: int): int { (t / 60) % 60 }
  function Hour(t: int): int { (t / 3600) % 24 }

  // The cron expression `0 */12 * * *` at instant `t` (seconds of the
  // server's clock): second 0, minute 0, an hour that `*/12` selects.
  predicate CronFires(t: int)
  {
    Second(t) == 0 && Minute(t) == 0 && Hour(t) % 12 == 0
  }

  /** The trigger fires exactly on the hours 0 and 12, on the hour. */
  lemma CronHours(t: int)
    ensures CronFires(t) <==> Second(t) == 0 && Minute(t) == 0 && (Hour(t) == 0 || Hour(t) == 12)
  {
  }

  /** The trigger fires exactly every twelve hours, on the multiples of twelve hours. */
  lemma CronFiresOnHalfDays(t: int)
    ensures CronFires(t) <==> t % HalfDay == 0
  {
    var s, a := t % 60, t / 60;
    var m, b := a % 60, a / 60;
    var h, c := b % 24, b / 24;
    assert t == 86400 * c + 3600 * h + 60 * m + s;
    assert Hour(t) == h by {
      assert t / 3600 == b by {
        assert t == 3600 * b + (60 * m + s);
      }
    }
    var rest := 3600 * h + 60 * m + s;
    assert 0 <= rest < 86400;
    if rest < HalfDay {
      assert t == HalfDay * (2 * c) + rest;
      assert t % HalfDay == rest;
    } else {
      assert t == HalfDay * (2 * c + 1) + (rest - HalfDay);
      assert t % HalfDay == rest - HalfDay;
    }
  }

  lemma StrictlyBetweenHalfDays(k: int, u: int)
    requires HalfDay * k < u < HalfDay * (k + 1)
    ensures u % HalfDay != 0
  {
  }

  /** The first instant after `t` at which the trigger fires. */
  function NextFiring(t: int): (n: int)
    ensures t < n <= t + HalfDay && CronFires(n)
    ensures forall u :: t < u < n ==> !CronFires(u)
  {
    var n := t - t % HalfDay + HalfDay;
    assert n % HalfDay == 0 by {
      assert n == HalfDay * (t / HalfDay + 1);
    }
    CronFiresOnHalfDays(n);
    forall u | t < u < n
      ensures !CronFires(u)
    {
      CronFiresOnHalfDays(u);
      StrictlyBetweenHalfDays(t / HalfDay, u);
    }
    n
  }

  /** The instants in `(after, end]` at which the trigger fires, in order. */
  function Firings(after: int, end: int): (fs: seq<int>)
    ensures forall i :: 0 <= i < |fs| ==> after < fs[i] <= end && CronFires(fs[i])
    ensures forall i, j :: 0 <= i < j < |fs| ==> fs[i] < fs[j]
    ensures forall u :: after < u <= end && CronFires(u) ==> u in fs
    decreases end - after
  {
    var n := NextFiring(after);
    if n > end then [] else [n] + Firings(n, end)
  }

  /**
   * The ticks the server runs while its clock goes from `start` to `end`: the
   * initial run at start-up, then one per firing of the trigger.
   */
  function Ticks(start: int, end: int): (ts: seq<int>)
  {
    [start] + Firings(start, end)
  }

  // One tick at start-up, then exactly the firings of `0 */12 * * *` until
  // `end`, in order.
  lemma {:induction false} TicksOfSchedule(start: int, end: int)
    ensures |Ticks(start, end)| >= 1 && Ticks(start, end)[0] == start
    ensures forall i :: 1 <= i < |Ticks(start, end)| ==> start < Ticks(start, end)[i] <= end && CronFires(Ticks(start, end)[i])
    ensures forall u :: start < u <= end ==> (u in Ticks(start, end) <==> CronFires(u))
    ensures forall i :: 0 <= i < |Ticks(start, end)| - 1 ==> Ticks(start, end)[i] < Ticks(start, end)[i + 1]
  {
    var fs := Firings(start, end);
    assert Ticks(start, end) == [start] + fs;
    forall u | start < u <= end && u in Ticks(start, end)
      ensures CronFires(u)
    {
      var i :| 0 <= i < |Ticks(start, end)| && Ticks(start, end)[i] == u;
      assert i >= 1 && fs[i - 1] == u;
    }
    forall i | 0 <= i < |Ticks(start, end)| - 1
      ensures Ticks(start, end)[i] < Ticks(start, end)[i + 1]
    {
      if i > 0 {
        assert fs[i - 1] < fs[i];
      }
    }
  }

  // ---------------------------------------------------------------- /api/prices

  /** One object of the JSON array `/api/prices` sends: `SELECT coin, price, timestamp`. */
  datatype PricePoint = PricePoint(coin: string, price: real, timestamp: int)

  /** The response of `/api/prices`: the rows, or status 500 with `{ error: err.message }`. */
  datatype ApiResponse = Json(rows: seq<PricePoint>) | Status500(error: string)

  /** `LIMIT 100`. */
  const ApiLimit: nat := 100

  function Point(r: Row): PricePoint
  {
    PricePoint(r.coin, r.price, r.timestamp)
  }

  /**
   * The `coin` query parameter as the route uses it: a coin name, or no filter
   * when the parameter is absent or empty (JavaScript's falsy `''`).
   */
  function CoinFilter(coin: Option<string>): (filter: Option<string>)
  {
    if coin == Some("") then None else coin
  }

  /** The clause `WHERE coin = ?` when there is a filter, no clause otherwise. */
  predicate Eligible(r: Row, filter: Option<string>)
  {
    filter.None? || r.coin == filter.value
  }

  /** The positions of the table's rows that the query selects and that project to `p`. */
  ghost function Witnesses(rows: seq<Row>, filter: Option<string>, p: PricePoint): set<int>
  {
    set i | 0 <= i < |rows| && Eligible(rows[i], filter) && Point(rows[i]) == p
  }

  /** The positions of the table's rows that the query selects. */
  ghost function EligibleAt(rows: seq<Row>, filter: Option<string>): set<int>
  {
    set i | 0 <= i < |rows| && Eligible(rows[i], filter)
  }

  /**
   * The projected rows the query selects, before ordering and limiting: each
   * eligible row's point as often as eligible rows project to it.
   */
  function Selected(rows: seq<Row>, filter: Option<string>): (ps: seq<PricePoint>)
    ensures |ps| == |EligibleAt(rows, filter)|
    ensures forall p :: multiset(ps)[p] == |Witnesses(rows, filter, p)|
    ensures forall r :: r in rows && Eligible(r, filter) ==> Point(r) in ps
    ensures forall p :: p in ps ==> exists r :: r in rows && Eligible(r, filter) && Point(r) == p
    ensures filter.None? ==> |ps| == |rows|
  {
    if rows == [] then
      assert EligibleAt(rows, filter) == {};
      assert forall p :: Witnesses(rows, filter, p) == {};
      []
    else
      var init, last := rows[..|rows| - 1], rows[|rows| - 1];
      assert rows == init + [last];
      EligibleSnoc(rows, filter);
      assert forall p :: |Witnesses(rows, filter, p)|
                         == |Witnesses(init, filter, p)| + (if Eligible(last, filter) && Point(last) == p then 1 else 0) by {
        forall p
          ensures |Witnesses(rows, filter, p)| ==
            |Witnesses(init, filter, p)| + (if Eligible(last, filter) && Point(last) == p then 1 else 0)
        {
          WitnessesSnoc(rows, filter, p);
        }
      }
      Selected(init, filter) + if Eligible(last, filter) then [Point(last)] else []
  }

  /** Appending a row to the table adds its position to the selected ones when it is eligible. */
  lemma EligibleSnoc(rows: seq<Row>, filter: Option<string>)
    requires rows != []
    ensures var n := |rows| - 1;
      |EligibleAt(rows, filter)| == |EligibleAt(rows[..n], filter)| + if Eligible(rows[n], filter) then 1 else 0
  {
    var n := |rows| - 1;
    EligibleExtend(rows, filter);
    assert n !in EligibleAt(rows[..n], filter);
  }

  lemma EligibleExtend(rows: seq<Row>, filter: Option<string>)
    requires rows != []
    ensures var n := |rows| - 1;
      EligibleAt(rows, filter) == EligibleAt(rows[..n], filter) + if Eligible(rows[n], filter) then {n} else {}
  {
    var n := |rows| - 1;
    var init := rows[..n];
    forall i
      ensures i in EligibleAt(rows, filter) <==> i in EligibleAt(init, filter) + if Eligible(rows[n], filter) then {n} else {}
    {
      if 0 <= i < n {
        assert rows[i] == init[i];
      }
    }
  }

  /** Appending a row to the table adds its position to the witnesses of its own point only. */
  lemma WitnessesSnoc(rows: seq<Row>, filter: Option<string>, p: PricePoint)
    requires rows != []
    ensures var n := |rows| - 1;
      |Witnesses(rows, filter, p)| ==
        |Witnesses(rows[..n], filter, p)| + if Eligible(rows[n], filter) && Point(rows[n]) == p then 1 else 0
  {
    var n := |rows| - 1;
    WitnessesExtend(rows, filter, p);
    assert n !in Witnesses(rows[..n], filter, p);
  }

  lemma WitnessesExtend(rows: seq<Row>, filter: Option<string>, p: PricePoint)
    requires rows != []
    ensures var n := |rows| - 1;
      Witnesses(rows, filter, p) ==
        Witnesses(rows[..n], filter, p) + if Eligible(rows[n], filter) && Point(rows[n]) == p then {n} else {}
  {
    var n := |rows| - 1;
    var init := rows[..n];
    forall i
      ensures i in Witnesses(rows, filter, p) <==>
        i in Witnesses(init, filter, p) + if Eligible(rows[n], filter) && Point(rows[n]) == p then {n} else {}
    {
      if 0 <= i < n {
        assert rows[i] == init[i];
      }
    }
  }

  predicate SortedDesc(ps: seq<PricePoint>)
  {
    forall i, j :: 0 <= i < j < |ps| ==> ps[i].timestamp >= ps[j].timestamp
  }

  /** Inserts `p` into a list ordered newest first. */
  function InsertDesc(p: PricePoint, ps: seq<PricePoint>): (r: seq<PricePoint>)
    requires SortedDesc(ps)
    ensures |r| == |ps| + 1
    ensures SortedDesc(r)
    ensures multiset(r) == multiset(ps) + multiset{p}
  {
    if ps == [] || ps[0].timestamp <= p.timestamp then [p] + ps
    else
      var tail := InsertDesc(p, ps[1..]);
      assert ps == [ps[0]] + ps[1..];
      BehindHead(ps, p, tail);
      [ps[0]] + tail
  }

  /** The head of a list ordered newest first stays in front when a point older than it is inserted behind it. */
  lemma BehindHead(ps: seq<PricePoint>, p: PricePoint, tail: seq<PricePoint>)
    requires SortedDesc(ps) && ps != [] && ps[0].timestamp > p.timestamp
    requires SortedDesc(tail) && multiset(tail) == multiset(ps[1..]) + multiset{p}
    ensures SortedDesc([ps[0]] + tail)
  {
    forall x | x in tail
      ensures x.timestamp <= ps[0].timestamp
    {
      assert x in multiset(tail);
      if x != p {
        assert x in ps[1..];
      }
    }
  }

  /** `ORDER BY timestamp DESC`, with ties in an order SQL leaves open. */
  function SortDesc(ps: seq<PricePoint>): (r: seq<PricePoint>)
    ensures |r| == |ps|
    ensures SortedDesc(r)
    ensures multiset(r) == multiset(ps)
  {
    if ps == [] then []
    else
      assert ps == [ps[0]] + ps[1..];
      InsertDesc(ps[0], SortDesc(ps[1..]))
  }

  /**
   * `out` is an answer `ORDER BY timestamp DESC LIMIT 100` may give on the
   * selected points: the first min(100, |selected|) of some ordering of the
   * selection newest first. Ties may be ordered either way.
   */
  ghost predicate NewestFirst(selected: seq<PricePoint>, out: seq<PricePoint>)
  {
    && |out| == (if |selected| < ApiLimit then |selected| else ApiLimit)
    && exists s :: SortedDesc(s) && multiset(s) == multiset(selected) && |out| <= |s| && out == s[..|out|]
  }

  /**
   * What an answer is: min(100, |selected|) selected points, newest first,
   * and every selected point it leaves out is no newer than any it keeps.
   */
  lemma NewestFirstMeans(selected: seq<PricePoint>, out: seq<PricePoint>)
    requires NewestFirst(selected, out)
    ensures |out| == (if |selected| < ApiLimit then |selected| else ApiLimit)
    ensures SortedDesc(out)
    ensures multiset(out) <= multiset(selected)
    ensures forall p :: multiset(out)[p] < multiset(selected)[p] ==>
      forall j :: 0 <= j < |out| ==> p.timestamp <= out[j].timestamp
  {
    var s :| SortedDesc(s) && multiset(s) == multiset(selected) && |out| <= |s| && out == s[..|out|];
    NewestPrefix(s, |out|);
  }

  /**
   * `GET /api/prices?coin=...` on the table `(tableExists, rows)` when the
   * query meets `fault`: the newest 100 selected rows, newest first, or a
   * 500 carrying the error's message.
   */
  function ApiPrices(tableExists: bool, rows: seq<Row>, coin: Option<string>, fault: Option<string>): (resp: ApiResponse)
    ensures resp.Status500? <==> StatementError(tableExists, fault).Some?
    ensures resp.Status500? ==> resp.error == StatementError(tableExists, fault).value
    ensures resp.Json? ==> NewestFirst(Selected(rows, CoinFilter(coin)), resp.rows)
  {
    match StatementError(tableExists, fault)
    case Some(message) => Status500(message)
    case None =>
      var selected := Selected(rows, CoinFilter(coin));
      var n := if |selected| < ApiLimit then |selected| else ApiLimit;
      TakeNewest(selected, n);
      Json(SortDesc(selected)[..n])
  }

  /** Sorting newest first and keeping the first n gives an answer of the query. */
  lemma TakeNewest(selected: seq<PricePoint>, n: nat)
    requires n == if |selected| < ApiLimit then |selected| else ApiLimit
    ensures NewestFirst(selected, SortDesc(selected)[..n])
  {
    var s := SortDesc(selected);
    assert SortedDesc(s) && multiset(s) == multiset(selected) && n <= |s| && s[..n] == s[..|s[..n]|];
  }

  /**
   * The first k of a list ordered newest first are its k newest: whatever
   * the prefix leaves out is no newer than anything it keeps.
   */
  lemma NewestPrefix(s: seq<PricePoint>, k: nat)
    requires SortedDesc(s) && k <= |s|
    ensures multiset(s[..k]) <= multiset(s)
    ensures forall p :: multiset(s[..k])[p] < multiset(s)[p] ==>
      forall j :: 0 <= j < k ==> p.timestamp <= s[j].timestamp
  {
    assert s == s[..k] + s[k..];
    forall p | multiset(s[..k])[p] < multiset(s)[p]
      ensures forall j :: 0 <= j < k ==> p.timestamp <= s[j].timestamp
    {
      assert p in multiset(s[k..]);
      var i :| k <= i < |s| && s[i] == p;
    }
  }

  /** With a coin given, every row returned is one of that coin's. */
  lemma FilterKeepsCoin(tableExists: bool, rows: seq<Row>, coin: string, fault: Option<string>)
    requires coin != ""
    ensures ApiPrices(tableExists, rows, Some(coin), fault).Json? ==>
      forall p :: p in ApiPrices(tableExists, rows, Some(coin), fault).rows ==> p.coin == coin
  {
    var resp := ApiPrices(tableExists, rows, Some(coin), fault);
    if resp.Json? {
      var selected := Selected(rows, Some(coin));
      NewestFirstMeans(selected, resp.rows);
      forall p | p in resp.rows
        ensures p.coin == coin
      {
        assert p in multiset(resp.rows);
        assert p in multiset(selected);
      }
    }
  }

  lemma EligibleOfCoin(rows: seq<Row>, coin: string)
    ensures EligibleAt(rows, Some(coin)) == set i | 0 <= i < |rows| && rows[i].coin == coin
  {
  }

  /** With a coin given, the response holds min(100, n) rows, n the number of that coin's rows in the table. */
  lemma FilteredSize(tableExists: bool, rows: seq<Row>, coin: string, fault: Option<string>)
    requires coin != ""
    requires StatementError(tableExists, fault).None?
    ensures var n := |set i | 0 <= i < |rows| && rows[i].coin == coin|;
      |ApiPrices(tableExists, rows, Some(coin), fault).rows| == if n < ApiLimit then n else ApiLimit
  {
    var resp := ApiPrices(tableExists, rows, Some(coin), fault);
    var selected := Selected(rows, Some(coin));
    assert resp.Json? && NewestFirst(selected, resp.rows);
    EligibleOfCoin(rows, coin);
  }

  /**
   * Without a coin, or with the empty one, every row of the table is
   * eligible: the response holds min(100, |rows|) rows.
   */
  lemma NoFilterSelectsAll(tableExists: bool, rows: seq<Row>, coin: Option<string>, fault: Option<string>)
    requires coin == None || coin == Some("")
    requires StatementError(tableExists, fault).None?
    ensures forall r :: r in rows ==> Point(r) in Selected(rows, CoinFilter(coin))
    ensures |ApiPrices(tableExists, rows, coin, fault).rows| == if |rows| < ApiLimit then |rows| else ApiLimit
  {
    NewestFirstMeans(Selected(rows, CoinFilter(coin)), ApiPrices(tableExists, rows, coin, fault).rows);
  }

  // ---------------------------------------------------------------- dashboard

  /** What `res.status(500).send(...)` of the dashboard route sends. */
  const DashboardError: string := "Error rendering dashboard"

  /** The response of `GET /`: the template's data, or status 500. */
  datatype Page =
    | Rendered(coinData: map<string, real>, prices24hAgo: map<string, Option<real>>,
               prices12hAgo: map<string, Option<real>>, prices6hAgo: map<string, Option<real>>)
    | ServerError(message: string)

  /** `datetime('now', '-N hours')`, in seconds. */
  function Cutoff(now: int, hours: int): int
  {
    now - hours * 3600
  }

  /**
   * `v` is a value the look-back of `coin` to `cutoff` may yield: the price of
   * a latest row at or before the cutoff, or null when there is no such row.
   */
  ghost predicate LookBack(rows: seq<Row>, coin: string, cutoff: int, v: Option<real>)
  {
    || (v.None? && !HasMatch(rows, coin, Some(cutoff)))
    || (v.Some? && exists r :: IsLatest(rows, coin, Some(cutoff), r) && r.price == v.value)
  }

  /** `m` holds a look-back value of `hours` for every coin of `coins`, and nothing else. */
  ghost predicate LookedBack(rows: seq<Row>, coins: seq<string>, now: int, hours: int, m: map<string, Option<real>>)
  {
    && (forall c :: c in m <==> c in coins)
    && forall c :: c in m ==> LookBack(rows, c, Cutoff(now, hours), m[c])
  }

  /** No look-back query of `coins` meets an error. */
  predicate LookBacksSucceed(tableExists: bool, coins: seq<string>, faults: map<(string, int), string>)
  {
    forall c :: c in coins ==>
      && StatementError(tableExists, Get(faults, (c, 24))).None?
      && StatementError(tableExists, Get(faults, (c, 12))).None?
      && StatementError(tableExists, Get(faults, (c, 6))).None?
  }

  /**
   * One awaited look-back query: `SELECT price ... WHERE coin = ? AND
   * timestamp <= datetime('now', '-hours hours') ORDER BY timestamp DESC
   * LIMIT 1`, then `row ? row.price : null`, or a rejection on `err`.
   */
  method PriceAgo(sqlitedb: Connection, coin: string, now: int, hours: int, fault: Option<string>)
    returns (rejected: bool, price: Option<real>)
    ensures rejected <==> StatementError(sqlitedb.tableExists, fault).Some?
    ensures !rejected ==> LookBack(sqlitedb.rows, coin, Cutoff(now, hours), price)
  {
    var l := sqlitedb.SelectLatest(coin, Some(Cutoff(now, hours)), fault);
    match l
    case Failed(_) =>
      rejected, price := true, None;
    case NoRow =>
      rejected, price := false, None;
    case Found(row) =>
      rejected, price := false, Some(row.price);
  }

  /**
   * The loop of the dashboard route over `coins`: three look-backs per coin,
   * ending at the first rejection.
   */
  method LookBacks(sqlitedb: Connection, coins: seq<string>, now: int, faults: map<(string, int), string>)
    returns (ok: bool, p24: map<string, Option<real>>, p12: map<string, Option<real>>, p6: map<string, Option<real>>)
    ensures ok <==> LookBacksSucceed(sqlitedb.tableExists, coins, faults)
    ensures ok ==>
      && LookedBack(sqlitedb.rows, coins, now, 24, p24)
      && LookedBack(sqlitedb.rows, coins, now, 12, p12)
      && LookedBack(sqlitedb.rows, coins, now, 6, p6)
  {
    p24, p12, p6 := map[], map[], map[];
    var i := 0;
    while i < |coins|
      invariant 0 <= i <= |coins|
      invariant LookBacksSucceed(sqlitedb.tableExists, coins[..i], faults)
      invariant LookedBack(sqlitedb.rows, coins[..i], now, 24, p24)
      invariant LookedBack(sqlitedb.rows, coins[..i], now, 12, p12)
      invariant LookedBack(sqlitedb.rows, coins[..i], now, 6, p6)
    {
      var coin := coins[i];
      assert coins[..i + 1] == coins[..i] + [coin];
      var rejected, price := PriceAgo(sqlitedb, coin, now, 24, Get(faults, (coin, 24)));
      if rejected {
        ok := false;
        return;
      }
      p24 := p24[coin := price];
      rejected, price := PriceAgo(sqlitedb, coin, now, 12, Get(faults, (coin, 12)));
      if rejected {
        ok := false;
        return;
      }
      p12 := p12[coin := price];
      rejected, price := PriceAgo(sqlitedb, coin, now, 6, Get(faults, (coin, 6)));
      if rejected {
        ok := false;
        return;
      }
      p6 := p6[coin := price];
      i := i + 1;
    }
    assert coins[..i] == coins;
    ok := true;
  }

  /**
   * `GET /` at time `now`: fetch the live prices, then look back 24, 12 and
   * 6 hours for every tracked coin. The fetch failing or any query failing
   * sends the 500 page instead.
   */
  method Dashboard(sqlitedb: Connection, fetch: FetchResult, now: int, faults: map<(string, int), string>)
    returns (page: Page)
    ensures page.ServerError? ==> page.message == DashboardError
    ensures page.Rendered? <==> fetch.Fetched? && LookBacksSucceed(sqlitedb.tableExists, Coins, faults)
    ensures page.Rendered? ==>
      && page.coinData == fetch.data
      && LookedBack(sqlitedb.rows, Coins, now, 24, page.prices24hAgo)
      && LookedBack(sqlitedb.rows, Coins, now, 12, page.prices12hAgo)
      && LookedBack(sqlitedb.rows, Coins, now, 6, page.prices6hAgo)
  {
    match fetch
    case FetchFailed =>
      page := ServerError(DashboardError);
    case Fetched(data) =>
      var ok, p24, p12, p6 := LookBacks(sqlitedb, Coins, now, faults);
      if ok {
        page := Rendered(data, p24, p12, p6);
      } else {
        page := ServerError(DashboardError);
      }
  }

  /** Before the table is created every look-back fails, so the dashboard is the 500 page. */
  lemma MissingTableFailsDashboard(faults: map<(string, int), string>)
    ensures !LookBacksSucceed(false, Coins, faults)
  {
    assert "bitcoin" in Coins;
  }

  /**
   * A coin's look-backs nest: a row at or before 24 hours ago is also at or
   * before 12 and 6 hours ago, so a 24-hour value implies the other two and a
   * 12-hour value implies the 6-hour one.
   */
  lemma LookBacksNest(rows: seq<Row>, coins: seq<string>, now: int, coin: string,
                      p24: map<string, Option<real>>, p12: map<string, Option<real>>, p6: map<string, Option<real>>)
    requires LookedBack(rows, coins, now, 24, p24) && LookedBack(rows, coins, now, 12, p12)
    requires LookedBack(rows, coins, now, 6, p6)
    requires coin in coins
    ensures p24[coin].Some? ==> p12[coin].Some? && p6[coin].Some?
    ensures p12[coin].Some? ==> p6[coin].Some?
  {
    if p24[coin].Some? {
      var r :| IsLatest(rows, coin, Some(Cutoff(now, 24)), r);
      assert Matches(r, coin, Some(Cutoff(now, 12))) && Matches(r, coin, Some(Cutoff(now, 6)));
    }
    if p12[coin].Some? {
      var r :| IsLatest(rows, coin, Some(Cutoff(now, 12)), r);
      assert Matches(r, coin, Some(Cutoff(now, 6)));
    }
  }

  /**
   * The rows the three look-back queries of a coin choose are ordered like
   * their cutoffs: 24 hours ago, then 12, then 6.
   */
  lemma ChosenRowsOrdered(rows: seq<Row>, coin: string, now: int, r24: Row, r12: Row, r6: Row)
    requires IsLatest(rows, coin, Some(Cutoff(now, 24)), r24)
    requires IsLatest(rows, coin, Some(Cutoff(now, 12)), r12)
    requires IsLatest(rows, coin, Some(Cutoff(now, 6)), r6)
    ensures r24.timestamp <= r12.timestamp <= r6.timestamp
  {
    LatestMonotone(rows, coin, Cutoff(now, 24), Cutoff(now, 12), r24, r12);
    LatestMonotone(rows, coin, Cutoff(now, 12), Cutoff(now, 6), r12, r6);
  }
}
