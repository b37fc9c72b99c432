# crypto-monitor in Dafny

A model of the price-history pipeline of crypto-monitor, together with the
queries that read its single SQLite table `prices`.

Every twelve hours, and once at start-up, a *tick* does the following:

- It fetches the USD prices of 17 tracked coins.
- For each coin, in list order, it appends a row `(id, coin, price, timestamp)`.
- It also issues the coin's check, a query for the coin's most recent row. The code does not fix whether that query runs before or after the coin's own insert.
- The check compares the fetched price with the price of the row it finds.
- An e-mail alert goes out when the price rose by at least 5 %.

The web server answers two reads:

- `/api/prices` returns up to 100 rows, newest first, optionally for one coin.
- A dashboard shows, for each coin, the price of its latest row at or before 24, 12 and 6 hours ago.

The files:

| file | module | program part |
|---|---|---|
| `wrappers.dfy` | `Wrappers` | `Option`, map lookup |
| `table.dfy` | `PricesTable` | the `prices` table, the connection (`sqlite3.Database`) and its statements: insert, latest row at or before a cutoff |
| `db_migrations.dfy` | `DbMigrations` | `class Database`: `runMigrations`, `checkPriceChanges`, the percent change and the 5 % threshold |
| `monitor.dfy` | `Monitor` | `monitor(sqlitedb)`: one tick |
| `server.dfy` | `Server` | `index.js`: start-up, the cron schedule, `/api/prices`, the dashboard route |

## How some things are modelled

- **State.** The connection is a class, `Connection`. It has two fields:
  - whether the table exists;
  - its rows, a `seq<Row>` that only grows.
- **Row ids.** Ids are those of `INTEGER PRIMARY KEY` with no deletes: the k-th row has id k (`ConsecutiveIds`).
- **Timestamps** are integer seconds.
- **Latest-row query.** `ORDER BY timestamp DESC LIMIT 1` is relational. `IsLatest` admits every row that no matching row beats on timestamp. `SelectLatest` picks one of them with `:|`, so no tie-break is assumed.
- **Errors.** A statement fails with `no such table` while the table is missing. Otherwise it fails with a fault given from outside, or it succeeds.
- **JavaScript division by zero.** `(current - previous) / previous * 100` is a `Change`: a real, or `Infinity`, `-Infinity` or `NaN` when the previous price is 0. Of the non-finite values, `>= 5` holds only of `Infinity`.
- **What the outside world supplies.** A tick takes its inputs as parameters:
  - the fetch result: a failure, or a coin-to-price map that may lack coins;
  - the clock;
  - the faults each statement meets;
  - `Order`.
- **`Order`.** A coin's `INSERT` and its check's `SELECT` are issued back to back without `serialize()`. `Order` says whether the check reads the table before or after that insert. The model proves what each order gives.
- **Alerts.** An alert is the event `Alert(coin, priceChange)` that `sendEmailAlert` would mail.
- **The model follows the code as written:**
  - A coin missing from the fetched data throws at `coinData[coin].usd`. The catch-all then ends the whole tick; the coin is not merely skipped.
  - A failed insert is only logged. The coin's check still runs, and so do the later coins.

## Model

| member | source | states |
|---|---|---|
| `PricesTable.Connection.constructor` | index.js:23-27 | opening the database file gives the table as stored, with or without `prices` |
| `PricesTable.Connection.Insert` | src/monitor.js:20-24 | the insert reports `no such table` or the engine's fault, and otherwise appends exactly one row `(next id, coin, price, now)`; on error the rows are unchanged; the table's existence never changes |
| `PricesTable.Connection.SelectLatest` | src/db-migrations.js:16-21 | the answer is an error exactly when the statement fails (with its message); otherwise no row exactly when no row of the coin is at or before the cutoff, else a row of that coin whose timestamp no such row exceeds |
| `PricesTable.LatestExists` | src/db-migrations.js:16 | whenever some row matches, a latest matching row exists, so `LIMIT 1` always has an answer |
| `PricesTable.LatestMonotone` | index.js:92-126 | a smaller cutoff never finds a later row |
| `PricesTable.AnswersDependOnCoinRows` | src/db-migrations.js:16 | only the queried coin's rows decide the answers of the latest-row query |
| `DbMigrations.Database.constructor` | src/db-migrations.js:4-6 | the wrapper keeps the connection it is given |
| `DbMigrations.Database.RunMigrations` | src/db-migrations.js:7-14 | afterwards the table exists; an existing table keeps all its rows (idempotent), a missing one is created empty |
| `DbMigrations.Database.CheckPriceChanges` | src/db-migrations.js:15-31 | the previous row is an answer of the latest-row query for the coin; the alert is the one that answer decides; the table is not changed |
| `DbMigrations.ThresholdIsFivePercentRise` | src/db-migrations.js:22-26 | for a positive previous price, `priceChange >= 5` holds exactly when the current price is at least 1.05 times the previous one |
| `DbMigrations.ThresholdBoundary` | src/db-migrations.js:22-27 | 100 to 105 alerts with a change of exactly 5; 100 to 104.99 does not alert |
| `DbMigrations.NoAlertWithoutRise` | src/db-migrations.js:26 | with a non-negative previous price, a fall or an unchanged price never alerts: the test is upward only |
| `DbMigrations.SamePriceNeverAlerts` | src/db-migrations.js:22-26 | comparing a price with itself never alerts, including a zero price (NaN) |
| `DbMigrations.AlertOnlyFromFoundRow` | src/db-migrations.js:17-27 | a failed query or a missing row gives no alert; an alert names the coin checked and carries the change against the row found, which reaches the threshold |
| `DbMigrations.ZeroPreviousPriceAlertsOnAnyRise` | src/db-migrations.js:22-27 | a zero previous price turns any rise into `Infinity`, which alerts |
| `Monitor.CoinsDistinct` | src/monitor.js:4-6 | no coin is tracked twice |
| `Monitor.PresentPrefix` | src/monitor.js:15-16 | the loop gets exactly as far as the first coin missing from the fetched data: all coins before it are present |
| `Monitor.FirstMissingEndsLoop` | src/monitor.js:15-16 | if coin k is the first missing one (or none is missing and k is the number of coins), exactly k coins are processed |
| `Monitor.TableAfter` | src/monitor.js:15-24 | the inserts of a tick only append: the old rows stay a prefix, ids stay consecutive, and nothing is added while the table is missing |
| `Monitor.Alerts` | src/db-migrations.js:26-27 | a tick emits at most one alert per check, and an alert is emitted exactly when some check carries it |
| `Monitor.TickAlerts` | src/monitor.js:15-27 | every alert of a tick comes from a processed coin k whose check found a row: it names coin k, carries the change of coin k's fetched price against that row's price, and that change reaches the threshold |
| `Monitor.Monitor` | src/monitor.js:10-31 | a failed fetch writes nothing, checks nothing and sends no alert; otherwise the coins before the first missing one are processed in list order, the new table is that of their inserts, and check k is coin k's with its fetched price, its insert's error, an answer of its query in the chosen order, and the alert of that answer; the table's existence never changes and no error reaches the caller |
| `Monitor.CheckCoins` | src/monitor.js:15-28 | the loop over a coin list: the same statement for any list |
| `Monitor.CheckCoin` | src/monitor.js:16-27 | one coin: the insert and the check in the given order; a failed insert still leads to the check |
| `Monitor.CheckStep` | src/monitor.js:20-27 | one iteration's insert and check together give table `TableAfter(i + 1)` and a check of the tick |
| `Monitor.TickSamples` | src/monitor.js:15-27 | each processed coin whose insert succeeds gains exactly one sample, its fetched price at the tick's time; every other coin, including the missing coin and all after it, gains none |
| `Monitor.TickAddsProcessedCoinsOnly` | src/monitor.js:15-24 | the inserts of a tick add rows only for the coins processed so far |
| `Monitor.ReadBeforeSeesStartTable` | src/monitor.js:20-27 | when a check reads before its own insert, it answers as on the table the tick started from |
| `Monitor.FirstSampleIsBaseline` | src/db-migrations.js:16-27 | a coin with no stored row gets no alert, in either order; its first row is only a baseline |
| `Monitor.ReadAfterSeesOwnRow` | src/monitor.js:20-27 | when a check reads after its own successful insert, and the coin's older rows are strictly older, it finds that new row: the change is 0 and no alert fires |
| `Server.StartUp` | index.js:29-42 | the migration runs before the first tick, which then sees an existing table (the old one or a new empty one) and behaves like `monitor` on it |
| `Server.CronHours` | index.js:36 | `0 */12 * * *` fires exactly at second 0 and minute 0 of the hours 0 and 12 |
| `Server.CronFiresOnHalfDays` | index.js:36 | the trigger fires exactly on the multiples of twelve hours |
| `Server.NextFiring` | index.js:36-39 | the next firing lies after `t`, within twelve hours, and no firing lies between |
| `Server.Firings` | index.js:36-39 | the firings in `(after, end]` are listed in strictly increasing order, and every firing in that interval is listed |
| `Server.TicksOfSchedule` | index.js:36-42 | one tick at start-up, then a tick exactly at each firing of the trigger up to `end`, in increasing order |
| `Server.Selected` | index.js:54-56 | the selection has one point per eligible row: each point occurs exactly as often as eligible rows carry it, so its size is the number of eligible rows; without a filter every row is selected |
| `Server.SortDesc` | index.js:55-56 | `ORDER BY timestamp DESC`: a permutation of its input ordered newest first |
| `Server.InsertDesc` | index.js:55-56 | inserting into a list ordered newest first keeps it ordered and adds exactly that point |
| `Server.ApiPrices` | index.js:52-65 | the response is a 500 with the error's message exactly when the query fails; otherwise it holds min(100, selected) selected rows, ordered newest first, as the first rows of a newest-first ordering of the selection |
| `Server.NewestFirstMeans` | index.js:55-56 | such a response holds min(100, selected) rows, is ordered newest first, takes each point at most as often as the selection holds it, and every selected row it leaves out is no newer than any row it returns |
| `Server.TakeNewest` | index.js:55-56 | the first min(100, n) rows of the sorted selection are a newest-first answer |
| `Server.NewestPrefix` | index.js:55-56 | the first k rows of a list ordered newest first are its k newest |
| `Server.FilterKeepsCoin` | index.js:54-55 | with a non-empty coin given, every row returned has that coin |
| `Server.FilteredSize` | index.js:54-56 | with a non-empty coin given, the response holds min(100, number of that coin's rows) rows |
| `Server.NoFilterSelectsAll` | index.js:54-56 | with no coin, or the empty string, rows of every coin are eligible and min(100, table size) rows are returned |
| `Server.PriceAgo` | index.js:92-100 | one look-back query rejects exactly when its statement fails; otherwise its value is the price of a latest row of the coin at or before now minus the hours, or null when there is none |
| `Server.LookBacks` | index.js:89-128 | the loop succeeds exactly when no look-back query of any coin fails, and then every coin has a 24, 12 and 6 hour value as its query gives |
| `Server.Dashboard` | index.js:81-141 | the page is rendered exactly when the fetch and every look-back succeed, and then carries the fetched data and the look-back values; otherwise it is the 500 page `Error rendering dashboard` |
| `Server.MissingTableFailsDashboard` | index.js:92-99 | before the table exists every look-back fails, so the dashboard is the 500 page |
| `Server.LookBacksNest` | index.js:92-126 | a non-null 24-hour value implies non-null 12- and 6-hour values, and a non-null 12-hour value a non-null 6-hour one |
| `Server.ChosenRowsOrdered` | index.js:93-119 | the rows the 24, 12 and 6 hour queries choose have timestamps in that order |

## Left out

- HTTP transport and the EJS template are not modelled:
  - the Express app and its routing;
  - static files and `app.listen`;
  - the view engine settings, and the EJS rendering of the dashboard;
  - the SQLite admin GUI;
  - dotenv.
  A response is modelled as the data it would carry.
- `/api/live-prices` is not modelled. It only passes the fetch result through, or answers with a 500.
- The CoinGecko client (`src/coinbase.js`) is a network call. The model takes its result as a value: a failure, or a coin-to-price map.
- The dashboard's `coinData` is taken as that same coin-to-price map, not as the raw `{coin: {usd}}` JSON.
- Sending mail (`src/email.js`) is not modelled. An alert is the event it would send; transport failures, which are only logged, are not modelled.
- `src/dashboard.js` is not part of this model. It is static HTML and browser-side script.
- Floating point is not modelled. Prices are reals; only the division by a zero previous price is modelled as JavaScript does it.
- NULL prices are not modelled:
  - a coin present in the fetched data but without a `usd` field, which the insert would store as NULL;
  - the arithmetic on such a NULL.
- Asynchrony is reduced to two things:
  - the explicit `Order` of each coin's insert and check;
  - the sequential order of statements elsewhere.
- Overlapping ticks are not modelled, nor is a dashboard request interleaved with a tick.
- `Server.StartUp`: assumes the `CREATE TABLE` of the migration runs before the first tick's statements. The calls are not serialized, but the tick awaits its fetch first.
- The `CREATE TABLE` statement failing is not modelled.
- The error callback of `new sqlite3.Database` (index.js:24-26) is not modelled. It only logs the error.
- The clock is read once per tick and once per dashboard request. All inserts of a tick share `Env.now`, and all 51 look-back queries of a dashboard request share the `now` given to `Dashboard`. The code instead evaluates `CURRENT_TIMESTAMP` and `datetime('now')` separately for each statement.
- `Env.order` is one order for the whole tick. The model does not let the order vary from coin to coin.
- Time is not modelled in SQLite's terms. Timestamps are integer seconds on one clock, not SQLite's `YYYY-MM-DD HH:MM:SS` text and `datetime('now', '-N hours')`; the order is the same. The cron trigger is evaluated on that clock, so time zones and daylight-saving shifts are not modelled.
- `Server.ApiPrices`: among rows with equal timestamps its body returns one particular order. Its contract admits any order, as SQL does.
- A `coin` query parameter given more than once (an array in Express) is not modelled.
