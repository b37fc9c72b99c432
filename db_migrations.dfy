/**
 * The `Database` wrapper around the connection: the schema migration and the
 * price-change check that decides whether a coin's new price raises an alert.
 */
module DbMigrations {
  import opened Wrappers
  import opened PricesTable

  /** The alert threshold, in percent: `priceChange >= 5`. */
  const Threshold: real := 5.0

  /**
   * A JavaScript number as the change computation can produce it. Prices are
   * reals, so the only values beyond the reals come from dividing by a zero
   * previous price.
   */
  datatype Change = Finite(value: real) | PosInfinity | NegInfinity | NaN

  /** `((currentPrice - previousPrice) / previousPrice) * 100`, with JavaScript's division by zero. */
  function PercentChange(currentPrice: real, previousPrice: real): Change
  {
    if previousPrice != 0.0 then Finite((currentPrice - previousPrice) / previousPrice * 100.0)
    else if currentPrice > 0.0 then PosInfinity
    else if currentPrice < 0.0 then NegInfinity
    else NaN
  }

  /** `priceChange >= 5` on a JavaScript number: true of +Infinity, false of -Infinity and NaN. */
  predicate ReachesThreshold(change: Change)
  {
    match change
    case Finite(v) => v >= Threshold
    case PosInfinity => true
    case _ => false
  }

  /** The alert `sendEmailAlert(coin, priceChange)` sends. */
  datatype Alert = Alert(coin: string, priceChange: Change)

  /** The alert the callback of the latest-row query emits for the answer `previous`. */
  function AlertFor(coin: string, currentPrice: real, previous: Lookup): Option<Alert>
  {
    match previous
    case Found(row) =>
      var priceChange := PercentChange(currentPrice, row.price);
      if ReachesThreshold(priceChange) then Some(Alert(coin, priceChange)) else None
    case _ => None
  }

  /**
   * For a positive previous price the alert fires exactly when the new price
   * is at least 105% of it.
   */
  lemma ThresholdIsFivePercentRise(currentPrice: real, previousPrice: real)
    requires previousPrice > 0.0
    ensures ReachesThreshold(PercentChange(currentPrice, previousPrice)) <==> currentPrice >= 1.05 * previousPrice
  {
    var q := (currentPrice - previousPrice) / previousPrice;
    assert q * previousPrice == currentPrice - previousPrice;
    assert q * 100.0 >= 5.0 <==> q >= 0.05;
    if q >= 0.05 {
      assert q * previousPrice >= 0.05 * previousPrice;
    } else {
      assert q * previousPrice < 0.05 * previousPrice;
    }
  }

  /** The boundary: 100 to 105 is a change of exactly 5% and alerts, 100 to 104.99 does not. */
  lemma ThresholdBoundary(coin: string, row: Row)
    requires row.price == 100.0
    ensures AlertFor(coin, 105.0, Found(row)) == Some(Alert(coin, Finite(5.0)))
    ensures AlertFor(coin, 104.99, Found(row)) == None
  {
    ThresholdIsFivePercentRise(104.99, 100.0);
  }

  /**
   * The test is upward only: a fall or an unchanged price never alerts while
   * the previous price is not negative.
   */
  lemma NoAlertWithoutRise(coin: string, currentPrice: real, row: Row)
    requires row.price >= 0.0 && currentPrice <= row.price
    ensures AlertFor(coin, currentPrice, Found(row)) == None
  {
    if row.price > 0.0 {
      ThresholdIsFivePercentRise(currentPrice, row.price);
    }
  }

  /** Comparing a price with itself never alerts, whatever the price. */
  lemma SamePriceNeverAlerts(coin: string, row: Row)
    ensures AlertFor(coin, row.price, Found(row)) == None
  {
  }

  /**
   * A failed lookup or a coin without rows yields no alert; an alert names the
   * coin checked and carries the percent change against the row found.
   */
  lemma AlertOnlyFromFoundRow(coin: string, currentPrice: real, previous: Lookup)
    ensures !previous.Found? ==> AlertFor(coin, currentPrice, previous) == None
    ensures AlertFor(coin, currentPrice, previous).Some? ==>
      && previous.Found?
      && AlertFor(coin, currentPrice, previous).value.coin == coin
      && AlertFor(coin, currentPrice, previous).value.priceChange == PercentChange(currentPrice, previous.row.price)
      && ReachesThreshold(AlertFor(coin, currentPrice, previous).value.priceChange)
  {
  }

  /** A zero previous price makes any rise an infinite change, which alerts. */
  lemma ZeroPreviousPriceAlertsOnAnyRise(coin: string, currentPrice: real, row: Row)
    requires row.price == 0.0 && currentPrice > 0.0
    ensures AlertFor(coin, currentPrice, Found(row)) == Some(Alert(coin, PosInfinity))
  {
  }

  /** `class Database`: the program's wrapper around the connection in `this.db`. */
  class Database {
    const db: Connection

    constructor(db: Connection)
      ensures this.db == db
    {
      this.db := db;
    }

    /** `CREATE TABLE IF NOT EXISTS prices (...)`: creates an empty table when there is none. */
    method RunMigrations()
      requires db.Valid()
      modifies db
      ensures db.Valid() && db.tableExists
      ensures db.rows == if old(db.tableExists) then old(db.rows) else []
    {
      if !db.tableExists {
        db.tableExists := true;
        db.rows := [];
      }
    }

    /**
     * `checkPriceChanges(coin, currentPrice)`: reads the coin's latest row and
     * alerts on a rise of at least five percent. It issues one query and no
     * statement that writes, so the table is left as it is.
     */
    method CheckPriceChanges(coin: string, currentPrice: real, fault: Option<string>)
      returns (previous: Lookup, alert: Option<Alert>)
      ensures Answers(db.tableExists, db.rows, coin, None, fault, previous)
      ensures alert == AlertFor(coin, currentPrice, previous)
    {
      previous := db.SelectLatest(coin, None, fault);
      alert := AlertFor(coin, currentPrice, previous);
    }
  }
}
