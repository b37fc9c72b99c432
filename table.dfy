/**
 * The `prices` table of the monitor's SQLite database (`./crypto.db`) and the
 * statements the program runs against it through its one connection.
 *
 * Timestamps are integer seconds; SQLite stores them as `YYYY-MM-DD HH:MM:SS`
 * text, whose order is the order of the seconds.
 */
module PricesTable {
  import opened Wrappers

  /** One row `(id, coin, price, timestamp)`; `timestamp` defaults to the insert time. */
  datatype Row = Row(id: nat, coin: string, price: real, timestamp: int)

  /** What SQLite reports for a statement on a table that was never created. */
  const NoSuchTable: string := "SQLITE_ERROR: no such table: prices"

  /**
   * The error a statement reports: a missing table first, otherwise the fault
   * (disk, lock, ...) the engine meets, if any. Faults come from outside the
   * program and are a parameter of every statement.
   */
  function StatementError(tableExists: bool, fault: Option<string>): Option<string>
  {
    if !tableExists then Some(NoSuchTable) else fault
  }

  /** `id INTEGER PRIMARY KEY` with no deletes: the k-th row ever inserted has id k. */
  predicate ConsecutiveIds(rows: seq<Row>)
  {
    forall i :: 0 <= i < |rows| ==> rows[i].id == i + 1
  }

  /** The table after the row `(coin, price)` is inserted at time `now`. */
  function Appended(rows: seq<Row>, coin: string, price: real, now: int): seq<Row>
  {
    rows + [Row(|rows| + 1, coin, price, now)]
  }

  /** The clause `WHERE coin = ? [AND timestamp <= cutoff]`. */
  predicate Matches(r: Row, coin: string, cutoff: Option<int>)
  {
    r.coin == coin && (cutoff.Some? ==> r.timestamp <= cutoff.value)
  }

  predicate HasMatch(rows: seq<Row>, coin: string, cutoff: Option<int>)
  {
    exists r :: r in rows && Matches(r, coin, cutoff)
  }

  /**
   * `r` is a row that `... ORDER BY timestamp DESC LIMIT 1` may return: a matching
   * row whose timestamp no matching row exceeds. Among rows with equal
   * timestamps SQL does not say which one comes first, so there may be several.
   */
  predicate IsLatest(rows: seq<Row>, coin: string, cutoff: Option<int>, r: Row)
  {
    && r in rows
    && Matches(r, coin, cutoff)
    && forall s :: s in rows && Matches(s, coin, cutoff) ==> s.timestamp <= r.timestamp
  }

  /** Whenever some row matches, a latest matching row exists. */
  lemma {:induction false} LatestExists(rows: seq<Row>, coin: string, cutoff: Option<int>)
    requires HasMatch(rows, coin, cutoff)
    ensures exists r :: IsLatest(rows, coin, cutoff, r)
  {
    var n := |rows|;
    var init, last := rows[..n - 1], rows[n - 1];
    assert rows == init + [last];
    if HasMatch(init, coin, cutoff) {
      LatestExists(init, coin, cutoff);
      var r :| IsLatest(init, coin, cutoff, r);
      if Matches(last, coin, cutoff) && last.timestamp > r.timestamp {
        assert IsLatest(rows, coin, cutoff, last);
      } else {
        assert IsLatest(rows, coin, cutoff, r);
      }
    } else {
      assert IsLatest(rows, coin, cutoff, last);
    }
  }

  /** A smaller cutoff never finds a later row: the look-backs are ordered by their cutoffs. */
  lemma LatestMonotone(rows: seq<Row>, coin: string, c1: int, c2: int, r1: Row, r2: Row)
    requires c1 <= c2
    requires IsLatest(rows, coin, Some(c1), r1) && IsLatest(rows, coin, Some(c2), r2)
    ensures r1.timestamp <= r2.timestamp
  {
    assert Matches(r1, coin, Some(c2));
  }

  /** The outcome of a `db.get` callback: `err`, no `row`, or a `row`. */
  datatype Lookup = Failed(message: string) | NoRow | Found(row: Row)

  /**
   * `l` is an answer the engine may give to the latest-row query on the table
   * `(tableExists, rows)` when it meets `fault`.
   */
  ghost predicate Answers(tableExists: bool, rows: seq<Row>, coin: string, cutoff: Option<int>,
                          fault: Option<string>, l: Lookup)
  {
    match StatementError(tableExists, fault)
    case Some(msg) => l == Failed(msg)
    case None =>
      || (l == NoRow && !HasMatch(rows, coin, cutoff))
      || (l.Found? && IsLatest(rows, coin, cutoff, l.row))
  }

  /** Only the rows of the queried coin decide the answers to a latest-row query. */
  lemma AnswersDependOnCoinRows(tableExists: bool, rows1: seq<Row>, rows2: seq<Row>, coin: string,
                                cutoff: Option<int>, fault: Option<string>, l: Lookup)
    requires forall r: Row :: r.coin == coin ==> (r in rows1 <==> r in rows2)
    ensures Answers(tableExists, rows1, coin, cutoff, fault, l) <==> Answers(tableExists, rows2, coin, cutoff, fault, l)
  {
    assert HasMatch(rows1, coin, cutoff) <==> HasMatch(rows2, coin, cutoff) by {
      if HasMatch(rows1, coin, cutoff) {
        var r :| r in rows1 && Matches(r, coin, cutoff);
        assert r in rows2;
      }
      if HasMatch(rows2, coin, cutoff) {
        var r :| r in rows2 && Matches(r, coin, cutoff);
        assert r in rows1;
      }
    }
    if l.Found? {
      assert IsLatest(rows1, coin, cutoff, l.row) <==> IsLatest(rows2, coin, cutoff, l.row);
    }
  }

  /**
   * The connection `sqlitedb` and the one table it holds. The table may be
   * absent until `CREATE TABLE IF NOT EXISTS` has run. Rows are only ever
   * appended.
   */
  class Connection {
    var tableExists: bool
    var rows: seq<Row>

    ghost predicate Valid()
      reads this
    {
      (!tableExists ==> rows == []) && ConsecutiveIds(rows)
    }

    /** Opens the database file as it is on disk: with or without the table. */
    constructor Open(tableExists: bool, rows: seq<Row>)
      requires !tableExists ==> rows == []
      requires ConsecutiveIds(rows)
      ensures Valid()
      ensures this.tableExists == tableExists && this.rows == rows
    {
      this.tableExists := tableExists;
      this.rows := rows;
    }

    /** `INSERT INTO prices (coin, price) VALUES (?, ?)` at time `now`. */
    method Insert(coin: string, price: real, now: int, fault: Option<string>) returns (err: Option<string>)
      requires Valid()
      modifies this
      ensures Valid() && tableExists == old(tableExists)
      ensures err == StatementError(old(tableExists), fault)
      ensures rows == if err.None? then Appended(old(rows), coin, price, now) else old(rows)
    {
      err := StatementError(tableExists, fault);
      if err.None? {
        rows := Appended(rows, coin, price, now);
      }
    }

    /**
     * `SELECT price FROM prices WHERE coin = ? [AND timestamp <= cutoff]
     * ORDER BY timestamp DESC LIMIT 1`. With ties the engine may return any
     * of the tied rows; the choice below is left open.
     */
    method SelectLatest(coin: string, cutoff: Option<int>, fault: Option<string>) returns (l: Lookup)
      ensures Answers(tableExists, rows, coin, cutoff, fault, l)
    {
      match StatementError(tableExists, fault)
      case Some(msg) =>
        l := Failed(msg);
      case None =>
        if HasMatch(rows, coin, cutoff) {
          LatestExists(rows, coin, cutoff);
          var r :| r in rows && IsLatest(rows, coin, cutoff, r);
          l := Found(r);
        } else {
          l := NoRow;
        }
    }
  }
}
