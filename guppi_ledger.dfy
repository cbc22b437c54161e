/**
 * The startup-time ledger of `guppi.py`: the `startup_times` table holds the
 * most recent load times; every ready event appends the new one, trims the
 * list from the front to three entries, rewrites the table wholesale and
 * averages what it wrote.
 */
module StartupLedger {
  import opened Samples

  /** How many load times the ledger keeps */
  const Capacity: nat := 3

  /** The `startup_times` table: its rows in insertion order. */
  class StartupTimes {
    var rows: seq<real>

    /** `StartupTimes(db_path)`: the table is created if missing and keeps what it held. */
    constructor (existing: seq<real>)
      ensures rows == existing
    {
      rows := existing;
    }

    /** `retrieve_startup_times`: every stored load time */
    method RetrieveStartupTimes() returns (times: seq<real>)
      ensures times == rows
    {
      times := rows;
    }

    /** `update_startup_times`: one more row */
    method UpdateStartupTimes(newTime: real)
      modifies this
      ensures rows == old(rows) + [newTime]
    {
      rows := rows + [newTime];
    }

    /** `clear_startup_times`: every row deleted */
    method ClearStartupTimes()
      modifies this
      ensures rows == []
    {
      rows := [];
    }

    /**
     * The ledger part of `status_msg`: append the new load time, drop from the
     * front while more than three remain, clear the table, reinsert the kept
     * times in order and return their mean.
     */
    method Record(loadTime: real) returns (avg: real)
      modifies this
      ensures rows == Newest(old(rows) + [loadTime], Capacity)
      ensures 1 <= |rows| <= Capacity
      ensures avg == Mean(rows)
    {
      var loadTimes := RetrieveStartupTimes();
      loadTimes := loadTimes + [loadTime];
      ghost var all := loadTimes;
      if |loadTimes| > Capacity {
        while |loadTimes| > Capacity
          invariant Capacity <= |loadTimes| <= |all|
          invariant loadTimes == all[|all| - |loadTimes|..]
        {
          loadTimes := loadTimes[1..];
        }
      }
      assert loadTimes == Newest(all, Capacity);
      ClearStartupTimes();
      var i := 0;
      while i < |loadTimes|
        invariant 0 <= i <= |loadTimes|
        invariant rows == loadTimes[..i]
      {
        UpdateStartupTimes(loadTimes[i]);
        i := i + 1;
      }
      assert rows == loadTimes;
      avg := Sum(loadTimes) / (|loadTimes| as real);
    }
  }

  /** The ledger after a run of ready events, one `Record` per observed load time */
  function LedgerAfter(start: seq<real>, observed: seq<real>): seq<real>
    decreases |observed|
  {
    if observed == [] then start
    else LedgerAfter(Newest(start + [observed[0]], Capacity), observed[1..])
  }

  /**
   * Whatever the table held before, after at least one observation the ledger
   * is exactly the last `min(n, 3)` of everything recorded, in insertion order,
   * so it is never empty and never holds more than three entries.
   */
  lemma {:induction false} LedgerKeepsNewest(start: seq<real>, observed: seq<real>)
    requires observed != []
    ensures LedgerAfter(start, observed) == Newest(start + observed, Capacity)
    ensures 1 <= |LedgerAfter(start, observed)| <= Capacity
    decreases |observed|
  {
    var next := Newest(start + [observed[0]], Capacity);
    if |observed| == 1 {
      assert observed == [observed[0]];
    } else {
      LedgerKeepsNewest(next, observed[1..]);
      NewestAbsorbs(start + [observed[0]], observed[1..], Capacity);
      assert start + [observed[0]] + observed[1..] == start + observed;
    }
  }
}
