/**
 * The operation log: COperationRecord's table keyed by timestamp, and COpManager's cache of records in front
 * of it.  Times are microseconds.
 */
module OperationLog {
  import opened Common

  const KEPT_DAYS := 30

  datatype Record = Record(stamp: int, operation: int, username: string, schema: int)

  /** The table in insertion order, the cached records, and the time of the last pruning. */
  datatype Log = Log(table: seq<Record>, cache: seq<Record>, lastDelete: int)

  // ---------- the table ----------

  predicate HasStamp(table: seq<Record>, stamp: int) {
    exists i :: 0 <= i < |table| && table[i].stamp == stamp
  }

  /** Inserts in order and stops at the first timestamp that is taken; what came before stays. */
  function InsertBatch(table: seq<Record>, batch: seq<Record>): seq<Record>
    decreases |batch|
  {
    if batch == [] || HasStamp(table, batch[0].stamp) then table
    else InsertBatch(table + [batch[0]], batch[1..])
  }

  /** The rows of a half-open time range, in table order. */
  function Between(table: seq<Record>, start: int, end: int): seq<Record> {
    if table == [] then []
    else
      var n := |table| - 1;
      Between(table[..n], start, end) + if start <= table[n].stamp < end then [table[n]] else []
  }

  /** The rows that a pruning keeps. */
  function NotBefore(table: seq<Record>, cutoff: int): seq<Record> {
    if table == [] then []
    else
      var n := |table| - 1;
      NotBefore(table[..n], cutoff) + if table[n].stamp < cutoff then [] else [table[n]]
  }

  /** LIMIT and OFFSET: a negative limit is no limit, a negative offset is none. */
  function Page(rows: seq<Record>, limit: int, offset: int): seq<Record> {
    var from := if offset < 0 then 0 else if offset > |rows| then |rows| else offset;
    var rest := rows[from..];
    if limit < 0 || limit > |rest| then rest else rest[..limit]
  }

  // ---------- the manager ----------

  function AddRecord(l: Log, r: Record): Log {
    l.(cache := l.cache + [r])
  }

  /** The cache is emptied whether or not every record could be inserted. */
  function WriteAll(l: Log): Log {
    l.(table := InsertBatch(l.table, l.cache), cache := [])
  }

  /** Midnight of now's date, thirty days ago. */
  function Cutoff(now: int): int {
    now - now % DAY - KEPT_DAYS * DAY
  }

  predicate Prunes(l: Log, now: int) {
    now - l.lastDelete >= DAY
  }

  function TimerPass(l: Log, now: int): Log {
    var written := WriteAll(l);
    if Prunes(l, now) then written.(table := NotBefore(written.table, Cutoff(now)), lastDelete := now) else written
  }

  function Query(l: Log, start: int, end: int, limit: int, offset: int): (Log, seq<Record>) {
    (WriteAll(l), Page(Between(WriteAll(l).table, start, end), limit, offset))
  }

  // ---------- nothing is lost ----------

  ghost predicate Increasing(records: seq<Record>) {
    forall i, j :: 0 <= i < j < |records| ==> records[i].stamp < records[j].stamp
  }

  /** Every timestamp of the batch is new to the table and to the batch before it. */
  ghost predicate NewStamps(table: seq<Record>, batch: seq<Record>) {
    forall i :: 0 <= i < |batch| ==> !HasStamp(table + batch[..i], batch[i].stamp)
  }

  /** A batch goes in completely exactly when its timestamps are new. */
  lemma {:induction false} BatchIsCompleteExactly(table: seq<Record>, batch: seq<Record>)
    ensures InsertBatch(table, batch) == table + batch <==> NewStamps(table, batch)
    ensures |InsertBatch(table, batch)| <= |table| + |batch|
    decreases |batch|
  {
    if batch == [] {
      assert table + batch == table;
    } else {
      assert batch[..0] == [] && table + [] == table;
      var table' := table + [batch[0]];
      var rest := batch[1..];
      assert table' + rest == table + batch;
      BatchIsCompleteExactly(table', rest);
      assert NewStamps(table, batch) <==> !HasStamp(table, batch[0].stamp) && NewStamps(table', rest) by {
        forall i | 0 <= i < |rest| ensures table' + rest[..i] == table + batch[..i + 1] && rest[i] == batch[i + 1] {}
        if !HasStamp(table, batch[0].stamp) && NewStamps(table', rest) {
          forall i | 0 <= i < |batch| ensures !HasStamp(table + batch[..i], batch[i].stamp) {
            if i > 0 { assert !HasStamp(table' + rest[..i - 1], rest[i - 1].stamp); }
          }
        }
        if NewStamps(table, batch) {
          forall i | 0 <= i < |rest| ensures !HasStamp(table' + rest[..i], rest[i].stamp) {
            assert !HasStamp(table + batch[..i + 1], batch[i + 1].stamp);
          }
        }
      }
    }
  }

  /** In any case a prefix of the batch goes in, up to the first timestamp that is taken by then. */
  lemma {:induction false} BatchStopsAtFirstTaken(table: seq<Record>, batch: seq<Record>) returns (k: nat)
    ensures k <= |batch| && InsertBatch(table, batch) == table + batch[..k]
    ensures k < |batch| ==> HasStamp(table + batch[..k], batch[k].stamp)
    ensures forall i :: 0 <= i < k ==> !HasStamp(table + batch[..i], batch[i].stamp)
    decreases |batch|
  {
    if batch == [] || HasStamp(table, batch[0].stamp) {
      k := 0;
      assert table + batch[..0] == table;
    } else {
      var rest := batch[1..];
      var n := BatchStopsAtFirstTaken(table + [batch[0]], rest);
      k := n + 1;
      forall i | 0 <= i <= n ensures table + [batch[0]] + rest[..i] == table + batch[..i + 1] {
        assert batch[..i + 1] == [batch[0]] + rest[..i];
      }
      forall i | 0 <= i < k ensures !HasStamp(table + batch[..i], batch[i].stamp) {
        if i == 0 {
          assert table + batch[..0] == table;
        } else {
          assert !HasStamp(table + [batch[0]] + rest[..i - 1], rest[i - 1].stamp);
        }
      }
    }
  }

  /** With increasing timestamps a flush moves the whole cache into the table. */
  lemma FlushLosesNothing(l: Log)
    requires Increasing(l.table + l.cache)
    ensures WriteAll(l).table == l.table + l.cache
  {
    var all := l.table + l.cache;
    forall i | 0 <= i < |l.cache| ensures !HasStamp(l.table + l.cache[..i], l.cache[i].stamp) {
      assert all[|l.table| + i] == l.cache[i];
      assert l.table + l.cache[..i] == all[..|l.table| + i];
    }
    BatchIsCompleteExactly(l.table, l.cache);
  }

  lemma {:induction false} PruningKeepsAll(records: seq<Record>, cutoff: int)
    requires forall i :: 0 <= i < |records| ==> records[i].stamp >= cutoff
    ensures NotBefore(records, cutoff) == records
  {
    if records != [] {
      PruningKeepsAll(records[..|records| - 1], cutoff);
    }
  }

  lemma {:induction false} PruningDropsPrefix(records: seq<Record>, cutoff: int, k: nat)
    requires k <= |records| && forall i :: 0 <= i < k ==> records[i].stamp < cutoff
    ensures NotBefore(records, cutoff) == NotBefore(records[k..], cutoff)
    decreases |records|
  {
    if k < |records| {
      var n := |records| - 1;
      PruningDropsPrefix(records[..n], cutoff, k);
      assert records[k..][..n - k] == records[..n][k..];
    } else if k > 0 {
      PruningDropsPrefix(records[..k - 1], cutoff, k - 1);
      assert records[..k - 1][k - 1..] == [] && records[k..] == [];
    } else {
      assert records[k..] == records;
    }
  }

  /** Pruning increasing records cuts off a prefix, all of it before the cutoff and nothing after it. */
  lemma PruningCutsAPrefix(records: seq<Record>, cutoff: int) returns (k: nat)
    requires Increasing(records)
    ensures k <= |records| && NotBefore(records, cutoff) == records[k..]
    ensures forall i :: 0 <= i < |records| ==> (records[i].stamp < cutoff <==> i < k)
  {
    k := IndexWhere(records, (r: Record) => r.stamp >= cutoff);
    PruningDropsPrefix(records, cutoff, k);
    assert forall i :: k <= i < |records| ==> records[k].stamp <= records[i].stamp;
    PruningKeepsAll(records[k..], cutoff);
  }

  /** A pruning removes only records stamped more than thirty days before it. */
  lemma CutoffIsThirtyDaysBack(now: int, r: Record)
    requires r.stamp < Cutoff(now)
    ensures now - r.stamp > 30 * DAY
  {
  }

  /** By dates: a pruning removes exactly the records of a date more than thirty days before its own. */
  lemma CutoffByDate(now: int, r: Record)
    ensures r.stamp < Cutoff(now) <==> r.stamp / DAY < now / DAY - 30
  {
  }

  lemma {:induction false} NotBeforeHolds(records: seq<Record>, cutoff: int)
    ensures forall r :: r in NotBefore(records, cutoff) <==> r in records && r.stamp >= cutoff
  {
    if records != [] {
      var n := |records| - 1;
      NotBeforeHolds(records[..n], cutoff);
      assert records == records[..n] + [records[n]];
    }
  }

  /**
   * A timer pass always empties the cache into the table.  If a day has passed since the last pruning it then
   * keeps exactly the records of the last thirty dates and later, and the clock starts again; otherwise it
   * keeps everything.
   */
  lemma TimerPassPrunesExactly(l: Log, now: int)
    requires Increasing(l.table + l.cache)
    ensures var l' := TimerPass(l, now);
            && l'.cache == []
            && (now - l.lastDelete >= 86_400_000_000 ==>
                  l'.lastDelete == now
                  && forall r :: r in l'.table <==> r in l.table + l.cache && r.stamp / DAY >= now / DAY - 30)
            && (now - l.lastDelete < 86_400_000_000 ==>
                  l'.lastDelete == l.lastDelete && l'.table == l.table + l.cache)
  {
    FlushLosesNothing(l);
    NotBeforeHolds(l.table + l.cache, Cutoff(now));
    forall r: Record ensures r.stamp >= Cutoff(now) <==> r.stamp / DAY >= now / DAY - 30 {
      CutoffByDate(now, r);
    }
  }

  /**
   * Records are stamped with local time but the cutoff is taken from UTC: for a zone `ahead` of UTC, a record
   * written less than thirty days ago can be removed exactly when the UTC time of day is less than the zone
   * is behind.
   */
  lemma EarlyPruningExactly(now: int, ahead: int)
    ensures (exists written :: now - written < 30 * DAY && StampOf(written, ahead) < Cutoff(now))
            <==> now % DAY + ahead <= -2
  {
    if now % DAY + ahead <= -2 {
      var written := now - 30 * DAY + 1;
      assert StampOf(written, ahead) < Cutoff(now);
    }
  }

  /** makeLocal before the timestamp is taken. */
  function StampOf(written: int, ahead: int): int {
    written + ahead
  }

  // ---------- pages ----------

  /** A query answers the page of the range over all records not pruned, cached ones included. */
  lemma QueryCoversCache(l: Log, start: int, end: int, limit: int, offset: int)
    requires Increasing(l.table + l.cache)
    ensures Query(l, start, end, limit, offset).1 == Page(Between(l.table + l.cache, start, end), limit, offset)
    ensures var l' := Query(l, start, end, limit, offset).0; l'.table + l'.cache == l.table + l.cache
  {
    FlushLosesNothing(l);
  }

  /** Between is a filter: the members in range, each once, in order. */
  lemma {:induction false} BetweenIsTheRange(table: seq<Record>, start: int, end: int)
    requires Increasing(table)
    ensures Increasing(Between(table, start, end))
    ensures forall r :: r in Between(table, start, end) <==> r in table && start <= r.stamp < end
  {
    if table != [] {
      var n := |table| - 1;
      BetweenIsTheRange(table[..n], start, end);
      assert table == table[..n] + [table[n]];
      forall r | r in Between(table[..n], start, end) ensures r.stamp < table[n].stamp {
        assert r in table[..n];
      }
    }
  }

  /** A page begins after the offset and has as many rows as the limit and the rest allow; negative bounds are none. */
  lemma PageIsSlice(rows: seq<Record>, limit: int, offset: int)
    ensures var page := Page(rows, limit, offset);
            var from := if offset < 0 then 0 else offset;
            && (forall k :: 0 <= k < |page| ==> from + k < |rows| && page[k] == rows[from + k])
            && (from <= |rows| && limit < 0 ==> |page| == |rows| - from)
            && (from <= |rows| && limit >= 0 ==> |page| == if limit < |rows| - from then limit else |rows| - from)
            && (from > |rows| ==> page == [])
  {
  }

  /** The first n pages of one limit, one after another. */
  function Pages(rows: seq<Record>, limit: int, n: nat): seq<Record> {
    if n == 0 then [] else Pages(rows, limit, n - 1) + Page(rows, limit, (n - 1) * limit)
  }

  function FirstRows(rows: seq<Record>, n: nat): seq<Record> {
    if n <= |rows| then rows[..n] else rows
  }

  lemma OnePageMore(rows: seq<Record>, limit: nat, from: nat)
    ensures FirstRows(rows, from) + Page(rows, limit, from) == FirstRows(rows, from + limit)
  {
    if from <= |rows| {
      assert rows[..from] + rows[from..] == rows;
      if from + limit <= |rows| {
        assert rows[..from] + rows[from..][..limit] == rows[..from + limit];
      }
    }
  }

  /** Consecutive pages join to a prefix of the rows, and to all of them once they reach the end. */
  lemma {:induction false} PagesJoin(rows: seq<Record>, limit: int, n: nat)
    requires limit > 0
    ensures 0 <= n * limit && Pages(rows, limit, n) == FirstRows(rows, n * limit)
  {
    if n > 0 {
      PagesJoin(rows, limit, n - 1);
      OnePageMore(rows, limit, (n - 1) * limit);
      assert n * limit == (n - 1) * limit + limit;
    }
  }

  // ---------- the objects ----------

  class OperationRecord {
    var table: seq<Record>

    constructor ()
      ensures table == []
    {
      table := [];
    }

    method StampTaken(stamp: int) returns (taken: bool)
      ensures taken == HasStamp(table, stamp)
    {
      for i := 0 to |table|
        invariant forall j :: 0 <= j < i ==> table[j].stamp != stamp
      {
        if table[i].stamp == stamp { return true; }
      }
      return false;
    }

    /** The prepared statement runs once for each record of the batch; -1 reports a failed insert. */
    method AddBatch(batch: seq<Record>) returns (count: int)
      modifies this
      ensures table == InsertBatch(old(table), batch)
      ensures count == if |table| == |old(table)| + |batch| then |batch| else -1
    {
      var i := 0;
      while i < |batch|
        invariant i <= |batch| && |table| == |old(table)| + i
        invariant InsertBatch(table, batch[i..]) == InsertBatch(old(table), batch)
      {
        assert batch[i..][0] == batch[i] && batch[i..][1..] == batch[i + 1..];
        var taken := StampTaken(batch[i].stamp);
        if taken { return -1; }
        table := table + [batch[i]];
        i := i + 1;
      }
      return |batch|;
    }

    method DeleteBefore(cutoff: int) returns (count: nat)
      modifies this
      ensures table == NotBefore(old(table), cutoff) && count == |old(table)| - |table|
    {
      var kept: seq<Record> := [];
      count := 0;
      for i := 0 to |table|
        invariant kept == NotBefore(table[..i], cutoff) && count == i - |kept|
      {
        assert table[..i + 1][..i] == table[..i];
        if table[i].stamp < cutoff {
          count := count + 1;
        } else {
          kept := kept + [table[i]];
        }
      }
      assert table[..|table|] == table;
      table := kept;
    }

    /** The rows BETWEEN start AND end - 1, then LIMIT and OFFSET. */
    method GetRecords(start: int, end: int, limit: int, offset: int) returns (rows: seq<Record>)
      ensures rows == Page(Between(table, start, end), limit, offset)
    {
      var last := end - 1;
      rows := [];
      for i := 0 to |table|
        invariant rows == Between(table[..i], start, end)
      {
        assert table[..i + 1][..i] == table[..i];
        if start <= table[i].stamp && table[i].stamp <= last {
          rows := rows + [table[i]];
        }
      }
      assert table[..|table|] == table;
      var from := if offset < 0 then 0 else if offset > |rows| then |rows| else offset;
      rows := rows[from..];
      if 0 <= limit < |rows| {
        rows := rows[..limit];
      }
    }
  }

  class OperationManager {
    const store: OperationRecord
    var cache: seq<Record>
    var lastDelete: int

    function Contents(): Log
      reads this, store
    {
      Log(store.table, cache, lastDelete)
    }

    constructor (store: OperationRecord, epoch2000: int)
      ensures this.store == store && cache == [] && lastDelete == epoch2000
    {
      this.store := store;
      cache, lastDelete := [], epoch2000;
    }

    method Add(r: Record)
      modifies this`cache
      ensures Contents() == AddRecord(old(Contents()), r)
    {
      cache := cache + [r];
    }

    method WriteAllRecords()
      modifies this`cache, store
      ensures Contents() == WriteAll(old(Contents()))
    {
      if |cache| > 0 {
        var count := store.AddBatch(cache);
        cache := [];
      }
    }

    method TimerCallback(now: int)
      modifies this, store
      ensures Contents() == TimerPass(old(Contents()), now)
    {
      WriteAllRecords();
      var diff := now - lastDelete;
      if diff >= DAY {
        var today := now - now % DAY;
        var deleted := store.DeleteBefore(today - KEPT_DAYS * DAY);
        lastDelete := now;
      }
    }

    method GetRecords(start: int, end: int, limit: int, offset: int) returns (rows: seq<Record>)
      modifies this`cache, store
      ensures (Contents(), rows) == Query(old(Contents()), start, end, limit, offset)
    {
      WriteAllRecords();
      rows := store.GetRecords(start, end, limit, offset);
    }
  }
}
