/** Properties of single rows, such as being filed under the own key, having the table's row length or
    surviving a table scan: what holds of every row read and every row written holds of every row cached
    and of every row on chain (ha_blockchain.cc write_row, update_row, delete_row, bc_commit). */
module RowTests {
  import opened Bytes
  import opened Statements
  import opened Rows

  /** Of a table, a key and the row stored under it. */
  type RowTest = (string, BYTES, BYTES) -> bool

  ghost predicate AllRows(good: RowTest, t: string, tab: Table) {
    forall k {:trigger good(t, k, tab[k])} {:trigger k in tab} :: k in tab ==> good(t, k, tab[k])
  }

  ghost predicate CacheRows(good: RowTest, c: Cache) {
    forall t {:trigger AllRows(good, t, c[t])} :: t in c ==> AllRows(good, t, c[t])
  }

  ghost predicate LogRows(good: RowTest, log: Log) {
    forall i :: 0 <= i < |log| && log[i].Write? ==> good(log[i].tablename, log[i].key, log[i].value)
  }

  /** The row that an operation writes, if any, passes. */
  ghost predicate OpRow(good: RowTest, op: RowOp) {
    match op
    case Insert(t, key, row) => good(t, key, row)
    case Update(t, _, newKey, row) => good(t, newKey, row)
    case Delete(_, _) => true
  }

  ghost predicate TxnRows(good: RowTest, x: Txn) {
    CacheRows(good, x.cache) && LogRows(good, x.statements)
  }

  lemma {:induction false} AppendKeepsRows(good: RowTest, x: Txn, s: Statement)
    requires TxnRows(good, x) && s.tablename in x.cache
    requires s.Write? ==> good(s.tablename, s.key, s.value)
    ensures TxnRows(good, Append(x, s))
  {
    var y := Append(x, s);
    forall t | t in y.cache ensures AllRows(good, t, y.cache[t]) {
      assert AllRows(good, t, x.cache[t]);
    }
  }

  lemma {:induction false} LockKeepsRows(good: RowTest, x: Txn, t: string, content: Table)
    requires TxnRows(good, x) && AllRows(good, t, content)
    ensures TxnRows(good, Lock(x, t, content))
  {
    var y := Lock(x, t, content);
    forall t' | t' in y.cache ensures AllRows(good, t', y.cache[t']) {
      assert t' in x.cache ==> AllRows(good, t', x.cache[t']);
    }
  }

  lemma {:induction false} RowOpKeepsRows(good: RowTest, x: Txn, op: RowOp)
    requires TxnRows(good, x) && op.t in x.cache && OpRow(good, op)
    ensures TxnRows(good, Perform(x, op))
  {
    match op
    case Insert(t, key, row) => AppendKeepsRows(good, x, Write(t, key, row));
    case Delete(t, key) => AppendKeepsRows(good, x, Remove(t, key));
    case Update(t, oldKey, newKey, row) =>
      if oldKey == newKey {
        AppendKeepsRows(good, x, Write(t, newKey, row));
      } else {
        AppendKeepsRows(good, x, Remove(t, oldKey));
        AppendKeepsRows(good, DeleteRow(x, t, oldKey), Write(t, newKey, row));
      }
  }

  /** After any run of locks and row operations every cached and every logged row passes, if every row
      loaded and every row handed in does. */
  lemma {:induction false} RunKeepsRows(good: RowTest, x: Txn, events: seq<Event>, y: Txn)
    requires Runs(x, events, y) && TxnRows(good, x)
    requires forall e :: e in events && e.Row? ==> OpRow(good, e.op)
    requires forall e :: e in events && e.Locked? ==> AllRows(good, e.t, e.content)
    ensures TxnRows(good, y)
    decreases |events|
  {
    if events != [] {
      var e := events[0];
      assert e in events && forall e' :: e' in events[1..] ==> e' in events;
      match e
      case Locked(t, content) =>
        LockKeepsRows(good, x, t, content);
        RunKeepsRows(good, Lock(x, t, content), events[1..], y);
      case Row(op) =>
        RowOpKeepsRows(good, x, op);
        RunKeepsRows(good, Perform(x, op), events[1..], y);
    }
  }

  lemma {:induction false} PendingRows(good: RowTest, log: Log, t: string)
    requires LogRows(good, log)
    ensures AllRows(good, t, Pending(log, t))
  {
    if log != [] {
      assert LogRows(good, Init(log)) by { assert forall i :: 0 <= i < |log| - 1 ==> Init(log)[i] == log[i]; }
      PendingRows(good, Init(log), t);
      assert log[|log| - 1] == Last(log);
    }
  }

  lemma {:induction false} FlushedRows(good: RowTest, tab: Table, log: Log, t: string, net: Conditions)
    requires AllRows(good, t, tab) && LogRows(good, log)
    ensures AllRows(good, t, Flushed(tab, log, t, net))
  {
    if log != [] {
      assert LogRows(good, Init(log)) by { assert forall i :: 0 <= i < |log| - 1 ==> Init(log)[i] == log[i]; }
      FlushedRows(good, tab, Init(log), t, net);
      PendingRows(good, Init(log), t);
    }
  }

  /** The same for the contract, whatever requests fail. */
  lemma {:induction false} CommittedRows(good: RowTest, tab: Table, log: Log, t: string, net: Conditions)
    requires AllRows(good, t, tab) && LogRows(good, log)
    ensures AllRows(good, t, Committed(tab, log, t, net))
  {
    FlushedRows(good, tab, log, t, net);
    PendingRows(good, log, t);
  }
}
