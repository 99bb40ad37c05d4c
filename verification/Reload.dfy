/** From a transaction's commit to the next lock of the table, through adapter, node and contract and
    back: what a fresh external_lock loads after bc_commit. */
module Reload {
  import opened Bytes
  import opened Hex
  import opened Network
  import opened Statements
  import opened Framing
  import opened BatchStrings
  import opened Commits
  import opened RowTests
  import opened Engine
  import Rows

  /** The row survives a table scan. */
  const SAFE_ROW: RowTest := (t, k, row) => SeparatorSafe(row)

  lemma {:induction false} SafeIsTableSafe(t: string, tab: Table)
    ensures AllRows(SAFE_ROW, t, tab) <==> TableSafe(tab)
  {
    if AllRows(SAFE_ROW, t, tab) {
      forall k | k in tab ensures SeparatorSafe(tab[k]) { assert SAFE_ROW(t, k, tab[k]); }
    }
    if TableSafe(tab) {
      forall k | k in tab ensures SAFE_ROW(t, k, tab[k]) { assert SeparatorSafe(tab[k]); }
    }
  }

  /** Separator-safe rows and writes leave a separator-safe table, whatever requests fail. */
  lemma {:induction false} CommittedSafe(tab: Table, log: Log, t: string, net: Conditions)
    requires TableSafe(tab) && LogRows(SAFE_ROW, log)
    ensures TableSafe(Committed(tab, log, t, net))
  {
    SafeIsTableSafe(t, tab);
    CommittedRows(SAFE_ROW, tab, log, t, net);
    SafeIsTableSafe(t, Committed(tab, log, t, net));
  }

  lemma {:induction false} MergeSize(a: Table, b: Table, n: Net)
    ensures |a + Surviving(b, n)| <= |a| + |b|
  {
    var s := Surviving(b, n);
    assert (a + s).Keys == a.Keys + s.Keys;
    SubsetSize(s.Keys, b.Keys);
    assert |(a + s).Keys| == |a + s| && |a.Keys| == |a| && |b.Keys| == |b|;
  }

  lemma {:induction false} CommittedSize(tab: Table, log: Log, t: string, net: Conditions)
    ensures |Committed(tab, log, t, net)| <= |tab| + |log|
  {
    FlushedSize(tab, log, t, net);
    MergeSize(Flushed(tab, log, t, net), Pending(log, t), net(|log|, t));
  }

  lemma {:induction false} FlushedSize(tab: Table, log: Log, t: string, net: Conditions)
    ensures |Flushed(tab, log, t, net)| + |Pending(log, t)| <= |tab| + |log|
  {
    if log != [] {
      var init, s := Init(log), Last(log);
      FlushedSize(tab, init, t, net);
      if s.tablename == t && s.Remove? {
        var sent := Flushed(tab, init, t, net) + Surviving(Pending(init, t), net(|log| - 1, t));
        MergeSize(Flushed(tab, init, t, net), Pending(init, t), net(|log| - 1, t));
        RemoveSize(sent, s.key);
      }
    }
  }

  lemma {:induction false} RemoveSize(tab: Table, k: BYTES)
    ensures |tab - {k}| <= |tab|
  {
    SubsetSize((tab - {k}).Keys, tab.Keys);
    assert |(tab - {k}).Keys| == |tab - {k}| && |tab.Keys| == |tab|;
  }

  /** All tables of the log are open, and what it writes is separator-safe. */
  ghost predicate LogReady(engine: StorageEngine, x: Rows.Txn) {
    LogFits(x.statements) && AllOpen(engine.adapters.Keys, x.statements) && LogRows(SAFE_ROW, x.statements)
  }

  /** The table is open, separator-safe and small enough to be scanned. */
  ghost predicate Ready(chain: Chain, x: Rows.Txn, t: string) {
    && t in chain && t in x.snapshot
    && |chain[t]| + |x.statements| <= INT_MAX && TableSafe(chain[t])
  }

  ghost predicate AllReady(chain: Chain, x: Rows.Txn) {
    forall t {:trigger Ready(chain, x, t)} :: t in x.cache ==> Ready(chain, x, t)
  }

  /** What a scan can load. */
  ghost predicate Loadable(chain: Chain, t: string) {
    t in chain && TableSafe(chain[t]) && |chain[t]| <= INT_MAX
  }

  ghost predicate AllLoadable(chain: Chain, tables: set<string>) {
    forall t {:trigger Loadable(chain, t)} :: t in tables ==> Loadable(chain, t)
  }

  predicate Readable(answers: string -> Net, t: string) {
    answers(t).available && answers(t).answered
  }

  ghost predicate AllReadable(answers: string -> Net, tables: set<string>) {
    forall t {:trigger Readable(answers, t)} :: t in tables ==> Readable(answers, t)
  }

  lemma {:induction false} ReadyIsLoadable(chain: Chain, x: Rows.Txn, net: Conditions)
    requires AllReady(chain, x) && LogRows(SAFE_ROW, x.statements)
    ensures AllLoadable(CommittedAll(chain, x.statements, net), x.cache.Keys)
  {
    forall t | t in x.cache ensures Loadable(CommittedAll(chain, x.statements, net), t) {
      assert Ready(chain, x, t);
      CommittedSafe(chain[t], x.statements, t, net);
      CommittedSize(chain[t], x.statements, t, net);
    }
  }

  /** Which tables of the committed transaction the reloaded ones equal. */
  lemma {:induction false} ReloadShows(chain: Chain, x: Rows.Txn, net: Conditions, t: string)
    requires AllReady(chain, x) && Rows.Coherent(x) && t in x.cache
    ensures t in chain && t in x.snapshot
    ensures CommittedAll(chain, x.statements, net)[t] == x.cache[t] <==> Rows.Shows(x, chain[t], t, net)
    ensures chain[t] == x.snapshot[t] && Carried(x.statements, t, net) ==>
      (CommittedAll(chain, x.statements, net)[t] == x.cache[t] <==> Faithful(x.statements, t))
  {
    assert Ready(chain, x, t);
    Rows.CommitOntoIff(x, chain[t], t, net);
    Rows.CoherentCommitIff(x, t, net);
  }

  /** The reloaded cache holds the tables of the old one, and shows a table as it did if and only if every key
      touched was delivered and every other one was on chain as when locked; when every request sent succeeded
      and the table was on chain as when locked, if and only if the log is faithful on it. */
  ghost predicate Reloaded(chain: Chain, x: Rows.Txn, c: Rows.Cache, net: Conditions) {
    && c.Keys == x.cache.Keys
    && forall t {:trigger ReloadedAt(chain, x, c, net, t)} :: t in x.cache ==> ReloadedAt(chain, x, c, net, t)
  }

  ghost predicate ReloadedAt(chain: Chain, x: Rows.Txn, c: Rows.Cache, net: Conditions, t: string)
    requires t in x.cache && t in c
  {
    && t in x.snapshot && t in chain
    && (c[t] == x.cache[t] <==> Rows.Shows(x, chain[t], t, net))
    && (chain[t] == x.snapshot[t] && Carried(x.statements, t, net) ==>
      (c[t] == x.cache[t] <==> Faithful(x.statements, t)))
  }

  lemma {:induction false} ReloadShowsAll(chain: Chain, x: Rows.Txn, net: Conditions, c: Rows.Cache)
    requires AllReady(chain, x) && Rows.Coherent(x) && Loaded(CommittedAll(chain, x.statements, net), x.cache.Keys, c)
    ensures Reloaded(chain, x, c, net)
  {
    forall t | t in x.cache ensures ReloadedAt(chain, x, c, net, t) {
      ReloadShows(chain, x, net, t);
    }
  }

  /** Commit, then reload all tables of the transaction, from the committing connection or another idle one,
      all rows being separator-safe. Others may have committed since the tables were locked. */
  method CommitThenLock(engine: StorageEngine, thd: Thd, next: Thd, net: Conditions, answers: string -> Net)
    requires engine.Valid() && thd.txn != null && (next == thd || next.txn == null)
    requires Rows.Coherent(thd.Model()) && LogReady(engine, thd.Model()) && AllReady(engine.Tables(), thd.Model())
    requires AllReadable(answers, thd.Model().cache.Keys)
    modifies thd`txn, next`txn, engine.Adapters(), engine.Nodes(), engine.Contracts()
    ensures thd != next ==> thd.txn == null
    ensures Reloaded(old(engine.Tables()), old(thd.Model()), next.Model().cache, net)
  {
    ghost var x, chain := thd.Model(), engine.Tables();
    var tables := thd.txn.tableCache.Keys;
    CommitOf(engine, thd, net);
    ReadyIsLoadable(chain, x, net);
    LockAll(engine, next, tables, answers);
    ReloadShowsAll(chain, x, net, next.Model().cache);
  }

  method CommitOf(engine: StorageEngine, thd: Thd, net: Conditions)
    requires engine.Valid() && thd.txn != null && LogReady(engine, thd.Model())
    modifies thd`txn, engine.Adapters(), engine.Nodes(), engine.Contracts()
    ensures engine.Valid() && thd.txn == null
    ensures engine.Tables() == CommittedAll(old(engine.Tables()), old(thd.Model()).statements, net)
  {
    ghost var chain, log := engine.Tables(), thd.Model().statements;
    var _ := engine.BcCommit(thd, true, net);
    assert chain.Keys == engine.adapters.Keys;
    EffectWhenOpen(chain, log, net);
  }

  /** external_lock on each of the tables, in an arbitrary order, by a connection without a transaction. */
  method LockAll(engine: StorageEngine, next: Thd, tables: set<string>, answers: string -> Net)
    requires engine.Valid() && next.txn == null
    requires AllLoadable(engine.Tables(), tables) && AllReadable(answers, tables)
    modifies next`txn
    ensures Loaded(engine.Tables(), tables, next.Model().cache)
  {
    var rest := tables;
    ghost var chain, done := engine.Tables(), {};
    while rest != {}
      invariant done !! rest && done + rest == tables
      invariant next.txn == null || fresh(next.txn)
      invariant engine.Valid() && engine.Tables() == chain && Loaded(chain, done, next.Model().cache)
      decreases rest
    {
      var t :| t in rest;
      assert Loadable(chain, t) && Readable(answers, t);
      LockNext(engine, next, t, answers(t), chain, done);
      rest, done := rest - {t}, done + {t};
    }
    assert done == tables;
  }

  ghost predicate Loaded(chain: Chain, done: set<string>, c: Rows.Cache) {
    done <= chain.Keys && c == map t | t in done :: chain[t]
  }

  method LockNext(engine: StorageEngine, next: Thd, t: string, net: Net, ghost chain: Chain, ghost done: set<string>)
    requires engine.Valid() && engine.Tables() == chain && Loaded(chain, done, next.Model().cache)
    requires t !in done && Loadable(chain, t) && net.available && net.answered
    modifies next`txn, next.txn
    ensures engine.Valid() && engine.Tables() == chain && Loaded(chain, done + {t}, next.Model().cache)
    ensures next.txn == old(next.txn) || fresh(next.txn)
  {
    ghost var x := next.Model();
    var rc := engine.ExternalLock(next, t, false, net);
    LockLoads(chain, x, next.Model(), t, net, rc);
    LoadedMore(chain, done, x.cache, t);
  }

  lemma {:induction false} LockLoads(chain: Chain, x: Rows.Txn, y: Rows.Txn, t: string, net: Net, rc: Result<int>)
    requires Loadable(chain, t) && net.available && net.answered && Locked(chain, t, net, x, y, rc)
    ensures y == Rows.Lock(x, t, chain[t])
  {
    var content :| Read(chain, t, net, rc, content) && y == if rc == Ok(0) then Rows.Lock(x, t, content) else x;
    ReadIff(chain, t, net, rc, content);
  }

  lemma {:induction false} LoadedMore(chain: Chain, done: set<string>, c: Rows.Cache, t: string)
    requires Loaded(chain, done, c) && t !in done && t in chain
    ensures t !in c && Loaded(chain, done + {t}, c[t := chain[t]])
  {
  }
}
