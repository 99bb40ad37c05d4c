/** Commit, rollback and locking of tables, over the adapters of the open tables
    (ha_blockchain.cc bc_commit, bc_rollback, external_lock). */
module Engine {
  import opened Bytes
  import opened Hex
  import opened Network
  import opened Statements
  import opened RpcBatch
  import opened BatchStrings
  import opened Commits
  import opened Transactions
  import EA = EthereumAdapter
  import Rows

  /** A connection: its transaction, and whether it is inside an explicit one (OPTION_NOT_AUTOCOMMIT or
      OPTION_BEGIN, which the server sets). */
  class Thd {
    var txn: Transaction?
    var inTransaction: bool

    constructor (inTransaction: bool)
      ensures txn == null && this.inTransaction == inTransaction
    {
      this.inTransaction := inTransaction;
      txn := null;
    }

    /** The transaction, an empty one if there is none yet. */
    ghost function Model(): Rows.Txn
      reads this, txn
    {
      if txn == null then Rows.EMPTY_TXN else txn.Model()
    }
  }

  class StorageEngine {
    const adapters: map<string, EA.EthereumAdapter>

    constructor (adapters: map<string, EA.EthereumAdapter>)
      ensures this.adapters == adapters
    {
      this.adapters := adapters;
    }

    /** Every table has an adapter, a node and a contract of its own. */
    ghost predicate Apart() {
      forall t, u {:trigger ApartAt(adapters[t], adapters[u])} :: t in adapters && u in adapters && t != u ==>
        ApartAt(adapters[t], adapters[u])
    }

    ghost predicate ApartAt(a: EA.EthereumAdapter, b: EA.EthereumAdapter) {
      a != b && a.node != b.node && a.node.contract != b.node.contract
    }

    ghost function Contracts(): set<object> {
      set t | t in adapters :: adapters[t].node.contract
    }

    ghost function Adapters(): set<object> {
      set t | t in adapters :: adapters[t]
    }

    ghost function Nodes(): set<object> {
      set t | t in adapters :: adapters[t].node
    }

    ghost predicate Valid()
      reads Adapters(), Contracts()
    {
      Apart() && forall t {:trigger adapters[t].Valid()} :: t in adapters ==> adapters[t].Valid()
    }

    /** What the contracts hold. */
    ghost function Tables(): Chain
      reads Contracts()
    {
      map t | t in adapters :: adapters[t].Table()
    }

    method SendPut(t: string, batch: Table, net: Net)
      requires Valid() && t in adapters && Keys32(batch) && |batch| <= INT_MAX
      requires forall k :: k in batch ==> |batch[k]| < TWO32
      modifies adapters[t], adapters[t].node, adapters[t].node.contract
      ensures Valid()
      ensures Tables() == old(Tables())[t := old(Tables())[t] + Surviving(batch, net)]
    {
      ghost var before := Tables();
      var _, _ := Deliver(adapters[t], batch, net);
      forall u | u in adapters && u != t ensures adapters[u].Valid() && adapters[u].Table() == before[u] {
        assert ApartAt(adapters[u], adapters[t]) && old(adapters[u].Valid());
      }
      ChainUpdated(before, Tables(), t, adapters[t].Table());
    }

    method SendRemove(t: string, key: BYTES, net: Net)
      requires Valid() && t in adapters && |key| == 32
      modifies adapters[t], adapters[t].node, adapters[t].node.contract
      ensures Valid()
      ensures Tables() == old(Tables())[t := if net.txFails then old(Tables())[t] else old(Tables())[t] - {key}]
    {
      ghost var before := Tables();
      Erase(adapters[t], key, net);
      forall u | u in adapters && u != t ensures adapters[u].Valid() && adapters[u].Table() == before[u] {
        assert ApartAt(adapters[u], adapters[t]) && old(adapters[u].Valid());
      }
      ChainUpdated(before, Tables(), t, adapters[t].Table());
    }

    /** A batch that is not empty is sent. */
    method FlushOne(t: string, batch: Table, net: Net)
      requires Valid() && t in adapters && PutFits(batch)
      modifies adapters[t], adapters[t].node, adapters[t].node.contract
      ensures Valid()
      ensures Tables() == old(Tables())[t := old(Tables())[t] + Surviving(batch, net)]
    {
      if |batch| != 0 {
        SendPut(t, batch, net);
      } else {
        NothingAdded(Tables(), t, batch, net);
      }
    }

    /** A REMOVE: the batch first. */
    method FlushAndRemove(t: string, batch: Table, key: BYTES, net: Net)
      requires Valid() && t in adapters && PutFits(batch) && |key| == 32
      modifies adapters[t], adapters[t].node, adapters[t].node.contract
      ensures Valid()
      ensures Tables() == old(Tables())[t := Removed(old(Tables())[t], batch, key, net)]
    {
      RemovedIsTwoSteps(Tables(), t, batch, key, net);
      FlushOne(t, batch, net);
      SendRemove(t, key, net);
    }

    /** One round of the loop of bc_commit. */
    method HandleStatement(batches: Batches, log: Log, i: nat, net: Conditions, ghost chain: Chain)
      returns (batches': Batches)
      requires Valid() && LogFits(log) && i < |log| && log[i].tablename in adapters && chain.Keys == adapters.Keys
      requires Collected(batches, log, i) && Tables() == FlushedAll(chain, log[..i], net)
      modifies Adapters(), Nodes(), Contracts()
      ensures Valid() && Collected(batches', log, i + 1) && batches'.Keys == batches.Keys + {log[i].tablename}
      ensures Tables() == FlushedAll(chain, log[..i + 1], net)
    {
      var s := log[i];
      var t := s.tablename;
      var batch := if t in batches then batches[t] else map[];
      if s.Write? {
        WriteStep(batches, log, i, chain, net);
        batches' := batches[t := Emplace(batch, s)];
      } else {
        HandleRemove(t, batch, s.key, batches, log, i, net, chain);
        batches' := batches[t := map[]];
      }
    }

    method HandleRemove(t: string, batch: Table, key: BYTES, ghost batches: Batches, log: Log, i: nat,
                        net: Conditions, ghost chain: Chain)
      requires Valid() && LogFits(log) && i < |log| && log[i] == Remove(t, key) && t in adapters &&
        chain.Keys == adapters.Keys
      requires Collected(batches, log, i) && batch == BatchOf(batches, t) &&
        Tables() == FlushedAll(chain, log[..i], net)
      modifies adapters[t], adapters[t].node, adapters[t].node.contract
      ensures Valid() && Collected(batches[t := map[]], log, i + 1)
      ensures Tables() == FlushedAll(chain, log[..i + 1], net)
    {
      CollectedFits(batches, log, i, t);
      assert StatementFits(log[i]);
      RemoveStep(batches, log, i, chain, net);
      FlushAndRemove(t, batch, key, net(i, t));
    }

    /** The loop of bc_commit: it stops at the first statement whose table has no adapter. */
    method WorkThrough(log: Log, net: Conditions) returns (rc: int, batches: Batches, stop: nat)
      requires Valid() && LogFits(log)
      modifies Adapters(), Nodes(), Contracts()
      ensures Valid() && Collected(batches, log, stop) && batches.Keys <= adapters.Keys
      ensures Tables() == FlushedAll(old(Tables()), log[..stop], net)
      ensures stop == Stop(adapters.Keys, log) && rc == (if stop == |log| then 0 else 1)
      ensures AllOpen(adapters.Keys, log) <==> stop == |log|
    {
      batches := map[];
      ghost var chain := Tables();
      CollectedStart(log, chain, net);
      var i := 0;
      while i < |log|
        invariant Valid() && Collected(batches, log, i) && batches.Keys <= adapters.Keys
        invariant 0 <= i <= |log| && AllOpen(adapters.Keys, log[..i])
        invariant Tables() == FlushedAll(chain, log[..i], net)
      {
        OpenPrefix(adapters.Keys, log, i);
        if log[i].tablename !in adapters {
          StopIs(adapters.Keys, log, i);
          return 1, batches, i;
        }
        batches := HandleStatement(batches, log, i, net, chain);
        i := i + 1;
      }
      StopIs(adapters.Keys, log, i);
      return 0, batches, i;
    }

    /** The final flush, in an arbitrary order of the tables. */
    method FlushAll(log: Log, batches: Batches, net: Conditions, ghost chain: Chain)
      requires Valid() && LogFits(log) && Collected(batches, log, |log|) && batches.Keys <= adapters.Keys
      requires chain.Keys == adapters.Keys && Tables() == FlushedAll(chain, log, net)
      modifies Adapters(), Nodes(), Contracts()
      ensures Valid() && Tables() == CommittedAll(chain, log, net)
    {
      var rest := batches.Keys;
      ghost var done: set<string> := {};
      FlushStart(chain, log, net);
      while rest != {}
        invariant Valid() && done !! rest && done + rest == batches.Keys
        invariant Tables() == PartlyCommitted(chain, log, net, done)
        decreases rest
      {
        var t :| t in rest;
        FlushNext(t, log, batches, net, chain, done);
        rest, done := rest - {t}, done + {t};
      }
      assert done == batches.Keys;
      FlushDone(batches, log, chain, net);
    }

    method FlushNext(t: string, log: Log, batches: Batches, net: Conditions, ghost chain: Chain,
                     ghost done: set<string>)
      requires Valid() && LogFits(log) && Collected(batches, log, |log|) && t in batches && t in adapters && t !in done
      requires chain.Keys == adapters.Keys && Tables() == PartlyCommitted(chain, log, net, done)
      modifies adapters[t], adapters[t].node, adapters[t].node.contract
      ensures Valid() && Tables() == PartlyCommitted(chain, log, net, done + {t})
    {
      CollectedFits(batches, log, |log|, t);
      FlushStep(batches, log, chain, net, done, t);
      FlushOne(t, batches[t], net(|log|, t));
    }

    method CommitLog(log: Log, net: Conditions) returns (rc: int)
      requires Valid() && LogFits(log)
      modifies Adapters(), Nodes(), Contracts()
      ensures Valid() && Tables() == CommitEffect(old(Tables()), log, net)
      ensures rc == if AllOpen(adapters.Keys, log) then 0 else 1
    {
      ghost var chain := Tables();
      var batches, stop;
      rc, batches, stop := WorkThrough(log, net);
      if rc == 0 {
        assert log[..|log|] == log;
        FlushAll(log, batches, net, chain);
      }
      assert chain.Keys == adapters.Keys;
    }

    method DeleteTxn(thd: Thd)
      requires Valid()
      modifies thd`txn
      ensures Valid() && Tables() == old(Tables()) && thd.txn == null
    {
      thd.txn := null;
    }

    /** bc_commit. A statement commit inside an explicit transaction does nothing. Otherwise every table's
        contract receives what its part of the log amounts to, and the transaction is gone; only a table
        without an adapter stops it, leaving what was sent before and keeping the transaction. */
    method BcCommit(thd: Thd, commitTrx: bool, net: Conditions) returns (rc: int)
      requires Valid() && LogFits(thd.Model().statements)
      modifies thd`txn, Adapters(), Nodes(), Contracts()
      ensures Valid()
      ensures (!commitTrx && thd.inTransaction) || old(thd.txn) == null ==>
        rc == 0 && thd.txn == old(thd.txn) && Tables() == old(Tables())
      ensures !(!commitTrx && thd.inTransaction) && old(thd.txn) != null ==>
        && Tables() == CommitEffect(old(Tables()), old(thd.Model().statements), net)
        && (if AllOpen(adapters.Keys, old(thd.Model().statements)) then rc == 0 && thd.txn == null
            else rc == 1 && thd.txn == old(thd.txn))
    {
      if !commitTrx && thd.inTransaction {
        return 0;
      }
      if thd.txn == null {
        return 0;
      }
      rc := CommitLog(thd.txn.statements, net);
      if rc == 0 {
        DeleteTxn(thd);
      }
    }

    /** bc_rollback: no contract is touched. */
    method BcRollback(thd: Thd, all: bool) returns (rc: int)
      modifies thd`txn
      ensures rc == 0
      ensures thd.txn == if !all && thd.inTransaction then old(thd.txn) else null
    {
      if !all && thd.inTransaction {
        return 0;
      }
      if thd.txn == null {
        return 0;
      }
      thd.txn := null;
      return 0;
    }

    /** The transaction is created if there is none, and the lock is counted. */
    method CountLock(thd: Thd)
      requires Valid()
      modifies thd`txn, thd.txn
      ensures Valid() && Tables() == old(Tables())
      ensures thd.txn != null && (if old(thd.txn) == null then fresh(thd.txn) else thd.txn == old(thd.txn))
      ensures thd.Model() == old(thd.Model())
      ensures thd.txn.lockCount == (if old(thd.txn) == null then 0 else old(thd.txn.lockCount)) + 1
    {
      if thd.txn == null {
        thd.txn := new Transaction();
      }
      thd.txn.lockCount := thd.txn.lockCount + 1;
    }

    /** The table as external_lock reads it: nothing when there is no adapter or no answer. */
    method ReadTable(name: string, net: Net) returns (rc: Result<int>, tableMap: Table)
      requires Valid()
      ensures Read(Tables(), name, net, rc, tableMap)
    {
      tableMap := map[];
      if name in adapters {
        var code, results := adapters[name].GetAll(net);
        if code == -1 {
          return Ok(1), map[];
        }
        if results.Thrown? {
          return Thrown, map[];
        }
        tableMap := results.value;
      }
      return Ok(0), tableMap;
    }

    method CacheTable(txn: Transaction, name: string, tableMap: Table)
      requires Valid()
      modifies txn
      ensures Valid() && Tables() == old(Tables())
      ensures txn.Model() == Rows.Lock(old(txn.Model()), name, tableMap)
    {
      var _ := txn.AddTable(name, tableMap);
    }

    method FirstLock(txn: Transaction, name: string, net: Net) returns (rc: Result<int>)
      requires Valid()
      modifies txn
      ensures Valid() && Tables() == old(Tables())
      ensures Locked(old(Tables()), name, net, old(txn.Model()), txn.Model(), rc)
    {
      var tableMap;
      rc, tableMap := ReadTable(name, net);
      if rc == Ok(0) {
        CacheTable(txn, name, tableMap);
      }
    }

    /** external_lock. The first lock of a table by a transaction takes a snapshot: what the adapter reads,
        or nothing when there is no adapter or no answer. Without a connection it fails; a reply that the
        decoder cannot take apart makes it throw. */
    method ExternalLock(thd: Thd, name: string, unlock: bool, net: Net) returns (rc: Result<int>)
      requires Valid()
      modifies thd`txn, thd.txn
      ensures Valid() && Tables() == old(Tables())
      ensures unlock ==> rc == Ok(0) && thd.txn == old(thd.txn) && thd.Model() == old(thd.Model())
      ensures !unlock ==> thd.txn != null && (if old(thd.txn) == null then fresh(thd.txn) else thd.txn == old(thd.txn))
      ensures !unlock && name in old(thd.Model().cache) ==> rc == Ok(0) && thd.Model() == old(thd.Model())
      ensures !unlock && name !in old(thd.Model().cache) ==>
        Locked(old(Tables()), name, net, old(thd.Model()), thd.Model(), rc)
      ensures !unlock && name !in old(thd.Model().cache) && name in adapters && !net.available ==>
        rc == Ok(1) && thd.Model() == old(thd.Model())
      ensures !unlock && name !in old(thd.Model().cache) && (name !in adapters || (net.available && !net.answered)) ==>
        rc == Ok(0) && thd.txn.tableCache == old(thd.Model().cache)[name := map[]]
      ensures !unlock && name !in old(thd.Model().cache) && name in adapters && net.available && net.answered ==>
        var tab := old(Tables())[name];
        |tab| <= INT_MAX && TableSafe(tab) ==>
          rc == Ok(0) && thd.txn.tableCache == old(thd.Model().cache)[name := tab]
      ensures !unlock ==> thd.txn.statements == old(thd.Model().statements)
    {
      if unlock {
        return Ok(0);
      }
      CountLock(thd);
      if name in thd.txn.tableCache {
        return Ok(0);
      }
      ghost var chain, x := Tables(), thd.Model();
      rc := FirstLock(thd.txn, name, net);
      LockedIs(chain, name, net, x, thd.Model(), rc);
    }
  }

  /** What external_lock gets of a table: nothing without an adapter or an answer, otherwise what a scan of
      the contract's table is decoded to. */
  ghost predicate Read(chain: Chain, name: string, net: Net, rc: Result<int>, content: Table) {
    if name !in chain then rc == Ok(0) && content == map[]
    else if !net.available then rc == Ok(1)
    else if !net.answered then rc == Ok(0) && content == map[]
    else if rc == Ok(0) then ScanReads(chain[name], Ok(content))
    else rc == Thrown && ScanReads(chain[name], Thrown)
  }

  /** With an answer that is the contract's table if and only if all values in it are separator-safe. */
  lemma {:induction false} ReadIff(chain: Chain, name: string, net: Net, rc: Result<int>, content: Table)
    requires Read(chain, name, net, rc, content) && name in chain && net.available && net.answered
    requires |chain[name]| <= INT_MAX
    ensures rc == Ok(0) && content == chain[name] <==> TableSafe(chain[name])
  {
    ScanReadsIff(chain[name], if rc == Ok(0) then Ok(content) else Thrown);
  }

  /** The outcome of a first lock of a table by a transaction. */
  ghost predicate Locked(chain: Chain, name: string, net: Net, x: Rows.Txn, y: Rows.Txn, rc: Result<int>) {
    exists content :: Read(chain, name, net, rc, content) && y == if rc == Ok(0) then Rows.Lock(x, name, content) else x
  }

  /** Case by case: nothing changes without a connection, nothing is cached without an adapter or an answer, and
      the contract's table is when its values are separator-safe. */
  lemma {:induction false} LockedIs(chain: Chain, name: string, net: Net, x: Rows.Txn, y: Rows.Txn, rc: Result<int>)
    requires Locked(chain, name, net, x, y, rc) && name !in x.cache
    ensures y.statements == x.statements
    ensures name in chain && !net.available ==> rc == Ok(1) && y == x
    ensures name !in chain || (net.available && !net.answered) ==> rc == Ok(0) && y.cache == x.cache[name := map[]]
    ensures name in chain && net.available && net.answered && |chain[name]| <= INT_MAX && TableSafe(chain[name]) ==>
      rc == Ok(0) && y.cache == x.cache[name := chain[name]]
  {
    var content :| Read(chain, name, net, rc, content) && y == if rc == Ok(0) then Rows.Lock(x, name, content) else x;
    if name in chain && net.available && net.answered && |chain[name]| <= INT_MAX {
      ReadIff(chain, name, net, rc, content);
    }
  }

  lemma NothingAdded(chain: Chain, t: string, batch: Table, net: Net)
    requires t in chain && |batch| == 0
    ensures chain == chain[t := chain[t] + Surviving(batch, net)]
  {
    assert chain[t] == chain[t] + Surviving(batch, net);
  }

  lemma RemovedIsTwoSteps(chain: Chain, t: string, batch: Table, key: BYTES, net: Net)
    requires t in chain
    ensures var sent := chain[t := chain[t] + Surviving(batch, net)];
      chain[t := Removed(chain[t], batch, key, net)] == sent[t := if net.txFails then sent[t] else sent[t] - {key}]
  {
  }

  lemma ChainUpdated(before: Chain, after: Chain, t: string, tab: Table)
    requires after.Keys == before.Keys && t in after && after[t] == tab
    requires forall u :: u in before && u != t ==> after[u] == before[u]
    ensures after == before[t := tab]
  {
  }

  /** put on hashed keys: the surviving pairs are added, the others remain. */
  method Deliver(adapter: EA.EthereumAdapter, batch: Table, net: Net) returns (rc: int, remaining: Table)
    requires adapter.Valid() && Keys32(batch) && |batch| <= INT_MAX
    requires forall k :: k in batch ==> |batch[k]| < TWO32
    modifies adapter, adapter.node, adapter.node.contract
    ensures adapter.Valid()
    ensures adapter.Table() == old(adapter.Table()) + Surviving(batch, net)
    ensures rc == if net.available && Remainder(batch, net) == map[] then 0 else 1
    ensures rc == 1 ==> remaining == Remainder(batch, net)
  {
    ghost var before := adapter.Table();
    var code, left, _, _, _ := adapter.Put(batch, net);
    PutOnHashes(before, adapter.Table(), batch, net, code, left);
    return code, left;
  }

  method Erase(adapter: EA.EthereumAdapter, key: BYTES, net: Net)
    requires adapter.Valid() && |key| == 32
    modifies adapter, adapter.node, adapter.node.contract
    ensures adapter.Valid()
    ensures adapter.Table() == if net.txFails then old(adapter.Table()) else old(adapter.Table()) - {key}
  {
    var _, _ := adapter.Remove(key, net);
  }
}
