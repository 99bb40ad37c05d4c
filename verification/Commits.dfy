/** The state of bc_commit while it works through a statement log (ha_blockchain.cc bc_commit). */
module Commits {
  import opened Bytes
  import opened Hex
  import opened Network
  import opened Statements
  import opened Delivery
  import opened RpcBatch

  /** The content of each table's contract. */
  type Chain = map<string, Table>

  /** The contracts after the loop has handled log, and after the final flush. */
  function FlushedAll(chain: Chain, log: Log, net: Conditions): Chain {
    map t | t in chain :: Flushed(chain[t], log, t, net)
  }

  function CommittedAll(chain: Chain, log: Log, net: Conditions): Chain {
    map t | t in chain :: Committed(chain[t], log, t, net)
  }

  predicate IsOpen(open: set<string>, s: Statement) {
    s.tablename in open
  }

  /** The tables of the log are open. */
  predicate AllOpen(open: set<string>, log: Log) {
    forall j {:trigger IsOpen(open, log[j])} | 0 <= j < |log| :: IsOpen(open, log[j])
  }

  lemma {:induction false} OpenPrefix(open: set<string>, log: Log, i: nat)
    requires i < |log|
    ensures AllOpen(open, log[..i + 1]) <==> AllOpen(open, log[..i]) && IsOpen(open, log[i])
  {
    var some, more := log[..i], log[..i + 1];
    if AllOpen(open, more) {
      assert more[i] == log[i] && IsOpen(open, more[i]);
      forall j | 0 <= j < i ensures IsOpen(open, some[j]) { assert IsOpen(open, more[j]); }
    }
    if AllOpen(open, some) && IsOpen(open, log[i]) {
      forall j | 0 <= j < i + 1 ensures IsOpen(open, more[j]) {
        assert j < i ==> IsOpen(open, some[j]);
      }
    }
  }

  /** Where the loop stops: at the first statement whose table is not open. */
  function StopFrom(open: set<string>, log: Log, i: nat): (stop: nat)
    requires i <= |log|
    ensures i <= stop <= |log|
    decreases |log| - i
  {
    if i == |log| || !IsOpen(open, log[i]) then i else StopFrom(open, log, i + 1)
  }

  function Stop(open: set<string>, log: Log): (stop: nat)
    ensures stop <= |log|
  {
    StopFrom(open, log, 0)
  }

  lemma {:induction false} StopIs(open: set<string>, log: Log, i: nat)
    requires i <= |log| && AllOpen(open, log[..i]) && (i < |log| ==> !IsOpen(open, log[i]))
    ensures Stop(open, log) == i
    ensures AllOpen(open, log) <==> i == |log|
  {
    StopSkips(open, log, i, 0);
    assert log[..|log|] == log;
  }

  lemma {:induction false} StopSkips(open: set<string>, log: Log, i: nat, j: nat)
    requires j <= i <= |log| && AllOpen(open, log[..i]) && (i < |log| ==> !IsOpen(open, log[i]))
    ensures StopFrom(open, log, j) == i
    decreases i - j
  {
    if j < i {
      assert IsOpen(open, log[..i][j]);
      StopSkips(open, log, i, j + 1);
    }
  }

  /** What bc_commit does to the contracts. */
  function CommitEffect(chain: Chain, log: Log, net: Conditions): Chain {
    if AllOpen(chain.Keys, log) then CommittedAll(chain, log, net)
    else FlushedAll(chain, log[..Stop(chain.Keys, log)], net)
  }

  lemma {:induction false} EffectWhenOpen(chain: Chain, log: Log, net: Conditions)
    requires AllOpen(chain.Keys, log)
    ensures CommitEffect(chain, log, net) == CommittedAll(chain, log, net)
  {
  }

  /** A commit that stops at a statement whose table is not open: a key is as the last request before it that
      takes effect on the key leaves it, and the batches that wait there are never sent. */
  lemma {:induction false} EarlyStop(chain: Chain, log: Log, net: Conditions, stop: nat, t: string, k: BYTES)
    returns (p: int)
    requires stop < |log| && log[stop].tablename !in chain && t in chain
    requires forall j :: 0 <= j < stop ==> log[j].tablename in chain
    ensures -1 <= p < stop && forall q :: p < q < stop ==> !Takes(log, t, k, net, q)
    ensures CommitEffect(chain, log, net).Keys == chain.Keys
    ensures if p == -1 then Lookup(CommitEffect(chain, log, net)[t], k) == Lookup(chain[t], k)
      else Takes(log, t, k, net, p) && Lookup(CommitEffect(chain, log, net)[t], k) == Effect(log, t, k, net, p)
  {
    var front := log[..stop];
    assert AllOpen(chain.Keys, front) by {
      forall j | 0 <= j < stop ensures IsOpen(chain.Keys, front[j]) { assert front[j] == log[j]; }
    }
    StopIs(chain.Keys, log, stop);
    p := LoopOutcome(chain[t], front, t, net, k);
    forall q | q < stop
      ensures Takes(front, t, k, net, q) <==> Takes(log, t, k, net, q)
      ensures Takes(log, t, k, net, q) ==> Effect(front, t, k, net, q) == Effect(log, t, k, net, q)
    {
      TakesPrefix(log, stop, t, k, net, q);
    }
  }

  /** Without a REMOVE on it before that statement, a table stays as it was. */
  lemma {:induction false} StoppedWritesAreLost(chain: Chain, log: Log, net: Conditions, stop: nat, t: string)
    requires stop < |log| && log[stop].tablename !in chain && t in chain
    requires forall j :: 0 <= j < stop ==> log[j].tablename in chain && !(log[j].Remove? && log[j].tablename == t)
    ensures CommitEffect(chain, log, net).Keys == chain.Keys && CommitEffect(chain, log, net)[t] == chain[t]
  {
    forall k ensures Lookup(CommitEffect(chain, log, net)[t], k) == Lookup(chain[t], k) {
      var p := EarlyStop(chain, log, net, stop, t, k);
    }
    SameLookups(CommitEffect(chain, log, net)[t], chain[t]);
  }

  /** Keys are hashes; sizes are what an int counter and a length word can express. */
  ghost predicate LogFits(log: Log) {
    LogWithin(log, INT_MAX)
  }

  ghost predicate LogWithin(log: Log, n: nat) {
    |log| <= n && forall i {:trigger StatementFits(log[i])} :: 0 <= i < |log| ==> StatementFits(log[i])
  }

  ghost predicate StatementFits(s: Statement) {
    |s.key| == 32 && (s.Write? ==> |s.value| < TWO32)
  }

  ghost predicate PutFits(batch: Table) {
    Keys32(batch) && |batch| <= INT_MAX && forall k :: k in batch ==> |batch[k]| < TWO32
  }

  lemma {:induction false} PendingSized(log: Log, t: string)
    requires forall i {:trigger StatementFits(log[i])} :: 0 <= i < |log| ==> StatementFits(log[i])
    ensures |Pending(log, t)| <= |log| && Keys32(Pending(log, t))
    ensures forall k :: k in Pending(log, t) ==> |Pending(log, t)[k]| < TWO32
  {
    if log != [] {
      assert StatementFits(log[|log| - 1]);
      forall i | 0 <= i < |Init(log)| ensures StatementFits(Init(log)[i]) { assert StatementFits(log[i]); }
      PendingSized(Init(log), t);
    }
  }

  lemma {:induction false} PendingFits(log: Log, i: nat, t: string)
    requires LogFits(log) && i <= |log|
    ensures PutFits(Pending(log[..i], t))
  {
    forall j | 0 <= j < i ensures StatementFits(log[..i][j]) { assert StatementFits(log[j]); }
    PendingSized(log[..i], t);
  }

  type Batches = map<string, map<BYTES, BYTES>>

  function BatchOf(batches: Batches, t: string): Table {
    if t in batches then batches[t] else map[]
  }

  /** write_batch_map holds the pending writes of every table after i statements. */
  ghost predicate Collected(batches: Batches, log: Log, i: nat) {
    i <= |log| && forall t {:trigger BatchOf(batches, t)} :: BatchOf(batches, t) == Pending(log[..i], t)
  }

  lemma {:induction false} CollectedStart(log: Log, chain: Chain, net: Conditions)
    ensures Collected(map[], log, 0) && FlushedAll(chain, log[..0], net) == chain
  {
  }

  lemma {:induction false} CollectedFits(batches: Batches, log: Log, i: nat, t: string)
    requires LogFits(log) && Collected(batches, log, i)
    ensures BatchOf(batches, t) == Pending(log[..i], t) && PutFits(BatchOf(batches, t))
  {
    PendingFits(log, i, t);
  }

  lemma {:induction false} Prefix(log: Log, i: nat)
    requires i < |log|
    ensures log[..i + 1] != [] && Init(log[..i + 1]) == log[..i] && Last(log[..i + 1]) == log[i]
  {
  }

  /** emplace: the batch of the statement's table keeps the first value of a key. */
  function Emplace(batch: Table, s: Statement): Table
    requires s.Write?
  {
    if s.key in batch then batch else batch[s.key := s.value]
  }

  lemma {:induction false} WriteStep(batches: Batches, log: Log, i: nat, chain: Chain, net: Conditions)
    requires i < |log| && Collected(batches, log, i) && log[i].Write?
    ensures Collected(batches[log[i].tablename := Emplace(BatchOf(batches, log[i].tablename), log[i])], log, i + 1)
    ensures FlushedAll(chain, log[..i + 1], net) == FlushedAll(chain, log[..i], net)
  {
    Prefix(log, i);
    var s := log[i];
    var batches' := batches[s.tablename := Emplace(BatchOf(batches, s.tablename), s)];
    forall t ensures BatchOf(batches', t) == Pending(log[..i + 1], t) {
      assert BatchOf(batches, t) == Pending(log[..i], t);
    }
  }

  /** What a REMOVE makes of its table: the batch is sent, then the key goes. */
  function Removed(tab: Table, batch: Table, key: BYTES, n: Net): Table {
    var sent := tab + Surviving(batch, n);
    if n.txFails then sent else sent - {key}
  }

  lemma {:induction false} RemoveStep(batches: Batches, log: Log, i: nat, chain: Chain, net: Conditions)
    requires i < |log| && Collected(batches, log, i) && log[i].Remove? && log[i].tablename in chain
    ensures var s, before := log[i], FlushedAll(chain, log[..i], net);
      && Collected(batches[s.tablename := map[]], log, i + 1)
      && FlushedAll(chain, log[..i + 1], net) ==
        before[s.tablename := Removed(before[s.tablename], BatchOf(batches, s.tablename), s.key, net(i, s.tablename))]
  {
    Prefix(log, i);
    var s := log[i];
    var batches' := batches[s.tablename := map[]];
    forall t ensures BatchOf(batches', t) == Pending(log[..i + 1], t) {
      assert BatchOf(batches, t) == Pending(log[..i], t);
    }
    assert BatchOf(batches, s.tablename) == Pending(log[..i], s.tablename);
  }

  /** The contracts in the middle of the final flush: the tables of done have been flushed. */
  function PartlyCommitted(chain: Chain, log: Log, net: Conditions, done: set<string>): Chain {
    map t | t in chain :: if t in done then Committed(chain[t], log, t, net) else Flushed(chain[t], log, t, net)
  }

  lemma {:induction false} FlushStart(chain: Chain, log: Log, net: Conditions)
    ensures PartlyCommitted(chain, log, net, {}) == FlushedAll(chain, log, net)
  {
  }

  lemma {:induction false} FlushStep(batches: Batches, log: Log, chain: Chain, net: Conditions, done: set<string>,
                                     t: string)
    requires Collected(batches, log, |log|) && t in chain && t !in done
    ensures var now := PartlyCommitted(chain, log, net, done);
      PartlyCommitted(chain, log, net, done + {t}) == now[t := now[t] + Surviving(BatchOf(batches, t), net(|log|, t))]
  {
    assert log[..|log|] == log;
    assert BatchOf(batches, t) == Pending(log, t);
  }

  /** A table without a batch needs no flush. */
  lemma {:induction false} FlushDone(batches: Batches, log: Log, chain: Chain, net: Conditions)
    requires Collected(batches, log, |log|)
    ensures PartlyCommitted(chain, log, net, batches.Keys) == CommittedAll(chain, log, net)
  {
    assert log[..|log|] == log;
    forall t | t in chain && t !in batches ensures Committed(chain[t], log, t, net) == Flushed(chain[t], log, t, net) {
      assert BatchOf(batches, t) == Pending(log, t) == map[];
    }
  }
}
