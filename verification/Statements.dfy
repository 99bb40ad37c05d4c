/** The statement log of a transaction, the batched execution that bc_commit gives it, and what
    that execution amounts to (transaction.h, ha_blockchain.cc bc_commit). */
module Statements {
  import opened Bytes
  import opened Network

  datatype Statement =
    | Write(tablename: string, key: BYTES, value: BYTES)
    | Remove(tablename: string, key: BYTES)

  type Log = seq<Statement>

  /** The network's behaviour towards the requests that one commit sends: indexed by the position of
      the statement being handled (the log's length for the final flush) and by table. */
  type Conditions = (nat, string) -> Net

  function Init(log: Log): Log
    requires log != []
  {
    log[..|log| - 1]
  }

  function Last(log: Log): Statement
    requires log != []
  {
    log[|log| - 1]
  }

  // ---------------------------------------------------------------- plain replay

  function Apply(tab: Table, s: Statement): Table {
    match s
    case Write(_, k, v) => tab[k := v]
    case Remove(_, k) => tab - {k}
  }

  /** Every statement on t, one after the other, the last writer winning. */
  function Replay(tab: Table, log: Log, t: string): Table {
    if log == [] then tab
    else if Last(log).tablename != t then Replay(tab, Init(log), t)
    else Apply(Replay(tab, Init(log), t), Last(log))
  }

  // ---------------------------------------------------------------- batched execution

  /** write_batch_map[t] after the loop has handled log: emplace keeps the first value of a key. */
  function Pending(log: Log, t: string): Table {
    if log == [] then map[]
    else
      var batch := Pending(Init(log), t);
      var s := Last(log);
      if s.tablename != t then batch
      else if s.Remove? then map[]
      else if s.key in batch then batch
      else batch[s.key := s.value]
  }

  /** The contract of t after the loop has handled log: a REMOVE first sends the batch, then itself. */
  function Flushed(tab: Table, log: Log, t: string, net: Conditions): Table {
    if log == [] then tab
    else
      var before := Flushed(tab, Init(log), t, net);
      var s := Last(log);
      if s.tablename != t || s.Write? then before
      else
        var n := net(|log| - 1, t);
        var sent := before + Surviving(Pending(Init(log), t), n);
        if n.txFails then sent else sent - {s.key}
  }

  /** The contract of t after the final flush as well. */
  function Committed(tab: Table, log: Log, t: string, net: Conditions): Table {
    Flushed(tab, log, t, net) + Surviving(Pending(log, t), net(|log|, t))
  }

  /** Where the batch of t is sent: at each REMOVE on t, and at the end of the log. */
  predicate Flushes(log: Log, t: string, p: int) {
    0 <= p <= |log| && (p < |log| ==> log[p].Remove? && log[p].tablename == t)
  }

  ghost predicate FlushCarried(log: Log, t: string, net: Conditions, p: int)
    requires 0 <= p <= |log|
  {
    && (p < |log| ==> !net(p, t).txFails)
    && forall k :: k in Pending(log[..p], t) ==> Survives(net(p, t), k)
  }

  /** Every request that the commit sends for t succeeds. */
  ghost predicate Carried(log: Log, t: string, net: Conditions) {
    forall p {:trigger FlushCarried(log, t, net, p)} :: Flushes(log, t, p) ==> FlushCarried(log, t, net, p)
  }

  // ---------------------------------------------------------------- reference: first write wins

  ghost predicate WritesTo(s: Statement, t: string, k: BYTES) {
    s.Write? && s.tablename == t && s.key == k
  }

  ghost predicate Touches(s: Statement, t: string, k: BYTES) {
    s.tablename == t && s.key == k
  }

  /** No REMOVE on t between position i and the end of the log. */
  ghost predicate NoRemoveFrom(log: Log, t: string, i: int) {
    forall m :: 0 <= i <= m < |log| ==> !(log[m].Remove? && log[m].tablename == t)
  }

  /** k is written at i and i lies in the REMOVE-free tail of t. */
  ghost predicate OpenWrite(log: Log, t: string, k: BYTES, i: int) {
    0 <= i < |log| && WritesTo(log[i], t, k) && NoRemoveFrom(log, t, i)
  }

  ghost predicate WrittenSinceRemove(log: Log, t: string, k: BYTES) {
    exists i :: OpenWrite(log, t, k, i)
  }

  /** Immediate execution in log order, except that a key already written since the table's last
      REMOVE is not written again. */
  ghost function FirstWins(tab: Table, log: Log, t: string): Table {
    if log == [] then tab
    else
      var before := FirstWins(tab, Init(log), t);
      var s := Last(log);
      if s.tablename != t then before
      else if s.Write? && WrittenSinceRemove(Init(log), t, s.key) then before
      else Apply(before, s)
  }

  lemma {:induction false} OpenWriteStep(log: Log, t: string, k: BYTES, i: int)
    requires log != []
    ensures OpenWrite(log, t, k, i) <==>
      if i == |log| - 1 then WritesTo(Last(log), t, k)
      else OpenWrite(Init(log), t, k, i) && !(Last(log).Remove? && Last(log).tablename == t)
  {
    if i != |log| - 1 && OpenWrite(log, t, k, i) {
      assert log[|log| - 1] == Last(log);
      assert forall m :: 0 <= m < |log| - 1 ==> Init(log)[m] == log[m];
    }
    if i != |log| - 1 && OpenWrite(Init(log), t, k, i) {
      assert forall m :: 0 <= m < |log| - 1 ==> Init(log)[m] == log[m];
    }
  }

  lemma {:induction false} WrittenSinceRemoveStep(log: Log, t: string, k: BYTES)
    requires log != []
    ensures WrittenSinceRemove(log, t, k) <==>
      WritesTo(Last(log), t, k)
      || (WrittenSinceRemove(Init(log), t, k) && !(Last(log).Remove? && Last(log).tablename == t))
  {
    if WrittenSinceRemove(log, t, k) {
      var i :| OpenWrite(log, t, k, i);
      OpenWriteStep(log, t, k, i);
    }
    if WritesTo(Last(log), t, k) {
      OpenWriteStep(log, t, k, |log| - 1);
      assert OpenWrite(log, t, k, |log| - 1);
    } else if WrittenSinceRemove(Init(log), t, k) {
      var i :| OpenWrite(Init(log), t, k, i);
      OpenWriteStep(log, t, k, i);
    }
  }

  /** The batch holds exactly the keys written since the last REMOVE. */
  lemma {:induction false} PendingKeys(log: Log, t: string, k: BYTES)
    ensures k in Pending(log, t) <==> WrittenSinceRemove(log, t, k)
  {
    if log == [] {
      assert !WrittenSinceRemove(log, t, k);
    } else {
      PendingKeys(Init(log), t, k);
      WrittenSinceRemoveStep(log, t, k);
    }
  }

  lemma {:induction false} BatchIsFirstWins(tab: Table, log: Log, t: string, net: Conditions)
    requires forall p {:trigger FlushCarried(log, t, net, p)} :: p < |log| && Flushes(log, t, p) ==>
      FlushCarried(log, t, net, p)
    ensures Flushed(tab, log, t, net) + Pending(log, t) == FirstWins(tab, log, t)
  {
    if log != [] {
      var init, s, n := Init(log), Last(log), |log| - 1;
      forall p | p < n && Flushes(init, t, p) ensures FlushCarried(init, t, net, p) {
        assert Flushes(log, t, p) && log[..p] == init[..p];
        assert FlushCarried(log, t, net, p);
      }
      BatchIsFirstWins(tab, init, t, net);
      PendingKeys(init, t, s.key);
      if s.Remove? && s.tablename == t {
        assert Flushes(log, t, n) && log[..n] == init;
        assert FlushCarried(log, t, net, n);
        SurvivingAll(Pending(init, t), net(n, t));
      }
    }
  }

  /** Grouping the writes of each table and flushing a group before every REMOVE on its table, in any
      interleaving with other tables, gives what immediate first-write-wins execution gives. */
  lemma {:induction false} CommitIsFirstWins(tab: Table, log: Log, t: string, net: Conditions)
    requires Carried(log, t, net)
    ensures Committed(tab, log, t, net) == FirstWins(tab, log, t)
  {
    BatchIsFirstWins(tab, log, t, net);
    assert Flushes(log, t, |log|) && log[..|log|] == log;
    assert FlushCarried(log, t, net, |log|);
    SurvivingAll(Pending(log, t), net(|log|, t));
  }

  // ---------------------------------------------------------------- when is that the replay?

  /** Nothing after position j touches (t, k). */
  ghost predicate LastOn(log: Log, t: string, k: BYTES, j: int) {
    0 <= j < |log| && Touches(log[j], t, k) && forall m :: j < m < |log| ==> !Touches(log[m], t, k)
  }

  /** i holds the first write of k in the REMOVE-free tail of t. */
  ghost predicate OpensTail(log: Log, t: string, k: BYTES, i: int) {
    OpenWrite(log, t, k, i) && forall m :: 0 <= m < i ==> !OpenWrite(log, t, k, m)
  }

  /** i holds the first write of k in the REMOVE-free segment of t that position j belongs to. */
  ghost predicate Opens(log: Log, t: string, k: BYTES, i: int, j: int) {
    0 <= i <= j < |log| && OpensTail(log[..j + 1], t, k, i)
  }

  /** The last write of every key carries the value that opened the key's segment. */
  ghost predicate Faithful(log: Log, t: string) {
    forall k, i, j :: Opens(log, t, k, i, j) && LastOn(log, t, k, j) ==> log[i].value == log[j].value
  }

  function Lookup(tab: Table, k: BYTES): Option<BYTES> {
    if k in tab then Some(tab[k]) else None
  }

  ghost predicate Untouched(log: Log, t: string, k: BYTES) {
    forall m :: 0 <= m < |log| ==> !Touches(log[m], t, k)
  }

  /** What decides key k of table t: nothing, a REMOVE, or a last write with the opening write of its
      segment. */
  lemma {:induction false} Decider(tab: Table, log: Log, t: string, k: BYTES) returns (i: int, j: int)
    ensures j == -1 ==> Untouched(log, t, k)
    ensures j == -1 ==> Lookup(FirstWins(tab, log, t), k) == Lookup(Replay(tab, log, t), k) == Lookup(tab, k)
    ensures j != -1 ==> LastOn(log, t, k, j)
    ensures j != -1 && log[j].Remove? ==> k !in FirstWins(tab, log, t) && k !in Replay(tab, log, t)
    ensures j != -1 && log[j].Write? ==> Opens(log, t, k, i, j)
    ensures j != -1 && log[j].Write? ==> Lookup(FirstWins(tab, log, t), k) == Some(log[i].value)
    ensures j != -1 && log[j].Write? ==> Lookup(Replay(tab, log, t), k) == Some(log[j].value)
  {
    if log == [] {
      return -1, -1;
    }
    var init, s, n := Init(log), Last(log), |log| - 1;
    i, j := Decider(tab, init, t, k);
    assert forall m :: 0 <= m < n ==> log[m] == init[m];
    if !Touches(s, t, k) {
      if j != -1 {
        assert log[..j + 1] == init[..j + 1];
      }
    } else if s.Remove? {
      j := n;
    } else {
      i := WriteDecides(tab, log, t, k);
      j := n;
    }
  }

  lemma {:induction false} WriteDecides(tab: Table, log: Log, t: string, k: BYTES) returns (i: int)
    requires log != [] && Touches(Last(log), t, k) && Last(log).Write?
    ensures Opens(log, t, k, i, |log| - 1)
    ensures Lookup(FirstWins(tab, log, t), k) == Some(log[i].value)
    ensures Lookup(Replay(tab, log, t), k) == Some(Last(log).value)
  {
    WrittenSinceRemoveStep(log, t, k);
    i := FirstOpen(tab, log, t, k);
    assert log[..|log| - 1 + 1] == log;
  }

  /** The opening write behind a write at the end of the log; FirstWins carries its value. */
  lemma {:induction false} FirstOpen(tab: Table, log: Log, t: string, k: BYTES) returns (i: int)
    requires WrittenSinceRemove(log, t, k)
    ensures OpensTail(log, t, k, i)
    ensures Lookup(FirstWins(tab, log, t), k) == Some(log[i].value)
  {
    var init, s, n := Init(log), Last(log), |log| - 1;
    WrittenSinceRemoveStep(log, t, k);
    if WrittenSinceRemove(init, t, k) && !(s.Remove? && s.tablename == t) {
      i := FirstOpen(tab, init, t, k);
      OpenWriteStep(log, t, k, i);
    } else {
      i := n;
      OpenWriteStep(log, t, k, n);
    }
    forall m | 0 <= m < i ensures !OpenWrite(log, t, k, m) {
      OpenWriteStep(log, t, k, m);
      if OpenWrite(init, t, k, m) {
        assert WrittenSinceRemove(init, t, k);
      }
    }
  }

  lemma LastOnUnique(log: Log, t: string, k: BYTES, j: int, j': int)
    requires LastOn(log, t, k, j) && LastOn(log, t, k, j')
    ensures j == j'
  {
  }

  lemma OpensUnique(log: Log, t: string, k: BYTES, i: int, i': int, j: int)
    requires Opens(log, t, k, i, j) && Opens(log, t, k, i', j)
    ensures i == i'
  {
  }

  /** When every request it sends succeeds, bc_commit gives table t the log's plain replay exactly when the
      last write of every key repeats the value that opened its segment; the contract's prior content plays
      no part. */
  lemma {:induction false} CarriedIsReplayIff(tab: Table, log: Log, t: string, net: Conditions)
    requires Carried(log, t, net)
    ensures Committed(tab, log, t, net) == Replay(tab, log, t) <==> Faithful(log, t)
  {
    CommitIsFirstWins(tab, log, t, net);
    var first, plain := FirstWins(tab, log, t), Replay(tab, log, t);
    if first == plain {
      forall k, i, j | Opens(log, t, k, i, j) && LastOn(log, t, k, j)
        ensures log[i].value == log[j].value
      {
        var i', j' := Decider(tab, log, t, k);
        LastOnUnique(log, t, k, j, j');
        assert log[j].Write? by {
          assert NoRemoveFrom(log[..j + 1], t, i);
          assert log[..j + 1][j] == log[j];
        }
        OpensUnique(log, t, k, i, i', j);
      }
    }
    if Faithful(log, t) {
      forall k ensures k in first <==> k in plain {
        var i, j := Decider(tab, log, t, k);
      }
      forall k | k in first ensures first[k] == plain[k] {
        var i, j := Decider(tab, log, t, k);
      }
    }
  }

  /** A checkable sufficient condition: within a REMOVE-free segment of t no key is written twice with
      different values. */
  ghost predicate NoRewrite(log: Log, t: string) {
    forall j :: 0 <= j < |log| && log[j].Write? && log[j].tablename == t ==>
      forall i :: OpenWrite(log[..j], t, log[j].key, i) ==> log[i].value == log[j].value
  }

  lemma {:induction false} NoRewriteIsFaithful(log: Log, t: string)
    requires NoRewrite(log, t)
    ensures Faithful(log, t)
  {
    forall k, i, j | Opens(log, t, k, i, j) && LastOn(log, t, k, j)
      ensures log[i].value == log[j].value
    {
      var upto := log[..j + 1];
      assert upto[j] == log[j] && Init(upto) == log[..j];
      OpenWriteStep(upto, t, k, i);
      assert log[j].Write? by { assert NoRemoveFrom(upto, t, i); }
    }
  }

  /** Within a REMOVE-free segment of t no key is written twice at all. */
  ghost predicate NoRepeat(log: Log, t: string) {
    forall j :: 0 <= j < |log| && log[j].Write? && log[j].tablename == t ==>
      !WrittenSinceRemove(log[..j], t, log[j].key)
  }

  lemma {:induction false} NoRepeatIsNoRewrite(log: Log, t: string)
    requires NoRepeat(log, t)
    ensures NoRewrite(log, t)
  {
  }

  /** Insert a row and then update it in the same transaction: bc_commit sends the inserted value. */
  lemma {:induction false} UpdateAfterInsertIsLost(tab: Table, t: string, k: BYTES, v: BYTES, w: BYTES, net: Conditions)
    requires Carried([Write(t, k, v), Write(t, k, w)], t, net) && v != w
    ensures var log := [Write(t, k, v), Write(t, k, w)];
      Replay(tab, log, t) == tab[k := w] && Committed(tab, log, t, net) == tab[k := v] && !Faithful(log, t)
  {
    var first, second := Write(t, k, v), Write(t, k, w);
    var log := [first, second];
    StepAtEnd(tab, [], first, t, net);
    StepAtEnd(tab, [first], second, t, net);
    assert [] + [first] == [first] && [first] + [second] == log;
    assert Flushes(log, t, 2) && log[..2] == log;
    assert FlushCarried(log, t, net, 2);
    SurvivingAll(Pending(log, t), net(2, t));
    assert Replay(tab, log, t)[k] == w;
    assert Committed(tab, log, t, net)[k] == v;
    CarriedIsReplayIff(tab, log, t, net);
  }

  /** The effect of one more WRITE on t. */
  lemma {:induction false} StepAtEnd(tab: Table, log: Log, s: Statement, t: string, net: Conditions)
    requires s.Write? && s.tablename == t
    ensures Replay(tab, log + [s], t) == Replay(tab, log, t)[s.key := s.value]
    ensures Flushed(tab, log + [s], t, net) == Flushed(tab, log, t, net)
    ensures Pending(log + [s], t) ==
      (if s.key in Pending(log, t) then Pending(log, t) else Pending(log, t)[s.key := s.value])
  {
    assert Init(log + [s]) == log && Last(log + [s]) == s;
  }
}
