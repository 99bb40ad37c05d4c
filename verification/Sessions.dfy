/** Many connections on the same contracts: locks, row operations, commits and rollbacks, of statements and
    of transactions, in any interleaving (ha_blockchain.cc external_lock, bc_commit, bc_rollback). */
module Sessions {
  import opened Bytes
  import opened Statements
  import opened Delivery
  import opened Commits
  import opened RowTests
  import Rows

  type Id = nat

  /** A connection: whether it is inside an explicit transaction, and what its ha_ptr holds. */
  datatype Session = Session(inTransaction: bool, txn: Option<Rows.Txn>)

  datatype World = World(chain: Chain, sessions: map<Id, Session>)

  /** all tells the end of a transaction from the end of a statement; loaded is what a lock read from the
      chain, if it got that far. */
  datatype Action =
    | SetOption(s: Id, inTransaction: bool)
    | Lock(s: Id, t: string, loaded: Option<Table>)
    | Unlock(s: Id)
    | Row(s: Id, op: Rows.RowOp)
    | Commit(s: Id, all: bool, net: Conditions)
    | Rollback(s: Id, all: bool)

  function Model(x: Session): Rows.Txn {
    if x.txn.Some? then x.txn.value else Rows.EMPTY_TXN
  }

  /** A statement's end inside an explicit transaction ends nothing. */
  predicate Ends(x: Session, all: bool) {
    (all || !x.inTransaction) && x.txn.Some?
  }

  /** A connection's own state depends on its own actions, and on which tables are open. */
  function SessionAfter(open: set<string>, x: Session, a: Action): Session {
    match a
    case SetOption(_, b) => x.(inTransaction := b)
    case Lock(_, t, None) => x.(txn := Some(Model(x)))
    case Lock(_, t, Some(content)) => x.(txn := Some(Rows.Lock(Model(x), t, content)))
    case Unlock(_) => x
    case Row(_, op) => if op.t in Model(x).cache then x.(txn := Some(Rows.Perform(Model(x), op))) else x
    case Commit(_, all, _) =>
      if Ends(x, all) && AllOpen(open, Model(x).statements) then x.(txn := None) else x
    case Rollback(_, all) => if Ends(x, all) then x.(txn := None) else x
  }

  function ChainAfter(chain: Chain, x: Session, a: Action): Chain {
    if a.Commit? && Ends(x, a.all) then CommitEffect(chain, Model(x).statements, a.net) else chain
  }

  function Step(w: World, a: Action): World {
    if a.s !in w.sessions then w
    else
      var x := w.sessions[a.s];
      World(ChainAfter(w.chain, x, a), w.sessions[a.s := SessionAfter(w.chain.Keys, x, a)])
  }

  function Run(w: World, actions: seq<Action>): World {
    if actions == [] then w else Step(Run(w, actions[..|actions| - 1]), actions[|actions| - 1])
  }

  lemma {:induction false} RunJoin(w: World, first: seq<Action>, then': seq<Action>)
    ensures Run(Run(w, first), then') == Run(w, first + then')
  {
    if then' == [] {
      assert first + then' == first;
    } else {
      var n := |then'| - 1;
      RunJoin(w, first, then'[..n]);
      assert (first + then')[..|first| + n] == first + then'[..n];
    }
  }

  // ---------------------------------------------------------------- each connection by itself

  /** The actions of s, in order. */
  function Only(actions: seq<Action>, s: Id): seq<Action> {
    if actions == [] then []
    else
      var rest, a := Only(actions[..|actions| - 1], s), actions[|actions| - 1];
      if a.s == s then rest + [a] else rest
  }

  function Alone(open: set<string>, x: Session, own: seq<Action>): Session {
    if own == [] then x else SessionAfter(open, Alone(open, x, own[..|own| - 1]), own[|own| - 1])
  }

  lemma {:induction false} AloneAppend(open: set<string>, x: Session, own: seq<Action>, a: Action)
    ensures Alone(open, x, own + [a]) == SessionAfter(open, Alone(open, x, own), a)
  {
    assert (own + [a])[..|own|] == own;
  }

  /** Interleaving does not matter to a connection: its transaction is what its own actions make of it. */
  lemma {:induction false} SessionsAreIndependent(w: World, actions: seq<Action>, s: Id)
    ensures Run(w, actions).chain.Keys == w.chain.Keys && Run(w, actions).sessions.Keys == w.sessions.Keys
    ensures s in w.sessions ==> Run(w, actions).sessions[s] == Alone(w.chain.Keys, w.sessions[s], Only(actions, s))
  {
    if actions != [] {
      var before, a := actions[..|actions| - 1], actions[|actions| - 1];
      SessionsAreIndependent(w, before, s);
      StepKeepsKeys(Run(w, before), a);
      if s in w.sessions && a.s == s {
        AloneAppend(w.chain.Keys, w.sessions[s], Only(before, s), a);
      }
    }
  }

  lemma {:induction false} StepKeepsKeys(w: World, a: Action)
    ensures Step(w, a).chain.Keys == w.chain.Keys && Step(w, a).sessions.Keys == w.sessions.Keys
    ensures forall s :: s in w.sessions && s != a.s ==> Step(w, a).sessions[s] == w.sessions[s]
  {
  }

  // ---------------------------------------------------------------- the committed logs

  /** A committed log and how the network treated its requests. */
  datatype Entry = Entry(log: Log, net: Conditions)

  /** The log that an action commits, judged by the connection's own actions alone. */
  function EntryOf(open: set<string>, sessions: map<Id, Session>, before: seq<Action>, a: Action): seq<Entry> {
    if a.s !in sessions || !a.Commit? then []
    else
      var x := Alone(open, sessions[a.s], Only(before, a.s));
      if Ends(x, a.all) then [Entry(Model(x).statements, a.net)] else []
  }

  /** The logs committed by a run, in commit order. */
  function Entries(open: set<string>, sessions: map<Id, Session>, actions: seq<Action>): seq<Entry> {
    if actions == [] then []
    else
      var before := actions[..|actions| - 1];
      Entries(open, sessions, before) + EntryOf(open, sessions, before, actions[|actions| - 1])
  }

  function CommitEntries(chain: Chain, entries: seq<Entry>): Chain {
    if entries == [] then chain
    else
      var e := entries[|entries| - 1];
      CommitEffect(CommitEntries(chain, entries[..|entries| - 1]), e.log, e.net)
  }

  lemma {:induction false} CommitEntriesAppend(chain: Chain, entries: seq<Entry>, e: Entry)
    ensures CommitEntries(chain, entries + [e]) == CommitEffect(CommitEntries(chain, entries), e.log, e.net)
  {
    assert (entries + [e])[..|entries|] == entries;
  }

  /** What is on chain is the effect, in commit order, of the logs that the connections' effective commits
      hold, each log determined by its own connection's actions; statement commits inside a transaction,
      rollbacks and everything else leave no trace. */
  lemma {:induction false} ChainIsCommittedLogs(w: World, actions: seq<Action>)
    ensures Run(w, actions).chain == CommitEntries(w.chain, Entries(w.chain.Keys, w.sessions, actions))
  {
    if actions != [] {
      var before, a := actions[..|actions| - 1], actions[|actions| - 1];
      var entries := Entries(w.chain.Keys, w.sessions, before);
      ChainIsCommittedLogs(w, before);
      SessionsAreIndependent(w, before, a.s);
      var more := EntryOf(w.chain.Keys, w.sessions, before, a);
      if more == [] {
        assert entries + more == entries;
      } else {
        CommitEntriesAppend(w.chain, entries, more[0]);
      }
    }
  }

  // ---------------------------------------------------------------- rollbacks

  function Without(actions: seq<Action>, s: Id): seq<Action> {
    if actions == [] then []
    else
      var rest, a := Without(actions[..|actions| - 1], s), actions[|actions| - 1];
      if a.s == s then rest else rest + [a]
  }

  /** No commit of s takes effect. */
  ghost predicate NeverCommits(open: set<string>, x: Session, actions: seq<Action>, s: Id) {
    forall i :: 0 <= i < |actions| && actions[i].Commit? && actions[i].s == s ==>
      !Ends(Alone(open, x, Only(actions[..i], s)), actions[i].all)
  }

  lemma {:induction false} NeverCommitsBefore(open: set<string>, x: Session, actions: seq<Action>, s: Id)
    requires actions != [] && NeverCommits(open, x, actions, s)
    ensures NeverCommits(open, x, actions[..|actions| - 1], s)
  {
    var before := actions[..|actions| - 1];
    forall i | 0 <= i < |before| && before[i].Commit? && before[i].s == s
      ensures !Ends(Alone(open, x, Only(before[..i], s)), before[i].all)
    {
      assert before[..i] == actions[..i] && before[i] == actions[i];
    }
  }

  /** As long as no commit of s takes effect, all others and the chain are as if s had done nothing. */
  lemma {:induction false} UncommittedIsInvisible(w: World, actions: seq<Action>, s: Id)
    requires s in w.sessions && NeverCommits(w.chain.Keys, w.sessions[s], actions, s)
    ensures Run(w, actions).chain == Run(w, Without(actions, s)).chain
    ensures Run(w, actions).sessions - {s} == Run(w, Without(actions, s)).sessions - {s}
  {
    if actions != [] {
      var n := |actions| - 1;
      var before, a := actions[..n], actions[n];
      NeverCommitsBefore(w.chain.Keys, w.sessions[s], actions, s);
      UncommittedIsInvisible(w, before, s);
      SessionsAreIndependent(w, before, s);
      if a.s == s {
        StepKeepsKeys(Run(w, before), a);
      } else {
        var rest := Without(before, s);
        assert (rest + [a])[..|rest|] == rest;
        StepAside(Run(w, before), Run(w, rest), a, s);
      }
    }
  }

  /** A step of another connection does the same in worlds that differ in s only. */
  lemma {:induction false} StepAside(v: World, w: World, a: Action, s: Id)
    requires a.s != s && v.chain == w.chain && v.sessions - {s} == w.sessions - {s}
    ensures Step(v, a).chain == Step(w, a).chain && Step(v, a).sessions - {s} == Step(w, a).sessions - {s}
  {
    assert forall u :: u != s ==> (u in v.sessions <==> u in v.sessions - {s});
    assert forall u :: u != s ==> (u in w.sessions <==> u in w.sessions - {s});
    assert forall u :: u != s && u in v.sessions ==> v.sessions[u] == (v.sessions - {s})[u];
    assert forall u :: u != s && u in w.sessions ==> w.sessions[u] == (w.sessions - {s})[u];
  }

  lemma {:induction false} RollbackStep(now: World, v: World, s: Id, all: bool)
    requires s in now.sessions && s in v.sessions && (all || !now.sessions[s].inTransaction)
    requires now.chain == v.chain && now.sessions - {s} == v.sessions - {s}
    ensures Step(now, Rollback(s, all)) == World(v.chain, v.sessions[s := Session(now.sessions[s].inTransaction, None)])
  {
    assert forall u :: u in now.sessions && u != s ==>
      u in now.sessions - {s} && now.sessions[u] == (now.sessions - {s})[u];
    assert forall u :: u in v.sessions && u != s ==> u in v.sessions - {s} && v.sessions[u] == (v.sessions - {s})[u];
  }

  /** After a rollback that is not the end of a statement inside a transaction, the world is the one in which
      the connection did nothing, but for the option that the server has set. */
  lemma {:induction false} RollbackLeavesNoTrace(w: World, actions: seq<Action>, s: Id, all: bool)
    requires s in w.sessions && NeverCommits(w.chain.Keys, w.sessions[s], actions, s)
    ensures s in Run(w, actions).sessions
    ensures var now, v := Run(w, actions), Run(w, Without(actions, s));
      all || !now.sessions[s].inTransaction ==>
      Run(w, actions + [Rollback(s, all)]) ==
        World(v.chain, v.sessions[s := Session(now.sessions[s].inTransaction, None)])
  {
    SessionsAreIndependent(w, actions, s);
    SessionsAreIndependent(w, Without(actions, s), s);
    UncommittedIsInvisible(w, actions, s);
    assert (actions + [Rollback(s, all)])[..|actions|] == actions;
    if all || !Run(w, actions).sessions[s].inTransaction {
      RollbackStep(Run(w, actions), Run(w, Without(actions, s)), s, all);
    }
  }

  // ---------------------------------------------------------------- commits key by key

  /** A key's fate under a commit depends on nothing else in the table, and a key that the log does not
      touch keeps its value. */
  lemma {:induction false} CommitIsLocal(tab: Table, tab': Table, log: Log, t: string, net: Conditions, k: BYTES)
    requires Lookup(tab, k) == Lookup(tab', k)
    ensures Lookup(Committed(tab, log, t, net), k) == Lookup(Committed(tab', log, t, net), k)
    ensures Untouched(log, t, k) ==> Lookup(Committed(tab, log, t, net), k) == Lookup(tab, k)
  {
    var p := CommitOutcome(tab, log, t, net, k);
    var q := CommitOutcome(tab', log, t, net, k);
    if p != -1 && q != -1 {
      LastTakeUnique(log, t, k, net, p, q);
    }
    UntouchedTakesNothing(log, t, k, net);
  }

  /** No (table, key) pair is touched by both logs. */
  ghost predicate Disjoint(a: Log, b: Log) {
    forall t, k :: Untouched(a, t, k) || Untouched(b, t, k)
  }

  lemma {:induction false} CommuteAt(tab: Table, a: Log, b: Log, m: Conditions, n: Conditions, t: string, k: BYTES)
    requires Untouched(a, t, k)
    ensures Lookup(Committed(Committed(tab, a, t, m), b, t, n), k) ==
      Lookup(Committed(Committed(tab, b, t, n), a, t, m), k)
  {
    CommitIsLocal(tab, tab, a, t, m, k);
    CommitIsLocal(Committed(tab, a, t, m), tab, b, t, n, k);
    CommitIsLocal(Committed(tab, b, t, n), Committed(tab, b, t, n), a, t, m, k);
  }

  /** Commits that touch different rows can be exchanged, however the network treats their requests. */
  lemma {:induction false} DisjointCommitsCommute(chain: Chain, a: Log, b: Log, m: Conditions, n: Conditions)
    requires Disjoint(a, b)
    ensures CommittedAll(CommittedAll(chain, a, m), b, n) == CommittedAll(CommittedAll(chain, b, n), a, m)
  {
    forall t | t in chain
      ensures Committed(Committed(chain[t], a, t, m), b, t, n) == Committed(Committed(chain[t], b, t, n), a, t, m)
    {
      TablesCommute(chain[t], a, b, m, n, t);
    }
  }

  lemma {:induction false} TablesCommute(tab: Table, a: Log, b: Log, m: Conditions, n: Conditions, t: string)
    requires Disjoint(a, b)
    ensures Committed(Committed(tab, a, t, m), b, t, n) == Committed(Committed(tab, b, t, n), a, t, m)
  {
    var l, r := Committed(Committed(tab, a, t, m), b, t, n), Committed(Committed(tab, b, t, n), a, t, m);
    forall k ensures Lookup(l, k) == Lookup(r, k) {
      if Untouched(a, t, k) {
        CommuteAt(tab, a, b, m, n, t, k);
      } else {
        CommuteAt(tab, b, a, n, m, t, k);
      }
    }
    SameLookups(l, r);
  }

  // ---------------------------------------------------------------- commits as a serial history

  function Joined(entries: seq<Entry>): Log {
    if entries == [] then [] else Joined(entries[..|entries| - 1]) + entries[|entries| - 1].log
  }

  lemma {:induction false} ReplayJoin(tab: Table, a: Log, b: Log, t: string)
    ensures Replay(tab, a + b, t) == Replay(Replay(tab, a, t), b, t)
  {
    if b == [] {
      assert a + b == a;
    } else {
      assert Init(a + b) == a + Init(b) && Last(a + b) == Last(b);
      ReplayJoin(tab, a, Init(b), t);
    }
  }

  /** The entry's tables are open and its commit delivers every key of t onto the given chain. */
  ghost predicate Lands(chain: Chain, e: Entry, t: string)
    requires t in chain
  {
    AllOpen(chain.Keys, e.log) && AllDelivered(chain[t], e.log, t, e.net)
  }

  /** If each commit delivers its keys, a table is at any time the replay of all committed statements, one
      transaction after the other, in commit order. */
  lemma {:induction false} ChainIsSerialReplay(chain: Chain, entries: seq<Entry>, t: string)
    requires t in chain
    requires forall i :: 0 <= i < |entries| ==>
      t in CommitEntries(chain, entries[..i]) && Lands(CommitEntries(chain, entries[..i]), entries[i], t)
    ensures t in CommitEntries(chain, entries)
    ensures CommitEntries(chain, entries)[t] == Replay(chain[t], Joined(entries), t)
  {
    if entries != [] {
      var n := |entries| - 1;
      var before, e := entries[..n], entries[n];
      forall i | 0 <= i < n
        ensures t in CommitEntries(chain, before[..i]) && Lands(CommitEntries(chain, before[..i]), before[i], t)
      {
        assert before[..i] == entries[..i];
      }
      ChainIsSerialReplay(chain, before, t);
      assert Lands(CommitEntries(chain, entries[..n]), entries[n], t);
      CommitIsReplayIff(CommitEntries(chain, before)[t], e.log, t, e.net);
      ReplayJoin(chain[t], Joined(before), e.log, t);
    }
  }

  // ---------------------------------------------------------------- what a commit shows

  ghost predicate AllCoherent(w: World) {
    forall s :: s in w.sessions ==> Rows.Coherent(Model(w.sessions[s]))
  }

  lemma {:induction false} SessionKeepsCoherence(open: set<string>, x: Session, a: Action)
    requires Rows.Coherent(Model(x))
    ensures Rows.Coherent(Model(SessionAfter(open, x, a)))
  {
    match a
    case Lock(_, t, Some(content)) => Rows.LockKeepsCoherence(Model(x), t, content);
    case Row(_, op) => if op.t in Model(x).cache { Rows.RowOpKeepsCoherence(Model(x), op); }
    case _ =>
  }

  /** In every reachable world each transaction's cache is its log replayed over its snapshots. */
  lemma {:induction false} RunKeepsCoherence(w: World, actions: seq<Action>)
    requires AllCoherent(w)
    ensures AllCoherent(Run(w, actions))
  {
    if actions != [] {
      var before, a := Run(w, actions[..|actions| - 1]), actions[|actions| - 1];
      RunKeepsCoherence(w, actions[..|actions| - 1]);
      if a.s in before.sessions {
        SessionKeepsCoherence(before.chain.Keys, before.sessions[a.s], a);
      }
    }
  }

  /** In every world reached from one without transactions, whoever committed in between: a commit shows on
      chain exactly what the connection saw in its cache if and only if every key that it touched is delivered
      and every other one is as it was when locked. */
  lemma {:induction false} CommitShowsCacheIff(w: World, actions: seq<Action>, s: Id, all: bool, net: Conditions,
                                               t: string)
    requires (forall u :: u in w.sessions ==> w.sessions[u].txn == None) && s in Run(w, actions).sessions
    requires var now := Run(w, actions); var x := Model(now.sessions[s]);
      && Ends(now.sessions[s], all) && AllOpen(now.chain.Keys, x.statements)
      && t in now.chain && t in x.snapshot
    ensures var now := Run(w, actions); var x := Model(now.sessions[s]);
      && t in x.cache
      && (Step(now, Commit(s, all, net)).chain[t] == x.cache[t] <==> Rows.Shows(x, now.chain[t], t, net))
  {
    RunKeepsCoherence(w, actions);
    var now := Run(w, actions);
    assert Rows.Coherent(Model(now.sessions[s]));
    Rows.CommitOntoIff(Model(now.sessions[s]), now.chain[t], t, net);
  }

  // ---------------------------------------------------------------- rows

  ghost predicate ChainRows(good: RowTest, chain: Chain) {
    forall t {:trigger AllRows(good, t, chain[t])} :: t in chain ==> AllRows(good, t, chain[t])
  }

  /** Every row on chain, in a cache or in a log passes. */
  ghost predicate WorldRows(good: RowTest, w: World) {
    ChainRows(good, w.chain) && forall s :: s in w.sessions ==> TxnRows(good, Model(w.sessions[s]))
  }

  /** So do the rows that an action brings in. A lock that reads the chain brings in rows of the chain. */
  ghost predicate ActionRows(good: RowTest, a: Action) {
    match a
    case Row(_, op) => OpRow(good, op)
    case Lock(_, t, Some(content)) => AllRows(good, t, content)
    case _ => true
  }

  lemma {:induction false} SessionKeepsRows(good: RowTest, open: set<string>, x: Session, a: Action)
    requires TxnRows(good, Model(x)) && ActionRows(good, a)
    ensures TxnRows(good, Model(SessionAfter(open, x, a)))
  {
    match a
    case Lock(_, t, Some(content)) => LockKeepsRows(good, Model(x), t, content);
    case Row(_, op) => if op.t in Model(x).cache { RowOpKeepsRows(good, Model(x), op); }
    case _ =>
  }

  lemma {:induction false} ChainKeepsRows(good: RowTest, chain: Chain, log: Log, net: Conditions)
    requires ChainRows(good, chain) && LogRows(good, log)
    ensures ChainRows(good, CommitEffect(chain, log, net))
  {
    var i := Stop(chain.Keys, log);
    forall t | t in chain ensures AllRows(good, t, CommitEffect(chain, log, net)[t]) {
      assert AllRows(good, t, chain[t]);
      FlushedRows(good, chain[t], log[..i], t, net);
      CommittedRows(good, chain[t], log, t, net);
    }
  }

  lemma {:induction false} StepKeepsRows(good: RowTest, w: World, a: Action)
    requires WorldRows(good, w) && ActionRows(good, a)
    ensures WorldRows(good, Step(w, a))
  {
    if a.s in w.sessions {
      SessionKeepsRows(good, w.chain.Keys, w.sessions[a.s], a);
      if a.Commit? {
        ChainKeepsRows(good, w.chain, Model(w.sessions[a.s]).statements, a.net);
      }
    }
  }

  /** A row property that holds of all rows at the start and of all rows handed in holds of every row on
      chain and in every cache for ever, whatever requests fail. */
  lemma {:induction false} RunKeepsRows(good: RowTest, w: World, actions: seq<Action>)
    requires WorldRows(good, w) && forall i :: 0 <= i < |actions| ==> ActionRows(good, actions[i])
    ensures WorldRows(good, Run(w, actions))
  {
    if actions != [] {
      var n := |actions| - 1;
      RunKeepsRows(good, w, actions[..n]);
      StepKeepsRows(good, Run(w, actions[..n]), actions[n]);
    }
  }

  // ---------------------------------------------------------------- sizes

  /** The operation's keys are hashes and its row is no longer than a length word can say. */
  predicate OpFits(op: Rows.RowOp) {
    match op
    case Insert(_, key, row) => |key| == 32 && |row| < TWO32
    case Update(_, oldKey, newKey, row) => |oldKey| == |newKey| == 32 && |row| < TWO32
    case Delete(_, key) => |key| == 32
  }

  /** No transaction has logged more than n statements, and all of them fit their requests. */
  ghost predicate WorldFits(w: World, n: nat) {
    forall s {:trigger SessionFits(w.sessions[s], n)} :: s in w.sessions ==> SessionFits(w.sessions[s], n)
  }

  ghost predicate SessionFits(x: Session, n: nat) {
    LogWithin(Model(x).statements, n)
  }

  lemma {:induction false} AppendFits(x: Rows.Txn, s: Statement, n: nat)
    requires LogWithin(x.statements, n) && StatementFits(s) && s.tablename in x.cache
    ensures LogWithin(Rows.Append(x, s).statements, n + 1)
  {
    var log := x.statements + [s];
    forall i | 0 <= i < |log| ensures StatementFits(log[i]) {
      assert i < |x.statements| ==> StatementFits(x.statements[i]);
    }
  }

  lemma {:induction false} OpKeepsFit(x: Rows.Txn, op: Rows.RowOp, n: nat)
    requires LogWithin(x.statements, n) && op.t in x.cache && OpFits(op)
    ensures LogWithin(Rows.Perform(x, op).statements, n + 2)
  {
    match op
    case Insert(t, key, row) => AppendFits(x, Write(t, key, row), n);
    case Delete(t, key) => AppendFits(x, Remove(t, key), n);
    case Update(t, oldKey, newKey, row) =>
      AppendFits(x, Write(t, newKey, row), n);
      AppendFits(x, Remove(t, oldKey), n);
      AppendFits(Rows.DeleteRow(x, t, oldKey), Write(t, newKey, row), n + 1);
  }

  lemma {:induction false} StepKeepsFit(w: World, a: Action, n: nat)
    requires WorldFits(w, n) && (a.Row? ==> OpFits(a.op))
    ensures WorldFits(Step(w, a), n + 2)
  {
    forall s | s in w.sessions ensures SessionFits(Step(w, a).sessions[s], n + 2) {
      assert SessionFits(w.sessions[s], n);
      if s == a.s && a.Row? && a.op.t in Model(w.sessions[s]).cache {
        OpKeepsFit(Model(w.sessions[s]), a.op, n);
      }
    }
  }
}
