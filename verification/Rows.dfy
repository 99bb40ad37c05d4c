/** The row operations of the handler on a transaction's statement log and table cache, and what holds
    of every run of them (ha_blockchain.cc write_row, update_row, delete_row, external_lock). */
module Rows {
  import opened Bytes
  import opened Statements
  import opened Delivery

  type Cache = map<string, Table>

  /** snapshot records what external_lock loaded; the program keeps only the other two. */
  datatype Txn = Txn(statements: Log, cache: Cache, snapshot: Cache)

  const EMPTY_TXN := Txn([], map[], map[])

  /** Keys are those get_primary_key computes; Update carries the old and the new row's key. */
  datatype RowOp =
    | Insert(t: string, key: BYTES, row: BYTES)
    | Update(t: string, oldKey: BYTES, newKey: BYTES, row: BYTES)
    | Delete(t: string, key: BYTES)

  /** external_lock: only the first lock of a table takes a snapshot. */
  function Lock(x: Txn, t: string, content: Table): Txn {
    if t in x.cache then x
    else Txn(x.statements, x.cache[t := content], x.snapshot[t := content])
  }

  /** addWrite or addRemove, followed by the same change to the cached table. */
  function Append(x: Txn, s: Statement): Txn
    requires s.tablename in x.cache
  {
    Txn(x.statements + [s], x.cache[s.tablename := Apply(x.cache[s.tablename], s)], x.snapshot)
  }

  function WriteRow(x: Txn, t: string, key: BYTES, row: BYTES): Txn
    requires t in x.cache
  {
    if key in x.cache[t] then x else Append(x, Write(t, key, row))
  }

  function DeleteRow(x: Txn, t: string, key: BYTES): Txn
    requires t in x.cache
  {
    Append(x, Remove(t, key))
  }

  function UpdateRow(x: Txn, t: string, oldKey: BYTES, newKey: BYTES, row: BYTES): Txn
    requires t in x.cache
  {
    if oldKey != newKey then WriteRow(DeleteRow(x, t, oldKey), t, newKey, row)
    else Append(x, Write(t, newKey, row))
  }

  function Perform(x: Txn, op: RowOp): Txn
    requires op.t in x.cache
  {
    match op
    case Insert(t, key, row) => WriteRow(x, t, key, row)
    case Update(t, oldKey, newKey, row) => UpdateRow(x, t, oldKey, newKey, row)
    case Delete(t, key) => DeleteRow(x, t, key)
  }

  // ---------------------------------------------------------------- what an operation comes to

  /** y is x with these statements appended, table t cached as tab, and nothing else changed. */
  ghost predicate Becomes(x: Txn, t: string, added: Log, tab: Table, y: Txn) {
    y.statements == x.statements + added && y.cache == x.cache[t := tab] && y.snapshot == x.snapshot
  }

  /** A new key is logged and cached; one that is cached already changes nothing. */
  lemma {:induction false} InsertIs(x: Txn, t: string, key: BYTES, row: BYTES)
    requires t in x.cache
    ensures var tab := x.cache[t];
      if key in tab then WriteRow(x, t, key, row) == x
      else Becomes(x, t, [Write(t, key, row)], tab[key := row], WriteRow(x, t, key, row))
  {
  }

  lemma {:induction false} DeleteIs(x: Txn, t: string, key: BYTES)
    requires t in x.cache
    ensures Becomes(x, t, [Remove(t, key)], x.cache[t] - {key}, DeleteRow(x, t, key))
  {
  }

  /** With an unchanged key one WRITE; with a new one the old row goes, and the new one is logged and cached
      exactly if its key is free then. */
  lemma {:induction false} UpdateIs(x: Txn, t: string, oldKey: BYTES, newKey: BYTES, row: BYTES)
    requires t in x.cache
    ensures var tab, rest, w := x.cache[t], x.cache[t] - {oldKey}, Write(t, newKey, row);
      var y := UpdateRow(x, t, oldKey, newKey, row);
      if oldKey == newKey then Becomes(x, t, [w], tab[newKey := row], y)
      else if newKey in rest then Becomes(x, t, [Remove(t, oldKey)], rest, y)
      else Becomes(x, t, [Remove(t, oldKey), w], rest[newKey := row], y)
  {
    if oldKey != newKey {
      var y, rest := DeleteRow(x, t, oldKey), x.cache[t] - {oldKey};
      InsertIs(y, t, newKey, row);
      assert x.statements + [Remove(t, oldKey)] + [Write(t, newKey, row)] ==
        x.statements + [Remove(t, oldKey), Write(t, newKey, row)];
    }
  }

  // ---------------------------------------------------------------- log and cache coherence

  /** The cache is the last-write-wins replay of the log over the snapshots. */
  ghost predicate Coherent(x: Txn) {
    && x.snapshot.Keys == x.cache.Keys
    && (forall s :: s in x.statements ==> s.tablename in x.cache)
    && forall t :: t in x.cache ==> x.cache[t] == Replay(x.snapshot[t], x.statements, t)
  }

  lemma {:induction false} UntouchedReplay(tab: Table, log: Log, t: string)
    requires forall s :: s in log ==> s.tablename != t
    ensures Replay(tab, log, t) == tab
    ensures Pending(log, t) == map[]
  {
    if log != [] {
      assert Last(log) in log;
      UntouchedReplay(tab, Init(log), t);
    }
  }

  lemma {:induction false} LockKeepsCoherence(x: Txn, t: string, content: Table)
    requires Coherent(x)
    ensures Coherent(Lock(x, t, content))
  {
    if t !in x.cache {
      UntouchedReplay(content, x.statements, t);
    }
  }

  /** Appending one statement while applying it to the cached table keeps log and cache in step. */
  lemma {:induction false} StepKeepsCoherence(x: Txn, s: Statement)
    requires Coherent(x) && s.tablename in x.cache
    ensures Coherent(Append(x, s))
  {
    var log := x.statements + [s];
    assert Init(log) == x.statements && Last(log) == s;
  }

  lemma {:induction false} RowOpKeepsCoherence(x: Txn, op: RowOp)
    requires Coherent(x) && op.t in x.cache
    ensures Coherent(Perform(x, op))
    ensures Perform(x, op).cache.Keys == x.cache.Keys && Perform(x, op).snapshot == x.snapshot
  {
    match op
    case Insert(t, key, row) =>
      StepKeepsCoherence(x, Write(t, key, row));
    case Delete(t, key) =>
      StepKeepsCoherence(x, Remove(t, key));
    case Update(t, oldKey, newKey, row) =>
      UpdateKeepsCoherence(x, t, oldKey, newKey, row);
  }

  /** A key change that collides leaves the old row deleted and the new one unwritten, in log and cache alike. */
  lemma {:induction false} UpdateKeepsCoherence(x: Txn, t: string, oldKey: BYTES, newKey: BYTES, row: BYTES)
    requires Coherent(x) && t in x.cache
    ensures Coherent(UpdateRow(x, t, oldKey, newKey, row))
    ensures UpdateRow(x, t, oldKey, newKey, row).cache.Keys == x.cache.Keys
    ensures UpdateRow(x, t, oldKey, newKey, row).snapshot == x.snapshot
  {
    if oldKey == newKey {
      StepKeepsCoherence(x, Write(t, newKey, row));
    } else {
      StepKeepsCoherence(x, Remove(t, oldKey));
      StepKeepsCoherence(DeleteRow(x, t, oldKey), Write(t, newKey, row));
    }
  }

  // ---------------------------------------------------------------- which runs commit faithfully

  /** Every key waiting in a batch is a key of the cached table. */
  ghost predicate PendingIsCached(x: Txn) {
    forall t, k :: t in x.cache && k in Pending(x.statements, t) ==> k in x.cache[t]
  }

  /** The operation does not rewrite, under the same key, a row written since the table's last REMOVE. */
  ghost predicate Fresh(x: Txn, op: RowOp) {
    op.Update? && op.oldKey == op.newKey ==> !WrittenSinceRemove(x.statements, op.t, op.newKey)
  }

  /** No batch is ever asked to take a key twice. */
  ghost predicate NothingRepeated(x: Txn) {
    forall t :: t in x.cache ==> NoRepeat(x.statements, t)
  }

  lemma {:induction false} NoRepeatStep(log: Log, s: Statement, t: string)
    requires NoRepeat(log, t)
    requires s.Write? && s.tablename == t ==> !WrittenSinceRemove(log, t, s.key)
    ensures NoRepeat(log + [s], t)
  {
    var log' := log + [s];
    forall j | 0 <= j < |log'| && log'[j].Write? && log'[j].tablename == t
      ensures !WrittenSinceRemove(log'[..j], t, log'[j].key)
    {
      if j < |log| {
        assert log'[..j] == log[..j] && log'[j] == log[j];
      } else {
        assert log'[..j] == log;
      }
    }
  }

  /** One statement, applied to the log and the cache alike, under the side condition of a fresh write. */
  lemma {:induction false} FreshStatement(x: Txn, s: Statement)
    requires Coherent(x) && PendingIsCached(x) && NothingRepeated(x) && s.tablename in x.cache
    requires s.Write? ==> !WrittenSinceRemove(x.statements, s.tablename, s.key)
    ensures PendingIsCached(Append(x, s)) && NothingRepeated(Append(x, s))
  {
    var y := Append(x, s);
    assert Init(y.statements) == x.statements && Last(y.statements) == s;
    forall t | t in y.cache ensures NoRepeat(y.statements, t) {
      NoRepeatStep(x.statements, s, t);
    }
    forall t, k | t in y.cache && k in Pending(y.statements, t) ensures k in y.cache[t] {
      assert t in x.cache;
      if t != s.tablename || (s.Write? && k != s.key) {
        assert k in Pending(x.statements, t);
      }
    }
  }

  /** Inserts, deletes, key-changing updates (collisions included) and fresh key-preserving updates never
      put a key twice into one batch. */
  lemma {:induction false} FreshRowOp(x: Txn, op: RowOp)
    requires Coherent(x) && PendingIsCached(x) && NothingRepeated(x) && op.t in x.cache && Fresh(x, op)
    ensures PendingIsCached(Perform(x, op)) && NothingRepeated(Perform(x, op))
  {
    match op
    case Insert(t, key, row) =>
      if key !in x.cache[t] {
        PendingKeys(x.statements, t, key);
        FreshStatement(x, Write(t, key, row));
      }
    case Delete(t, key) =>
      FreshStatement(x, Remove(t, key));
    case Update(t, oldKey, newKey, row) =>
      if oldKey == newKey {
        FreshStatement(x, Write(t, newKey, row));
      } else {
        FreshStatement(x, Remove(t, oldKey));
        StepKeepsCoherence(x, Remove(t, oldKey));
        var y := DeleteRow(x, t, oldKey);
        if newKey !in y.cache[t] {
          PendingKeys(y.statements, t, newKey);
          FreshStatement(y, Write(t, newKey, row));
        }
      }
  }

  // ---------------------------------------------------------------- runs

  /** A transaction's life: tables are locked and rows changed in any order. */
  datatype Event = Locked(t: string, content: Table) | Row(op: RowOp)

  /** Row operations address locked tables; the program's table_cache.at throws otherwise. */
  ghost predicate Runs(x: Txn, events: seq<Event>, y: Txn)
    decreases |events|
  {
    if events == [] then x == y
    else
      match events[0]
      case Locked(t, content) => Runs(Lock(x, t, content), events[1..], y)
      case Row(op) => op.t in x.cache && Runs(Perform(x, op), events[1..], y)
  }

  ghost predicate AllFresh(x: Txn, events: seq<Event>)
    decreases |events|
  {
    if events == [] then true
    else
      match events[0]
      case Locked(t, content) => AllFresh(Lock(x, t, content), events[1..])
      case Row(op) => op.t in x.cache ==> Fresh(x, op) && AllFresh(Perform(x, op), events[1..])
  }

  lemma {:induction false} RunKeepsCoherence(x: Txn, events: seq<Event>, y: Txn)
    requires Coherent(x) && Runs(x, events, y)
    ensures Coherent(y)
    decreases |events|
  {
    if events != [] {
      match events[0]
      case Locked(t, content) =>
        LockKeepsCoherence(x, t, content);
        RunKeepsCoherence(Lock(x, t, content), events[1..], y);
      case Row(op) =>
        RowOpKeepsCoherence(x, op);
        RunKeepsCoherence(Perform(x, op), events[1..], y);
    }
  }

  /** Whatever transactions fail: a commit onto the snapshot leaves the cache if and only if every key is
      delivered; when every request sent succeeds, if and only if the log is faithful. */
  lemma {:induction false} CoherentCommitIff(x: Txn, t: string, net: Conditions)
    requires Coherent(x) && t in x.cache
    ensures t in x.snapshot
    ensures Committed(x.snapshot[t], x.statements, t, net) == x.cache[t] <==>
      AllDelivered(x.snapshot[t], x.statements, t, net)
    ensures Carried(x.statements, t, net) ==>
      (Committed(x.snapshot[t], x.statements, t, net) == x.cache[t] <==> Faithful(x.statements, t))
  {
    CommitIsReplayIff(x.snapshot[t], x.statements, t, net);
    if Carried(x.statements, t, net) {
      CarriedIsReplayIff(x.snapshot[t], x.statements, t, net);
    }
  }

  /** Onto any state of the table, whoever committed in between, and whatever transactions fail: a row that
      the transaction touched becomes what its cache shows, and every other row keeps what is on chain, if and
      only if the key is delivered. */
  lemma {:induction false} CommitMerges(x: Txn, tab: Table, t: string, net: Conditions, k: BYTES)
    requires Coherent(x) && t in x.cache
    ensures Lookup(Committed(tab, x.statements, t, net), k) ==
        (if Untouched(x.statements, t, k) then Lookup(tab, k) else Lookup(x.cache[t], k))
      <==> Delivered(tab, x.statements, t, k, net)
  {
    var log := x.statements;
    KeyIsReplayedIff(tab, log, t, net, k);
    var i, j := Decider(tab, log, t, k);
    var i', j' := Decider(x.snapshot[t], log, t, k);
    if j != -1 && j' != -1 {
      LastOnUnique(log, t, k, j, j');
    }
  }

  /** What must hold of a key for the cached table to be seen after a commit onto tab: untouched, it is there as
      it was when locked; touched, it is delivered. */
  ghost predicate ShowsAt(x: Txn, tab: Table, t: string, net: Conditions, k: BYTES)
    requires t in x.snapshot
  {
    if Untouched(x.statements, t, k) then Lookup(tab, k) == Lookup(x.snapshot[t], k)
    else Delivered(tab, x.statements, t, k, net)
  }

  ghost predicate Shows(x: Txn, tab: Table, t: string, net: Conditions)
    requires t in x.snapshot
  {
    forall k {:trigger ShowsAt(x, tab, t, net, k)} :: ShowsAt(x, tab, t, net, k)
  }

  /** Onto any state of the table and whatever transactions fail: the commit leaves the cache if and only if
      that holds of every key. */
  lemma {:induction false} CommitOntoIff(x: Txn, tab: Table, t: string, net: Conditions)
    requires Coherent(x) && t in x.cache
    ensures t in x.snapshot
    ensures Committed(tab, x.statements, t, net) == x.cache[t] <==> Shows(x, tab, t, net)
  {
    forall k
      ensures Lookup(Committed(tab, x.statements, t, net), k) == Lookup(x.cache[t], k) <==> ShowsAt(x, tab, t, net, k)
    {
      CommitKeyIff(x, tab, t, net, k);
    }
    if Shows(x, tab, t, net) {
      forall k ensures Lookup(Committed(tab, x.statements, t, net), k) == Lookup(x.cache[t], k) {
        assert ShowsAt(x, tab, t, net, k);
      }
      SameLookups(Committed(tab, x.statements, t, net), x.cache[t]);
    }
  }

  lemma {:induction false} CommitKeyIff(x: Txn, tab: Table, t: string, net: Conditions, k: BYTES)
    requires Coherent(x) && t in x.cache && t in x.snapshot
    ensures Lookup(Committed(tab, x.statements, t, net), k) == Lookup(x.cache[t], k) <==> ShowsAt(x, tab, t, net, k)
  {
    CommitMerges(x, tab, t, net, k);
    if Untouched(x.statements, t, k) {
      UntouchedIsDelivered(tab, x.statements, t, net, k);
      var i, j := Decider(x.snapshot[t], x.statements, t, k);
    }
  }

  lemma UntouchedIsDelivered(tab: Table, log: Log, t: string, net: Conditions, k: BYTES)
    requires Untouched(log, t, k)
    ensures Delivered(tab, log, t, k, net)
  {
  }

  /** Whatever was locked and changed, committing onto unchanged tables leaves on chain exactly what the
      transaction saw in its cache if and only if every key of the table is delivered. */
  lemma {:induction false} CommitGivesCacheIff(events: seq<Event>, y: Txn, t: string, net: Conditions)
    requires Runs(EMPTY_TXN, events, y) && t in y.cache
    ensures t in y.snapshot
    ensures Committed(y.snapshot[t], y.statements, t, net) == y.cache[t] <==>
      AllDelivered(y.snapshot[t], y.statements, t, net)
    ensures Carried(y.statements, t, net) ==>
      (Committed(y.snapshot[t], y.statements, t, net) == y.cache[t] <==> Faithful(y.statements, t))
  {
    RunKeepsCoherence(EMPTY_TXN, events, y);
    CoherentCommitIff(y, t, net);
  }

  lemma {:induction false} FreshRunInvariant(x: Txn, events: seq<Event>, y: Txn)
    requires Coherent(x) && PendingIsCached(x) && NothingRepeated(x) && Runs(x, events, y) && AllFresh(x, events)
    ensures PendingIsCached(y) && NothingRepeated(y)
    decreases |events|
  {
    if events != [] {
      match events[0]
      case Locked(t, content) =>
        var x' := Lock(x, t, content);
        LockKeepsCoherence(x, t, content);
        if t !in x.cache {
          UntouchedReplay(content, x.statements, t);
        }
        FreshRunInvariant(x', events[1..], y);
      case Row(op) =>
        FreshRowOp(x, op);
        RowOpKeepsCoherence(x, op);
        FreshRunInvariant(Perform(x, op), events[1..], y);
    }
  }

  /** Runs whose key-preserving updates only touch rows not written since the table's last REMOVE never put
      a key twice into one batch, and commit exactly their cache when every request sent succeeds. */
  lemma {:induction false} FreshRunCommitsItsCache(events: seq<Event>, y: Txn, t: string, net: Conditions)
    requires Runs(EMPTY_TXN, events, y) && AllFresh(EMPTY_TXN, events) && t in y.cache
    ensures NoRepeat(y.statements, t)
    ensures t in y.snapshot
    ensures Carried(y.statements, t, net) ==> Committed(y.snapshot[t], y.statements, t, net) == y.cache[t]
  {
    FreshRunInvariant(EMPTY_TXN, events, y);
    NoRepeatIsNoRewrite(y.statements, t);
    NoRewriteIsFaithful(y.statements, t);
    CommitGivesCacheIff(events, y, t, net);
  }
}
