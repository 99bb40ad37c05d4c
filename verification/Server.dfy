/** The database server's calls on the storage engine: every one is a step of the session model, and every
    sequence of them a run. */
module Server {
  import opened Bytes
  import opened Hex
  import opened Network
  import opened Statements
  import opened Commits
  import opened Sessions
  import opened Records
  import opened Engine
  import opened Handler
  import opened BatchStrings
  import opened Framing
  import opened RowTests
  import Rows
  import Transactions

  ghost function SessionOf(thd: Thd): Session
    reads thd, thd.txn
  {
    Session(thd.inTransaction, if thd.txn == null then None else Some(thd.txn.Model()))
  }

  /** What makes the next world a step: only the acting session and perhaps the chain have changed, as the
      action says. */
  lemma {:induction false} Stepped(before: World, after: World, a: Action)
    requires a.s in before.sessions && after.sessions.Keys == before.sessions.Keys
    requires after.chain == ChainAfter(before.chain, before.sessions[a.s], a)
    requires after.sessions[a.s] == SessionAfter(before.chain.Keys, before.sessions[a.s], a)
    requires forall u {:trigger after.sessions[u]} :: u in before.sessions && u != a.s ==>
      after.sessions[u] == before.sessions[u]
    ensures after == Step(before, a)
  {
  }

  method SetOptionOf(engine: StorageEngine, thd: Thd, inTransaction: bool, ghost s: Id)
    requires engine.Valid()
    modifies thd`inTransaction
    ensures engine.Valid() && engine.Tables() == old(engine.Tables())
    ensures SessionOf(thd) ==
      SessionAfter(engine.adapters.Keys, old(SessionOf(thd)), Action.SetOption(s, inTransaction))
    ensures thd.inTransaction == inTransaction
  {
    thd.inTransaction := inTransaction;
  }

  method RollbackOf(engine: StorageEngine, thd: Thd, all: bool, ghost s: Id) returns (rc: int)
    requires engine.Valid()
    modifies thd`txn
    ensures engine.Valid() && engine.Tables() == old(engine.Tables()) && rc == 0
    ensures thd.txn == old(thd.txn) || thd.txn == null
    ensures SessionOf(thd) == SessionAfter(engine.adapters.Keys, old(SessionOf(thd)), Action.Rollback(s, all))
  {
    rc := engine.BcRollback(thd, all);
  }

  /** bc_commit on one connection. */
  method CommitOf(engine: StorageEngine, thd: Thd, all: bool, net: Conditions, ghost a: Action) returns (rc: int)
    requires engine.Valid() && LogFits(thd.Model().statements) && a == Action.Commit(a.s, all, net)
    modifies thd`txn, engine.Adapters(), engine.Nodes(), engine.Contracts()
    ensures engine.Valid()
    ensures engine.Tables() == ChainAfter(old(engine.Tables()), old(SessionOf(thd)), a)
    ensures SessionOf(thd) == SessionAfter(engine.adapters.Keys, old(SessionOf(thd)), a)
    ensures thd.txn == old(thd.txn) || thd.txn == null
  {
    ghost var chain, x := engine.Tables(), SessionOf(thd);
    rc := engine.BcCommit(thd, all, net);
    CommitIsStep(chain, engine.Tables(), engine.adapters.Keys, x, SessionOf(thd), a);
  }

  /** It leaves the other connections alone. */
  method CommitAlone(engine: StorageEngine, thd: Thd, all: bool, net: Conditions, ghost a: Action,
                     ghost others: set<Thd>) returns (rc: int)
    requires thd !in others && engine.Valid() && LogFits(thd.Model().statements) && a == Action.Commit(a.s, all, net)
    modifies thd`txn, engine.Adapters(), engine.Nodes(), engine.Contracts()
    ensures engine.Valid()
    ensures engine.Tables() == ChainAfter(old(engine.Tables()), old(SessionOf(thd)), a)
    ensures SessionOf(thd) == SessionAfter(engine.adapters.Keys, old(SessionOf(thd)), a)
    ensures thd.txn == old(thd.txn) || thd.txn == null
    ensures forall other {:trigger Kept(other)} :: other in others ==> Kept(other)
  {
    rc := CommitOf(engine, thd, all, net, a);
  }

  lemma {:induction false} CommitIsStep(chain: Chain, chain': Chain, open: set<string>, x: Session, x': Session,
                                        a: Action)
    requires a.Commit? && chain.Keys == open
    requires !Ends(x, a.all) ==> chain' == chain && x' == x
    requires Ends(x, a.all) ==> chain' == CommitEffect(chain, x.txn.value.statements, a.net)
    requires Ends(x, a.all) ==> x' == if AllOpen(open, x.txn.value.statements) then x.(txn := None) else x
    ensures chain' == ChainAfter(chain, x, a) && x' == SessionAfter(open, x, a)
  {
  }

  /** The action that a call of external_lock amounts to. */
  ghost predicate LockMade(chain: Chain, x: Session, s: Id, t: string, unlock: bool, net: Net, a: Action) {
    if unlock then a == Action.Unlock(s)
    else a.Lock? && a.s == s && a.t == t && LockReads(chain, Model(x), t, net, a.loaded)
  }

  /** What a lock loads: nothing when the table is cached already or cannot be read. */
  ghost predicate LockReads(chain: Chain, x: Rows.Txn, t: string, net: Net, loaded: Option<Table>) {
    if t in x.cache then loaded == None
    else
      match loaded
      case Some(content) => Read(chain, t, net, Ok(0), content)
      case None => Read(chain, t, net, Ok(1), map[]) || Read(chain, t, net, Thrown, map[])
  }

  lemma {:induction false} LockedReads(chain: Chain, x: Rows.Txn, y: Rows.Txn, t: string, net: Net, rc: Result<int>)
    returns (loaded: Option<Table>)
    requires t !in x.cache && Locked(chain, t, net, x, y, rc)
    ensures LockReads(chain, x, t, net, loaded)
    ensures y == if loaded.Some? then Rows.Lock(x, t, loaded.value) else x
  {
    var content :| Read(chain, t, net, rc, content) && y == if rc == Ok(0) then Rows.Lock(x, t, content) else x;
    loaded := if rc == Ok(0) then Some(content) else None;
  }

  /** external_lock on one connection: the action it amounts to, and what it read. */
  method LockOf(engine: StorageEngine, thd: Thd, t: string, unlock: bool, net: Net, ghost s: Id)
    returns (rc: Result<int>, ghost a: Action)
    requires engine.Valid()
    modifies thd`txn, thd.txn
    ensures thd.txn == old(thd.txn) || (old(thd.txn) == null && fresh(thd.txn))
    ensures engine.Valid() && engine.Tables() == old(engine.Tables())
    ensures SessionOf(thd) == SessionAfter(engine.adapters.Keys, old(SessionOf(thd)), a)
    ensures LockMade(old(engine.Tables()), old(SessionOf(thd)), s, t, unlock, net, a)
  {
    ghost var x, chain := thd.Model(), engine.Tables();
    rc := engine.ExternalLock(thd, t, unlock, net);
    if unlock {
      a := Action.Unlock(s);
    } else if t in x.cache {
      a := Action.Lock(s, t, None);
    } else {
      ghost var loaded := LockedReads(chain, x, thd.Model(), t, net, rc);
      a := Action.Lock(s, t, loaded);
    }
  }

  /** The server calls row operations on tables that the connection has locked. */
  predicate CanUse(h: HaBlockchain, thd: Thd)
    reads thd, thd.txn
  {
    thd.txn != null && h.table.name in thd.txn.tableCache
  }

  /** The actions that the row operations amount to, by the records handed in. */
  function InsertAction(s: Id, h: HaBlockchain, record: BYTES): Action
    requires SchemaOk(h.table) && |record| == h.table.recLength
  {
    var row := RowOf(h.table, record);
    Action.Row(s, Rows.Insert(h.table.name, KeyOf(h.table, h.hash, row), row))
  }

  function DeleteAction(s: Id, h: HaBlockchain, record: BYTES): Action
    requires SchemaOk(h.table) && |record| == h.table.recLength
  {
    Action.Row(s, Rows.Delete(h.table.name, KeyOf(h.table, h.hash, RowOf(h.table, record))))
  }

  function UpdateAction(s: Id, h: HaBlockchain, oldRecord: BYTES, newRecord: BYTES): Action
    requires SchemaOk(h.table) && |oldRecord| == |newRecord| == h.table.recLength
  {
    var oldRow, newRow := RowOf(h.table, oldRecord), RowOf(h.table, newRecord);
    Action.Row(s, Rows.Update(h.table.name, KeyOf(h.table, h.hash, oldRow), KeyOf(h.table, h.hash, newRow), newRow))
  }

  /** What write_row returns: a key that is cached already is rejected. */
  function InsertCode(x: Rows.Txn, op: Rows.RowOp): Code
    requires op.Insert? && op.t in x.cache
  {
    if op.key in x.cache[op.t] then WrongCommand else Success
  }

  method Buffer(record: BYTES) returns (buf: array<Byte>)
    ensures fresh(buf) && buf.Length == |record| && buf[..] == record
  {
    buf := new Byte[|record|](i requires 0 <= i < |record| => record[i]);
  }

  method Buffers(oldRecord: BYTES, newRecord: BYTES) returns (oldData: array<Byte>, newData: array<Byte>)
    ensures fresh(oldData) && oldData.Length == |oldRecord| && oldData[..] == oldRecord
    ensures fresh(newData) && newData.Length == |newRecord| && newData[..] == newRecord
  {
    oldData := Buffer(oldRecord);
    newData := Buffer(newRecord);
  }

  method InsertOn(h: HaBlockchain, txn: Transactions.Transaction, record: BYTES, ghost s: Id) returns (rc: Code)
    requires SchemaOk(h.table) && |record| == h.table.recLength && h.table.name in txn.tableCache
    modifies txn
    ensures txn.Model() == Rows.Perform(old(txn.Model()), InsertAction(s, h, record).op)
    ensures rc == InsertCode(old(txn.Model()), InsertAction(s, h, record).op)
  {
    var buf := Buffer(record);
    rc := h.WriteRow(buf, txn);
  }

  method InsertOf(engine: StorageEngine, h: HaBlockchain, thd: Thd, record: BYTES, ghost s: Id) returns (rc: Code)
    requires engine.Valid() && SchemaOk(h.table) && |record| == h.table.recLength && CanUse(h, thd)
    modifies thd.txn
    ensures engine.Valid() && engine.Tables() == old(engine.Tables())
    ensures SessionOf(thd) == SessionAfter(engine.adapters.Keys, old(SessionOf(thd)), InsertAction(s, h, record))
    ensures rc == InsertCode(old(thd.Model()), InsertAction(s, h, record).op)
  {
    rc := InsertOn(h, thd.txn, record, s);
  }

  method DeleteOn(h: HaBlockchain, txn: Transactions.Transaction, record: BYTES, ghost s: Id) returns (rc: Code)
    requires SchemaOk(h.table) && |record| == h.table.recLength && h.table.name in txn.tableCache
    modifies txn
    ensures rc == Success && txn.Model() == Rows.Perform(old(txn.Model()), DeleteAction(s, h, record).op)
  {
    var buf := Buffer(record);
    rc := h.DeleteRow(buf, txn);
  }

  method DeleteOf(engine: StorageEngine, h: HaBlockchain, thd: Thd, record: BYTES, ghost s: Id) returns (rc: Code)
    requires engine.Valid() && SchemaOk(h.table) && |record| == h.table.recLength && CanUse(h, thd)
    modifies thd.txn
    ensures engine.Valid() && engine.Tables() == old(engine.Tables())
    ensures SessionOf(thd) == SessionAfter(engine.adapters.Keys, old(SessionOf(thd)), DeleteAction(s, h, record))
    ensures rc == Success
  {
    rc := DeleteOn(h, thd.txn, record, s);
  }

  method UpdateOn(h: HaBlockchain, txn: Transactions.Transaction, oldRecord: BYTES, newRecord: BYTES, ghost s: Id)
    returns (rc: Code)
    requires SchemaOk(h.table) && |oldRecord| == |newRecord| == h.table.recLength && h.table.name in txn.tableCache
    modifies txn
    ensures rc == Success && txn.Model() == Rows.Perform(old(txn.Model()), UpdateAction(s, h, oldRecord, newRecord).op)
  {
    var oldData, newData := Buffers(oldRecord, newRecord);
    rc := h.UpdateRow(oldData, newData, txn);
  }

  method UpdateOf(engine: StorageEngine, h: HaBlockchain, thd: Thd, oldRecord: BYTES, newRecord: BYTES, ghost s: Id)
    returns (rc: Code)
    requires engine.Valid() && SchemaOk(h.table) && |oldRecord| == |newRecord| == h.table.recLength && CanUse(h, thd)
    modifies thd.txn
    ensures engine.Valid() && engine.Tables() == old(engine.Tables())
    ensures SessionOf(thd) ==
      SessionAfter(engine.adapters.Keys, old(SessionOf(thd)), UpdateAction(s, h, oldRecord, newRecord))
    ensures rc == Success
  {
    rc := UpdateOn(h, thd.txn, oldRecord, newRecord, s);
  }

  lemma {:induction false} UnlockedRowChangesNothing(w: World, a: Action)
    requires a.Row? && a.s in w.sessions && a.op.t !in Model(w.sessions[a.s]).cache
    ensures Step(w, a) == w
  {
  }

  class Server {
    const engine: StorageEngine
    const thds: map<Id, Thd>

    constructor (engine: StorageEngine, thds: map<Id, Thd>)
      ensures this.engine == engine && this.thds == thds
    {
      this.engine := engine;
      this.thds := thds;
    }

    ghost function Thds(): set<object> {
      set s | s in thds :: thds[s]
    }

    ghost function Txns(): set<Transactions.Transaction?>
      reads Thds()
    {
      set s | s in thds :: thds[s].txn
    }

    /** Connections and their transactions are not shared. */
    ghost predicate Apart()
      reads Thds()
    {
      forall s, u {:trigger ApartAt(thds[s], thds[u])} :: s in thds && u in thds && s != u ==> ApartAt(thds[s], thds[u])
    }

    ghost predicate Valid()
      reads Thds(), engine.Adapters(), engine.Contracts()
    {
      engine.Valid() && Apart()
    }

    ghost function Connections(): map<Id, Session>
      reads Thds(), Txns()
    {
      map s | s in thds :: SessionOf(thds[s])
    }

    ghost function WorldNow(): World
      reads Thds(), Txns(), engine.Contracts()
    {
      World(engine.Tables(), Connections())
    }

    /** Apart from connection s all have the transaction that they had, as it was. */
    twostate predicate OnlyAt(s: Id)
      reads Thds(), Txns()
    {
      forall u {:trigger Kept(thds[u])} :: u in thds && u != s ==> Kept(thds[u])
    }

    /** A connection's transaction object is not taken over from another one. */
    twostate lemma StillApart(s: Id)
      requires s in thds && old(Apart()) && OnlyAt(s)
      requires thds[s].txn == old(thds[s].txn) || thds[s].txn == null || fresh(thds[s].txn)
      ensures Apart()
    {
      forall u, v | u in thds && v in thds && u != v ensures ApartAt(thds[u], thds[v]) {
        assert old(ApartAt(thds[u], thds[v]));
        assert u != s ==> Kept(thds[u]);
        assert v != s ==> Kept(thds[v]);
      }
    }

    twostate lemma Moved(a: Action)
      requires a.s in thds && OnlyAt(a.s)
      requires engine.Tables() == ChainAfter(old(engine.Tables()), old(SessionOf(thds[a.s])), a)
      requires SessionOf(thds[a.s]) == SessionAfter(engine.adapters.Keys, old(SessionOf(thds[a.s])), a)
      ensures WorldNow() == Step(old(WorldNow()), a)
    {
      var before, after := old(WorldNow()), WorldNow();
      assert before.chain.Keys == engine.adapters.Keys;
      forall u | u in before.sessions && u != a.s ensures after.sessions[u] == before.sessions[u] {
        assert Kept(thds[u]);
      }
      Stepped(before, after, a);
    }

    /** The server sets or clears OPTION_BEGIN or OPTION_NOT_AUTOCOMMIT. */
    method SetOption(s: Id, inTransaction: bool)
      requires Valid() && s in thds
      modifies thds[s]
      ensures Valid() && WorldNow() == Step(old(WorldNow()), Action.SetOption(s, inTransaction))
      ensures thds[s].txn == old(thds[s].txn) && thds[s].inTransaction == inTransaction
    {
      SetOptionOf(engine, thds[s], inTransaction, s);
      forall u | u in thds && u != s ensures Kept(thds[u]) {
        assert old(ApartAt(thds[s], thds[u]));
      }
      StillApart(s);
      Moved(Action.SetOption(s, inTransaction));
    }

    method Rollback(s: Id, all: bool) returns (rc: int)
      requires Valid() && s in thds
      modifies thds[s]
      ensures Valid() && rc == 0 && WorldNow() == Step(old(WorldNow()), Action.Rollback(s, all))
      ensures thds[s].txn == old(thds[s].txn) || thds[s].txn == null
    {
      rc := RollbackOf(engine, thds[s], all, s);
      forall u | u in thds && u != s ensures Kept(thds[u]) {
        assert old(ApartAt(thds[s], thds[u]));
      }
      StillApart(s);
      Moved(Action.Rollback(s, all));
    }

    method Commit(s: Id, all: bool, net: Conditions) returns (rc: int)
      requires Valid() && s in thds && LogFits(thds[s].Model().statements)
      modifies thds[s], engine.Adapters(), engine.Nodes(), engine.Contracts()
      ensures Valid() && WorldNow() == Step(old(WorldNow()), Action.Commit(s, all, net))
      ensures thds[s].txn == old(thds[s].txn) || thds[s].txn == null
    {
      ghost var a := Action.Commit(s, all, net);
      ghost var others := set u | u in thds && u != s :: thds[u];
      forall u | u in thds && u != s ensures thds[u] != thds[s] {
        assert ApartAt(thds[s], thds[u]);
      }
      rc := CommitAlone(engine, thds[s], all, net, a, others);
      StillApart(s);
      Moved(a);
    }

    method LockTable(s: Id, t: string, unlock: bool, net: Net) returns (rc: Result<int>, ghost a: Action)
      requires Valid() && s in thds
      modifies thds[s], thds[s].txn
      ensures Valid() && WorldNow() == Step(old(WorldNow()), a)
      ensures thds[s].txn == old(thds[s].txn) || fresh(thds[s].txn)
      ensures LockMade(old(WorldNow()).chain, old(WorldNow()).sessions[s], s, t, unlock, net, a)
    {
      rc, a := LockOf(engine, thds[s], t, unlock, net, s);
      forall u | u in thds && u != s ensures Kept(thds[u]) {
        assert old(ApartAt(thds[s], thds[u]));
      }
      StillApart(s);
      Moved(a);
    }

    /** The row operations, each on buffers that hold the records. */
    method Insert(s: Id, h: HaBlockchain, record: BYTES) returns (rc: Code)
      requires Valid() && s in thds && SchemaOk(h.table) && |record| == h.table.recLength
      requires CanUse(h, thds[s])
      modifies thds[s].txn
      ensures Valid() && WorldNow() == Step(old(WorldNow()), InsertAction(s, h, record))
      ensures rc == InsertCode(Model(old(WorldNow()).sessions[s]), InsertAction(s, h, record).op)
    {
      rc := InsertOf(engine, h, thds[s], record, s);
      forall u | u in thds && u != s ensures Kept(thds[u]) {
        assert old(ApartAt(thds[s], thds[u]));
      }
      StillApart(s);
      Moved(InsertAction(s, h, record));
    }

    method Delete(s: Id, h: HaBlockchain, record: BYTES) returns (rc: Code)
      requires Valid() && s in thds && SchemaOk(h.table) && |record| == h.table.recLength
      requires CanUse(h, thds[s])
      modifies thds[s].txn
      ensures rc == Success && Valid() && WorldNow() == Step(old(WorldNow()), DeleteAction(s, h, record))
    {
      rc := DeleteOf(engine, h, thds[s], record, s);
      forall u | u in thds && u != s ensures Kept(thds[u]) {
        assert old(ApartAt(thds[s], thds[u]));
      }
      StillApart(s);
      Moved(DeleteAction(s, h, record));
    }

    method Update(s: Id, h: HaBlockchain, oldRecord: BYTES, newRecord: BYTES) returns (rc: Code)
      requires Valid() && s in thds && SchemaOk(h.table) && |oldRecord| == |newRecord| == h.table.recLength
      requires CanUse(h, thds[s])
      modifies thds[s].txn
      ensures rc == Success && Valid() && WorldNow() == Step(old(WorldNow()), UpdateAction(s, h, oldRecord, newRecord))
    {
      rc := UpdateOf(engine, h, thds[s], oldRecord, newRecord, s);
      forall u | u in thds && u != s ensures Kept(thds[u]) {
        assert old(ApartAt(thds[s], thds[u]));
      }
      StillApart(s);
      Moved(UpdateAction(s, h, oldRecord, newRecord));
    }

    predicate RequestOk(r: Request) {
      r.s in thds && RecordsOk(r)
    }

    /** One call of the server; a row operation on a table that is not locked is not made. */
    method Handle(r: Request, ghost n: nat) returns (ghost a: Action)
      requires Valid() && RequestOk(r) && WorldFits(WorldNow(), n) && n <= INT_MAX
      modifies thds[r.s], thds[r.s].txn, engine.Adapters(), engine.Nodes(), engine.Contracts()
      ensures Valid() && WorldNow() == Step(old(WorldNow()), a) && Made(r, old(WorldNow()), a)
      ensures thds[r.s].txn == old(thds[r.s].txn) || thds[r.s].txn == null || fresh(thds[r.s].txn)
    {
      var s := r.s;
      match r {
        case OptionSet(_, b) =>
          SetOption(s, b);
          a := Action.SetOption(s, b);
        case TableLocked(_, t, unlock, net) =>
          var rc;
          rc, a := LockTable(s, t, unlock, net);
        case Committed(_, _, _) =>
          a := HandleEnd(r, n);
        case RolledBack(_, _) =>
          a := HandleEnd(r, n);
        case _ =>
          a := HandleRow(r);
      }
    }

    method HandleEnd(r: Request, ghost n: nat) returns (ghost a: Action)
      requires Valid() && RequestOk(r) && WorldFits(WorldNow(), n) && n <= INT_MAX && (r.Committed? || r.RolledBack?)
      modifies thds[r.s], engine.Adapters(), engine.Nodes(), engine.Contracts()
      ensures Valid() && WorldNow() == Step(old(WorldNow()), a) && Made(r, old(WorldNow()), a)
      ensures thds[r.s].txn == old(thds[r.s].txn) || thds[r.s].txn == null
    {
      match r {
        case Committed(s, all, net) =>
          assert SessionFits(WorldNow().sessions[s], n);
          var rc := Commit(s, all, net);
          a := Action.Commit(s, all, net);
        case RolledBack(s, all) =>
          var rc := Rollback(s, all);
          a := Action.Rollback(s, all);
      }
    }

    method HandleRow(r: Request) returns (ghost a: Action)
      requires Valid() && RequestOk(r) && RowRequest(r)
      modifies thds[r.s].txn
      ensures Valid() && WorldNow() == Step(old(WorldNow()), a) && a == Asked(r)
    {
      a := Asked(r);
      if CanUse(r.h, thds[r.s]) {
        match r {
          case RowInserted(s, h, record) => var _ := Insert(s, h, record);
          case RowDeleted(s, h, record) => var _ := Delete(s, h, record);
          case RowUpdated(s, h, oldRecord, newRecord) => var _ := Update(s, h, oldRecord, newRecord);
        }
      } else {
        UnlockedRowChangesNothing(WorldNow(), a);
      }
    }

    ghost predicate RequestsOk(requests: seq<Request>) {
      forall i {:trigger RequestOk(requests[i])} :: 0 <= i < |requests| ==> RequestOk(requests[i])
    }

    lemma RestOk(requests: seq<Request>)
      requires requests != [] && RequestsOk(requests)
      ensures RequestOk(requests[0]) && RequestsOk(requests[1..])
    {
      forall i | 0 <= i < |requests| - 1 ensures RequestOk(requests[1..][i]) {
        assert RequestOk(requests[i + 1]);
      }
    }

    method ServeOne(r: Request, ghost n: nat) returns (ghost a: Action)
      requires Valid() && RequestOk(r) && WorldFits(WorldNow(), n) && n <= INT_MAX
      modifies thds[r.s], thds[r.s].txn, engine.Adapters(), engine.Nodes(), engine.Contracts()
      ensures Valid() && WorldNow() == Step(old(WorldNow()), a) && WorldFits(WorldNow(), n + 2)
      ensures Made(r, old(WorldNow()), a)
      ensures forall x: Transactions.Transaction :: x in Txns() && x !in old(Txns()) ==> fresh(x)
    {
      ghost var w := WorldNow();
      a := Handle(r, n);
      MadeFits(r, w, a, n);
      forall u | u in thds && u != r.s ensures thds[u].txn == old(thds[u].txn) {
        assert old(ApartAt(thds[r.s], thds[u]));
      }
      OnlyNewTxn(r.s);
    }

    twostate lemma OnlyNewTxn(s: Id)
      requires s in thds && (thds[s].txn == old(thds[s].txn) || thds[s].txn == null || fresh(thds[s].txn))
      requires forall u :: u in thds && u != s ==> thds[u].txn == old(thds[u].txn)
      ensures forall x: Transactions.Transaction :: x in Txns() && x !in old(Txns()) ==> fresh(x)
    {
    }

    /** Any sequence of calls, over any connections, is a run of the session model in which each call is the
        action that it asks for. */
    method Serve(requests: seq<Request>, ghost n: nat) returns (ghost actions: seq<Action>)
      requires Valid() && RequestsOk(requests)
      requires WorldFits(WorldNow(), n) && n + 2 * |requests| <= INT_MAX
      modifies Thds(), Txns(), engine.Adapters(), engine.Nodes(), engine.Contracts()
      ensures Valid() && WorldNow() == Run(old(WorldNow()), actions) && AllMade(requests, old(WorldNow()), actions)
      decreases |requests|
    {
      actions := [];
      if requests != [] {
        ghost var w := WorldNow();
        RestOk(requests);
        ghost var a := ServeOne(requests[0], n);
        ghost var rest := Serve(requests[1..], n + 2);
        MadeFirst(requests, w, a, rest);
        actions := [a] + rest;
      }
    }

    /** From connections without transactions: whatever is called, the contracts hold the effect of the logs
        that were committed, in commit order, and every cache is its log replayed over what was locked. */
    method History(requests: seq<Request>) returns (ghost actions: seq<Action>)
      requires Valid() && RequestsOk(requests)
      requires (forall s :: s in thds ==> thds[s].txn == null) && 2 * |requests| <= INT_MAX
      modifies Thds(), Txns(), engine.Adapters(), engine.Nodes(), engine.Contracts()
      ensures Valid() && WorldNow() == Run(old(WorldNow()), actions) && AllMade(requests, old(WorldNow()), actions)
      ensures engine.Tables() ==
        CommitEntries(old(engine.Tables()), Entries(engine.adapters.Keys, old(WorldNow()).sessions, actions))
      ensures AllCoherent(WorldNow())
    {
      ghost var w := WorldNow();
      IdleFits(w);
      actions := Serve(requests, 0);
      HistoryOf(w, WorldNow(), engine.adapters.Keys, actions);
    }
  }

  lemma {:induction false} MadeFirst(requests: seq<Request>, w: World, a: Action, rest: seq<Action>)
    requires requests != [] && Made(requests[0], w, a) && AllMade(requests[1..], Step(w, a), rest)
    ensures AllMade(requests, w, [a] + rest) && Run(w, [a] + rest) == Run(Step(w, a), rest)
  {
    RunFirst(w, a, rest);
    forall i | 0 <= i < |requests| ensures MadeAt(requests, w, [a] + rest, i) {
      if i > 0 {
        assert MadeAt(requests[1..], Step(w, a), rest, i - 1);
        assert ([a] + rest)[..i] == [a] + rest[..i - 1];
        RunFirst(w, a, rest[..i - 1]);
      }
    }
  }

  lemma {:induction false} RunFirst(w: World, a: Action, rest: seq<Action>)
    ensures Run(w, [a] + rest) == Run(Step(w, a), rest)
  {
    RunJoin(w, [a], rest);
    assert [a][..0] == [] && Run(w, [a]) == Step(w, a);
  }

  lemma {:induction false} HistoryOf(w: World, end: World, open: set<string>, actions: seq<Action>)
    requires AllCoherent(w) && w.chain.Keys == open && end == Run(w, actions)
    ensures end.chain == CommitEntries(w.chain, Entries(open, w.sessions, actions)) && AllCoherent(end)
  {
    ChainIsCommittedLogs(w, actions);
    RunKeepsCoherence(w, actions);
  }

  lemma {:induction false} IdleFits(w: World)
    requires forall s :: s in w.sessions ==> w.sessions[s].txn == None
    ensures WorldFits(w, 0) && AllCoherent(w)
  {
  }

  // ---------------------------------------------------------------- rows

  /** Rows under one of the given keys of their table, separator-safe, and in one table as its handler writes
      them. */
  function RowOk(s: Schema, hash: Hash, keys: string -> set<BYTES>): RowTest
    requires SchemaOk(s)
  {
    (t, k, row) => k in keys(t) && SeparatorSafe(row) && (t == s.name ==> WellStoredAt(s, hash, k, row))
  }

  lemma {:induction false} RowsOkThen(s: Schema, hash: Hash, keys: string -> set<BYTES>, t: string, tab: Table)
    requires SchemaOk(s) && AllRows(RowOk(s, hash, keys), t, tab)
    ensures TableSafe(tab) && |tab| <= |keys(t)|
    ensures t == s.name ==> WellStored(s, hash, tab)
  {
    forall k | k in tab
      ensures k in keys(t) && SeparatorSafe(tab[k]) && (t == s.name ==> WellStoredAt(s, hash, k, tab[k]))
    {
      assert RowOk(s, hash, keys)(t, k, tab[k]);
    }
    SubsetSize(tab.Keys, keys(t));
    assert |tab.Keys| == |tab|;
  }

  /** What is asked of a call: one handler a table, keys among the given ones, and rows that survive a scan. */
  ghost predicate Tame(s: Schema, hash: Hash, keys: string -> set<BYTES>, r: Request)
    requires SchemaOk(s) && RecordsOk(r)
  {
    RowRequest(r) ==>
      && (r.h.table.name == s.name ==> r.h.table == s && r.h.hash == hash)
      && match Asked(r).op
         case Insert(t, key, row) => key in keys(t) && SeparatorSafe(row)
         case Update(t, _, key, row) => key in keys(t) && SeparatorSafe(row)
         case Delete(_, _) => true
  }

  /** Only rows of that kind come in: from the server, or by a lock that reads them from the chain. */
  lemma {:induction false} MadeBringsRows(s: Schema, hash: Hash, keys: string -> set<BYTES>, r: Request, w: World,
                                          a: Action)
    requires SchemaOk(s) && WorldRows(RowOk(s, hash, keys), w) && Made(r, w, a) && Tame(s, hash, keys, r)
    requires forall t :: |keys(t)| <= INT_MAX
    ensures ActionRows(RowOk(s, hash, keys), a)
  {
    if a.Lock? && a.loaded.Some? && a.t in w.chain {
      LockBringsRows(s, hash, keys, w, a.t, r.net, a.loaded.value);
    }
  }

  lemma {:induction false} LockBringsRows(s: Schema, hash: Hash, keys: string -> set<BYTES>, w: World, t: string,
                                          net: Net, content: Table)
    requires SchemaOk(s) && WorldRows(RowOk(s, hash, keys), w) && t in w.chain && |keys(t)| <= INT_MAX
    requires Read(w.chain, t, net, Ok(0), content)
    ensures AllRows(RowOk(s, hash, keys), t, content)
  {
    assert AllRows(RowOk(s, hash, keys), t, w.chain[t]);
    RowsOkThen(s, hash, keys, t, w.chain[t]);
    if net.answered {
      ReadIff(w.chain, t, net, Ok(0), content);
    }
  }

  /** After every sequence of calls, over commits, failures and reloads: if all rows were of that kind and the
      rows written are, they still are, on chain and in every cache. */
  lemma {:induction false} RowsStayOk(s: Schema, hash: Hash, keys: string -> set<BYTES>, requests: seq<Request>,
                                      w: World, actions: seq<Action>)
    requires SchemaOk(s) && WorldRows(RowOk(s, hash, keys), w) && AllMade(requests, w, actions)
    requires (forall t :: |keys(t)| <= INT_MAX) && forall r :: r in requests ==> RecordsOk(r) && Tame(s, hash, keys, r)
    ensures WorldRows(RowOk(s, hash, keys), Run(w, actions))
  {
    if actions != [] {
      var n := |actions| - 1;
      MadeInit(requests, w, actions);
      RowsStayOk(s, hash, keys, requests[..n], w, actions[..n]);
      MadeBringsRows(s, hash, keys, requests[n], Run(w, actions[..n]), actions[n]);
      StepKeepsRows(RowOk(s, hash, keys), Run(w, actions[..n]), actions[n]);
    }
  }

  /** In every cache the table's rows then have its row length and are filed under their own keys. */
  lemma {:induction false} CachesStayOk(s: Schema, hash: Hash, keys: string -> set<BYTES>, w: World, u: Id)
    requires SchemaOk(s) && WorldRows(RowOk(s, hash, keys), w) && u in w.sessions
    ensures CachedOk(s, hash, w.sessions[u])
  {
    var x := Model(w.sessions[u]);
    assert TxnRows(RowOk(s, hash, keys), x);
    if s.name in x.cache {
      assert AllRows(RowOk(s, hash, keys), s.name, x.cache[s.name]);
      RowsOkThen(s, hash, keys, s.name, x.cache[s.name]);
    }
  }

  lemma {:induction false} MadeInit(requests: seq<Request>, w: World, actions: seq<Action>)
    requires AllMade(requests, w, actions) && requests != []
    ensures var n := |requests| - 1;
      AllMade(requests[..n], w, actions[..n]) && Made(requests[n], Run(w, actions[..n]), actions[n])
  {
    var n := |requests| - 1;
    forall i | 0 <= i < n ensures MadeAt(requests[..n], w, actions[..n], i) {
      assert MadeAt(requests, w, actions, i);
      assert actions[..n][..i] == actions[..i];
    }
    assert MadeAt(requests, w, actions, n);
  }

  lemma {:induction false} MadeAppend(requests: seq<Request>, w: World, actions: seq<Action>, r: Request, a: Action)
    requires AllMade(requests, w, actions) && Made(r, Run(w, actions), a)
    ensures AllMade(requests + [r], w, actions + [a])
  {
    var n := |requests|;
    forall i | 0 <= i < n + 1 ensures MadeAt(requests + [r], w, actions + [a], i) {
      if i < n {
        assert MadeAt(requests, w, actions, i);
        assert (actions + [a])[..i] == actions[..i];
      } else {
        assert (actions + [a])[..n] == actions;
      }
    }
  }

  /** Every cached row of the table fills a record exactly and is filed under its own key. */
  ghost predicate CachedOk(s: Schema, hash: Hash, x: Session)
    requires SchemaOk(s)
  {
    s.name in Model(x).cache ==> WellStored(s, hash, Model(x).cache[s.name])
  }

  // ---------------------------------------------------------------- calls that leave no trace

  /** The calls of all connections but s. */
  function CallsWithout(requests: seq<Request>, s: Id): seq<Request> {
    if requests == [] then []
    else
      var rest, r := CallsWithout(requests[..|requests| - 1], s), requests[|requests| - 1];
      if r.s == s then rest else rest + [r]
  }

  lemma MadeBy(r: Request, w: World, a: Action)
    requires Made(r, w, a)
    ensures a.s == r.s
  {
  }

  /** What a call of another connection amounts to does not depend on s. */
  lemma {:induction false} MadeAside(r: Request, v: World, w: World, a: Action, s: Id)
    requires r.s != s && v.chain == w.chain && v.sessions - {s} == w.sessions - {s} && Made(r, v, a)
    ensures Made(r, w, a)
  {
    if r.TableLocked? {
      assert r.s in v.sessions - {s} && (v.sessions - {s})[r.s] == v.sessions[r.s];
      assert r.s in w.sessions - {s} && (w.sessions - {s})[r.s] == w.sessions[r.s];
    }
  }

  /** As long as no commit of s takes effect: without its calls, each other call amounts to the same, its locks
      reading the same included, and all others and the chain end the same. */
  lemma {:induction false} UncommittedCallsAreInvisible(requests: seq<Request>, w: World, actions: seq<Action>, s: Id)
    requires AllMade(requests, w, actions) && s in w.sessions && NeverCommits(w.chain.Keys, w.sessions[s], actions, s)
    ensures AllMade(CallsWithout(requests, s), w, Without(actions, s))
    ensures Run(w, actions).chain == Run(w, Without(actions, s)).chain
    ensures Run(w, actions).sessions - {s} == Run(w, Without(actions, s)).sessions - {s}
  {
    UncommittedIsInvisible(w, actions, s);
    if requests != [] {
      var n := |requests| - 1;
      var before, a := actions[..n], actions[n];
      MadeInit(requests, w, actions);
      MadeBy(requests[n], Run(w, before), a);
      NeverCommitsBefore(w.chain.Keys, w.sessions[s], actions, s);
      UncommittedCallsAreInvisible(requests[..n], w, before, s);
      if a.s != s {
        MadeAside(requests[n], Run(w, before), Run(w, Without(before, s)), a, s);
        MadeAppend(CallsWithout(requests[..n], s), w, Without(before, s), requests[n], a);
      }
    }
  }

  /** A call of bc_rollback that takes effect: the connection's calls before it have left no trace but the
      option that the server has set. */
  lemma {:induction false} RolledBackCallsLeaveNoTrace(requests: seq<Request>, w: World, actions: seq<Action>, s: Id,
                                                       all: bool)
    requires AllMade(requests, w, actions) && s in w.sessions && NeverCommits(w.chain.Keys, w.sessions[s], actions, s)
    requires s in Run(w, actions).sessions && (all || !Run(w, actions).sessions[s].inTransaction)
    ensures AllMade(requests + [RolledBack(s, all)], w, actions + [Rollback(s, all)])
    ensures AllMade(CallsWithout(requests, s), w, Without(actions, s))
    ensures var now, v := Run(w, actions), Run(w, Without(actions, s));
      Run(w, actions + [Rollback(s, all)]) ==
        World(v.chain, v.sessions[s := Session(now.sessions[s].inTransaction, None)])
  {
    UncommittedCallsAreInvisible(requests, w, actions, s);
    MadeAppend(requests, w, actions, RolledBack(s, all), Rollback(s, all));
    RollbackLeavesNoTrace(w, actions, s, all);
  }

  // ---------------------------------------------------------------- requests

  /** The calls of the server, for connection s, with the records it hands in. */
  datatype Request =
    | OptionSet(s: Id, inTransaction: bool)
    | TableLocked(s: Id, t: string, unlock: bool, net: Net)
    | RowInserted(s: Id, h: HaBlockchain, record: BYTES)
    | RowDeleted(s: Id, h: HaBlockchain, record: BYTES)
    | RowUpdated(s: Id, h: HaBlockchain, oldRecord: BYTES, newRecord: BYTES)
    | Committed(s: Id, all: bool, conditions: Conditions)
    | RolledBack(s: Id, all: bool)

  predicate RowRequest(r: Request) {
    r.RowInserted? || r.RowDeleted? || r.RowUpdated?
  }

  /** Records have the length that their table says. */
  predicate RecordsOk(r: Request) {
    match r
    case RowInserted(_, h, record) => TableOk(h) && |record| == h.table.recLength
    case RowDeleted(_, h, record) => TableOk(h) && |record| == h.table.recLength
    case RowUpdated(_, h, oldRecord, newRecord) => TableOk(h) && |oldRecord| == |newRecord| == h.table.recLength
    case _ => true
  }

  predicate TableOk(h: HaBlockchain) {
    SchemaOk(h.table) && h.table.recLength < TWO32
  }

  /** The row operation that a request asks for. */
  function Asked(r: Request): Action
    requires RowRequest(r) && RecordsOk(r)
  {
    match r
    case RowInserted(s, h, record) => InsertAction(s, h, record)
    case RowDeleted(s, h, record) => DeleteAction(s, h, record)
    case RowUpdated(s, h, oldRecord, newRecord) => UpdateAction(s, h, oldRecord, newRecord)
  }

  /** The action that a call amounts to in a world: what it asks for, with what a lock reads there. */
  ghost predicate Made(r: Request, w: World, a: Action) {
    && RecordsOk(r)
    && match r
       case OptionSet(s, b) => a == Action.SetOption(s, b)
       case TableLocked(s, t, unlock, net) => s in w.sessions && LockMade(w.chain, w.sessions[s], s, t, unlock, net, a)
       case Committed(s, all, net) => a == Action.Commit(s, all, net)
       case RolledBack(s, all) => a == Action.Rollback(s, all)
       case _ => a == Asked(r)
  }

  ghost predicate MadeAt(requests: seq<Request>, w: World, actions: seq<Action>, i: nat)
    requires i < |requests| && i < |actions|
  {
    Made(requests[i], Run(w, actions[..i]), actions[i])
  }

  /** The run from w in which each action is what the call at its place amounts to in the world it meets. */
  ghost predicate AllMade(requests: seq<Request>, w: World, actions: seq<Action>) {
    && |actions| == |requests|
    && forall i {:trigger MadeAt(requests, w, actions, i)} :: 0 <= i < |requests| ==> MadeAt(requests, w, actions, i)
  }

  lemma {:induction false} MadeFits(r: Request, w: World, a: Action, n: nat)
    requires Made(r, w, a) && WorldFits(w, n)
    ensures WorldFits(Step(w, a), n + 2)
  {
    StepKeepsFit(w, a, n);
  }

  ghost predicate ApartAt(a: Thd, b: Thd)
    reads a, b
  {
    a != b && (a.txn != null ==> a.txn != b.txn)
  }

  twostate predicate Kept(thd: Thd)
    reads thd, thd.txn
  {
    thd.txn == old(thd.txn) && SessionOf(thd) == old(SessionOf(thd))
  }
}
