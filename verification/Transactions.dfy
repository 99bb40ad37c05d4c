/** The in-memory transaction of a connection (transaction.h, transaction.cc). */
module Transactions {
  import opened Bytes
  import opened Statements
  import Rows

  class Transaction {
    var statements: Log
    var tableCache: Rows.Cache
    var lockCount: nat
    ghost var snapshot: Rows.Cache

    constructor ()
      ensures Model() == Rows.EMPTY_TXN && lockCount == 0
    {
      statements := [];
      tableCache := map[];
      lockCount := 0;
      snapshot := map[];
    }

    ghost function Model(): Rows.Txn
      reads this
    {
      Rows.Txn(statements, tableCache, snapshot)
    }

    /** emplace: a table that is already cached stays as it is. */
    method AddTable(tablename: string, tableMap: Table) returns (rc: int)
      modifies this`tableCache, this`snapshot
      ensures rc == if tablename in old(tableCache) then 1 else 0
      ensures Model() == Rows.Lock(old(Model()), tablename, tableMap)
      ensures tableCache ==
        if tablename in old(tableCache) then old(tableCache) else old(tableCache)[tablename := tableMap]
    {
      if tablename in tableCache {
        return 1;
      }
      tableCache := tableCache[tablename := tableMap];
      snapshot := snapshot[tablename := tableMap];
      return 0;
    }

    method AddWrite(tablename: string, key: BYTES, value: BYTES) returns (rc: int)
      modifies this`statements
      ensures rc == if tablename == "" || key == [] then 1 else 0
      ensures statements == if rc == 0 then old(statements) + [Write(tablename, key, value)] else old(statements)
    {
      if tablename == "" || |key| == 0 {
        return 1;
      }
      statements := statements + [Write(tablename, key, value)];
      return 0;
    }

    method AddRemove(tablename: string, key: BYTES) returns (rc: int)
      modifies this`statements
      ensures rc == if tablename == "" || key == [] then 1 else 0
      ensures statements == if rc == 0 then old(statements) + [Remove(tablename, key)] else old(statements)
    {
      if tablename == "" || |key| == 0 {
        return 1;
      }
      statements := statements + [Remove(tablename, key)];
      return 0;
    }
  }
}
