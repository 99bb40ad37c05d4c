/** The handler of an open table: row operations, key lookups and table scans on the transaction's cache
    (ha_blockchain.cc, ha_blockchain.h). */
module Handler {
  import opened Bytes
  import opened Hex
  import opened Network
  import opened KeyImage
  import opened Records
  import opened Transactions
  import Rows
  import RowTests
  import opened Statements

  /** 0, HA_ERR_WRONG_COMMAND, HA_ERR_END_OF_FILE, and an exception that leaves the method. */
  datatype Code = Success | WrongCommand | EndOfFile | Escaped

  const BEFORE_FIRST: uint64 := 0xffff_ffff_ffff_ffff

  // ---------------------------------------------------------------- the scan cursor

  /** all_items and current_position. */
  datatype Cursor = Cursor(items: seq<(BYTES, BYTES)>, position: uint64)

  /** rows are the table's rows, each once, under the ascending keys. */
  ghost predicate Lists(rows: seq<(BYTES, BYTES)>, keys: seq<BYTES>, tab: Table) {
    && Ascending(keys, tab.Keys) && |rows| == |keys|
    && forall i {:trigger rows[i]} :: 0 <= i < |rows| ==> keys[i] in tab && rows[i] == (keys[i], tab[keys[i]])
  }

  function Opened(c: Cursor, rows: seq<(BYTES, BYTES)>): Cursor {
    Cursor(c.items + rows, BEFORE_FIRST)
  }

  function Advanced(c: Cursor): Cursor {
    c.(position := (c.position + 1) % TWO64)
  }

  function Current(c: Cursor): Option<BYTES> {
    if c.position < |c.items| then Some(c.items[c.position].1) else None
  }

  class HaBlockchain {
    const table: Schema
    const hash: Hash
    var currentPosition: uint64
    var allItems: seq<(BYTES, BYTES)>
    var ref: BYTES

    constructor (table: Schema, hash: Hash)
      requires SchemaOk(table)
      ensures this.table == table && this.hash == hash && Scan().items == []
    {
      this.table := table;
      this.hash := hash;
      currentPosition := 0;
      allItems := [];
      ref := [];
    }

    ghost function Scan(): Cursor
      reads this
    {
      Cursor(allItems, currentPosition)
    }

    /** Every buffered row fits the record buffer. */
    ghost predicate ItemsFit()
      requires SchemaOk(table)
      reads this
    {
      forall i :: 0 <= i < |allItems| ==> |allItems[i].1| <= RowLength(table)
    }

    /** The copies of get_primary_key into its own buffer all stay in bounds, and what is hashed is the
        concatenation of the key columns. */
    method GetPrimaryKey(buf: array<Byte>) returns (key: BYTES)
      requires SchemaOk(table) && buf.Length == table.recLength
      ensures key == KeyOf(table, hash, RowOf(table, buf[..]))
      ensures table.keyParts.None? ==> key == hash(buf[table.nullBytes..table.nullBytes + table.firstLength])
    {
      KeyOfRecord(table, hash, buf[..]);
      if table.keyParts.Some? {
        var image := GatherKey(buf, table.keyParts.value);
        key := hash(image);
      } else {
        key := hash(buf[table.nullBytes..table.nullBytes + table.firstLength]);
      }
    }

    method GatherKey(buf: array<Byte>, parts: seq<KeyPart>) returns (image: BYTES)
      requires buf.Length == table.recLength && PartsFit(table, parts)
      ensures image == Gathered(table, parts, buf[..])
    {
      var keyLength := StoreTotal(ShapesOf(parts));
      var keyAdj := new Byte[8 * keyLength](i => 0);
      GatheredLength(table, parts, buf[..]);
      ghost var rec, all, front := buf[..], Gathered(table, parts, buf[..]), [];
      var initialPos: nat := 0;
      var i := 0;
      assert parts[0..] == parts && keyAdj[..0] == [];
      while i < |parts|
        invariant 0 <= i <= |parts| && initialPos <= keyAdj.Length && buf[..] == rec
        invariant keyAdj[..initialPos] == front && Gathering(table, parts, i, rec, front, all)
      {
        GatherStep(table, parts, i, rec, front, all);
        var pos, size := parts[i].offset, PackLength(parts[i].shape);
        assert buf[pos..pos + size] == Column(table, parts[i], rec);
        CopyBytes(buf, pos, keyAdj, initialPos, size);
        front := front + Column(table, parts[i], rec);
        initialPos := initialPos + size;
        i := i + 1;
      }
      image := keyAdj[..initialPos];
    }

    /** memcpy between two buffers. */
    method CopyBytes(from: array<Byte>, fromPos: nat, to: array<Byte>, toPos: nat, size: nat)
      requires from != to && fromPos + size <= from.Length && toPos + size <= to.Length
      modifies to
      ensures to[..toPos + size] == old(to[..toPos]) + from[fromPos..fromPos + size]
      ensures to[toPos + size..] == old(to[toPos + size..])
    {
      forall i | toPos <= i < toPos + size {
        to[i] := from[fromPos + (i - toPos)];
      }
    }

    // -------------------------------------------------------------- row operations

    /** write_row: rejects a key that the cached table already has. */
    method WriteRow(buf: array<Byte>, txn: Transaction) returns (rc: Code)
      requires SchemaOk(table) && buf.Length == table.recLength
      modifies txn`statements, txn`tableCache
      ensures table.name !in old(txn.tableCache) ==> rc == Escaped && txn.Model() == old(txn.Model())
      ensures table.name in old(txn.tableCache) ==> var row := RowOf(table, buf[..]);
        && txn.Model() == Rows.WriteRow(old(txn.Model()), table.name, KeyOf(table, hash, row), row)
        && rc == if KeyOf(table, hash, row) in old(txn.tableCache[table.name]) then WrongCommand else Success
      ensures rc == WrongCommand ==> txn.statements == old(txn.statements) && txn.tableCache == old(txn.tableCache)
      ensures rc == Success ==> var row := RowOf(table, buf[..]);
        var key, tab := KeyOf(table, hash, row), old(txn.tableCache[table.name]);
        && txn.statements == old(txn.statements) + [Write(table.name, key, row)]
        && txn.tableCache == old(txn.tableCache)[table.name := tab[key := row]]
    {
      var key := GetPrimaryKey(buf);
      var value := buf[table.nullBytes..];
      if table.name !in txn.tableCache {
        return Escaped;
      }
      if key in txn.tableCache[table.name] {
        return WrongCommand;
      }
      var _ := txn.AddWrite(table.name, key, value);
      txn.tableCache := txn.tableCache[table.name := txn.tableCache[table.name][key := value]];
      return Success;
    }

    /** delete_row: the REMOVE is logged before the cached table is looked up, and stays when that throws. */
    method DeleteRow(buf: array<Byte>, txn: Transaction) returns (rc: Code)
      requires SchemaOk(table) && buf.Length == table.recLength
      modifies txn`statements, txn`tableCache
      ensures table.name !in old(txn.tableCache) ==>
        && rc == Escaped && txn.tableCache == old(txn.tableCache)
        && txn.statements == old(txn.statements) + [Remove(table.name, KeyOf(table, hash, RowOf(table, buf[..])))]
      ensures table.name in old(txn.tableCache) ==>
        && rc == Success
        && txn.Model() == Rows.DeleteRow(old(txn.Model()), table.name, KeyOf(table, hash, RowOf(table, buf[..])))
      ensures rc == Success ==> var key := KeyOf(table, hash, RowOf(table, buf[..]));
        && txn.statements == old(txn.statements) + [Remove(table.name, key)]
        && txn.tableCache == old(txn.tableCache)[table.name := old(txn.tableCache[table.name]) - {key}]
    {
      var key := GetPrimaryKey(buf);
      var _ := txn.AddRemove(table.name, key);
      if table.name !in txn.tableCache {
        return Escaped;
      }
      txn.tableCache := txn.tableCache[table.name := txn.tableCache[table.name] - {key}];
      return Success;
    }

    /** update_row: with a new key the old row is deleted and the new one written, the outcome of which is
        not looked at. The server's new record is used as scratch space: with an unchanged key it is left
        holding the old row. */
    method UpdateRow(oldData: array<Byte>, newData: array<Byte>, txn: Transaction) returns (rc: Code)
      requires SchemaOk(table) && oldData.Length == newData.Length == table.recLength
      modifies newData, txn`statements, txn`tableCache
      ensures table.name !in old(txn.tableCache) ==>
        var oldRow, newRow := old(RowOf(table, oldData[..])), old(RowOf(table, newData[..]));
        var oldKey, newKey := KeyOf(table, hash, oldRow), KeyOf(table, hash, newRow);
        && rc == Escaped && txn.tableCache == old(txn.tableCache) && RowOf(table, newData[..]) == oldRow
        && txn.statements == old(txn.statements) +
          [if oldKey == newKey then Write(table.name, newKey, newRow) else Remove(table.name, oldKey)]
      ensures table.name in old(txn.tableCache) ==>
        var oldRow, newRow := old(RowOf(table, oldData[..])), old(RowOf(table, newData[..]));
        var oldKey, newKey := KeyOf(table, hash, oldRow), KeyOf(table, hash, newRow);
        && rc == Success && txn.Model() == Rows.UpdateRow(old(txn.Model()), table.name, oldKey, newKey, newRow)
        && RowOf(table, newData[..]) == if oldKey == newKey then oldRow else newRow
      ensures rc == Success ==>
        var oldKey, newRow := KeyOf(table, hash, old(RowOf(table, oldData[..]))), old(RowOf(table, newData[..]));
        var newKey, tab := KeyOf(table, hash, newRow), old(txn.tableCache[table.name]);
        var rest, w := tab - {oldKey}, Write(table.name, newKey, newRow);
        if oldKey == newKey then
          && txn.statements == old(txn.statements) + [w]
          && txn.tableCache == old(txn.tableCache)[table.name := tab[newKey := newRow]]
        else if newKey in rest then
          && txn.statements == old(txn.statements) + [Remove(table.name, oldKey)]
          && txn.tableCache == old(txn.tableCache)[table.name := rest]
        else
          && txn.statements == old(txn.statements) + [Remove(table.name, oldKey), w]
          && txn.tableCache == old(txn.tableCache)[table.name := rest[newKey := newRow]]
    {
      if table.name in txn.tableCache {
        ghost var row := RowOf(table, newData[..]);
        Rows.UpdateIs(txn.Model(), table.name, KeyOf(table, hash, RowOf(table, oldData[..])),
          KeyOf(table, hash, row), row);
      }
      var keyNew := GetPrimaryKey(newData);
      var newValue, value := newData[table.nullBytes..], oldData[table.nullBytes..];
      FillRow(newData, value);
      var keyOld := GetPrimaryKey(newData);
      if keyOld != keyNew {
        var deleted := DeleteRow(newData, txn);
        if deleted == Escaped {
          return Escaped;
        }
        FillRow(newData, newValue);
        var _ := WriteRow(newData, txn);
        return Success;
      }
      var _ := txn.AddWrite(table.name, keyNew, newValue);
      if table.name !in txn.tableCache {
        return Escaped;
      }
      txn.tableCache := txn.tableCache[table.name := txn.tableCache[table.name][keyNew := newValue]];
      return Success;
    }

    /** memcpy of a whole row behind the null bytes. */
    method FillRow(buf: array<Byte>, row: BYTES)
      requires SchemaOk(table) && buf.Length == table.recLength && |row| == RowLength(table)
      modifies buf
      ensures RowOf(table, buf[..]) == row
      ensures buf[..table.nullBytes] == old(buf[..table.nullBytes])
    {
      forall i | 0 <= i < |row| {
        buf[table.nullBytes + i] := row[i];
      }
    }

    /** memset of the record, then memcpy of a stored row. */
    method FillRecord(buf: array<Byte>, row: BYTES)
      requires SchemaOk(table) && buf.Length == table.recLength && |row| <= RowLength(table)
      modifies buf
      ensures buf[..] == RecordOf(table, row)
      ensures buf[table.nullBytes..table.nullBytes + |row|] == row
      ensures forall i :: 0 <= i < table.nullBytes || table.nullBytes + |row| <= i < buf.Length ==> buf[i] == 0
    {
      forall i | 0 <= i < table.recLength {
        buf[i] := 0;
      }
      forall i | 0 <= i < |row| {
        buf[table.nullBytes + i] := row[i];
      }
    }

    // -------------------------------------------------------------- key lookup

    /** Rows of the cached table that a record buffer can take. */
    ghost predicate RowsFit(tab: Table)
      requires SchemaOk(table)
    {
      forall k :: k in tab ==> |tab[k]| <= RowLength(table)
    }

    /** So are those of a table whose rows have its row length. */
    lemma StoredRowsFit(tab: Table)
      requires SchemaOk(table) && WellStored(table, hash, tab)
      ensures RowsFit(tab)
    {
      assert forall k :: k in tab ==> WellStoredAt(table, hash, k, tab[k]);
    }

    /** index_read: adjusts the search key in a buffer of its own, hashes it and looks the key up. exact and
        usable are the two checks on the request: an exact match on the primary key or first column. */
    method IndexRead(buf: array<Byte>, key: BYTES, exact: bool, usable: bool, txn: Transaction) returns (rc: Code)
      requires SchemaOk(table) && buf.Length == table.recLength
      requires table.keyParts.Some? && |key| == StoreTotal(ShapesOf(table.keyParts.value))
      requires table.name in txn.tableCache ==> RowsFit(txn.tableCache[table.name])
      modifies buf
      ensures !exact || !usable ==> rc == WrongCommand && buf[..] == old(buf[..])
      ensures exact && usable && table.name !in txn.tableCache ==> rc == Escaped
      ensures exact && usable && table.name in txn.tableCache ==>
        var k := hash(HashedSearch(key, ShapesOf(table.keyParts.value)));
        var tab := txn.tableCache[table.name];
        rc == Success && buf[..] == RecordOf(table, if k in tab then tab[k] else [])
      ensures rc == Success ==>
        var k := hash(HashedSearch(key, ShapesOf(table.keyParts.value)));
        var tab := txn.tableCache[table.name];
        var row := if k in tab then tab[k] else [];
        && buf[table.nullBytes..table.nullBytes + |row|] == row
        && forall i :: 0 <= i < table.nullBytes || table.nullBytes + |row| <= i < buf.Length ==> buf[i] == 0
    {
      var keyAdj, keySize := AdjustKey(key, ShapesOf(table.keyParts.value));
      if !exact {
        return WrongCommand;
      }
      if !usable {
        return WrongCommand;
      }
      FillRecord(buf, []);
      var keyBytes := hash(keyAdj[..keySize]);
      if table.name !in txn.tableCache {
        return Escaped;
      }
      var tableCache := txn.tableCache[table.name];
      if keyBytes in tableCache {
        FillRecord(buf, tableCache[keyBytes]);
      }
      return Success;
    }

    // -------------------------------------------------------------- table scan

    /** rnd_init: appends the cached rows, in key order, to the buffer; the cursor stands before the first. */
    method RndInit(txn: Transaction) returns (rc: Code, ghost rows: seq<(BYTES, BYTES)>, ghost keys: seq<BYTES>)
      modifies this`currentPosition, this`allItems
      ensures table.name !in txn.tableCache ==> rc == Escaped && allItems == old(allItems)
      ensures table.name in txn.tableCache ==>
        rc == Success && Lists(rows, keys, txn.tableCache[table.name]) && Scan() == Opened(old(Scan()), rows)
    {
      currentPosition := BEFORE_FIRST;
      if table.name !in txn.tableCache {
        return Escaped, [], [];
      }
      var tableCache := txn.tableCache[table.name];
      var order := Walk(tableCache.Keys);
      keys := order;
      rows := seq(|order|, i requires 0 <= i < |order| => assert order[i] in order; (order[i], tableCache[order[i]]));
      ghost var start := allItems;
      var i := 0;
      while i < |order|
        invariant 0 <= i <= |order|
        invariant currentPosition == BEFORE_FIRST
        invariant allItems == start + rows[..i]
      {
        assert order[i] in order;
        allItems := allItems + [(order[i], tableCache[order[i]])];
        i := i + 1;
      }
      assert rows[..i] == rows;
      return Success, rows, keys;
    }

    method RndEnd() returns (rc: Code)
      modifies this`allItems
      ensures rc == Success && allItems == []
    {
      allItems := [];
      return Success;
    }

    method RndNext(buf: array<Byte>) returns (rc: Code)
      requires SchemaOk(table) && buf.Length == table.recLength && ItemsFit()
      modifies this`currentPosition, buf
      ensures Scan() == Advanced(old(Scan())) && ItemsFit()
      ensures match Current(Scan())
        case Some(row) => rc == Success && buf[..] == RecordOf(table, row)
        case None => rc == EndOfFile && buf[..] == RecordOf(table, [])
      ensures match Current(Scan())
        case Some(row) =>
          && buf[table.nullBytes..table.nullBytes + |row|] == row
          && forall i :: 0 <= i < table.nullBytes || table.nullBytes + |row| <= i < buf.Length ==> buf[i] == 0
        case None => forall i :: 0 <= i < buf.Length ==> buf[i] == 0
    {
      currentPosition := (currentPosition + 1) % TWO64;
      rc := FindRow(currentPosition, buf);
    }

    /** my_store_ptr: eight bytes, most significant first. */
    method Position()
      modifies this`ref
      ensures |ref| == 8 && Num(ref) == currentPosition
    {
      ref := BigEndian(currentPosition, 8);
      assert Pow256(8) == TWO64 by { SizeOfPosition(); }
      BigEndianNum(currentPosition, 8);
    }

    /** rnd_pos: the row at a stored position, wherever the cursor stands. */
    method RndPos(buf: array<Byte>, pos: BYTES) returns (rc: Code)
      requires SchemaOk(table) && buf.Length == table.recLength && ItemsFit() && |pos| == 8
      modifies buf
      ensures Num(pos) < TWO64
      ensures match Current(Cursor(allItems, Num(pos)))
        case Some(row) => rc == Success && buf[..] == RecordOf(table, row)
        case None => rc == EndOfFile && buf[..] == RecordOf(table, [])
      ensures match Current(Cursor(allItems, Num(pos)))
        case Some(row) =>
          && buf[table.nullBytes..table.nullBytes + |row|] == row
          && forall i :: 0 <= i < table.nullBytes || table.nullBytes + |row| <= i < buf.Length ==> buf[i] == 0
        case None => forall i :: 0 <= i < buf.Length ==> buf[i] == 0
    {
      NumBound(pos);
      SizeOfPosition();
      rc := FindRow(Num(pos), buf);
    }

    method FindRow(index: uint64, buf: array<Byte>) returns (rc: Code)
      requires SchemaOk(table) && buf.Length == table.recLength && ItemsFit()
      modifies buf
      ensures match Current(Cursor(allItems, index))
        case Some(row) => rc == Success && buf[..] == RecordOf(table, row)
        case None => rc == EndOfFile && buf[..] == RecordOf(table, [])
      ensures match Current(Cursor(allItems, index))
        case Some(row) =>
          && buf[table.nullBytes..table.nullBytes + |row|] == row
          && forall i :: 0 <= i < table.nullBytes || table.nullBytes + |row| <= i < buf.Length ==> buf[i] == 0
        case None => forall i :: 0 <= i < buf.Length ==> buf[i] == 0
    {
      FillRecord(buf, []);
      if index >= |allItems| {
        return EndOfFile;
      }
      FillRecord(buf, allItems[index].1);
      return Success;
    }
  }

  // ---------------------------------------------------------------- rows that fit their records

  /** A row of the handler's table has its row length and is filed under its own key. */
  function StoredTest(s: Schema, hash: Hash): RowTests.RowTest
    requires SchemaOk(s)
  {
    (t, k, row) => t == s.name ==> WellStoredAt(s, hash, k, row)
  }

  /** If every row loaded and every row handed in is like that, so is every cached row after any run of locks
      and row operations. */
  lemma {:induction false} RunKeepsStored(s: Schema, hash: Hash, x: Rows.Txn, events: seq<Rows.Event>, y: Rows.Txn)
    requires SchemaOk(s) && Rows.Runs(x, events, y) && RowTests.TxnRows(StoredTest(s, hash), x)
    requires forall e :: e in events && e.Row? ==> RowTests.OpRow(StoredTest(s, hash), e.op)
    requires forall e :: e in events && e.Locked? ==> RowTests.AllRows(StoredTest(s, hash), e.t, e.content)
    ensures s.name in y.cache ==> WellStored(s, hash, y.cache[s.name])
  {
    RowTests.RunKeepsRows(StoredTest(s, hash), x, events, y);
    if s.name in y.cache {
      var tab := y.cache[s.name];
      assert RowTests.AllRows(StoredTest(s, hash), s.name, tab);
      forall k | k in tab ensures WellStoredAt(s, hash, k, tab[k]) {
        assert StoredTest(s, hash)(s.name, k, tab[k]);
      }
    }
  }

  lemma SizeOfPosition()
    ensures Pow256(8) == TWO64
  {
    assert Pow256(4) == TWO32;
    assert Pow256(8) == 256 * (256 * (256 * (256 * Pow256(4))));
  }

  lemma {:induction false} NumBound(b: BYTES)
    ensures Num(b) < Pow256(|b|)
  {
    if b != [] {
      NumBound(b[..|b| - 1]);
    }
  }

  // ---------------------------------------------------------------- a whole scan

  /** What a connection may do to its handler between two rows of a scan. */
  datatype Event = Next | Change(op: Rows.RowOp)

  /** Cursor and transaction after the events. */
  function After(c: Cursor, x: Rows.Txn, events: seq<Event>): (Cursor, Rows.Txn) {
    if events == [] then (c, x)
    else
      var (c', x') := After(c, x, events[..|events| - 1]);
      match events[|events| - 1]
      case Next => (Advanced(c'), x')
      case Change(op) => (c', if op.t in x'.cache then Rows.Perform(x', op) else x')
  }

  function Nexts(events: seq<Event>): nat {
    if events == [] then 0 else Nexts(events[..|events| - 1]) + if events[|events| - 1].Next? then 1 else 0
  }

  lemma {:induction false} CursorAfter(c: Cursor, x: Rows.Txn, events: seq<Event>)
    ensures After(c, x, events).0 == Cursor(c.items, (c.position + Nexts(events)) % TWO64)
  {
    if events != [] {
      CursorAfter(c, x, events[..|events| - 1]);
    }
  }

  /** From -1 the cursor's first step leads to 0. */
  lemma WrapsToFirst(n: nat)
    requires n < TWO64
    ensures (BEFORE_FIRST + (n + 1)) % TWO64 == n
  {
  }

  /** Opened on an empty buffer, the n-th call of rnd_next stands on the n-th row of the table as it was
      cached at rnd_init, in key order, and past the last row on nothing, whatever rows change meanwhile. */
  lemma {:induction false} ScanIsStable(c: Cursor, x: Rows.Txn, t: string, rows: seq<(BYTES, BYTES)>, keys: seq<BYTES>,
                                        events: seq<Event>)
    requires c.items == [] && t in x.cache && Lists(rows, keys, x.cache[t]) && 0 < Nexts(events) <= TWO64
    ensures |keys| == |x.cache[t]|
    ensures var n := Nexts(events) - 1;
      Current(After(Opened(c, rows), x, events).0) ==
        if n < |keys| then Some(x.cache[t][keys[n]]) else None
  {
    var n := Nexts(events) - 1;
    var now := After(Opened(c, rows), x, events).0;
    CursorAfter(Opened(c, rows), x, events);
    WrapsToFirst(n);
    assert c.items + rows == rows;
    assert now == Cursor(rows, n);
    StandsOn(now, x.cache[t], rows, keys, n);
  }

  lemma {:induction false} StandsOn(c: Cursor, tab: Table, rows: seq<(BYTES, BYTES)>, keys: seq<BYTES>, n: uint64)
    requires c == Cursor(rows, n) && Lists(rows, keys, tab)
    ensures |keys| == |tab| && Current(c) == if n < |keys| then Some(tab[keys[n]]) else None
  {
    WalkIsUnique(keys, keys, tab.Keys);
    assert |tab.Keys| == |tab|;
    if n < |keys| {
      assert rows[n] == (keys[n], tab[keys[n]]);
    }
  }

  /** rnd_init without a preceding rnd_end: the scan lists the table exactly when the buffer was empty. */
  lemma {:induction false} ScanListsTableIff(c: Cursor, rows: seq<(BYTES, BYTES)>, keys: seq<BYTES>, tab: Table)
    requires Lists(rows, keys, tab)
    ensures (exists ks :: Lists(Opened(c, rows).items, ks, tab)) <==> c.items == []
  {
    if c.items == [] {
      assert c.items + rows == rows;
      assert Lists(Opened(c, rows).items, keys, tab);
    }
    forall ks | Lists(Opened(c, rows).items, ks, tab) ensures c.items == [] {
      WalkIsUnique(keys, ks, tab.Keys);
    }
  }
}
