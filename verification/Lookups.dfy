/** Row operations followed by a search: what was written is found again under its key fields, and what was
    deleted is not (ha_blockchain.cc write_row, update_row, delete_row, index_read). */
module Lookups {
  import opened Bytes
  import opened KeyImage
  import opened Records
  import opened Handler
  import opened Transactions

  /** fs are the key fields of a record of the table, all with convertible maxima. */
  ghost predicate KeyedBy(s: Schema, rec: BYTES, fs: seq<Field>)
    requires SchemaOk(s)
  {
    s.keyParts.Some? && Stores(s, s.keyParts.value, rec, fs) && AllConvertible(ShapesOf(s.keyParts.value))
  }

  /** A search for the key fields of rec. */
  method Search(h: HaBlockchain, fs: seq<Field>, buf: array<Byte>, txn: Transaction, ghost rec: BYTES)
    requires SchemaOk(h.table) && buf.Length == h.table.recLength && KeyedBy(h.table, rec, fs)
    requires h.table.name in txn.tableCache && h.RowsFit(txn.tableCache[h.table.name])
    modifies buf
    ensures var k, tab := KeyOf(h.table, h.hash, RowOf(h.table, rec)), txn.tableCache[h.table.name];
      if k in tab && |tab[k]| == RowLength(h.table) then RowOf(h.table, buf[..]) == tab[k]
      else k !in tab ==> forall i :: 0 <= i < buf.Length ==> buf[i] == 0
    ensures forall i :: 0 <= i < h.table.nullBytes ==> buf[i] == 0
  {
    SearchFindsKey(h.table, h.hash, rec, fs);
    var _ := h.IndexRead(buf, SearchKey(fs), true, true, txn);
  }

  /** An accepted record is found with exactly its row; a rejected one leads to the row that was there before. */
  method InsertThenFind(h: HaBlockchain, record: array<Byte>, fs: seq<Field>, found: array<Byte>, txn: Transaction)
    returns (rc: Code)
    requires SchemaOk(h.table) && record.Length == found.Length == h.table.recLength && record != found
    requires KeyedBy(h.table, record[..], fs)
    requires h.table.name in txn.tableCache && WellStored(h.table, h.hash, txn.tableCache[h.table.name])
    modifies found, txn`statements, txn`tableCache
    ensures rc == Success || rc == WrongCommand
    ensures rc == Success ==> RowOf(h.table, found[..]) == RowOf(h.table, record[..])
    ensures rc == WrongCommand ==>
      var k, tab := KeyOf(h.table, h.hash, RowOf(h.table, record[..])), old(txn.tableCache[h.table.name]);
      k in tab && RowOf(h.table, found[..]) == tab[k]
    ensures forall i :: 0 <= i < h.table.nullBytes ==> found[i] == 0
  {
    ghost var rec := record[..];
    ghost var k := KeyOf(h.table, h.hash, RowOf(h.table, rec));
    h.StoredRowsFit(txn.tableCache[h.table.name]);
    if k in txn.tableCache[h.table.name] {
      assert WellStoredAt(h.table, h.hash, k, txn.tableCache[h.table.name][k]);
    }
    rc := h.WriteRow(record, txn);
    Search(h, fs, found, txn, rec);
  }

  /** After an update the new key fields lead to the new row, unless another row has that key; the old ones,
      if the key has changed, lead to nothing. */
  method UpdateThenFind(h: HaBlockchain, oldData: array<Byte>, newData: array<Byte>, fs: seq<Field>, gs: seq<Field>,
                        found: array<Byte>, gone: array<Byte>, txn: Transaction) returns (rc: Code)
    requires SchemaOk(h.table) && oldData.Length == newData.Length == found.Length == gone.Length == h.table.recLength
    requires found != gone
    requires KeyedBy(h.table, oldData[..], fs) && KeyedBy(h.table, newData[..], gs)
    requires h.table.name in txn.tableCache && WellStored(h.table, h.hash, txn.tableCache[h.table.name])
    modifies newData, found, gone, txn`statements, txn`tableCache
    ensures rc == Success
    ensures var oldRow, newRow := old(RowOf(h.table, oldData[..])), old(RowOf(h.table, newData[..]));
      var oldKey, newKey := KeyOf(h.table, h.hash, oldRow), KeyOf(h.table, h.hash, newRow);
      var tab := old(txn.tableCache[h.table.name]);
      && RowOf(h.table, found[..]) == (if oldKey != newKey && newKey in tab then tab[newKey] else newRow)
      && (oldKey != newKey ==> forall i :: 0 <= i < gone.Length ==> gone[i] == 0)
  {
    ghost var oldRec, newRec := oldData[..], newData[..];
    ghost var oldKey := KeyOf(h.table, h.hash, RowOf(h.table, oldRec));
    ghost var newKey := KeyOf(h.table, h.hash, RowOf(h.table, newRec));
    ghost var tab := txn.tableCache[h.table.name];
    h.StoredRowsFit(tab);
    if newKey in tab {
      assert WellStoredAt(h.table, h.hash, newKey, tab[newKey]);
    }
    rc := h.UpdateRow(oldData, newData, txn);
    Search(h, gs, found, txn, newRec);
    Search(h, fs, gone, txn, oldRec);
  }

  /** A deleted record is not found any more. */
  method DeleteThenFind(h: HaBlockchain, record: array<Byte>, fs: seq<Field>, gone: array<Byte>, txn: Transaction)
    requires SchemaOk(h.table) && record.Length == gone.Length == h.table.recLength && record != gone
    requires KeyedBy(h.table, record[..], fs)
    requires h.table.name in txn.tableCache && h.RowsFit(txn.tableCache[h.table.name])
    modifies gone, txn`statements, txn`tableCache
    ensures forall i :: 0 <= i < gone.Length ==> gone[i] == 0
  {
    ghost var rec := record[..];
    var _ := h.DeleteRow(record, txn);
    Search(h, fs, gone, txn, rec);
  }

  /** Without key parts a second record with the same first column is rejected, whatever else it holds. */
  method InsertTwice(h: HaBlockchain, first: array<Byte>, second: array<Byte>, txn: Transaction)
    returns (rc: Code, again: Code)
    requires SchemaOk(h.table) && first.Length == second.Length == h.table.recLength && h.table.keyParts.None?
    requires h.table.name in txn.tableCache
    requires var n := h.table.nullBytes; first[n..n + h.table.firstLength] == second[n..n + h.table.firstLength]
    modifies txn`statements, txn`tableCache
    ensures again == WrongCommand
    ensures var key := h.hash(first[h.table.nullBytes..h.table.nullBytes + h.table.firstLength]);
      var tab, row := old(txn.tableCache[h.table.name]), RowOf(h.table, first[..]);
      if key in tab then rc == WrongCommand && txn.Model() == old(txn.Model())
      else rc == Success && txn.tableCache == old(txn.tableCache)[h.table.name := tab[key := row]]
  {
    var n, m := h.table.nullBytes, h.table.firstLength;
    FirstColumnIsKey(h.table, h.hash, RowOf(h.table, first[..]));
    FirstColumnIsKey(h.table, h.hash, RowOf(h.table, second[..]));
    assert RowOf(h.table, first[..])[..m] == first[n..n + m];
    assert RowOf(h.table, second[..])[..m] == second[n..n + m];
    rc := h.WriteRow(first, txn);
    again := h.WriteRow(second, txn);
  }
}
