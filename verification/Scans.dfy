/** A whole scan over a handler: the rows are read one after the other, their positions saved and the rows
    deleted, and every saved position is read again (ha_blockchain.cc rnd_init to rnd_pos, delete_row). */
module Scans {
  import opened Bytes
  import opened Records
  import opened Transactions
  import opened Statements
  import Rows
  import H = Handler

  // ---------------------------------------------------------------- deleting rows one by one

  function DeleteEach(x: Rows.Txn, t: string, keys: seq<BYTES>): (y: Rows.Txn)
    requires t in x.cache
    ensures t in y.cache
  {
    if keys == [] then x else Rows.DeleteRow(DeleteEach(x, t, keys[..|keys| - 1]), t, keys[|keys| - 1])
  }

  function Removes(t: string, keys: seq<BYTES>): (log: Log)
    ensures |log| == |keys|
  {
    seq(|keys|, i requires 0 <= i < |keys| => Remove(t, keys[i]))
  }

  /** The transaction after those REMOVEs, said outright. */
  ghost predicate Emptied(x: Rows.Txn, t: string, removes: Log, gone: set<BYTES>, y: Rows.Txn)
    requires t in x.cache
  {
    && y.statements == x.statements + removes && y.snapshot == x.snapshot
    && y.cache == x.cache[t := x.cache[t] - gone]
  }

  lemma {:induction false} EmptiedStep(x: Rows.Txn, t: string, removes: Log, gone: set<BYTES>, y: Rows.Txn, k: BYTES)
    requires t in x.cache && Emptied(x, t, removes, gone, y)
    ensures Emptied(x, t, removes + [Remove(t, k)], gone + {k}, Rows.DeleteRow(y, t, k))
  {
    assert x.cache[t] - gone - {k} == x.cache[t] - (gone + {k});
    assert x.statements + removes + [Remove(t, k)] == x.statements + (removes + [Remove(t, k)]);
  }

  /** The log gains one REMOVE a key, in order; the cached table loses the keys and nothing else. */
  lemma {:induction false} DeleteEachIs(x: Rows.Txn, t: string, keys: seq<BYTES>, gone: set<BYTES>)
    requires t in x.cache && forall k :: k in keys <==> k in gone
    requires Distinct(keys)
    ensures Emptied(x, t, Removes(t, keys), gone, DeleteEach(x, t, keys))
  {
    if keys == [] {
      assert gone == {} && x.cache[t] - gone == x.cache[t];
    } else {
      var n := |keys| - 1;
      assert keys == keys[..n] + [keys[n]];
      DistinctInit(keys);
      DeleteEachIs(x, t, keys[..n], gone - {keys[n]});
      EmptiedStep(x, t, Removes(t, keys[..n]), gone - {keys[n]}, DeleteEach(x, t, keys[..n]), keys[n]);
      assert Removes(t, keys) == Removes(t, keys[..n]) + [Remove(t, keys[n])];
      assert gone - {keys[n]} + {keys[n]} == gone;
    }
  }

  // ---------------------------------------------------------------- what is read

  /** Record i is the row under key i, behind zeroed null bytes. */
  ghost predicate ReadAt(s: Schema, tab: Table, keys: seq<BYTES>, i: nat, rec: BYTES)
    requires SchemaOk(s)
  {
    i < |keys| && keys[i] in tab && |tab[keys[i]]| <= RowLength(s) && rec == RecordOf(s, tab[keys[i]])
  }

  ghost predicate ReadUpTo(s: Schema, tab: Table, keys: seq<BYTES>, records: seq<BYTES>)
    requires SchemaOk(s)
  {
    forall i {:trigger ReadAt(s, tab, keys, i, records[i])} :: 0 <= i < |records| ==>
      ReadAt(s, tab, keys, i, records[i])
  }

  /** Position i spells the number i. */
  ghost predicate SavedUpTo(refs: seq<BYTES>) {
    forall i :: 0 <= i < |refs| ==> |refs[i]| == 8 && Num(refs[i]) == i
  }

  lemma {:induction false} KeyReadBack(s: Schema, hash: Hash, tab: Table, keys: seq<BYTES>, i: nat, rec: BYTES)
    requires SchemaOk(s) && WellStored(s, hash, tab) && ReadAt(s, tab, keys, i, rec)
    ensures KeyOf(s, hash, RowOf(s, rec)) == keys[i]
  {
    assert WellStoredAt(s, hash, keys[i], tab[keys[i]]);
    assert RowOf(s, RecordOf(s, tab[keys[i]])) == tab[keys[i]];
  }

  lemma {:induction false} ItemsFitThen(s: Schema, hash: Hash, rows: seq<(BYTES, BYTES)>, keys: seq<BYTES>, tab: Table)
    requires SchemaOk(s) && H.Lists(rows, keys, tab) && WellStored(s, hash, tab)
    ensures forall i :: 0 <= i < |rows| ==> |rows[i].1| <= RowLength(s)
  {
    forall i | 0 <= i < |rows| ensures |rows[i].1| <= RowLength(s) {
      assert WellStoredAt(s, hash, keys[i], tab[keys[i]]);
    }
  }

  lemma {:induction false} ReadMore(s: Schema, tab: Table, keys: seq<BYTES>, records: seq<BYTES>, rec: BYTES)
    requires SchemaOk(s) && ReadUpTo(s, tab, keys, records) && ReadAt(s, tab, keys, |records|, rec)
    ensures ReadUpTo(s, tab, keys, records + [rec])
  {
    var all := records + [rec];
    forall i | 0 <= i < |all| ensures ReadAt(s, tab, keys, i, all[i]) {
      assert i < |records| ==> ReadAt(s, tab, keys, i, records[i]);
    }
  }

  lemma SavedMore(refs: seq<BYTES>, r: BYTES)
    requires SavedUpTo(refs) && |r| == 8 && Num(r) == |refs|
    ensures SavedUpTo(refs + [r])
  {
  }

  lemma {:induction false} DeleteEachNext(x: Rows.Txn, t: string, keys: seq<BYTES>, n: nat)
    requires t in x.cache && n < |keys|
    ensures DeleteEach(x, t, keys[..n + 1]) == Rows.DeleteRow(DeleteEach(x, t, keys[..n]), t, keys[n])
  {
    assert keys[..n + 1][..n] == keys[..n];
  }

  lemma {:induction false} SameRecords(s: Schema, tab: Table, keys: seq<BYTES>, a: seq<BYTES>, b: seq<BYTES>)
    requires SchemaOk(s) && ReadUpTo(s, tab, keys, a) && ReadUpTo(s, tab, keys, b) && |a| == |b|
    ensures a == b
  {
    forall i | 0 <= i < |a| ensures a[i] == b[i] {
      assert ReadAt(s, tab, keys, i, a[i]) && ReadAt(s, tab, keys, i, b[i]);
    }
  }

  /** The row that the handler stands on is saved and deleted. */
  method DeleteCurrent(h: H.HaBlockchain, buf: array<Byte>, txn: Transaction, ghost tab: Table, ghost keys: seq<BYTES>)
    requires SchemaOk(h.table) && buf.Length == h.table.recLength && h.table.name in txn.tableCache
    requires WellStored(h.table, h.hash, tab) && ReadAt(h.table, tab, keys, h.currentPosition, buf[..])
    modifies h`ref, txn`statements, txn`tableCache
    ensures |h.ref| == 8 && Num(h.ref) == h.currentPosition
    ensures txn.Model() == Rows.DeleteRow(old(txn.Model()), h.table.name, keys[h.currentPosition])
  {
    KeyReadBack(h.table, h.hash, tab, keys, h.currentPosition, buf[..]);
    h.Position();
    var _ := h.DeleteRow(buf, txn);
  }

  /** One row further: the next row of the table, or the end. */
  method ReadNext(h: H.HaBlockchain, buf: array<Byte>, ghost rows: seq<(BYTES, BYTES)>, ghost keys: seq<BYTES>,
                  ghost tab: Table, ghost n: nat)
    returns (more: bool)
    requires SchemaOk(h.table) && buf.Length == h.table.recLength && H.Lists(rows, keys, tab) &&
      WellStored(h.table, h.hash, tab)
    requires h.allItems == rows && n <= |keys| < TWO64
    requires h.currentPosition == if n == 0 then H.BEFORE_FIRST else n - 1
    modifies h`currentPosition, buf
    ensures h.currentPosition == n && more == (n < |keys|)
    ensures more ==> ReadAt(h.table, tab, keys, n, buf[..])
  {
    ItemsFitThen(h.table, h.hash, rows, keys, tab);
    var code := h.RndNext(buf);
    more := code == H.Success;
    if more {
      assert rows[n] == (keys[n], tab[keys[n]]);
    }
  }

  /** The loop over the scan. */
  method DeleteScanned(h: H.HaBlockchain, buf: array<Byte>, txn: Transaction,
                       ghost rows: seq<(BYTES, BYTES)>, ghost keys: seq<BYTES>, ghost tab: Table)
    returns (refs: seq<BYTES>, records: seq<BYTES>)
    requires SchemaOk(h.table) && buf.Length == h.table.recLength && h.table.name in txn.tableCache
    requires H.Lists(rows, keys, tab) && WellStored(h.table, h.hash, tab) && |keys| < TWO64
    requires h.Scan() == H.Cursor(rows, H.BEFORE_FIRST)
    modifies h`currentPosition, h`ref, buf, txn`statements, txn`tableCache
    ensures |records| == |refs| == |keys| && ReadUpTo(h.table, tab, keys, records) && SavedUpTo(refs)
    ensures txn.Model() == DeleteEach(old(txn.Model()), h.table.name, keys)
  {
    ghost var x := txn.Model();
    refs, records := [], [];
    var more := ReadNext(h, buf, rows, keys, tab, 0);
    while more
      invariant |refs| == |records| <= |keys| && h.allItems == rows && h.currentPosition == |refs| &&
        more == (|refs| < |keys|)
      invariant more ==> ReadAt(h.table, tab, keys, |refs|, buf[..])
      invariant ReadUpTo(h.table, tab, keys, records) && SavedUpTo(refs)
      invariant txn.Model() == DeleteEach(x, h.table.name, keys[..|refs|])
      decreases |keys| - |refs|
    {
      ghost var n := |refs|;
      ReadMore(h.table, tab, keys, records, buf[..]);
      DeleteEachNext(x, h.table.name, keys, n);
      DeleteCurrent(h, buf, txn, tab, keys);
      SavedMore(refs, h.ref);
      refs, records := refs + [h.ref], records + [buf[..]];
      more := ReadNext(h, buf, rows, keys, tab, |refs|);
    }
    assert keys[..|refs|] == keys;
  }

  /** The saved positions, read again. */
  method Reread(h: H.HaBlockchain, buf: array<Byte>, refs: seq<BYTES>,
                ghost rows: seq<(BYTES, BYTES)>, ghost keys: seq<BYTES>, ghost tab: Table)
    returns (again: seq<BYTES>)
    requires SchemaOk(h.table) && buf.Length == h.table.recLength && h.allItems == rows
    requires H.Lists(rows, keys, tab) && WellStored(h.table, h.hash, tab) && SavedUpTo(refs) && |refs| == |keys|
    modifies buf
    ensures |again| == |refs| && ReadUpTo(h.table, tab, keys, again)
  {
    ItemsFitThen(h.table, h.hash, rows, keys, tab);
    again := [];
    var i := 0;
    while i < |refs|
      invariant 0 <= i == |again| <= |refs|
      invariant ReadUpTo(h.table, tab, keys, again)
    {
      var _ := h.RndPos(buf, refs[i]);
      assert rows[i] == (keys[i], tab[keys[i]]);
      ReadMore(h.table, tab, keys, again, buf[..]);
      again := again + [buf[..]];
      i := i + 1;
    }
  }

  /** The whole table is deleted in one scan. The scan reads every row once, in key order; every saved
      position leads to its row again although the rows are gone by then. */
  method DeleteAll(h: H.HaBlockchain, buf: array<Byte>, txn: Transaction)
    returns (refs: seq<BYTES>, records: seq<BYTES>, again: seq<BYTES>, ghost keys: seq<BYTES>)
    requires SchemaOk(h.table) && buf.Length == h.table.recLength && h.allItems == []
    requires h.table.name in txn.tableCache && |txn.tableCache[h.table.name]| < TWO64
    requires WellStored(h.table, h.hash, txn.tableCache[h.table.name])
    modifies h, buf, txn`statements, txn`tableCache
    ensures Ascending(keys, old(txn.tableCache[h.table.name]).Keys) && |records| == |refs| == |keys|
    ensures ReadUpTo(h.table, old(txn.tableCache[h.table.name]), keys, records) && SavedUpTo(refs)
    ensures again == records && h.allItems == []
    ensures txn.statements == old(txn.statements) + Removes(h.table.name, keys)
    ensures txn.tableCache == old(txn.tableCache)[h.table.name := map[]]
  {
    ghost var x, t := txn.Model(), h.table.name;
    ghost var tab := x.cache[t];
    ghost var rows;
    var code;
    code, rows, keys := h.RndInit(txn);
    WalkIsUnique(keys, keys, tab.Keys);
    assert |tab.Keys| == |tab|;
    refs, records := DeleteScanned(h, buf, txn, rows, keys, tab);
    again := Reread(h, buf, refs, rows, keys, tab);
    var _ := h.RndEnd();
    SameRecords(h.table, tab, keys, records, again);
    SortedDistinct(keys);
    DeleteEachIs(x, t, keys, tab.Keys);
    assert tab - tab.Keys == map[];
  }

  // ---------------------------------------------------------------- positions of an earlier scan

  ghost function Below(tab: Table, k: BYTES): set<BYTES> {
    set x | x in tab && Less(x, k)
  }

  lemma {:induction false} RankIs(keys: seq<BYTES>, tab: Table, i: nat)
    requires Ascending(keys, tab.Keys) && i < |keys|
    ensures |Below(tab, keys[i])| == i
  {
    var front := keys[..i];
    SortedDistinct(front);
    forall x ensures x in front <==> x in Below(tab, keys[i]) {
      if x in Below(tab, keys[i]) {
        var j :| 0 <= j < |keys| && keys[j] == x;
        if i <= j {
          LessIsStrictTotalOrder(keys[i], x, keys[i]);
          LessIsStrictTotalOrder(x, x, x);
        }
        assert front[j] == x;
      }
    }
    DistinctCount(front, Below(tab, keys[i]));
  }

  /** A position saved in an earlier scan leads to the same row of a later one if and only if the row is
      still there unchanged and as many keys as before are below its own. */
  lemma {:induction false} OldPositionIff(rows: seq<(BYTES, BYTES)>, keys: seq<BYTES>, tab: Table,
                                          rows': seq<(BYTES, BYTES)>, keys': seq<BYTES>, tab': Table, n: nat)
    requires H.Lists(rows, keys, tab) && H.Lists(rows', keys', tab') && n < |rows|
    ensures n < |rows'| && rows'[n] == rows[n] <==>
      keys[n] in tab' && tab'[keys[n]] == tab[keys[n]] && |Below(tab', keys[n])| == |Below(tab, keys[n])|
  {
    var k := keys[n];
    assert rows[n] == (k, tab[k]);
    RankIs(keys, tab, n);
    if n < |rows'| {
      assert rows'[n] == (keys'[n], tab'[keys'[n]]);
      RankIs(keys', tab', n);
    }
    if k in tab' {
      var j :| 0 <= j < |keys'| && keys'[j] == k;
      RankIs(keys', tab', j);
    }
  }
}
