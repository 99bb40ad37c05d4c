/** The smart contract that stores one table (TableStorage.sol). */
module TableStorage {
  import opened Bytes
  import opened Framing
  import opened Abi
  import ScanDecoder

  type Bytes32 = b: BYTES | |b| == 32
    witness [0, 0, 0, 0, 0, 0, 0, 0, 0, 0, 0, 0, 0, 0, 0, 0, 0, 0, 0, 0, 0, 0, 0, 0, 0, 0, 0, 0, 0, 0, 0, 0]

  /** blocknumber says when the value was written; 0 marks an absent key. */
  datatype Value = Value(blocknumber: nat, value: BYTES)

  /** Successive puts. */
  function PutAll(tab: Table, keys: seq<BYTES>, values: seq<BYTES>): Table
    requires |keys| == |values|
  {
    if keys == [] then tab
    else PutAll(tab, keys[..|keys| - 1], values[..|keys| - 1])[keys[|keys| - 1] := values[|keys| - 1]]
  }

  /** Puts of distinct keys have the effect of one map update, so their order does not matter. */
  lemma {:induction false} PutOrderIrrelevant(tab: Table, batch: Table, keys: seq<BYTES>, values: seq<BYTES>)
    requires Distinct(keys) && ScanDecoder.IsTable(batch, keys, values)
    ensures PutAll(tab, keys, values) == tab + batch
  {
    if keys == [] {
      assert batch == map[];
    } else {
      var n := |keys| - 1;
      var rest := batch - {keys[n]};
      TableWithoutLast(batch, keys, values);
      DistinctInit(keys);
      PutOrderIrrelevant(tab, rest, keys[..n], values[..n]);
      assert (tab + rest)[keys[n] := values[n]] == tab + batch;
    }
  }

  lemma {:induction false} PutAllNext(tab: Table, keys: seq<BYTES>, values: seq<BYTES>, i: nat)
    requires i < |keys| && i < |values|
    ensures PutAll(tab, keys[..i + 1], values[..i + 1]) == PutAll(tab, keys[..i], values[..i])[keys[i] := values[i]]
  {
    assert keys[..i + 1][..i] == keys[..i] && values[..i + 1][..i] == values[..i];
  }

  lemma {:induction false} PutAllAt(tab: Table, keys: seq<BYTES>, values: seq<BYTES>, i: nat)
    requires Distinct(keys) && i < |keys| == |values|
    ensures keys[i] in PutAll(tab, keys, values) && PutAll(tab, keys, values)[keys[i]] == values[i]
  {
    var n := |keys| - 1;
    if i < n {
      DistinctInit(keys);
      PutAllAt(tab, keys[..n], values[..n], i);
      DistinctAt(keys, i, n);
    }
  }

  lemma {:induction false} TableWithoutLast(batch: Table, keys: seq<BYTES>, values: seq<BYTES>)
    requires keys != [] && Distinct(keys) && ScanDecoder.IsTable(batch, keys, values)
    ensures var n := |keys| - 1;
      ScanDecoder.IsTable(batch - {keys[n]}, keys[..n], values[..n]) &&
        batch == (batch - {keys[n]})[keys[n] := values[n]]
  {
    var n := |keys| - 1;
    DistinctInit(keys);
    assert keys == keys[..n] + [keys[n]];
    assert keys[n] in keys;
  }

  class TableStorage {
    var data: map<BYTES, Value>
    var keyList: seq<BYTES>

    constructor ()
      ensures Valid() && Table() == map[]
    {
      data := map[];
      keyList := [];
    }

    /** A Solidity mapping answers every key; absent ones with the zero value. */
    function Stored(key: BYTES): Value
      reads this
    {
      if key in data then data[key] else Value(0, [])
    }

    /** The index lists every stored key once, and nothing else. */
    ghost predicate Valid()
      reads this
    {
      && Distinct(keyList)
      && (forall k :: k in keyList <==> Stored(k).blocknumber != 0)
      && Words(keyList)
    }

    /** The finite map that the contract stands for. */
    ghost function Table(): (tab: Bytes.Table)
      reads this
    {
      map k | k in data && data[k].blocknumber != 0 :: data[k].value
    }

    method Put(key: Bytes32, value: BYTES, blockNumber: nat)
      requires Valid() && blockNumber > 0
      modifies this
      ensures Valid()
      ensures Table() == old(Table())[key := value]
      ensures keyList == if key in old(Table()) then old(keyList) else old(keyList) + [key]
    {
      var v := Value(blockNumber, value);
      if Stored(key).blocknumber == 0 {
        DistinctAppend(keyList, key);
        keyList := keyList + [key];
      }
      data := data[key := v];
    }

    /** Reverts on an absent key. */
    method Get(key: Bytes32) returns (r: Result<BYTES>)
      ensures r == if key in Table() then Ok(Table()[key]) else Thrown
    {
      var v := Stored(key);
      if !(v.blocknumber > 0) {
        return Thrown;
      }
      return Ok(v.value);
    }

    /** The stored values in index order. */
    ghost function Listed(): (values: seq<BYTES>)
      requires Valid()
      reads this
      ensures |values| == |keyList|
      ensures ScanDecoder.IsTable(Table(), keyList, values)
    {
      seq(|keyList|, i requires 0 <= i < |keyList| reads this => Stored(keyList[i]).value)
    }

    method TableScan() returns (keys: seq<BYTES>, values: BYTES)
      requires Valid()
      ensures keys == keyList && values == Blob(Listed())
    {
      var tmp: BYTES := [];
      keys := [];
      var i := 0;
      while i < |keyList|
        invariant 0 <= i <= |keyList|
        invariant keys == keyList[..i]
        invariant tmp == Blob(Listed()[..i])
      {
        keys := keys + [keyList[i]];
        BlobAppend(Listed()[..i], Listed()[i]);
        assert Listed()[..i + 1] == Listed()[..i] + [Listed()[i]];
        tmp := tmp + Stored(keyList[i]).value + SEPARATOR;
        i := i + 1;
      }
      assert Listed()[..i] == Listed();
      values := tmp;
    }

    /** Reverts (ok is false) on an absent key; otherwise the search finds it, the last key takes its
        place in the index, and nothing but that key goes. */
    method Remove(key: Bytes32) returns (ok: bool)
      requires Valid()
      modifies this
      ensures Valid()
      ensures ok <==> key in old(Table())
      ensures !ok ==> data == old(data) && keyList == old(keyList)
      ensures ok ==> Table() == old(Table()) - {key}
      ensures ok ==> exists i :: SwapPopped(old(keyList), i, key, keyList)
    {
      var v := Stored(key);
      if !(v.blocknumber > 0) {
        return false;
      }
      var size := |keyList|;
      var index := size;
      var i := 0;
      while i < size
        invariant 0 <= i <= size && index == size
        invariant key !in keyList[..i]
      {
        if keyList[i] == key {
          index := i;
          break;
        }
        i := i + 1;
      }
      assert keyList[..size] == keyList;
      ghost var before := keyList;
      SwapPopKeepsRest(before, index);
      keyList := keyList[index := keyList[size - 1]];
      keyList := keyList[..size - 1];
      data := data - {key};
      assert SwapPopped(before, index, key, keyList);
      return true;
    }

    /** Fewer values than keys is an out-of-bounds access that reverts the whole call. */
    method PutBatch(keys: seq<BYTES>, values: seq<BYTES>, blockNumber: nat) returns (ok: bool)
      requires Valid() && blockNumber > 0 && Words(keys)
      modifies this
      ensures Valid()
      ensures ok <==> |keys| <= |values|
      ensures !ok ==> data == old(data) && keyList == old(keyList)
      ensures ok ==> Table() == PutAll(old(Table()), keys, values[..|keys|])
    {
      ghost var tab := Table();
      var savedData, savedKeys := data, keyList;
      var i := 0;
      while i < |keys|
        invariant 0 <= i <= |keys| && i <= |values|
        invariant Valid()
        invariant Table() == PutAll(tab, keys[..i], values[..i])
      {
        if i >= |values| {
          data, keyList := savedData, savedKeys;
          return false;
        }
        Put(keys[i], values[i], blockNumber);
        PutAllNext(tab, keys, values, i);
        i := i + 1;
      }
      assert keys[..i] == keys;
      return true;
    }
  }

  /** The last entry has moved to position i, where key was, and the list is one shorter. */
  ghost predicate SwapPopped(ks: seq<BYTES>, i: int, key: BYTES, after: seq<BYTES>) {
    0 <= i < |ks| && ks[i] == key && after == ks[i := ks[|ks| - 1]][..|ks| - 1]
  }

  /** On a list without duplicates that takes away exactly the one key. */
  lemma {:induction false} SwapPopKeepsRest(ks: seq<BYTES>, index: nat)
    requires index < |ks| && Distinct(ks)
    ensures var after := ks[index := ks[|ks| - 1]][..|ks| - 1];
      Distinct(after) && forall k :: k in after <==> k in ks && k != ks[index]
  {
    var n := |ks| - 1;
    var after := ks[index := ks[n]][..n];
    forall i: nat, j: nat | i < j < |after| ensures Differ(after, i, j) {
      DistinctAt(ks, if i == index then n else i, if j == index then n else j);
    }
    forall i: nat | i < n ensures after[i] in ks && after[i] != ks[index] {
      DistinctAt(ks, index, if i == index then n else i);
    }
    forall k ensures k in after <==> k in ks && k != ks[index] {
      if k in ks && k != ks[index] {
        var i :| 0 <= i < |ks| && ks[i] == k;
        assert after[if i == n then index else i] == k;
      }
    }
  }
}
