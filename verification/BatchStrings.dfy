/** The pieces of putBatch's calldata as the adapter's loop accumulates them
    (adapter_ethereum.cpp put_batch), and the table a batch stands for on chain. */
module BatchStrings {
  import opened Bytes
  import opened Hex
  import opened Abi
  import opened BatchCalldata
  import opened Calldata
  import opened Framing
  import opened ScanDecoder
  import opened RpcBatch
  import opened Network
  import opened EthNode
  import opened Json
  import TS = TableStorage

  ghost function ValuesOf(batch: Table, keys: seq<BYTES>): (values: seq<BYTES>)
    requires forall k :: k in keys ==> k in batch
    ensures |values| == |keys|
  {
    seq(|keys|, i requires 0 <= i < |keys| => assert keys[i] in keys; batch[keys[i]])
  }

  ghost predicate TableSafe(tab: Table) {
    forall k {:trigger SeparatorSafe(tab[k])} :: k in tab ==> SeparatorSafe(tab[k])
  }

  /** A scan of the whole table decodes to the table exactly when every stored value is separator-safe. */
  lemma {:induction false} ScanIsExactIff(tab: Table, keys: seq<BYTES>, values: seq<BYTES>, pad: nat, unset: int)
    requires Words(keys) && Distinct(keys) && IsTable(tab, keys, values) && |tab| <= INT_MAX
    ensures SplitResult(ToHex(EncodeScan(keys, Blob(values), pad)), unset) == Ok(tab) <==> TableSafe(tab)
  {
    DistinctCount(keys, tab.Keys);
    assert |tab.Keys| == |tab|;
    SplitIsExactIff(tab, keys, values, pad, unset);
    assert TableSafe(tab) <==> AllSafe(values) by {
      if AllSafe(values) {
        forall k | k in tab ensures SeparatorSafe(tab[k]) {
          var i :| 0 <= i < |keys| && keys[i] == k;
        }
      }
      if TableSafe(tab) {
        forall i | 0 <= i < |values| ensures SeparatorSafe(values[i]) {
          assert keys[i] in tab;
        }
      }
    }
  }

  /** What a scan of the table may be decoded to: the contract chooses the order of the rows and the padding,
      and a count that cannot be read is whatever it happens to be. */
  ghost predicate ScanReads(tab: Table, r: Result<Table>) {
    exists keys, values, pad, unset {:trigger ScanReadsAs(tab, keys, values, pad, unset, r)} ::
      ScanReadsAs(tab, keys, values, pad, unset, r)
  }

  ghost predicate ScanReadsAs(tab: Table, keys: seq<BYTES>, values: seq<BYTES>, pad: nat, unset: int,
                              r: Result<Table>)
  {
    && Words(keys) && Distinct(keys) && IsTable(tab, keys, values)
    && r == SplitResult(ToHex(EncodeScan(keys, Blob(values), pad)), unset)
  }

  lemma {:induction false} ScanReadsIff(tab: Table, r: Result<Table>)
    requires ScanReads(tab, r) && |tab| <= INT_MAX
    ensures r == Ok(tab) <==> TableSafe(tab)
  {
    var keys, values, pad, unset :| ScanReadsAs(tab, keys, values, pad, unset, r);
    ScanIsExactIff(tab, keys, values, pad, unset);
  }

  /** A scan that does not throw has exactly the table's keys, whatever its values are. */
  lemma {:induction false} ScanKeepsKeys(tab: Table, r: Result<Table>)
    requires ScanReads(tab, r) && |tab| <= INT_MAX && r.Ok?
    ensures r.value.Keys == tab.Keys
  {
    var keys, values, pad, unset :| ScanReadsAs(tab, keys, values, pad, unset, r);
    DistinctCount(keys, tab.Keys);
    assert |tab.Keys| == |tab|;
    SplitOutcome(keys, values, pad, unset);
  }

  /** A batch under the keys that the contract files it under. */
  ghost function Repadded(batch: Table): Table
    requires PadInjective(batch)
  {
    PadsDiffer(batch);
    map k | k in batch :: Pad32(k) := batch[k]
  }

  lemma {:induction false} PaddedDistinct(batch: Table, keys: seq<BYTES>)
    requires PadInjective(batch) && Distinct(keys) && forall k :: k in keys <==> k in batch
    ensures Distinct(PaddedKeys(keys))
  {
    PadsDiffer(batch);
    forall i: nat, j: nat | i < j < |keys| ensures Differ(PaddedKeys(keys), i, j) {
      DistinctAt(keys, i, j);
      assert keys[i] in keys && keys[j] in keys;
    }
  }

  lemma {:induction false} RepaddedIsPutAll(tab: Table, batch: Table, keys: seq<BYTES>, values: seq<BYTES>)
    requires PadInjective(batch) && Distinct(keys) && (forall k :: k in keys <==> k in batch)
    requires values == ValuesOf(batch, keys)
    ensures TS.PutAll(tab, PaddedKeys(keys), values) == tab + Repadded(batch)
  {
    var padded := PaddedKeys(keys);
    PaddedDistinct(batch, keys);
    PadsDiffer(batch);
    forall i | 0 <= i < |keys| ensures padded[i] in Repadded(batch) && Repadded(batch)[padded[i]] == values[i] {
      assert keys[i] in batch;
    }
    forall p ensures p in Repadded(batch) <==> p in padded {
      if p in Repadded(batch) {
        var k :| k in batch && Pad32(k) == p;
        var i :| 0 <= i < |keys| && keys[i] == k;
        assert padded[i] == p;
      }
    }
    TS.PutOrderIrrelevant(tab, Repadded(batch), padded, values);
  }

  /** The keys of a batch in ascending order, and their values. */
  ghost predicate InKeyOrder(batch: Table, keys: seq<BYTES>, values: seq<BYTES>) {
    && Sorted(keys) && Distinct(keys) && |keys| == |batch|
    && (forall k :: k in keys <==> k in batch) && values == ValuesOf(batch, keys)
  }

  lemma {:induction false} InOrderFits(batch: Table, keys: seq<BYTES>, values: seq<BYTES>)
    requires InKeyOrder(batch, keys, values) && 96 * |batch| + 96 < TWO64
    requires forall k :: k in batch ==> |batch[k]| < TWO32
    ensures BatchFits(keys, values)
  {
    forall j | 0 <= j < |values| ensures |values[j]| < TWO32 {
      assert keys[j] in keys;
    }
  }

  /** The table when putBatch's transaction is mined: the padded keys with whatever is read as their values. */
  ghost function BatchStored(tab: Table, keys: seq<BYTES>, values: seq<BYTES>): Table
    requires |keys| == |values|
  {
    match ReadValues(values)
    case Some(read) => TS.PutAll(tab, PaddedKeys(keys), read)
    case None => tab
  }

  lemma {:induction false} BatchOutcome(tab: Table, keys: seq<BYTES>, values: seq<BYTES>, net: Net)
    requires BatchFits(keys, values)
    ensures Executed(tab, CallOf(PutBatchData(keys, values)), net).0 ==
      if net.txFails then tab else BatchStored(tab, keys, values)
  {
    PutBatchDataDecodes(keys, values);
    if ReadValues(values).Some? {
      var read := ReadValues(values).value;
      PutAllOutcome(tab, PaddedKeys(keys), read, Some(PutBatchCall(PaddedKeys(keys), read)), net);
    }
  }

  lemma {:induction false} PutAllOutcome(tab: Table, keys: seq<BYTES>, values: seq<BYTES>, call: Option<Call>, net: Net)
    requires |keys| == |values| && call == Some(PutBatchCall(keys, values))
    ensures Executed(tab, call, net).0 == if net.txFails then tab else TS.PutAll(tab, keys, values)
  {
    assert values[..|keys|] == values;
  }

  /** The batch is stored if every value reads back, and where it changes the table only then. */
  lemma {:induction false} BatchStoredIff(tab: Table, batch: Table, keys: seq<BYTES>, values: seq<BYTES>)
    requires InKeyOrder(batch, keys, values) && PadInjective(batch)
    ensures AllReadBack(values) ==> BatchStored(tab, keys, values) == tab + Repadded(batch)
    ensures tab + Repadded(batch) != tab ==>
      (BatchStored(tab, keys, values) == tab + Repadded(batch) <==> AllReadBack(values))
  {
    RepaddedIsPutAll(tab, batch, keys, values);
    ReadValuesIff(values);
    if ReadValues(values).Some? {
      var read := ReadValues(values).value;
      PaddedDistinct(batch, keys);
      PutAllInjective(tab, PaddedKeys(keys), read, values);
    }
  }

  lemma {:induction false} PutAllInjective(tab: Table, keys: seq<BYTES>, v: seq<BYTES>, w: seq<BYTES>)
    requires Distinct(keys) && |keys| == |v| == |w|
    ensures TS.PutAll(tab, keys, v) == TS.PutAll(tab, keys, w) ==> v == w
  {
    if TS.PutAll(tab, keys, v) == TS.PutAll(tab, keys, w) {
      forall i | 0 <= i < |v| ensures v[i] == w[i] {
        TS.PutAllAt(tab, keys, v, i);
        TS.PutAllAt(tab, keys, w, i);
      }
    }
  }

  lemma {:induction false} ConcatJoin(a: seq<BYTES>, b: seq<BYTES>)
    ensures Concat(a + b) == Concat(a) + Concat(b)
  {
    if a == [] {
      assert [] + b == b;
    } else {
      assert (a + b)[1..] == a[1..] + b;
      ConcatJoin(a[1..], b);
    }
  }

  lemma {:induction false} HexConcatJoin(a: seq<BYTES>, b: seq<BYTES>)
    ensures ToHex(Concat(a + b)) == ToHex(Concat(a)) + ToHex(Concat(b))
  {
    ConcatJoin(a, b);
    ToHexConcat(Concat(a), Concat(b));
  }

  lemma {:induction false} HexConcatAppend(a: seq<BYTES>, w: BYTES)
    ensures ToHex(Concat(a + [w])) == ToHex(Concat(a)) + ToHex(w)
  {
    ConcatAppend(a, w);
    ToHexConcat(Concat(a), w);
  }

  /** The loop's three strings after i pairs. */
  ghost predicate BatchStringsUpTo(keys: seq<BYTES>, values: seq<BYTES>, n: nat, i: nat, ks: string, os: string,
                                   vs: string) {
    && i <= |keys| && |keys| == |values|
    && ks == ToHex(Concat(PaddedKeys(keys[..i])))
    && os == ToHex(Concat(Offsets(n, i)))
    && vs == ToHex(Concat(Cells(values[..i])))
  }

  /** convert_to_32byte leaves a full word as it is. */
  lemma {:induction false} WordText(n: nat)
    requires n < TWO64
    ensures IntToHex(n, 64) == ToHex(Word(n)) == ConvertTo32Byte(IntToHex(n, 64))
  {
    SizeFitsWord(n);
    IntToHexIsWord(n);
    ConvertPads(Word(n));
  }

  lemma {:induction false} BatchStringsStep(keys: seq<BYTES>, values: seq<BYTES>, n: nat, i: nat, ks: string,
                                            os: string, vs: string)
    requires BatchStringsUpTo(keys, values, n, i, ks, os, vs) && i < |keys| && |values[i]| < TWO32
    requires i < n && 96 * n + 96 < TWO64
    ensures BatchStringsUpTo(keys, values, n, i + 1, ks + ConvertTo32Byte(ToHex(keys[i])),
      os + ConvertTo32Byte(IntToHex(n * 32 + 64 * i, 64)),
      (vs + ConvertTo32Byte(IntToHex(|values[i]|, 64))) + ConvertTo32Byte(ToHex(values[i])))
  {
    var v := values[i];
    ConvertPads(keys[i]);
    assert PaddedKeys(keys[..i + 1]) == PaddedKeys(keys[..i]) + [Pad32(keys[i])];
    HexConcatAppend(PaddedKeys(keys[..i]), Pad32(keys[i]));
    WordText(n * 32 + 64 * i);
    assert Offsets(n, i + 1) == Offsets(n, i) + [Word(n * 32 + 64 * i)];
    HexConcatAppend(Offsets(n, i), Word(n * 32 + 64 * i));
    WordText(|v|);
    ConvertPads(v);
    CellsAppend(values, i);
    HexConcatAppend(Cells(values[..i]), Word(|v|));
    HexConcatAppend(Cells(values[..i]) + [Word(|v|)], Pad32(v));
  }

  lemma {:induction false} CellsAppend(values: seq<BYTES>, i: nat)
    requires i < |values|
    ensures Cells(values[..i + 1]) == Cells(values[..i]) + [Word(|values[i]|)] + [Pad32(values[i])]
  {
    CellsJoin(values[..i], values[i]);
    assert values[..i + 1] == values[..i] + [values[i]];
  }

  lemma {:induction false} CellsJoin(values: seq<BYTES>, v: BYTES)
    ensures Cells(values + [v]) == Cells(values) + [Word(|v|)] + [Pad32(v)]
  {
    if values == [] {
      assert [v][1..] == [];
    } else {
      assert (values + [v])[1..] == values[1..] + [v];
      CellsJoin(values[1..], v);
    }
  }

  lemma {:induction false} PartsText(head: seq<BYTES>, k: seq<BYTES>, w: BYTES, o: seq<BYTES>, c: seq<BYTES>)
    ensures ToHex(Concat(head + k + [w] + o + c))
      == ToHex(Concat(head)) + ToHex(Concat(k)) + ToHex(w) + ToHex(Concat(o)) + ToHex(Concat(c))
  {
    HexConcatJoin(head, k);
    HexConcatAppend(head + k, w);
    HexConcatJoin(head + k + [w], o);
    HexConcatJoin(head + k + [w] + o, c);
  }

  lemma {:induction false} LaidText(a: BYTES, b: BYTES, c: BYTES, keys: seq<BYTES>, values: seq<BYTES>)
    ensures ToHex(Concat(Laid(a, b, c, keys, values))) ==
      ToHex(a) + ToHex(b) + ToHex(c) + ToHex(Concat(PaddedKeys(keys))) + ToHex(c)
      + ToHex(Concat(Offsets(|keys|, |keys|))) + ToHex(Concat(Cells(values)))
  {
    HeadText(a, b, c);
    PartsText([a, b, c], PaddedKeys(keys), c, Offsets(|keys|, |keys|), Cells(values));
  }

  /** The three strings behind the head words are the hex of putBatch's words. */
  lemma {:induction false} BatchDataAssembled(keys: seq<BYTES>, values: seq<BYTES>, ks: string, os: string, vs: string,
                                              p: nat, q: nat, n: nat)
    requires BatchStringsUpTo(keys, values, |keys|, |keys|, ks, os, vs) && p < TWO64 && q < TWO64 && n < TWO64
    requires p == 64 && q == 32 * |keys| + 96 && n == |keys|
    ensures IntToHex(p, 64) + IntToHex(q, 64) + IntToHex(n, 64) + ks + IntToHex(n, 64) + os + vs
      == ToHex(Concat(BatchWords(keys, values)))
  {
    WordText(p);
    WordText(q);
    WordText(n);
    assert keys[..|keys|] == keys && values[..|keys|] == values;
    LaidText(Word(p), Word(q), Word(n), keys, values);
  }

  lemma {:induction false} BatchDataIs(keys: seq<BYTES>, values: seq<BYTES>, ks: string, os: string, vs: string,
                                       p: nat, q: nat, n: nat, data: string)
    requires BatchStringsUpTo(keys, values, |keys|, |keys|, ks, os, vs) && 96 * |keys| + 96 < TWO64
    requires p == 64 && q == 32 * |keys| + 96 && n == |keys|
    requires data == "0x" + METHOD_HASH_PUTBATCH
      + (IntToHex(p, 64) + IntToHex(q, 64) + IntToHex(n, 64) + ks + IntToHex(n, 64) + os + vs)
    ensures data == PutBatchData(keys, values) && Plain(data) && data != ""
  {
    BatchDataAssembled(keys, values, ks, os, vs, p, q, n);
    BatchDataPlain(keys, values);
  }

  lemma {:induction false} BatchDataPlain(keys: seq<BYTES>, values: seq<BYTES>)
    ensures Plain(PutBatchData(keys, values)) && PutBatchData(keys, values) != ""
  {
    ToHexIsHex(Concat(BatchWords(keys, values)));
    assert !IsHexDigit('"') && Plain("0x" + METHOD_HASH_PUTBATCH);
  }

  lemma {:induction false} BatchStringsStart(keys: seq<BYTES>, values: seq<BYTES>, n: nat)
    requires |keys| == |values|
    ensures BatchStringsUpTo(keys, values, n, 0, "", "", "")
  {
  }

  lemma {:induction false} HeadText(a: BYTES, b: BYTES, c: BYTES)
    ensures ToHex(Concat([a, b, c])) == ToHex(a) + ToHex(b) + ToHex(c)
  {
    assert [a][1..] == [] && Concat([a]) == a;
    HexConcatAppend([a], b);
    HexConcatAppend([a, b], c);
    assert [a] + [b] == [a, b] && [a, b] + [c] == [a, b, c];
  }
}
