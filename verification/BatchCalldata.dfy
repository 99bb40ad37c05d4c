/** putBatch's calldata, its offsets computed by hand, and what the contract reads by following them
    (adapter_ethereum.cpp put_batch, TableStorage.sol putBatch). */
module BatchCalldata {
  import opened Bytes
  import opened Hex
  import opened Abi
  import opened Calldata

  /** The offsets n*32 + 64*i of the value strings. */
  function Offsets(n: nat, count: nat): (ws: seq<BYTES>)
    ensures |ws| == count
  {
    seq(count, i requires 0 <= i < count => Word(32 * n + 64 * i))
  }

  /** Length word and value word of every value. */
  function Cells(values: seq<BYTES>): (ws: seq<BYTES>)
    ensures |ws| == 2 * |values|
  {
    if values == [] then [] else [Word(|values[0]|), Pad32(values[0])] + Cells(values[1..])
  }

  function PaddedKeys(keys: seq<BYTES>): (ws: seq<BYTES>)
    ensures |ws| == |keys|
  {
    seq(|keys|, i requires 0 <= i < |keys| => Pad32(keys[i]))
  }

  /** The arguments of putBatch, word by word. */
  function BatchWords(keys: seq<BYTES>, values: seq<BYTES>): seq<BYTES> {
    Laid(Word(64), Word(32 * |keys| + 96), Word(|keys|), keys, values)
  }

  function Laid(a: BYTES, b: BYTES, c: BYTES, keys: seq<BYTES>, values: seq<BYTES>): seq<BYTES> {
    [a, b, c] + PaddedKeys(keys) + [c] + Offsets(|keys|, |keys|) + Cells(values)
  }

  function PutBatchData(keys: seq<BYTES>, values: seq<BYTES>): string {
    "0x" + METHOD_HASH_PUTBATCH + ToHex(Concat(BatchWords(keys, values)))
  }

  /** Sizes that a size_t and a length word can hold. */
  predicate BatchFits(keys: seq<BYTES>, values: seq<BYTES>) {
    && |keys| == |values| && 96 * |keys| + 96 < TWO64
    && forall j | 0 <= j < |values| :: |values[j]| < TWO32
  }

  // ---------------------------------------------------------------- what can be read from the cells

  /** The first value, read from its own word and, when that is too short, on into the cells behind it. */
  function CellRead(value: BYTES, rest: seq<BYTES>): Option<BYTES> {
    var source := Pad32(value) + Concat(Cells(rest));
    if |value| <= |source| then Some(source[..|value|]) else None
  }

  function ReadValues(values: seq<BYTES>): (read: Option<seq<BYTES>>)
    ensures read.Some? ==> |read.value| == |values|
  {
    if values == [] then Some([]) else InFront(CellRead(values[0], values[1..]), ReadValues(values[1..]))
  }

  function InFront(first: Option<BYTES>, rest: Option<seq<BYTES>>): Option<seq<BYTES>> {
    if first.Some? && rest.Some? then Some([first.value] + rest.value) else None
  }

  /** The value fits its word, or what does not is the very beginning of the cells behind it. */
  predicate ReadsBack(values: seq<BYTES>, i: nat)
    requires i < |values|
  {
    |values[i]| <= 32 || values[i][32..] <= Concat(Cells(values[i + 1..]))
  }

  ghost predicate AllReadBack(values: seq<BYTES>) {
    forall i {:trigger ReadsBack(values, i)} :: 0 <= i < |values| ==> ReadsBack(values, i)
  }

  lemma {:induction false} PrefixIff(first: BYTES, more: BYTES, tail: BYTES)
    requires |more| <= |tail|
    ensures (first + tail)[..|first| + |more|] == first + more <==> more <= tail
  {
    assert (first + tail)[..|first| + |more|] == first + tail[..|more|];
    if first + tail[..|more|] == first + more {
      assert tail[..|more|] == (first + tail[..|more|])[|first|..] == (first + more)[|first|..] == more;
    }
  }

  lemma {:induction false} CellReadIff(value: BYTES, rest: seq<BYTES>)
    ensures CellRead(value, rest) == Some(value) <==> |value| <= 32 || value[32..] <= Concat(Cells(rest))
  {
    var tail := Concat(Cells(rest));
    var source := Pad32(value) + tail;
    if |value| <= 32 {
      Pad32Prefix(value);
      assert source[..|value|] == Pad32(value)[..|value|];
    } else {
      assert Pad32(value) == value[..32] && value == value[..32] + value[32..];
      if |value| <= |source| {
        PrefixIff(value[..32], value[32..], tail);
      }
    }
  }

  lemma {:induction false} ReadValuesIff(values: seq<BYTES>)
    ensures ReadValues(values) == Some(values) <==> AllReadBack(values)
  {
    if values != [] {
      var v, rest := values[0], values[1..];
      CellReadIff(v, rest);
      ReadValuesIff(rest);
      AllReadBackCons(values);
      assert values == [v] + rest;
    }
  }

  lemma {:induction false} AllReadBackCons(values: seq<BYTES>)
    requires values != []
    ensures AllReadBack(values) <==> ReadsBack(values, 0) && AllReadBack(values[1..])
  {
    var rest := values[1..];
    forall i | 0 <= i < |rest| ensures ReadsBack(rest, i) <==> ReadsBack(values, i + 1) {
      assert rest[i + 1..] == values[i + 2..];
    }
    if AllReadBack(values) {
      assert ReadsBack(values, 0);
      forall i | 0 <= i < |rest| ensures ReadsBack(rest, i) { assert ReadsBack(values, i + 1); }
    }
    if ReadsBack(values, 0) && AllReadBack(rest) {
      forall i | 0 <= i < |values| ensures ReadsBack(values, i) {
        if i > 0 { assert ReadsBack(rest, i - 1); }
      }
    }
  }

  // ---------------------------------------------------------------- words

  lemma {:induction false} WordsConcatAt(ws: seq<BYTES>, i: nat, p: nat)
    requires Words(ws) && i < |ws| && p == 32 * i
    ensures WordAt(Concat(ws), p) == Some(ws[i]) && UintAt(Concat(ws), p) == Some(Num(ws[i]))
  {
    ConcatAt(ws, i);
  }

  lemma {:induction false} WordsAtConcat(ws: seq<BYTES>, i: nat, n: nat)
    requires Words(ws) && i + n <= |ws|
    ensures WordsAt(Concat(ws), 32 * i, n) == Some(ws[i..i + n])
    decreases n
  {
    if n > 0 {
      WordsConcatAt(ws, i, 32 * i);
      WordsAtConcat(ws, i + 1, n - 1);
      assert ws[i..i + n] == [ws[i]] + ws[i + 1..i + 1 + (n - 1)];
    } else {
      assert ws[i..i] == [];
    }
  }

  lemma {:induction false} ConcatSuffix(ws: seq<BYTES>, i: nat)
    requires Words(ws) && i <= |ws|
    ensures 32 * i <= |Concat(ws)| && Concat(ws)[32 * i..] == Concat(ws[i..])
  {
    ConcatLength(ws);
    if i > 0 {
      ConcatSuffix(ws[1..], i - 1);
      assert ws[1..][i - 1..] == ws[i..];
      assert Concat(ws)[32 * i..] == Concat(ws[1..])[32 * (i - 1)..];
    } else {
      assert ws[0..] == ws;
    }
  }

  lemma {:induction false} CellsTail(values: seq<BYTES>, i: nat)
    requires i < |values|
    ensures Cells(values)[2 * i] == Word(|values[i]|) && Cells(values)[2 * i + 1] == Pad32(values[i])
    ensures Cells(values)[2 * i + 2..] == Cells(values[i + 1..])
  {
    var all, rest := Cells(values), Cells(values[i + 1..]);
    CellsSuffix(values, i);
    assert values[i..][1..] == values[i + 1..];
    assert all[2 * i..] == [Word(|values[i]|), Pad32(values[i])] + rest;
    CutTwo(all, 2 * i, Word(|values[i]|), Pad32(values[i]), rest);
  }

  lemma {:induction false} CellsSuffix(values: seq<BYTES>, i: nat)
    requires i <= |values|
    ensures Cells(values)[2 * i..] == Cells(values[i..])
  {
    if i > 0 {
      CellsSuffix(values[1..], i - 1);
      assert values[1..][i - 1..] == values[i..];
      DropTwo(Word(|values[0]|), Pad32(values[0]), Cells(values[1..]), 2 * (i - 1));
    }
  }

  lemma DropTwo(a: BYTES, b: BYTES, s: seq<BYTES>, k: nat)
    requires k <= |s|
    ensures ([a, b] + s)[k + 2..] == s[k..]
  {
  }

  lemma {:induction false} CutTwo(s: seq<BYTES>, k: nat, a: BYTES, b: BYTES, rest: seq<BYTES>)
    requires k <= |s| && s[k..] == [a, b] + rest
    ensures k + 2 <= |s| && s[k] == a && s[k + 1] == b && s[k + 2..] == rest
  {
    assert s[k..][0] == a && s[k..][1] == b && s[k..][2..] == rest;
  }

  lemma {:induction false} CellsAreWords(values: seq<BYTES>)
    ensures Words(Cells(values))
  {
    if values != [] {
      CellsAreWords(values[1..]);
    }
  }

  lemma {:induction false} WordNum(n: nat)
    requires n < TWO64
    ensures Num(Word(n)) == n
  {
    SizeFitsWord(n);
    BigEndianNum(n, 32);
  }

  // ---------------------------------------------------------------- following the offsets

  /** The layout of putBatch's arguments: head, key array, value offsets, value cells. */
  ghost predicate IsBatch(ws: seq<BYTES>, keys: seq<BYTES>, values: seq<BYTES>) {
    var n := |keys|;
    && Words(ws) && |ws| == 4 + 4 * n && BatchFits(keys, values)
    && Num(ws[0]) == 64 && Num(ws[1]) == 32 * n + 96 && Num(ws[2]) == n && Num(ws[n + 3]) == n
    && ws[3..3 + n] == PaddedKeys(keys) && ws[2 * n + 4..] == Cells(values)
    && forall i {:trigger OffsetAt(ws, n, i)} :: 0 <= i < n ==> OffsetAt(ws, n, i)
  }

  ghost predicate OffsetAt(ws: seq<BYTES>, n: nat, i: nat)
    requires i < n && |ws| == 4 + 4 * n
  {
    Num(ws[n + 4 + i]) == 32 * n + 64 * i
  }

  lemma {:induction false} StringFromSuffix(data: BYTES, p: nat, word: BYTES, value: BYTES, rest: seq<BYTES>)
    requires |word| == 32 && Num(word) == |value| && p <= |data|
    requires data[p..] == word + (Pad32(value) + Concat(Cells(rest)))
    ensures StringAt(data, p) == CellRead(value, rest)
  {
    var source := Pad32(value) + Concat(Cells(rest));
    assert |data| == p + 32 + |source|;
    assert data[p..p + 32] == data[p..][..32] == word;
    if |value| <= |source| {
      assert data[p + 32..p + 32 + |value|] == data[p..][32..32 + |value|] == source[..|value|];
    }
  }

  lemma {:induction false} CellSuffix(ws: seq<BYTES>, m: nat, values: seq<BYTES>, i: nat)
    requires Words(ws) && m + 2 * |values| == |ws| && ws[m..] == Cells(values) && i < |values|
    ensures 32 * (m + 2 * i) <= |Concat(ws)|
    ensures Concat(ws)[32 * (m + 2 * i)..] == Word(|values[i]|) + (Pad32(values[i]) + Concat(Cells(values[i + 1..])))
  {
    var j := m + 2 * i;
    ConcatSuffix(ws, j);
    CellsTail(values, i);
    assert ws[j] == ws[m..][2 * i] && ws[j + 1] == ws[m..][2 * i + 1];
    assert ws[j..][2..] == ws[m..][2 * i + 2..];
    ConcatTwo(ws[j..], Cells(values[i + 1..]));
  }

  lemma {:induction false} ConcatTwo(ws: seq<BYTES>, rest: seq<BYTES>)
    requires |ws| >= 2 && ws[2..] == rest
    ensures Concat(ws) == ws[0] + (ws[1] + Concat(rest))
  {
    assert ws[1..][1..] == ws[2..];
  }

  /** Head i gives the offset of cell i, and the string there is what the cell and those behind it give. */
  ghost predicate HeadAt(data: BYTES, values: seq<BYTES>, i: nat)
    requires i < |values|
  {
    var n := |values|;
    && UintAt(data, 32 * (n + 4 + i)) == Some(32 * n + 64 * i)
    && StringAt(data, 32 * (2 * n + 4 + 2 * i)) == CellRead(values[i], values[i + 1..])
  }

  lemma {:induction false} BatchHeadAt(ws: seq<BYTES>, keys: seq<BYTES>, values: seq<BYTES>, i: nat)
    requires IsBatch(ws, keys, values) && i < |keys|
    ensures HeadAt(Concat(ws), values, i)
  {
    var n := |keys|;
    assert OffsetAt(ws, n, i);
    var h, p := 32 * (n + 4 + i), 32 * (2 * n + 4 + 2 * i);
    WordsConcatAt(ws, n + 4 + i, h);
    CellStringAt(ws, 2 * n + 4, values, i, p);
    HeadFrom(Concat(ws), values, i, h, p, Num(ws[n + 4 + i]));
  }

  lemma HeadFrom(data: BYTES, values: seq<BYTES>, i: nat, h: nat, p: nat, offset: nat)
    requires i < |values| && h == 32 * (|values| + 4 + i) && p == 32 * (2 * |values| + 4 + 2 * i)
    requires UintAt(data, h) == Some(offset) && offset == 32 * |values| + 64 * i
    requires StringAt(data, p) == CellRead(values[i], values[i + 1..])
    ensures HeadAt(data, values, i)
  {
  }

  lemma {:induction false} CellStringAt(ws: seq<BYTES>, m: nat, values: seq<BYTES>, i: nat, p: nat)
    requires p == 32 * (m + 2 * i) && Words(ws) && m + 2 * |values| == |ws| && ws[m..] == Cells(values) && i < |values|
    requires |values[i]| < TWO32
    ensures StringAt(Concat(ws), p) == CellRead(values[i], values[i + 1..])
  {
    WordNum(|values[i]|);
    CellSuffix(ws, m, values, i);
    StringFromSuffix(Concat(ws), p, Word(|values[i]|), values[i], values[i + 1..]);
  }

  lemma {:induction false} StringsStep(data: BYTES, values: seq<BYTES>, base: nat, i: nat, head: nat,
                                       more: seq<BYTES>, rest: Option<seq<BYTES>>)
    requires i < |values| && HeadAt(data, values, i) && more == values[i + 1..]
    requires base == 32 * (|values| + 4) && head == 32 * (|values| + 4 + i)
    requires StringsAt(data, base, head + 32, |more|) == rest
    ensures StringsAt(data, base, head, |more| + 1) == InFront(CellRead(values[i], more), rest)
  {
    StringsCons(data, base, head, |more| + 1, 32 * |values| + 64 * i, 32 * (2 * |values| + 4 + 2 * i),
      CellRead(values[i], more), rest);
  }

  lemma {:induction false} StringsCons(data: BYTES, base: nat, head: nat, n: nat, offset: nat, p: nat,
                                       first: Option<BYTES>, rest: Option<seq<BYTES>>)
    requires n > 0 && UintAt(data, head) == Some(offset) && p == base + offset && StringAt(data, p) == first
    requires StringsAt(data, base, head + 32, n - 1) == rest
    ensures StringsAt(data, base, head, n) == InFront(first, rest)
  {
  }

  lemma SliceFrom(values: seq<BYTES>, i: nat, rest: seq<BYTES>)
    requires i < |values| && rest == values[i..]
    ensures rest[0] == values[i] && rest[1..] == values[i + 1..]
  {
  }

  /** Following all offsets from the i-th on, for the values that remain. */
  lemma {:induction false} StringsFollow(data: BYTES, values: seq<BYTES>, base: nat, i: nat, head: nat,
                                         rest: seq<BYTES>)
    requires i <= |values| && base == 32 * (|values| + 4) && head == 32 * (|values| + 4 + i) && rest == values[i..]
    requires forall j {:trigger HeadAt(data, values, j)} :: 0 <= j < |values| ==> HeadAt(data, values, j)
    ensures StringsAt(data, base, head, |rest|) == ReadValues(rest)
    decreases |values| - i
  {
    if i < |values| {
      assert HeadAt(data, values, i);
      var more := values[i + 1..];
      SliceFrom(values, i, rest);
      StringsFollow(data, values, base, i + 1, head + 32, more);
      StringsStep(data, values, base, i, head, more, ReadValues(more));
    }
  }

  lemma {:induction false} BatchStrings(ws: seq<BYTES>, keys: seq<BYTES>, values: seq<BYTES>)
    requires IsBatch(ws, keys, values)
    ensures StringsAt(Concat(ws), 32 * (|keys| + 4), 32 * (|keys| + 4), |keys|) == ReadValues(values)
  {
    forall j | 0 <= j < |values| ensures HeadAt(Concat(ws), values, j) {
      BatchHeadAt(ws, keys, values, j);
    }
    StringsFollow(Concat(ws), values, 32 * (|values| + 4), 0, 32 * (|values| + 4), values);
  }

  /** The two offsets, the two lengths and the keys. */
  ghost predicate HeadRead(data: BYTES, n: nat, keys: seq<BYTES>) {
    && UintAt(data, 0) == Some(64) && UintAt(data, 32) == Some(32 * n + 96)
    && UintAt(data, 64) == Some(n) && UintAt(data, 32 * n + 96) == Some(n)
    && WordsAt(data, 96, n) == Some(keys)
  }

  lemma {:induction false} BatchHead(ws: seq<BYTES>, keys: seq<BYTES>, values: seq<BYTES>)
    requires IsBatch(ws, keys, values)
    ensures HeadRead(Concat(ws), |keys|, PaddedKeys(keys))
  {
    var n := |keys|;
    WordsConcatAt(ws, 0, 0);
    WordsConcatAt(ws, 1, 32);
    WordsConcatAt(ws, 2, 64);
    WordsConcatAt(ws, n + 3, 32 * n + 96);
    WordsAtConcat(ws, 3, n);
    assert 32 * n + 96 == 32 * (n + 3);
  }

  lemma {:induction false} DecodeBatchFrom(data: BYTES, n: nat, keys: seq<BYTES>, values: Option<seq<BYTES>>)
    requires HeadRead(data, n, keys)
    requires StringsAt(data, 32 * (n + 4), 32 * (n + 4), n) == values
    ensures DecodePutBatch(data) == if values.Some? then Some((keys, values.value)) else None
  {
    assert 32 * n + 96 + 32 == 32 * (n + 4);
  }

  lemma {:induction false} BatchDecodes(ws: seq<BYTES>, keys: seq<BYTES>, values: seq<BYTES>)
    requires IsBatch(ws, keys, values)
    ensures DecodePutBatch(Concat(ws)) ==
      if ReadValues(values).Some? then Some((PaddedKeys(keys), ReadValues(values).value)) else None
  {
    var data, padded, read := Concat(ws), PaddedKeys(keys), ReadValues(values);
    BatchHead(ws, keys, values);
    BatchStrings(ws, keys, values);
    DecodeBatchFrom(data, |keys|, padded, read);
  }

  // ---------------------------------------------------------------- the words that put_batch writes

  lemma {:induction false} BatchWordsIsBatch(keys: seq<BYTES>, values: seq<BYTES>)
    requires BatchFits(keys, values)
    ensures IsBatch(BatchWords(keys, values), keys, values)
  {
    WordsLaid(BatchWords(keys, values), 64, 32 * |keys| + 96, |keys|, keys, values);
  }

  lemma {:induction false} WordsLaid(ws: seq<BYTES>, p: nat, q: nat, n: nat, keys: seq<BYTES>, values: seq<BYTES>)
    requires BatchFits(keys, values) && p == 64 && q == 32 * |keys| + 96 && n == |keys|
    requires ws == Laid(Word(p), Word(q), Word(n), keys, values)
    ensures IsBatch(ws, keys, values)
  {
    WordNum(p);
    WordNum(q);
    WordNum(n);
    LaidOut(ws, Word(p), Word(q), Word(n), keys, values);
  }

  lemma {:induction false} LaidOut(ws: seq<BYTES>, a: BYTES, b: BYTES, c: BYTES, keys: seq<BYTES>, values: seq<BYTES>)
    requires BatchFits(keys, values) && |a| == |b| == |c| == 32
    requires Num(a) == 64 && Num(b) == 32 * |keys| + 96 && Num(c) == |keys|
    requires ws == Laid(a, b, c, keys, values)
    ensures IsBatch(ws, keys, values)
  {
    var n := |keys|;
    var k, o, v := PaddedKeys(keys), Offsets(n, n), Cells(values);
    CellsAreWords(values);
    PartsAreWords(a, b, c, k, o, v);
    Parts(ws, a, b, c, k, o, v);
    forall i | 0 <= i < n ensures OffsetAt(ws, n, i) {
      OffsetLaid(ws, n, i);
    }
  }

  lemma PartsAreWords(a: BYTES, b: BYTES, c: BYTES, k: seq<BYTES>, o: seq<BYTES>, v: seq<BYTES>)
    requires |a| == |b| == |c| == 32 && Words(k) && Words(o) && Words(v)
    ensures Words([a, b, c] + k + [c] + o + v)
  {
    assert Words([a, b, c] + k + [c]);
    assert Words([a, b, c] + k + [c] + o);
  }

  lemma {:induction false} Parts(ws: seq<BYTES>, a: BYTES, b: BYTES, c: BYTES, k: seq<BYTES>, o: seq<BYTES>,
                                 v: seq<BYTES>)
    requires ws == [a, b, c] + k + [c] + o + v && |k| == |o|
    ensures var n := |k|;
      && |ws| == 4 + 2 * n + |v| && ws[0] == a && ws[1] == b && ws[2] == c && ws[n + 3] == c
      && ws[3..3 + n] == k && ws[2 * n + 4..] == v
      && forall i {:trigger o[i]} :: 0 <= i < n ==> ws[n + 4 + i] == o[i]
  {
  }

  lemma {:induction false} OffsetLaid(ws: seq<BYTES>, n: nat, i: nat)
    requires i < n && |ws| == 4 + 4 * n && 96 * n + 96 < TWO64
    requires ws[n + 4 + i] == Offsets(n, n)[i]
    ensures OffsetAt(ws, n, i)
  {
    WordNum(32 * n + 64 * i);
  }

  // ---------------------------------------------------------------- the call

  lemma {:induction false} BatchHex(args: BYTES)
    ensures "0x" + METHOD_HASH_PUTBATCH + ToHex(args) == "0x" + ToHex(SELECTOR_PUTBATCH + args)
  {
    PutBatchSelectorHex();
    ToHexConcat(SELECTOR_PUTBATCH, args);
  }

  lemma {:induction false} BatchCallOf(args: BYTES, decoded: Option<(seq<BYTES>, seq<BYTES>)>)
    requires DecodePutBatch(args) == decoded
    ensures CallOf("0x" + METHOD_HASH_PUTBATCH + ToHex(args)) ==
      if decoded.Some? then Some(PutBatchCall(decoded.value.0, decoded.value.1)) else None
  {
    BatchHex(args);
    BytesOfHex(SELECTOR_PUTBATCH + args);
    DispatchPutBatch(args, decoded);
  }

  lemma {:induction false} DispatchPutBatch(args: BYTES, decoded: Option<(seq<BYTES>, seq<BYTES>)>)
    requires DecodePutBatch(args) == decoded
    ensures Dispatch(SELECTOR_PUTBATCH + args) ==
      if decoded.Some? then Some(PutBatchCall(decoded.value.0, decoded.value.1)) else None
  {
    var input := SELECTOR_PUTBATCH + args;
    assert input[..4] == SELECTOR_PUTBATCH && input[4..] == args;
    assert SELECTOR_PUTBATCH[0] == 0x41 && SELECTOR_PUT[0] == 0xdb && SELECTOR_GET[0] == 0x8e &&
      SELECTOR_REMOVE[0] == 0x95;
  }

  /** For every batch: what the contract makes of the calldata. The keys always come back; each value is cut
      out of its own word and the cells behind it. */
  lemma {:induction false} PutBatchDataDecodes(keys: seq<BYTES>, values: seq<BYTES>)
    requires BatchFits(keys, values)
    ensures CallOf(PutBatchData(keys, values)) ==
      if ReadValues(values).Some? then Some(PutBatchCall(PaddedKeys(keys), ReadValues(values).value)) else None
  {
    BatchWordsIsBatch(keys, values);
    BatchDecodes(BatchWords(keys, values), keys, values);
    BatchCallOf(Concat(BatchWords(keys, values)), DecodePutBatch(Concat(BatchWords(keys, values))));
  }

  /** The hand-computed offsets lead back to exactly the batch, in order, if and only if every value fits its
      word or continues in the cells behind it. */
  lemma {:induction false} PutBatchRoundTripIff(keys: seq<BYTES>, values: seq<BYTES>)
    requires BatchFits(keys, values)
    ensures CallOf(PutBatchData(keys, values)) == Some(PutBatchCall(PaddedKeys(keys), values)) <==> AllReadBack(values)
  {
    PutBatchDataDecodes(keys, values);
    ReadValuesIff(values);
  }

  /** A single pair comes back if and only if its value fits a word. */
  lemma {:induction false} SinglePairDecodesIff(key: BYTES, value: BYTES)
    requires |value| < TWO32
    ensures CallOf(PutBatchData([key], [value])) == Some(PutBatchCall([Pad32(key)], [value])) <==> |value| <= 32
  {
    PutBatchRoundTripIff([key], [value]);
    assert PaddedKeys([key]) == [Pad32(key)];
    assert ReadsBack([value], 0) <==> |value| <= 32;
  }

  /** A longer value may come back when it is not the last: here its 33rd byte is the zero that begins the
      next length word. */
  lemma {:induction false} LongFirstReadsBack(v: BYTES, w: BYTES)
    requires |v| == 33 && v[32] == 0 && |w| <= 32
    ensures AllReadBack([v, w])
  {
    assert [v, w][1..] == [w];
    CellsTail([w], 0);
    ConcatTwo(Cells([w]), []);
    LeadingZero(|w|, 32);
    assert ReadsBack([v, w], 0) && ReadsBack([v, w], 1);
  }

  lemma {:induction false} LeadingZero(n: nat, len: nat)
    requires n < 256 && len >= 2
    ensures BigEndian(n, len)[0] == 0
  {
    if len == 2 {
      assert BigEndian(0, 1) == BigEndian(0, 0) + [0];
    } else {
      LeadingZero(n / 256, len - 1);
    }
  }

  lemma {:induction false} LongLastUnreadable(values: seq<BYTES>)
    requires values != [] && |values[|values| - 1]| > 32
    ensures ReadValues(values) == None
  {
    if |values| > 1 {
      LongLastUnreadable(values[1..]);
    } else {
      assert Concat(Cells(values[1..])) == [];
    }
  }

  /** If the last value is longer than a word, the decoder runs past the end of the calldata and the whole
      batch is rejected. */
  lemma {:induction false} LongLastValueIsRejected(keys: seq<BYTES>, values: seq<BYTES>)
    requires BatchFits(keys, values) && values != [] && |values[|values| - 1]| > 32
    ensures CallOf(PutBatchData(keys, values)) == None
  {
    PutBatchDataDecodes(keys, values);
    LongLastUnreadable(values);
  }
}
