/** The decoder of a table scan's reply (adapter_ethereum.cpp split). */
module ScanDecoder {
  import opened Bytes
  import opened Hex
  import opened Framing
  import opened Abi

  /** The map that emplace builds from parallel lists: the first value of a key stays. */
  function Emplaced(keys: seq<BYTES>, values: seq<BYTES>): Table
    requires |keys| == |values|
  {
    if keys == [] then map[]
    else
      var n := |keys| - 1;
      var m := Emplaced(keys[..n], values[..n]);
      if keys[n] in m then m else m[keys[n] := values[n]]
  }

  function KeyAt(s: string, i: nat): string
    requires 64 * (i + 4) <= |s|
  {
    s[64 * (i + 3)..64 * (i + 4)]
  }

  /** The row at index i, its value taken from the i-th piece. */
  function Decoded(pieces: seq<string>, n: nat): (values: seq<BYTES>)
    requires EvenPieces(pieces, n)
    ensures |values| == n
  {
    seq(n, i requires 0 <= i < n => FromHex(pieces[i]))
  }

  function DecodedKeys(s: string, n: nat): (keys: seq<BYTES>)
    requires 64 * (n + 4) <= |s|
    ensures |keys| == n
  {
    seq(n, i requires 0 <= i < n => FromHex(KeyAt(s, i)))
  }

  predicate EvenPieces(pieces: seq<string>, n: nat) {
    n <= |pieces| && forall i | 0 <= i < n :: |pieces[i]| % 2 == 0
  }

  /** What split returns on any text: reserve throws on a negative count; substr, at and hex_to_byte_array
      throw on a reply that is cut short, has too few separators or an odd piece. A count that is not even
      written leaves the variable as it happens to be. */
  function SplitResult(s: string, unset: int): Result<Table> {
    if s == "" then Ok(map[])
    else if |s| < 128 then Thrown
    else
      var n := HexToInt(s[128..if |s| < 192 then |s| else 192], unset);
      if n < 0 || |s| < 64 * (n + 4) then Thrown
      else
        var pieces := Tokens(s[64 * (n + 4)..]);
        if EvenPieces(pieces, n) then Ok(Emplaced(DecodedKeys(s, n), Decoded(pieces, n))) else Thrown
  }

  method Split(response: string, unset: int) returns (r: Result<Table>)
    ensures r == SplitResult(response, unset)
  {
    if response == "" {
      return Ok(map[]);
    }
    if |response| < 128 {
      return Thrown;
    }
    var n := HexToInt(response[128..if |response| < 192 then |response| else 192], unset);
    if n < 0 {
      return Thrown;
    }
    var keys := GetKeys(response, n);
    if keys.Thrown? || |response| < 64 * (n + 4) {
      return Thrown;
    }
    var values := GetValues(response[64 * (n + 4)..]);
    r := Fill(response, n, keys.value, values);
  }

  /** The key loop: substr throws past the end and cuts the last piece short. */
  method GetKeys(response: string, n: nat) returns (r: Result<seq<string>>)
    ensures 64 * (n + 4) <= |response| ==>
      r.Ok? && |r.value| == n && forall j :: 0 <= j < n ==> r.value[j] == KeyAt(response, j)
  {
    var keys: seq<string> := [];
    var i := 0;
    while i < n
      invariant 0 <= i <= n
      invariant |keys| == i
      invariant forall j :: 0 <= j < i && 64 * (j + 4) <= |response| ==> keys[j] == KeyAt(response, j)
    {
      if |response| < 64 * (i + 3) {
        return Thrown;
      }
      keys := keys + [response[64 * (i + 3)..if |response| < 64 * (i + 4) then |response| else 64 * (i + 4)]];
      i := i + 1;
    }
    return Ok(keys);
  }

  /** The token loop; each round consumes at least the token, so it ends. */
  method GetValues(parsed: string) returns (values: seq<string>)
    ensures values == Tokens(parsed)
  {
    values := [];
    var result := parsed;
    while result != ""
      invariant Tokens(parsed) == values + Tokens(result)
      decreases |result|
    {
      var index := FindFrom(result, 0);
      if index.Some? {
        values := values + [result[..index.value]];
        result := result[index.value + 8..];
      } else {
        break;
      }
    }
  }

  lemma {:induction false} FillStep(response: string, values: seq<string>, i: nat, ret: Table)
    requires 64 * (i + 5) <= |response| && EvenPieces(values, i + 1)
    requires ret == Emplaced(DecodedKeys(response, i), Decoded(values, i))
    ensures Emplaced(DecodedKeys(response, i + 1), Decoded(values, i + 1)) ==
      var key, value := FromHex(KeyAt(response, i)), FromHex(values[i]); if key in ret then ret else ret[key := value]
  {
    var ks, vs := DecodedKeys(response, i + 1), Decoded(values, i + 1);
    assert ks[..i] == DecodedKeys(response, i) && vs[..i] == Decoded(values, i);
  }

  /** The fill loop: at and hex_to_byte_array throw. */
  method Fill(response: string, n: nat, keys: seq<string>, values: seq<string>) returns (r: Result<Table>)
    requires 64 * (n + 4) <= |response|
    requires |keys| == n && forall j :: 0 <= j < n ==> keys[j] == KeyAt(response, j)
    ensures r == if EvenPieces(values, n) then Ok(Emplaced(DecodedKeys(response, n), Decoded(values, n))) else Thrown
  {
    var ret: Table := map[];
    var i := 0;
    while i < n
      invariant 0 <= i <= n
      invariant EvenPieces(values, i)
      invariant ret == Emplaced(DecodedKeys(response, i), Decoded(values, i))
    {
      if i >= |values| {
        return Thrown;
      }
      var key := HexToByteArray(keys[i]);
      var value := HexToByteArray(values[i]);
      if key.Thrown? || value.Thrown? {
        return Thrown;
      }
      FillStep(response, values, i, ret);
      if key.value !in ret {
        ret := ret[key.value := value.value];
      }
      i := i + 1;
    }
    return Ok(ret);
  }

  // ---------------------------------------------------------------- exactness

  /** tab is the table whose rows are the given keys with the given values. */
  ghost predicate IsTable(tab: Table, keys: seq<BYTES>, values: seq<BYTES>) {
    |keys| == |values|
    && (forall k :: k in tab <==> k in keys)
    && forall i :: 0 <= i < |keys| ==> keys[i] in tab && tab[keys[i]] == values[i]
  }

  lemma {:induction false} EmplacedDistinct(keys: seq<BYTES>, values: seq<BYTES>)
    requires |keys| == |values| && Distinct(keys)
    ensures IsTable(Emplaced(keys, values), keys, values)
  {
    if keys != [] {
      var n := |keys| - 1;
      DistinctInit(keys);
      EmplacedDistinct(keys[..n], values[..n]);
      assert keys == keys[..n] + [keys[n]];
    }
  }

  lemma {:induction false} KeyReads(b: BYTES, i: nat, key: BYTES)
    requires 32 * (i + 4) <= |b| && b[32 * (i + 3)..32 * (i + 4)] == key
    ensures FromHex(KeyAt(ToHex(b), i)) == key
  {
    assert KeyAt(ToHex(b), i) == ToHex(key) by {
      ToHexSlice(b, 32 * (i + 3), 32 * (i + 4));
    }
    HexRoundTrip(key);
  }

  lemma {:induction false} CountReads(b: BYTES, n: nat)
    requires 96 <= |b| && b[64..96] == Word(n) && n <= INT_MAX
    ensures |ToHex(b)| >= 192 && Extract(ToHex(b)[128..192]) == Some(n)
  {
    ToHexSlice(b, 64, 96);
    SizeFitsWord(n);
    IntToHexIsWord(n);
    IntRoundTrip(n, 64);
  }

  lemma {:induction false} TailReads(b: BYTES, p: nat)
    requires p <= |b|
    ensures ToHex(b)[2 * p..] == ToHex(b[p..])
  {
    ToHexSlice(b, p, |b|);
  }

  lemma {:induction false} SplitLayout(keys: seq<BYTES>, text: BYTES, pad: nat)
    requires Words(keys) && |keys| <= INT_MAX
    ensures var s, n := ToHex(EncodeScan(keys, text, pad)), |keys|;
      && |s| >= 64 * (n + 4)
      && Extract(s[128..192]) == Some(n)
      && s[64 * (n + 4)..] == ToHex(text + ZeroBytes(pad))
      && DecodedKeys(s, n) == keys
  {
    EncodeScanLayout(keys, text, pad);
    LayoutReads(EncodeScan(keys, text, pad), keys, text + ZeroBytes(pad));
  }

  lemma {:induction false} LayoutReads(b: BYTES, keys: seq<BYTES>, tail: BYTES)
    requires |keys| <= INT_MAX && |b| == 32 * (|keys| + 4) + |tail|
    requires b[64..96] == Word(|keys|) && b[32 * (|keys| + 4)..] == tail
    requires forall i :: 0 <= i < |keys| ==> b[32 * (i + 3)..32 * (i + 4)] == keys[i]
    ensures Extract(ToHex(b)[128..192]) == Some(|keys|)
    ensures ToHex(b)[64 * (|keys| + 4)..] == ToHex(tail)
    ensures DecodedKeys(ToHex(b), |keys|) == keys
  {
    CountReads(b, |keys|);
    TailReads(b, 32 * (|keys| + 4));
    forall i | 0 <= i < |keys| ensures FromHex(KeyAt(ToHex(b), i)) == keys[i] {
      KeyReads(b, i, keys[i]);
    }
  }

  /** The outcome once keys and pieces have been cut out. */
  function Assembled(keys: seq<BYTES>, pieces: seq<string>): Result<Table> {
    if EvenPieces(pieces, |keys|) then Ok(Emplaced(keys, Decoded(pieces, |keys|))) else Thrown
  }

  lemma {:induction false} SplitAssembles(keys: seq<BYTES>, text: BYTES, pad: nat, unset: int)
    requires Words(keys) && |keys| <= INT_MAX
    ensures SplitResult(ToHex(EncodeScan(keys, text, pad)), unset) ==
      Assembled(keys, Tokens(ToHex(text + ZeroBytes(pad))))
  {
    SplitLayout(keys, text, pad);
    SplitFrom(ToHex(EncodeScan(keys, text, pad)), |keys|, keys, ToHex(text + ZeroBytes(pad)), unset);
  }

  lemma {:induction false} SplitFrom(s: string, n: nat, keys: seq<BYTES>, tail: string, unset: int)
    requires |s| >= 64 * (n + 4) && Extract(s[128..192]) == Some(n) && s[64 * (n + 4)..] == tail &&
      DecodedKeys(s, n) == keys
    ensures SplitResult(s, unset) == Assembled(keys, Tokens(tail))
  {
  }

  lemma {:induction false} SafeAssembly(tab: Table, keys: seq<BYTES>, values: seq<BYTES>)
    requires Distinct(keys) && IsTable(tab, keys, values)
    ensures Assembled(keys, HexAll(values)) == Ok(tab)
  {
    var pieces, n := HexAll(values), |keys|;
    forall i | 0 <= i < n ensures FromHex(pieces[i]) == values[i] { HexRoundTrip(values[i]); }
    assert Decoded(pieces, n) == values;
    EmplacedDistinct(keys, values);
    assert Emplaced(keys, values) == tab;
  }

  lemma {:induction false} UnsafeAssembly(tab: Table, keys: seq<BYTES>, values: seq<BYTES>, pieces: seq<string>, i: nat)
    requires Distinct(keys) && IsTable(tab, keys, values)
    requires i < |values| && i < |pieces| && |pieces[i]| < 2 * |values[i]|
    ensures Assembled(keys, pieces) != Ok(tab)
  {
    if EvenPieces(pieces, |keys|) {
      var got := Decoded(pieces, |keys|);
      EmplacedDistinct(keys, got);
      assert |got[i]| < |values[i]|;
      assert Emplaced(keys, got)[keys[i]] != tab[keys[i]];
    }
  }

  /** Decoding the reply of a table scan recovers the table if and only if every value is
      separator-safe, for any number of rows an int can count and any amount of zero padding. */
  lemma {:induction false} SplitIsExactIff(tab: Table, keys: seq<BYTES>, values: seq<BYTES>, pad: nat, unset: int)
    requires Words(keys) && Distinct(keys) && |keys| <= INT_MAX && IsTable(tab, keys, values)
    ensures SplitResult(ToHex(EncodeScan(keys, Blob(values), pad)), unset) == Ok(tab) <==> AllSafe(values)
  {
    SplitAssembles(keys, Blob(values), pad, unset);
    if AllSafe(values) {
      SafeTokens(values, pad);
      SafeAssembly(tab, keys, values);
    } else {
      var i := UnsafeToken(values, pad);
      UnsafeAssembly(tab, keys, values, Tokens(ToHex(Blob(values) + ZeroBytes(pad))), i);
    }
  }

  /** Whatever the values are, a scan's reply never has too few pieces: decoding throws if and only if one of
      the first pieces, as many as there are rows, has an odd number of digits; otherwise each key comes back
      with the bytes of the piece at its place. */
  lemma {:induction false} SplitOutcome(keys: seq<BYTES>, values: seq<BYTES>, pad: nat, unset: int)
    requires Words(keys) && Distinct(keys) && |keys| == |values| <= INT_MAX
    ensures var n, pieces := |values|, Tokens(ToHex(Blob(values) + ZeroBytes(pad)));
      var r := SplitResult(ToHex(EncodeScan(keys, Blob(values), pad)), unset);
      && n <= |pieces|
      && (r == Thrown <==> exists i :: 0 <= i < n && |pieces[i]| % 2 != 0)
      && (r.Ok? ==> IsTable(r.value, keys, Decoded(pieces, n)))
  {
    var n, pieces := |values|, Tokens(ToHex(Blob(values) + ZeroBytes(pad)));
    SplitAssembles(keys, Blob(values), pad, unset);
    EnoughTokens(values, pad);
    if EvenPieces(pieces, n) {
      EmplacedDistinct(keys, Decoded(pieces, n));
    }
  }
}
