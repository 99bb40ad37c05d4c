/** The reply to get, and the requests that read (adapter_ethereum.cpp get, get_all). */
module Replies {
  import opened Bytes
  import opened Hex
  import opened Abi
  import opened Calldata
  import opened Json
  import opened EthNode
  import opened RpcBatch

  /** The regular expression's \\w+. */
  predicate IsWord(s: string) {
    forall i | 0 <= i < |s| :: 'a' <= s[i] <= 'z' || 'A' <= s[i] <= 'Z' || '0' <= s[i] <= '9' || s[i] == '_'
  }

  lemma {:induction false} HexIsWord(s: string)
    requires IsHex(s)
    ensures IsWord(s)
  {
    assert forall i :: 0 <= i < |s| ==> IsHexDigit(s[i]);
  }

  /** No sign and no white space is in such a text, so a count is always read, and it is not negative. */
  lemma {:induction false} WordCount(s: string)
    requires IsWord(s) && s != ""
    ensures Extract(s).Some? && 0 <= Extract(s).value <= INT_MAX
  {
    assert !IsSpace(s[0]) && s[0] != '-' && s[0] != '+';
  }

  /** What get reads from a reply: substr throws past the end, and a length whose double is no int has
      no defined outcome. */
  function GetResult(s: string): Result<BYTES>
    requires IsWord(s)
  {
    if |s| < 128 then Thrown
    else
      WordCount(s[64..128]);
      var size := Extract(s[64..128]).value * 2;
      if size > INT_MAX then Thrown
      else
        var piece := s[128..if |s| < 128 + size then |s| else 128 + size];
        if |piece| % 2 != 0 then Thrown else Ok(FromHex(piece))
  }

  method ParseGet(s: string, unset: int) returns (r: Result<BYTES>)
    requires IsWord(s)
    ensures r == GetResult(s)
  {
    if |s| < 64 {
      return Thrown;
    }
    var valSize := HexToInt(s[64..if |s| < 128 then |s| else 128], unset) * 2;
    if |s| < 128 {
      return Thrown;
    }
    WordCount(s[64..128]);
    if valSize > INT_MAX {
      return Thrown;
    }
    r := HexToByteArray(s[128..if |s| < 128 + valSize then |s| else 128 + valSize]);
  }

  /** The reply for any value whose hex length fits an int gives the value back. */
  lemma {:induction false} GetIsExact(value: BYTES, pad: nat)
    requires 2 * |value| <= INT_MAX
    ensures IsWord(ToHex(EncodeString(value, pad))) && GetResult(ToHex(EncodeString(value, pad))) == Ok(value)
  {
    var b, n := EncodeString(value, pad), |value|;
    ToHexIsHex(b);
    HexIsWord(ToHex(b));
    EncodeStringLayout(value, pad);
    ToHexSlice(b, 32, 64);
    ToHexSlice(b, 64, 64 + n);
    WordReads(n);
    HexRoundTrip(value);
    GetFrom(ToHex(b), n, value);
  }

  lemma {:induction false} EncodeStringLayout(value: BYTES, pad: nat)
    ensures var b, n := EncodeString(value, pad), |value|;
      |b| == 64 + n + pad && b[32..64] == Word(n) && b[64..64 + n] == value
  {
  }

  lemma {:induction false} WordReads(n: nat)
    requires n <= INT_MAX
    ensures Extract(ToHex(Word(n))) == Some(n)
  {
    SizeFitsWord(n);
    IntToHexIsWord(n);
    IntRoundTrip(n, 64);
  }

  lemma {:induction false} GetFrom(s: string, n: nat, value: BYTES)
    requires IsWord(s) && |s| >= 128 + 2 * n && 2 * n <= INT_MAX && |value| == n
    requires Extract(s[64..128]) == Some(n)
    requires s[128..128 + 2 * n] == ToHex(value)
    ensures GetResult(s) == Ok(value)
  {
    HexRoundTrip(value);
  }

  const SCAN_DATA := "0x" + METHOD_HASH_GETALL

  lemma {:induction false} ScanDataDecodes()
    ensures CallOf(SCAN_DATA) == Some(ScanCall) && Plain(SCAN_DATA) && SCAN_DATA != ""
  {
    GetAllSelectorHex();
    BytesOfHex(SELECTOR_GETALL);
    DispatchScan();
  }

  lemma {:induction false} GetDataPlain(key: BYTES)
    ensures Plain(GetData(key)) && GetData(key) != ""
  {
    ConvertPads(key);
    ToHexIsHex(Pad32(key));
    assert !IsHexDigit('"') && Plain("0x" + METHOD_HASH_GET);
  }

  lemma LatestTag()
    ensures ",\"" + "latest" + "\"" == LATEST
  {
  }

  /** eth_call's text: the object and the block tag. */
  lemma {:induction false} ReadRequestReads(p: RpcParams, address: string)
    requires PlainParams(p) && p.to == address && p.data != "" && address != ""
    ensures ReadRequestOf(address, ToJson(p) + LATEST) == CallOf(p.data)
  {
    RequestReads(p, address);
    var s := ToJson(p) + LATEST;
    assert |LATEST| == 9;
    assert s[|s| - 9..] == LATEST && s[..|s| - 9] == ToJson(p);
  }
}
