/** The calldata that the adapter writes by hand, and what the contract's ABI decoder reads from it
    (adapter_ethereum.cpp put, put_batch, remove, get). */
module Calldata {
  import opened Bytes
  import opened Hex
  import opened Abi

  const METHOD_HASH_PUT := "db82ecc3"
  const METHOD_HASH_GET := "8eaa6ac0"
  const METHOD_HASH_GETALL := "b3055e26"
  const METHOD_HASH_REMOVE := "95bc2673"
  const METHOD_HASH_PUTBATCH := "410f08ab"

  const SELECTOR_PUT: BYTES := [0xdb, 0x82, 0xec, 0xc3]
  const SELECTOR_GET: BYTES := [0x8e, 0xaa, 0x6a, 0xc0]
  const SELECTOR_GETALL: BYTES := [0xb3, 0x05, 0x5e, 0x26]
  const SELECTOR_REMOVE: BYTES := [0x95, 0xbc, 0x26, 0x73]
  const SELECTOR_PUTBATCH: BYTES := [0x41, 0x0f, 0x08, 0xab]

  /** A call as the contract receives it. */
  datatype Call =
    | PutCall(key: BYTES, value: BYTES)
    | GetCall(key: BYTES)
    | ScanCall
    | RemoveCall(key: BYTES)
    | PutBatchCall(keys: seq<BYTES>, values: seq<BYTES>)

  lemma {:induction false} PutSelectorHex()
    ensures ToHex(SELECTOR_PUT) == METHOD_HASH_PUT
  {
  }

  lemma {:induction false} GetSelectorHex()
    ensures ToHex(SELECTOR_GET) == METHOD_HASH_GET
  {
  }

  lemma {:induction false} GetAllSelectorHex()
    ensures ToHex(SELECTOR_GETALL) == METHOD_HASH_GETALL
  {
  }

  lemma {:induction false} RemoveSelectorHex()
    ensures ToHex(SELECTOR_REMOVE) == METHOD_HASH_REMOVE
  {
  }

  lemma {:induction false} PutBatchSelectorHex()
    ensures ToHex(SELECTOR_PUTBATCH) == METHOD_HASH_PUTBATCH
  {
  }

  /** The contract's dispatch on the first four bytes. */
  function Dispatch(input: BYTES): Option<Call> {
    if |input| < 4 then None
    else
      var selector, args := input[..4], input[4..];
      if selector == SELECTOR_PUT then
        (match DecodePut(args)
         case Some((key, value)) => Some(PutCall(key, value))
         case None => None)
      else if selector == SELECTOR_GET then
        (match WordAt(args, 0) case Some(key) => Some(GetCall(key)) case None => None)
      else if selector == SELECTOR_REMOVE then
        (match WordAt(args, 0) case Some(key) => Some(RemoveCall(key)) case None => None)
      else if selector == SELECTOR_PUTBATCH then
        (match DecodePutBatch(args)
         case Some((keys, values)) => Some(PutBatchCall(keys, values))
         case None => None)
      else if selector == SELECTOR_GETALL then Some(ScanCall)
      else None
  }

  /** The bytes of a 0x-prefixed hex text. */
  function BytesOf(data: string): Option<BYTES> {
    if |data| >= 2 && data[..2] == "0x" && IsHex(data[2..]) && |data| % 2 == 0 then Some(FromHex(data[2..])) else None
  }

  /** The call carried by such a text. */
  function CallOf(data: string): Option<Call> {
    match BytesOf(data)
    case Some(input) => Dispatch(input)
    case None => None
  }

  /** Every key of a decoded call is a bytes32. */
  ghost predicate KeysSized(c: Option<Call>) {
    match c
    case Some(PutCall(k, _)) => |k| == 32
    case Some(GetCall(k)) => |k| == 32
    case Some(RemoveCall(k)) => |k| == 32
    case Some(PutBatchCall(ks, _)) => Words(ks)
    case _ => true
  }

  lemma CallKeysSized(data: string)
    ensures KeysSized(CallOf(data))
  {
  }

  lemma {:induction false} BytesOfHex(input: BYTES)
    ensures BytesOf("0x" + ToHex(input)) == Some(input)
  {
    assert ("0x" + ToHex(input))[2..] == ToHex(input);
    HexRoundTrip(input);
  }

  // ---------------------------------------------------------------- single-key calls

  function PutData(key: BYTES, value: BYTES): string {
    "0x" + METHOD_HASH_PUT + ConvertTo32Byte(ToHex(key)) + IntToHex(64, 64) + IntToHex(|value|, 64) + ToHex(value)
  }

  function GetData(key: BYTES): string {
    "0x" + METHOD_HASH_GET + ConvertTo32Byte(ToHex(key))
  }

  function RemoveData(key: BYTES): string {
    "0x" + METHOD_HASH_REMOVE + ConvertTo32Byte(ToHex(key))
  }

  function PutArgs(key: BYTES, value: BYTES): BYTES {
    Pad32(key) + Word(64) + Word(|value|) + value
  }

  lemma {:induction false} PutDataHex(key: BYTES, value: BYTES)
    requires |value| < TWO32
    ensures PutData(key, value) == "0x" + ToHex(SELECTOR_PUT + PutArgs(key, value))
  {
    PutSelectorHex();
    PutTextHex(SELECTOR_PUT, key, 64, |value|, value);
  }

  lemma {:induction false} PutTextHex(selector: BYTES, key: BYTES, p: nat, n: nat, value: BYTES)
    requires p < TWO64 && n < TWO64
    ensures "0x" + ToHex(selector) + ConvertTo32Byte(ToHex(key)) + IntToHex(p, 64) + IntToHex(n, 64) + ToHex(value) ==
      "0x" + ToHex(selector + (Pad32(key) + Word(p) + Word(n) + value))
  {
    SizeFitsWord(p);
    SizeFitsWord(n);
    IntToHexIsWord(p);
    IntToHexIsWord(n);
    ConvertPads(key);
    HexOfFive(selector, Pad32(key), Word(p), Word(n), value);
  }

  lemma {:induction false} HexOfFive(a: BYTES, b: BYTES, c: BYTES, d: BYTES, e: BYTES)
    ensures ToHex(a + (b + c + d + e)) == ToHex(a) + ToHex(b) + ToHex(c) + ToHex(d) + ToHex(e)
  {
    ToHexConcat(a, b + c + d + e);
    ToHexConcat(b + c + d, e);
    ToHexConcat(b + c, d);
    ToHexConcat(b, c);
  }

  lemma {:induction false} PutArgsDecode(key: BYTES, value: BYTES)
    requires |value| < TWO32
    ensures DecodePut(PutArgs(key, value)) == Some((Pad32(key), value))
  {
    SizeFitsWord(|value|);
    SizeFitsWord(64);
    BigEndianNum(64, 32);
    var front, args := Pad32(key) + Word(64), PutArgs(key, value);
    assert args[0..32] == Pad32(key) && args[32..64] == Word(64);
    StringRoundTrip(front, value, []);
    assert args == front + Word(|value|) + value + [];
  }

  /** put's calldata, its tail unpadded, decodes to the padded key and exactly the value. */
  lemma {:induction false} PutDataDecodes(key: BYTES, value: BYTES)
    requires |value| < TWO32
    ensures CallOf(PutData(key, value)) == Some(PutCall(Pad32(key), value))
  {
    var args := PutArgs(key, value);
    PutDataHex(key, value);
    BytesOfHex(SELECTOR_PUT + args);
    PutArgsDecode(key, value);
    assert (SELECTOR_PUT + args)[..4] == SELECTOR_PUT && (SELECTOR_PUT + args)[4..] == args;
  }

  lemma {:induction false} GetDataDecodes(key: BYTES)
    ensures CallOf(GetData(key)) == Some(GetCall(Pad32(key)))
  {
    var input := SELECTOR_GET + Pad32(key);
    ConvertPads(key);
    GetSelectorHex();
    ToHexConcat(SELECTOR_GET, Pad32(key));
    assert GetData(key) == "0x" + ToHex(input);
    BytesOfHex(input);
    assert input[..4] == SELECTOR_GET && input[4..] == Pad32(key);
    assert Pad32(key)[0..32] == Pad32(key);
  }

  lemma {:induction false} RemoveDataDecodes(key: BYTES)
    ensures CallOf(RemoveData(key)) == Some(RemoveCall(Pad32(key)))
  {
    var input := SELECTOR_REMOVE + Pad32(key);
    ConvertPads(key);
    RemoveSelectorHex();
    ToHexConcat(SELECTOR_REMOVE, Pad32(key));
    assert RemoveData(key) == "0x" + ToHex(input);
    BytesOfHex(input);
    assert input[..4] == SELECTOR_REMOVE && input[4..] == Pad32(key);
    assert Pad32(key)[0..32] == Pad32(key);
  }

  lemma {:induction false} DispatchScan()
    ensures Dispatch(SELECTOR_GETALL) == Some(ScanCall)
  {
    assert SELECTOR_GETALL[..4] == SELECTOR_GETALL;
    assert SELECTOR_GETALL[0] == 0xb3 && SELECTOR_PUT[0] == 0xdb && SELECTOR_GET[0] == 0x8e;
    assert SELECTOR_REMOVE[0] == 0x95 && SELECTOR_PUTBATCH[0] == 0x41;
  }
}
