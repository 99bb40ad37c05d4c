/** The JSON text of an RPC request, and how a JSON reader takes it apart again
    (adapter_ethereum.cpp parse_params_to_json, adapter_ethereum.h RpcParams). */
module Json {
  import opened Bytes
  import opened Hex
  import opened Network

  datatype RpcParams = RpcParams(
    from: string, to: string, data: string, rpcMethod: string, gas: string, gasPrice: string,
    quantityTag: string, transactionId: string, nonce: uint64)

  type Field = (string, string)

  function FieldText(f: Field): string {
    "\"" + f.0 + "\":\"" + f.1 + "\""
  }

  function Optional(name: string, value: string): seq<Field> {
    if value != "" then [(name, value)] else []
  }

  /** The fields that are present; a nonce of 0 is left out. */
  function Fields(p: RpcParams): seq<Field> {
    Optional("from", p.from) + Optional("data", p.data) + Optional("to", p.to) + Optional("gas", p.gas)
    + Optional("gasPrice", p.gasPrice) + NonceField(p)
  }

  /** The fields of an object, each but the first behind a comma. */
  function Joined(fs: seq<Field>): string {
    if fs == [] then ""
    else if |fs| == 1 then FieldText(fs[0])
    else FieldText(fs[0]) + "," + Joined(fs[1..])
  }

  function ToJson(p: RpcParams): string {
    "{" + Joined(Fields(p)) + "}"
  }

  lemma {:induction false} JoinedAppend(fs: seq<Field>, f: Field)
    requires fs != []
    ensures Joined(fs + [f]) == Joined(fs) + "," + FieldText(f)
  {
    if |fs| == 1 {
      assert (fs + [f])[1..] == [f];
    } else {
      assert (fs + [f])[1..] == fs[1..] + [f];
      JoinedAppend(fs[1..], f);
    }
  }

  method ParseParamsToJson(params: RpcParams) returns (json: string)
    ensures json == ToJson(params)
  {
    var els := Elements(params);
    json := "{";
    var i := 0;
    while i < |els|
      invariant 0 <= i <= |els|
      invariant json == "{" + JoinedPrefix(els, i)
    {
      JoinedPrefixStep(els, i, json);
      json := json + FieldText(els[i]);
      if i < |els| - 1 {
        json := json + ",";
      }
      i := i + 1;
    }
    assert els[..i] == els;
    json := json + "}";
  }

  /** The element list: one conditional push_back a field. */
  method Elements(params: RpcParams) returns (els: seq<Field>)
    ensures els == Fields(params)
  {
    els := [];
    if params.from != "" { els := els + [("from", params.from)]; }
    assert els == Optional("from", params.from);
    if params.data != "" { els := els + [("data", params.data)]; }
    ghost var a := Optional("from", params.from) + Optional("data", params.data);
    assert els == a;
    if params.to != "" { els := els + [("to", params.to)]; }
    ghost var b := a + Optional("to", params.to);
    assert els == b;
    if params.gas != "" { els := els + [("gas", params.gas)]; }
    ghost var c := b + Optional("gas", params.gas);
    assert els == c;
    if params.gasPrice != "" { els := els + [("gasPrice", params.gasPrice)]; }
    assert els == c + Optional("gasPrice", params.gasPrice);
    if params.nonce > 0 { els := els + [("nonce", "0x" + IntToHex(params.nonce, 0))]; }
  }

  /** The text of the first i fields, with the comma that announces a further one. */
  ghost function JoinedPrefix(fs: seq<Field>, i: nat): string
    requires i <= |fs|
  {
    if i == 0 then "" else if i == |fs| then Joined(fs[..i]) else Joined(fs[..i]) + ","
  }

  lemma {:induction false} JoinedMore(fs: seq<Field>, i: nat)
    requires i < |fs|
    ensures Joined(fs[..i + 1]) == JoinedPrefix(fs, i) + FieldText(fs[i])
  {
    assert fs[..i + 1] == fs[..i] + [fs[i]];
    if i > 0 {
      JoinedAppend(fs[..i], fs[i]);
    } else {
      assert "" + FieldText(fs[i]) == FieldText(fs[i]);
    }
  }

  lemma {:induction false} JoinedPrefixStep(fs: seq<Field>, i: nat, json: string)
    requires i < |fs| && json == "{" + JoinedPrefix(fs, i)
    ensures "{" + JoinedPrefix(fs, i + 1) ==
      if i < |fs| - 1 then json + FieldText(fs[i]) + "," else json + FieldText(fs[i])
  {
    JoinedMore(fs, i);
    Regroup(JoinedPrefix(fs, i), FieldText(fs[i]), Joined(fs[..i + 1]), json);
  }

  lemma Regroup(front: string, text: string, all: string, json: string)
    requires all == front + text && json == "{" + front
    ensures "{" + all == json + text && "{" + (all + ",") == json + text + ","
  {
  }

  // ---------------------------------------------------------------- reading it back

  /** Position of the first quote at or after p. */
  function QuoteFrom(s: string, p: nat): (q: nat)
    requires p <= |s|
    ensures p <= q <= |s|
    decreases |s| - p
  {
    if p == |s| || s[p] == '"' then p else QuoteFrom(s, p + 1)
  }

  predicate Plain(s: string) {
    '"' !in s
  }

  ghost predicate PlainFields(fs: seq<Field>) {
    forall i :: 0 <= i < |fs| ==> Plain(fs[i].0) && Plain(fs[i].1)
  }

  /** A quoted text at the front, and what follows it. */
  function ReadQuoted(s: string): Option<(string, string)> {
    if s == "" || s[0] != '"' then None
    else
      var q := QuoteFrom(s, 1);
      if q == |s| then None else Some((s[1..q], s[q + 1..]))
  }

  /** Name, colon and value at the front, and what follows them. */
  function ReadField(s: string): Option<(Field, string)> {
    match ReadQuoted(s)
    case None => None
    case Some((name, rest)) =>
      if rest == "" || rest[0] != ':' then None
      else
        match ReadQuoted(rest[1..])
        case None => None
        case Some((value, rest')) => Some(((name, value), rest'))
  }

  /** Fields up to the closing brace, which must end the text. */
  function ReadFields(s: string): Option<seq<Field>>
    decreases |s|
  {
    match ReadField(s)
    case None => None
    case Some((f, rest)) =>
      if rest == "}" then Some([f])
      else if rest == "" || rest[0] != ',' then None
      else
        match ReadFields(rest[1..])
        case None => None
        case Some(fs) => Some([f] + fs)
  }

  /** An object whose values are all strings without escapes. */
  function ReadObject(s: string): Option<seq<Field>> {
    if s == "{}" then Some([])
    else if s == "" || s[0] != '{' then None
    else ReadFields(s[1..])
  }

  lemma {:induction false} QuoteIsFirst(s: string, p: nat, q: nat)
    requires p <= q < |s| && s[q] == '"' && forall i :: p <= i < q ==> s[i] != '"'
    ensures QuoteFrom(s, p) == q
    decreases q - p
  {
    if p < q {
      QuoteIsFirst(s, p + 1, q);
    }
  }

  lemma {:induction false} ReadQuotedBack(text: string, rest: string)
    requires Plain(text)
    ensures ReadQuoted("\"" + text + "\"" + rest) == Some((text, rest))
  {
    var s := "\"" + text + "\"" + rest;
    assert forall i :: 1 <= i < |text| + 1 ==> s[i] == text[i - 1];
    QuoteIsFirst(s, 1, |text| + 1);
    assert s[1..|text| + 1] == text && s[|text| + 2..] == rest;
  }

  lemma {:induction false} ReadFieldBack(f: Field, rest: string)
    requires Plain(f.0) && Plain(f.1)
    ensures ReadField(FieldText(f) + rest) == Some((f, rest))
  {
    var tail := "\"" + f.1 + "\"" + rest;
    assert FieldText(f) + rest == "\"" + f.0 + "\"" + (":" + tail);
    ReadQuotedBack(f.0, ":" + tail);
    assert (":" + tail)[1..] == tail;
    ReadQuotedBack(f.1, rest);
  }

  lemma {:induction false} ReadFieldsBack(fs: seq<Field>)
    requires fs != [] && PlainFields(fs)
    ensures ReadFields(Joined(fs) + "}") == Some(fs)
  {
    if |fs| == 1 {
      ReadFieldsEnd(fs[0]);
      assert fs == [fs[0]];
    } else {
      JoinedSplit(fs);
      ReadFieldsBack(fs[1..]);
      ReadFieldsCons(fs[0], Joined(fs[1..]) + "}", fs[1..]);
      assert fs == [fs[0]] + fs[1..];
    }
  }

  lemma {:induction false} JoinedSplit(fs: seq<Field>)
    requires |fs| > 1
    ensures Joined(fs) + "}" == FieldText(fs[0]) + ("," + (Joined(fs[1..]) + "}"))
  {
    assert Joined(fs) == FieldText(fs[0]) + "," + Joined(fs[1..]);
  }

  lemma {:induction false} ReadFieldsEnd(f: Field)
    requires Plain(f.0) && Plain(f.1)
    ensures ReadFields(FieldText(f) + "}") == Some([f])
  {
    ReadFieldBack(f, "}");
  }

  lemma {:induction false} ReadFieldsCons(f: Field, tail: string, more: seq<Field>)
    requires Plain(f.0) && Plain(f.1) && ReadFields(tail) == Some(more)
    ensures ReadFields(FieldText(f) + ("," + tail)) == Some([f] + more)
  {
    ReadFieldBack(f, "," + tail);
    assert ("," + tail)[0] == ',' && ("," + tail)[1..] == tail;
  }

  lemma {:induction false} JoinedNonEmpty(fs: seq<Field>)
    requires fs != []
    ensures |Joined(fs)| > 0
  {
    assert |FieldText(fs[0])| > 0;
  }

  lemma {:induction false} ObjectBack(fs: seq<Field>, s: string)
    requires PlainFields(fs) && s == "{" + Joined(fs) + "}"
    ensures ReadObject(s) == Some(fs)
  {
    if fs == [] {
      assert s == "{}";
    } else {
      JoinedNonEmpty(fs);
      assert |s| > |"{}"| && s[0] == '{' && s[1..] == Joined(fs) + "}";
      ReadFieldsBack(fs);
    }
  }

  /** A reader of the request text gets back exactly the fields that were written. */
  lemma {:induction false} JsonRoundTrip(p: RpcParams)
    requires PlainFields(Fields(p))
    ensures ReadObject(ToJson(p)) == Some(Fields(p))
  {
    ObjectBack(Fields(p), ToJson(p));
  }

  function ValueOf(fs: seq<Field>, name: string): Option<string> {
    if fs == [] then None else if fs[0].0 == name then Some(fs[0].1) else ValueOf(fs[1..], name)
  }

  lemma {:induction false} NonceTextPlain(n: nat)
    ensures Plain("0x" + IntToHex(n, 0))
  {
    HexDigitsParse(n);
    assert IntToHex(n, 0) == HexDigits(n);
    assert !IsHexDigit('"');
  }

  lemma {:induction false} ValueOfSkip(name: string, value: string, fs: seq<Field>, other: string)
    ensures ValueOf(Optional(name, value) + fs, other) ==
      if value != "" && name == other then Some(value) else ValueOf(fs, other)
  {
    if value != "" {
      assert (Optional(name, value) + fs)[1..] == fs;
    } else {
      assert Optional(name, value) + fs == fs;
    }
  }

  function NonceField(p: RpcParams): seq<Field> {
    if p.nonce > 0 then [("nonce", "0x" + IntToHex(p.nonce, 0))] else []
  }

  /** A lookup passes the optional fields in order. */
  lemma {:induction false} FieldsLookup(p: RpcParams, name: string)
    ensures ValueOf(Fields(p), name) ==
      if p.from != "" && "from" == name then Some(p.from)
      else if p.data != "" && "data" == name then Some(p.data)
      else if p.to != "" && "to" == name then Some(p.to)
      else if p.gas != "" && "gas" == name then Some(p.gas)
      else if p.gasPrice != "" && "gasPrice" == name then Some(p.gasPrice)
      else ValueOf(NonceField(p), name)
  {
    var n := NonceField(p);
    var e := Optional("gasPrice", p.gasPrice) + n;
    var d := Optional("gas", p.gas) + e;
    var c := Optional("to", p.to) + d;
    var b := Optional("data", p.data) + c;
    assert Fields(p) == Optional("from", p.from) + b;
    ValueOfSkip("from", p.from, b, name);
    ValueOfSkip("data", p.data, c, name);
    ValueOfSkip("to", p.to, d, name);
    ValueOfSkip("gas", p.gas, e, name);
    ValueOfSkip("gasPrice", p.gasPrice, n, name);
  }

  lemma {:induction false} DataField(p: RpcParams)
    requires p.data != ""
    ensures ValueOf(Fields(p), "data") == Some(p.data)
  {
    FieldsLookup(p, "data");
    assert "from"[0] != "data"[0];
  }

  lemma {:induction false} ToField(p: RpcParams)
    requires p.to != ""
    ensures ValueOf(Fields(p), "to") == Some(p.to)
  {
    FieldsLookup(p, "to");
    assert |"from"| != |"to"| && |"data"| != |"to"|;
  }

  lemma {:induction false} NonceFieldValue(p: RpcParams)
    ensures ValueOf(Fields(p), "nonce") == if p.nonce > 0 then Some("0x" + IntToHex(p.nonce, 0)) else None
  {
    FieldsLookup(p, "nonce");
    assert |"nonce"| == 5 && |"from"| == 4 && |"data"| == 4 && |"to"| == 2 && |"gas"| == 3 && |"gasPrice"| == 8;
  }

  lemma {:induction false} FieldsPlain(p: RpcParams)
    requires Plain(p.from) && Plain(p.data) && Plain(p.to) && Plain(p.gas) && Plain(p.gasPrice)
    ensures PlainFields(Fields(p))
  {
    NonceTextPlain(p.nonce);
  }

  /** Requests with different nonces have different texts, whatever else they contain. */
  lemma {:induction false} NonceSeparates(p: RpcParams, q: RpcParams)
    requires PlainFields(Fields(p)) && PlainFields(Fields(q)) && p.nonce != q.nonce
    ensures ToJson(p) != ToJson(q)
  {
    if ToJson(p) == ToJson(q) {
      JsonRoundTrip(p);
      JsonRoundTrip(q);
      NonceFieldValue(p);
      NonceFieldValue(q);
      assert IntToHex(p.nonce, 0) == ("0x" + IntToHex(p.nonce, 0))[2..];
      assert IntToHex(q.nonce, 0) == ("0x" + IntToHex(q.nonce, 0))[2..];
      IntRoundTrip(p.nonce, 0);
      IntRoundTrip(q.nonce, 0);
    }
  }
}
