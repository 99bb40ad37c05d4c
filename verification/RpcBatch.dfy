/** Requests on their way to the node: ids, nonces, JSON texts, and the keys that travel with them
    (adapter_ethereum.cpp put, createRpcBatch, update_nonce; adapter_ethereum.h RpcParams). */
module RpcBatch {
  import opened Bytes
  import opened Hex
  import opened Network
  import opened Calldata
  import opened Json
  import opened EthNode

  const GAS := "0x6ACFC0"

  /** std::to_string. */
  function Decimal(n: nat): string {
    if n < 10 then [DIGITS[n]] else Decimal(n / 10) + [DIGITS[n % 10]]
  }

  lemma {:induction false} DecimalInjective(m: nat, n: nat)
    requires Decimal(m) == Decimal(n)
    ensures m == n
    decreases m + n
  {
    DigitRoundTrip(m % 10);
    DigitRoundTrip(n % 10);
    if m >= 10 && n >= 10 {
      assert Decimal(m)[..|Decimal(m)| - 1] == Decimal(m / 10) && Decimal(n)[..|Decimal(n)| - 1] == Decimal(n / 10);
      DecimalInjective(m / 10, n / 10);
    } else if m < 10 && n < 10 {
      assert Decimal(m)[0] == Decimal(n)[0];
    } else {
      DecimalNonEmpty(m / 10);
      DecimalNonEmpty(n / 10);
    }
  }

  lemma DecimalNonEmpty(n: nat)
    ensures |Decimal(n)| >= 1
  {
  }

  /** max(0, count - 1) in unsigned 64-bit arithmetic: never below zero, so 0 wraps to the top. */
  function NonceBefore(count: uint64): uint64 {
    if count == 0 then TWO64 - 1 else count - 1
  }

  /** ++nonce_ in unsigned 64-bit arithmetic. */
  function Increment(nonce: uint64): uint64 {
    if nonce == TWO64 - 1 then 0 else nonce + 1
  }

  /** The i-th value that it yields. */
  function NonceAfter(start: uint64, i: nat): uint64 {
    (start + 1 + i) % TWO64
  }

  /** The nonce after n increments, which wrap at 64 bits. */
  function Advanced(start: uint64, n: nat): uint64
    requires n < TWO64
  {
    if start + n < TWO64 then start + n else start + n - TWO64
  }

  lemma AdvancedIs(start: uint64, n: nat)
    requires n < TWO64
    ensures Advanced(start, n) == (start + n) % TWO64
  {
  }

  /** After a count c was fetched, the i-th increment gives c + i, also for c = 0. */
  lemma {:induction false} NoncesCountUp(c: uint64, i: nat)
    requires c + i < TWO64
    ensures NonceAfter(NonceBefore(c), i) == c + i
  {
  }

  lemma {:induction false} NoncesDiffer(start: uint64, i: nat, j: nat)
    requires i < j < i + TWO64
    ensures NonceAfter(start, i) != NonceAfter(start, j)
  {
  }

  /** No two keys of the batch become the same bytes32. */
  ghost predicate PadInjective(batch: Table) {
    forall a, b {:trigger Collide(a, b)} :: a in batch && b in batch ==> !Collide(a, b)
  }

  predicate Collide(a: BYTES, b: BYTES) {
    a != b && Pad32(a) == Pad32(b)
  }

  lemma {:induction false} PadsDiffer(batch: Table)
    requires PadInjective(batch)
    ensures forall a, b :: a in batch && b in batch && Pad32(a) == Pad32(b) ==> a == b
  {
    forall a, b | a in batch && b in batch && Pad32(a) == Pad32(b) ensures a == b {
      assert !Collide(a, b);
    }
  }

  /** What a put adds to the contract: the pairs whose transactions succeed, under their padded keys. */
  ghost function Gained(batch: Table, net: Net): Table
    requires PadInjective(batch)
  {
    PadsDiffer(batch);
    map k | k in batch && !net.putFails(Pad32(k)) :: Pad32(k) := batch[k]
  }

  ghost predicate Keys32(batch: Table) {
    forall k :: k in batch ==> |k| == 32
  }

  /** For 32-byte keys that is the surviving part of the batch itself. */
  lemma {:induction false} GainedIsSurviving(batch: Table, net: Net)
    requires Keys32(batch) && net.available
    ensures PadInjective(batch) && Gained(batch, net) == Surviving(batch, net)
  {
    assert forall k :: k in batch ==> Pad32(k) == k;
    forall k ensures k in Gained(batch, net) <==> k in Surviving(batch, net) {
    }
  }

  /** What put promises, said of 32-byte keys. */
  lemma {:induction false} PutOnHashes(before: Table, after: Table, batch: Table, net: Net, rc: int, remaining: Table)
    requires Keys32(batch)
    requires !net.available ==> rc == 1 && remaining == batch && after == before
    requires net.available ==> rc == if forall k :: k in batch ==> !net.putFails(Pad32(k)) then 0 else 1
    requires net.available && rc == 1 ==> remaining == map k | k in batch && net.putFails(Pad32(k)) :: batch[k]
    requires net.available && PadInjective(batch) ==> after == before + Gained(batch, net)
    ensures after == before + Surviving(batch, net)
    ensures rc == if net.available && Remainder(batch, net) == map[] then 0 else 1
    ensures rc == 1 ==> remaining == Remainder(batch, net)
  {
    PadsNothing(batch);
    if net.available {
      GainedIsSurviving(batch, net);
      AllSurviveIff(batch, net);
    } else {
      assert before + Surviving(batch, net) == before;
    }
  }

  lemma PadsNothing(batch: Table)
    requires Keys32(batch)
    ensures forall k :: k in batch ==> Pad32(k) == k
  {
  }

  lemma {:induction false} AllSurviveIff(batch: Table, net: Net)
    requires net.available
    ensures Remainder(batch, net) == map[] <==> forall k :: k in batch ==> !net.putFails(k)
  {
    if exists k :: k in batch && net.putFails(k) {
      var k :| k in batch && net.putFails(k);
      assert k in Remainder(batch, net);
    }
  }

  /** A request as put fills it in, and as createRpcBatch completes it. */
  function PutParams(key: BYTES, value: BYTES, id: nat): RpcParams {
    RpcParams("", "", PutData(key, value), "eth_sendTransaction", "", "", "", Decimal(id), 0)
  }

  function Completed(p: RpcParams, from: string, to: string, gas: bool, nonce: uint64): RpcParams {
    p.(from := from, to := if p.to == "" then to else p.to, gas := if gas then GAS else p.gas, nonce := nonce)
  }

  predicate PlainParams(p: RpcParams) {
    Plain(p.from) && Plain(p.data) && Plain(p.to) && Plain(p.gas) && Plain(p.gasPrice)
  }

  type Requests = map<string, (RpcParams, bool)>

  /** Sender and contract address, common to all requests of an adapter. */
  datatype Route = Via(from: string, to: string)

  function TextOf(r: Route, request: (RpcParams, bool), nonce: uint64): string {
    ToJson(Completed(request.0, r.from, r.to, request.1, nonce))
  }

  /** The text of the request found under an id when it is the i-th to be completed. */
  type Texting = (string, nat) -> string

  function Texts(r: Route, batch: Requests, start: uint64): Texting {
    (id: string, i: nat) => if id in batch then TextOf(r, batch[id], NonceAfter(start, i)) else ""
  }

  lemma TextsAt(r: Route, batch: Requests, start: uint64, id: string, i: nat)
    requires id in batch
    ensures Texts(r, batch, start)(id, i) == TextOf(r, batch[id], NonceAfter(start, i))
  {
  }

  /** Texts completed at different turns differ, whichever requests they belong to. */
  ghost predicate Separates(f: Texting, ids: set<string>, n: nat) {
    forall a, b, i: nat, j: nat :: a in ids && b in ids && i < j < n ==> f(a, i) != f(b, j)
  }

  /** Whatever the requests ask, no two texts are alike: their nonces differ. */
  lemma {:induction false} TextsSeparate(r: Route, batch: Requests, start: uint64)
    requires Plain(r.from) && Plain(r.to)
    requires forall id :: id in batch ==> Sendable(batch[id].0)
    ensures Separates(Texts(r, batch, start), batch.Keys, TWO64)
  {
    forall a, b, i: nat, j: nat | a in batch.Keys && b in batch.Keys && i < j < TWO64
      ensures Texts(r, batch, start)(a, i) != Texts(r, batch, start)(b, j)
    {
      NoncesDiffer(start, i, j);
      assert Plain(GAS);
      var p := Completed(batch[a].0, r.from, r.to, batch[a].1, NonceAfter(start, i));
      var q := Completed(batch[b].0, r.from, r.to, batch[b].1, NonceAfter(start, j));
      FieldsPlain(p);
      FieldsPlain(q);
      NonceSeparates(p, q);
    }
  }

  /** Each text leads to the key of its own request. */
  ghost predicate KeysKept(textKeys: map<string, string>, keyMap: map<string, string>, order: seq<string>,
                           sent: seq<string>) {
    && |order| == |sent| && textKeys.Keys == (set s | s in sent)
    && forall i :: 0 <= i < |sent| ==> order[i] in keyMap && textKeys[sent[i]] == keyMap[order[i]]
  }

  lemma {:induction false} KeysKeptStep(textKeys: map<string, string>, keyMap: map<string, string>, order: seq<string>,
                                        sent: seq<string>, id: string, text: string)
    requires KeysKept(textKeys, keyMap, order, sent) && id in keyMap && Distinct(sent + [text])
    ensures KeysKept(textKeys[text := keyMap[id]], keyMap, order + [id], sent + [text])
  {
    var sent' := sent + [text];
    forall i | 0 <= i < |sent| ensures sent'[i] == sent[i] && sent'[i] != text { DistinctAt(sent', i, |sent|); }
  }

  /** The state of re-keying after the requests in order. */
  ghost predicate Rekeyed(f: Texting, keyMap: map<string, string>, textKeys: map<string, string>,
                          order: seq<string>, sent: seq<string>)
  {
    && Distinct(order) && Distinct(sent) && KeysKept(textKeys, keyMap, order, sent)
    && forall i :: 0 <= i < |sent| ==> sent[i] == f(order[i], i)
  }

  lemma {:induction false} RekeyStep(f: Texting, keyMap: map<string, string>, textKeys: map<string, string>,
                                     order: seq<string>, sent: seq<string>, id: string, text: string)
    requires Rekeyed(f, keyMap, textKeys, order, sent) && Separates(f, keyMap.Keys, |order| + 1)
    requires id in keyMap && id !in order && text == f(id, |order|)
    ensures text !in textKeys && Rekeyed(f, keyMap, textKeys[text := keyMap[id]], order + [id], sent + [text])
  {
    DistinctAppend(order, id);
    assert text !in sent;
    DistinctAppend(sent, text);
    KeysKeptStep(textKeys, keyMap, order, sent, id, text);
  }

  // ---------------------------------------------------------------- any requests

  function NextNonce(p: RpcParams, nonce: uint64): uint64 {
    if p.rpcMethod == "eth_sendTransaction" then Increment(nonce) else nonce
  }

  function Tag(p: RpcParams): string {
    if p.quantityTag == "" then "" else ",\"" + p.quantityTag + "\""
  }

  /** The text of any request: only a transaction gets the current nonce, a block tag stands behind the object. */
  function FullText(r: Route, request: (RpcParams, bool), nonce: uint64): string {
    var p := request.0;
    TextOf(r, request, if p.rpcMethod == "eth_sendTransaction" then nonce else p.nonce) + Tag(p)
  }

  function EmplaceText(m: map<string, string>, k: string, v: string): map<string, string> {
    if k in m then m else m[k := v]
  }

  /** order lists the ids outside rest. */
  ghost predicate Walked(order: seq<string>, rest: set<string>, ids: set<string>) {
    && rest <= ids && |order| + |rest| == |ids| && Distinct(order)
    && forall id {:trigger id in order} {:trigger id in rest} :: id in order <==> id in ids && id !in rest
  }

  lemma {:induction false} WalkedStep(order: seq<string>, rest: set<string>, ids: set<string>, id: string)
    requires Walked(order, rest, ids) && id in rest
    ensures id in ids && id !in order && Walked(order + [id], rest - {id}, ids)
  {
    DistinctAppend(order, id);
  }

  ghost predicate Known(batch: Requests, keyMap: map<string, string>, order: seq<string>) {
    forall i {:trigger order[i]} :: 0 <= i < |order| ==> order[i] in batch && order[i] in keyMap
  }

  /** Methods and keys by text, and the nonce. */
  datatype Rekeying = Rekeying(texts: map<string, string>, textKeys: map<string, string>, nonce: uint64)

  /** createRpcBatch on the requests in the given order: of two requests with one text the first stays. */
  ghost function RekeyAll(r: Route, batch: Requests, keyMap: map<string, string>, start: uint64,
                          order: seq<string>): Rekeying
    requires Known(batch, keyMap, order)
  {
    if order == [] then Rekeying(map[], map[], start)
    else
      var id := order[|order| - 1];
      RekeyOne(r, batch, keyMap, RekeyAll(r, batch, keyMap, start, order[..|order| - 1]), id)
  }

  function RekeyOne(r: Route, batch: Requests, keyMap: map<string, string>, so: Rekeying, id: string): Rekeying
    requires id in batch && id in keyMap
  {
    var n := NextNonce(batch[id].0, so.nonce);
    var text := FullText(r, batch[id], n);
    Rekeying(EmplaceText(so.texts, text, batch[id].0.rpcMethod), EmplaceText(so.textKeys, text, keyMap[id]), n)
  }

  lemma {:induction false} RekeyAllStep(r: Route, batch: Requests, keyMap: map<string, string>, start: uint64,
                                        order: seq<string>, id: string)
    requires Known(batch, keyMap, order) && id in batch && id in keyMap
    ensures Known(batch, keyMap, order + [id])
    ensures RekeyAll(r, batch, keyMap, start, order + [id]) ==
      RekeyOne(r, batch, keyMap, RekeyAll(r, batch, keyMap, start, order), id)
  {
    assert (order + [id])[..|order|] == order;
  }

  /** emplace, one pair after the other. */
  function EmplaceAll(texts: seq<string>, values: seq<string>): map<string, string>
    requires |texts| == |values|
  {
    if texts == [] then map[]
    else
      var n := |texts| - 1;
      EmplaceText(EmplaceAll(texts[..n], values[..n]), texts[n], values[n])
  }

  /** Of the pairs with one text the first stays. */
  lemma {:induction false} FirstStays(texts: seq<string>, values: seq<string>, i: nat)
    requires |texts| == |values| && i < |texts| && texts[i] !in texts[..i]
    ensures texts[i] in EmplaceAll(texts, values) && EmplaceAll(texts, values)[texts[i]] == values[i]
  {
    var n := |texts| - 1;
    if i < n {
      assert texts[..n][..i] == texts[..i];
      FirstStays(texts[..n], values[..n], i);
    } else {
      EmplacedTexts(texts[..n], values[..n]);
    }
  }

  lemma {:induction false} EmplacedTexts(texts: seq<string>, values: seq<string>)
    requires |texts| == |values|
    ensures forall s :: s in EmplaceAll(texts, values) <==> s in texts
  {
    if texts != [] {
      var n := |texts| - 1;
      EmplacedTexts(texts[..n], values[..n]);
      assert texts == texts[..n] + [texts[n]];
    }
  }

  ghost predicate AllKnown(batch: Requests, order: seq<string>) {
    forall i {:trigger order[i]} :: 0 <= i < |order| ==> order[i] in batch
  }

  /** The nonce counts the transactions. */
  ghost function NonceOf(batch: Requests, start: uint64, order: seq<string>): uint64
    requires AllKnown(batch, order)
  {
    if order == [] then start
    else NextNonce(batch[order[|order| - 1]].0, NonceOf(batch, start, order[..|order| - 1]))
  }

  ghost function Transactions(batch: Requests, order: seq<string>): nat
    requires AllKnown(batch, order)
  {
    if order == [] then 0
    else
      var n := |order| - 1;
      Transactions(batch, order[..n]) + if batch[order[n]].0.rpcMethod == "eth_sendTransaction" then 1 else 0
  }

  lemma {:induction false} NonceCounts(batch: Requests, start: uint64, order: seq<string>)
    requires AllKnown(batch, order)
    ensures NonceOf(batch, start, order) == (start + Transactions(batch, order)) % TWO64
  {
    if order != [] {
      var before := order[..|order| - 1];
      NonceCounts(batch, start, before);
      NonceStep(start, NonceOf(batch, start, before), Transactions(batch, before));
    }
  }

  type Completing = ((RpcParams, bool), uint64) -> string

  function CompletingVia(r: Route): Completing {
    (request: (RpcParams, bool), nonce: uint64) => FullText(r, request, nonce)
  }

  /** The text of each request, in the order of completion. */
  ghost function TextsOf(f: Completing, batch: Requests, start: uint64, order: seq<string>): (texts: seq<string>)
    requires AllKnown(batch, order)
    ensures |texts| == |order|
  {
    if order == [] then []
    else
      var n := |order| - 1;
      TextsOf(f, batch, start, order[..n]) + [f(batch[order[n]], NonceOf(batch, start, order))]
  }

  ghost function KeysBy(keyMap: map<string, string>, order: seq<string>): (keys: seq<string>)
    requires forall i {:trigger order[i]} :: 0 <= i < |order| ==> order[i] in keyMap
    ensures |keys| == |order|
  {
    seq(|order|, i requires 0 <= i < |order| => keyMap[order[i]])
  }

  ghost function MethodsBy(batch: Requests, order: seq<string>): (methods: seq<string>)
    requires AllKnown(batch, order)
    ensures |methods| == |order|
  {
    seq(|order|, i requires 0 <= i < |order| => batch[order[i]].0.rpcMethod)
  }

  /** Whatever the requests are: methods and keys are filed under the texts, one after the other. */
  ghost predicate FiledInOrder(f: Completing, batch: Requests, keyMap: map<string, string>, start: uint64,
                               order: seq<string>, so: Rekeying)
    requires Known(batch, keyMap, order)
  {
    var texts := TextsOf(f, batch, start, order);
    && so.texts == EmplaceAll(texts, MethodsBy(batch, order)) && so.textKeys == EmplaceAll(texts, KeysBy(keyMap, order))
    && so.nonce == NonceOf(batch, start, order)
  }

  lemma {:induction false} RekeyAllFiles(r: Route, batch: Requests, keyMap: map<string, string>, start: uint64,
                                         order: seq<string>)
    requires Known(batch, keyMap, order)
    ensures FiledInOrder(CompletingVia(r), batch, keyMap, start, order, RekeyAll(r, batch, keyMap, start, order))
  {
    if order != [] {
      var n := |order| - 1;
      RekeyAllFiles(r, batch, keyMap, start, order[..n]);
      var so, next := RekeyAll(r, batch, keyMap, start, order[..n]), RekeyAll(r, batch, keyMap, start, order);
      RekeyOneFiles(r, CompletingVia(r), batch, keyMap, so, order[n], next);
      FiledStep(CompletingVia(r), batch, keyMap, start, order, so, next);
    }
  }

  lemma RekeyOneFiles(r: Route, f: Completing, batch: Requests, keyMap: map<string, string>, so: Rekeying, id: string,
                      next: Rekeying)
    requires id in batch && id in keyMap && next == RekeyOne(r, batch, keyMap, so, id) && f == CompletingVia(r)
    ensures FiledNext(f, batch, keyMap, so, id, next)
  {
  }

  predicate FiledNext(f: Completing, batch: Requests, keyMap: map<string, string>, so: Rekeying, id: string,
                      next: Rekeying)
    requires id in batch && id in keyMap
  {
    var text := f(batch[id], next.nonce);
    && next.nonce == NextNonce(batch[id].0, so.nonce)
    && next.texts == EmplaceText(so.texts, text, batch[id].0.rpcMethod)
    && next.textKeys == EmplaceText(so.textKeys, text, keyMap[id])
  }

  lemma {:induction false} FiledStep(f: Completing, batch: Requests, keyMap: map<string, string>, start: uint64,
                                     order: seq<string>, so: Rekeying, next: Rekeying)
    requires Known(batch, keyMap, order) && order != []
    requires FiledInOrder(f, batch, keyMap, start, order[..|order| - 1], so)
    requires FiledNext(f, batch, keyMap, so, order[|order| - 1], next)
    ensures FiledInOrder(f, batch, keyMap, start, order, next)
  {
    var n := |order| - 1;
    var text := f(batch[order[n]], next.nonce);
    EmplaceAllStep(TextsOf(f, batch, start, order[..n]), text, MethodsBy(batch, order));
    EmplaceAllStep(TextsOf(f, batch, start, order[..n]), text, KeysBy(keyMap, order));
    assert MethodsBy(batch, order)[..n] == MethodsBy(batch, order[..n]);
    assert KeysBy(keyMap, order)[..n] == KeysBy(keyMap, order[..n]);
  }

  lemma EmplaceAllStep(texts: seq<string>, text: string, values: seq<string>)
    requires |values| == |texts| + 1
    ensures EmplaceAll(texts + [text], values) ==
      EmplaceText(EmplaceAll(texts, values[..|texts|]), text, values[|texts|])
  {
    assert (texts + [text])[..|texts|] == texts;
  }

  /** Each request has an entry of its own under a text of its own, with its own key and its own nonce. */
  ghost predicate OwnTexts(f: Texting, keyMap: map<string, string>, start: uint64, so: Rekeying,
                           order: seq<string>, sent: seq<string>) {
    && so.nonce == (start + |order|) % TWO64 && so.texts.Keys == so.textKeys.Keys
    && Rekeyed(f, keyMap, so.textKeys, order, sent)
  }

  /** The nonce has then counted all requests. */
  lemma {:induction false} RekeyedNonce(f: Texting, requests: Requests, keyMap: map<string, string>, start: uint64,
                                        so: Rekeying, order: seq<string>, sent: seq<string>)
    requires OwnTexts(f, keyMap, start, so, order, sent) && Walked(order, {}, requests.Keys) && |requests| < TWO64
    ensures so.nonce == Advanced(start, |requests|)
  {
    assert |requests.Keys| == |requests|;
    AdvancedIs(start, |order|);
  }

  /** So it is for transactions without a tag. */
  lemma {:induction false} TransactionsRekeyed(r: Route, batch: Requests, keyMap: map<string, string>,
                                               start: uint64, order: seq<string>)
    returns (sent: seq<string>)
    requires |order| < TWO64 && Distinct(order) && Known(batch, keyMap, order)
    requires forall id :: id in batch ==> Sendable(batch[id].0)
    requires Separates(Texts(r, batch, start), keyMap.Keys, TWO64)
    ensures OwnTexts(Texts(r, batch, start), keyMap, start, RekeyAll(r, batch, keyMap, start, order), order, sent)
  {
    sent := [];
    if order != [] {
      var n := |order| - 1;
      DistinctInit(order);
      var some := TransactionsRekeyed(r, batch, keyMap, start, order[..n]);
      InitLast(order);
      var so, next := RekeyAll(r, batch, keyMap, start, order[..n]), RekeyAll(r, batch, keyMap, start, order);
      sent := TransactionStep(r, batch, keyMap, start, so, order[..n], some, order[n], next, order);
    }
  }

  lemma {:induction false} TransactionStep(r: Route, batch: Requests, keyMap: map<string, string>, start: uint64,
                                           so: Rekeying, order: seq<string>, some: seq<string>, id: string,
                                           next: Rekeying, order': seq<string>)
    returns (sent: seq<string>)
    requires id in batch && id in keyMap && Sendable(batch[id].0) && id !in order && |order| + 1 < TWO64
    requires Separates(Texts(r, batch, start), keyMap.Keys, TWO64)
    requires OwnTexts(Texts(r, batch, start), keyMap, start, so, order, some)
    requires next == RekeyOne(r, batch, keyMap, so, id) && order' == order + [id]
    ensures OwnTexts(Texts(r, batch, start), keyMap, start, next, order', sent)
  {
    var f, n := Texts(r, batch, start), |order|;
    var text := f(id, n);
    RekeyOneSends(r, batch, keyMap, start, so, id, n, next, text);
    RekeyStep(f, keyMap, so.textKeys, order, some, id, text);
    EmplaceSame(so.texts, so.textKeys, text, batch[id].0.rpcMethod, keyMap[id]);
    sent := some + [text];
    OwnTextsFrom(f, keyMap, start, next, so.textKeys[text := keyMap[id]], order, id, order', sent);
  }

  lemma {:induction false} OwnTextsFrom(f: Texting, keyMap: map<string, string>, start: uint64, next: Rekeying,
                                        m: map<string, string>, order: seq<string>, id: string, order': seq<string>,
                                        sent: seq<string>)
    requires order' == order + [id] && Rekeyed(f, keyMap, m, order + [id], sent) && next.textKeys == m
    requires next.texts.Keys == next.textKeys.Keys && next.nonce == NonceAfter(start, |order|)
    ensures OwnTexts(f, keyMap, start, next, order', sent)
  {
  }

  lemma EmplaceSame(a: map<string, string>, b: map<string, string>, text: string, x: string, y: string)
    requires a.Keys == b.Keys && text !in b
    ensures EmplaceText(a, text, x).Keys == EmplaceText(b, text, y).Keys && EmplaceText(b, text, y) == b[text := y]
  {
  }

  lemma {:induction false} RekeyOneSends(r: Route, batch: Requests, keyMap: map<string, string>, start: uint64,
                                         so: Rekeying, id: string, n: nat, next: Rekeying, text: string)
    requires id in batch && id in keyMap && Sendable(batch[id].0) && so.nonce == (start + n) % TWO64
    requires next == RekeyOne(r, batch, keyMap, so, id) && text == Texts(r, batch, start)(id, n)
    ensures next.texts == EmplaceText(so.texts, text, batch[id].0.rpcMethod)
    ensures next.textKeys == EmplaceText(so.textKeys, text, keyMap[id])
    ensures next.nonce == NonceAfter(start, n)
  {
    NonceStep(start, so.nonce, n);
    TextsAt(r, batch, start, id, n);
    RekeyOneWith(r, batch, keyMap, so, id, NonceAfter(start, n));
  }

  lemma {:induction false} RekeyOneWith(r: Route, batch: Requests, keyMap: map<string, string>, so: Rekeying,
                                        id: string, next: uint64)
    requires id in batch && id in keyMap && Sendable(batch[id].0) && next == Increment(so.nonce)
    ensures RekeyOne(r, batch, keyMap, so, id) == Rekeying(
      EmplaceText(so.texts, TextOf(r, batch[id], next), batch[id].0.rpcMethod),
      EmplaceText(so.textKeys, TextOf(r, batch[id], next), keyMap[id]), next)
  {
    TextOfSend(r, batch[id], next);
  }

  lemma {:induction false} TextOfSend(r: Route, request: (RpcParams, bool), nonce: uint64)
    requires Sendable(request.0)
    ensures FullText(r, request, nonce) == TextOf(r, request, nonce)
  {
    var text := TextOf(r, request, nonce);
    assert text + "" == text;
  }

  lemma {:induction false} NonceStep(start: uint64, current: uint64, n: nat)
    requires current == (start + n) % TWO64
    ensures Increment(current) == NonceAfter(start, n) == (start + (n + 1)) % TWO64
  {
  }

  /** The node reads from a completed request exactly the call in its data. */
  lemma {:induction false} RequestReads(p: RpcParams, address: string)
    requires PlainParams(p) && p.to == address && p.data != "" && address != ""
    ensures RequestOf(address, ToJson(p)) == CallOf(p.data)
  {
    FieldsPlain(p);
    JsonRoundTrip(p);
    DataField(p);
    ToField(p);
    CallKeysSized(p.data);
  }

  // ---------------------------------------------------------------- what a reader finds in a text

  predicate FieldIs(fs: seq<Field>, name: string, value: string) {
    ValueOf(fs, name) == if value == "" then None else Some(value)
  }

  /** A nonce that is not there is 0; otherwise it stands in hexadecimal behind 0x. */
  predicate NonceIs(fs: seq<Field>, nonce: uint64) {
    match ValueOf(fs, "nonce")
    case None => nonce == 0
    case Some(v) => |v| > 2 && v[..2] == "0x" && IsHex(v[2..]) && ParseHex(v[2..]) == nonce
  }

  /** A reader of the text finds exactly these parameters in it. */
  ghost predicate Carries(text: string, p: RpcParams) {
    match ReadObject(text)
    case None => false
    case Some(fs) =>
      && FieldIs(fs, "from", p.from) && FieldIs(fs, "to", p.to) && FieldIs(fs, "data", p.data)
      && FieldIs(fs, "gas", p.gas) && FieldIs(fs, "gasPrice", p.gasPrice) && NonceIs(fs, p.nonce)
  }

  lemma {:induction false} TextFields(p: RpcParams)
    ensures var fs := Fields(p);
      && FieldIs(fs, "from", p.from) && FieldIs(fs, "to", p.to) && FieldIs(fs, "data", p.data)
      && FieldIs(fs, "gas", p.gas) && FieldIs(fs, "gasPrice", p.gasPrice)
  {
    assert |"nonce"| == 5 && |"from"| == 4 && |"data"| == 4 && |"to"| == 2 && |"gas"| == 3 && |"gasPrice"| == 8;
    assert "from"[0] != "data"[0];
    FieldsLookup(p, "from");
    FieldsLookup(p, "to");
    FieldsLookup(p, "data");
    FieldsLookup(p, "gas");
    FieldsLookup(p, "gasPrice");
  }

  lemma {:induction false} TextNonce(p: RpcParams)
    ensures NonceIs(Fields(p), p.nonce)
  {
    NonceFieldValue(p);
    IntRoundTrip(p.nonce, 0);
    HexDigitsParse(p.nonce);
    if p.nonce > 0 {
      var v := "0x" + IntToHex(p.nonce, 0);
      assert v[..2] == "0x" && v[2..] == IntToHex(p.nonce, 0);
    }
  }

  /** Whatever the parameters, the text carries them. */
  lemma {:induction false} TextCarries(p: RpcParams)
    requires PlainParams(p)
    ensures Carries(ToJson(p), p)
  {
    FieldsPlain(p);
    JsonRoundTrip(p);
    TextFields(p);
    TextNonce(p);
  }

  /** createRpcBatch on any request: the sender always, the contract's address if none is given, the gas limit if
      asked for, and the current nonce for transactions only; a block tag stands behind the object. */
  lemma {:induction false} CompletedCarries(r: Route, request: (RpcParams, bool), nonce: uint64)
    returns (text: string)
    requires PlainParams(request.0) && Plain(r.from) && Plain(r.to)
    ensures var p := request.0;
      && Carries(text, p.(from := r.from, to := if p.to == "" then r.to else p.to,
                          gas := if request.1 then "0x6ACFC0" else p.gas,
                          nonce := if p.rpcMethod == "eth_sendTransaction" then nonce else p.nonce))
      && FullText(r, request, nonce) == text + if p.quantityTag == "" then "" else ",\"" + p.quantityTag + "\""
  {
    var p := request.0;
    var n := if p.rpcMethod == "eth_sendTransaction" then nonce else p.nonce;
    text := TextOf(r, request, n);
    assert Plain(GAS);
    TextCarries(Completed(p, r.from, r.to, request.1, n));
  }

  /** Every text carries the put of its own pair, the i-th one the i-th nonce after start. */
  ghost predicate AllCarried(from: string, to: string, batch: Table, start: uint64, sent: seq<string>,
                             target: seq<BYTES>) {
    |sent| == |target| && forall i {:trigger CarriedAt(from, to, batch, start, sent[i], target[i], i)} ::
      0 <= i < |sent| ==> CarriedAt(from, to, batch, start, sent[i], target[i], i)
  }

  ghost predicate CarriedAt(from: string, to: string, batch: Table, start: uint64, text: string, key: BYTES, i: nat) {
    key in batch && Carries(text, RpcParams(from, to, PutData(key, batch[key]), "eth_sendTransaction", "0x6ACFC0", "",
                                            "", "", (start + 1 + i) % TWO64))
  }

  lemma {:induction false} NumberedCarries(r: Route, batch: Table, start: uint64, sent: seq<string>, target: seq<BYTES>)
    requires Numbered(r, batch, start, sent, target) && Plain(r.from) && Plain(r.to)
    requires forall k :: k in batch ==> |batch[k]| < TWO32
    ensures AllCarried(r.from, r.to, batch, start, sent, target)
  {
    forall i | 0 <= i < |sent| ensures CarriedAt(r.from, r.to, batch, start, sent[i], target[i], i) {
      assert NumberedAt(r, batch, start, sent[i], target[i], i);
      PutTextCarries(r, target[i], batch[target[i]], NonceAfter(start, i));
    }
  }

  lemma {:induction false} PutTextCarries(r: Route, key: BYTES, value: BYTES, nonce: uint64)
    requires Plain(r.from) && Plain(r.to) && |value| < TWO32
    ensures Carries(PutText(r, key, value, nonce),
      RpcParams(r.from, r.to, PutData(key, value), "eth_sendTransaction", "0x6ACFC0", "", "", "", nonce))
  {
    PutDataPlain(key, value);
    assert Plain(GAS);
    TextCarries(RpcParams(r.from, r.to, PutData(key, value), "eth_sendTransaction", GAS, "", "", "", nonce));
  }

  /** now is one below the last transaction count that was answered, and before if none was. */
  ghost predicate Fetched(counts: nat -> Option<uint64>, n: nat, before: uint64, now: uint64) {
    && (forall j: nat {:trigger counts(j)} :: j < n && counts(j).Some? && NoneAnswered(counts, j + 1, n) ==>
      now == NonceBefore(counts(j).value))
    && (NoneAnswered(counts, 0, n) ==> now == before)
  }

  ghost predicate NoneAnswered(counts: nat -> Option<uint64>, i: nat, n: nat) {
    forall j: nat {:trigger counts(j)} :: i <= j < n ==> counts(j).None?
  }

  lemma {:induction false} FetchedStep(counts: nat -> Option<uint64>, n: nat, before: uint64, mid: uint64, now: uint64)
    requires Fetched(counts, n, before, mid)
    requires now == if counts(n).Some? then NonceBefore(counts(n).value) else mid
    ensures Fetched(counts, n + 1, before, now)
  {
    forall j: nat | j < n + 1 && counts(j).Some? && NoneAnswered(counts, j + 1, n + 1)
      ensures now == NonceBefore(counts(j).value)
    {
      if j < n {
        assert counts(n).None?;
        assert NoneAnswered(counts, j + 1, n);
      }
    }
    if NoneAnswered(counts, 0, n + 1) {
      assert counts(n).None? && NoneAnswered(counts, 0, n);
    }
  }

  // ---------------------------------------------------------------- sending

  /** The state of the sending loop: the texts outside rest have come in, in the given order, and have ids. */
  ghost predicate Posting(order: seq<string>, rest: set<string>, texts: set<string>, tids: map<string, nat>,
                          start: seq<string>, posted: seq<string>) {
    && Walked(order, rest, texts) && posted == start + order
    && forall s :: s in tids <==> s in texts && s !in rest
  }

  lemma {:induction false} PostingStep(front: seq<string>, rest: set<string>, texts: set<string>,
                                       tids: map<string, nat>, start: seq<string>, before: seq<string>, text: string,
                                       tids': map<string, nat>, after: seq<string>)
    returns (order: seq<string>)
    requires Posting(front, rest, texts, tids, start, before) && text in rest
    requires tids'.Keys == tids.Keys + {text} && after == before + [text]
    ensures Posting(order, rest - {text}, texts, tids', start, after)
  {
    order := front + [text];
    WalkedStep(front, rest, texts, text);
  }

  /** The texts have come in behind those before, each once, in some order. */
  ghost predicate Received(before: seq<string>, texts: seq<string>, after: seq<string>) {
    && |after| == |before| + |texts| && after[..|before|] == before
    && forall s :: s in after[|before|..] <==> s in texts
  }

  lemma {:induction false} PostingDone(start: seq<string>, order: seq<string>, sent: seq<string>, texts: set<string>,
                                       tids: map<string, nat>, posted: seq<string>)
    requires Posting(order, {}, texts, tids, start, posted) && Distinct(sent) && forall s :: s in texts <==> s in sent
    ensures Received(start, sent, posted) && tids.Keys == texts
  {
    DistinctCount(sent, texts);
    assert posted[|start|..] == order;
  }

  /** Requests sent under texts, each aimed at its own key of want. */
  ghost predicate Aimed(address: string, want: Table, textKeys: map<string, string>, sent: seq<string>,
                        target: seq<BYTES>) {
    && |sent| == |target| && Distinct(sent) && Distinct(target)
    && textKeys.Keys == (set s | s in sent)
    && (forall k :: k in target <==> k in want)
    && (forall i {:trigger AimedAt(want, textKeys, sent[i], target[i])} :: 0 <= i < |sent| ==>
      AimedAt(want, textKeys, sent[i], target[i]))
    && forall i {:trigger RequestOf(address, sent[i])} :: 0 <= i < |sent| ==>
      RequestOf(address, sent[i]) == Some(PutCall(Pad32(target[i]), want[target[i]]))
  }

  ghost predicate AimedAt(want: Table, textKeys: map<string, string>, text: string, key: BYTES) {
    key in want && text in textKeys && textKeys[text] == ToHex(key)
  }

  function Part(want: Table, done: set<BYTES>): Table {
    map k | k in want && k in done :: want[k]
  }

  /** One more pair under a padded key of its own. */
  lemma {:induction false} GainedUpdate(batch: Table, k: BYTES, v: BYTES, net: Net)
    requires k !in batch && PadInjective(batch[k := v])
    ensures PadInjective(batch)
    ensures Gained(batch[k := v], net) ==
      if net.putFails(Pad32(k)) then Gained(batch, net) else Gained(batch, net)[Pad32(k) := v]
  {
    PadsDiffer(batch[k := v]);
    forall a | a in batch ensures a in batch[k := v] && Pad32(a) != Pad32(k) {
    }
  }

  /** One more pair has been sent. */
  lemma {:induction false} GainedStep(want: Table, done: set<BYTES>, k: BYTES, net: Net)
    requires PadInjective(want) && k in want && k !in done
    ensures PadInjective(Part(want, done)) && PadInjective(Part(want, done + {k}))
    ensures Gained(Part(want, done + {k}), net) ==
      if net.putFails(Pad32(k)) then Gained(Part(want, done), net)
      else Gained(Part(want, done), net)[Pad32(k) := want[k]]
  {
    assert Part(want, done + {k}) == Part(want, done)[k := want[k]];
    GainedUpdate(Part(want, done), k, want[k], net);
  }

  /** What the contract holds once the pairs of done have been sent. */
  ghost predicate Progress(want: Table, done: set<BYTES>, before: Table, now: Table, net: Net) {
    PadInjective(want) ==> PadInjective(Part(want, done)) && now == before + Gained(Part(want, done), net)
  }

  lemma {:induction false} ProgressStep(want: Table, done: set<BYTES>, before: Table, now: Table, net: Net, k: BYTES)
    requires Progress(want, done, before, now, net) && k in want && k !in done
    ensures Progress(want, done + {k}, before, if net.putFails(Pad32(k)) then now else now[Pad32(k) := want[k]], net)
  {
    if PadInjective(want) {
      GainedStep(want, done, k, net);
      MergeUpdate(before, Gained(Part(want, done), net), Pad32(k), want[k]);
    }
  }

  lemma MergeUpdate(a: Table, b: Table, k: BYTES, v: BYTES)
    ensures (a + b)[k := v] == a + b[k := v]
  {
  }

  /** The transaction ids so far point at receipts that tell each key's fate. */
  ghost predicate Receipted(sent: seq<string>, target: seq<BYTES>, done: set<BYTES>, tids: map<string, nat>,
                            receipts: seq<bool>, net: Net)
  {
    && |sent| == |target|
    && forall i {:trigger ReceiptedAt(sent[i], target[i], done, tids, receipts, net)} :: 0 <= i < |sent| ==>
      ReceiptedAt(sent[i], target[i], done, tids, receipts, net)
  }

  ghost predicate ReceiptedAt(text: string, key: BYTES, done: set<BYTES>, tids: map<string, nat>,
                              receipts: seq<bool>, net: Net) {
    && (text in tids <==> key in done)
    && (text in tids ==> tids[text] < |receipts| && receipts[tids[text]] == !net.putFails(Pad32(key)))
  }

  lemma {:induction false} ReceiptStep(sent: seq<string>, target: seq<BYTES>, done: set<BYTES>, tids: map<string, nat>,
                                       receipts: seq<bool>, net: Net, i: nat)
    requires Receipted(sent, target, done, tids, receipts, net) && Distinct(sent) && Distinct(target) && i < |sent|
    ensures Receipted(sent, target, done + {target[i]}, tids[sent[i] := |receipts|],
                      receipts + [!net.putFails(Pad32(target[i]))], net)
  {
    var done', tids' := done + {target[i]}, tids[sent[i] := |receipts|];
    var receipts' := receipts + [!net.putFails(Pad32(target[i]))];
    forall j | 0 <= j < |sent| ensures ReceiptedAt(sent[j], target[j], done', tids', receipts', net) {
      assert ReceiptedAt(sent[j], target[j], done, tids, receipts, net);
      if j != i {
        DistinctAt(sent, i, j);
        DistinctAt(target, i, j);
      }
    }
  }

  /** The keys listed as failed are those, among the texts already checked, whose put failed. */
  ghost predicate Listed(sent: seq<string>, target: seq<BYTES>, unchecked: set<string>, output: seq<string>, net: Net) {
    && |sent| == |target|
    && forall i :: 0 <= i < |sent| ==>
      (ToHex(target[i]) in output <==> sent[i] !in unchecked && net.putFails(Pad32(target[i])))
  }

  lemma {:induction false} ListStep(sent: seq<string>, target: seq<BYTES>, unchecked: set<string>, output: seq<string>,
                                    net: Net, i: nat)
    requires Listed(sent, target, unchecked, output, net) && Distinct(sent) && Distinct(target)
    requires i < |sent| && sent[i] in unchecked
    ensures Listed(sent, target, unchecked - {sent[i]},
      if net.putFails(Pad32(target[i])) then output + [ToHex(target[i])] else output, net)
  {
    var output' := if net.putFails(Pad32(target[i])) then output + [ToHex(target[i])] else output;
    forall j | 0 <= j < |sent|
      ensures ToHex(target[j]) in output' <==> sent[j] !in unchecked - {sent[i]} && net.putFails(Pad32(target[j]))
    {
      if j != i {
        DistinctAt(sent, i, j);
        DistinctAt(target, i, j);
        if ToHex(target[j]) == ToHex(target[i]) {
          ToHexInjective(target[j], target[i]);
        }
      }
    }
  }

  // ---------------------------------------------------------------- preparing

  /** One of the ids given to the first n pairs. */
  ghost predicate IdBelow(id: string, n: nat) {
    exists j :: 0 <= j < n && id == Decimal(j)
  }

  /** The first i keys have their requests and key texts filed under the decimal ids. */
  ghost predicate Prepared(batch: Table, keys: seq<BYTES>, i: nat, requests: Requests, keyMap: map<string, string>) {
    && i <= |keys| && requests.Keys == keyMap.Keys
    && |requests| == i
    && (forall j :: 0 <= j < i ==> PreparedAt(batch, keys[j], j, requests, keyMap))
    && forall id :: id in requests ==> IdBelow(id, i)
  }

  ghost predicate PreparedAt(batch: Table, key: BYTES, j: nat, requests: Requests, keyMap: map<string, string>) {
    && key in batch && Decimal(j) in requests && Decimal(j) in keyMap
    && requests[Decimal(j)] == (PutParams(key, batch[key], j), true)
    && keyMap[Decimal(j)] == ToHex(key)
  }

  lemma {:induction false} PrepareStep(batch: Table, keys: seq<BYTES>, i: nat, requests: Requests,
                                       keyMap: map<string, string>,
                                       request: (RpcParams, bool))
    requires Prepared(batch, keys, i, requests, keyMap) && i < |keys| && keys[i] in batch
    requires request == (PutParams(keys[i], batch[keys[i]], i), true)
    ensures Decimal(i) !in requests
    ensures Prepared(batch, keys, i + 1, requests[Decimal(i) := request], keyMap[Decimal(i) := ToHex(keys[i])])
  {
    var id := Decimal(i);
    if id in requests {
      assert IdBelow(id, i);
      var j :| 0 <= j < i && id == Decimal(j);
      DecimalInjective(i, j);
    }
    var requests', keyMap' := requests[id := request], keyMap[id := ToHex(keys[i])];
    forall j | 0 <= j < i + 1 ensures PreparedAt(batch, keys[j], j, requests', keyMap') {
      if j < i {
        PreparedStays(batch, keys[j], j, requests, keyMap, id, request, ToHex(keys[i]));
      }
    }
    forall other | other in requests' ensures IdBelow(other, i + 1) {
      if other != id {
        assert IdBelow(other, i);
      }
      IdBelowNext(other, i);
    }
  }

  lemma PreparedStays(batch: Table, key: BYTES, j: nat, requests: Requests, keyMap: map<string, string>, id: string,
                      request: (RpcParams, bool), keyHex: string)
    requires PreparedAt(batch, key, j, requests, keyMap) && id !in requests
    ensures PreparedAt(batch, key, j, requests[id := request], keyMap[id := keyHex])
  {
  }

  lemma {:induction false} IdBelowNext(id: string, n: nat)
    requires id == Decimal(n) || IdBelow(id, n)
    ensures IdBelow(id, n + 1)
  {
    if id != Decimal(n) {
      var j :| 0 <= j < n && id == Decimal(j);
    }
  }

  /** The text of the put request for a pair; its id is not part of it. */
  function PutText(r: Route, key: BYTES, value: BYTES, nonce: uint64): string {
    ToJson(RpcParams(r.from, r.to, PutData(key, value), "eth_sendTransaction", GAS, "", "", "", nonce))
  }

  lemma {:induction false} PutTextOf(r: Route, key: BYTES, value: BYTES, id: nat, nonce: uint64)
    ensures TextOf(r, (PutParams(key, value, id), true), nonce) == PutText(r, key, value, nonce)
  {
    var p := Completed(PutParams(key, value, id), r.from, r.to, true, nonce);
    var q := RpcParams(r.from, r.to, PutData(key, value), "eth_sendTransaction", GAS, "", "", "", nonce);
    assert Fields(p) == Fields(q);
  }

  lemma {:induction false} PutDataPlain(key: BYTES, value: BYTES)
    requires |value| < TWO32
    ensures Plain(PutData(key, value)) && PutData(key, value) != ""
  {
    PutDataHex(key, value);
    ToHexIsHex(SELECTOR_PUT + PutArgs(key, value));
    assert !IsHexDigit('"');
  }

  /** The node reads from the text the put of exactly that pair. */
  lemma {:induction false} PutTextReads(r: Route, key: BYTES, value: BYTES, nonce: uint64)
    requires Plain(r.from) && Plain(r.to) && r.to != "" && |value| < TWO32
    ensures RequestOf(r.to, PutText(r, key, value, nonce)) == Some(PutCall(Pad32(key), value))
  {
    var p := RpcParams(r.from, r.to, PutData(key, value), "eth_sendTransaction", GAS, "", "", "", nonce);
    PutDataPlain(key, value);
    assert Plain(GAS);
    RequestReads(p, r.to);
    PutDataDecodes(key, value);
  }

  ghost predicate IdsOf(order: seq<string>, n: nat) {
    forall id :: id in order ==> IdBelow(id, n)
  }

  /** Position of an id's key. */
  ghost function IndexOf(id: string, n: nat): (j: nat)
    requires IdBelow(id, n)
    ensures j < n && id == Decimal(j)
  {
    var j: nat :| 0 <= j < n && id == Decimal(j);
    j
  }

  /** The key behind each text, in the order of completion. */
  ghost function TargetsOf(keys: seq<BYTES>, order: seq<string>): (target: seq<BYTES>)
    requires IdsOf(order, |keys|)
    ensures |target| == |order|
  {
    seq(|order|, i requires 0 <= i < |order| => assert order[i] in order; keys[IndexOf(order[i], |keys|)])
  }

  lemma {:induction false} TargetAt(keys: seq<BYTES>, order: seq<string>, i: nat) returns (j: nat)
    requires IdsOf(order, |keys|)
    requires i < |order|
    ensures j < |keys| && order[i] == Decimal(j) && TargetsOf(keys, order)[i] == keys[j]
  {
    assert order[i] in order;
    j := IndexOf(order[i], |keys|);
  }

  lemma {:induction false} TargetsDistinct(keys: seq<BYTES>, order: seq<string>)
    requires IdsOf(order, |keys|)
    requires Distinct(keys) && Distinct(order)
    ensures Distinct(TargetsOf(keys, order))
  {
    var target := TargetsOf(keys, order);
    forall i: nat, j: nat | i < j < |target| ensures Differ(target, i, j) {
      var a := TargetAt(keys, order, i);
      var b := TargetAt(keys, order, j);
      DistinctAt(order, i, j);
      DistinctAt(keys, a, b);
    }
  }

  lemma {:induction false} TargetOfKey(keys: seq<BYTES>, order: seq<string>, j: nat)
    requires IdsOf(order, |keys|)
    requires j < |keys| && Decimal(j) in order
    ensures keys[j] in TargetsOf(keys, order)
  {
    var i :| 0 <= i < |order| && order[i] == Decimal(j);
    var j' := TargetAt(keys, order, i);
    DecimalInjective(j, j');
  }

  lemma {:induction false} TargetsCover(batch: Table, keys: seq<BYTES>, requests: Requests, keyMap: map<string,
                                        string>, order: seq<string>)
    requires Prepared(batch, keys, |keys|, requests, keyMap) && Distinct(keys) &&
      (forall k :: k in keys <==> k in batch)
    requires IdsOf(order, |keys|) && Distinct(order) && forall id :: id in order <==> id in requests
    ensures Distinct(TargetsOf(keys, order)) && forall k :: k in TargetsOf(keys, order) <==> k in batch
  {
    var target := TargetsOf(keys, order);
    TargetsDistinct(keys, order);
    forall k | k in batch ensures k in target {
      var j :| 0 <= j < |keys| && keys[j] == k;
      assert PreparedAt(batch, keys[j], j, requests, keyMap);
      TargetOfKey(keys, order, j);
    }
    forall i | 0 <= i < |target| ensures target[i] in batch {
      var j := TargetAt(keys, order, i);
      assert keys[j] in keys;
    }
  }

  lemma {:induction false} RekeyingAimsAt(r: Route, batch: Table, requests: Requests, keyMap: map<string, string>,
                                          textKeys: map<string, string>, start: uint64, key: BYTES, j: nat, i: nat,
                                          text: string)
    requires PreparedAt(batch, key, j, requests, keyMap) && text in textKeys && textKeys[text] == keyMap[Decimal(j)]
    requires Plain(r.from) && Plain(r.to) && r.to != "" && |batch[key]| < TWO32
    requires text == Texts(r, requests, start)(Decimal(j), i)
    ensures NumberedAt(r, batch, start, text, key, i) && AimedAt(batch, textKeys, text, key)
    ensures RequestOf(r.to, text) == Some(PutCall(Pad32(key), batch[key]))
  {
    TextsAt(r, requests, start, Decimal(j), i);
    PutTextOf(r, key, batch[key], j, NonceAfter(start, i));
    PutTextReads(r, key, batch[key], NonceAfter(start, i));
  }

  /** After re-keying, every text is aimed at one pair of the batch and carries its own nonce. */
  lemma {:induction false} RekeyingAims(r: Route, batch: Table, keys: seq<BYTES>, requests: Requests,
                                        keyMap: map<string, string>,
                                        start: uint64, textKeys: map<string, string>, order: seq<string>,
                                        sent: seq<string>)
    requires Ready(batch, keys, requests, keyMap)
    requires IdsOf(order, |keys|) && forall id :: id in order <==> id in requests
    requires Rekeyed(Texts(r, requests, start), keyMap, textKeys, order, sent)
    requires Plain(r.from) && Plain(r.to) && r.to != ""
    ensures Aimed(r.to, batch, textKeys, sent, TargetsOf(keys, order))
    ensures Numbered(r, batch, start, sent, TargetsOf(keys, order))
  {
    var target, f := TargetsOf(keys, order), Texts(r, requests, start);
    TargetsCover(batch, keys, requests, keyMap, order);
    forall i | 0 <= i < |sent|
      ensures NumberedAt(r, batch, start, sent[i], target[i], i) && AimedAt(batch, textKeys, sent[i], target[i])
      ensures RequestOf(r.to, sent[i]) == Some(PutCall(Pad32(target[i]), batch[target[i]]))
    {
      var j := TargetAt(keys, order, i);
      assert PreparedAt(batch, keys[j], j, requests, keyMap);
      assert sent[i] == f(order[i], i) && sent[i] in textKeys && textKeys[sent[i]] == keyMap[order[i]];
      RekeyingAimsAt(r, batch, requests, keyMap, textKeys, start, keys[j], j, i, sent[i]);
    }
  }

  /** The i-th text is the put request of the i-th target with the i-th nonce after start. */
  ghost predicate Numbered(r: Route, batch: Table, start: uint64, sent: seq<string>, target: seq<BYTES>) {
    |sent| == |target| && forall i {:trigger NumberedAt(r, batch, start, sent[i], target[i], i)} :: 0 <= i < |sent| ==>
      NumberedAt(r, batch, start, sent[i], target[i], i)
  }

  ghost predicate NumberedAt(r: Route, batch: Table, start: uint64, text: string, key: BYTES, i: nat) {
    key in batch && text == PutText(r, key, batch[key], NonceAfter(start, i))
  }

  /** All that re-keying needs to know of the prepared requests. */
  ghost predicate Ready(batch: Table, keys: seq<BYTES>, requests: Requests, keyMap: map<string, string>) {
    && Prepared(batch, keys, |keys|, requests, keyMap) && Distinct(keys) && (forall k :: k in keys <==> k in batch)
    && (forall k :: k in batch ==> |batch[k]| < TWO32)
    && (forall id :: id in requests ==> Sendable(requests[id].0))
  }

  predicate Sendable(p: RpcParams) {
    p.rpcMethod == "eth_sendTransaction" && p.quantityTag == "" && PlainParams(p)
  }

  lemma {:induction false} PreparedFacts(batch: Table, keys: seq<BYTES>, requests: Requests, keyMap: map<string,
                                         string>)
    requires Prepared(batch, keys, |keys|, requests, keyMap) && Distinct(keys) && forall k :: k in keys <==> k in batch
    requires forall k :: k in batch ==> |batch[k]| < TWO32
    ensures Ready(batch, keys, requests, keyMap)
  {
    forall id | id in requests ensures Sendable(requests[id].0) {
      assert IdBelow(id, |keys|);
      var j :| 0 <= j < |keys| && id == Decimal(j);
      assert PreparedAt(batch, keys[j], j, requests, keyMap);
      PutDataPlain(keys[j], batch[keys[j]]);
    }
  }

  /** The state of sending: done holds the keys of the texts that have a transaction id. */
  ghost predicate Sending(want: Table, sent: seq<string>, target: seq<BYTES>, done: set<BYTES>, tids: map<string, nat>,
                          receipts: seq<bool>, net: Net, before: Table, now: Table)
  {
    && done <= want.Keys
    && Receipted(sent, target, done, tids, receipts, net) && Progress(want, done, before, now, net)
  }

  lemma {:induction false} SendStart(want: Table, sent: seq<string>, target: seq<BYTES>, receipts: seq<bool>,
                                     net: Net, now: Table)
    requires |sent| == |target|
    ensures Sending(want, sent, target, {}, map[], receipts, net, now, now)
  {
    assert Part(want, {}) == map[];
  }

  /** The pair behind the next text, and the state once its transaction has run. */
  lemma {:induction false} SendStep(want: Table, sent: seq<string>, target: seq<BYTES>, done: set<BYTES>,
                                    tids: map<string, nat>,
                                    receipts: seq<bool>, net: Net, before: Table, now: Table, i: nat)
    requires Sending(want, sent, target, done, tids, receipts, net, before, now)
    requires Distinct(sent) && Distinct(target) && i < |sent| && sent[i] !in tids && target[i] in want
    ensures Sending(want, sent, target, done + {target[i]}, tids[sent[i] := |receipts|],
                    receipts + [!net.putFails(Pad32(target[i]))], net, before,
                    if net.putFails(Pad32(target[i])) then now else now[Pad32(target[i]) := want[target[i]]])
  {
    assert ReceiptedAt(sent[i], target[i], done, tids, receipts, net);
    ProgressStep(want, done, before, now, net, target[i]);
    ReceiptStep(sent, target, done, tids, receipts, net, i);
  }

  lemma {:induction false} TextIndex(address: string, want: Table, textKeys: map<string, string>, sent: seq<string>,
                                     target: seq<BYTES>, json: string) returns (i: nat)
    requires Aimed(address, want, textKeys, sent, target) && json in textKeys
    ensures i < |sent| && sent[i] == json && AimedAt(want, textKeys, json, target[i])
  {
    assert json in sent;
    i :| 0 <= i < |sent| && sent[i] == json;
  }

  /** Every key has been sent once every text has. */
  lemma {:induction false} AllDone(address: string, want: Table, textKeys: map<string, string>, sent: seq<string>,
                                   target: seq<BYTES>, done: set<BYTES>, tids: map<string, nat>, receipts: seq<bool>,
                                   net: Net)
    requires Aimed(address, want, textKeys, sent, target) && done <= want.Keys
    requires Receipted(sent, target, done, tids, receipts, net) && forall s :: s in tids <==> s in textKeys
    ensures done == want.Keys
  {
    forall k | k in want ensures k in done {
      var i :| 0 <= i < |target| && target[i] == k;
      assert ReceiptedAt(sent[i], target[i], done, tids, receipts, net);
      assert sent[i] in sent;
    }
  }

  lemma {:induction false} ProgressDone(want: Table, before: Table, now: Table, net: Net)
    requires Progress(want, want.Keys, before, now, net)
    ensures PadInjective(want) ==> now == before + Gained(want, net)
  {
    assert Part(want, want.Keys) == want;
  }

  lemma {:induction false} RemoveDataPlain(key: BYTES)
    ensures Plain(RemoveData(key)) && RemoveData(key) != ""
  {
    ConvertPads(key);
    ToHexIsHex(Pad32(key));
    assert !IsHexDigit('"') && Plain("0x" + METHOD_HASH_REMOVE);
  }
}
