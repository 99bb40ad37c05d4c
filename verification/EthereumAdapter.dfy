/** The Ethereum adapter of one table (adapter_ethereum.cpp, adapter_ethereum.h). std::map walks whose
    order carries no meaning are taken in an arbitrary order. */
module EthereumAdapter {
  import opened Bytes
  import opened Hex
  import opened Network
  import opened Abi
  import opened BatchCalldata
  import opened Calldata
  import opened Json
  import opened Framing
  import opened ScanDecoder
  import opened EthNode
  import opened RpcBatch
  import opened Replies
  import opened BatchStrings

  class EthereumAdapter {
    const accountAddress: string
    const storedContractAddress: string
    var nonce: uint64
    const node: EthNode

    constructor (account: string, node: EthNode)
      requires Plain(account) && Plain(node.address) && node.address != "" && node.contract.Valid()
      ensures Valid() && this.node == node && Table() == node.contract.Table()
    {
      this.node := node;
      accountAddress := account;
      storedContractAddress := node.address;
      nonce := 0;
    }

    ghost predicate Valid()
      reads this, node.contract
    {
      && Plain(accountAddress) && Plain(storedContractAddress) && storedContractAddress != ""
      && storedContractAddress == node.address && node.contract.Valid()
    }

    /** The table in the contract behind the adapter. */
    ghost function Table(): Bytes.Table
      reads node.contract
    {
      node.contract.Table()
    }

    /** An unparsable answer leaves the nonce alone. */
    method UpdateNonce(count: Option<uint64>)
      modifies this`nonce
      ensures nonce == if count.Some? then NonceBefore(count.value) else old(nonce)
    {
      if count.Some? {
        nonce := NonceBefore(count.value);
      }
    }

    /** A single request: from, to, gas and the next nonce are filled in, the transaction is sent and its
        receipt checked. */
    method SendCall(data: string, net: Net) returns (ok: bool, ghost text: string)
      requires Valid() && Plain(data) && data != ""
      modifies this`nonce, node, node.contract
      ensures Valid() && node.posted == old(node.posted) + [text]
      ensures nonce == if old(nonce) == TWO64 - 1 then 0 else old(nonce) + 1
      ensures Carries(text, RpcParams(accountAddress, storedContractAddress, data, "eth_sendTransaction", "0x6ACFC0",
                                      "", "", "", nonce))
      ensures (Table(), ok) == Executed(old(Table()), CallOf(data), net)
    {
      nonce := Increment(nonce);
      var params := RpcParams(accountAddress, storedContractAddress, data, "eth_sendTransaction", GAS, "", "", "",
        nonce);
      var json := ParseParamsToJson(params);
      RequestReads(params, node.address);
      TextCarries(params);
      text := json;
      var tid := node.SendTransaction(json, net);
      ok := node.receipts[tid];
    }

    /** update_nonce, and the request behind it. */
    method SendNext(data: string, net: Net) returns (ok: bool, ghost text: string)
      requires Valid() && Plain(data) && data != ""
      modifies this`nonce, node, node.contract
      ensures Valid() && node.posted == old(node.posted) + [text]
      ensures nonce ==
        if net.counts(0).Some? then net.counts(0).value else if old(nonce) == TWO64 - 1 then 0 else old(nonce) + 1
      ensures Carries(text, RpcParams(accountAddress, storedContractAddress, data, "eth_sendTransaction", "0x6ACFC0",
                                      "", "", "", nonce))
      ensures (Table(), ok) == Executed(old(Table()), CallOf(data), net)
    {
      UpdateNonce(net.counts(0));
      ok, text := SendCall(data, net);
    }

    function Routing(): Route
    {
      Via(accountAddress, storedContractAddress)
    }

    /** createRpcBatch: completes the requests, found under their ids, and re-keys them by their text. */
    method CreateRpcBatch(batch: Requests, keyMap: map<string, string>)
      returns (texts: map<string, string>, textKeys: map<string, string>, ghost order: seq<string>)
      requires batch.Keys == keyMap.Keys
      modifies this`nonce
      ensures Walked(order, {}, batch.Keys) && Known(batch, keyMap, order)
      ensures Rekeying(texts, textKeys, nonce) == RekeyAll(Routing(), batch, keyMap, old(nonce), order)
    {
      ghost var start := nonce;
      texts, textKeys, order := map[], map[], [];
      var rest := batch.Keys;
      while rest != {}
        invariant Walked(order, rest, batch.Keys) && Known(batch, keyMap, order)
        invariant Rekeying(texts, textKeys, nonce) == RekeyAll(Routing(), batch, keyMap, start, order)
        decreases rest
      {
        var id :| id in rest;
        WalkedStep(order, rest, batch.Keys, id);
        RekeyAllStep(Routing(), batch, keyMap, start, order, id);
        texts, textKeys := RekeyRequest(batch, keyMap, texts, textKeys, id);
        order := order + [id];
        rest := rest - {id};
      }
    }

    /** One round of its loop. */
    method RekeyRequest(batch: Requests, keyMap: map<string, string>, texts: map<string, string>,
                        textKeys: map<string, string>, id: string)
      returns (texts': map<string, string>, textKeys': map<string, string>)
      requires id in batch && id in keyMap
      modifies this`nonce
      ensures Rekeying(texts', textKeys', nonce) ==
        RekeyOne(Routing(), batch, keyMap, Rekeying(texts, textKeys, old(nonce)), id)
    {
      var json := CompleteRequest(batch[id]);
      texts' := EmplaceText(texts, json, batch[id].0.rpcMethod);
      textKeys' := EmplaceText(textKeys, json, keyMap[id]);
    }

    method CompleteRequest(request: (RpcParams, bool)) returns (json: string)
      modifies this`nonce
      ensures nonce == NextNonce(request.0, old(nonce)) && json == FullText(Routing(), request, nonce)
    {
      var intermed := request.0.(from := accountAddress);
      if intermed.to == "" {
        intermed := intermed.(to := storedContractAddress);
      }
      if request.1 {
        intermed := intermed.(gas := GAS);
      }
      if intermed.rpcMethod == "eth_sendTransaction" {
        nonce := Increment(nonce);
        intermed := intermed.(nonce := nonce);
      }
      json := ParseParamsToJson(intermed);
      json := json + if intermed.quantityTag == "" then "" else ",\"" + intermed.quantityTag + "\"";
    }

    /** sendRpcBatch: sends every text, in an arbitrary order, then looks at the receipts and lists the keys
        of the failed requests. */
    method SendRpcBatch(texts: map<string, string>, textKeys: map<string, string>, net: Net,
                        ghost want: Bytes.Table, ghost sent: seq<string>, ghost target: seq<BYTES>)
      returns (output: seq<string>)
      requires Valid() && texts.Keys == textKeys.Keys && Aimed(node.address, want, textKeys, sent, target)
      modifies node, node.contract
      ensures Valid()
      ensures PadInjective(want) ==> Table() == old(Table()) + Gained(want, net)
      ensures Listed(sent, target, {}, output, net) && Received(old(node.posted), sent, node.posted)
      ensures (output == []) <==> forall k :: k in want ==> !net.putFails(Pad32(k))
    {
      var tids := SendAll(texts, net, want, sent, target, textKeys);
      ProgressDone(want, old(Table()), Table(), net);
      output := CheckAll(tids, textKeys, net, want, sent, target);
    }

    /** The first loop: post each text and note its transaction id. */
    method SendAll(texts: map<string, string>, net: Net, ghost want: Bytes.Table, ghost sent: seq<string>,
                   ghost target: seq<BYTES>, ghost textKeys: map<string, string>) returns (tids: map<string, nat>)
      requires Valid() && texts.Keys == textKeys.Keys && Aimed(node.address, want, textKeys, sent, target)
      modifies node, node.contract
      ensures Valid() && tids.Keys == texts.Keys
      ensures Sending(want, sent, target, want.Keys, tids, node.receipts, net, old(Table()), Table())
      ensures Received(old(node.posted), sent, node.posted)
    {
      tids := map[];
      var rest := texts.Keys;
      ghost var start: seq<string>, order: seq<string> := node.posted, [];
      ghost var tab := Table();
      ghost var done: set<BYTES> := {};
      SendStart(want, sent, target, node.receipts, net, tab);
      while rest != {}
        invariant Valid() && Posting(order, rest, texts.Keys, tids, start, node.posted)
        invariant Sending(want, sent, target, done, tids, node.receipts, net, tab, Table())
        decreases rest
      {
        var json :| json in rest;
        ghost var before, posted := tids, node.posted;
        tids, done := SendJson(json, tids, net, want, sent, target, textKeys, done, tab);
        order := PostingStep(order, rest, texts.Keys, before, start, posted, json, tids, node.posted);
        rest := rest - {json};
      }
      AllDone(node.address, want, textKeys, sent, target, done, tids, node.receipts, net);
      PostingDone(start, order, sent, texts.Keys, tids, node.posted);
    }

    method SendJson(json: string, tids: map<string, nat>, net: Net, ghost want: Bytes.Table, ghost sent: seq<string>,
                    ghost target: seq<BYTES>, ghost textKeys: map<string, string>, ghost done: set<BYTES>,
                    ghost tab: Bytes.Table)
      returns (tids': map<string, nat>, ghost done': set<BYTES>)
      requires Valid() && Aimed(node.address, want, textKeys, sent, target) && json in textKeys && json !in tids
      requires Sending(want, sent, target, done, tids, node.receipts, net, tab, Table())
      modifies node, node.contract
      ensures Valid() && tids'.Keys == tids.Keys + {json} && node.posted == old(node.posted) + [json]
      ensures Sending(want, sent, target, done', tids', node.receipts, net, tab, Table())
    {
      ghost var i := TextIndex(node.address, want, textKeys, sent, target, json);
      SendStep(want, sent, target, done, tids, node.receipts, net, tab, Table(), i);
      var tid := SendOne(json, net, want, sent, target, textKeys, i);
      tids' := tids[json := tid];
      done' := done + {target[i]};
    }

    method SendOne(json: string, net: Net, ghost want: Bytes.Table, ghost sent: seq<string>, ghost target: seq<BYTES>,
                   ghost textKeys: map<string, string>, ghost i: nat) returns (tid: nat)
      requires Valid() && Aimed(node.address, want, textKeys, sent, target)
      requires i < |sent| && sent[i] == json && target[i] in want
      modifies node, node.contract
      ensures Valid() && tid == |old(node.receipts)| && node.posted == old(node.posted) + [json]
      ensures node.receipts == old(node.receipts) + [!net.putFails(Pad32(target[i]))]
      ensures Table() ==
        if net.putFails(Pad32(target[i])) then old(Table()) else old(Table())[Pad32(target[i]) := want[target[i]]]
    {
      tid := node.SendTransaction(json, net);
      assert RequestOf(node.address, sent[i]) == Some(PutCall(Pad32(target[i]), want[target[i]]));
    }

    method CheckAll(tids: map<string, nat>, textKeys: map<string, string>, net: Net, ghost want: Bytes.Table,
                    ghost sent: seq<string>, ghost target: seq<BYTES>) returns (output: seq<string>)
      requires Aimed(node.address, want, textKeys, sent, target) && tids.Keys == textKeys.Keys
      requires Receipted(sent, target, want.Keys, tids, node.receipts, net)
      ensures Listed(sent, target, {}, output, net)
      ensures (output == []) <==> forall k :: k in want ==> !net.putFails(Pad32(k))
    {
      output := [];
      var rest := tids.Keys;
      while rest != {}
        invariant rest <= tids.Keys
        invariant Listed(sent, target, rest, output, net)
        invariant output != [] ==> exists k :: k in want && net.putFails(Pad32(k))
        decreases rest
      {
        var json :| json in rest;
        ghost var i :| 0 <= i < |sent| && sent[i] == json;
        assert AimedAt(want, textKeys, json, target[i]);
        assert ReceiptedAt(json, target[i], want.Keys, tids, node.receipts, net);
        ListStep(sent, target, rest, output, net, i);
        if !node.receipts[tids[json]] {
          output := output + [textKeys[json]];
        }
        rest := rest - {json};
      }
      if output == [] {
        forall k | k in want ensures !net.putFails(Pad32(k)) {
          var i :| 0 <= i < |target| && target[i] == k;
          assert ToHex(target[i]) !in output;
        }
      }
    }

    /** The keys of a batch in the order in which its std::map is walked. */
    method KeysOf(batch: Bytes.Table) returns (keys: seq<BYTES>)
      ensures Sorted(keys) && Distinct(keys) && |keys| == |batch| && forall k :: k in keys <==> k in batch
    {
      keys := Walk(batch.Keys);
      SortedDistinct(keys);
      assert |batch.Keys| == |batch|;
    }

    /** The i-th update_nonce of a put. */
    method FetchNonce(net: Net, i: nat, ghost before: uint64)
      requires Fetched(net.counts, i, before, nonce)
      modifies this`nonce
      ensures Fetched(net.counts, i + 1, before, nonce)
    {
      ghost var mid := nonce;
      UpdateNonce(net.counts(i));
      FetchedStep(net.counts, i, before, mid, nonce);
    }

    /** The request maps of put: nonces are fetched, calldata is written, ids are given in key order. */
    method Prepare(batch: Bytes.Table, net: Net)
      returns (requests: Requests, keyMap: map<string, string>, ghost keys: seq<BYTES>)
      requires |batch| <= INT_MAX && forall k :: k in batch ==> |batch[k]| < TWO32
      modifies this`nonce
      ensures Ready(batch, keys, requests, keyMap) && |requests| == |batch|
      ensures Fetched(net.counts, |batch|, old(nonce), nonce)
    {
      requests, keyMap := map[], map[];
      var order := KeysOf(batch);
      keys := order;
      var i := 0;
      while i < |order|
        invariant 0 <= i <= |order|
        invariant Prepared(batch, keys, i, requests, keyMap)
        invariant Fetched(net.counts, i, old(nonce), nonce)
      {
        FetchNonce(net, i, old(nonce));
        var key, value := order[i], batch[order[i]];
        var keyHex := ByteArrayToHex(key);
        var valueHex := ByteArrayToHex(value);
        var data := "0x" + METHOD_HASH_PUT + ConvertTo32Byte(keyHex) + IntToHex(64, 64) + IntToHex(|value|, 64) +
          valueHex;
        var params := RpcParams("", "", data, "eth_sendTransaction", "", "", "", Decimal(i), 0);
        PrepareStep(batch, keys, i, requests, keyMap, (params, true));
        requests := requests[params.transactionId := (params, true)];
        keyMap := keyMap[params.transactionId := keyHex];
        i := i + 1;
      }
      PreparedFacts(batch, keys, requests, keyMap);
    }

    /** The requests of a batch, ready to be sent: each pair's own text, under its own nonce. */
    method Compose(batch: Bytes.Table, net: Net)
      returns (texts: map<string, string>, textKeys: map<string, string>,
               ghost sent: seq<string>, ghost target: seq<BYTES>, ghost start: uint64)
      requires Plain(accountAddress) && Plain(storedContractAddress) && storedContractAddress != ""
      requires |batch| <= INT_MAX && forall k :: k in batch ==> |batch[k]| < TWO32
      modifies this`nonce
      ensures texts.Keys == textKeys.Keys && Aimed(storedContractAddress, batch, textKeys, sent, target)
      ensures AllCarried(accountAddress, storedContractAddress, batch, start, sent, target)
      ensures Fetched(net.counts, |batch|, old(nonce), start) && nonce == Advanced(start, |batch|)
    {
      var requests, keyMap;
      ghost var keys;
      requests, keyMap, keys := Prepare(batch, net);
      texts, textKeys, sent, target, start := Rekey(requests, keyMap, batch, keys);
      NumberedCarries(Routing(), batch, start, sent, target);
    }

    method Rekey(requests: Requests, keyMap: map<string, string>, ghost batch: Bytes.Table, ghost keys: seq<BYTES>)
      returns (texts: map<string, string>, textKeys: map<string, string>,
               ghost sent: seq<string>, ghost target: seq<BYTES>, ghost start: uint64)
      requires Plain(accountAddress) && Plain(storedContractAddress) && storedContractAddress != ""
      requires Ready(batch, keys, requests, keyMap) && |requests| < TWO64
      modifies this`nonce
      ensures texts.Keys == textKeys.Keys && Aimed(storedContractAddress, batch, textKeys, sent, target)
      ensures Numbered(Routing(), batch, start, sent, target) && start == old(nonce)
      ensures nonce == Advanced(start, |requests|)
    {
      start := nonce;
      ghost var order;
      texts, textKeys, order := CreateRpcBatch(requests, keyMap);
      TextsSeparate(Routing(), requests, start);
      sent := TransactionsRekeyed(Routing(), requests, keyMap, start, order);
      RekeyedNonce(Texts(Routing(), requests, start), requests, keyMap, start, Rekeying(texts, textKeys, nonce), order,
        sent);
      target := TargetsOf(keys, order);
      RekeyingAims(Routing(), batch, keys, requests, keyMap, start, textKeys, order, sent);
    }

    /** put: returns 1 with the failed pairs left in the batch, 0 with the batch as it was. The contract
        gains exactly the other pairs; every pair travels in a request of its own with a nonce of its own,
        counting up from the fetched transaction count. */
    method Put(batch: Bytes.Table, net: Net)
      returns (rc: int, remaining: Bytes.Table, ghost sent: seq<string>, ghost target: seq<BYTES>, ghost start: uint64)
      requires Valid() && |batch| <= INT_MAX && forall k :: k in batch ==> |batch[k]| < TWO32
      modifies this`nonce, node, node.contract
      ensures Valid()
      ensures !net.available ==> rc == 1 && remaining == batch && Table() == old(Table())
      ensures !net.available ==> nonce == old(nonce) && node.posted == old(node.posted)
      ensures net.available ==> rc == if forall k :: k in batch ==> !net.putFails(Pad32(k)) then 0 else 1
      ensures net.available && rc == 1 ==> remaining == map k | k in batch && net.putFails(Pad32(k)) :: batch[k]
      ensures rc == 0 ==> remaining == batch
      ensures net.available && PadInjective(batch) ==> Table() == old(Table()) + Gained(batch, net)
      ensures net.available ==> Distinct(target) && (forall k :: k in target <==> k in batch) && Distinct(sent)
      ensures net.available ==> Received(old(node.posted), sent, node.posted)
      ensures net.available ==> AllCarried(accountAddress, storedContractAddress, batch, start, sent, target)
      ensures net.available ==> Fetched(net.counts, |batch|, old(nonce), start) && nonce == Advanced(start, |batch|)
    {
      sent, target, start := [], [], 0;
      if !net.available {
        return 1, batch, [], [], 0;
      }
      var texts, textKeys;
      texts, textKeys, sent, target, start := Compose(batch, net);
      var response := SendRpcBatch(texts, textKeys, net, batch, sent, target);
      if response != [] {
        remaining := KeepFailed(batch, response, net, sent, target);
        return 1, remaining, sent, target, start;
      }
      return 0, batch, sent, target, start;
    }

    /** The filtering loop of put: pairs whose key is not in the response are erased. */
    method KeepFailed(batch: Bytes.Table, response: seq<string>, net: Net, ghost sent: seq<string>,
                      ghost target: seq<BYTES>)
      returns (remaining: Bytes.Table)
      requires Listed(sent, target, {}, response, net) && forall k :: k in target <==> k in batch
      ensures remaining == map k | k in batch && net.putFails(Pad32(k)) :: batch[k]
    {
      remaining := batch;
      var rest := batch.Keys;
      while rest != {}
        invariant rest <= batch.Keys
        invariant remaining == map k | k in batch && (k in rest || net.putFails(Pad32(k))) :: batch[k]
        decreases rest
      {
        var k :| k in rest;
        ghost var i :| 0 <= i < |target| && target[i] == k;
        assert ToHex(target[i]) in response <==> net.putFails(Pad32(k));
        var keyHex := ByteArrayToHex(k);
        if keyHex !in response {
          remaining := remaining - {k};
        }
        rest := rest - {k};
      }
    }

    /** remove: 1 when the transaction fails, an absent key's revert included. */
    method Remove(key: BYTES, net: Net) returns (rc: int, ghost text: string)
      requires Valid()
      modifies this`nonce, node, node.contract
      ensures Valid() && node.posted == old(node.posted) + [text]
      ensures nonce ==
        if net.counts(0).Some? then net.counts(0).value else if old(nonce) == TWO64 - 1 then 0 else old(nonce) + 1
      ensures Carries(text, RpcParams(accountAddress, storedContractAddress, RemoveData(key), "eth_sendTransaction",
                                      "0x6ACFC0", "", "", "", nonce))
      ensures rc == if net.txFails || Pad32(key) !in old(Table()) then 1 else 0
      ensures Table() == if net.txFails then old(Table()) else old(Table()) - {Pad32(key)}
    {
      ghost var tab := Table();
      var keyHex := ByteArrayToHex(key);
      var data := "0x" + METHOD_HASH_REMOVE + ConvertTo32Byte(keyHex);
      RemoveDataDecodes(key);
      RemoveDataPlain(key);
      var ok;
      ok, text := SendNext(data, net);
      RemoveOutcome(tab, Pad32(key), net, Table(), ok);
      rc := if ok then 0 else 1;
    }

    /** A reading request: no nonce, no gas, the latest block. */
    method ReadCall(data: string) returns (reply: Option<string>)
      requires Valid() && Plain(data) && data != ""
      ensures reply.Some? ==> IsHex(reply.value)
      ensures node.Answers(CallOf(data), reply)
    {
      var params := RpcParams(accountAddress, storedContractAddress, data, "eth_call", "", "", "latest", "", 0);
      var json := ParseParamsToJson(params);
      ReadRequestReads(params, node.address);
      var tag := ",\"" + params.quantityTag + "\"";
      LatestTag();
      reply := node.Call(json + tag);
    }

    /** get: 1 for an absent key or an unusable answer, otherwise 0 with the stored value. */
    method Get(key: BYTES, net: Net) returns (rc: int, result: Result<BYTES>)
      requires Valid()
      ensures !net.answered || Pad32(key) !in Table() ==> rc == 1
      ensures net.answered && Pad32(key) in Table() && 2 * |Table()[Pad32(key)]| <= INT_MAX
        ==> rc == 0 && result == Ok(Table()[Pad32(key)])
    {
      var keyHex := ByteArrayToHex(key);
      GetDataPlain(key);
      GetDataDecodes(key);
      var reply := ReadCall("0x" + METHOD_HASH_GET + ConvertTo32Byte(keyHex));
      if !net.answered || reply.None? || reply.value == "" {
        return 1, Thrown;
      }
      if 2 * |Table()[Pad32(key)]| <= INT_MAX {
        var pad: nat :| reply == Some(ToHex(EncodeString(Table()[Pad32(key)], pad)));
        GetIsExact(Table()[Pad32(key)], pad);
      }
      HexIsWord(reply.value);
      var unset: int := *;
      result := ParseGet(reply.value, unset);
      rc := 0;
    }

    /** get_all: -1 without a connection, 1 for an empty result, a missing answer included; otherwise 0.
        With an answer the result is the table if and only if all its values are separator-safe. */
    method GetAll(net: Net) returns (rc: int, results: Result<Bytes.Table>)
      requires Valid()
      ensures !net.available ==> rc == -1
      ensures net.available ==> rc == if results == Ok(map[]) then 1 else 0
      ensures net.available && !net.answered ==> results == Ok(map[])
      ensures net.available && net.answered ==> ScanReads(Table(), results)
      ensures net.available && net.answered && |Table()| <= INT_MAX ==> (results == Ok(Table()) <==> TableSafe(Table()))
      ensures net.available && net.answered && |Table()| <= INT_MAX && results.Ok? ==>
        results.value.Keys == Table().Keys
    {
      if !net.available {
        return -1, Ok(map[]);
      }
      ScanDataDecodes();
      var reply := ReadCall("0x" + METHOD_HASH_GETALL);
      var rpcResult := if net.answered && reply.Some? then reply.value else "";
      var unset: int := *;
      results := Split(rpcResult, unset);
      if net.answered {
        ghost var keys, values := node.contract.keyList, node.contract.Listed();
        ghost var pad: nat :| reply == Some(ToHex(EncodeScan(keys, Blob(values), pad)));
        assert ScanReadsAs(Table(), keys, values, pad, unset, results);
        if |Table()| <= INT_MAX {
          ScanReadsIff(Table(), results);
          if results.Ok? {
            ScanKeepsKeys(Table(), results);
          }
        }
      }
      rc := if results == Ok(map[]) then 1 else 0;
    }

    /** put_batch: all pairs in one transaction, whose outcome is not looked at. What the contract stores under
        the padded keys is the batch exactly when all its values read back. */
    method PutBatch(batch: Bytes.Table, net: Net)
      returns (rc: int, ghost keys: seq<BYTES>, ghost values: seq<BYTES>, ghost text: string)
      requires Valid() && 96 * |batch| + 96 < TWO64
      requires forall k :: k in batch ==> |batch[k]| < TWO32
      modifies this`nonce, node, node.contract
      ensures Valid() && rc == 0 && InKeyOrder(batch, keys, values)
      ensures node.posted == old(node.posted) + [text]
      ensures nonce ==
        if net.counts(0).Some? then net.counts(0).value else if old(nonce) == TWO64 - 1 then 0 else old(nonce) + 1
      ensures Carries(text, RpcParams(accountAddress, storedContractAddress, PutBatchData(keys, values),
                                      "eth_sendTransaction", "0x6ACFC0", "", "", "", nonce))
      ensures Table() == if net.txFails then old(Table()) else BatchStored(old(Table()), keys, values)
      ensures PadInjective(batch) && !net.txFails && old(Table()) + Repadded(batch) != old(Table()) ==>
        (Table() == old(Table()) + Repadded(batch) <==> AllReadBack(values))
    {
      ghost var tab := Table();
      var data;
      data, keys, values := BatchData(batch);
      var ok;
      ok, text := SendNext(data, net);
      InOrderFits(batch, keys, values);
      BatchOutcome(tab, keys, values, net);
      if PadInjective(batch) {
        BatchStoredIff(tab, batch, keys, values);
      }
      rc := 0;
    }

    /** The calldata of put_batch. */
    method BatchData(batch: Bytes.Table) returns (data: string, ghost keys: seq<BYTES>, ghost values: seq<BYTES>)
      requires 96 * |batch| + 96 < TWO64 && forall k :: k in batch ==> |batch[k]| < TWO32
      ensures InKeyOrder(batch, keys, values)
      ensures data == PutBatchData(keys, values) && Plain(data) && data != ""
    {
      var order := KeysOf(batch);
      keys, values := order, ValuesOf(batch, order);
      var n := |batch|;
      var keyString, valueOffset, valueString := BatchLoop(batch, order);
      var arguments := IntToHex(64, 64) + IntToHex(n * 32 + 96, 64) + IntToHex(n, 64) + keyString
        + IntToHex(n, 64) + valueOffset + valueString;
      data := "0x" + METHOD_HASH_PUTBATCH + arguments;
      BatchDataIs(keys, values, keyString, valueOffset, valueString, 64, n * 32 + 96, n, data);
    }

    /** The loop of put_batch, accumulating key words, offsets and value cells over the pairs in key order. */
    method BatchLoop(batch: Bytes.Table, order: seq<BYTES>)
      returns (keyString: string, valueOffset: string, valueString: string)
      requires |order| == |batch| && (forall k :: k in order ==> k in batch)
      requires 96 * |batch| + 96 < TWO64 && forall k :: k in batch ==> |batch[k]| < TWO32
      ensures BatchStringsUpTo(order, ValuesOf(batch, order), |order|, |order|, keyString, valueOffset, valueString)
    {
      ghost var values := ValuesOf(batch, order);
      var n := |batch|;
      keyString, valueOffset, valueString := "", "", "";
      var i := 0;
      BatchStringsStart(order, values, n);
      while i < n
        invariant 0 <= i <= n
        invariant BatchStringsUpTo(order, values, n, i, keyString, valueOffset, valueString)
      {
        BatchStringsStep(order, values, n, i, keyString, valueOffset, valueString);
        var value := batch[order[i]];
        var keyHex := ByteArrayToHex(order[i]);
        var valueHex := ByteArrayToHex(value);
        keyString := keyString + ConvertTo32Byte(keyHex);
        valueOffset := valueOffset + ConvertTo32Byte(IntToHex(n * 32 + 64 * i, 64));
        valueString := valueString + ConvertTo32Byte(IntToHex(|value|, 64)) + ConvertTo32Byte(valueHex);
        i := i + 1;
      }
    }
  }
}
