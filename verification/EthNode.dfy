/** The Ethereum node at the other end of the adapter's requests, for one contract address: it reads the
    request text, decodes the calldata and runs the contract. */
module EthNode {
  import opened Bytes
  import opened Hex
  import opened Network
  import opened Abi
  import opened Calldata
  import opened Json
  import TS = TableStorage
  import Framing

  const LATEST := ",\"latest\""

  /** What a request text asks of the contract at the given address. */
  function RequestOf(address: string, params: string): (r: Option<Call>)
    ensures KeysSized(r)
  {
    match ReadObject(params)
    case None => None
    case Some(fs) =>
      match (ValueOf(fs, "to"), ValueOf(fs, "data"))
      case (Some(to), Some(data)) => CallKeysSized(data); if to == address then CallOf(data) else None
      case _ => None
  }

  /** eth_call carries the block tag behind the object. */
  function ReadRequestOf(address: string, params: string): (r: Option<Call>)
    ensures KeysSized(r)
  {
    if |params| >= 9 && params[|params| - 9..] == LATEST then RequestOf(address, params[..|params| - 9])
    else None
  }

  /** The table after a transaction, and the status of its receipt. */
  ghost function Executed(tab: Table, call: Option<Call>, net: Net): (Table, bool) {
    match call
    case Some(PutCall(k, v)) => if net.putFails(k) then (tab, false) else (tab[k := v], true)
    case Some(RemoveCall(k)) => if net.txFails || k !in tab then (tab, false) else (tab - {k}, true)
    case Some(PutBatchCall(ks, vs)) =>
      if net.txFails || |vs| < |ks| then (tab, false) else (TS.PutAll(tab, ks, vs[..|ks|]), true)
    case _ => (tab, false)
  }

  lemma RemoveOutcome(tab: Table, k: BYTES, net: Net, after: Table, ok: bool)
    requires (after, ok) == Executed(tab, Some(RemoveCall(k)), net)
    ensures ok <==> !net.txFails && k in tab
    ensures after == if net.txFails then tab else tab - {k}
  {
  }

  /** posted lists the transactions that have come in. */
  class EthNode {
    const address: string
    const contract: TS.TableStorage
    var posted: seq<string>
    var receipts: seq<bool>
    var blockNumber: nat

    constructor (address: string, contract: TS.TableStorage)
      ensures this.address == address && this.contract == contract
    {
      this.address := address;
      this.contract := contract;
      posted := [];
      receipts := [];
      blockNumber := 0;
    }

    /** eth_sendTransaction: every transaction is mined in a block after the first; the answer is the
        transaction's id. */
    method SendTransaction(params: string, net: Net) returns (tid: nat)
      requires contract.Valid()
      modifies this, contract
      ensures contract.Valid()
      ensures tid == |old(receipts)| && posted == old(posted) + [params]
      ensures contract.Table() == Executed(old(contract.Table()), RequestOf(address, params), net).0
      ensures receipts == old(receipts) + [Executed(old(contract.Table()), RequestOf(address, params), net).1]
    {
      posted := posted + [params];
      blockNumber := blockNumber + 1;
      var ok := Execute(RequestOf(address, params), net);
      tid := |receipts|;
      receipts := receipts + [ok];
    }

    method Execute(call: Option<Call>, net: Net) returns (ok: bool)
      requires contract.Valid() && KeysSized(call) && blockNumber > 0
      modifies contract
      ensures contract.Valid() && (contract.Table(), ok) == Executed(old(contract.Table()), call, net)
    {
      ok := false;
      match call {
        case Some(PutCall(k, v)) =>
          if !net.putFails(k) {
            contract.Put(k, v, blockNumber);
            ok := true;
          }
        case Some(RemoveCall(k)) =>
          if !net.txFails {
            ok := contract.Remove(k);
          }
        case Some(PutBatchCall(ks, vs)) =>
          if !net.txFails {
            ok := contract.PutBatch(ks, vs, blockNumber);
          }
        case _ =>
      }
    }

    /** What the contract's current state lets a reading call return, up to zero padding. */
    ghost predicate Answers(call: Option<Call>, reply: Option<string>)
      requires contract.Valid()
      reads contract
    {
      match call
      case Some(GetCall(k)) =>
        if k in contract.Table()
        then exists pad: nat :: reply == Some(ToHex(EncodeString(contract.Table()[k], pad)))
        else reply == None
      case Some(ScanCall) =>
        exists pad: nat :: reply == Some(ToHex(EncodeScan(contract.keyList, Framing.Blob(contract.Listed()), pad)))
      case _ => true
    }

    /** eth_call: the hex of the encoded result, nothing when the call reverts. */
    method Call(params: string) returns (reply: Option<string>)
      requires contract.Valid()
      ensures reply.Some? ==> IsHex(reply.value)
      ensures Answers(ReadRequestOf(address, params), reply)
    {
      match ReadRequestOf(address, params) {
        case Some(GetCall(k)) =>
          var r := contract.Get(k);
          if r.Ok? {
            var bytes := EncodeString(r.value, Padding(|r.value|));
            ToHexIsHex(bytes);
            reply := Some(ToHex(bytes));
          } else {
            reply := None;
          }
        case Some(ScanCall) =>
          var keys, text := contract.TableScan();
          var bytes := EncodeScan(keys, text, Padding(|text|));
          ToHexIsHex(bytes);
          reply := Some(ToHex(bytes));
        case _ =>
          reply := None;
      }
    }
  }

  /** Zero bytes up to the next multiple of 32. */
  function Padding(n: nat): nat { (32 - n % 32) % 32 }
}
