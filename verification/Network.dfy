/** The blockchain network as the adapter meets it: every answer is an input. */
module Network {
  import opened Bytes

  type uint64 = x: int | 0 <= x < TWO64

  /** One operation's worth of network behaviour.
      available:   what check_connection finds
      answered:    whether the eth_call of a table scan returns a parsable result
      counts:      the account's transaction count as answered to the i-th update_nonce, if parsable
      putFails:    which contract keys' put transactions end without a successful receipt
      txFails:     whether the operation's single transaction (remove, putBatch) does */
  datatype Net = Net(available: bool, answered: bool, counts: nat -> Option<uint64>,
                     putFails: BYTES -> bool, txFails: bool)

  predicate Survives(n: Net, k: BYTES) {
    n.available && !n.putFails(k)
  }

  /** The part of a batch that reaches the contract. */
  function Surviving(batch: Table, n: Net): Table {
    map k | k in batch && Survives(n, k) :: batch[k]
  }

  /** The part that does not. */
  function Remainder(batch: Table, n: Net): Table {
    map k | k in batch && !Survives(n, k) :: batch[k]
  }

  lemma SurvivingAll(batch: Table, n: Net)
    requires forall k :: k in batch ==> Survives(n, k)
    ensures Surviving(batch, n) == batch
  {
  }
}
