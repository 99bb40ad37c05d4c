# A blockchain-backed storage engine, verified

This project models a MySQL storage engine that keeps its tables in Ethereum smart contracts, and proves
properties of the model with Dafny 4.11. `dafny verify dfyconfig.toml` checks everything.

A connection works on a transaction: a statement log and, per table, a cached copy that was read from the
chain when the table was first locked. A commit sends the log to the contracts, one adapter per table. The
modules follow that path from top to bottom:

| module | what it covers |
|---|---|
| `Bytes`, `Network` | byte strings and their order; what the network does to each request |
| `Statements`, `Delivery` | the log; plain replay, batched execution, and when the two agree, with and without failing requests |
| `Rows`, `RowTests`, `Sessions` | row operations on log and cache; what holds of single rows; many connections, commits and rollbacks |
| `Transactions`, `Records`, `KeyImage`, `Handler`, `Lookups`, `Scans` | the transaction object, record layout and keys, the handler with its cursor, row operations followed by a search, a whole scan |
| `Commits`, `Engine`, `Server` | commit, rollback and lock as methods; every sequence of server calls as a run of the session model |
| `Reload`, `Retries` | commit followed by a reload; repeated puts |
| `EthereumAdapter`, `RpcBatch`, `BatchStrings`, `Replies`, `ScanDecoder` | the adapter: batches, nonces, calldata, decoding |
| `Hex`, `Numerals`, `Framing`, `Abi`, `Calldata`, `BatchCalldata`, `Json` | the text formats on the wire |
| `EthNode`, `TableStorage` | the node that reads the requests, and the contract |

Classes stand for the objects that the program updates in place: `Transaction`, `HaBlockchain`, `Thd`,
`StorageEngine`, `EthereumAdapter`, `EthNode` and `TableStorage`; `Server` holds the connections of the
database server that calls them. Their methods are proved against functions on values (`Rows`, `Statements`,
`Commits`, `Sessions`), and the laws are lemmas about those functions.

## The main results

- **Commit against replay, whatever fails.** `bc_commit` groups writes per table, sends a group before each
  REMOVE and looks at no result. For every log, every prior content and whatever transactions fail, each
  key ends as the last request that takes effect on it leaves it (`Delivery.CommitOutcome`), and the table
  ends as the log's plain replay if and only if for every key that is what its last statement asks for
  (`Delivery.CommitIsReplayIff`). A write whose request fails is lost although 0 is returned
  (`Delivery.UnsentWriteIsLost`).
- **When every request sent succeeds**, commit equals, in any interleaving with other tables, immediate
  execution in which the first write of a key in a REMOVE-free stretch wins (`Statements.CommitIsFirstWins`),
  and the plain replay if and only if the last write of every key repeats the value that opened its stretch
  (`Statements.CarriedIsReplayIff`). Insert a row and update it in the same transaction, and the inserted
  value is what the chain keeps (`Statements.UpdateAfterInsertIsLost`).
- **Commit, then reload.** Through adapter, JSON, calldata, node, contract, scan and decoder: a connection
  that locks all the tables again, the committing one included, finds each of them as it was in the committed
  cache if and only if every key touched was delivered and every other one was on chain as when locked; all
  rows are separator-safe (`Reload.CommitThenLock`).
- **The scan decoder is exact** if and only if every stored value is separator-safe: no `####`, no half-byte
  shifted image of it, no trailing `#` (`Framing.FirstOccurrenceIff`, `ScanDecoder.SplitIsExactIff`).
- **The contract is a finite map**, and its key list is duplicate-free and complete after every call.
- **Requests.** Every pair of a batch travels in a transaction of its own that a reader of its text finds to carry
  account, contract, gas limit, calldata and the next nonce after the fetched count, and the failed pairs are
  exactly the ones reported (`EthereumAdapter.EthereumAdapter.Put`).
- **What is written is found.** After `write_row`, `index_read` for the record's key fields gives its row behind zero
  null bytes; after `update_row` the new key fields do, and the old ones nothing (`Lookups`).
- **Keys.** The in-place shift of a search key gives the bytes of the record's key if and only if every
  varchar part has a convertible maximum length (`KeyImage.KeyImagesAgreeIff`).
- **putBatch's calldata**, with its offsets computed by hand, leads back to exactly the batch if and only if
  every value fits a word or continues in the cells behind it (`BatchCalldata.PutBatchRoundTripIff`); what
  the contract stores is stated for every batch (`EthereumAdapter.EthereumAdapter.PutBatch`).
- **Connections.** Every sequence of server calls on the classes is the run of the session model in which each
  action is what the call asks for, with the records handed in and what a lock reads of the chain it meets; so
  the contracts hold the effect of the committed logs in commit order (`Server.Server.History`). Without the
  calls of a connection that does not commit, all other calls read and do the same
  (`Server.UncommittedCallsAreInvisible`), and a rollback leaves no trace of it
  (`Server.RolledBackCallsLeaveNoTrace`). Commits that touch different rows commute, and where every commit
  delivers its keys a table is the serial replay of all committed statements (`Sessions.ChainIsSerialReplay`).

## Where the code and its documentation differ

The model follows the code.

- `engine/src/ha_blockchain.cc:364-368` describes W1, W2 being sent as a batch; line 373 uses `emplace`, so
  a later write to a key of the batch is dropped, while the cache keeps the later one.
- `adapter/interface/include/adapter_interface/adapter_interface.h:189-198` says that inserted pairs are
  removed from the batch; when all succeed, `put` returns 0 and leaves the batch full.
- `engine/include/ha_blockchain.h:286-293` allows a second `rnd_init` without `rnd_end`; the code appends to
  the buffer, so that scan repeats rows (`Handler.ScanListsTableIff`).
- A comment in `update_nonce` says that nonces start at 0, and `max(0, count - 1)` is unsigned: a count of 0
  wraps to the top, and the first increment wraps back (`RpcBatch.NoncesCountUp`).
- `get_all` on an answer it cannot parse reports an empty table (return 1), which `external_lock` accepts.
- Keys shorter than 32 bytes come back from `get_all` padded to 32; the engine only uses 32-byte keys.
- `bc_commit` looks at no result of `put` and `remove`; it returns 0 whatever transactions fail, so 0 does not
  mean that the log is on chain (`Delivery.UnsentWriteIsLost`, `Delivery.FailedRemoveKeepsRow`). A node that
  refuses a transaction makes it throw instead; see below.
- `put_batch` does not split values over words: a value longer than 32 bytes under the greatest key makes the
  contract reject the whole batch, and `put_batch` returns 0 (`BatchCalldata.LongLastValueIsRejected`).
- `hex_to_byte_array` checks the number of digits and not the digits (`Hex.MalformedPairs`).
- `update_row` uses the server's new record as scratch space and, when the key is unchanged, leaves the old
  row in it.

## Model

| member | source | states |
|---|---|---|
| `Bytes.LessThan` | adapter/interface/include/adapter_interface/adapter_interface.h:128-144 | the byte loop with its early returns decides: fewer bytes first, then the smaller number |
| `Bytes.Equal` | adapter/interface/include/adapter_interface/adapter_interface.h:103-114 | the early-exit comparison is equality of contents |
| `Bytes.LessIsStrictTotalOrder` | adapter/interface/include/adapter_interface/adapter_interface.h:116-144 | irreflexive, transitive, and neither-is-less is exactly equality: what std::map needs |
| `Bytes.WalkIsUnique` | adapter/interface/include/adapter_interface/adapter_interface.h:116-144 | a set of keys has one ascending listing, of the set's size |
| `Bytes.Walk` | engine/src/ha_blockchain.cc:1195-1199 | walking a map keyed by BYTES visits every key once, in that order |
| `Statements.CommitIsFirstWins` | engine/src/ha_blockchain.cc:326-403 | for every log, chain and table, when the requests sent for the table succeed: batching with a flush before each REMOVE equals immediate execution in which a key already written since the table's last REMOVE is not written again |
| `Statements.PendingKeys` | engine/src/ha_blockchain.cc:369-387 | the batch of a table holds exactly the keys written since its last REMOVE |
| `Statements.Decider` | engine/src/ha_blockchain.cc:369-390 | which statement decides a key under batched execution and under replay: none, a REMOVE, the stretch's first write, the last write |
| `Statements.CarriedIsReplayIff` | engine/src/ha_blockchain.cc:326-403 | when the requests sent for the table succeed, the committed table equals the plain replay if and only if the log is faithful on the table, for every prior content |
| `Statements.NoRewriteIsFaithful` | engine/src/ha_blockchain.cc:369-373 | a log that never rewrites a key with another value inside a REMOVE-free stretch is faithful |
| `Statements.UpdateAfterInsertIsLost` | engine/src/ha_blockchain.cc:373 | a write followed by a different write of the same key commits the first value while the replay has the second |
| `Statements.NoRepeatIsNoRewrite` | engine/src/ha_blockchain.cc:369-387 | a log that puts no key twice into a batch rewrites none with another value |
| `Delivery.CommitOutcome` | engine/src/ha_blockchain.cc:326-403 | under any failures a key ends as the last request that takes effect on it leaves it, and unchanged if there is none |
| `Delivery.KeyIsReplayedIff` | engine/src/ha_blockchain.cc:326-403 | key by key: commit and replay agree if and only if the key is delivered, that is, the last effective request gives it what its last statement asks for |
| `Delivery.CommitIsReplayIff` | engine/src/ha_blockchain.cc:326-403 | for every log and prior content and whatever transactions fail the committed table equals the plain replay if and only if every key is delivered |
| `Delivery.CarriedDeliversIff` | engine/src/ha_blockchain.cc:326-403 | when the requests sent for the table succeed, every key is delivered if and only if the log is faithful |
| `Delivery.UnsentWriteIsLost` | engine/src/ha_blockchain.cc:394-400 | a single write whose request fails leaves the table as it was, although the log is faithful |
| `Delivery.FailedRemoveKeepsRow` | engine/src/ha_blockchain.cc:378-389 | a REMOVE that fails after its batch was sent leaves the row that it was to delete |
| `Rows.InsertIs` | engine/src/ha_blockchain.cc:854-862 | an insert of a new key appends one WRITE and caches the row under it, nothing else changing; one of a cached key changes nothing at all |
| `Rows.DeleteIs` | engine/src/ha_blockchain.cc:963-970 | a delete appends one REMOVE and takes that key from the cached table, nothing else changing |
| `Rows.UpdateIs` | engine/src/ha_blockchain.cc:905-931 | same key: one WRITE, and the row is cached; new key: a REMOVE of the old one and, exactly if the new one is free then, a WRITE; the cached table loses the old key and has the new row or, on a collision, what was there; nothing else changes |
| `Rows.StepKeepsCoherence` | engine/src/ha_blockchain.cc:858-861 | logging a statement and applying it to the cached table keeps the cache equal to the log replayed over the snapshot |
| `Rows.LockKeepsCoherence` | engine/src/ha_blockchain.cc:1428-1456 | so does locking a further table, or one already locked |
| `Rows.RowOpKeepsCoherence` | engine/src/ha_blockchain.cc:832-973 | so does every insert, update and delete, rejected inserts included |
| `Rows.UpdateKeepsCoherence` | engine/src/ha_blockchain.cc:905-931 | an update keeps cache and log in step, with a changed key and on a collision too; what it does is `Rows.UpdateIs` |
| `Rows.RunKeepsCoherence` | engine/src/ha_blockchain.cc:832-973 | coherence after any run of locks and row operations |
| `Rows.CommitGivesCacheIff` | engine/src/ha_blockchain.cc:302-408 | after any run, committing onto unchanged tables leaves exactly the cache if and only if every key is delivered; when the requests sent succeed, if and only if the log is faithful |
| `Rows.CommitMerges` | engine/src/ha_blockchain.cc:302-408 | onto any chain and under any failures, a touched row becomes what the cache shows and an untouched one stays as whoever committed in between left it, if and only if the key is delivered |
| `Rows.CommitOntoIff` | engine/src/ha_blockchain.cc:302-408 | onto any chain and under any failures a commit leaves exactly the cache if and only if every key touched is delivered and every other one is on chain as when locked |
| `Rows.FreshRowOp` | engine/src/ha_blockchain.cc:854-931 | inserts, deletes, key-changing updates and updates of rows not written since the last REMOVE keep every batch key cached and never put a key twice into a batch, with whatever value |
| `Rows.FreshRunCommitsItsCache` | engine/src/ha_blockchain.cc:832-973 | after runs of such operations no key is in a batch twice, and when the requests sent succeed exactly the cache is committed |
| `RowTests.RowOpKeepsRows` | engine/src/ha_blockchain.cc:832-973 | whatever holds of every cached and logged row and of the row handed in still holds after an insert, update or delete |
| `RowTests.RunKeepsRows` | engine/src/ha_blockchain.cc:832-973 | and after any run of locks and row operations, if it holds of every row loaded |
| `RowTests.CommittedRows` | engine/src/ha_blockchain.cc:326-403 | and of every row on chain after a commit, whatever requests fail |
| `Sessions.SessionsAreIndependent` | engine/src/ha_blockchain.cc:302-430 | in any interleaving a connection's flag and transaction are what its own actions make of them |
| `Sessions.ChainIsCommittedLogs` | engine/src/ha_blockchain.cc:302-408 | for every interleaving, statement commits inside a transaction and commits stopped at a table without adapter included, the chain is the fold of the effective commits' logs in commit order, each log determined by its own connection's actions |
| `Sessions.UncommittedIsInvisible` | engine/src/ha_blockchain.cc:302-430 | whatever the locks of a run have read: a connection none of whose commits takes effect, statement commits in a transaction being such, changes nothing for the others and the chain |
| `Sessions.RollbackLeavesNoTrace` | engine/src/ha_blockchain.cc:411-430 | after a rollback that takes effect the world is that of the same actions without the connection's own, but for the options it set; one inside an explicit transaction is ignored |
| `Sessions.CommitIsLocal` | engine/src/ha_blockchain.cc:326-403 | a key's fate under a commit depends on that key alone; untouched keys keep their value |
| `Sessions.DisjointCommitsCommute` | engine/src/ha_blockchain.cc:302-408 | commits without a common (table, key) can be exchanged, whatever requests fail |
| `Sessions.RunKeepsCoherence` | engine/src/ha_blockchain.cc:1398-1472 | in every reachable world each transaction's cache is its log replayed over its snapshots |
| `Sessions.ChainIsSerialReplay` | engine/src/ha_blockchain.cc:302-408 | where every commit delivers its keys onto the chain that it meets, a table is the replay of all committed statements, one transaction after the other |
| `Sessions.CommitShowsCacheIff` | engine/src/ha_blockchain.cc:302-408 | in every reachable world, whoever committed in between, a commit shows the cache if and only if every key it touched is delivered and every other one is on chain as when locked |
| `Server.Server.SetOption` | engine/src/ha_blockchain.cc:311-315 | the flag of one connection is set as asked, one step of the session model |
| `Server.Server.Commit` | engine/src/ha_blockchain.cc:302-408 | bc_commit on one of many connections is the Commit step of the session model: chain and all other connections included |
| `Server.Server.Rollback` | engine/src/ha_blockchain.cc:411-430 | bc_rollback is its Rollback step |
| `Server.Server.LockTable` | engine/src/ha_blockchain.cc:1398-1472 | external_lock is its Lock step, loading exactly what can be read of the chain as it is then: nothing when the table is cached or the scan fails or throws; unlocking is its Unlock step |
| `Server.Server.Insert` | engine/src/ha_blockchain.cc:832-862 | write_row on a buffer that holds the record is the Row step that the record asks for, and it rejects exactly a cached key |
| `Server.Server.Delete` | engine/src/ha_blockchain.cc:952-973 | so is delete_row |
| `Server.Server.Update` | engine/src/ha_blockchain.cc:887-931 | so is update_row, for the old and the new record |
| `Server.Server.Handle` | engine/src/ha_blockchain.cc:302-1472 | any call is one step: the option, lock, commit or rollback asked for, or the row operation on the records handed in; without the lock a row operation changes nothing |
| `Server.Server.Serve` | engine/src/ha_blockchain.cc:302-1472 | every sequence of calls over any connections is a run of the session model in which the i-th action is what the i-th call asks for, a lock reading the chain it meets |
| `Server.Server.History` | engine/src/ha_blockchain.cc:302-1472 | from connections without transactions, for every sequence of calls: the contracts hold the effect of the committed logs, made of the records handed in, in commit order, and every cache is its log replayed over what was locked |
| `Server.UncommittedCallsAreInvisible` | engine/src/ha_blockchain.cc:302-1472 | without the calls of a connection none of whose commits takes effect, every other call amounts to the same, its locks reading the same included, and all others and the chain end the same |
| `Server.RolledBackCallsLeaveNoTrace` | engine/src/ha_blockchain.cc:411-430 | after a call of bc_rollback that takes effect the world is that of the other connections' calls alone, but for the option set |
| `Server.RowsStayOk` | engine/src/ha_blockchain.cc:302-1472 | after every sequence of calls, over commits, failures and reloads: if the rows at hand and those of the records handed in are separator-safe and under one of at most 2^31 - 1 given keys a table, all rows on chain and cached are, and one table's rows have its length and their own keys |
| `Server.CachesStayOk` | engine/src/ha_blockchain.cc:1415-1456 | then every cached row of that table fills its record and is filed under its own key |
| `Transactions.Transaction.AddTable` | engine/src/transaction.cc:8-11 | a first table is cached as given, a cached one stays; the return value says which |
| `Transactions.Transaction.AddWrite` | engine/src/transaction.cc:12-18 | appends a WRITE unless table name or key is empty |
| `Transactions.Transaction.AddRemove` | engine/src/transaction.cc:19-25 | appends a REMOVE unless table name or key is empty |
| `Records.KeyOfRecord` | engine/src/ha_blockchain.cc:763-801 | the key of a record is that of its stored row: null bytes play no part |
| `Records.FirstColumnIsKey` | engine/src/ha_blockchain.cc:792-798 | without key parts the key is the hash of the first column alone |
| `Records.RecordBytes` | engine/src/ha_blockchain.cc:1608-1624 | the record a row is read into: zero null bytes, the row, a zero tail |
| `Records.SearchFindsKey` | engine/src/ha_blockchain.cc:1069-1132 | searching for the key fields of a stored record leads to the key it was stored under, for convertible parts |
| `KeyImage.AdjustKey` | engine/src/ha_blockchain.cc:1064-1100 | the copy and the shift loop in the enlarged buffer stay in bounds and give the specified buffer and length |
| `KeyImage.AdjustedAgrees` | engine/src/ha_blockchain.cc:1075-1099 | the loop turns consecutive search images into consecutive record images and touches nothing in front |
| `KeyImage.KeyImagesAgree` | engine/src/ha_blockchain.cc:771-791 | the hashed prefix of the adjusted search key is byte for byte the concatenated record key |
| `KeyImage.KeyImagesAgreeIff` | engine/src/ha_blockchain.cc:1083-1096 | that holds for all keys of given part shapes if and only if every varchar maximum is divisible by 4 below 256 and does not leave 3 above |
| `Handler.HaBlockchain.GetPrimaryKey` | engine/src/ha_blockchain.cc:763-801 | the hash of the gathered key columns, or of exactly the first column without key parts; all copies in bounds |
| `Handler.HaBlockchain.WriteRow` | engine/src/ha_blockchain.cc:832-862 | a duplicate key is rejected and log and cache stay; otherwise the log gains exactly the WRITE of the row under its key and the cached table has it; a table that is not cached throws |
| `Handler.HaBlockchain.UpdateRow` | engine/src/ha_blockchain.cc:887-931 | log and cached table said outright: same key, one WRITE; new key, the REMOVE and, unless another row has the key, the WRITE; what the new record buffer holds afterwards; on a table that is not cached the first statement stays in the log when the method throws |
| `Handler.HaBlockchain.DeleteRow` | engine/src/ha_blockchain.cc:952-973 | the log gains exactly the REMOVE and the cached table loses the key; on a table that is not cached the REMOVE stays in the log when the method throws |
| `Handler.HaBlockchain.IndexRead` | engine/src/ha_blockchain.cc:1059-1162 | rejected requests leave the record alone; otherwise the cached row filed under the hash of the adjusted key stands behind zero null bytes and before a zero tail, and without one every byte is zero |
| `Handler.RunKeepsStored` | engine/src/ha_blockchain.cc:832-973 | after any run of locks and row operations every cached row of the table has its row length and is filed under its own key, if that holds of the rows loaded and handed in |
| `Handler.HaBlockchain.RndInit` | engine/src/ha_blockchain.cc:1178-1202 | appends the cached rows, each once and in key order; the cursor stands before the first |
| `Handler.HaBlockchain.RndEnd` | engine/src/ha_blockchain.cc:1204-1213 | empties the buffer |
| `Handler.HaBlockchain.RndNext` | engine/src/ha_blockchain.cc:1230-1240 | advances the cursor, wrapping at 64 bits; the record is zero null bytes, the row there, a zero tail, or zero throughout at the end |
| `Handler.HaBlockchain.Position` | engine/src/ha_blockchain.cc:1263-1268 | stores the cursor in eight bytes from which its number can be read |
| `Handler.HaBlockchain.RndPos` | engine/src/ha_blockchain.cc:1284-1293 | the same for the row at a stored position, wherever the cursor stands |
| `Handler.HaBlockchain.FindRow` | engine/src/ha_blockchain.cc:1608-1624 | the row at an index behind zero null bytes and before a zero tail; past the end END_OF_FILE and every byte zero |
| `Lookups.InsertThenFind` | engine/src/ha_blockchain.cc:832-1132 | write_row and then index_read for the record's key fields: an accepted record is found with exactly its row, a rejected one leads to the row that was there |
| `Lookups.UpdateThenFind` | engine/src/ha_blockchain.cc:887-1132 | after update_row the new key fields lead to the new row, or to the row that already had the key; the old ones, if the key changed, to a zeroed record |
| `Lookups.DeleteThenFind` | engine/src/ha_blockchain.cc:952-1132 | after delete_row the record's key fields lead to a zeroed record |
| `Lookups.InsertTwice` | engine/src/ha_blockchain.cc:792-862 | in a table without key parts a second record with the same first column is rejected, whatever else it holds, and changes nothing |
| `Handler.ScanIsStable` | engine/src/ha_blockchain.cc:1178-1240 | the n-th call of rnd_next stands on the n-th row cached at rnd_init, then past the end, whatever rows change meanwhile |
| `Scans.DeleteAll` | engine/src/ha_blockchain.cc:1178-1293 | rnd_init, then rnd_next, position and delete_row for every row, then rnd_pos on every saved position: each row is read once in key order, every position reads its row again although it is deleted by then, the cached table ends empty and the log gains one REMOVE a row in that order |
| `Scans.DeleteEachIs` | engine/src/ha_blockchain.cc:952-973 | deleting different keys one by one appends their REMOVEs in order and takes exactly those keys from the cached table |
| `Scans.OldPositionIff` | engine/src/ha_blockchain.cc:1195-1293 | a position saved in an earlier scan leads to the same row of a later one if and only if the row is unchanged and as many keys as before are below its own |
| `Handler.ScanListsTableIff` | engine/include/ha_blockchain.h:286-293 | a scan lists the table if and only if the buffer was empty before |
| `Commits.RemoveStep` | engine/src/ha_blockchain.cc:374-390 | one REMOVE in the loop: the table's batch is applied and emptied, then the key goes; other tables wait |
| `Commits.WriteStep` | engine/src/ha_blockchain.cc:369-373 | one WRITE in the loop changes a batch and no contract |
| `Commits.FlushDone` | engine/src/ha_blockchain.cc:391-403 | flushing the batches that exist completes the commit for every table |
| `Commits.EarlyStop` | engine/src/ha_blockchain.cc:328-390 | a commit that meets a table without an adapter: each key is as the last effective request before that statement leaves it; batches still waiting are never sent |
| `Commits.StoppedWritesAreLost` | engine/src/ha_blockchain.cc:328-390 | so a table without a REMOVE before that statement stays as it was |
| `Engine.StorageEngine.SendPut` | engine/src/ha_blockchain.cc:379-380 | one table's contract gains the surviving pairs, all other contracts stay |
| `Engine.StorageEngine.WorkThrough` | engine/src/ha_blockchain.cc:328-390 | the loop keeps contracts and batches in step with the log handled, up to the first table without an adapter |
| `Engine.StorageEngine.FlushAll` | engine/src/ha_blockchain.cc:391-403 | the final flush completes the commit in whatever order the tables come |
| `Engine.StorageEngine.BcCommit` | engine/src/ha_blockchain.cc:302-408 | the no-op cases; otherwise every contract holds what its part of the log amounts to under the requests that failed, and the transaction is gone; with a table missing, what was sent before stays and so does the transaction |
| `Engine.StorageEngine.BcRollback` | engine/src/ha_blockchain.cc:411-430 | drops the transaction, or nothing inside an explicit one; contracts are not touched |
| `Engine.StorageEngine.ExternalLock` | engine/src/ha_blockchain.cc:1398-1472 | only a first lock takes a snapshot; without a connection it fails and caches nothing; without an adapter or an answer it caches an empty table; with an answer the contract's table if its values are separator-safe, and in every case what the scan is decoded to, or it throws where the decoder does; log and contracts stay as they are |
| `Engine.ReadIff` | engine/src/ha_blockchain.cc:1438-1453 | what a first lock gets is the contract's table if and only if all values are separator-safe |
| `Engine.Deliver` | adapter/ethereum/adapter/src/adapter_ethereum.cpp:164-230 | put on hashed keys: surviving pairs on chain, the others left, 0 only if none is left |
| `Reload.CommitThenLock` | engine/src/ha_blockchain.cc:302-1472 | with separator-safe rows: commit whatever transactions fail and then lock all the tables again, from the committing connection or any idle one; each table is as in the committed cache if and only if every key touched was delivered and every other one was on chain as when locked; on a table unchanged since then, when the requests sent succeed, if and only if the log is faithful on it |
| `Reload.CommittedSafe` | engine/src/ha_blockchain.cc:326-403 | separator-safe rows and writes stay separator-safe on chain, whatever requests fail |
| `Reload.CommittedSize` | engine/src/ha_blockchain.cc:326-403 | a commit adds at most one row per statement |
| `Retries.AttemptsConserve` | adapter/interface/include/adapter_interface/adapter_interface.h:189-198 | over any series of failing puts, contract and remainder together are the old contract and the whole batch |
| `Retries.CompleteIff` | adapter/interface/include/adapter_interface/adapter_interface.h:189-198 | the batch is complete on chain exactly when every pair survived one attempt |
| `Retries.PutUntilDone` | adapter/interface/include/adapter_interface/adapter_interface.h:189-198 | repeating put on the remainder ends with 0 and the whole batch on chain exactly when some attempt finds the network and every pair survives one of them; otherwise with exactly what is left |
| `Hex.ByteArrayToHex` | adapter/utils/src/encoding_helpers.cpp:57-67 | two lower-case digits a byte |
| `Hex.HexToByteArray` | adapter/utils/src/encoding_helpers.cpp:81-105 | decodes any text by pairs, each read as a stream extraction in hex mode; throws on an odd number of characters |
| `Hex.ExtractDigits` | adapter/utils/src/encoding_helpers.cpp:49-55 | a text of digits is read to its end, saturating at the int range |
| `Numerals.ExtractForm` | adapter/utils/src/encoding_helpers.cpp:49-55 | any text, taken apart into white space, sign, prefixes, digits and rest: the signed number saturating at the int range, nothing stored for white space alone |
| `Numerals.FormExists` | adapter/utils/src/encoding_helpers.cpp:49-55 | every text can be taken apart like that |
| `Hex.MalformedPairs` | adapter/utils/src/encoding_helpers.cpp:87-105 | a pair that is no number reads as 0, a sign wraps the byte; neither is rejected |
| `Hex.HexRoundTrip` | adapter/utils/src/encoding_helpers.cpp:57-105 | decoding what was encoded gives the bytes back |
| `Hex.IntRoundTrip` | adapter/utils/src/encoding_helpers.cpp:43-55 | reading back an encoded number is the identity up to 2^31 - 1 at any width, and saturates above |
| `Hex.IntToHexIsWord` | adapter/utils/src/encoding_helpers.cpp:43-47 | at the default width the text is the hex of the number's big-endian 32-byte word |
| `Hex.ConvertPads` | adapter/ethereum/adapter/src/adapter_ethereum.cpp:526-532 | convert_to_32byte is padding with zero bytes on the right and cutting at 32 |
| `Framing.StraddlingOccurrence` | adapter/ethereum/adapter/src/adapter_ethereum.cpp:562-574 | a token found across the end of a value begins at an even digit and the value ends in '#' |
| `Framing.FirstOccurrenceIff` | adapter/ethereum/adapter/src/adapter_ethereum.cpp:562-574 | the first token behind a value is the intended one if and only if the value is separator-safe, whatever follows |
| `Framing.HashFreeButUnsafe` | adapter/ethereum/adapter/src/adapter_ethereum.cpp:562-571 | a value without any '#' that the decoder cuts in two |
| `Framing.SafeTokens` | adapter/ethereum/adapter/src/adapter_ethereum.cpp:565-574 | safe values come back one by one and the zero padding yields nothing |
| `Framing.UnsafeToken` | adapter/ethereum/adapter/src/adapter_ethereum.cpp:565-574 | with an unsafe value some piece is shorter than its value |
| `Framing.TokensIff` | adapter/ethereum/adapter/src/adapter_ethereum.cpp:565-574 | the pieces are exactly those of which each ends at the first token of what is left, with no token in the rest |
| `Framing.EnoughTokens` | adapter/ethereum/adapter/src/adapter_ethereum.cpp:565-574 | whatever the values are, a scan of n rows yields at least n pieces |
| `ScanDecoder.Split` | adapter/ethereum/adapter/src/adapter_ethereum.cpp:534-591 | on every text, whatever an uninitialised count holds, the three loops compute the specified map or throw; the token loop ends |
| `ScanDecoder.SplitIsExactIff` | adapter/ethereum/adapter/src/adapter_ethereum.cpp:534-591 | decoding an encoded scan recovers the table if and only if all values are separator-safe, for any rows below 2^31 and any padding |
| `ScanDecoder.SplitOutcome` | adapter/ethereum/adapter/src/adapter_ethereum.cpp:534-591 | whatever the values are: decoding an encoded scan throws if and only if one of the first n pieces has an odd number of digits; otherwise each key comes back with the bytes of the piece at its place |
| `BatchStrings.ScanKeepsKeys` | adapter/ethereum/adapter/src/adapter_ethereum.cpp:576-588 | a scan that does not throw has exactly the table's keys |
| `BatchStrings.ScanIsExactIff` | adapter/ethereum/contract/truffle/contracts/TableStorage.sol:40-53 | the same for the contract's own key list and values |
| `Abi.EncodeScanLayout` | adapter/ethereum/contract/truffle/contracts/TableStorage.sol:40-53 | where count, keys and text of a scan result lie |
| `Abi.StringRoundTrip` | adapter/ethereum/adapter/src/adapter_ethereum.cpp:187-197 | a length word and the bytes behind it decode to the string, padded or not |
| `Calldata.PutDataDecodes` | adapter/ethereum/adapter/src/adapter_ethereum.cpp:185-197 | the contract reads from put's calldata the padded key and exactly the value, though the tail is not padded |
| `Calldata.GetDataDecodes` | adapter/ethereum/adapter/src/adapter_ethereum.cpp:233-238 | get's calldata names the padded key |
| `Calldata.RemoveDataDecodes` | adapter/ethereum/adapter/src/adapter_ethereum.cpp:282-287 | remove's calldata names the padded key |
| `BatchCalldata.PutBatchDataDecodes` | adapter/ethereum/adapter/src/adapter_ethereum.cpp:121-162 | for every batch: following the hand-computed offsets the contract reads the padded keys and, as each value, the bytes cut out of its own word and the cells behind it, or nothing if they run out |
| `BatchCalldata.PutBatchRoundTripIff` | adapter/ethereum/adapter/src/adapter_ethereum.cpp:121-162 | exactly the batch is read back if and only if every value fits a word or what does not is the beginning of the cells behind it |
| `BatchCalldata.LongLastValueIsRejected` | adapter/ethereum/adapter/src/adapter_ethereum.cpp:143-145 | with a longer last value the calldata does not decode at all |
| `BatchCalldata.SinglePairDecodesIff` | adapter/ethereum/adapter/src/adapter_ethereum.cpp:130-156 | a single pair is read back if and only if its value fits a word |
| `BatchCalldata.LongFirstReadsBack` | adapter/ethereum/adapter/src/adapter_ethereum.cpp:130-156 | a longer value that is not the last can be read back, its tail being the zero that begins the next length word |
| `Json.ParseParamsToJson` | adapter/ethereum/adapter/src/adapter_ethereum.cpp:599-634 | the element list and the comma loop write the object of the fields present |
| `Json.JsonRoundTrip` | adapter/ethereum/adapter/src/adapter_ethereum.cpp:599-634 | a reader of the text gets back exactly those fields |
| `Json.NonceSeparates` | adapter/ethereum/adapter/src/adapter_ethereum.cpp:619-624 | requests with different nonces have different texts |
| `RpcBatch.TextCarries` | adapter/ethereum/adapter/src/adapter_ethereum.cpp:599-634 | whatever the parameters, a reader finds sender, address, data, gas, gas price and nonce in the text, empty ones and a nonce of 0 by their absence |
| `RpcBatch.CompletedCarries` | adapter/ethereum/adapter/src/adapter_ethereum.cpp:782-819 | any completed request carries the account as sender, the contract's address if none was given, the gas limit if asked for and, for transactions only, the current nonce; its block tag stands behind the object |
| `RpcBatch.RekeyAllFiles` | adapter/ethereum/adapter/src/adapter_ethereum.cpp:782-828 | whatever the requests are, methods and keys are filed under the completed texts one after the other |
| `RpcBatch.FirstStays` | adapter/ethereum/adapter/src/adapter_ethereum.cpp:820-825 | of requests with one text the first to be completed leaves its method and key |
| `RpcBatch.NonceCounts` | adapter/ethereum/adapter/src/adapter_ethereum.cpp:810-819 | the nonce counts the transactions among the requests, wrapping at 64 bits |
| `RpcBatch.DecimalInjective` | adapter/ethereum/adapter/src/adapter_ethereum.cpp:199-206 | the interim ids of a batch differ, so no request replaces another in the maps |
| `RpcBatch.NoncesCountUp` | adapter/ethereum/adapter/src/adapter_ethereum.cpp:463-482 | after a count c was fetched the i-th increment gives c + i, also for c = 0 |
| `RpcBatch.TextsSeparate` | adapter/ethereum/adapter/src/adapter_ethereum.cpp:810-819 | no two completed requests have the same text |
| `RpcBatch.RekeyingAims` | adapter/ethereum/adapter/src/adapter_ethereum.cpp:782-828 | after re-keying by id and by text, every text is the put of one pair, leads back to that pair's key and carries its own nonce; no pair is missing |
| `RpcBatch.TransactionsRekeyed` | adapter/ethereum/adapter/src/adapter_ethereum.cpp:782-828 | of re-keyed transactions without a tag each keeps an entry under a text of its own, with its own key, and the nonce has counted them |
| `RpcBatch.RequestReads` | adapter/ethereum/adapter/src/adapter_ethereum.cpp:636-661 | the node reads from a completed request exactly the call in its data |
| `RpcBatch.GainedIsSurviving` | adapter/ethereum/adapter/src/adapter_ethereum.cpp:185-186 | for 32-byte keys padding changes nothing |
| `Replies.GetIsExact` | adapter/ethereum/adapter/src/adapter_ethereum.cpp:252-265 | get recovers any value whose hex length is below 2^31 |
| `EthNode.EthNode.SendTransaction` | adapter/ethereum/contract/truffle/contracts/TableStorage.sol:17-90 | a mined transaction has the effect of the call read from its text, its receipt says whether it succeeded, and the text is noted |
| `EthereumAdapter.EthereumAdapter.UpdateNonce` | adapter/ethereum/adapter/src/adapter_ethereum.cpp:463-482 | one below the fetched count, wrapping; unchanged without an answer |
| `EthereumAdapter.EthereumAdapter.CreateRpcBatch` | adapter/ethereum/adapter/src/adapter_ethereum.cpp:782-828 | for any requests, each visited once: completed with address, gas and, for transactions only, the next nonce, its tag behind it, and emplaced under its text, the first of equal texts staying |
| `EthereumAdapter.EthereumAdapter.SendCall` | adapter/ethereum/adapter/src/adapter_ethereum.cpp:636-661 | the node receives one transaction with account, address, gas limit, data and the next nonce, and runs the call in it |
| `EthereumAdapter.EthereumAdapter.SendRpcBatch` | adapter/ethereum/adapter/src/adapter_ethereum.cpp:830-887 | in any sending order the contract gains exactly the pairs whose transactions succeed, and the keys of exactly the others are listed |
| `EthereumAdapter.EthereumAdapter.Put` | adapter/ethereum/adapter/src/adapter_ethereum.cpp:164-230 | 1 with exactly the failed pairs left, 0 with the batch unchanged; what the contract gains; the node receives one transaction a pair, each once, carrying the account, the contract's address, the gas limit, the pair's calldata and the next nonce after the last transaction count that was answered |
| `EthereumAdapter.EthereumAdapter.KeepFailed` | adapter/ethereum/adapter/src/adapter_ethereum.cpp:217-227 | the loop keeps exactly the pairs whose keys were reported |
| `EthereumAdapter.EthereumAdapter.Remove` | adapter/ethereum/adapter/src/adapter_ethereum.cpp:276-302 | the padded key is gone and 0 is returned; 1 without effect when it is absent or the transaction fails; the node receives one transaction, carrying account, address, gas limit, calldata and the fetched count as nonce, or without an answer the next one |
| `EthereumAdapter.EthereumAdapter.Get` | adapter/ethereum/adapter/src/adapter_ethereum.cpp:232-274 | the stored value with 0; 1 for an absent key or an unusable answer |
| `EthereumAdapter.EthereumAdapter.GetAll` | adapter/ethereum/adapter/src/adapter_ethereum.cpp:304-338 | -1 without a connection, an empty map without an answer, otherwise the contract's table if and only if all values are separator-safe, and its keys whenever the decoder does not throw |
| `EthereumAdapter.EthereumAdapter.PutBatch` | adapter/ethereum/adapter/src/adapter_ethereum.cpp:121-162 | one transaction for the whole batch, carrying account, address, gas limit, calldata and the fetched count as nonce; 0 in every case; if it is mined the table gains the padded keys with the values that can be read back, which is the batch if and only if all values read back |
| `TableStorage.TableStorage.Put` | adapter/ethereum/contract/truffle/contracts/TableStorage.sol:17-27 | map update; the key list grows by exactly the new keys and stays duplicate-free and complete |
| `TableStorage.TableStorage.Get` | adapter/ethereum/contract/truffle/contracts/TableStorage.sol:29-38 | lookup, reverting on an absent key |
| `TableStorage.TableStorage.TableScan` | adapter/ethereum/contract/truffle/contracts/TableStorage.sol:40-53 | the key list and the values in its order, each followed by the separator |
| `TableStorage.TableStorage.Remove` | adapter/ethereum/contract/truffle/contracts/TableStorage.sol:55-78 | map deletion, reverting on an absent key; the search always finds an index and swap-and-pop drops that key only |
| `TableStorage.TableStorage.PutBatch` | adapter/ethereum/contract/truffle/contracts/TableStorage.sol:80-90 | equals successive puts; fewer values than keys reverts everything |
| `TableStorage.PutOrderIrrelevant` | adapter/ethereum/contract/truffle/contracts/TableStorage.sol:17-27 | puts of distinct keys have the effect of one map update, in every order |

## Left out

- KeyImage.AdjustKey: the overlapping `memcpy` is modelled as the move it is meant to be, and `initial_pos`
  as a number without the 16-bit limit, which key lengths below 65536 never reach.
- EthereumAdapter.EthereumAdapter.KeepFailed: the program erases from the map it is iterating over; the
  model is the filter that the loop intends.
- EthereumAdapter.EthereumAdapter.SendRpcBatch: a node that refuses a transaction, or answers it without an id,
  makes `put` and `remove` throw, and `bc_commit` with them in the middle of its log
  (`adapter/ethereum/adapter/src/adapter_ethereum.cpp:688,866`); the model counts only transactions without a
  successful receipt as failed.
- EthNode.EthNode.SendTransaction: the node takes every nonce; what the nonces are is said of the texts that it
  receives. A transaction without a successful receipt has no effect; one that is
  mined after the adapter has stopped waiting for it is not modelled.
- Server.Server.Serve: asks that twice the number of calls is an int, so that no batch outgrows the program's
  `int` request counter, and that records are shorter than 2^32 bytes.
- Server.Server.Handle: the server keeps records in buffers that it reuses; here every call brings its own. A
  row operation on a table that the connection has not locked throws and is not made.
- EthereumAdapter.EthereumAdapter.Get: says nothing about values whose hex length is 2^31 or more, for which
  the program's `int` arithmetic overflows.
- Hex.HexToByteArray: characters are read as libstdc++ reads them in the classic locale.
- Handler.HaBlockchain.IndexRead: what the server makes of a zeroed record for a missing key is not modelled.
  The program copies a cached row without looking at its length; that rows fit their record is asked for
  here and in the scan methods; `Handler.RunKeepsStored` and `Server.CachesStayOk` establish it.
- Iteration over maps whose order has no meaning (requests by text, tables by name) is taken in an arbitrary
  order.
- SHA-256 is an arbitrary function to 32 bytes; nothing here needs it to be injective.
- HTTP, JSON parsing of responses and their regular expressions, connection checks, mining time, gas and
  deployment: a request's outcome is an input.
- `create`, `open`, `close`, table metadata files and configuration: the map from tables to adapters is fixed,
  with one node and contract a table.
- Calls of different connections do not overlap in time: each runs to its end before the next begins.
- MySQL's transaction registration, cost estimates, `info`, and the index methods that only report an error.
- `drop_table` and `hex_to_string`.
