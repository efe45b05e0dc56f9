# Verification of the plairo core

A Dafny model of the node's core packages with proofs of what they keep, return and lose: the fee-ordered mempool, the
transaction rules, the block rules over the chainstate, the packed chainstate records, the paged and masked store, the
Merkle root, the compact targets with their retargeting, and signing. `dafny verify dfyconfig.toml` checks everything.

Code that changes state is modelled as methods over classes and arrays; each is proved against functions on values,
and the properties are proved about those functions. SHA-256, the signature scheme and key parsing are
function-valued parameters of which nothing is assumed, so cryptographic results read "equal, or here are two strings
with one double hash". leveldb is a map, the channel of `getMaxElements` is a sequence, a nil dereference or an index
out of range is an explicit outcome. Integers are unbounded except where the source's 32, 64 or 8 bits matter; there
the wrap-around is written out. A float64 operation is the exact one followed by a rounding, of which only this is
assumed: it keeps order and integers of 53 bits and moves a number between 10^-6 and 2^64 by at most one part in 2^53.

The functions that methods are proved against are tied down a second time by laws that do not mention them: what a
verdict means, where each byte of a serialization stands, which hash stands under the root, how far the new target is
from the exact quotient. The rows below name these laws beside the methods.

## Layout

| file | models |
|---|---|
| Bytes.dfy, Serializer.dfy | byte strings and big-endian integers; the one-hot bit packing (utils/serializer.go) |
| Transactions.dfy, TxMetadata.dfy | byte form, identifiers and fees of transactions; the chainstate record and its reader |
| DbWrapper.dfy, Chainstate.dfy | masking, batches, paging; unspent outputs as packed records over the store |
| Validation.dfy, Ledger.dfy, Supply.dfy | accepting a transaction; validating and confirming a block; conservation and the supply bound, with the exact conditions |
| FeeTree.dfy, FeeTreeOrder.dfy, FeeTreeBalance.dfy, FeeTreeRecords.dfy | the fee tree on values: order and contents, balance, which transaction sits beside which record |
| FeeTreeAsWritten.dfy | which insertions as written lose the balance of the fee tree, and which dereference nil |
| FeeTreeShapes.dfy | what rebalancing does with the subtrees, case by case |
| StableOrder.dfy, MemTree.dfy, MemPool.dfy, Mining.dfy | best fees first with ties in arrival order; the tree in the heap; the pool with its indexes; the pool against blocks |
| Merkle.dfy, Target.dfy, Retarget.dfy, Signing.dfy | the Merkle root; expanded targets; retargeting and its runs; building and signing transactions in place |

## Where the code and its comments differ

The code is followed. Where a line departs from the comment beside it, both readings are modelled or the exact
condition under which the code does what is meant is proved.

- core/mempool.go:145-151, the two bodies for a right-heavy node are exchanged: flag `rotate` of `FeeTree.Edits`. The
  condition is read off the tree before the call, at the pivot, the lowest node on the path that is not even:
  `BalancedExactly` says when an insertion as written leaves a balanced tree balanced, `PanicsExactly` when it
  dereferences nil, `InsertAsWritten` when it equals the intended one. `InsertAsWrittenCounterexamples`: any three
  rising fees end in the nil dereference, and low, high, middle in an unbalanced tree.
- core/mempool.go:182, the test for going right repeats that of line 179: flag `descend`. As written a pooled record is
  found exactly when its fee is on the left spine (`RemovePresent`), otherwise the removal panics: any fee, a higher
  one, removing the higher (`DescendCounterexample`). `RemoveBlock` fails exactly when this happens along the block.
- core/mempool.go:217-223, the promoted chain node keeps height 1: flag `height`. `RemoveAvl`: balance survives exactly
  when no chain member is promoted over subtrees that way; any fee, a lower one, the first fee again, removing the
  first (`StaleCounterexample`). `RemoveTX` carries the condition to the pool.
- core/mempool.go:249-251, key, record and chain move but the transaction does not: flag `tx`. `RemoveConsistent`: every
  transaction stays with its record exactly when the transaction moves too or no successor moves; middle, low, high,
  removing the middle (`DisplacedCounterexample`). `RemoveListingExact` says the same of the listing, `AddTX`, `RemoveTX` and `GetMaxTXs`
  carry it to the pool: the offer is the k best exactly when the first k records are beside their own transactions.
- core/block.go:133-136, the coinbase's placeholder input is cleaned up like any other: parameter `skip` of
  `ConfirmAsValid`. `ValidBlockConfirms` gives the exact condition for both readings, `CoinbaseBlocksAsWritten` that as
  written a block with a coinbase from `NewCoinbaseTransaction` confirms only in a ledger with an unspent entry 0 of the
  all-zero transaction, which it then takes out: not as the first block (`CoinbaseBlockCounterexample`), and never in a
  run in which no transaction has the all-zero identifier (`NeverPlaceholder`, `NoBuiltCoinbase`).
- core/block.go:129-143, a confirmation that fails half way is not undone: `ConfirmAsValid` states what is left in the
  chainstate and in the batch.
- core/transaction.go:269-276, the limit is applied to the 64-bit running sum, not on each output: `OutputSumBound` is
  the exact condition under which the true sum is bounded, `OutputSumCounterexample` two outputs that get through.
- core/transaction.go:358-368 and core/block.go:157-167, 287-304, fees and the coinbase are summed in 64 bits:
  `AcceptedFees`, `BlockConserves`, `CoinbaseBound`, `BlockSupplyExact` and `SupplyExact` are the exact conditions under
  which fees are the true difference, value is conserved and the supply is bounded. `FeesCounterexample` is a whole
  accepted transaction that pays out more than it takes, `CoinbaseCounterexample` a coinbase of two outputs that is
  accepted everywhere and mints 2^64. `BlockTotal` accounts for every confirmed block without any condition.
- db/dbwrapper.go:119, `append` writes the marker into the value itself, over the first byte of the next page:
  `PageInsert` states the loss, `PagingExact` exactly which values survive, `PagingCounterexample` one that does not.
- db/dbwrapper.go:82 and 101, the batch stores unmasked bytes that `Get` unmasks: `BatchReadsBack` is the exact
  condition under which they read back, `BatchCounterexample` shows that under a generated key that does not start with
  zero none but the empty value does. A record is longer than the key, so a store with a nonzero key of eight bytes
  loses every confirmed block: `WriteBatchTX` and `ConfirmAsValid` say what is then read, and that the state is good
  exactly without obfuscation or under a key of zeros; `MaskedCounterexample` runs the first block on such a store.
- db/chainstate.go:128, the re-encoded record has height 0 and is not a coinbase: `Chainstates.Spend` does the same;
  the plain map of outputs is not affected (`SpendPlain`).
- core/block.go:355-370, the compensation of the first interval moves its start later, which shortens the measured time
  although the comment wants it longer: `GetTargetForBlock` states the code.

## Model

| member | source | states |
|---|---|---|
| Bytes.ValueOfBigEndian | utils/serializer.go:18-36 | writing an integer that fits in big-endian bytes and reading it back is the identity |
| Serializer.SerializeToOneHot | utils/serializer.go:40-71 | the countdown loop computes the packed form of the flags, at every length |
| Serializer.PackedBitPosition | utils/serializer.go:42-55 | flag i lands at byte (n-1)-i/8, bit i%8, and every unused high bit is zero |
| Serializer.PackRoundTrip | utils/serializer.go:40-71 | unpacking undoes packing at every length |
| Serializer.TrueIndices | core/txmetadata_reader.go:44-53 | the indices of the true flags: all of them, strictly increasing, nothing else |
| Transactions.GetFees | core/transaction.go:358-368 | the fee is the difference of the true sums modulo 2^64 |
| Transactions.AddInputs | core/transaction.go:359-363 | the loop sums the referred values modulo 2^64 |
| Transactions.AddValues | core/block.go:295-300 | the loop sums the values of the outputs modulo 2^64 |
| Transactions.Serialize | core/transaction.go:114-158 | the two appending loops build the byte form of inputs and outputs |
| Transactions.EncodeLayout | core/transaction.go:114-158 | the byte form is the number of inputs, the inputs, the number of outputs and the outputs, of the stated length |
| Transactions.InputAt | core/transaction.go:138-145 | input k stands behind the inputs before it: parent, position, length of the signature in 8 bytes, signature |
| Transactions.OutputAt | core/transaction.go:148-153 | output k stands behind the outputs before it: value, length of the script in 8 bytes, script |
| Transactions.PrefixedInjective | core/transaction.go:128-156 | a length-prefixed field can be cut off a longer string in one way only |
| Transactions.EncodeInputInjective | core/transaction.go:119-139 | equal bytes from here on force the same reference and signature and the same rest |
| Transactions.EncodeInjective | core/transaction.go:114-158 | equal bytes force equal input references, signatures and payments, for all transactions with 32-byte parents |
| Transactions.TxIdBinding | core/transaction.go:110-112 | equal identifiers mean equal content, or the two byte forms collide under the double hash |
| Transactions.OutputIdBinding | core/transaction_output.go:31-39 | two entries with one identifier are the same position of the same transaction, or the two hashed strings collide |
| Transactions.CoinbaseHeightsDiffer | core/transaction.go:64-84 | coinbase transactions of different heights never serialize alike, whatever message, value and key |
| Transactions.NewCoinbaseFields | core/transaction.go:64-84 | every field of a coinbase: the placeholder input under height and message, one output of this value to the miner's key, and no coinbase above 10^16 ticks |
| TxMetadata.SerializeTXMetadata | core/transaction.go:161-208 | the loops produce the record of the transaction: header, packed flags, unspent outputs |
| TxMetadata.RecordLayout | core/transaction.go:161-208 | byte by byte: coinbase flag, height and count of the transaction, the bit of every output, then the unspent outputs |
| TxMetadata.StoredAt | core/transaction.go:196-207 | unspent output k stands behind the unspent ones before it: value, length of the script, script |
| TxMetadata.RecordRoundTrip | core/transaction.go:161-208 | reading a written record gives back flag, height, count, flags and every unspent output in place, to the last byte |
| TxMetadata.ReadBitVector | core/txmetadata_reader.go:39-55 | the loop recovers the flags and their strictly increasing indices |
| TxMetadata.ReadOutputs | core/txmetadata_reader.go:56-79 | one output for every position used, in order, with its value, script and identifier: the positions passed in when they are used as given, the flags' own otherwise; with the record's own positions, exactly its unspent outputs |
| TxMetadata.ReadCoins | core/txmetadata_reader.go:64-74 | the moving caret reads value and script of every unspent output in turn |
| DbWrapper.MaskTwice | db/dbwrapper.go:57-66 | masking cancels itself, for every key and value |
| DbWrapper.MaskFixed | db/dbwrapper.go:57-66 | the mask does not show exactly when every key byte it meets is zero |
| DbWrapper.XorAt | db/dbwrapper.go:57-66 | every bit of a masked byte is the exclusive or of the two bits |
| DbWrapper.DBwrapper.ObfuscateValue | db/dbwrapper.go:57-66 | the loop masks byte by byte with the repeated key |
| DbWrapper.DBwrapper.Insert | db/dbwrapper.go:68-75 | the store holds the value, masked if it is obfuscated; the key reads as the value and every other key reads as before |
| DbWrapper.DBwrapper.Get | db/dbwrapper.go:97-105 | the unmasked value, or nothing when the key is absent |
| DbWrapper.DBwrapper.Remove | db/dbwrapper.go:107-109 | the key is gone, every other key reads as before |
| DbWrapper.DBwrapper.PutInBatch | db/dbwrapper.go:77-83 | the pair is pending behind the earlier ones and the store is untouched |
| DbWrapper.DBwrapper.WriteBatch | db/dbwrapper.go:86-95 | the pending pairs are applied in order and the batch is empty |
| DbWrapper.DBwrapper.BatchReadsBack | db/dbwrapper.go:77-105 | a value that came through the batch reads back if and only if the mask does not show on it |
| DbWrapper.DBwrapper.BatchCounterexample | db/dbwrapper.go:77-105 | under a key of eight bytes, as generated, that does not start with zero no value but the empty one comes back from a batch |
| DbWrapper.DBwrapper.TransparentClear | db/dbwrapper.go:57-66 | on a value as long as the key the mask does not show if and only if there is no obfuscation or the key is all zeros |
| DbWrapper.DBwrapper.PageInsert | db/dbwrapper.go:111-132 | the array ends with markers over the page starts, the pages are stored in the format of PagesFormat, reading back gives that value without what wrapped page numbers overwrote, whatever was stored before; what is read under any other key is untouched |
| DbWrapper.DBwrapper.PagesFormat | db/dbwrapper.go:111-132 | the store holds the last page and up to 255 before it, byte for byte, each under the key and its number modulo 256, all but the last with a marker 0 |
| DbWrapper.DBwrapper.PageGet | db/dbwrapper.go:134-151 | the pages up to the first that is not continued, or nothing if one is missing |
| DbWrapper.DBwrapper.ReadEnds | db/dbwrapper.go:134-151 | a key under which something is read has a page that ends it, so reading after paging returns |
| DbWrapper.PagingExact | db/dbwrapper.go:111-151 | a value survives paging if and only if it fits into 256 pages and every later page starts with a zero byte |
| DbWrapper.PagingCounterexample | db/dbwrapper.go:111-151 | two bytes 1 on pages of one byte do not survive |
| Chainstates.SpendPlain | db/chainstate.go:87-131 | on the map from (txid, vout) to (value, script), spending removes the one entry and nothing else |
| Chainstates.Chainstate.constructor | db/chainstate.go:26-28 | the chainstate opened over any store; the state is good if and only if the store holds exactly these records, plain or masked |
| Chainstates.Chainstate.InsertTX | db/chainstate.go:30-36 | the record is stored under its key and the plain map holds exactly the unspent outputs of the transaction, each with its value and script; nothing changes when all are spent |
| Chainstates.Chainstate.InsertBatchTX | db/chainstate.go:38-45 | the record is pending unless the transaction has no unspent output; the stored records are as before |
| Chainstates.Chainstate.WriteBatchTX | db/chainstate.go:47-49 | what is read afterwards for every transaction, masked store or not; store and records agree if and only if the mask does not show on the last put under any identifier, for keys of at most nine bytes if and only if nothing was pending, nothing is obfuscated or the key is all zeros |
| Chainstates.Chainstate.MaskedAnswer | db/chainstate.go:47-57 | under a generated key that does not start with zero every transaction put through the batch reads back as something else |
| Chainstates.Chainstate.RemoveTX | db/chainstate.go:51-53 | the record is gone, all others are as before |
| Chainstates.Chainstate.GetTX | db/chainstate.go:55-57 | the encoding of the record, which has an unspent output |
| Chainstates.Chainstate.GetUtxo | db/chainstate.go:72-85 | the entry of the plain map with every field spelled out, or nothing |
| Chainstates.Chainstate.GetNoOfUTXOs | db/chainstate.go:133-141 | the number of entries of the plain map under this transaction, or nothing exactly when there are none |
| Chainstates.CountEntries | db/chainstate.go:133-141 | the true flags of a record are as many as its entries in the plain map |
| Chainstates.Chainstate.RemoveUtxo | db/chainstate.go:87-131 | true exactly when the entry was there; it alone is taken out, a record without unspent outputs disappears, and one that stays has height 0 and is no coinbase |
| Chainstates.FakeOutputs | db/chainstate.go:109-127 | the patched list has the old outputs in place and a spent dummy at every other position |
| Chainstates.LastUnspent | db/chainstate.go:97-104 | the record is removed as a whole exactly when the entry is its last unspent one |
| Validation.HasDuplicates | core/transaction.go:232-241 | finds a repeated identifier exactly when there is one |
| Validation.AddOutputs | core/transaction.go:268-277 | accepts exactly when every running 64-bit sum is a valid amount |
| Validation.ValidateTransaction | core/transaction.go:229-296 | the verdict, whose meaning AcceptedExactly and VerdictCause fix |
| Validation.AcceptedExactly | core/transaction.go:229-296 | accepted if and only if no identifier is repeated, every input claims its unspent entry truthfully, a valid key of that entry verifies the signature on the message of the input, the running sums are at most 10^16, and the inputs cover outputs and one tick per byte |
| Validation.VerdictCause | core/transaction.go:229-296 | every verdict by its cause: a repeated identifier first, then the first bad input and what is wrong with it, then the sums, then the fees |
| Validation.SigMessageExact | core/transaction.go:309-340 | only flag 1 is signed, and then the double hash of the bytes of the transaction with this input's script alone, and the flag |
| Validation.AcceptedIff | core/transaction.go:229-296 | accepted if and only if identifiers are distinct, every input is good by itself, amounts are in range and fees are covered |
| Validation.AcceptedInputs | core/transaction.go:243-266 | an accepted transaction names unspent entries truthfully and each entry once, without any assumption on the hash |
| Validation.AcceptedNames | core/transaction.go:243-250 | in an accepted transaction every identifier is the one of the entry it refers to |
| Validation.AcceptedHasInput | core/transaction.go:281-283 | the minimum fee alone forces an accepted transaction to have an input |
| Validation.OutputSumBound | core/transaction.go:268-277 | the true sum of accepted outputs is a valid amount if and only if every single output is |
| Validation.OutputSumCounterexample | core/transaction.go:268-277 | two outputs that pass the check although their true sum exceeds the limit |
| Ledger.CleanUpInputs | core/transaction.go:299-306 | succeeds exactly when all entries are there and named once; otherwise the first ones are gone |
| Ledger.SpendAllAt | core/transaction.go:299-306 | spending a list takes exactly its entries out of the plain map |
| Ledger.ValidateBlockTx | core/block.go:94-127 | accepts if and only if every transaction but the first is valid and no identifier occurs twice across them; otherwise names the first transaction that fails and why: its own error, its own panic, or an identifier seen before |
| Ledger.BlockValidExactly | core/block.go:94-127 | a block is valid if and only if every transaction but the first is valid and no two places in them refer to one identifier |
| Ledger.ConfirmAsValid | core/block.go:129-143 | succeeds if and only if all references can be removed and every transaction has an unspent output, in any store and with anything left pending; then the ledger is as if all were removed first and all pending and new outputs inserted afterwards, what is read for every transaction is stated, and it is that ledger if and only if the mask does not show: with a key of at most nine bytes, without obfuscation or under a key of zeros; on failure, exactly what stays behind, where StopsOnce makes the place unique |
| Ledger.StopsOnce | core/block.go:129-143 | there is one place where a failing confirmation stops, so what it leaves in chainstate and batch is determined |
| Ledger.RefsOneByOne | core/block.go:133-136 | the references of a block are those of its transactions one by one, with or without the first |
| Ledger.MaskedCounterexample | core/block.go:129-143 | the first block confirmed on an empty store under a generated key that does not start with zero: each of its transactions reads back wrong |
| Ledger.ValidRemovable | core/block.go:94-143 | in a valid block the referenced entries are all there and pairwise different |
| Ledger.ValidBlockConfirms | core/block.go:94-143 | a valid block whose transactions have unspent outputs, and no other, confirms when transaction 0 is passed over; as written, exactly when moreover the inputs of transaction 0 are further spendable entries |
| Ledger.CoinbaseBlocksAsWritten | core/block.go:133-136 | with a coinbase from NewCoinbaseTransaction a valid block confirms as written if and only if its transactions have unspent outputs and the ledger an entry 0 of the all-zero transaction that the block does not spend otherwise |
| Ledger.CoinbaseBlockCounterexample | core/block.go:129-143 | a block of one coinbase from NewCoinbaseTransaction on the empty ledger is valid, confirms when transaction 0 is passed over, and does not as written |
| Supply.NeverPlaceholder | core/block.go:129-143 | over every run as written in which no transaction has the all-zero identifier, the ledger never holds that transaction |
| Supply.NoBuiltCoinbase | core/block.go:129-143 | no such run ever confirms a block with a coinbase from NewCoinbaseTransaction |
| Ledger.ConfirmedAt | core/block.go:129-143 | entry by entry: unspent new outputs in place with value and script, referenced entries gone, the rest as it was |
| Supply.GetBlockFees | core/block.go:157-167 | the 64-bit sum of the fees, with or without transaction 0 |
| Supply.FeesOneByOne | core/block.go:157-167 | the fees of a block are those of its transactions, one by one |
| Supply.ValidateCoinbase | core/block.go:287-304 | accepts exactly when the coinbase pays at most the halved subsidy and the fees, in 64 bits |
| Supply.SubsidyExact | params/config.go:6-10 | the subsidy is 5 * 10^10 ticks divided by 2 to the number of whole thousands in the height, rounded down |
| Supply.SpendAllTotal | core/transaction.go:299-306 | taking entries out lowers the value of the ledger by exactly their values |
| Supply.PutAllTotal | db/chainstate.go:38-49 | putting records in raises the value of the ledger by exactly their values less those of the records they replace |
| Supply.AcceptedFees | core/transaction.go:358-368 | an accepted transaction pays out what it takes less its 64-bit fee, but for 2^64 times how much oftener its inputs wrap than its outputs; with inputs below 2^64 exactly if and only if each output is a valid amount, and otherwise it pays out at least 2^64; its inputs are worth what it claims |
| Supply.FeesCounterexample | core/transaction.go:229-296 | a transaction of 85 bytes that takes 1000, pays out 5 and 2^64-3 and is accepted wherever its input is unspent and its signature verifies |
| Supply.BlockConserves | core/block.go:94-167 | what the transactions of a valid block take from the ledger is what they pay out plus their fees, but for the sums that wrap; with references below 2^64 exactly if and only if each of their outputs is a valid amount |
| Supply.BlockTotal | core/block.go:129-143 | every confirmed block: the value of the ledger after it, plus what its puts replace, plus what its references were worth, is the value before plus that of its unspent outputs |
| Supply.CoinbaseBound | core/block.go:287-304 | an accepted coinbase pays at most subsidy and fees if and only if its outputs sum below 2^64 |
| Supply.BlockSupply | core/block.go:287-304 | one accepted block without such sums raises the value of all unspent outputs by at most its subsidy, whatever identifiers it reuses |
| Supply.BlockSupplyExact | core/block.go:94-304 | for an accepted block of new transactions the value of all unspent outputs rises by at most the subsidy if and only if no sum of the block wraps: each output of the other transactions a valid amount, the coinbase below 2^64 |
| Supply.CoinbaseCounterexample | core/block.go:287-304 | a coinbase with outputs 2^64-1 and 1 is accepted in every ledger at every height and mints 2^64 |
| Supply.CoinbaseAlone | core/transaction.go:64-84 | a coinbase within its subsidy, alone in its block, is accepted in every ledger, so runs of every length exist |
| Supply.MinedCoinbase | core/block.go:184-196 | the coinbase that pays the halved subsidy and the fees of the block it heads is accepted |
| Supply.MintedBelowLimit | params/config.go:6-10 | no number of blocks mints 2 * SubsidyHalvingInterval * InitialBlockSubsidy, which is a valid amount |
| Supply.MintedPerPeriod | params/config.go:6-10 | the thousand blocks of period j mint 5 * 10^13 ticks divided by 2^j, up to rounding |
| Supply.SupplyBound | core/block.go:94-167 | over every run of accepted blocks without wrapped sums all unspent outputs together are worth at most what was minted, which is below the limit |
| Supply.SupplyExact | core/block.go:94-304 | over every run of accepted blocks of new transactions the value stays within what was minted at every step if and only if no block of the run has a sum that wraps |
| Supply.NothingWraps | core/transaction.go:229-296 | in every ledger that such a run reaches no input sum of an accepted transaction wraps, and its fee is the true difference if and only if each of its outputs is a valid amount |
| Supply.BlockFeesBound | core/block.go:157-167 | in every ledger that such a run reaches the fees of the next accepted block stay below the limit |
| FeeTreeOrder.InsertListing | core/mempool.go:103-157 | whatever the flags, an insertion that does not panic keeps the search order and puts the record behind its equals, all else in place |
| FeeTreeOrder.RemoveListing | core/mempool.go:173-293 | a removal panics exactly when its descent ends at a chain without the record; otherwise it keeps the search order and deletes exactly that record |
| FeeTreeOrder.RemoveTakeOver | core/mempool.go:245-256 | the successor moves in with its whole chain and the listing loses only the removed record |
| FeeTreeOrder.RemovePromote | core/mempool.go:217-223 | promoting the next chain member loses only the head |
| FeeTreeBalance.AfterInsertAvl | core/mempool.go:134-156 | the rebalancing step restores balance if and only if the node is not right-heavy or the two bodies are exchanged |
| FeeTreeShapes.AfterInsertShapeLeft | core/mempool.go:134-143 | after an insertion, heavy on the left: the new fee chooses, and where each subtree goes |
| FeeTreeShapes.AfterInsertShapeRight | core/mempool.go:144-156 | likewise heavy on the right, with the bodies exchanged as written, and nothing changes otherwise |
| FeeTreeBalance.InsertAvl | core/mempool.go:103-157 | as commented, insertion into a balanced tree never panics and keeps heights exact and factors within -1..1 |
| FeeTreeBalance.InsertAsWritten | core/mempool.go:103-157 | as written, insertion into a balanced tree gives the intended result if and only if no node of the path becomes right-heavy |
| FeeTreeBalance.InsertAsWrittenCounterexamples | core/mempool.go:144-152 | any three rising fees make the code dereference nil, and low, high, middle leave the tree unbalanced |
| FeeTreeAsWritten.BalancedExactly | core/mempool.go:103-157 | an insertion into a balanced search tree ends with a balanced tree if and only if the bodies are as commented, or the fee is there, or the pivot of the path is not a right-heavy node with the fee on its right, or the pivot is the left child of a left-heavy node and the fee goes left under the pivot's right child |
| FeeTreeAsWritten.PanicsExactly | core/mempool.go:103-157 | an insertion into a balanced search tree dereferences nil if and only if the bodies are as written, the pivot is right-heavy without a left child and the fee exceeds its right child's |
| FeeTreeBalance.RemoveAvl | core/mempool.go:173-293 | a removal leaves a balanced tree if and only if it does not promote a chain member over subtrees with a forgotten height |
| FeeTreeShapes.RebalanceShapeLeft | core/mempool.go:268-281 | after a removal, heavy on the left: which node comes on top and where each subtree goes |
| FeeTreeShapes.RebalanceShapeRight | core/mempool.go:282-292 | likewise heavy on the right, and nothing changes otherwise |
| FeeTreeBalance.StaleCounterexample | core/mempool.go:217-223 | a fee, a lower one and the first fee again inserted, removing the first leaves the tree unbalanced |
| FeeTreeBalance.RemovePresent | core/mempool.go:173-190 | a present record is removed if and only if the descent goes right as commented or the fee is on the left spine |
| FeeTreeBalance.DescendCounterexample | core/mempool.go:179-190 | a fee and a higher one inserted, removing the higher panics |
| FeeTreeBalance.DepthBound | core/mempool.go:57-69 | a balanced tree of depth h has at least fib(h+2)-1 nodes |
| FeeTreeBalance.RecursionBound | core/mempool.go:103-293 | in a balanced search tree of n distinct fees, an insertion or removal that makes c nested calls has fib(c+1) <= n+1 |
| FeeTreeRecords.InsertConsistent | core/mempool.go:103-157 | insertion keeps every transaction with its record |
| FeeTreeRecords.RemoveConsistent | core/mempool.go:245-256 | removal keeps every transaction with its record if and only if the transaction moves too or no successor moves in |
| FeeTreeRecords.RemoveListingExact | core/mempool.go:173-293 | a removal takes exactly the record with its transaction out of the listing if and only if the transaction moves too or no successor moves in |
| FeeTreeRecords.DisplacedCounterexample | core/mempool.go:245-256 | middle, low and high fee inserted, removing the middle leaves a record beside another one's transaction |
| StableOrder.StableSortingUnique | core/mempool.go:295-320 | best fees first with equal fees in order of arrival describes one sequence only |
| StableOrder.ArrivalSorts | core/mempool.go:110-118 | sorting commutes with a new arrival |
| StableOrder.DepartureSorts | core/mempool.go:196-224 | sorting commutes with a departure |
| MemTrees.MemTreeNode.constructor | core/mempool.go:41-51 | a node on its own that holds this transaction, its fee as key and record, and its identifier |
| MemTrees.RightRotate | core/mempool.go:71-82 | the pointer rotation computes the rotation on values, over the same nodes, nil exactly where the source panics |
| MemTrees.LeftRotate | core/mempool.go:84-95 | likewise for the left rotation |
| MemTrees.AppendToChain | core/mempool.go:110-118 | the new node is linked behind the last of its chain |
| MemTrees.InsertAtNode | core/mempool.go:103-157 | the recursive pointer insertion computes the insertion on values over the old nodes and the new one |
| MemTrees.RemoveFromChain | core/mempool.go:196-213 | unlinks the first matching member behind the head, or reports that there is none |
| MemTrees.Promote | core/mempool.go:217-223 | the next of the chain takes over the children and the rest of the chain |
| MemTrees.GetSmallestNode | core/mempool.go:159-167 | nil for nil; otherwise the loop ends at the leftmost node |
| MemTrees.TakeSuccessor | core/mempool.go:245-256 | key, record and chain of the leftmost node on the right move in and its own chain is cut off |
| MemTrees.Rebalance | core/mempool.go:268-292 | the four cases compute the rebalancing on values |
| MemTrees.RemoveAtNode | core/mempool.go:173-293 | the recursive pointer removal computes the removal on values, within the old nodes |
| MemTrees.GetMaxElements | core/mempool.go:295-320 | appends the first k of the listing and counts k down; a negative k yields one transaction for every fee |
| MemTrees.NegativeEmission | core/mempool.go:295-320 | a negative count yields the earliest record of every fee, best fee first |
| MemTrees.MemTree.Insert | core/mempool.go:97-101 | keeps the tree ordered; the contents gain the record behind its equals; on a balanced tree, exactly when it panics and exactly when the balance is kept; records stay with their transactions |
| MemTrees.MemTree.RemoveRecord | core/mempool.go:169-171 | false exactly when the descent misses the record, present or not; otherwise removes exactly the record, keeps the order, and keeps the balance and transactions with records exactly under the conditions of RemoveAvl and RemoveConsistent |
| MemPools.MemPool.AddTX | core/mempool.go:328-353 | invalid, double spent, panics or added, each with its exact condition, the panic on a balanced tree by PanicsExactly; the pool grows by this very transaction with its fee and identifier, behind its equals, and everything agrees afterwards if and only if its identifier is new |
| MemPools.MemPool.Enter | core/mempool.go:344-351 | what comes after the checks: on a balanced tree it panics, and keeps the balance, exactly under the conditions on the tree before the call |
| MemPools.MemPool.RemoveTX | core/mempool.go:355-369 | unknown, panics or removed, each with its exact condition, for every transaction; a balanced tree stays balanced exactly when no forgotten height is promoted; where the identifier fixes outputs and fee nothing else leaves the pool, all indexes agree, and the transactions stay with their records exactly when no successor moved in |
| MemPools.MemPool.RemoveBlock | core/mempool.go:371-380 | fails exactly when the descent misses one of the pooled transactions in the tree the removals before it have left; otherwise the pool without the identifiers of all transactions but the first, in the same order, where those identifiers fix outputs and fees |
| MemPools.MemPool.GetMaxTXs | core/mempool.go:382-384 | exactly min(k, size) transactions, under every reading; they are the first k of the pool sorted by fee, equal fees in order of arrival, if and only if the first k records are beside their own transactions; then they are pooled transactions unchanged, nothing left out pays more, and for k of at least the size they are all of them |
| MemPools.SharesIff | core/mempool.go:336-342 | the double-spend check finds exactly the transactions that share an output with a pooled one |
| MemPools.NewIdentifier | core/mempool.go:328-353 | a transaction that passes the double-spend check is not pooled yet, where identifiers fix the outputs spent |
| MemPools.SameIds | core/transaction.go:110-112 | two transactions with one computed identifier spend the same outputs, or their bytes collide under the double hash |
| MemPools.ReaddRefused | core/mempool.go:328-342 | a transaction with true output identifiers, as every valid one has, whose identifier is pooled shares an output with the pool and is refused, or collides with the pooled one |
| MemPools.IndexedAdd | core/mempool.go:344-351 | after an addition both indexes agree with the pool (identifiers once, fees as keyed, outputs disjoint) if and only if the identifier is new |
| MemPools.IndexedCut | core/mempool.go:361-367 | both indexes agree with the pool after a removal |
| MemPools.WithoutMember | core/mempool.go:371-380 | exactly the entries with the given identifiers leave |
| Mining.OfferIsMinable | core/block.go:94-127 | the k best of a pool that is valid as it stands always pass block validation, by themselves and behind any coinbase |
| Mining.OfferIsAccepted | core/block.go:170-200 | behind the coinbase that MineBlock builds, the offer is a block that validates, whose coinbase is accepted, and that confirms when transaction 0 is passed over |
| Mining.ValidateAgainstPool | core/block.go:94-127 | block validation with its effect on the mempool: a transaction that fails leaves the pool, nothing else does, and exactly when that removal panics |
| Mining.StaysValid | core/transaction.go:243-250 | a valid transaction stays valid over a confirmed block if and only if the block takes none of its entries |
| Mining.MiningKeepsReady | core/mempool.go:371-380 | a block mined from the pool, confirmed and removed from it, leaves the rest of the pool valid |
| Merkle.ComputeMerkleRoot | utils/merkle.go:3-20 | the loop and recursion compute the root and end on every non-empty list |
| Merkle.RootOfNeighbours | utils/merkle.go:3-20 | one step up: neighbours joined in order and hashed twice, a last leaf with itself |
| Merkle.RootOfTwo | utils/merkle.go:16-18 | the root of two leaves is the double hash of the first followed by the second |
| Merkle.RootOfHalves | utils/merkle.go:3-20 | over two halves of 2^k leaves the root is the double hash of the left root followed by the right root |
| Merkle.RootBinding | utils/merkle.go:3-20 | two lists of one length and one root are equal, or a walk through the levels returns two different 64-byte strings with one double hash |
| Merkle.RootOfRepeatedTail | utils/merkle.go:8-12 | a list of m * 2^k leaves, m odd and at least 3, has the same root with its last 2^k leaves repeated |
| Merkle.GenerateBlockMerkleRoot | core/block.go:145-151 | the root of the identifiers in block order |
| Merkle.BlockBinding | core/block.go:336-338 | blocks of one length and one root hold the same contents in the same order, or a collision is named |
| Target.ExpandBits | utils/target.go:8-24 | the 32 bytes, position by position, or the panic of an exponent above 32 |
| Target.ExpandedValue | utils/target.go:8-24 | the bytes hold mantissa times 256^(exponent-3), rounded down |
| Target.BelowIsLess | core/block.go:206 | comparing strings of one length is comparing their numbers |
| Target.EasierTargetAccepts | core/block.go:323-325 | a hash that meets a target meets every target of no smaller value |
| Retarget.ApplyCoeffToTarget | utils/target.go:26-96 | the stepwise code, its product rounded to float64, computes the retarget on values |
| Retarget.NormalizeValue | utils/target.go:61-85 | what the choice of three bytes keeps of the product and which exponent it takes, in each of its branches |
| Retarget.RetargetBound | utils/target.go:26-96 | before the cap the new value is at most the rounded product and short of it by less than one unit or one part in 65536 |
| Retarget.RoundedIsClose | utils/target.go:53 | the rounded product is within one part in 2^53 of the exact one |
| Retarget.IdealIsProduct | utils/target.go:26-32 | the exact product is the clamped coefficient times the value of the previous target |
| Retarget.RetargetCap | utils/target.go:90-95 | the result never exceeds the limit, and from within the limit capping the compact form is taking the smaller value |
| Retarget.RetargetIdentity | utils/target.go:26-96 | the coefficient 1 changes nothing but the limit |
| Retarget.RetargetMonotone | utils/target.go:26-96 | a larger coefficient never yields a smaller target, rounding included |
| Retarget.RunBounds | utils/target.go:26-96 | over every run of coefficients the target stays within the limit and eases at most fourfold per step, rounding included |
| Retarget.TimeMonotone | core/block.go:373-379 | a longer measured interval never makes the target harder |
| Retarget.TimeOnTarget | core/block.go:373-379 | an interval of exactly the expected length changes nothing but the limit |
| Retarget.GetTargetForBlock | core/block.go:345-371 | the old bits off the retarget heights; on them the retarget from the start block, and the exact condition of the panic |
| Retarget.TargetFollowsTime | core/block.go:373-379 | the new target is the previous one times the quotient of measured and expected time, kept within a quarter and four and within the limit, up to five parts in 2^53 above and one part in 65535 and one unit below |
| Retarget.CoefficientClose | core/block.go:375-378 | the coefficient is within three parts in 2^53 of measured over expected time, and not positive for a time that is not |
| Retarget.IntervalStartInChain | core/block.go:351-368 | at every retarget height the interval starts inside the chain, at the block that closed the one before |
| Signing.TransactionOutput.GenerateOutputID | core/transaction_output.go:31-39 | sets the identifier to the double hash of parent followed by the position in four bytes, and nothing else |
| Signing.BuildTransaction | core/transaction.go:50-61 | ties the caller's output objects in place, one in several places to the last of them; with different objects the transaction is the one built from the old values unless an input refers to one of them |
| Signing.Transaction.UpdateOutputs | core/transaction.go:99-108 | a missing identifier is computed, a present one kept, and every output tied to it, at its last place in the list |
| Signing.TiedKeepsBytes | core/transaction.go:99-112 | tying the outputs does not change the identifier they are tied to |
| Signing.Transaction.GatherSignatureDataForInput | core/transaction.go:309-340 | with different objects every ScriptSig is as before and the message a function of references, outputs, index and flag; with one object in several places, the message and what becomes of its ScriptSig |
| Signing.AsideDistinct | core/transaction.go:313-333 | for different objects setting the ScriptSigs aside gives the inputs of the message, and putting them back restores all of them |
| Signing.Transaction.SignInput | core/transaction.go:343-351 | the input gets signature and flag, or an error and none; with different objects nothing else changes and the message signed is that of Validation |
| Signing.MessageIndependent | core/transaction.go:309-340 | the message of an input does not depend on any ScriptSig |
| Signing.RunSigned | core/transaction.go:343-351 | in any order, with repetitions and failures, the last signature of each input, if it succeeded, matches the message of the finished transaction |
| Signing.NeverSigned | core/transaction.go:343-351 | an input that a run never signs is as it was |
| Signing.SignedIsAccepted | core/transaction.go:243-264 | when every input is signed with the key of its output, every input passes validation |
| Signing.DistinctObjects | core/transaction.go:231-241 | inputs that pass the duplicate check are different objects, so gathering their message restores them |

## Left out

- leveldb, file paths, persistence of the obfuscation key and the block storage: foreign library and I/O, a map stands for the store.
- SHA-256, ECDSA, X.509 and hex: parameters; that signing and checking fit together is a premise of `Signing.SignedIsAccepted` and of nothing else.
- `MineBlock`'s nonce search, time stamps and limit on the number of transactions, and debug prints: I/O, chance and one comparison; that an offered block is accepted is `Mining.OfferIsAccepted`.
- `ValidateBlockHeader`: it calls itself without a condition (core/block.go:319), so it states nothing.
- `Blockchain.InsertBlock` with its forks: nodes are never appended to the chain and re-organisation is not written.
- Undo data and block index records: written but never read.
- `UtxoExists`: asks less than `GetUtxo`.
- Ledger.ValidateBlockTx: works on transactions as values, so it does not show two transactions that share an input object.
- MemTrees.DetachChain: cuts the chain of the successor by walking down from the replaced node, where the source assigns through the pointer it already holds.
- DbWrapper.DBwrapper.PageInsert: does not model that slices of the key share memory with the caller's key.
- TxMetadata.ReadBitVector: asks for bytes that hold header and flags, as every stored record does; the slice panics on shorter bytes are not modelled.
- TxMetadata.ReadOutputs: asks for bytes that hold a record; the slice panics on shorter bytes are not modelled.
- Merkle.ComputeMerkleRoot: asks for a list that is not empty, since on the empty one the source recurses for ever.
- Supply.ValidateCoinbase: asks for a block with a transaction, since the source indexes out of range without one.
- Validation.AcceptedHasInput: takes the byte form of a transaction to be shorter than 2^63 bytes, as any slice is.
- DbWrapper.DBwrapper.PageGet: asks that some page of the key ends the value, since the source does not return otherwise.
- Retarget.GetTargetForBlock: the compensation of the first interval is stated as coded, not judged.
- Supply.AcceptedFees: takes the byte form of a transaction to be shorter than 2^63 bytes, as any slice is.
- Supply.BlockSupply: bounds the supply for blocks whose sums do not wrap; Supply.BlockSupplyExact and Supply.SupplyExact show that no other block of new transactions is bounded, Supply.BlockTotal accounts for blocks that reuse identifiers.
- Supply.SupplyBound: likewise for runs; Supply.CoinbaseCounterexample is a block that it does not cover.
- MemPools.MemPool.AddTX: takes transactions as values; a caller who changes a pooled transaction afterwards is not modelled.
- MemPools.MemPool.RemoveTX: after a panic nothing is said about the tree, as nothing recovers it; the pool is only described where an identifier fixes outputs and fee, which MemPools.SameIds gives up to a collision.
- MemPools.MemPool.RemoveBlock: the pool is only described where the identifiers fix outputs and fees, and the condition of its failure is followed through the tree step by step, not read off the tree before the call.
- FeeTreeAsWritten.BalancedExactly: is about one insertion into a balanced tree; which trees the code as written builds after losing balance is not characterised.
- Chainstates.Chainstate.WriteBatchTX: the other operations ask for a good state, so what they do on a store that a masked batch has spoiled is not modelled beyond what is read.
