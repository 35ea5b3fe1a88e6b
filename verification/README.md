# A model of the core of a Filecoin node

This project models the parts of a Go implementation of a Filecoin node that decide what the chain
is and what it does: applying messages and paying for them, generating blocks, weighing and
comparing chains, walking them, following the head with the message pool and the queue of outgoing
messages, storing the chain, detecting consensus faults, and the encodings all of this relies on.
It proves properties of whole runs of them.

`dafny verify dfyconfig.toml` checks everything.

## How it is laid out

| files | what they model |
|---|---|
| `Primitives`, `Lexicographic`, `GoSort`, `Varint` | 64-bit arithmetic, byte order, `sort.Slice` and `sort.Search`, varints |
| `StateTree`, `Messages`, `MessageSemantics` | actors, addresses, messages; what a message, a block and a tipset do to the state tree, as functions of values |
| `CachedState`, `Processor` | the same on mutable actors behind a read-through cache, statement by statement; proved equal to those functions |
| `MessageTheorems`, `RunTheorems`, `BlockGas`, `Payments` | conservation, gas, nonces, rejection, replay, who pays what |
| `MiningQueue`, `BlockGeneration` | the heap of nonce queues; choosing the messages of a block |
| `BitVectors`, `RlePlus` | the RLE+ coding of sets of numbers |
| `Decimals`, `AttoFil`, `BigFloats`, `FixedPoint` | decimal amounts; `big.Float` with its precisions; weights in fixed point |
| `TipSetKeys`, `TipSets`, `ForkChoice`, `Ancestry` | tipset keys and tipsets; the heavier of two chains; ancestors and differences of chains |
| `MinedMessages`, `OutboundQueue`, `MessagePool`, `Ingestion`, `MessageInbox`, `QueuePolicy`, `HeadHandling` | messages sent, messages received, and what a new head does to them |
| `StoreKeys`, `TipIndexes`, `ChainStore` | the tipset index, the datastore and loading from it |
| `Slashing` | the consensus fault detector |

Objects the Go code changes in place are classes or arrays here. Where a method computes something
worth reasoning about, its contract ties it to a function of values, and lemmas say what that
function means.

## What is assumed

* CIDs identify what they are computed from, and messages, blocks and tipsets stand for theirs. How
  a CID is printed is a parameter: injective, without spaces and braces (`LettersArePrintable`).
* Actor code is a parameter. `Honest` says what conservation and gas need of it: it stays within
  the gas limit of the message, and where it succeeds it keeps the total, the actors and the address
  book, leaves nonces alone and takes no money from the sender. `KeepsNegativeTransferInside` is
  used for rejection and replay. No built-in actor is known to break it: they check the amounts of
  their nested sends or wrap the error. `LeakedNegativeTransferIsCharged` and
  `RejectionUnchangedIff` only show that it is needed, and what an actor that broke it would do.
* Tipsets are higher than their parents (`WellFormed`), as block validation demands. `Linked` says
  that no parent is missing; it is asked for only where a contract says so.
* Whether a message is valid for the pool, who owns a miner, the total power in a state and what the
  message store holds are parameters.

## Where the code differs from what is said of it

* The comment on `ApplyMessage` has a message with insufficient funds applied with an error. The code
  makes that a permanent error: it is not applied (`InsufficientFundsIff`).
* A gas price of zero is an error that is neither temporary nor permanent, so such a message counts
  as applied, and it is reported before the nonce is compared (`ReplayedIff`).
* A fault is said to mean a failing disk or a broken precondition. A message that passes every check,
  to an id address without an actor, causes one, and loses the whole block (`UnusedIdFaults`).
* Pool and queue are said to drop what is mined and the pool to take back what is abandoned. Both look
  at the secp messages of blocks only. A mined BLS message stays in the pool until it times out, and
  in the queue until the list expires (`MinedStaysIff`, `QueueIsTrimmedIff`).
* A message that was not applied can be in a block all the same, and the pool's validator, which looks
  at nonces and balances, lets it in again: the pool may hold what is on the chain
  (`UnappliedIsPooled`, `PoolIsCleanIff`).
* A charge over the limit of a message adds the whole limit to the gas of the block, on top of what
  was added before (`BlockIsChargedTheSameIff`, `CountedIs`).
* Fixed point numbers are said to hold whole parts up to 2^54 - 1. They pass through a mantissa of 53
  bits, so odd ones from 2^53 on come back changed (`FixedRoundTripIff`), and the limit itself is
  rounded up to 2^54 (`ToFixedIs`).
* The pool expects new tipsets from the head down. The queue policy, which is called first, reverses
  the list in place, so it gets them from the lowest up (`TimeoutIsPromisedIff`).
* Messages of abandoned blocks are said to return to the queue. They are requeued in the order of the
  block, which fails for two messages of one sender (`AscendingNoncesAreNotRequeued`).
* `PutTipSetMetadata` indexes metadata before it refuses them (`RefusedMetadataIsIndexed`,
  `PersistedIff`).
* The loops that collect ancestors, and the one of `Load`, look for the end before they look for an
  error, so a missing parent ends them without one (`CutShortIff`).

## Model

| member | source | states |
|---|---|---|
| `RunTheorems.TipSetConserves` | internal/pkg/consensus/processor.go:101-130 | over every tipset processed without a fault, for every chain state, every list of blocks and every owner of them, the sum of all balances stays the same: through block rewards, gas rewards, committed and reverted messages and actors created on demand |
| `RunTheorems.BlockConserves` | internal/pkg/consensus/processor.go:521-549 | a block keeps the total, keeps every actor, and keeps every address the init actor has given an id |
| `StateTree.MoveConserves` | internal/pkg/vm/internal/vmcontext/vmcontext.go:612-625 | a transfer keeps the total, also from an actor to itself |
| `MessageTheorems.ApplyMessageFacts` | internal/pkg/consensus/processor.go:215-288 | one message keeps the total and all known addresses, and counts up the nonce of its sender alone, by one, if and only if it is applied |
| `MessageTheorems.AppliedIff` | internal/pkg/consensus/processor.go:215-288 | a message with a positive gas price is applied if and only if it fits the block, its sender is known and an account, it is not to self, its value is not negative, gas and value can be covered, its nonce is the current one, its receiver is there or can be created, and its call does not fault |
| `MessageTheorems.FaultIff` | internal/pkg/consensus/processor.go:215-288 | a message faults if and only if it fits and the address book is broken, or it passes every check and its receiver can be neither found nor created, its method is the invalid one, or the actor call it makes faults |
| `MessageTheorems.RejectedIff` | internal/pkg/consensus/processor.go:215-288 | it is rejected for now if and only if it does not fit into what is left of the block, its sender is not known, or only its nonce is wrong and too high; and for good if and only if it fits into no block, or is to self or, if priced, not from an account, of negative value, not covered or of a nonce too low |
| `MessageTheorems.RejectedWith` | internal/pkg/consensus/validation.go:51-98 | a rejection names the first of the checks, in their order, that the message fails |
| `MessageTheorems.InsufficientFundsIff` | internal/pkg/consensus/processor.go:215-288 | a message that cannot be covered is rejected for good, if and only if nothing checked before is wrong |
| `MessageTheorems.PoorSenderIsRejected` | internal/pkg/consensus/processor.go:215-288 | a concrete message of a sender that has too little |
| `MessageTheorems.UnusedIdFaults` | internal/pkg/consensus/processor.go:680-690 | a message that passes every check, to an id address without an actor, faults |
| `RunTheorems.MessageToUnusedIdFaultsBlock` | internal/pkg/consensus/processor.go:521-549 | a concrete block of one such message, which faults as a whole |
| `RunTheorems.RunOkIff` | internal/pkg/consensus/processor.go:521-549 | the messages of a block run without a fault if and only if none of them, where the run has come to, is one that faults |
| `RunTheorems.BlockOkIff` | internal/pkg/consensus/processor.go:521-549 | a block does if and only if moreover the network has the reward and the owner is there or can be created |
| `RunTheorems.TipSetOkIff` | internal/pkg/consensus/processor.go:101-130 | a tipset does if and only if it has a block and each of its blocks, without repeated messages, has an owner and runs |
| `RunTheorems.EachResultReports` | internal/pkg/consensus/processor.go:521-549 | each result of a block is that of the message in its place, where the run has come to: receipt and error of an applied one, error and kind of a rejected one |
| `RunTheorems.ResultsIff` | internal/pkg/consensus/processor.go:521-549 | over every run, a message is reported as failed for good, as failed for now or as a success if and only if that is what it is to be, by `ForGood` and `ForNow`, in the state and with the gas it finds when it is its turn |
| `RunTheorems.BlocksResults` | internal/pkg/consensus/processor.go:101-130 | the results of a tipset are those of its blocks, one for each message, in the order of the blocks and of the messages in them |
| `RunTheorems.TipSetResultsIff` | internal/pkg/consensus/processor.go:101-130 | so over all blocks of a tipset each message is reported as what it is to be when it is its turn |
| `RunTheorems.TipSetNoncesAreContiguous` | internal/pkg/consensus/processor.go:101-130 | over all blocks of a tipset, whatever messages they share or conflict in, the nonces applied for an actor count up by one from its nonce at the start, and its nonce at the end is the start plus their number |
| `RunTheorems.NoNonceTwiceInTipSet` | internal/pkg/consensus/processor.go:101-130 | no nonce of an actor is applied twice in a tipset |
| `RunTheorems.AppliedNoncesAreContiguous` | internal/pkg/consensus/processor.go:521-549 | the same for the message loop of one block |
| `RunTheorems.ReplayedIff` | internal/pkg/consensus/validation.go:51-98 | a message just applied is applied a second time if and only if its gas price is not positive; the error for the price is returned before the nonce is looked at and is neither temporary nor permanent |
| `RunTheorems.FreeMessageIsReplayed` | internal/pkg/consensus/validation.go:51-98 | a concrete free message, with a nonce its sender is not at, is applied twice in one block |
| `RunTheorems.UnpricedApplies` | internal/pkg/consensus/processor.go:215-288 | without a positive gas price a message of a known sender is applied if and only if it fits the block and is not to self, and it uses no gas |
| `MessageTheorems.GasIsAffordable` | internal/pkg/consensus/validation.go:72-106 | whatever a validated message does, committed or reverted, its sender can afford the gas charged |
| `RunTheorems.GasRewardsNeverFault` | internal/pkg/consensus/processor.go:604-618 | from the block reward on, no gas reward in the block fails |
| `Payments.GasRewardPays` | internal/pkg/consensus/processor.go:604-618 | a gas reward takes exactly the cost from the balance of the sender, adds it to that of the owner, and changes no other; none at all if they are one actor |
| `Payments.BlockRewardPays` | internal/pkg/consensus/processor.go:595-625 | a block reward does so with 1000 times 10^18 from the network actor |
| `Payments.MessagePays` | internal/pkg/consensus/processor.go:215-288 | whatever becomes of a message, on top of what its attempt has done if that was kept, its sender pays the owner exactly the gas price times the units used, and no other balance changes; the receipt says the same amount |
| `Payments.FailedPaysGasOnly` | internal/pkg/consensus/processor.go:215-288 | so a message that was rejected or ended in an error costs its sender the gas and nothing else |
| `Payments.ReceiptIs` | internal/pkg/consensus/processor.go:447-481 | the receipt of an applied message has the exit code, the values and the error its actor call returned, and the price of the units it used; or, if the call reaches no actor code, the exit code of the VM for that case and no cost; what is kept is the tree of a call that succeeded |
| `Payments.CallHasMovedValue` | internal/pkg/vm/internal/vmcontext/vmcontext.go:554-564 | the call is made with the value moved from sender to receiver, and no other balance changed |
| `Payments.SendPays` | internal/pkg/vm/internal/vmcontext/vmcontext.go:554-570 | a plain send that is applied moves its value, to an actor found or created, and costs nothing |
| `MessageTheorems.EveryRejectionLeavesStateUnchanged` | internal/pkg/consensus/processor.go:249-272 | if actors keep the negative-transfer error inside, every temporary or permanent rejection leaves the tree and the gas of the block exactly as they were |
| `MessageTheorems.RejectionUnchangedIff` | internal/pkg/consensus/processor.go:249-272 | for any actor code, a rejection leaves the tree as it was if and only if the call did not use gas and then return the negative-transfer error, or the sender is the owner gas is paid to |
| `MessageTheorems.LeakedNegativeTransferIsCharged` | internal/pkg/consensus/processor.go:249-272 | what is asked of actors there is needed: with an honest one that returns that error, a message is rejected as permanent and its sender has paid |
| `MessageTheorems.PayingIsHonest` | internal/pkg/vm/internal/vmcontext/vmcontext.go:554-609 | what is asked of actor code is met by code that succeeds and changes the tree |
| `RunTheorems.AcceptedReplayTheSame` | internal/pkg/consensus/processor.go:521-549 | running only the messages that were accepted, from the same tree, gives the same tree and the same receipts |
| `RunTheorems.MinedBlockReplays` | internal/pkg/consensus/processor.go:101-130 | so does processing them as a tipset |
| `RunTheorems.DedupAllIsGlobal` | internal/pkg/consensus/processor.go:133-152 | dropping repeated messages block by block is dropping them from the whole tipset |
| `RunTheorems.DedupFacts` | internal/pkg/consensus/processor.go:133-152 | what is left has no repetitions and misses nothing |
| `BlockGeneration.GeneratedBlockReplays` | internal/pkg/mining/block_generate.go:84-124 | for every pool: a block generated from it, its BLS and secp messages joined again as on receipt, gives the state and the receipts the miner computed |
| `BlockGeneration.PoolBlockReplays` | internal/pkg/mining/block_generate.go:84-124 | so for whatever any run of additions and removals leaves in the pool |
| `BlockGeneration.PoolIsDistinct` | internal/pkg/message/pool.go:159-172 | what a pool holds are distinct messages, one for each sender and nonce |
| `MessagePool.Pool.PendingMessages` | internal/pkg/message/pool.go:91-101 | each message of the pool once |
| `BlockGeneration.SelectMessages` | internal/pkg/mining/block_generate.go:84-124 | of the drained and ordered pool the block takes exactly the messages that are to be rejected neither for good nor for now when it is their turn, split by signature type; and exactly those to be rejected for good then are to be removed from the pool |
| `BlockGeneration.SelectionIs` | internal/pkg/mining/block_generate.go:98-124 | the same of every list of candidates, in their order |
| `BlockGeneration.Align` | internal/pkg/mining/block_generate.go:96-124 | the two lists of accepted messages and the list of hopeless ones, in order |
| `BlockGeneration.SplitAndCombine` | internal/pkg/mining/block_generate.go:202-214 | splitting what was accepted into the two lists and joining them gives it back in the same order |
| `BlockGeneration.OrderMessageCandidates` | internal/pkg/mining/block_generate.go:202-214 | BLS messages before the others |
| `BlockGeneration.OrderKeepsEachSender` | internal/pkg/mining/block_generate.go:202-214 | the order of the messages of each sender stays |
| `BlockGeneration.CandidatesAreDistinct` | internal/pkg/mining/block_generate.go:84-94 | candidates of a pool with one message for each sender and nonce are distinct messages |
| `BlockGeneration.CombineMessages` | internal/pkg/consensus/expected.go:352-358 | block by block, BLS messages and then secp messages |
| `Processor.RunTipSet` | internal/pkg/consensus/processor.go:101-130 | the loop over blocks, on the mutable tree, computes `ProcessTipSet` |
| `Processor.ApplyBlock` | internal/pkg/consensus/processor.go:521-549 | block reward and message loop, on the mutable tree, compute `ApplyMessagesAndPayRewards` |
| `Processor.ApplyToState` | internal/pkg/consensus/processor.go:215-288 | the tree, the gas tracker and the outcome after one message are those of `ApplyMessage` |
| `Processor.AttemptApplyMessage` | internal/pkg/consensus/processor.go:406-481 | the attempt on a cached tree, with all its rejections |
| `Processor.ExecuteMessage` | internal/pkg/consensus/processor.go:447-481 | the part after validation |
| `Processor.SendMessage` | internal/pkg/vm/internal/vmcontext/vmcontext.go:554-609 | value transfer and call on cached actors, which may be one actor |
| `Processor.ResolveAddress` | internal/pkg/consensus/processor.go:484-516 | the id address in the init actor's book, unknown, or broken; the tree does not change |
| `Processor.GetOrCreateActor` | internal/pkg/consensus/processor.go:680-718 | the actor found or created, and the tree then |
| `Processor.CreateAccountActor` | internal/pkg/consensus/processor.go:680-718 | a new account under the next id, entered into the address book |
| `StateTree.FoundOrCreatedIff` | internal/pkg/consensus/processor.go:680-718 | when an actor is found, and exactly when one is created for an address not yet known |
| `StateTree.CreatedIsNew` | internal/pkg/consensus/processor.go:680-718 | with the address book in order, a public key not yet known always gets a new, empty account at the next id and resolves to it, no other address resolves differently, no other actor changes, and the book stays in order |
| `StateTree.OwnersDiffer` | internal/pkg/consensus/processor.go:484-516 | then different public keys never resolve to one actor |
| `Processor.PayReward` | internal/pkg/consensus/processor.go:628-640 | a reward moves money to an actor found or created |
| `Processor.PayBlockReward` | internal/pkg/consensus/processor.go:595-601 | committed if it succeeds, nothing changed if not |
| `Processor.PayGasReward` | internal/pkg/consensus/processor.go:604-618 | committed if it succeeds, nothing changed if not |
| `Processor.CountNonce` | internal/pkg/consensus/processor.go:274-287 | the nonce counted up on the tree itself |
| `Processor.DeduppedMessages` | internal/pkg/consensus/processor.go:133-152 | the filter map computes `DedupAll` |
| `CachedState.CachedTree.GetActor` | internal/pkg/vm/state/cached_tree.go:29-41 | reading through the cache does not change the tree seen |
| `CachedState.CachedTree.Pay` | internal/pkg/vm/internal/vmcontext/vmcontext.go:612-625 | a transfer on cached objects is the transfer on the tree seen, aliasing included |
| `CachedState.CachedTree.Commit` | internal/pkg/vm/state/cached_tree.go:63-72 | the tree below becomes the tree seen |
| `MessageTheorems.ChargedIs` | internal/pkg/vm/internal/gastracker/gas_tracker.go:31-42 | whatever is charged, in whatever portions, a message has used the sum, but no more than its limit |
| `MessageTheorems.ChargeAcceptedIff` | internal/pkg/vm/internal/gastracker/gas_tracker.go:31-42 | a charge is accepted if and only if the message has that much left, or the 64-bit sum wraps |
| `MessageTheorems.BlockIsChargedTheSameIff` | internal/pkg/vm/internal/gastracker/gas_tracker.go:31-42 | the block is charged what the message is charged if and only if the charge is accepted or the first |
| `MessageTheorems.RefusedChargeCountsTwice` | internal/pkg/vm/internal/gastracker/gas_tracker.go:31-42 | a concrete message that uses 10 units, for which the block is charged 16 |
| `BlockGas.BlockGasIsBounded` | internal/pkg/consensus/processor.go:521-549 | with actors that change the gas tracker by charges only, the gas used by all messages of a block together, however they end, is within the limit of the block |
| `BlockGas.MessageGas` | internal/pkg/consensus/processor.go:406-420 | a message uses no more than the block has left, and the block counts at least what it uses |
| `BlockGas.CountedIs` | internal/pkg/vm/internal/gastracker/gas_tracker.go:31-42 | the block counts every accepted charge and the whole limit for every refused one, which says exactly when it counts more than its limit |
| `BlockGas.CountedPassesLimit` | internal/pkg/vm/internal/gastracker/gas_tracker.go:31-52 | a concrete message after which it has counted more |
| `MessageTheorems.ChargeStaysWithinLimit` | internal/pkg/vm/internal/gastracker/gas_tracker.go:31-42 | a message never uses more gas than its limit |
| `MiningQueue.MessageQueue.constructor` | internal/pkg/mining/mqueue.go:27-45 | the heap is built of all messages given |
| `MiningQueue.MessageQueue.Pop` | internal/pkg/mining/mqueue.go:53-72 | takes exactly one message, a head such that every sender has a head that is not better; with one message for each sender and nonce, no head offers a higher gas price, and of those that offer the same it has the first address in byte order; none only if the queue is empty |
| `MiningQueue.NextIsBest` | internal/pkg/mining/mqueue.go:53-72 | with one message for each sender and nonce, that is the best of all heads |
| `MiningQueue.NextIff` | internal/pkg/mining/mqueue.go:95-103 | and that is the head with the highest gas price and, among equal ones, the address that is smaller at the first byte that differs or a proper prefix: if and only if |
| `MiningQueue.MergeIsByPrice` | internal/pkg/mining/mqueue.go:75-81 | so at each place of a merge |
| `MiningQueue.DearerComesFirst` | internal/pkg/mining/mqueue.go:95-103 | concretely, of two senders that offer 1 and 5 the second comes first |
| `MiningQueue.MessageQueue.Drain` | internal/pkg/mining/mqueue.go:75-81 | the list is the greedy merge of the contents; with one message for each sender and nonce, each has the highest gas price of the heads of what is left, and of equal ones the first address |
| `MiningQueue.MergeIsUnique` | internal/pkg/mining/mqueue.go:75-81 | with one message for each sender and nonce there is only one such list, whatever the order of input and map |
| `MiningQueue.MergeIsPermutation` | internal/pkg/mining/mqueue.go:75-81 | it is a permutation of the messages |
| `MiningQueue.MergeIsNonceOrdered` | internal/pkg/mining/mqueue.go:75-81 | nonces of one sender ascend in it |
| `MiningQueue.RootIsBest` | internal/pkg/mining/mqueue.go:95-103 | the root of the heap is not worse than any queue in it |
| `MiningQueue.TopIsNext` | internal/pkg/mining/mqueue.go:53-72 | the first message of the root is the best of all heads |
| `MiningQueue.MessageQueue.Down` | internal/pkg/mining/mqueue.go:53-72 | sifting down restores the heap and keeps the messages |
| `MiningQueue.MessageQueue.Init` | internal/pkg/mining/mqueue.go:27-45 | the heap order, from any order, keeping the messages |
| `RlePlus.Encode` | internal/pkg/rleplus/rleplus.go:45-77 | for every list of 64-bit numbers, in any order and with repetitions: the bytes are the code of its runs padded with zeroes, of three bits and one, six or two and eight for each byte of a varint for each run; they decode to the ascending list of its elements, and the array is left sorted |
| `RlePlus.ShortestCode` | internal/pkg/rleplus/rleplus.go:57-72 | the code of a run is the shortest of all bit strings read as that run, and the only one of its length |
| `RlePlus.FiveInARow` | internal/pkg/rleplus/rleplus.go:45-77 | concretely, the numbers from 0 to 4 are one run of five, nine bits in the bytes 180 and 0 |
| `RlePlus.RoundTrip` | internal/pkg/rleplus/rleplus.go:45-154 | decoding the code of a sorted list gives its elements in ascending order, each once |
| `RlePlus.DecodeEncoded` | internal/pkg/rleplus/rleplus.go:88-154 | any proper runs, coded and padded with zeroes, are decoded to the numbers they stand for |
| `RlePlus.RunsStandForList` | internal/pkg/rleplus/rleplus.go:168-204 | the runs of a sorted list stand for it without repetitions, in spite of 64-bit arithmetic |
| `RlePlus.RunLengths` | internal/pkg/rleplus/rleplus.go:168-204 | sorts in place, and gives the first bit and the runs |
| `RlePlus.Decode` | internal/pkg/rleplus/rleplus.go:88-154 | on every byte string the loop computes `DecodeBytes` in no more than eight turns for each byte |
| `RlePlus.BlocksAreBounded` | internal/pkg/rleplus/rleplus.go:88-154 | each block read but the last takes a bit of the input |
| `RlePlus.WrongVersionIff` | internal/pkg/rleplus/rleplus.go:88-101 | the version is wrong if and only if the low two bits of the first byte are not zero |
| `RlePlus.BadBlockIff` | internal/pkg/rleplus/rleplus.go:107-140 | a block is refused if and only if it is a long one of which eleven bytes go by without an end |
| `BitVectors.BitVector.Push` | internal/pkg/rleplus/internal/bitvector.go:59-73 | one bit at the end |
| `BitVectors.BitVector.Extend` | internal/pkg/rleplus/internal/bitvector.go:97-113 | the low bits of a byte at the end |
| `BitVectors.BitReader.Next` | internal/pkg/rleplus/internal/bitvector.go:119-155 | the next bits, zeroes beyond the end |
| `Varint.GetPut` | internal/pkg/rleplus/rleplus.go:45-77 | the varint of a run is read back, and has at most ten bytes |
| `Varint.PutIsShortest` | internal/pkg/rleplus/rleplus.go:63-71 | it is the shortest varint read as that number, and the only one of its length |
| `Varint.PutSize` | internal/pkg/rleplus/rleplus.go:63-71 | its size is the number of groups of seven bits |
| `FixedPoint.WeightIsExact` | internal/pkg/consensus/chain_selector.go:49-88 | while the whole part stays below 2^53, a weight is exactly the parent weight plus 1000 times (2 times the blocks plus the bit length of the total power), in spite of three roundings |
| `FixedPoint.WholeWeightIff` | internal/pkg/consensus/chain_selector.go:49-88 | beyond that, for whole parent weights: exact if and only if the parent weight survives the conversion and the sum is at most 2^54 |
| `FixedPoint.BitLenIs` | internal/pkg/consensus/chain_selector.go:77-84 | the number of binary digits |
| `FixedPoint.ChainWeightIs` | internal/pkg/consensus/chain_selector.go:49-88 | the weight of a whole chain is the sum of the gains |
| `FixedPoint.WeightAlwaysGrows` | internal/pkg/consensus/chain_selector.go:49-88 | whatever the parent weight, with thousandths or beyond 2^53 where rounding takes a unit away, a tipset that can be weighed weighs more than its parent |
| `FixedPoint.WeightGrows` | internal/pkg/consensus/chain_selector.go:49-88 | so the weight grows strictly along every chain that can be weighed |
| `FixedPoint.Weigh` | internal/pkg/consensus/chain_selector.go:49-88 | the operations on floats, in their order and precisions, compute `WeightOf` |
| `FixedPoint.FixedRoundTripIff` | internal/pkg/types/fixed_point.go:28-68 | a fixed point number comes back from a float if and only if it is within the limit and its whole part is below 2^53 or even |
| `FixedPoint.OddIntegralIsLost` | internal/pkg/types/fixed_point.go:28-68 | 2^53 + 1 does not, though it is within the limit |
| `FixedPoint.ToFixedIs` | internal/pkg/types/fixed_point.go:28-49 | the printed and parsed number is the nearest number of thousandths, and an error above 2^54 |
| `FixedPoint.FixedToBig` | internal/pkg/types/fixed_point.go:51-68 | the float the operations make |
| `FixedPoint.BigToFixed` | internal/pkg/types/fixed_point.go:28-49 | comparison, printing, splitting and parsing compute `ToFixed` |
| `BigFloats.RoundError` | internal/pkg/consensus/chain_selector.go:49-88 | the error of rounding to a mantissa |
| `BigFloats.TiesGoToEven` | internal/pkg/consensus/chain_selector.go:49-88 | half way between two numbers the even one is taken |
| `ForkChoice.HeavierIsTotal` | internal/pkg/consensus/chain_selector.go:97-136 | of two weighable tipsets with different keys exactly one is heavier; an error if and only if the keys are the same |
| `ForkChoice.HeavierIsTransitive` | internal/pkg/consensus/chain_selector.go:97-136 | heavier is transitive, through weight, least ticket and key string |
| `ForkChoice.ChildIsHeavier` | internal/pkg/consensus/chain_selector.go:97-136 | a tipset is heavier than its parent, if both can be weighed |
| `ForkChoice.WeightIs` | internal/pkg/consensus/chain_selector.go:49-88 | while whole parts stay below 2^53, the weight of every tipset but genesis is its parent weight plus 1000 times (2 times its blocks plus the binary digits of the power in its parent state), or an error if that state is undefined or not stored |
| `ForkChoice.WeightOfEnds` | internal/pkg/consensus/chain_selector.go:49-58 | genesis weighs nothing, and a tipset without blocks cannot be weighed |
| `ForkChoice.MoreBlocksAreHeavier` | internal/pkg/consensus/chain_selector.go:97-136 | of two tipsets with the same parent weight and state the one with more blocks is heavier, whatever the tickets |
| `ForkChoice.TiesGoTo` | internal/pkg/consensus/chain_selector.go:112-136 | of two tipsets of the same weight the one wins whose least ticket comes first in byte order, and with equal tickets the one whose key string comes last |
| `TipSetKeys.NewTipSetKey` | internal/pkg/block/tipset_key.go:40-50 | a strictly sorted key with exactly the CIDs given |
| `TipSetKeys.SortAndCompact` | internal/pkg/block/tipset_key.go:189-210 | in place: strictly sorted, the same elements |
| `TipSetKeys.Compact` | internal/pkg/block/tipset_key.go:194-209 | in place: elements equal to their predecessor dropped |
| `TipSetKeys.NewTipSetKeyFromUnique` | internal/pkg/block/tipset_key.go:53-59 | an error if and only if a CID is repeated |
| `TipSetKeys.Has` | internal/pkg/block/tipset_key.go:67-73 | binary search is membership |
| `TipSetKeys.Equals` | internal/pkg/block/tipset_key.go:96-106 | equality of keys is equality of the sets |
| `TipSetKeys.EqualsIsSetEquality` | internal/pkg/block/tipset_key.go:96-106 | a set of CIDs has one key |
| `TipSetKeys.KeyAscends` | internal/pkg/block/tipset_key.go:189-193 | the CIDs of a key ascend in byte order |
| `TipSetKeys.ContainsAll` | internal/pkg/block/tipset_key.go:109-120 | one pass decides inclusion |
| `TipSetKeys.KeyStringInjective` | internal/pkg/block/tipset_key.go:123-129 | different keys have different strings |
| `TipSetKeys.KeyStringOfTwo` | internal/pkg/block/tipset_key.go:123-129 | the string of a key of two CIDs |
| `ForkChoice.LettersArePrintable` | internal/pkg/block/tipset_key.go:123-129 | CIDs can be printed as that asks |
| `TipSets.NewTipSet` | internal/pkg/block/tipset.go:37-81 | an error exactly for no blocks, repeated blocks, or blocks that differ in height, parents or parent weight; else the sorted blocks and their key |
| `TipSets.TipSetIsCanonical` | internal/pkg/block/tipset.go:37-81 | every order of the same blocks gives the same tipset |
| `TipSets.BlocksAscend` | internal/pkg/block/tipset.go:65-73 | the blocks are in the byte order of their tickets and, for one ticket, of their CIDs |
| `TipSets.BlocksAgree` | internal/pkg/block/tipset.go:45-67 | every block has the height, the parents and the parent weight the tipset has |
| `TipSets.MinTicketIsMinimal` | internal/pkg/block/tipset.go:113-118 | the ticket of the first block is the least of all |
| `Ancestry.FindCommonAncestor` | internal/pkg/chain/get_ancestors.go:98-133 | two pointers find the point from which both chains are the same and before which they have nothing in common; with all parents there, no ancestor is reported if and only if the chains are disjoint |
| `Ancestry.MeetingIsHighest` | internal/pkg/chain/get_ancestors.go:98-133 | that point is the highest tipset on both chains |
| `Ancestry.TipsetIterator.Next` | internal/pkg/chain/traversal.go:24-55 | what remains is the rest of the chain; failing ends it |
| `Ancestry.ChainIsOfParents` | internal/pkg/chain/traversal.go:24-55 | a chain goes from each tipset to the one named as its parents, and ends exactly where that is none or not stored |
| `Ancestry.CollectTipSetsOfHeightAtLeast` | internal/pkg/chain/get_ancestors.go:75-93 | exactly the part of the known chain at or above the height; a missing parent is no error |
| `Ancestry.CutShortIff` | internal/pkg/chain/get_ancestors.go:75-93 | that is less than a store that knows more would give if and only if the last known tipset names a parent that is not stored and could be high enough |
| `Ancestry.MissingParentIsSilent` | internal/pkg/chain/get_ancestors.go:75-93 | a concrete store for which that happens |
| `Ancestry.CollectTipsToCommonAncestor` | internal/pkg/chain/traversal.go:95-120 | the tipsets on one chain only, for each of the two, from the head down; for a head compared with itself none, or its whole chain on both sides at height 2^64 - 1, where one more than the height is zero |
| `Ancestry.IsReorgIff` | internal/pkg/chain/reorg.go:12-17 | a reorg if and only if the old head is not on the new chain and its blocks are not all in the new head |
| `Ancestry.ReorgDiffOfMeeting` | internal/pkg/chain/reorg.go:21-42 | never an error for the common ancestor: the differences of the heights; zero for a side without new tipsets |
| `HeadHandling.ViewFollowsHead` | internal/pkg/message/handler.go:28-51 | over every sequence of heads, dropping the old tipsets and putting the new ones in front gives the chain of the last head, while the store grows |
| `HeadHandling.ChainIsKept` | internal/pkg/chain/traversal.go:95-120 | a store that learns more tipsets keeps the chains it had |
| `Slashing.ConsensusFaultDetector.CheckBlock` | internal/pkg/slashing/consensus_slashing.go:35-65 | after every history the index holds, for each miner and epoch, the block checked last that covers the epoch; the faults emitted are those that index implies |
| `Slashing.EveryFaultIsReal` | internal/pkg/slashing/consensus_slashing.go:35-65 | every fault ever emitted names two different blocks of one miner with a common epoch, both checked |
| `Slashing.FirstArrivalIsCaught` | internal/pkg/slashing/consensus_slashing.go:35-65 | a block that overlaps an earlier, different block of its miner emits a fault when it comes first |
| `Slashing.CaughtIff` | internal/pkg/slashing/consensus_slashing.go:35-65 | a block that comes for the first time is a fault if and only if a different block of its miner was checked before such that each is higher than the parent of the other |
| `Slashing.EveryFaultOverlaps` | internal/pkg/slashing/consensus_slashing.go:35-65 | every fault ever emitted is of two such blocks |
| `OutboundQueue.EveryRunKeepsContiguous` | internal/pkg/message/queue.go:49-162 | whatever operations are made, each list holds messages of its sender with nonces stepping by one, modulo 2^64 |
| `OutboundQueue.RequeueUndoesRemove` | internal/pkg/message/queue.go:71-118 | requeuing what was removed gives the queue back |
| `OutboundQueue.Queue.EnqueueMessage` | internal/pkg/message/queue.go:49-67 | at the end if and only if the list is empty or the nonce is the next one; all other lists stay |
| `OutboundQueue.Queue.RequeueMessage` | internal/pkg/message/queue.go:71-89 | in front if and only if the list is empty or the nonce is the one before; all other lists stay |
| `OutboundQueue.Queue.RemoveNextMessage` | internal/pkg/message/queue.go:96-118 | the head if its nonce is the one expected, nothing if that is lower, an error if higher |
| `OutboundQueue.Queue.ClearSender` | internal/pkg/message/queue.go:122-134 | one list dropped |
| `OutboundQueue.Queue.Expire` | internal/pkg/message/queue.go:138-162 | exactly the lists whose head is too old are emptied, and their messages returned |
| `OutboundQueue.RemoveMinedIff` | internal/pkg/message/policy.go:67-85 | removing mined messages, whatever their nonces, succeeds if and only if none comes with a higher number than the first message left of its sender, and then takes exactly those that come in turn |
| `OutboundQueue.RemoveMinedLeavesUnmined` | internal/pkg/message/policy.go:67-85 | for nonces below 2^64 that never skip one, that leaves exactly the messages not mined |
| `OutboundQueue.NextNonceIsQueuedIff` | internal/pkg/message/outbox.go:181-192 | the next nonce is one already queued if and only if the nonces queued pass 2^64 - 1 and the actor's nonce has not |
| `OutboundQueue.WrappedNonceIsReused` | internal/pkg/message/outbox.go:181-192 | a concrete queue for which that happens |
| `OutboundQueue.NextNonceEnqueuesIff` | internal/pkg/message/outbox.go:181-192 | a message with the next nonce can be enqueued if and only if the actor has not run ahead of the queue |
| `OutboundQueue.NextNonceIsLeast` | internal/pkg/message/outbox.go:181-192 | below the end of the range, the next nonce is the least that is not below that of the actor and above all queued; there is none if and only if the actor is not an account |
| `QueuePolicy.HandleNewHead` | internal/pkg/message/policy.go:58-118 | removes the messages in secp lists of new blocks, requeues those of abandoned ones, expires old lists, and stops at the first error; the list of new tipsets is left reversed |
| `QueuePolicy.GrowthLeaves` | internal/pkg/message/policy.go:58-118 | when the chain only grows, handling succeeds if and only if no secp message comes with a higher nonce than the first message left of its sender, and then every list keeps what the secp messages leave, unless that is too old |
| `QueuePolicy.ChangeLeaves` | internal/pkg/message/policy.go:58-118 | for any change of chain: it succeeds if and only if all messages can be loaded, no mined one comes with a higher nonce than the first message left of its sender, and the abandoned ones of every sender step down from what is left; then every list has them in front of that, stamped with the height, unless it is too old |
| `QueuePolicy.QueueIsTrimmedIff` | internal/pkg/message/policy.go:58-118 | so a list becomes what it is meant to, with what is mined in either list gone, if and only if the secp lists leave nothing of it, the first message they leave is in no list, or it is too old either way |
| `QueuePolicy.BlsListIsKept` | internal/pkg/message/policy.go:58-118 | where blocks are split as they are generated, the list of a BLS sender is left as it is, unless too old |
| `QueuePolicy.MinedBlsMessageIsQueued` | internal/pkg/message/policy.go:66-85 | a concrete BLS message, mined and still queued |
| `QueuePolicy.RequeueAllIff` | internal/pkg/message/policy.go:88-109 | abandoned messages go back if and only if those of every sender come in descending order of nonces, down from the head of its list |
| `QueuePolicy.AscendingNoncesAreNotRequeued` | internal/pkg/message/policy.go:88-109 | two successive nonces of one sender in ascending order, as a block has them, are never requeued |
| `QueuePolicy.Reverse` | internal/pkg/chain/util.go:8-14 | reverses in place |
| `MessagePool.EveryRunKeepsPool` | internal/pkg/message/pool.go:65-172 | in every run: one message for each sender and nonce, no more than allowed, each valid when it was added and tagged with the height it was added at |
| `MessagePool.Pool.Add` | internal/pkg/message/pool.go:65-88 | nothing for a message already there; an error for a full pool, a pair in use or an invalid message; the index of pairs stays the image of the messages |
| `MessagePool.Pool.Remove` | internal/pkg/message/pool.go:117-127 | the message and its pair |
| `MessagePool.Pool.PendingBefore` | internal/pkg/message/pool.go:144-155 | exactly the messages added below the height |
| `MessagePool.AllAddedOrRefused` | internal/pkg/message/pool.go:65-172 | each of many messages offered ends up in the pool unless the pool is full, holds another one of that sender and nonce, or it is not valid |
| `MessageInbox.Inbox.HandleNewHead` | internal/pkg/message/inbox.go:70-122 | messages in secp lists of abandoned blocks added, those of new blocks removed, old ones timed out; nothing removed if collections are missing; nothing timed out, and an error, if and only if walking back comes to a missing parent |
| `MessageInbox.SettledFacts` | internal/pkg/message/inbox.go:70-152 | no message loaded from the new chain and none below the minimum height is left; all others stay; only valid abandoned messages are gained, and all of those but ones a pool may refuse; they are not timed out |
| `HeadHandling.MinedStaysIff` | internal/pkg/message/inbox.go:95-115 | a pooled message mined in the new tipsets stays if and only if it is in BLS lists alone and not timed out |
| `HeadHandling.MinedBlsMessageStays` | internal/pkg/message/inbox.go:95-115 | a concrete BLS message, mined and still pooled |
| `HeadHandling.AbandonedReturns` | internal/pkg/message/inbox.go:76-93 | what comes back from the abandoned chain was in a secp list, and all of that comes that is not mined again and not refused |
| `MessageInbox.TimeoutMessages` | internal/pkg/message/inbox.go:129-152 | drops exactly what was added below the height of the tipset `maxAge` back, or of the last one; an error if and only if a parent is missing before that |
| `MessageInbox.TimeoutFromLowestIff` | internal/pkg/message/inbox.go:129-152 | counted from the lowest new tipset instead of the head, the height is the same if and only if there is one new tipset or the chain is within the age |
| `HeadHandling.HeadHandler.HandleNewHead` | internal/pkg/message/handler.go:28-51 | a head undefined or not new is ignored; without a common ancestor nothing changes; otherwise queue and pool are brought over the difference of the chains and the head is followed, whatever fails in them |
| `HeadHandling.TimeoutIsPromisedIff` | internal/pkg/message/handler.go:28-51 | the pool gets the new tipsets in the order the queue policy left them in, so messages time out at the height promised if and only if one tipset came at once or the chain is within the age |
| `HeadHandling.ThreeAtOnceTimeOutLate` | internal/pkg/message/handler.go:28-51 | a concrete change by three tipsets for which they do not |
| `HeadHandling.PoolIsCleanIff` | internal/pkg/message/handler.go:28-51 | in every run of messages coming in, judged by whatever validator, and heads moving, the pool is clean of messages on the chain of the moment throughout if and only if none taken in or restored is on it and no BLS message stays that new tipsets mine; and clean of what is in secp lists if and only if none taken in or restored is in one |
| `HeadHandling.PoolNeverHoldsMinedSecp` | internal/pkg/message/handler.go:28-51 | so with a validator that turns away what is on the chain, the pool never holds a message in a secp list of it |
| `HeadHandling.UnappliedIsPooled` | internal/pkg/consensus/validation.go:131-154 | the validator of the node is not one: a concrete message in a block, not applied since its sender had spent what it needs, is taken into the pool later |
| `Ingestion.UnappliedIsIngested` | internal/pkg/consensus/expected.go:298-321 | two blocks right by themselves, of which one leaves the second message of the other rejected for good, and a state soon after in which it is valid again |
| `Ingestion.IngestsIff` | internal/pkg/consensus/validation.go:131-154 | the pool takes a message of a known sender if and only if it could be applied now, but for the room in a block and a nonce up to the gap ahead |
| `Ingestion.IngestsUnknownIff` | internal/pkg/consensus/validation.go:131-154 | of a sender without an actor, if and only if it can cost nothing; and never while the address book is broken |
| `HeadHandling.ChangeLeavesNoneMinedIff` | internal/pkg/message/inbox.go:70-152 | the same for one change of chain |
| `HeadHandling.HandledIsPoolAfter` | internal/pkg/message/inbox.go:70-122 | what the handler does to the pool, when nothing is missing, is a step of such a run: restored messages are tagged with the height of the lowest new tipset, and those below the height `maxAge` back from it time out |
| `MinedMessages.LoadMessages` | internal/pkg/message/inbox.go:95-112 | the secp messages of all blocks in order, up to the first collection missing |
| `MinedMessages.OfTipsMembers` | internal/pkg/message/inbox.go:95-112 | those are the messages mined in secp lists |
| `MinedMessages.LoadedInOrder` | internal/pkg/message/inbox.go:95-112 | tipset by tipset and block by block, in the order given |
| `ChainStore.ReloadAfterEveryRun` | internal/pkg/chain/store.go:138-203 | after every run of tipsets put and heads set, where the chain of the head was put and leads back to genesis: the datastore loads with the same head and the same metadata for every ancestor if and only if each of those was accepted when put last |
| `ChainStore.LoadsTheSameIff` | internal/pkg/chain/store.go:138-203 | the same for any state in which what was accepted is stored |
| `ChainStore.Store.Load` | internal/pkg/chain/store.go:138-203 | succeeds if and only if the stored head leads back, over tipsets whose states are stored, to the genesis block alone; then exactly that chain is indexed; the datastore does not change |
| `ChainStore.PersistedIff` | internal/pkg/chain/store.go:243-409 | after every run, index and datastore agree if and only if, under each key, the metadata put last were accepted |
| `ChainStore.Reopen` | internal/pkg/chain/store.go:138-203 | after every run that left the chain of its head accepted, a new store on the same datastore loads, with the same head, and with exactly the chain of the head indexed, each tipset with the state root and receipts put last |
| `ChainStore.RefusedMetadataIsIndexed` | internal/pkg/chain/store.go:243-255 | metadata refused for a missing root is indexed all the same, and then they do not agree |
| `ChainStore.Store.PutTipSetMetadata` | internal/pkg/chain/store.go:243-255 | index first, datastore second; accepted exactly with a defined tipset and both roots |
| `ChainStore.Store.SetHead` | internal/pkg/chain/store.go:323-380 | head in memory and in the datastore; published only if it is new and defined |
| `ChainStore.StateKeysAreDistinct` | internal/pkg/chain/store.go:384-409 | no two tipsets share a key of the datastore, nor does one with the head |
| `StoreKeys.MakeKeyInjective` | internal/pkg/chain/tip_index.go:159-161 | different keys or heights have different names |
| `TipIndexes.TipIndex.Put` | internal/pkg/chain/tip_index.go:56-81 | both indexes hold the new entry and agree |
| `TipIndexes.TipIndex.Get` | internal/pkg/chain/tip_index.go:84-92 | what was put last under the key |
| `TipIndexes.TipIndex.GetByParentsAndHeight` | internal/pkg/chain/tip_index.go:132-145 | exactly the entries with these parents and this height |
| `AttoFil.PrintThenParse` | internal/pkg/types/atto_fil.go:87-112 | for every amount, negative ones too, the printed string is parsed to it |
| `AttoFil.PrintIsInjective` | internal/pkg/types/atto_fil.go:198-204 | different amounts print differently |
| `AttoFil.PrintIs` | internal/pkg/types/atto_fil.go:198-204 | the text: whole FIL without leading zeroes, decimals without trailing ones; a negative amount below one FIL has no zero between the sign and the point |
| `AttoFil.DecimalsAreRead` | internal/pkg/types/atto_fil.go:87-105 | 10^18 units for each whole FIL and the decimals by their place, with or without a sign; more than eighteen decimals are an error |
| `AttoFil.NewAttoFILFromFILString` | internal/pkg/types/atto_fil.go:87-105 | trimming, splitting, padding and parsing compute `FromString` |

## Left out

- Networking, syncing, the command line, repository files, configuration, metrics, tracing and logging.
- Signatures, proofs, elections and the block validator: foreign code, or easy.
- CBOR and IPLD encoding, the HAMT below the state tree, and CID hashing: identities here.
- The built-in actors: parameters, with what is needed of them.
- Mutexes, goroutines and channels: each locked method is one step, and the fault channel is a list. Cancelled contexts.
- Gas for creating an actor on demand: it is charged to a tracker that is thrown away.
- Panics of the VM, as for the invalid method id: faults here.
- The chain clock, protocol versions, the peer tracker and sampling: sound, but much easier.
- Loading of messages is separated from what is done with each of them, since it changes nothing.
- `sort.Slice` is a sort of some kind, and the heap is the one of `container/heap`.
- The check of a message's signature on receipt: it is taken to be right.
- RlePlus.Encode: lists are shorter than 2^63, as slices in Go are.
- Slashing.ConsensusFaultDetector.CheckBlock: heights are below 2^64 - 1, because at that height the loop over epochs does not end.
- FixedPoint.WholeWeightIff: says when a weight is exact for parent weights without thousandths; with thousandths that is said below 2^53 only, by FixedPoint.WeightIsExact, because no chain makes them.
- OutboundQueue.RemoveMinedLeavesUnmined: for lists that do not pass 2^64 - 1, where lower and higher nonces are what they seem; OutboundQueue.RemoveMinedIff is for all.
- QueuePolicy.QueueIsTrimmedIff: for a list that does not pass 2^64 - 1, and blocks that skip no nonce of it.
- ForkChoice.WeightIs: for whole parts below 2^53, as is ForkChoice.MoreBlocksAreHeavier; beyond that FixedPoint.WholeWeightIff says when a weight is exact.
- OutboundQueue.NextNonceIsLeast: for lists that do not reach 2^64 - 1; OutboundQueue.NextNonceIsQueuedIff is for all.
- Slashing.CaughtIff: for blocks higher than their parents, as block validation demands.
- RunTheorems.ResultsIff: for actors that keep the negative-transfer error inside, as for rejections.
- BlockGas.BlockGasIsBounded: for calls of at most 10^12 charges, each below 2^63, so that no 64-bit sum wraps.
- HeadHandling.PoolIsCleanIff: for heads whose messages can be loaded; if they cannot, the head is followed and mined messages stay.
