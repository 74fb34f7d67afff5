# A verified model of the ACCUM node

The repository is a proof-of-contribution blockchain node in Rust. This project models its state machines and its
arithmetic in Dafny and proves what they keep. `dafny verify dfyconfig.toml` checks everything.

## What is modelled

- **Ledger.** `Validation`, `Mempool`, `Blocks`, `Payouts` and `Ledger` hold transaction validation, admission and
  eviction, block assembly, the update of the unspent outputs, and the epoch end that pays rewards and moves
  loyalty. `NodeState.Node` is the object whose fields these operations change; each of its methods is proved equal
  to a step of `Ledger`. `LedgerSafety`, `LedgerExactness`, `OrdinaryRuns`, `MarkedTransactions`, `MarkedRuns`,
  `Resubmission`, `EpochAccounts` and `JointShares` are about all runs of these steps. `Accounting` and `Sums` carry the
  reasoning about totals of maps. `LibraryTransactions` is the in-memory twin in `transaction.rs`.
- **What the steps amount to.** These modules say what the operations do in terms of their inputs and outputs alone:
  `Refusals` and `Admission` which transactions are refused, and why; `UnspentOutputs` and `Balances` what a block
  leaves unspent and whose it is; `EpochPayments` whom an epoch end pays; `NodeLog` bonds and shares as a log of steps;
  `RewardFormula` the contribution index and the rewards; `SyncAcceptance` which blocks of a call are accepted;
  `RateVerdicts` which calls are; `MerkleShape` and `Layouts` which bytes are hashed and sent; `ArrivalOrder` which
  shares a pool keeps.
- **Share pools and commitments.** `Merkle` has both tree loops (pairing a last odd node with itself, and promoting
  it), `SortedHashes` the commitment to a set, `PoolIndex` what the three pools share, `EpochShareStore`,
  `NodeSharePool` and `PersistentPool` the three classes, and `NodePoolRuns` and `PersistentPoolRuns` their runs.
- **Chain and time.** `ChainSync` is block acceptance during synchronisation, `BlockContents` what the hashes of a chain
  say about the transactions in it, `MedianTime` and `EpochLifecycle` the median rule and the epochs.
- **Targets and encodings.** `Targets`, `CompactTargets`, `Codec`, `TxEncoding`, on the byte strings of `Bytes`.
- **Registries.** `BondRegistry`, `RateLimiter`, `Loyalty`, `Rewards`.

Hashes, signature checks, the clock, payout addresses and the square root are parameters. A hash is any function to
32 bytes; where a result needs that hashes do not collide, it asks for that among the byte strings actually hashed, by
`CollisionFree`. `f64` is `real`, and `sqrt` is any function that is not negative and keeps the order. Integers are
unbounded except where the width matters: the wrapping 64-bit sums of `validate_basic`, `fee` and `get_balance`
(release builds wrap), the checked sums of `validate`, the saturating conversion of rewards to 64-bit amounts, the
fixed-width length prefixes and the one-byte script lengths.

A run of the ledger is any list of steps from genesis. `Lawful` asks of it only that submitted transactions have lists
shorter than 2^32, as their four-byte prefixes need, and that an epoch end pays the results that its inputs determine,
in whatever order the map gives them. The address that other miners are paid to is a parameter; the code never sets
one, so that it pays only the node's own rewards and the others are lost.

## What the proofs found

- A submitted transaction marked as a coinbase is admitted without inputs or fee (`MarkedAdmittedIff` says exactly when)
  and creates from nothing whatever outputs of it are not unspent already. `SupplyOfEveryRun` is the exact total over all
  runs, such submissions included, and `NextBlockMoves` the exact move of one block. A block whose own coinbase is not a
  copy of an unspent one adds just its reward less the fees exactly if its marked transactions only rewrite unspent
  outputs (`BlockAddsRewardIff`). `MarkedRunPassesTheBound` is a two-step run past the supply bound; `CopyCreatesNothing`
  is a run in which the node's own coinbase is submitted again, admitted and mined, and creates nothing. `SupplyBound`
  and `SupplyExact` are for runs without marked submissions, and `EveryRunIsOk` is for all runs.
- That ordinary transactions and rewards never overwrite an output, and coinbases only a marked copy of themselves, needs
  no assumption on outpoints: it is derived from collision-freeness.
- A block drops every waiting transaction, also those it had no room for, while their identifiers stay on record, so
  they are never admitted again: `WaitingOnceIsRefusedAfterwards`.
- The error for a transaction that is in the pool already never occurs, since waiting identifiers are on record as
  processed: `NeverInMempool`.
- The first block that the node mines links to the genesis hash, but synchronisation accepts a block at height 1 only
  with an all-zero previous hash: `GenesisChildIsRefused`.
- A Merkle root alone does not determine its leaves: `RootIsNotInjective`. `RootsEqualIff` says exactly which lists share
  a root. Share commitments do determine the shares, whatever their number, because a share is no pair of nodes:
  `CommitmentDeterminesShares`. Blocks do not: a block may repeat the end of its list under the same header. But the
  repetition has no effect, so that nodes that agree on the last hash agree on all unspent outputs:
  `BlockRootsEqualIff`, `FilledHasSameEffect`, `SameTipSameOutputs`.
- The persistent pool knows a share by the work hash its sender wrote into it. Its commitment converges all the same, but
  its stored shares only if no two packets carry one hash: `SharesConvergeIff`.
- A share refused because its miner is at the limit has evicted another one first exactly when memory was full:
  `RefusedKeepsSharesIff`; `RefusedShareEvicts` is a run in which that happens.
- `compact` indexes past the end of the target when the first non-zero byte is one of the last two, and at index 29 the
  recovered target is 256 times too large: `CompactWorksIff`, `RoundTripShiftsAt29`. `ExpandedValue` says which number
  each word stands for: with an exponent of 1 to 3 it is one byte too high.
- `parse_script_sig` recovers what `sign` wrote exactly for a signature of 1 to 255 bytes and a key of at most 255:
  `ScriptSigRoundTripIff`.
- `calculate_rewards` takes any index, and with a negative one it gives out more than its pool:
  `NegativeIndexPassesThePool`. Before rounding it keeps to the pool exactly if no index has the sign opposite to their
  sum: `FeesWithinIff`.
- The branch of the loyalty decay that takes half of the whole part is never the larger one: `DecayIsLinear`.
- A miner that shares in every epoch never decays, since the share that credits an epoch comes before its end:
  `FirstShareCreditsOne`, `EpochEndDecaysAbsentOnce`.
- The node's validation accepts an ordinary transaction exactly when the library's does and three further conditions
  hold: `NodeIsStricter`.
- Documentation that speaks of hashes below a target means at or below in the code; and the documented
  formula for the blocks of an epoch starts one epoch late, while the code's epoch e, like the documented examples, covers
  the heights from (e - 1) * 1440. The model follows the code.

## Model

| member | source | states |
|---|---|---|
| LedgerSafety.EveryRunIsOk | accum-node/src/main.rs:5303-5980 | every run of submissions, bonds, shares and blocks keeps the pool invariant, epoch = 1 + height / 1440, loyalty within bounds, the total within genesis + rewards + payouts + marked outputs - fees, and payouts within 720,000,000 for each full epoch |
| LedgerSafety.SupplyBound | accum-node/src/main.rs:5303-5903 | with no coinbase-marked submission the unspent outputs never total more than 500,000,000 + 500,000 h + 720,000,000 (h / 1440) |
| OrdinaryRuns.SupplyExact | accum-node/src/main.rs:5303-5903 | unless hashes collide, the total is exactly genesis + block rewards + rewards paid - all fees, over every run without a marked submission |
| LedgerExactness.SupplyOfEveryRun | accum-node/src/main.rs:5303-5903 | unless hashes collide, and whatever is submitted, the total is exactly genesis + block rewards + rewards paid + what marked transactions created - all fees - what was overwritten |
| LedgerExactness.SeparateFromCollisionFree | accum-node/src/main.rs:1542-1571 | different transactions and rewards have different identifiers when hashes do not collide |
| OrdinaryRuns.NextBlockWritesNewOutputs | accum-node/src/main.rs:5535-5750 | after every run without a marked submission, the identifiers of the next block are distinct and no unspent output has one |
| LedgerExactness.BlockKeepsValues | accum-node/src/main.rs:5788-5802 | a transaction that writes over an unspent output writes the value that is there |
| LedgerExactness.EpochIsFree | accum-node/src/main.rs:5823-5870 | the outpoints an epoch end pays to are not unspent, on any run, and are distinct |
| LedgerSafety.EveryBlockSpendsOnce | accum-node/src/main.rs:5558-5568 | after every run, the next block contains no transaction twice, spends no output twice and only outputs that are there |
| LedgerSafety.BlockHasNoDuplicates | accum-node/src/main.rs:5689-5701 | the duplicate check before storing a block never fires on a block assembled from a sound pool |
| LedgerSafety.MineKeeps | accum-node/src/main.rs:5722-5751 | storing a block, with or without an epoch end, keeps the state invariant and raises the height by one |
| LedgerSafety.BlockMoves | accum-node/src/main.rs:5735-5745 | a stored block moves the total by at most reward + marked outputs - fees, and by that less what is overwritten when no unspent output changes its value |
| LedgerSafety.EpochMoves | accum-node/src/main.rs:5804-5880 | an epoch end moves the total by at most what it pays, exactly so when nothing is overwritten |
| MarkedTransactions.MarkedAdmittedIff | accum-node/src/main.rs:1643-1646 | a coinbase-marked transaction is admitted exactly when its outputs pass and its identifier is new |
| MarkedTransactions.BlockMovesBy | accum-node/src/main.rs:5558-5568 | a block moves the total by exactly reward - fees + marked outputs - what it overwrites, which is at most the reward and the marked outputs |
| MarkedTransactions.BlockAddsRewardIff | accum-node/src/main.rs:5558-5568 | a block whose coinbase output is not unspent already adds exactly the reward less the fees if and only if each marked transaction in it only rewrites outputs unspent at its turn |
| MarkedTransactions.NextBlockMoves | accum-node/src/main.rs:5558-5568 | both of these for the block after every run, if the strings hashed do not collide |
| MarkedTransactions.OverwrittenIff | accum-node/src/main.rs:5788-5802 | transactions overwrite at most what the marked ones create, and all of it exactly if these only rewrite |
| MarkedTransactions.RewritingChangesNothing | accum-node/src/main.rs:5788-5802 | a marked transaction whose outputs are all unspent leaves the unspent outputs as they are |
| MarkedRuns.MarkedRunPassesTheBound | accum-node/src/main.rs:5303-5365 | a submission and a block from genesis pass the supply bound by any chosen value |
| MarkedRuns.CopyCreatesNothing | accum-node/src/main.rs:5738-5743 | a block, its own coinbase submitted again, and a block that takes it: the total has grown by two rewards |
| Resubmission.WaitingOnceIsRefusedAfterwards | accum-node/src/main.rs:5316-5325 | a transaction that waits when a block is mined is refused in every later state, taken or left out |
| Resubmission.SettledStays | accum-node/src/main.rs:5343-5355 | over every run, identifiers on record that are not waiting stay on record, whatever is evicted |
| JointShares.CountedAndPooled | accum-node/src/main.rs:5256-5273 | over every joint run of node and pool, a miner's counted shares are at least its pooled ones, and equal to them if nothing was evicted in the epoch |
| EpochAccounts.EveryRunInStep | accum-node/src/main.rs:5197-5293 | over every run each miner's score is of this epoch if it has shares in it and of the previous one otherwise, and its counted bond is the recorded one, at least the minimum and locked for 20160 blocks |
| EpochAccounts.FirstShareCreditsOne | accum-node/src/main.rs:5261-5273 | the first share of an epoch raises loyalty by exactly one, later ones by nothing |
| EpochAccounts.EpochEndDecaysAbsentOnce | accum-node/src/main.rs:5935-5948 | the block ending an epoch leaves a sharing miner's loyalty and multiplies an absent one's once, by 0.5 under grace and else by 0.7 |
| NodeState.Node.constructor | accum-node/src/main.rs:5066-5110 | the genesis state: one output of 500,000,000, epoch 1 |
| NodeState.Node.SortMempoolByFee | accum-node/src/main.rs:5295-5301 | afterwards the fees descend, nothing was added or lost, and transactions of one fee are in the order they were |
| NodeState.Node.AddTransactionToMempool | accum-node/src/main.rs:5303-5365 | the error of the first failing check, or the pool with the transaction in place and the lowest fees cut off, and nothing else changed |
| Admission.OutcomeIff | accum-node/src/main.rs:5303-5365 | a submission is admitted exactly if it validates, its identifier is new and no unmarked input of it has the outpoint of one of a waiting transaction; else the first of the four errors that applies |
| Admission.PoolAfterwards | accum-node/src/main.rs:5342-5356 | below the limit all that waited and the new one wait afterwards; at it one of lowest fee is gone, and only its identifier goes off the record |
| Admission.DisjointBothWait | accum-node/src/main.rs:5303-5365 | two valid ordinary transactions without a common input, with new identifiers that differ, wait together after both submissions |
| Admission.NeverInMempool | accum-node/src/main.rs:5314-5325 | on a sound pool the error for a transaction that waits already never occurs, because waiting identifiers count as processed |
| Refusals.RefusedIff | accum-node/src/main.rs:1613-1682 | validation refuses a transaction with an error exactly when that is the error of the first check it fails, input by input |
| NodeState.Node.EvictLowest | accum-node/src/main.rs:5349-5355 | the pool is cut at the limit and the identifiers of what is cut go off the record |
| NodeState.Node.AddBond | accum-node/src/main.rs:5197-5219 | too small a bond changes nothing, another replaces the miner's bond and its counted amount |
| NodeLog.EveryRunBonds | accum-node/src/main.rs:5197-5219 | on every run the bond on record is the miner's last deposit of at least 10,000,000, locked for 20160 blocks from the height it was made at |
| NodeLog.ActiveIffLocked | accum-node/src/main.rs:5197-5219 | on every run a bond is active exactly while that deposit holds, and one made now is active now |
| NodeState.Node.AddShare | accum-node/src/main.rs:5221-5280 | a share counts exactly when the bond is active and the remaining checks pass, and then credits the miner's loyalty |
| NodeLog.EveryRunShares | accum-node/src/main.rs:5221-5280 | on every run the counted shares are the accepted ones of this epoch that were offered while the miner's deposit held |
| NodeLog.ShareWithoutDeposit | accum-node/src/main.rs:5221-5280 | a share of a miner whose deposit does not hold, or that is not accepted, changes nothing |
| NodeState.Node.MineBlock | accum-node/src/main.rs:5534-5750 | the state after a block, an unsuccessful search, or no wallet, is the ledger's step; the results paid are those of the epoch's inputs |
| Balances.NextBlockLeavesReward | accum-node/src/main.rs:5534-5750 | after every run without a marked submission the next block leaves an unspent output of 500,000 to the wallet's script that was not there, unless hashes collide |
| Balances.NextBlockBalances | accum-node/src/main.rs:5534-5750 | and moves the balance of every script by what its transactions give it less what they take, and the wallet's by 500,000 more |
| Balances.EmptyBlockBalances | accum-node/src/main.rs:5534-5750 | with nothing waiting the wallet's balance rises by 500,000 and no other moves |
| Resubmission.MiningEmptiesPool | accum-node/src/main.rs:5720-5746 | on every run a block empties the pool, leaves the record of identifiers as it was and raises the height by one |
| NodeState.Node.StoreFound | accum-node/src/main.rs:5684-5751 | a found block is refused for duplicates without change, or stored, and the epoch ends with it if it is its last |
| NodeState.Node.StoreBlock | accum-node/src/main.rs:5720-5746 | the block's share is offered at the old height, then height, outputs and record move and the pool is emptied |
| NodeState.Node.FindDuplicates | accum-node/src/main.rs:5689-5701 | found exactly when two ordinary transactions of the block share an identifier |
| NodeState.Node.UpdateUtxoSet | accum-node/src/main.rs:5788-5802 | the unspent outputs after the block's transactions are applied in order |
| UnspentOutputs.UnspentIff | accum-node/src/main.rs:5788-5802 | an output is unspent after a list of transactions exactly if one of them made it, or it was unspent before, and neither that one spends it nor a later one writes or spends it |
| Balances.BlockMovesBalances | accum-node/src/main.rs:5788-5802 | transactions that write only new outputs move every script's balance by what they give it less what they take from it |
| NodeState.Node.ProcessEpochEnd | accum-node/src/main.rs:5804-5980 | rewards paid in result order, loyalty of every miner updated for the completed epoch, shares reset, epoch advanced |
| EpochPayments.EpochEndPays | accum-node/src/main.rs:5823-5870 | with free outpoints each result is paid at the hash of tag, height, epoch and miner: the reward to the node's own script for the node, to the miner's address for another that has one, nothing for the rest; and nothing else changes |
| EpochPayments.EveryEpochEndPays | accum-node/src/main.rs:5804-5980 | the same of the block that ends an epoch on every run, unless hashes collide |
| Ledger.AfterMineIsMined | accum-node/src/main.rs:5722-5751 | what is on the ledger does not influence the step, so the results on runs are about what the node's methods do |
| Mempool.AdmitKeepsPool | accum-node/src/main.rs:5303-5365 | every admission keeps the pool valid, pairwise disjoint in inputs, distinct and recorded in identifiers, sorted by fee and within the limit |
| Mempool.EvictsLowestFees | accum-node/src/main.rs:5349-5355 | nothing evicted pays more than anything kept |
| Mempool.SortIsStable | accum-node/src/main.rs:5295-5301 | the insertion order the pool is specified by is a stable descending sort |
| Mempool.StableOrderIsUnique | accum-node/src/main.rs:5295-5301 | there is only one stable descending order, so any stable sort gives it |
| Mempool.SortSorts | accum-node/src/main.rs:5295-5301 | the sort is a descending permutation |
| Mempool.InsertPlace | accum-node/src/main.rs:5295-5301 | a new transaction goes behind all with at least its fee and before all with less |
| Mempool.FeeInIsFee | accum-node/src/main.rs:1684-1709 | the sort key of a valid transaction is the fee that validation computed |
| Validation.ValidateBasic | accum-node/src/main.rs:1613-1641 | the first failing check in order, with the sum of the outputs wrapping at 64 bits |
| Validation.ValidateTx | accum-node/src/main.rs:1643-1682 | the verdict and fee of the scan over the inputs, with checked sums |
| Validation.ValidIff | accum-node/src/main.rs:1613-1682 | a transaction passes with a fee exactly when it is well formed and is marked as a coinbase, or unlocks unspent outputs that exceed its own by that fee, at least 50 |
| Validation.SpentIsSumIn | accum-node/src/main.rs:5788-5802 | what deleting the inputs takes from the set is the input sum that validation computed |
| Accounting.Balance | accum-node/src/main.rs:5788-5802 | applying writes and deletions in order leaves at most the total before less what is spent plus what is created |
| Accounting.BalanceExact | accum-node/src/main.rs:5788-5802 | it leaves exactly that less what is overwritten, when nothing is spent twice and no write changes a value |
| Accounting.ApplyMoves | accum-node/src/main.rs:5789-5800 | without any condition, one transaction moves the total by what it creates, less what it writes over and deletes |
| Blocks.SelectedIsLongest | accum-node/src/main.rs:5558-5568 | the transactions put in a block are the longest prefix of the pool that keeps it within 1,000,000 bytes |
| Blocks.AssembleBlock | accum-node/src/main.rs:5551-5568 | the block is the coinbase of the next height and that prefix |
| Layouts.SizeIsLength | accum-node/src/main.rs:1711-1713 | the size a transaction counts with is the length of its encoding with eight-byte list lengths |
| Blocks.WriteTx | accum-node/src/main.rs:5789-5800 | output by output and input by input, the outputs are written and the inputs deleted |
| Blocks.MinedBlockBalance | accum-node/src/main.rs:5735-5745 | a coinbase and valid compatible transactions change the total by at most reward + marked outputs - fees, and by that less what is overwritten |
| Payouts.PayBalance | accum-node/src/main.rs:5823-5870 | paying raises the total by at most the rewards with a payable address, exactly when the outpoints are free |
| Payouts.PaidBound | accum-node/src/main.rs:5808-5870 | one epoch end pays at most 720,000,000 |
| Payouts.RewardBytesDiffer | accum-node/src/main.rs:5822-5829 | reward identifiers of different heights or miners are hashed from different bytes |
| LibraryTransactions.LibValidIff | accum-node/src/transaction.rs:112-178 | the library accepts an ordinary transaction exactly when its inputs are distinct and unspent and the fee is what they exceed its outputs by |
| LibraryTransactions.LibCoinbaseIff | accum-node/src/transaction.rs:112-126 | it accepts a coinbase, at no fee, exactly when it has outputs, all of at least 100 |
| LibraryTransactions.NodeIsStricter | accum-node/src/main.rs:1613-1682 | the node accepts what the library accepts, at the same fee, exactly when there is an output, the supply limit holds and all inputs are unlocked |
| LibraryTransactions.BalanceMoves | accum-node/src/transaction.rs:189-211 | adding an output raises its own script's balance only, and spending it restores the set |
| LibraryTransactions.UTXOSet.AddOutput | accum-node/src/transaction.rs:189-191 | the outpoint maps to the output, all others stay |
| LibraryTransactions.UTXOSet.SpendInput | accum-node/src/transaction.rs:196-200 | the output is removed and returned, or nothing is there |
| LibraryTransactions.UTXOSet.GetBalance | accum-node/src/transaction.rs:205-211 | the sum over the outputs with the script, in any order, modulo 2^64 |
| LibraryTransactions.UTXOSet.Validate | accum-node/src/transaction.rs:112-178 | the first failing check of the library, coinbases apart |
| Merkle.RootLoop | accum-node/src/share.rs:233-264 | the level-by-level loop computes the recursive root, all zero for no leaves |
| MerkleShape.RootOfHalves | accum-node/src/main.rs:4183-4208 | the root of two full trees of one height is the hash of the left root's bytes followed by the right root's |
| MerkleShape.RootOfOddBlocks | accum-node/src/main.rs:4183-4208 | a list of an odd number of blocks of 2^k leaves has the root of the list with its last block repeated |
| MerkleShape.PromotedRootOfParts | accum-node/src/pool.rs:12-38 | the promoting root of a full tree and at most as many more leaves is the hash of the two roots, left before right |
| Merkle.RootDeterminesDistinctLeaves | accum-node/src/share.rs:233-264 | duplicate-free lists with trees of one height have equal roots exactly when equal |
| Merkle.RootDeterminesLeavesOfKnownNumber | accum-node/src/main.rs:4183-4208 | lists of one length have equal roots exactly when equal |
| Merkle.RootsEqualIff | accum-node/src/main.rs:4183-4208 | for lists of any lengths, exactly which share a root: the leaves of the lower full tree are the nodes of the higher one at that height |
| Merkle.RootsEqualIffSameTree | accum-node/src/main.rs:4183-4208 | when no leaf can be an inner node, lists share a root exactly when they fill the same full tree |
| Merkle.RootOfFilled | accum-node/src/share.rs:233-264 | a list has the root of the full tree it fills, under every hash function |
| Merkle.RootIsNotInjective | accum-node/src/block.rs:155-186 | a repeated last leaf, or a leaf that is an inner node, gives two lists with one root |
| Merkle.PromotedRootDeterminesLeaves | accum-node/src/pool.rs:12-38 | the odd-node-promoting root is injective on lists of one length |
| SortedHashes.CollectSorted | accum-node/src/main.rs:2903-2910 | a hash set collected in any order sorts to its one ascending list |
| SortedHashes.CommitmentBinds | accum-node/src/share.rs:233-264 | two share sets with trees of one height have the same commitment exactly when they are the same set |
| SortedHashes.CommitmentOfSources | accum-node/src/share.rs:233-264 | sets of hashes of strings that are no pairs of nodes have the same commitment exactly when equal, whatever their sizes |
| SortedHashes.PromotedCommitmentBinds | accum-node/src/pool.rs:180-197 | the persistent pool's commitment determines the set among sets of one size |
| EpochShareStore.EpochShares.AddShare | accum-node/src/share.rs:179-198 | a known share or one over the limit is refused and changes nothing, another is appended |
| EpochShareStore.EpochShares.Clear | accum-node/src/share.rs:226-229 | nothing is stored afterwards |
| EpochShareStore.EpochShares.CalculateMerkleRoot | accum-node/src/share.rs:233-264 | the commitment to the stored hashes |
| EpochShareStore.CommitmentDeterminesShares | accum-node/src/share.rs:233-264 | two non-empty share sets, of any sizes, have the same commitment exactly when they are the same set |
| EpochShareStore.GossipConverges | accum-node/src/share.rs:179-264 | the same shares in any order and repetition give the same stored shares, counts per miner and root |
| ArrivalOrder.OffersInOrder | accum-node/src/share.rs:179-198 | each miner's list is all of its added shares in order of arrival; a share is added unless it is known or its miner has 5000 |
| NodePoolRuns.NodePoolsConverge | accum-node/src/main.rs:2826-2930 | two runs of AddShare over the same valid packets of the epoch, below the limits, in any order, with repetitions and with invalid or late shares between, end with the same packets and count per miner, the same hashes and the same root |
| NodePoolRuns.RunStores | accum-node/src/main.rs:2826-2862 | such a run stores exactly the valid packets of the epoch, each once, with exact counters and memory |
| NodePoolRuns.RunIsSound | accum-node/src/main.rs:2826-2893 | every run of AddShare, within the limits or not, keeps all indexes in agreement |
| NodePoolRuns.RefusedShareEvicts | accum-node/src/main.rs:2846-2862 | after ten thousand shares of two miners a full pool refuses one more and has lost one to it |
| NodeSharePool.AddedIsOffered | accum-node/src/main.rs:2826-2862 | adding a share that is known, or that both limits leave room for, is the step that convergence is about |
| NodeSharePool.RefusedKeepsSharesIff | accum-node/src/main.rs:2846-2862 | a share refused at the per-miner limit leaves the stored shares as they were exactly when memory had room, and costs exactly one otherwise |
| NodeSharePool.RoomSound | accum-node/src/main.rs:2846-2893 | counting a share and evicting for it keep all indexes in agreement |
| NodeSharePool.SharePool.EvictOldest | accum-node/src/main.rs:2868-2893 | the oldest share of a miner with the most shares goes, with its hash, count and memory |
| NodeSharePool.SharePool.AddShare | accum-node/src/main.rs:2826-2862 | wrong epoch, known, invalid, refused at the limit or stored, with the whole new state of each, and all indexes in agreement |
| ArrivalOrder.NodeArrival | accum-node/src/main.rs:2826-2893 | what one arrival does to every list: short of memory, a miner with the most shares loses its first one, and the share goes to the end of its miner's list if fewer than 5000 are left there |
| ArrivalOrder.NodeKeepsLatest | accum-node/src/main.rs:2826-2893 | over every run, within the limits or not, each miner's list is the end of the list of its added shares |
| ArrivalOrder.NodeCountsArrivals | accum-node/src/main.rs:2826-2893 | over every run the counters are the arrivals of the epoch that were not stored at the time, and the invalid ones among them |
| NodeSharePool.SharePool.NewEpoch | accum-node/src/main.rs:2932-2941 | everything is cleared and the epoch advances |
| NodeSharePool.SharePool.CalculateMerkleRoot | accum-node/src/main.rs:2903-2930 | the commitment to the stored hashes |
| PoolIndex.FindLargest | accum-node/src/main.rs:2868-2877 | a miner with the most shares, if anything is stored |
| PoolIndex.PoppedSound | accum-node/src/main.rs:2868-2893 | evicting keeps hash set, counters, tallies, epoch and memory counter in agreement |
| PoolIndex.PushedSound | accum-node/src/main.rs:2852-2862 | appending keeps them in agreement and within the memory limit |
| PoolIndex.SameSharesSamePool | accum-node/src/share.rs:179-198 | offering the same set of shares in any order and repetition stores the same shares |
| PersistentPool.PersistentSharePool.SpillOldest | accum-node/src/pool.rs:132-157 | one oldest share of a miner with the most goes, with its hash and memory |
| PersistentPool.PersistentSharePool.AddShare | accum-node/src/pool.rs:94-130 | wrong epoch, known and full lists are refused, otherwise one spill at most makes room and the share is stored |
| ArrivalOrder.PersistentArrival | accum-node/src/pool.rs:94-157 | the same of one arrival at the pool that spills |
| ArrivalOrder.PersistentKeepsLatest | accum-node/src/pool.rs:94-157 | over every run of it each miner's list is the end of the list of its added shares |
| PersistentPool.PersistentSharePool.NewEpoch | accum-node/src/pool.rs:215-221 | everything is cleared and the epoch advances |
| PersistentPool.PersistentSharePool.ComputeMerkleRoot | accum-node/src/pool.rs:180-197 | the promoting root of the stored hashes in ascending order |
| PersistentPool.PersistentSharePool.GetSharesBatch | accum-node/src/pool.rs:235-250 | for each listed miner the page of its list at the offset |
| PersistentPool.BatchAt | accum-node/src/pool.rs:235-250 | a batch for several miners has, miner by miner in the order asked for, the stored packets from the offset on, as many as the limit allows, and nothing else |
| PersistentPool.PagesOfAllReassemble | accum-node/src/pool.rs:235-250 | asking for several miners page by page gets every packet of theirs as often as it is stored |
| PersistentPool.PagesReassemble | accum-node/src/pool.rs:235-250 | asking page by page reassembles a miner's list without loss or repetition |
| PersistentPoolRuns.CommitmentConverges | accum-node/src/pool.rs:94-197 | below the limits, two runs over the same packets of the epoch have the same hashes and root, even if packets share a work hash |
| PersistentPoolRuns.SharesConvergeIff | accum-node/src/pool.rs:94-130 | all runs over the packets store the same shares exactly if no two packets carry one work hash |
| PersistentPoolRuns.FirstWins | accum-node/src/pool.rs:94-130 | the first packet offered with a work hash is the one stored for it |
| ChainSync.SyncManager.VerifyAndAcceptBlocks | accum-node/src/main.rs:4103-4181 | the blocks before the first failing one are stored and appended, nothing of the rest, and the result names the height reached or the error |
| ChainSync.SyncManager.CheckBlock | accum-node/src/main.rs:4113-4160 | the first failing check in order, with the difficulty as a numeric comparison |
| SyncAcceptance.AcceptedIff | accum-node/src/main.rs:4103-4181 | a block of a call is accepted exactly if it and all before it link to the header before, meet their difficulty, are later than it and at most 7200 seconds ahead of the clock, have the recomputed root and no failing signature |
| SyncAcceptance.RefusedIff | accum-node/src/main.rs:4113-4160 | the error of a call is that of the first of these that the first other block lacks |
| SyncAcceptance.HashesRecorded | accum-node/src/main.rs:4163-4167 | each accepted block's hash is on record with its height, other hashes are as they were |
| ChainSync.SyncManager.ComputeMerkleRoot | accum-node/src/main.rs:4183-4208 | the root over the transactions' identifiers |
| ChainSync.Storage.UpdateUtxoSet | accum-node/src/main.rs:4210-4230 | the unspent outputs after the block's transactions are applied in order |
| ChainSync.AcceptedIsFirstFailure | accum-node/src/main.rs:4110-4180 | the number accepted is n exactly when the first n blocks pass after one another and the next, if any, fails |
| ChainSync.AcceptAllShape | accum-node/src/main.rs:4163-4167 | the headers are appended, the blocks stored at the next heights, all other heights untouched |
| ChainSync.CallKeeps | accum-node/src/main.rs:4103-4181 | after any call the local chain is the stored one, and each appended block meets its difficulty, root, link and time |
| ChainSync.EveryChainIsVerified | accum-node/src/main.rs:4103-4181 | from an empty local chain every run of calls leads to a chain verified from its first header |
| ChainSync.TipFixesChain | accum-node/src/main.rs:4113-4127 | two linked chains with one tip hash are the same chain, unless header hashes collide or are all zero |
| ChainSync.SameTipSameChain | accum-node/src/main.rs:4103-4181 | two nodes that took any calls and agree on the last header's hash agree on every header |
| BlockContents.BlockRootsEqualIff | accum-node/src/main.rs:4183-4208 | two blocks have the same root exactly when their transactions fill the same full tree |
| BlockContents.FilledHasSameEffect | accum-node/src/main.rs:4210-4230 | applying the leaves of the full tree, repetitions included, has the effect of applying the list |
| BlockContents.SameTipSameOutputs | accum-node/src/main.rs:4103-4230 | two nodes that took any calls from the same outputs and agree on the last header's hash have, at each height, blocks that fill the same tree, and the same unspent outputs |
| ChainSync.GenesisChildIsRefused | accum-node/src/main.rs:4115-4127 | a first block that links to the genesis hash is refused exactly when that hash is not all zero |
| EpochLifecycle.EpochManager.VerifyTimestamp | accum-node/src/epoch.rs:143-156 | not more than two hours ahead, and after the median of the last eleven once there are eleven |
| EpochLifecycle.EpochManager.AddBlock | accum-node/src/epoch.rs:104-126 | wrong epoch or time is refused without change; otherwise recorded, and the epoch ended at its last block |
| EpochLifecycle.TakenIff | accum-node/src/epoch.rs:104-156 | a block is taken exactly if it names the current epoch and, once eleven were taken, is later than at least six of the last eleven and less than 7200 seconds ahead; else nothing changes |
| EpochLifecycle.EveryEpochEnded | accum-node/src/epoch.rs:159-195 | over every run each past epoch records the time it ended at, where the next one starts, and the shares and miners stored then |
| EpochLifecycle.EpochManager.EndCurrentEpoch | accum-node/src/epoch.rs:159-195 | the next epoch starts where this one ends, and the pool is cleared |
| EpochLifecycle.EpochManager.AddShare | accum-node/src/epoch.rs:129-140 | a share of another epoch is refused, others go to the pool; it succeeds exactly for a share of the epoch that is known or has room |
| EpochLifecycle.EpochsTileTheChain | accum-node/src/epoch.rs:30-49 | with heights 0, 1, 2, ... epoch e covers exactly (e - 1) * 1440 to e * 1440 - 1 and the current one is 1 + blocks / 1440 |
| EpochLifecycle.AcceptedBlockInItsEpoch | accum-node/src/epoch.rs:104-126 | an accepted height lies in the epoch its header names and in no other |
| EpochLifecycle.PoolStaysCurrent | accum-node/src/epoch.rs:129-195 | pooled shares are of the current epoch over every run |
| EpochLifecycle.MedianTimeNeverGoesBack | accum-node/src/epoch.rs:143-156 | along every run the median of the last eleven timestamps is non-decreasing |
| EpochLifecycle.AcceptedAfterEveryMedian | accum-node/src/epoch.rs:104-156 | no accepted block is at or before the median of any earlier window |
| MedianTime.MedianNeverFalls | accum-node/src/epoch.rs:143-156 | appending a timestamp after the median does not lower the median of the next window |
| MedianTime.SortSorts | accum-node/src/epoch.rs:143-156 | the timestamps sorted are an ordered permutation |
| Targets.IsMetBy | accum-node/src/main.rs:812-821 | the byte scan is exactly numeric comparison of 256-bit values, equality included |
| Targets.Prefilter | accum-node/src/main.rs:960-976 | the scan of eight bytes compares the leading 64-bit values |
| Targets.PrefilterIsTruncatedComparison | accum-node/src/main.rs:960-976 | that scan never rejects a digest at or below the target |
| Targets.MultiplyIsProduct | accum-node/src/main.rs:823-837 | the bytes and final carry of the schoolbook multiplication are the product |
| Targets.MultiplyBytes | accum-node/src/main.rs:823-854 | the loop writes the bytes and carry of the product, with no overflow of its carry word |
| Targets.ScaleSaturating | accum-node/src/main.rs:823-854 | the product, or all ones when it does not fit |
| Targets.ShareTarget | accum-node/src/main.rs:823-837 | min(256 v, 2^256 - 1) |
| Targets.PrefilterTarget | accum-node/src/main.rs:839-854 | min(65536 times the share target, 2^256 - 1) |
| Targets.NestedTargets | accum-node/src/main.rs:812-854 | meeting the block target implies meeting the share and prefilter targets and passing the prefilter |
| CompactTargets.Compact | accum-node/src/types.rs:81-103 | the compact word, or an index past the end |
| CompactTargets.FromCompact | accum-node/src/types.rs:106-134 | the target with the three mantissa bytes in place |
| CompactTargets.ExpandedValue | accum-node/src/types.rs:106-134 | the number that every word stands for, by its exponent: up to 3 it is one byte too high, above 32 it is zero |
| CompactTargets.RoundTrip | accum-node/src/types.rs:81-134 | up to index 28 three bytes are kept, the target is never exceeded, less than 1/65536 is lost, and the word is the same again |
| CompactTargets.RoundTripShiftsAt29 | accum-node/src/types.rs:81-134 | at index 29 the recovered target is 256 times too large |
| CompactTargets.CompactWorksIff | accum-node/src/types.rs:81-134 | exactly when compacting works and when the round trip stays at or below the target |
| CompactTargets.CompactMonotone | accum-node/src/types.rs:81-103 | compacting keeps the numeric order |
| Codec.AsBytes | accum-node/src/block.rs:26-38 | the header's 120 bytes, field by field |
| Codec.Deserialize | accum-node/src/block.rs:46-85 | the header of 120 bytes, an error for any other length |
| Layouts.HeaderLayout | accum-node/src/block.rs:26-38 | each of the header's 120 bytes, numbers with the low byte first |
| Codec.HeaderBijection | accum-node/src/block.rs:26-85 | decoding gives a header exactly for the bytes that encoding it gives |
| Codec.PacketBijection | accum-node/src/share.rs:117-151 | the same for share packets and 180 bytes |
| Layouts.PacketLayout | accum-node/src/share.rs:117-151 | each of a share packet's 180 bytes |
| Layouts.ScriptSigLayout | accum-node/src/main.rs:1381-1402 | the signing script: one length byte, the signature, one length byte, the key |
| Codec.ParseCharacterized | accum-node/src/main.rs:1422-1453 | the scripts that parse to a signature and key are exactly two layouts |
| Codec.ScriptSigRoundTripIff | accum-node/src/main.rs:1381-1453 | parsing recovers what signing wrote exactly for 1 to 255 bytes of signature and at most 255 of key |
| TxEncoding.TxidPreimageInjective | accum-node/src/transaction.rs:56-85 | equal txid preimages exactly for equal transactions, with eight-byte or four-byte length prefixes |
| TxEncoding.TxPrefixFree | accum-node/src/main.rs:1542-1571 | no transaction's encoding is the beginning of another's |
| Layouts.TxidLayout | accum-node/src/main.rs:1542-1571 | each byte hashed for an identifier: every field at its place, nothing behind the lock time |
| TxEncoding.BuildSighashPreimage | accum-node/src/main.rs:1577-1609 | the loops build the encoding of the transaction with the signed input's script blanked, and the hash type |
| Layouts.SighashLayout | accum-node/src/main.rs:1577-1609 | each byte hashed for a signature: those of the transaction with an empty script in the signed input, then 1, 0, 0, 0 |
| TxEncoding.SighashBinds | accum-node/src/main.rs:1577-1611 | equal signature preimages at an index exactly when all but that input's script agrees |
| TxEncoding.BlankAgreement | accum-node/src/main.rs:1577-1611 | what that agreement means, input by input; the script at the index never matters |
| RateLimiter.PeerRateLimiter.CheckRate | accum-node/src/share.rs:281-308 | the verdict and the new state of the peer, all other peers untouched |
| RateLimiter.WindowsTrack | accum-node/src/share.rs:281-308 | the counters describe a division of the accepted calls into windows of at most 100 within a minute |
| RateLimiter.RateBound | accum-node/src/share.rs:281-308 | at most 199 shares of a peer are accepted in any closed 60-second interval |
| RateLimiter.RateBoundIsReached | accum-node/src/share.rs:281-308 | a run in which 199 are accepted, so the bound is exact |
| RateLimiter.SilenceAfterRejection | accum-node/src/share.rs:281-308 | after a rate-exceeded rejection every call within 300 seconds is refused as banned |
| RateVerdicts.VerdictIff | accum-node/src/share.rs:281-308 | every verdict from the calls before it: banned within 300 seconds of a rejection, rejected when the window opened at most a minute ago holds a hundred accepted calls, else accepted |
| RateVerdicts.AcceptedAfterBan | accum-node/src/share.rs:281-308 | the first call after a ban is accepted and opens a window |
| Loyalty.LoyaltyData.UpdateAt | accum-node/src/main.rs:2365-2400 | the decay loop and counters as one step on the score |
| Loyalty.NextEpoch | accum-node/src/main.rs:2365-2409 | from one epoch to the next, on every run: taking part adds one and restores the grace to 3, missing halves the value under grace and else leaves seven tenths, and the counters go on or restart |
| Loyalty.ThreeHalvings | accum-node/src/main.rs:2365-2409 | after an epoch taken part in, each of the first three missed ones halves the value and every later one leaves seven tenths |
| Loyalty.ReportAfterGap | accum-node/src/main.rs:2365-2400 | a report after a gap takes the grace factor once and 0.7 for every other missed epoch, and adds one for taking part |
| Loyalty.LoyaltyData.ApplyDecay | accum-node/src/main.rs:2402-2409 | one decay, in reals |
| Loyalty.DecayIsLinear | accum-node/src/main.rs:2402-2409 | a decay multiplies by 0.7, or by 0.5 under grace; half of the whole part never wins |
| Loyalty.ValueWithinEpochs | accum-node/src/main.rs:2365-2409 | over every run the value is between 0 and the last epoch |
| Loyalty.RepeatedUpdate | accum-node/src/main.rs:2365-2369 | a second update in an epoch changes nothing |
| Loyalty.AlternatingNeverPasses2 | accum-node/src/main.rs:2365-2409 | a miner that never takes part in two epochs running never exceeds 2 |
| Loyalty.CatchingUpIsNoWorse | accum-node/src/main.rs:2365-2409 | catching up k missed epochs at once never gives less than one by one |
| Rewards.CalculatePoci | accum-node/src/main.rs:4316-4399 | one entry for each miner, each determined by the inputs and not by the order of visits |
| RewardFormula.SharesWeighSixTenths | accum-node/src/main.rs:4353-4378 | between miners of equal loyalty and valid bond the index moves with 6/10 of the difference of the roots of their shares over the largest root, at least 1 |
| RewardFormula.LoyaltyWeighsTwoTenths | accum-node/src/main.rs:4353-4378 | the same with 2/10 for loyalty |
| RewardFormula.BondWeighsTwoTenths | accum-node/src/main.rs:4353-4378 | the same with 2/10 for the root of a valid bond |
| RewardFormula.NothingGivesNothing | accum-node/src/main.rs:4353-4378 | without shares, loyalty and valid bond the index is 0 |
| RewardFormula.LeadersIndex | accum-node/src/main.rs:4353-4378 | leading in shares only gives 0.6, in loyalty or bond only 0.2, in all 1 |
| RewardFormula.RewardIsProportional | accum-node/src/main.rs:4380-4399 | each reward is its index's part of 720,000,000, rounded down, and nothing when all indexes are 0 |
| RewardFormula.EntryRecords | accum-node/src/main.rs:4316-4399 | the other parts of an entry are the miner's own shares, bond and loyalty |
| Rewards.FoldMax | accum-node/src/main.rs:4326-4348 | the largest value but at least 1, in any order |
| Rewards.IndexInUnit | accum-node/src/main.rs:4353-4378 | every index is in [0, 1] |
| Rewards.RewardBounds | accum-node/src/main.rs:4380-4399 | rewards are not negative, sum to at most R, and to more than R - n when anybody contributed |
| Rewards.RewardMonotone | accum-node/src/main.rs:4316-4399 | at least another's shares, loyalty and valid bond give at least its reward |
| Rewards.OrderDoesNotMatter | accum-node/src/main.rs:4316-4399 | two visiting orders give the same entries |
| Rewards.CalculateRewards | accum-node/src/consensus.rs:157-176 | each index's saturating part of the epoch reward and the fees, for any index map; nothing when the indexes sum to zero |
| RewardFormula.LibraryReward | accum-node/src/consensus.rs:157-176 | whatever the indexes, a reward is the miner's part of 720,000,000 and the fees rounded down, 0 if that is negative and 2^64 - 1 if it is more |
| Rewards.RewardsWithFeesBounds | accum-node/src/consensus.rs:157-176 | without negative indexes and with fees F the rewards sum to at most R + F, and to more than R + F - n if that is an amount |
| Rewards.FeesWithinIff | accum-node/src/consensus.rs:157-176 | before rounding the rewards keep to the pool exactly if no index has the sign opposite to their sum |
| Rewards.SplitAgainstUnrounded | accum-node/src/consensus.rs:157-176 | rounding takes less than one unit from each part and adds nothing |
| Rewards.NegativeIndexPassesThePool | accum-node/src/consensus.rs:157-176 | indexes 2 and -1 are paid twice the pool and nothing |
| Rewards.Normalise | accum-node/src/consensus.rs:31-90 | shares' roots or loyalties over the largest one, nothing when none is positive |
| Rewards.NormalisedMeans | accum-node/src/consensus.rs:31-90 | normalised values are in [0, 1], one is 1, and their order is that of the values |
| Rewards.NormalisedInProportion | accum-node/src/consensus.rs:31-90 | normalised values are in proportion to what they come from |
| BondRegistry.MinerRegistry.AddBond | accum-node/src/miner.rs:93-113 | too small an amount is refused, another is appended and added to the cached total |
| BondRegistry.MinerRegistry.CleanupExpiredBonds | accum-node/src/miner.rs:143-170 | every list keeps its unexpired entries, and the cached totals are recomputed |
| BondRegistry.MinerRegistry.SetHeightTo | accum-node/src/miner.rs:247-249 | only the height changes |
| BondRegistry.TotalIsCached | accum-node/src/miner.rs:93-170 | over every run the cached total is the sum of the stored entries |
| BondRegistry.StoredAreLiveDeposits | accum-node/src/miner.rs:93-170 | the stored entries are exactly the deposits not expired at the last cleanup |
| BondRegistry.StoredIff | accum-node/src/miner.rs:93-170 | an entry is stored as often as it was deposited, or not at all if its lock ended by the last cleanup |
| BondRegistry.TotalAfterCleanup | accum-node/src/miner.rs:143-170 | after a cleanup at height h the total is that of all deposits ever made and still locked at h |
| BondRegistry.DepositsLocked | accum-node/src/miner.rs:93-113 | every deposit made at height c is locked until c + 20160 |

## Left out

- Cryptography: Argon2id, SHA-256, signatures and address decoding are parameters; no claim is made that a signature made by `sign` verifies.
- The search for a nonce and the wait between blocks: whether a nonce is found is an input.
- NodeState.Node.AddShare: the ban, the target and previous-hash checks and the verdict of the share pool are one input, and the invalid-ratio update after an error is left out; the pool is modelled on its own, and with the counted shares in `JointShares`.
- NodeState.Node.MineBlock: the header, its Merkle root, the stored chain and the block hashes are not part of the node's state here.
- NodeState.Node.ProcessEpochEnd: the miners' reward statistics are left out, and the reset of the share pool is in `JointShares` and `NodeSharePool`.
- EpochLifecycle.EpochManager.AddBlock: the rewards, the next target and the miner registry that a rollover also touches are left out.
- EpochLifecycle.EpochManager.EndCurrentEpoch: the same; the next-target step subtracts two stored timestamps, which may decrease, in unsigned 64-bit arithmetic.
- Difficulty scaling and adjustment (`adjust`, `to_difficulty`, `shift_left`, `scaled`, `difficulty.rs`): the byte loops do not compute the scaling they name.
- Blocks received outside `verify_and_accept_blocks`, which skip validation or epoch processing: the results on supply, pool and epochs are for locally driven runs.
- `SyncManager::on_blocks_received`, peer selection and requests.
- Slashing, `InvalidShareMonitor`, `MinerRegistry::update_loyalty`, `ban_miner` and `PoCICalculator::normalized_bond`.
- `sync_shares.rs`, which uses types that `share.rs` does not define.
- Storage errors, restart and reloading of state, backups, checkpoints, configuration, wallet files, RPC and networking.
- Floating-point rounding: rewards, indexes and loyalty are in reals; only the conversion to 64-bit amounts is modelled.
- Overflow of 64-bit counters, heights, bond totals and the 32-bit epoch; the exact totals are for runs of fewer than 2^64 steps.
- The historical counters of a miner (`total_rewards`, `total_shares_historical`, times), which nothing modelled reads.
- EpochShareStore.GossipConverges: for shares that reach the pool, the checks of `SharePacket::validate` before it being left out.
