# Proton blockchain: verified models of its core state machines

This project models the parts of the Proton prototype that hold complete algorithms or complete ledgers, and proves
what they keep over every input and every run.

- **Exchange** (`contracts/ProtonDEX.sol`): pairs, LP shares, swaps with fees, the Newton square root, with the 256-bit
  overflow reverts written out. `ConstantProduct` holds the arithmetic of one pair, `ExchangeSteps` what each call does
  to storage and tokens, `ProtonDex` the contract updated in place, `DexRuns` what every run keeps, `ExchangeEffects`
  what a caller can check.
- **Consensus structures** (`src/consensus/mod.rs`): graph ordering (`ParentGraph`, `DagOrdering`), the transaction pool
  (`PriceTime`, `Mempool`), the block loop (`PoolDraining`, `BlockProduction`), leader rotation and quorum certificates
  (`LeaderRotation`, `Quorum`, and in `QuorumLimits` exactly where their safety ends).
- **Transaction executor** (`src/vm/mod.rs`): transfers in wrapping machine arithmetic (`MachineInts`,
  `TransferSteps`), the balances' sum (`BalanceConservation`), the blocks that run alike in every order
  (`BlockSchedules`), and execution in sequence and in parallel (`TransactionExecutor`).
- **Merkle root** (`src/types/mod.rs`): `MerkleTree`.
- **Staking**, twice: the Rust contract with its unbonding queue (`StakingLedger`, `StakingContract`, `StakingEffects`)
  and the Solidity contract with its reward formula and validator ranking (`RewardShares`, `SolidityStaking`,
  `RewardEffects`, `ValidatorRanking`).
- **Bridge** (`contracts/ProtonBridge.sol`): `BridgeTransfers`, `BridgeRuns`, `BridgeSettling`,
  `BridgeEffects`, `ProtonBridge`.
- **Cross-shard transfers** (`src/multichain/mod.rs`): `CrossShard`, `CrossShardOrigins`, `ShardManager`.
- **256-bit limbs** (`src/sdk.rs`): `Digits`, `Limbs`.

`Lists`, `Sums`, `Arithmetic`, `TokenLedger` and `Delegations` are shared vocabulary. Each component that updates
fields in place is a class whose methods are proved equal to a step function on the component's state; the theorems
about runs are about those step functions.

Conventions. Hashes are collision-free: they are modelled as the values hashed, or as free constructors. A signature
check is an arbitrary predicate and a zero-knowledge check an arbitrary boolean argument. Tokens follow EIP-20,
`transfer` and `transferFrom`. A call that reverts or panics leaves its state alone. Iteration over a hash map is an
arbitrary choice, so contracts hold for every iteration order. Calls are the units of interleaving. A transfer holds the
state's write lock from its first read to its last write, and a cross-shard call takes the router's locks only inside its
shard's lock. Where a call takes two locks in turn, as adding a vertex and finalizing a block do, the states between them
are not modelled.

Where the code differs from what its own documentation or tests say, the model follows the code:

- The repository's README.md:270 promises safety with two thirds plus one of the stake. The code compares with two thirds
  rounded down, after doubling modulo 2^128 (src/consensus/mod.rs:34). `SplitIff` gives, for every 128-bit total, exactly
  the faulty stake at which conflicting certificates appear; the classical budget holds exactly for totals below 2^127
  that three divides (`ClassicalBudgetIff`), and no fault at all is needed for totals 0, 1, 2 and 4 and for all from
  2^127 on (`NoOverlapIff`).
- Repeated signers count repeatedly (src/consensus/mod.rs:37-43): verifying certifies the threshold exactly for lists
  without repetition (`CertifiesIffDistinct`), and two thirds of the total under the condition of `TwoThirdsIff`.
- A release build computes gas price times gas limit, and value plus that, modulo 2^128 (src/types/mod.rs:143-145,
  src/vm/mod.rs:143). A transfer burns exactly the gas due from every state exactly when the sum fits
  (`BurnsGasDueIff`; `ConservesEverywhereIff` for the gas as computed), and `WrappedCostFromNothing` is the smallest
  failing input.
- tests/integration_tests.rs:692-698 expects a proposed block to validate and the height to be 1 after finalizing. No
  code path advances the height (`HeightNeverAdvances`), and a proposal validates only where a block of height 0 was
  finalized from outside and there are no validators, because proposals are never signed (`ProposalsNeedGenesis`).
- tests/integration_tests.rs:334-378 expects its transfer to succeed, but the gas cost of 210000 exceeds the balance of
  10000 (`TransferTestIsRejected`).
- Repeating a bridge initiation clears the signature count and keeps the signatures (contracts/ProtonBridge.sol:218), so
  signers cannot be counted again; `SettlesIff` says exactly when such a transfer can still be executed.
- "Custody equals reserves" fails for the exchange once a fee has been paid, because swaps book the fee into the
  reserves and also pay it out; `Reachable`, `FullWithdrawalPays` and `FeeBlocksFullWithdrawal` give the exact account.

## Model

| member | source | states |
|---|---|---|
| ProtonDex.Sqrt | contracts/ProtonDEX.sol:390-397 | the loop terminates and returns the floor root of every argument but 2^256-1, where it reverts |
| ProtonDex.NewtonStep | contracts/ProtonDEX.sol:393-396 | an iterate above the root stays above it, cannot overflow, and stops shrinking only at the root |
| ConstantProduct.NewtonStaysAbove | contracts/ProtonDEX.sol:395 | one Newton step from above never falls below the root |
| ConstantProduct.MintIsLargest | contracts/ProtonDEX.sol:147-149 | a deposit mints the most shares that neither side's contribution falls short of |
| ConstantProduct.RedemptionIsLargest | contracts/ProtonDEX.sol:184-185 | a withdrawal pays the most of each token that stays within the shares' part of the reserve |
| ConstantProduct.OutputIsLargest | contracts/ProtonDEX.sol:254-262 | a swap pays the most that keeps the product of the reserves on the net input alone |
| ConstantProduct.FeeRoundsUp | contracts/ProtonDEX.sol:252-271 | the fee is its share of the input, rounded up |
| ConstantProduct.DepositKeepsShareValue | contracts/ProtonDEX.sol:147-157 | a deposit never lowers the squared value per share |
| ConstantProduct.WithdrawalKeepsShareValue | contracts/ProtonDEX.sol:184-193 | neither does a withdrawal, while shares remain |
| ConstantProduct.SwapKeepsProduct | contracts/ProtonDEX.sol:252-262 | a swap never lowers the product of the reserves, at any fee |
| ConstantProduct.ShareValueTransitive | contracts/ProtonDEX.sol:126-273 | share value composes across steps between which shares are outstanding |
| ConstantProduct.FirstDepositBacked | contracts/ProtonDEX.sol:144-157 | the first deposit mints no more shares than its reserves back, even on stray reserves |
| ConstantProduct.RedeemedWithinReserves | contracts/ProtonDEX.sol:184-192 | redeeming at most the supply never takes more than the reserves |
| ConstantProduct.DepositThenRedeem | contracts/ProtonDEX.sol:143-200 | redeeming what a deposit minted returns at most the deposit, on each side |
| ConstantProduct.FirstDepositThenRedeem | contracts/ProtonDEX.sol:144-192 | for the first depositor it returns exactly the deposit plus whatever the reserves held before |
| ConstantProduct.SwapThereAndBack | contracts/ProtonDEX.sol:252-262 | selling a swap's proceeds straight back never returns more than was put in |
| ConstantProduct.OneSideReturns | contracts/ProtonDEX.sol:252-262 | if the product has not fallen and one reserve is back, the other is no lower |
| ProtonDex.ProtonDEX.CreatePair | contracts/ProtonDEX.sol:102-121 | the whole new state and outcome of creating a pair, reverts included |
| ProtonDex.ProtonDEX.AddLiquidity | contracts/ProtonDEX.sol:126-163 | the whole new state and outcome of a deposit, with every revert and overflow |
| ProtonDex.ProtonDEX.RemoveLiquidity | contracts/ProtonDEX.sol:168-200 | the whole new state and outcome of a withdrawal |
| ProtonDex.ProtonDEX.Swap | contracts/ProtonDEX.sol:238-273 | the whole new state and outcome of a swap: reserves, three token transfers, reverts |
| ProtonDex.ProtonDEX.CalculateSwapAmount | contracts/ProtonDEX.sol:345-363 | quotes what any settling swap pays, the formula's output or its arithmetic revert otherwise, and zero for a missing pair |
| ProtonDex.ProtonDEX.SetTradingFee | contracts/ProtonDEX.sol:368-371 | the owner may set a fee of at most 10% |
| DexRuns.Reachable | contracts/ProtonDEX.sol:126-273 | in every reachable state, tokens sent straight to the contract included, reserveA * reserveB >= totalLiquidity^2, LP balances add up to totalLiquidity, outstanding shares keep both reserves positive, and the tokens held are reserves minus fees paid plus tokens belonging to no reserve |
| DexRuns.RunKeepsInv | contracts/ProtonDEX.sol:126-273 | every run keeps that invariant |
| DexRuns.StepKeepsInv | contracts/ProtonDEX.sol:102-378 | so does every single call |
| DexRuns.RunKeepsShareValue | contracts/ProtonDEX.sol:126-273 | over any run with shares outstanding throughout, reserveA' * reserveB' * L^2 >= reserveA * reserveB * L'^2 |
| DexRuns.NoExtraction | contracts/ProtonDEX.sol:126-273 | a run that restores the share count and one reserve leaves the other reserve no lower |
| DexRuns.SwapsExtractNothing | contracts/ProtonDEX.sol:238-273 | so does any sequence of swaps, by anyone, on any pairs |
| DexRuns.SettlementCustody | contracts/ProtonDEX.sol:256-272 | how input, output and fee transfers move custody against reserves |
| DexRuns.SwapPays | contracts/ProtonDEX.sol:264-272 | the caller pays the input, `to` gets the output, at least the minimum asked for, the fee recipient the fee, and nobody else's balance moves |
| DexRuns.DepositPays | contracts/ProtonDEX.sol:139-160 | the caller alone pays the two stated amounts and gains the minted shares |
| DexRuns.WithdrawalPays | contracts/ProtonDEX.sol:187-197 | the caller alone is paid, at least the minimums, and loses the burnt shares |
| ExchangeEffects.QuoteIsOutput | contracts/ProtonDEX.sol:356-362 | a quote is the most that keeps the product of the two tokens' reserves on the net input, whichever token sorts first |
| ExchangeEffects.SwapEffect | contracts/ProtonDEX.sol:245-262 | when exactly a swap succeeds, that it pays exactly that output, and how it moves the two reserves, for either token order |
| ExchangeEffects.DepositEffect | contracts/ProtonDEX.sol:133-160 | when exactly a deposit succeeds, that it mints exactly the root or the larger common share, to the caller alone, and books both amounts |
| ExchangeEffects.WithdrawalEffect | contracts/ProtonDEX.sol:175-197 | when exactly a withdrawal succeeds, that it pays exactly the shares' part of each reserve, and burns the caller's shares alone |
| ExchangeEffects.CreateEffect | contracts/ProtonDEX.sol:102-118 | only the owner creates pairs, of two tokens, once each, empty |
| ExchangeEffects.FeeEffect | contracts/ProtonDEX.sol:368-371 | only the owner sets the fee, to at most 1000 |
| DexRuns.OtherPairsUntouched | contracts/ProtonDEX.sol:126-273 | a call on one pair leaves every other pair and its LP balances alone |
| DexRuns.RemoveNeverUnderflows | contracts/ProtonDEX.sol:181-193 | in a sound state no subtraction of a withdrawal underflows, and division by zero needs a zero request |
| DexRuns.AddThenRemove | contracts/ProtonDEX.sol:143-200 | adding and at once removing the minted shares returns at most the deposit, whenever shares were outstanding |
| DexRuns.FirstAddThenRemove | contracts/ProtonDEX.sol:144-200 | without outstanding shares it returns at most the deposit exactly when both reserves were empty |
| DexRuns.FullWithdrawalPays | contracts/ProtonDEX.sol:184-197 | a pair's sole provider can withdraw everything exactly when the products fit 256 bits and the fees paid are covered by spare tokens and other pairs' reserves |
| DexRuns.FeeBlocksFullWithdrawal | contracts/ProtonDEX.sol:256-272 | after a swap paying a positive fee outside, a pair without other holdings to cover it cannot pay its only provider in full |
| DexRuns.OneSwapBlocksWithdrawal | contracts/ProtonDEX.sol:184-272 | it happens: in a pool of 100 and 100, after one swap of 100 the only provider's withdrawal reverts |
| DagOrdering.DagOrdering.AddVertex | src/consensus/mod.rs:448-454 | stores the vertex and its parents, replacing an earlier entry |
| DagOrdering.DagOrdering.GetAncestors | src/consensus/mod.rs:456-477 | terminates on every graph, cyclic ones included, and lists exactly what the hash reaches, itself first, without repeats |
| DagOrdering.DagOrdering.TopologicalSort | src/consensus/mod.rs:479-518 | for every map order, lists without repeats exactly the vertices whose whole ancestry is present and cycle-free, each after its parents |
| DagOrdering.DagOrdering.CountParents | src/consensus/mod.rs:483-492 | in-degrees count parents with multiplicity and the child lists mirror the parent lists |
| DagOrdering.Release | src/consensus/mod.rs:502-515 | popping a vertex releases each occurrence in its children and queues exactly those left without waiting parents |
| DagOrdering.Decrement | src/consensus/mod.rs:507-511 | the in-degree is positive whenever it is decremented |
| DagOrdering.WaitingRelease | src/consensus/mod.rs:505-513 | finishing one parent lowers the waiting count by its number of occurrences |
| DagOrdering.AncestorListPrecedes | src/consensus/mod.rs:456-518 | every ancestor listing of an ordered vertex stands at or before it in the order |
| ParentGraph.AncestorsAtOrBefore | src/consensus/mod.rs:479-518 | in a parents-first order everything a vertex reaches stands at or before it |
| ParentGraph.ListedIsRooted | src/consensus/mod.rs:502-515 | only vertices with complete, cycle-free ancestry can be listed parents-first |
| ParentGraph.RootedIsIncluded | src/consensus/mod.rs:502-515 | and a set closed under "all parents in" contains all of them |
| ParentGraph.CompleteIffAcyclicAndClosed | src/consensus/mod.rs:479-518 | the order has all vertices exactly when the graph is acyclic and contains every parent it names |
| ParentGraph.OrdersArePermutations | src/consensus/mod.rs:486-500 | two topological orders of one graph list the same vertices, whatever the map iteration order |
| Mempool.Mempool.AddTransaction | src/consensus/mod.rs:181-200 | fails exactly when full; otherwise one arrival more, a re-added live transaction included |
| Mempool.Mempool.GetTransactions | src/consensus/mod.rs:202-223 | the first max(limit, 1) entries of the eligible arrivals ranked by price, then arrival |
| Mempool.Mempool.RemoveTransactions | src/consensus/mod.rs:225-241 | removes every copy of each named transaction from the pool and its buckets, and the nonce keys of the live ones |
| Mempool.Mempool.RemoveOne | src/consensus/mod.rs:231-239 | one removal; unknown hashes are ignored |
| Mempool.Mempool.Size | src/consensus/mod.rs:243-245 | never above the maximum, and at most one per arrival |
| Mempool.MapsAgree | src/consensus/mod.rs:164-241 | buckets hold as sets exactly the live hashes at their price, none is empty, nonce entries name live transactions with that sender and nonce |
| PriceTime.RankedIsPriceTime | src/consensus/mod.rs:208-219 | the ranking lists every eligible arrival once, by price descending and then by arrival |
| PriceTime.RankedMembers | src/consensus/mod.rs:208-219 | the ranking contains exactly the eligible arrivals |
| PriceTime.RankedNoRepeats | src/consensus/mod.rs:191-197 | it repeats a transaction exactly when an eligible one was added again while live |
| PriceTime.RankedOfWithout | src/consensus/mod.rs:208-238 | removing transactions commutes with ranking |
| BlockProduction.HotStuffConsensus.ProposeBlock | src/consensus/mod.rs:296-334 | nothing when no transaction is eligible, else the first 1000 ranked ones at height + 1, under their Merkle root and unsigned |
| BlockProduction.HotStuffConsensus.FinalizeBlock | src/consensus/mod.rs:375-389 | stores the block, removes its transactions from the pool, leaves the height alone |
| BlockProduction.HotStuffConsensus.ValidateBlock | src/consensus/mod.rs:336-373 | true exactly when the parent height is stored, the root is that of the transactions, the validator leads at the height, and a registered validator's signature verifies |
| BlockProduction.HeightNeverAdvances | src/consensus/mod.rs:297-389 | over any arrivals, own proposals and blocks finalized from anywhere the height never moves, and height 0 is stored only by finalizing such a block |
| BlockProduction.ProposalsNeedGenesis | src/consensus/mod.rs:296-389 | from a fresh engine every proposal has height 1 and validates exactly when a block of height 0 was finalized and there are no validators |
| BlockProduction.ProposalValidatesIff | src/consensus/mod.rs:296-373 | a proposal validates exactly when its parent height is stored and the validator set is empty, since its signature is missing |
| BlockProduction.ProposalIsNextBlock | src/consensus/mod.rs:296-333 | a proposal exists exactly when something is eligible, and names its height, predecessor, proposer, root, count and transactions |
| BlockProduction.OneLeaderPerHeight | src/consensus/mod.rs:355-370 | two valid blocks of a height name one leader, whose signature each carries |
| BlockProduction.AdvanceStores | src/consensus/mod.rs:375-386 | one event stores the block it finalizes under its own height and changes no other |
| BlockProduction.StoredIff | src/consensus/mod.rs:296-389 | over any run a height is stored exactly if it was at the start or some event finalized a block of it, own proposals included, and holds the last such block |
| BlockProduction.EngineDrains | src/consensus/mod.rs:296-389 | the engine's own successive proposals are the drained blocks, after which nothing more is proposed |
| PoolDraining.NextBlockIsFront | src/consensus/mod.rs:301 | a block holds the first thousand ranked transactions, or all where there are fewer |
| BlockProduction.SameHeaderIff | src/consensus/mod.rs:336-373 | under a valid block's header exactly those transaction lists validate that fill an equally deep Merkle tree alike |
| BlockProduction.LastMayRepeat | src/consensus/mod.rs:348-353 | a valid block with an odd number of transactions from 3 on still validates with its last one repeated |
| PoolDraining.DrainIsRankedIff | src/consensus/mod.rs:296-389 | the drained blocks concatenated are the ranking exactly when no transaction stands on both sides of a multiple of 1000 |
| PoolDraining.DrainIsRanked | src/consensus/mod.rs:296-389 | so it is, and each transaction once, when no eligible live transaction was added again |
| PoolDraining.DrainLeaves | src/consensus/mod.rs:296-389 | draining leaves exactly the transactions below the minimum price, whatever was added however often |
| PoolDraining.DrainByPrice | src/consensus/mod.rs:296-389 | in every pool the drained blocks are the whole eligible set in non-increasing price order |
| PoolDraining.BlocksDisjoint | src/consensus/mod.rs:225-241 | in every pool two drained blocks share no transaction |
| PoolDraining.RepeatsStayInBlocks | src/consensus/mod.rs:197-238 | in pools of any size the drained blocks repeat nothing exactly when none of them repeats anything |
| PoolDraining.OneBlockRepeats | src/consensus/mod.rs:197-238 | where everything eligible fits one block, it repeats a transaction exactly when an eligible one was added again while live |
| LeaderRotation.SortedAddresses | src/consensus/mod.rs:104-106 | the collected addresses in ascending order, each once |
| LeaderRotation.EveryValidatorLeadsOnce | src/consensus/mod.rs:103-114 | in any n consecutive rounds each of n validators leads exactly once |
| Quorum.ValidatorSet.AddValidator | src/consensus/mod.rs:88-93 | the recorded total is the sum of current and replaced stakes, modulo 2^128 |
| Quorum.ValidatorSet.VerifyCertificate | src/consensus/mod.rs:33-46 | true exactly when the wrapped weight of valid entries reaches two thirds of the total, rounded down |
| Quorum.ValidatorSet.GetLeader | src/consensus/mod.rs:103-114 | the validator with exactly round mod n smaller addresses |
| Quorum.WeightIsStake | src/consensus/mod.rs:37-43 | without repeated signers the weight is the stake of the signers |
| Quorum.CertifiedStake | src/consensus/mod.rs:33-46 | under any recorded total such a verifying certificate has at least the threshold behind it, which is 2T/3, rounded down, where 2T fits 128 bits |
| Quorum.QuorumIntersection | src/consensus/mod.rs:33-46 | two of them share signers of stake at least twice the threshold less all stake there is |
| Quorum.NoConflictingCertificates | src/consensus/mod.rs:33-46 | with faulty stake below that overlap and honest validators never signing conflicting blocks, no two certify conflicting blocks |
| Quorum.SetIsSafe | src/consensus/mod.rs:33-93 | the same for a validator set with any history of additions, replaced stakes and a wrapped total included |
| QuorumLimits.SplitExists | src/consensus/mod.rs:33-46 | for every recorded total, faulty stake of the overlap splits some validators of any given stake that reaches the threshold |
| QuorumLimits.SplitBySumIff | src/consensus/mod.rs:33-93 | validators of a given stake can be split under faulty stake f exactly when they reach the threshold and f the overlap, whatever the recorded total |
| QuorumLimits.SplitIff | src/consensus/mod.rs:33-46 | for every 128-bit total and stakes within it, conflicting certificates are possible under faulty stake f exactly when f reaches twice the threshold less the total |
| QuorumLimits.ClassicalBudgetIff | src/consensus/mod.rs:33-46 | some faulty stake below a third allows conflicting certificates exactly when 3 does not divide the total or its double exceeds 128 bits |
| QuorumLimits.NoOverlapIff | src/consensus/mod.rs:33-46 | with nobody faulty, conflicting certificates are possible exactly for totals 0, 1, 2 and 4 and for all whose double exceeds 128 bits |
| QuorumLimits.FourValidatorsSplit | src/consensus/mod.rs:33-46 | four unit stakes, nobody faulty, two conflicting certified blocks |
| QuorumLimits.RepeatedSignerVerifies | src/consensus/mod.rs:37-43 | one validator with any stake fills a certificate alone by repeating its entry, whatever the total |
| QuorumLimits.RepeatVerifiesShort | src/consensus/mod.rs:37-43 | any list naming an address twice verifies, under every total whose threshold is at least 2, for some validators with less stake than that |
| QuorumLimits.CertifiesIffDistinct | src/consensus/mod.rs:33-46 | verifying certifies the threshold, for all validators, totals, keys and blocks, exactly when the list repeats no signer |
| QuorumLimits.TwoThirdsIff | src/consensus/mod.rs:33-46 | for each list and 128-bit total, verifying certifies two thirds of it exactly when, below 2^127, the list repeats nobody or two thirds are at most 1, and from there on the list is empty and does not verify |
| QuorumLimits.WrappedThreshold | src/consensus/mod.rs:34 | the threshold is two thirds of the total exactly when twice the total fits 128 bits, and the empty certificate verifies exactly when the wrapped double is below 3 |
| MachineInts.DeltaIsModular | src/vm/mod.rs:181 | through signed 128-bit and back, a balance moves by the delta modulo 2^128, whichever casts wrap |
| MachineInts.NegatedCastIsModular | src/vm/mod.rs:158-181 | casting a debit before negating it does not change its effect |
| TransactionExecutor.ProtonVM.ExecuteTransaction | src/vm/mod.rs:110-135 | the whole new account state and result for each transaction kind modelled |
| TransactionExecutor.ProtonVM.ExecuteTransfer | src/vm/mod.rs:137-196 | the transfer's accounts, result, changes and gas |
| TransactionExecutor.ProtonVM.ApplyChanges | src/vm/mod.rs:179-184 | applying the change map in any order gives one state |
| TransactionExecutor.ProtonVM.ExecuteBlockSequential | src/vm/mod.rs:406-411 | results and state of running the block in order |
| TransactionExecutor.ProtonVM.ExecuteBlockParallel | src/vm/mod.rs:396-403 | results and state of running the block in some order, under the state write lock, and those of the sequential run when no two transactions interfere |
| TransferSteps.ExecutionIsLocal | src/vm/mod.rs:137-196 | execution reads and writes sender and receiver only |
| BlockSchedules.Commute | src/vm/mod.rs:137-196 | two transactions that do not sway each other commute, in state and in both results |
| BlockSchedules.ScheduleIsSequential | src/vm/mod.rs:396-411 | without interference every schedule gives the sequential state and per-transaction results |
| BlockSchedules.SequentialIff | src/vm/mod.rs:396-411 | a block ends like its sequential run under every schedule from every state exactly when no transaction of it sways another |
| BlockSchedules.SwayShows | src/vm/mod.rs:396-403 | where one transaction of a block sways another, two schedules give different results from some state |
| BlockSchedules.AnyOrderIsSequential | src/vm/mod.rs:396-411 | in particular when no transaction touches another one's sender; receivers may be shared |
| BlockSchedules.SharedSenderOrderMatters | src/vm/mod.rs:396-403 | any two transfers of positive cost from one sender, the first to somebody else, have a state in which their order matters |
| TransferSteps.TransferEffect | src/vm/mod.rs:137-196 | between two accounts it succeeds exactly when the cost as charged is covered, value plus gas less 2^128 where that wraps, and then debits, credits and bumps one nonce exactly |
| TransferSteps.ChargedInFullIff | src/vm/mod.rs:143 | value and gas price times gas limit are charged in full exactly when together they fit 128 bits |
| TransferSteps.SelfTransferEffect | src/vm/mod.rs:165-176 | a self-transfer never debits: it credits the value and leaves the nonce |
| TransferSteps.NamedReceiverPaid | src/vm/mod.rs:164-184 | the account named in `to` is paid, the sender itself where none is named, and nobody else's account changes |
| TransferSteps.ResultReports | src/vm/mod.rs:110-195 | the gas reported on every path, and the changes reported for sender and receiver |
| BalanceConservation.TransferSupply | src/vm/mod.rs:137-196 | for every transaction in every state, how the sum of balances moves, every wrap included |
| BalanceConservation.TransferConserves | src/vm/mod.rs:137-196 | a supply below 2^128 falls by exactly the gas of a successful transfer between two accounts whose cost fits |
| BalanceConservation.BlockSupply | src/vm/mod.rs:396-411 | the same for every block in every order |
| BalanceConservation.BlockConserves | src/vm/mod.rs:396-411 | a block of transfers between two accounts whose costs fit burns exactly the gas of the successful ones, in any order |
| BalanceConservation.BlockConservesIff | src/vm/mod.rs:143-181 | such a block conserves in every order from every supply below 2^128 exactly when none of its costs wraps |
| BalanceConservation.ConservesIff | src/vm/mod.rs:143-181 | a success burns exactly its gas if and only if debit and credit leave out the same amount: the wraps of cost and credit, or everything for a self-transfer |
| BalanceConservation.ConservesEverywhereIff | src/vm/mod.rs:143-181 | a transfer between two accounts burns exactly its gas from every supply below 2^128 exactly when value plus gas fits 128 bits |
| BalanceConservation.BurnsGasDueIff | src/vm/mod.rs:137-196 | every success burns gas price times gas limit exactly when value plus that product fits 128 bits |
| BalanceConservation.WrappedCostCreates | src/vm/mod.rs:143-145 | every wrapping cost has a state in which it creates 2^128 |
| BalanceConservation.WrappedCostFromNothing | src/vm/mod.rs:143-145 | from an empty state such a transfer succeeds and credits 2^128 - 1 |
| TransferSteps.TransferTestIsRejected | tests/integration_tests.rs:334-378 | the test's transfer is refused for insufficient balance |
| MerkleTree.Root | src/types/mod.rs:245-264 | the level loop terminates and equals the recursive tree hash |
| MerkleTree.SmallRoots | src/types/mod.rs:245-264 | the roots of up to three leaves: left before right, an odd last hash paired with itself |
| MerkleTree.TreeOfLevel | src/types/mod.rs:251-262 | one pass of the loop takes one level off the tree |
| MerkleTree.RootOfLevel | src/types/mod.rs:251-262 | the list and the level above it have the same root |
| MerkleTree.SameDepthRoots | src/types/mod.rs:245-264 | lists with equally many levels have equal roots exactly when they fill the tree alike |
| MerkleTree.EqualLengthBinding | src/types/mod.rs:245-264 | lists of equal length with equal roots are equal |
| MerkleTree.OneLongerSameLevel | src/types/mod.rs:253-255 | a list one longer has the same level above exactly when the first is odd and its last leaf is repeated |
| MerkleTree.OddListRepeatsLast | src/types/mod.rs:253-255 | for every odd length from 3, repeating the last leaf keeps the root |
| MerkleTree.RootForgetsLevels | src/types/mod.rs:250-263 | every list of two or more has the root of the shorter list of its parents |
| MerkleTree.TransactionRootsIff | src/consensus/mod.rs:349-353 | for transaction hashes of any counts, roots agree exactly when both lists are empty or fill equally deep trees alike |
| StakingContract.ProtonStaking.RegisterValidator | contracts/staking.rs:95-125 | the whole new ledger and outcome |
| StakingContract.ProtonStaking.Stake | contracts/staking.rs:129-159 | the whole new ledger and outcome |
| StakingContract.ProtonStaking.PrivateStake | contracts/staking.rs:163-193 | activates the validator and moves nothing |
| StakingContract.ProtonStaking.Unstake | contracts/staking.rs:197-238 | the whole new ledger and outcome, the queue entry included |
| StakingContract.ProtonStaking.ProcessUnbonding | contracts/staking.rs:242-258 | pays each due entry once, in queue order, and leaves exactly the others in order |
| StakingContract.ProtonStaking.RemoveBackwards | contracts/staking.rs:254-257 | removing the collected positions from the back leaves exactly the entries not due, in order |
| StakingContract.ProtonStaking.DistributeRewards | contracts/staking.rs:262-290 | in any map order, credits each known validator its commission and nobody else, and panics only in a build with overflow checks |
| StakingLedger.Reachable | contracts/staking.rs:129-290 | in every reachable state total_delegated(v) is the sum of delegations to v, total_staked the sum over validators, stake(v) = total_delegated(v) + commissions, the contract holds total_staked plus all unbonding amounts, and unstaking and payouts never fail for want of funds |
| StakingLedger.RunKeepsInv | contracts/staking.rs:129-290 | every run keeps that invariant |
| StakingEffects.NothingGoesElsewhere | contracts/staking.rs:129-258 | over every run, all that a delegator staked with a validator is still delegated there, queued for that delegator, or paid back to that delegator |
| StakingEffects.EntriesWereAskedFor | contracts/staking.rs:223-230 | every queue entry was asked for by its own delegator one unbonding period before it unlocks |
| StakingEffects.RegisterEffect | contracts/staking.rs:95-119 | when exactly registration succeeds, and the idle validator it adds |
| StakingEffects.StakeEffect | contracts/staking.rs:129-152 | when exactly a stake succeeds, and that it credits that delegator with that validator alone |
| StakingEffects.UnstakeEffect | contracts/staking.rs:197-230 | when exactly unstaking succeeds, whose delegation falls, and the entry it queues |
| StakingEffects.PrivateStakeEffect | contracts/staking.rs:163-186 | needs a proof and a validator, which it activates, and changes nothing else |
| StakingEffects.DistributeEffect | contracts/staking.rs:262-284 | when exactly distribution succeeds, and what each validator gains |
| StakingEffects.CommissionIsLargest | contracts/staking.rs:270 | a commission is the most within the rate's share of the reward |
| StakingLedger.UnstakeKeepsInv | contracts/staking.rs:197-238 | unstaking within a delegation never underflows and keeps it |
| StakingLedger.UnbondingKeepsInv | contracts/staking.rs:242-258 | every due payout is funded |
| StakingLedger.DueSplitsAmounts | contracts/staking.rs:246-257 | amounts due and not due add up to the queue's |
| StakingLedger.NotDueIsSublist | contracts/staking.rs:246-257 | what remains was in the queue and is not due |
| StakingLedger.DueIsPrefix | contracts/staking.rs:246-257 | in a sorted queue the due entries are a prefix |
| StakingLedger.PayoutsArePrefixes | contracts/staking.rs:223-258 | with block heights that never fall the queue is always sorted and every payout is a prefix of it |
| StakingLedger.CommissionsBounded | contracts/staking.rs:95-117 | registered commissions lie between the base and the larger of the base and 100% |
| StakingLedger.CommissionWithinReward | contracts/staking.rs:270-271 | a commission exceeds some reward exactly when its rate exceeds 100% |
| StakingLedger.DistributionPanicsIff | contracts/staking.rs:270-271 | some reward makes distribution panic exactly in a build with overflow checks at a rate above 100%; other builds credit the commission |
| SolidityStaking.ProtonStaking.RegisterValidator | contracts/ProtonStaking.sol:96-116 | the whole new book and outcome; the list names each validator once |
| SolidityStaking.ProtonStaking.Stake | contracts/ProtonStaking.sol:121-145 | the whole new book and outcome |
| SolidityStaking.ProtonStaking.PrivateStake | contracts/ProtonStaking.sol:150-177 | the whole new book and outcome; the total grows by one |
| SolidityStaking.ProtonStaking.Unstake | contracts/ProtonStaking.sol:182-198 | the whole new book and outcome, underflow reverts included |
| SolidityStaking.ProtonStaking.DistributeRewards | contracts/ProtonStaking.sol:240-267 | commissions in list order, repeated and inactive entries as the code treats them, all undone by a revert |
| SolidityStaking.ProtonStaking.SlashValidator | contracts/ProtonStaking.sol:282-296 | cuts the stake, never the delegations, and deactivates |
| SolidityStaking.ProtonStaking.GetValidatorSet | contracts/ProtonStaking.sol:343-376 | the requested number of distinct validators with their stakes on record, descending, and nobody left out has more than anybody listed |
| ValidatorRanking.ExchangeSort | contracts/ProtonStaking.sol:357-364 | both arrays end rearranged by one permutation, the stakes descending |
| ValidatorRanking.ExchangePass | contracts/ProtonStaking.sol:358-363 | the inner loop brings the largest remaining stake to its place and keeps what is done |
| ValidatorRanking.RankedPrefix | contracts/ProtonStaking.sol:366-375 | a prefix of such arrays keeps each address with its stake and outranks the rest |
| RewardShares.Reachable | contracts/ProtonStaking.sol:121-395 | in every reachable state the recorded total is the delegations plus the count of private stakes, no claim divides by zero, and all claims together stay within the accumulated rewards |
| RewardShares.UnstakeKeepsInv | contracts/ProtonStaking.sol:182-198 | unstaking within a delegation succeeds exactly when slashing has left enough stake |
| RewardShares.DistributeKeepsInv | contracts/ProtonStaking.sol:240-267 | distribution keeps the accounting and never underflows |
| RewardShares.SumOfFloors | contracts/ProtonStaking.sol:392 | shares rounded down separately never add up to more than the whole |
| RewardShares.ClaimsBounded | contracts/ProtonStaking.sol:381-395 | the doubly rounded rewards of any number of delegators never exceed rewardsAccumulated |
| RewardShares.ClaimAccurate | contracts/ProtonStaking.sol:392-394 | a claim falls short of delegation * accumulated / total by less than 1 + accumulated / 10^18 |
| RewardShares.WholeShareClaimsAll | contracts/ProtonStaking.sol:392-394 | whoever holds the whole recorded total claims everything accumulated |
| RewardShares.NeverDividesByZero | contracts/ProtonStaking.sol:388-392 | a positive delegation has a positive recorded total |
| RewardEffects.DelegationIsOwn | contracts/ProtonStaking.sol:121-198 | over every run a delegation is what its owner staked with that validator less what they unstaked |
| RewardEffects.RegisterEffect | contracts/ProtonStaking.sol:96-113 | when exactly registration succeeds, and the idle validator it adds |
| RewardEffects.StakeEffect | contracts/ProtonStaking.sol:121-142 | when exactly a stake succeeds, and that it credits that delegator with that validator alone |
| RewardEffects.PrivateStakeEffect | contracts/ProtonStaking.sol:157-174 | when exactly a private stake succeeds, and that it spends its nullifier and counts one |
| RewardEffects.UnstakeEffect | contracts/ProtonStaking.sol:183-198 | when exactly unstaking succeeds, and whose delegation falls |
| RewardEffects.DistributeEffect | contracts/ProtonStaking.sol:244-263 | always goes through for the owner and equal lengths; each active validator gains its commissions over all its entries |
| RewardEffects.SlashEffect | contracts/ProtonStaking.sol:282-290 | when exactly slashing succeeds, how much it takes, and that no delegation changes |
| RewardEffects.CommissionIsLargest | contracts/ProtonStaking.sol:252 | a commission is the most within the rate's share |
| RewardEffects.ClaimIsLargest | contracts/ProtonStaking.sol:392-394 | a claim is exactly the floor of the floored share |
| ProtonBridge.ProtonBridge.InitiateTransfer | contracts/ProtonBridge.sol:179-235 | the whole new state and outcome; stored signatures survive a repeated id |
| ProtonBridge.ProtonBridge.InitiatePrivateTransfer | contracts/ProtonBridge.sol:240-288 | the whole new state and outcome; the lock grows by one |
| ProtonBridge.ProtonBridge.SignTransfer | contracts/ProtonBridge.sol:293-332 | the whole new state and outcome; a repeated signature is not counted |
| ProtonBridge.ProtonBridge.ExecuteTransfer | contracts/ProtonBridge.sol:337-376 | the whole new state and outcome, never reverting for want of locked assets or tokens |
| ProtonBridge.ProtonBridge.SetValidatorThreshold | contracts/ProtonBridge.sol:554-556 | changes the threshold only, for the owner only, recorded statuses stay |
| ProtonBridge.ProtonBridge.AddValidator | contracts/ProtonBridge.sol:160-174 | adds an active validator once; the zero address never counts as registered |
| BridgeRuns.Reachable | contracts/ProtonBridge.sol:179-376 | in every reachable state a lock holds the open public amounts behind it, one per private initiation, and what repeated ids locked again; the tokens held cover everything open; the locked-assets check never fires |
| BridgeRuns.LockedIsOwed | contracts/ProtonBridge.sol:206-327 | with ids that do not repeat, the lock is exactly the open public amounts plus the number of private initiations |
| BridgeRuns.RunKeepsInv | contracts/ProtonBridge.sol:126-376 | every run keeps the bridge's invariant |
| BridgeRuns.ExecutedOnce | contracts/ProtonBridge.sol:337-368 | each id executes at most once, and once exactly when it is marked completed |
| BridgeRuns.ExecutedOnlyApproved | contracts/ProtonBridge.sol:293-368 | an executed id was signed by at least one and at least as many distinct active validators as the threshold in force at the completing signature |
| BridgeRuns.RunApproves | contracts/ProtonBridge.sol:316-327 | stored signatures are accepted ones, and whatever is executable was approved |
| BridgeRuns.SignsIff | contracts/ProtonBridge.sol:298-314 | signing succeeds exactly from a registered, active validator, on a pending transfer not executed, with a valid signature and proof |
| BridgeEffects.SignEffect | contracts/ProtonBridge.sol:298-327 | and then records exactly that signature, its count and the status the threshold gives |
| BridgeEffects.InitiateEffect | contracts/ProtonBridge.sol:185-220 | when exactly a public initiation succeeds, that the sender pays the bridge and nobody else moves, and the record of the call's own arguments |
| BridgeEffects.InitiatePrivateEffect | contracts/ProtonBridge.sol:249-281 | when exactly a private initiation succeeds, its record, and that it moves no tokens |
| BridgeEffects.ExecuteRecords | contracts/ProtonBridge.sol:338-368 | execution completes one id and marks its record; no other record changes |
| BridgeEffects.ExecuteLocks | contracts/ProtonBridge.sol:348-359 | only the executed transfer's own lock falls, by its amount, and only on release |
| BridgeEffects.RecordsWereInitiated | contracts/ProtonBridge.sol:188-281 | whatever the bridge records was initiated by its own sender with its own arguments |
| BridgeEffects.AddChainEffect | contracts/ProtonBridge.sol:126-143 | only the owner adds a chain, once while active |
| BridgeEffects.DeactivateChainEffect | contracts/ProtonBridge.sol:562-564 | only the owner deactivates a chain, and no other |
| BridgeEffects.RegisterWrappedEffect | contracts/ProtonBridge.sol:148-155 | only the owner registers a wrapped asset, under one key |
| BridgeEffects.AddValidatorEffect | contracts/ProtonBridge.sol:160-170 | only the owner adds a validator, once unless it is the zero address |
| BridgeEffects.DeactivateValidatorEffect | contracts/ProtonBridge.sol:566-568 | only the owner deactivates a validator, and no other |
| BridgeEffects.SetThresholdEffect | contracts/ProtonBridge.sol:554-556 | only the owner sets the threshold |
| BridgeRuns.ReleasePays | contracts/ProtonBridge.sol:355-365 | release pays the receiver named at initiation the amount locked there and moves no other balance |
| BridgeRuns.MintPays | contracts/ProtonBridge.sol:352-354 | minting pays that receiver in the wrapped token and leaves locks and every other balance alone |
| BridgeRuns.RemoteNeverSettles | contracts/ProtonBridge.sol:212-359 | a transfer to another chain never executes in this contract and its lock never falls |
| BridgeSettling.RepeatExhaustsIff | contracts/ProtonBridge.sol:209-220 | repeating an initiation leaves the transfer short exactly when fewer active validators than the threshold have yet to sign, or there are none |
| BridgeSettling.RepeatPrivateExhaustsIff | contracts/ProtonBridge.sol:269-281 | the same for a private initiation |
| BridgeSettling.ExhaustedStays | contracts/ProtonBridge.sol:293-332 | a transfer whose counted and coming signatures stay short never executes until a validator joins or the threshold changes |
| BridgeSettling.SignUp | contracts/ProtonBridge.sol:316-327 | otherwise the active validators who have not signed can complete it |
| BridgeSettling.SettlesIff | contracts/ProtonBridge.sol:293-376 | so a transfer addressed here can be executed, without new validators or threshold, exactly when it is not so exhausted |
| BridgeTransfers.ExecutesIff | contracts/ProtonBridge.sol:337-368 | execution succeeds exactly when the id is signed, addressed here, not completed, and any mint succeeds |
| BridgeTransfers.ExecuteKeepsInv | contracts/ProtonBridge.sol:337-368 | execution keeps the accounting on both the mint and the release path |
| BridgeTransfers.InitiateKeepsInv | contracts/ProtonBridge.sol:200-220 | initiation keeps it, for new and for repeated ids |
| BridgeTransfers.SignKeepsInv | contracts/ProtonBridge.sol:316-327 | signing keeps it; the count never exceeds the distinct signers |
| ShardManager.ShardManager.ProcessCrossChainTx | src/multichain/mod.rs:238-265 | the whole new state and outcome; money is lost exactly on a positive amount under a pending id |
| ShardManager.ShardManager.ReceiveCrossChainTx | src/multichain/mod.rs:268-287 | the whole new state and outcome, the wrapping credit included; a message taken from a channel of a sound network is accepted and keeps it sound |
| ShardManager.CrossChainRouter.SubmitCrossTx | src/multichain/mod.rs:92-108 | refuses pending ids; a full or missing channel drops the message silently |
| ShardManager.CrossChainRouter.ConfirmTx | src/multichain/mod.rs:110-127 | moves a pending id to the completed map under its timestamp |
| ShardManager.CrossChainRouter.GetStats | src/multichain/mod.rs:133-138 | the two counts never exceed the accepted transfers and add up to them exactly when confirmation timestamps are distinct |
| CrossShard.ProcessConservesIff | src/multichain/mod.rs:242-259 | a debit conserves money exactly unless it ends in "already pending" with a positive amount, which it then loses |
| CrossShard.ReceiveConservesIff | src/multichain/mod.rs:271-281 | a delivery conserves exactly when the amount credited, less 2^128 where the balance wraps, equals the amount held under its id |
| CrossShard.ProcessMovesOne | src/multichain/mod.rs:242-254 | only the sender's balance on the source shard moves, by the full amount if it covers it |
| CrossShard.ReceiveMovesOne | src/multichain/mod.rs:271-278 | only the receiver's balance on the target shard moves, by the amount modulo 2^128 |
| CrossShard.Reachable | src/multichain/mod.rs:92-287 | over lossy channels, with ids reused or not and a supply below 2^128: balances, pending amounts and what reuse lost make up the supply, every message in flight is the pending entry of its id, and credits plus pending equal acceptances per id |
| CrossShard.RunLosesIff | src/multichain/mod.rs:242-259 | a run loses money exactly when some payable start of a positive amount reuses an id still pending |
| CrossShard.ConservesIff | src/multichain/mod.rs:92-287 | balances plus pending amounts stay the opening supply exactly in the runs without such a reuse |
| CrossShardOrigins.StartEffect | src/multichain/mod.rs:238-259 | a start is accepted exactly when the source exists, the sender can pay and the id is free, and then the router holds and sends that very transfer |
| CrossShardOrigins.ConfirmEffect | src/multichain/mod.rs:110-127 | a confirmation removes one pending id and files it under its timestamp |
| CrossShardOrigins.PendingWasStarted | src/multichain/mod.rs:92-265 | over every run a pending entry is what the last accepted start of its id asked for |
| CrossShardOrigins.DeliveredAsStarted | src/multichain/mod.rs:238-287 | over every run a delivery credits exactly the receiver and amount named at the last accepted start of its id, on its target shard, and changes no other balance |
| CrossShard.RunKeepsInv | src/multichain/mod.rs:92-287 | every such run keeps that invariant |
| CrossShard.DeliveryCredits | src/multichain/mod.rs:268-287 | a delivery from a channel always succeeds and, where the target shard exists, is credited in full, without wrapping |
| CrossShard.StartStrandsIff | src/multichain/mod.rs:101-107 | an accepted transfer is stranded at once exactly when the target's channel is missing or full |
| CrossShard.LosingStrands | src/multichain/mod.rs:75-105 | a message lost from a channel later leaves its transfer pending with nothing in flight |
| CrossShard.LostStaysPending | src/multichain/mod.rs:92-127 | and nothing ever resends or credits it |
| CrossShard.StatsCountConfirmations | src/multichain/mod.rs:118-138 | completed entries miss confirmations exactly when two share a timestamp |
| Limbs.Add | src/sdk.rs:357-367 | the limb loop computes the sum modulo 2^256 |
| Limbs.Sub | src/sdk.rs:372-382 | the limb loop computes the difference modulo 2^256 |
| Limbs.OneCarry | src/sdk.rs:361-364 | at most one of the two carries of a limb is set, and one bit holds all that is lost |
| Limbs.OneBorrow | src/sdk.rs:376-379 | the same for borrows |
| Limbs.LoopsCompute | src/sdk.rs:355-383 | limbs with the loops' numbers are unique |
| Limbs.AddSubInverse | src/sdk.rs:355-383 | (a + b) - b = a and (a - b) + b = a, wrapping or not |
| Limbs.AddAssociative | src/sdk.rs:355-368 | wrapping addition is associative |
| Limbs.WrappedIff | src/sdk.rs:355-368 | a sum wrapped exactly when it is below an operand |
| Limbs.FromU128Exact | src/sdk.rs:385-392 | conversion from 128 bits keeps the number |
| Limbs.ToLeBytes | src/sdk.rs:346-352 | 32 bytes that write the same number in base 256 |
| Limbs.BytesDetermine | src/sdk.rs:346-352 | different numbers have different bytes |
| Limbs.DerivedOrderIsNumericIff | src/sdk.rs:334 | the derived comparison is the numeric one exactly when the lowest and highest differing limbs agree |
| Limbs.DerivedOrderMisleads | src/sdk.rs:334 | 2^64 compares below 1 |

## Left out

- Networking, storage, command line, node wiring, timers, logging, metrics, event emission and deployment scripts.
- Zero-knowledge circuits, encrypted orders, private swaps, stealth addresses and encryption: placeholders in the source.
- Contract deployment and calls, WASM and EVM execution, gas estimation, random committees, and NFTs.
- contracts/dex.rs and contracts/bridge.rs: partial twins of the Solidity contracts modelled here.
- contracts/ProtonStaking.sol:216-277, the Solidity unbonding loop and reward claims: the Rust queue is the fuller one, and
  a claim does not reduce what can be claimed again, so `RewardShares.ClaimsBounded` speaks of one claim per delegator.
- Bridge and both staking contracts: amounts are unbounded, so reverts or wraps on 256-bit and 128-bit overflow of their
  sums are not modelled; the exchange, the executor, quorums and cross-shard credits model theirs.
- Builds of the node with overflow checks, which panic where the release build modelled here wraps. The Rust staking
  contract is modelled both with and without such checks.
- StakingContract.ProtonStaking.Unstake: in states no run reaches, an underflow panics in either build.
- Reentrancy: the guarded Solidity calls are atomic steps.
- Bridge record fields that are never read (timestamps, encrypted amounts, last signatures, gas limits, totals of stake)
  and the owner's chain, wrapped-asset and deactivation setters as methods; as step functions they are part of every run.
- EIP-20 transfers to the zero address succeed in the model, as the standard allows, where some implementations revert.
- TransactionExecutor.ProtonVM.ExecuteTransaction: deployment and contract calls are not among its kinds.
- QuorumLimits.CertifiesIffDistinct: lists of 2^127 entries or more, which no memory holds, are excluded, here and in
  QuorumLimits.TwoThirdsIff.
- Block header fields that no check reads beyond the hash: version, state root, shard, time, gas used, extra data.
- BridgeSettling.SettlesIff: whether a wrapped token's mint succeeds is the environment's choice at execution.
- Quorum.ValidatorSet.AddValidator: keys, commission and uptime beyond address, key and stake are not recorded.
- CrossShard.Reachable: channels are a multiset of messages that may be lost or taken in any order; their capacity is the
  environment's choice at each send.
