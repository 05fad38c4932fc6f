# A verified model of the PCN blockchain node

The node is a C++ program: a proof-of-work ledger with accounts, a pool of pending transfers, a chain file
that survives crashes, and peers that exchange blocks. This project models its ledger core and the structures
it leans on, and proves what they keep over every run.

The objects that change in place are classes (`Core.Blockchain`, `StateManagement.StateManager`,
`AtomicFiles.AtomicFile`, `ChainStorage.ChainStore`, `Node.Node`, `RateLimiter.Limiter`, `PeerLink.Reader`,
`PeerLink.Writer`), with the loops and early exits of the program. Each operation is proved against a function
of the old state (`Machine.AfterAdd`, `AfterMine`, `AfterAccept`, `AfterReplace`, `AtomicFiles.WriteRun`,
`Network.OnNewBlock`, ...), and the theorems are about runs of those functions.

Two kinds of run are kept apart. *All runs* mix adding, mining, accepting and replacing. *Local runs* only add
and mine: the validation of received blocks looks at no balance, nonce, repeated identifier, reward amount or coinbase
count, so solvency, supply, distinct identifiers and nonce counting hold for local runs. For each of the four
`UncheckedBlocks` gives accepted blocks that break it and the exact condition under which an accepted block keeps it; for
solvency this condition covers the blocks that themselves replay without saturating, missing an account or wrapping.

## Main results

- **Admission, exactly** (`Admission.AdmittedExactlyWhen`), **acceptance, exactly** (`Signatures.AcceptedExactlyWhen`), and
  over every run each transfer above genesis or in the pool is signed (`Signatures.EveryTransferIsSigned`).
- **Nothing pending is lost** (`PoolHistory.PendingUntilConfirmed`): over every run a pending transfer leaves the pool exactly
  when its identifier is confirmed.
- **Solvency** (`LocalRuns.LocalRunIsSolvent`). Admission compares 64-bit sums over the pool; replay moves the
  amounts one by one with a saturating debit. Over every local run the replay of the whole pool never saturates,
  never misses an account and never wraps, also after any mined prefix. Only the supply has to stay below 2^63;
  the sums of the check may wrap, because wrapping can turn a payment away but never lets one through.
- **Supply, identifiers, nonces** (`LocalHistory.FreshRunSupply`, `FreshRunHistory`). From genesis the accounts
  hold 50 a block less what was sent to the empty address; chain and pool together hold exactly the accepted
  transfers in order, each once; the confirmed nonces of every address are 1, 2, ..., its last nonce.
- **The pending view comes true** (`WalletView.ShownBalanceComesTrue`).
- **Every reachable state is sound** (`Machine.EveryReachableStateIsSound`): the chain is valid, the account
  state is the index of the chain, the pool holds no duplicate and nothing confirmed.
- **Tamper evidence** (`TamperEvidence.TipDeterminesHeaders`, `SameHeadersDetermineTransactions`,
  `Merkle.RootDeterminesLeaves`). A collision is
  always a concrete pair of strings that the two objects really hash; nothing is assumed about SHA-256 except
  that it prints 64 characters.
- **Crash atomicity and durability** (`AtomicFiles.HistoryIsAtomic`, `Durability.RestartRestores`,
  `Crashes.CrashFindsHeldChain`). Under failures and crashes the file always holds a chain that the node once held.
  A step stores the new chain exactly when it replaces the chain or the file held the old one, and the write returns true
  (`Crashes.StoredExactlyWhen`).
- **Gossip** (`Gossip.OneAnnouncementPerHeight`, `GossipAlwaysEnds`, `AllNodesAgree`), and convergence can always be reached:
  a node that hears of a block ahead asks, is answered and catches up (`Exchange.AheadCatchesUp`, `EveryoneCatchesUp`).
- **Difficulty, rate limiter, framed link** (`Difficulty.RetargetComputes`, `SlowChains.SustainedSlowness`,
  `FastChains.SustainedSpeed`, `EngineRuns.RunPassesEngine`,
  `RateLimiter.AtMostMaxPerSecond`, `PeerLink.ParseInPieces`, `PeerLink.Writer.ReceiverSeesPrefix`).

## Where a promise does not hold

- Rewards are not bound by any hash: nobody checks their identifiers, and a single leaf is its own Merkle root. Any
  block of a valid chain can be rewritten to one reward of any amount to anyone; the chain stays valid with the same
  headers and tip hash, and the accounts differ: `ForgedRewards.RewrittenChainIsValid`, `RewrittenAccountsDiffer`. Where
  blocks hold equally many transactions whose identifiers fit, the header does determine them, rewards included, exactly
  where their fields are equally long: `TamperEvidence.SameHeadersDetermineTransactions`.
- The Merkle root does not determine the number of transactions: `Merkle.SingleLeafIsRoot`, `RepeatedLastLeaf`. Nor does
  it separate leaves of different lengths, as reward identifiers may be: `Merkle.LeavesRunTogether`.
- The header text does not separate its fields, and nothing checks the shape of a timestamp or the identifier of a
  reward: `TamperEvidence.TimestampAndRootRunTogether` gives two valid chains with one tip hash and different headers.
  Equal texts mean equal headers exactly where the fields are equally long (`HeaderDetermines`), which holds for
  timestamps and identifiers as the node itself makes them (`WellShapedLayoutsAgree`).
- Nonce and difficulty are hashed as one digit string: `TamperEvidence.NonceAndDifficultyRunTogether`. Exactly
  difficulties of equally many digits keep them apart, so those below 10 do: `DigitsDetermine`.
- Nothing checks the index, difficulty, target or transactions of a genesis block: `ForgedRewards.GenesisIsUnchecked`.
  Where a block hashes to 64 zeros, the next one by itself is a valid chain with the same tip:
  `TamperEvidence.TipAloneIsValid`.
- The identifier text of a transaction does not separate its fields either, as an address or a receiver key may contain
  the separator: with `Transactions.OneSignatureTwoTransfers` one signature authorises two different transfers.
  Equal texts mean equal fields exactly where the fields are equally long: `TxIDDeterminesFields`.
- Slow blocks need not lower the difficulty: with a factor of 2 and a minimum of 0, or of 1.25 and 1, it sticks.
  `Difficulty.TooSlowLowers` and `FallsExactlyWhen` give the exact conditions.
- A balance of half the 64-bit range is lost by paying it to oneself: `Solvency.SelfTransferOfHalfTheRange`.
- A received block may hold a reward of any amount (`UncheckedBlocks.RewardIsUnchecked`), overspend
  (`OverspendingIsUnchecked`), repeat a transfer (`ConfirmedTwice`), skip or reuse a nonce (`CountBroken`), and leave
  pending transfers without funds (`PoolLeftUncovered`).
- One failed append ends storing until the chain is replaced: from then on the file does not change, however well later
  writes would go (`Crashes.FailedAppendEndsStoring`).
- After a write error inside a frame the receiver takes the next bytes as the end of that frame
  (`PeerLink.CutFrameSwallows`).
- A transfer to a receiver key without an address can be admitted when it is submitted to the ledger object directly;
  transactions from the network are normalised first (`src/network/node.cpp:494-535`), and the HTTP interface asks for an address. Once it is mined
  and stored, a restart rejects the stored chain and starts afresh, or exhibits a collision:
  `Durability.KeyOnlyIsAdmitted`, `RestartRejectsChain`.
- A crash in the very first write, or after a failed restore, can recover to a partial file:
  `AtomicFiles.FirstWriteCutShort`, `LostMainThenCrash`. Where looking for the backup throws, only the backup is left and
  nothing brings it back: `OnlyBackupLeft`.

The model follows the code where documents disagree with it. `include/transaction/transaction.h` and the
tests use a legacy sender address, the bare hash of the key, which `verify` allows; `addTransaction` admits only the
`PCN_` form. `analyse.md` says that exactly one coinbase per block is enforced; no code does that (`UncheckedBlocks.AcceptedWhateverTheFunds`). `README.md`, `GUIDE.md`
and `analyse.md` give a rate limit of 50 messages a second; the code uses 100.

## Reading order

`Primitives`, `Merkle`, `Transactions`, `Blocks`, `Difficulty`, `ChainValidity`, `TamperEvidence`, then
`LedgerSpec`, `ForgedRewards`, `StateManagement`, `Totals`, `Solvency`, `Nonces`, `Machine`, `LocalRuns`, `LocalHistory`, `WalletView`,
`UncheckedBlocks`, `Signatures`, `Admission`, `PoolHistory`, `EngineRuns`, `SlowChains`, `FastChains`, then `AtomicFiles`, `ChainStorage`, `Core`, `Durability`, `Crashes`, and
`RateLimiter`, `PeerLink`, `Network`, `Gossip`, `Exchange`, `Node`. `dafny verify dfyconfig.toml` checks everything.

## Model

| member | source | states |
|---|---|---|
| Merkle.NextLevel | src/block/block.cpp:59-72 | one round halves a level, pairing neighbours and the last node with itself where it has none |
| Merkle.ComputeRoot | src/block/block.cpp:38-76 | the bottom-up loop terminates with the root of the top-down tree whose right child is min(2i+1, last); no leaves give the hash of the empty string |
| Merkle.RootDeterminesLeaves | src/block/block.cpp:56-75 | two equally long lists with one root are equal if and only if their leaves are equally long one by one, or the two trees hash a colliding pair at one of their nodes |
| Merkle.LeavesRunTogether | src/block/block.cpp:64 | the end of one leaf and the beginning of the next can be exchanged without changing the root |
| Merkle.SingleLeafIsRoot | src/block/block.cpp:57-75 | a single leaf is the root, whatever text it is |
| Merkle.RepeatedLastLeaf | src/block/block.cpp:66-70 | repeating the last of an odd number of at least three leaves keeps the root |
| Transactions.TxIDDeterminesFields | src/transaction/transaction.cpp:28-46 | two transactions with one identifier have the same fields, signature apart, if and only if their fields are equally long, or the two hashed texts collide |
| Transactions.SeparableIsDetermined | src/transaction/transaction.cpp:28-46 | keys, addresses and timestamps without the separator are enough for that, whatever the payload contains |
| Transactions.OneSignatureTwoTransfers | src/transaction/transaction.cpp:57-86 | a verified transfer whose payload starts with a number, and another with that number as its nonce and a longer receiver address, have one identifier text and verify with one signature |
| Transactions.DecodedIsNormal | src/transaction/transaction.cpp:144-172 | whatever is decoded needs no further filling in |
| Transactions.TxRoundTrip | src/transaction/transaction.cpp:130-172 | a transaction survives encoding and decoding if and only if it is normal; doing it twice changes no more than once |
| Transactions.DecodedFields | src/transaction/transaction.cpp:144-172 | member by member, what decoding takes over, what it fills in and with what |
| Transactions.CoreReads | src/transaction/transaction.cpp:28-41 | the identifier text is the eight fields in their order, separated by bars |
| Blocks.ComputeMerkleRoot | src/block/block.cpp:45-54 | the leaves are the identifiers, or a hash of the fields where there is none, in order |
| Blocks.SealedBlock | src/block/block.cpp:85-100 | sealing fills in root and hash, meets the target and leaves everything else alone |
| Blocks.SearchNonce | src/block/block.cpp:94-100 | the search from 0 stops at the first nonce that meets the target |
| Blocks.MineBlock | src/block/block.cpp:85-104 | given that some nonce solves the block, mining ends with the least one, root filled in |
| Blocks.DecodedBlockIsNormal | src/block/block.cpp:162-182 | a received block consists of normal transactions |
| Blocks.BlockRoundTrip | src/block/block.cpp:142-182 | a block survives encoding and decoding if and only if its transactions are normal; its header always does |
| Blocks.DecodedBlockFields | src/block/block.cpp:162-182 | what each member of a received block decodes to, a missing difficulty to 1 |
| Blocks.GenesisHolds | src/block/block.cpp:184-210 | the genesis block is the same for every node but for difficulty and nonce: index 0, its fixed time, 64 zeros, one reward of 50 to GENESIS |
| ChainValidity.HasValidTransactions | src/block/block.cpp:130-140 | true exactly when every transaction verifies |
| ChainValidity.IsChainValid | src/core/blockchain.cpp:353-434 | the loop decides exactly the genesis rules and the rules for each later block |
| ChainValidity.ValidateBlock | include/consensus/pow_engine.h:39-93 | decides exactly the engine's rules for a block after its predecessor at a clock reading |
| ChainValidity.ValidateChainAgainstConsensus | src/core/blockchain.cpp:327-351 | decides the structural rules and, under an engine, its rules for every block above genesis |
| ChainValidity.PrefixIsValid | src/core/blockchain.cpp:353-434 | every non-empty prefix of a valid chain is valid |
| ChainValidity.ExtensionIsValid | src/core/blockchain.cpp:284-289 | one more block keeps a valid chain valid if and only if that block alone passes after the tip |
| ChainValidity.LaterClock | src/consensus/difficulty_adjuster.cpp:98-128 | a valid chain stays valid as the clock advances |
| TamperEvidence.HeaderDetermines | src/block/block.cpp:78-83 | blocks with one header text agree in index, timestamp, root, previous hash and the digits of nonce and difficulty if and only if index digits, timestamp, root and previous hash are equally long |
| TamperEvidence.DigitsDetermine | src/block/block.cpp:81 | with the same digits, nonce and difficulty agree if and only if the difficulties have equally many digits, as they do below 10 |
| TamperEvidence.NonceAndDifficultyRunTogether | src/block/block.cpp:81 | two different pairs of nonce and difficulty have the same hash |
| TamperEvidence.TimestampAndRootRunTogether | src/core/blockchain.cpp:353-434 | two valid chains whose tips hold one reward each have one tip hash and one header text but different timestamps and roots |
| TamperEvidence.TipDeterminesHeaders | src/core/blockchain.cpp:353-434 | two valid chains with one tip hash are equally long and agree header by header and hash by hash if and only if, counted from the tips, equal header texts are divided alike; or two of their headers collide, or a genesis index is not 0 |
| TamperEvidence.WellShapedLayoutsAgree | src/block/block.cpp:16-36 | with 20-character ISO timestamps and 64-character leaves equal header texts are always divided alike |
| TamperEvidence.NodeBuiltTipsDetermine | src/core/blockchain.cpp:353-434 | with genesis index 0, ISO timestamps and 64-character leaves two valid chains with one tip hash are equally long and agree header by header and hash by hash, or two of their headers collide |
| TamperEvidence.TipAloneIsValid | src/core/blockchain.cpp:358-378 | where the last block but one hashes to zeros, the last one by itself is a valid chain with the same tip |
| TamperEvidence.SameHeaderDeterminesTransaction | src/block/block.cpp:38-76 | blocks with one header and equally many transactions have the same identifiers if and only if these are equally long, and then the same transactions, signatures apart, wherever the identifiers fit, rewards included, if and only if the fields are equally long; or something hashed for them collides |
| TamperEvidence.SameHeadersDetermineTransactions | src/core/blockchain.cpp:353-434 | the same over whole chains |
| ForgedRewards.RewrittenChainIsValid | src/core/blockchain.cpp:327-434 | a valid chain, under the engine too, stays valid with the same headers and tip hash when a block's transactions are replaced by one reward of any amount to anyone |
| ForgedRewards.RewrittenAccountsDiffer | src/transaction/transaction.cpp:57-62 | two such chains have one tip hash and different balances |
| ForgedRewards.GenesisIsUnchecked | src/core/blockchain.cpp:358-378 | a genesis block with any index, difficulty, time and transactions is a valid chain |
| Difficulty.NextStaysInRange | src/consensus/difficulty_adjuster.cpp:33-96 | the difficulty stays within its bounds and changes only when the length less one is a multiple of the window |
| Difficulty.SlowerIsNotHarder | src/consensus/difficulty_adjuster.cpp:67-84 | a longer window never gives a higher difficulty |
| Difficulty.BoundedMove | src/consensus/difficulty_adjuster.cpp:75-84 | one retarget divides or multiplies by at most the adjustment factor, rounded |
| Difficulty.OnTargetKeeps | src/consensus/difficulty_adjuster.cpp:67-84 | a window of exactly the expected length changes nothing |
| Difficulty.RetargetComputes | src/consensus/difficulty_adjuster.cpp:67-84 | for every window the result is the difficulty, times the factor after one too fast by it, over the factor after one too slow by it, times expected over actual time otherwise, rounded to the nearest integer and kept in range |
| Difficulty.RetargetBelowOne | src/consensus/difficulty_adjuster.cpp:75-84 | with a factor below 1 every window divides by the factor |
| Difficulty.NextDifficultyIs | src/consensus/difficulty_adjuster.cpp:33-65 | a retarget takes place exactly on chains of a whole number of windows above genesis whose last window took a positive time |
| Difficulty.RaisesExactlyWhen | src/consensus/difficulty_adjuster.cpp:67-84 | a window raises a difficulty below the maximum if and only if both the factor and expected over actual time bring it up by half a step |
| Difficulty.TooFastRaises | src/consensus/difficulty_adjuster.cpp:75-84 | a window too fast by the factor raises it if and only if the factor brings it up by half a step |
| Difficulty.RisesExactlyWhen | src/consensus/difficulty_adjuster.cpp:75-84 | such windows raise every difficulty below the maximum if and only if the factor brings up the minimum |
| Difficulty.FastWindowRaises | src/consensus/difficulty_adjuster.cpp:75-84 | under these settings one such window raises the difficulty by at least one or keeps it at the maximum |
| Difficulty.TooSlowLowers | src/consensus/difficulty_adjuster.cpp:75-84 | a window too slow by the factor f lowers a difficulty d above the minimum if and only if d < f(d - 0.5), for every factor |
| Difficulty.FallsExactlyWhen | src/consensus/difficulty_adjuster.cpp:75-84 | such windows lower every difficulty above the minimum if and only if this holds just above the minimum |
| Difficulty.SettingsThatFall | src/consensus/difficulty_adjuster.cpp:14-24 | which settings that is: every factor above 2, a factor of 2 with a minimum of 1, but not 2 with 0 or 1.25 with 1 |
| Difficulty.FactorTwoSticks | src/consensus/difficulty_adjuster.cpp:80-84 | with a factor of 2 a difficulty of 1 above a minimum of 0 is stuck however slow the blocks are |
| Difficulty.SlowWindowLowers | src/consensus/difficulty_adjuster.cpp:75-84 | under these settings one such window lowers the difficulty by at least one or keeps it at the minimum |
| SlowChains.SustainedSlowness | src/core/blockchain.cpp:185-196 | over every local run whose windows are all too slow the difficulty falls by at least one at each window boundary of the chain, or is at the minimum |
| SlowChains.ReachesMinimum | src/core/blockchain.cpp:185-196 | mining more blocks than the window times the distance to the minimum brings it to the minimum |
| FastChains.SustainedSpeed | src/core/blockchain.cpp:185-196 | over every local run whose windows are all too fast the difficulty rises by at least one at each window boundary of the chain, or is at the maximum |
| FastChains.ReachesMaximum | src/core/blockchain.cpp:185-196 | mining more blocks than the window times the distance to the maximum brings it to the maximum |
| StateManagement.StateManager.CreditReceiver | src/state/state_manager.cpp:18-22 | credit and history of the receiver, wrapping at 64 bits, nothing for an empty address |
| StateManagement.StateManager.ChargeSender | src/state/state_manager.cpp:24-38 | ownership, spent identifier, saturating debit, last nonce and history of the sender, nothing for a coinbase |
| StateManagement.StateManager.ApplyBlockState | src/state/state_manager.cpp:14-40 | applies a block's transactions in order, each crediting before it debits |
| StateManagement.StateManager.RebuildState | src/state/state_manager.cpp:48-61 | forgets everything and replays the chain |
| StateManagement.StateManager.GetBalance | src/state/state_manager.cpp:90-95 | the balance, 0 for an unknown address |
| StateManagement.StateManager.GetLastNonce | src/state/state_manager.cpp:97-102 | the last nonce, 0 for an unknown address |
| LedgerSpec.RebuildIsReplay | src/state/state_manager.cpp:48-61 | rebuilding block by block is replaying all transactions in chain order |
| LedgerSpec.HistoryStep | src/state/state_manager.cpp:18-38 | a transaction enters an address's history once as receiver and once as sender |
| LedgerSpec.BalanceStep | src/state/state_manager.cpp:18-34 | every address's balance after any transaction: the credit wraps, the debit stops at zero |
| LedgerSpec.StateIndexesChain | src/state/state_manager.cpp:14-61 | spent identifiers are exactly the transfers', grouped by sender key; last nonces are maxima; histories list each address's transactions in chain order, self-transfers twice; only receivers have accounts |
| Solvency.CoveredIsExact | src/state/state_manager.cpp:18-34 | a funded transfer neither wraps the credit nor saturates or misses the debit |
| Solvency.SelfTransferOfHalfTheRange | src/state/state_manager.cpp:20-34 | paying one's whole balance to oneself keeps it if and only if twice the balance fits 64 bits |
| Solvency.ExactStepSupply | src/state/state_manager.cpp:18-34 | such a transfer conserves the supply, less what goes to the empty address |
| Solvency.CoveredReplay | src/state/state_manager.cpp:14-40 | a pool in which every sender is covered at its turn replays without ever saturating, missing an account or wrapping |
| Solvency.EffectiveIsReplayed | src/core/blockchain.cpp:102-117 | confirmed plus incoming less outgoing, the sums admission forms, is the balance after the one-by-one replay |
| Solvency.CoveredSuffix | src/core/blockchain.cpp:209-246 | confirming any prefix leaves the rest of the pool covered |
| Solvency.FundsCheckIsSound | src/core/blockchain.cpp:102-118 | the check in wrapping arithmetic passes exactly when the payment is covered and the available remainder is not below the outgoing one; it never passes an uncovered payment |
| Solvency.AdmissionKeepsCovered | src/core/blockchain.cpp:102-126 | what the check lets through keeps the whole pool covered |
| Solvency.FundsCheckIsExact | src/core/blockchain.cpp:105-118 | while supply times pool length plus one stays below 2^64, and for an empty pool always below 2^64, no sum wraps and the check decides exactly whether the effective balance suffices |
| Nonces.HighestAfterPrefix | src/core/blockchain.cpp:128-137 | the highest nonce seen does not change when a prefix is confirmed |
| Nonces.AdmissionKeepsContiguous | src/core/blockchain.cpp:128-143 | admitting the expected nonce continues a sender's count if and only if the count has not used up 64 bits |
| Nonces.ContiguousSuffix | src/state/state_manager.cpp:35 | confirming a prefix moves the last nonce by the number of its nonces and keeps the rest contiguous |
| Core.Blockchain.constructor | src/core/blockchain.cpp:17-64 | starts from the stored chain when it exists and validates, else from a fresh genesis that is then stored |
| Core.Blockchain.PendingSums | src/core/blockchain.cpp:102-115 | the loop's two sums, modulo 2^64 |
| Core.Blockchain.HighestSeenNonce | src/core/blockchain.cpp:128-135 | the highest of the confirmed and the pending nonces of a sender |
| Core.Blockchain.IsInMempool | src/core/blockchain.cpp:161-167 | whether the identifier is pending |
| Core.Blockchain.AddTransaction | src/core/blockchain.cpp:66-179 | appends the transaction and bumps the version exactly when it is admissible, else changes nothing |
| Core.Blockchain.CollectTransactions | src/core/blockchain.cpp:198-218 | the reward, then the first hundred pending transactions in order |
| Core.Blockchain.AssembleBlock | src/core/blockchain.cpp:185-221 | the block on top of the tip at the retargeted difficulty |
| Core.Blockchain.MineInMemory | src/core/blockchain.cpp:181-249 | chain, accounts, pool, difficulty and version after mining |
| Core.Blockchain.MinePendingTransactions | src/core/blockchain.cpp:181-268 | mining, and the block appended to the chain file |
| Core.Blockchain.RemovePending | src/core/blockchain.cpp:294-306 | drops exactly the pending transactions with one of the identifiers, keeping the order |
| Core.Blockchain.AcceptBlock | src/core/blockchain.cpp:270-319 | appends the block exactly when it continues the tip and validates, and then stores it |
| Core.Blockchain.ReplaceChain | src/core/blockchain.cpp:436-497 | takes the chain exactly when it is longer and valid, rebuilds the accounts, drops confirmed transactions from the pool and stores the chain |
| Core.LoadUsable | src/core/blockchain.cpp:30-47 | the stored chain if there is one and it validates, else nothing |
| Core.UsableExactlyWhen | src/core/blockchain.cpp:30-47 | a start-up uses what is on disk if and only if it is a non-empty array that decodes to a valid chain; it starts with the accounts replayed from the chain, an empty pool and version 1 |
| Machine.MinedBlockIsValid | src/core/blockchain.cpp:198-233 | whatever is pending, the mined block continues the chain |
| Machine.NextIsSound | src/core/blockchain.cpp:66-497 | every operation keeps the chain valid, the accounts the index of the chain, and the pool distinct, admitted and unconfirmed |
| Machine.EveryReachableStateIsSound | src/core/blockchain.cpp:14-497 | so does every run of operations from genesis or a stored valid chain |
| Signatures.VerifiesExactlyWhen | src/transaction/transaction.cpp:57-86 | a transaction verifies if and only if it is a reward or signed: positive amount, an address of its key or none, the hash of its fields as identifier, and that signed |
| Signatures.EveryTransferIsSigned | src/core/blockchain.cpp:66-497 | after every run every block above genesis is numbered, linked, hashed, rooted, begins with its zeros and holds only rewards and signed transfers; every pending transfer is signed and from its key's prefixed address |
| Signatures.AcceptedExactlyWhen | src/core/blockchain.cpp:270-289 | a block is accepted if and only if it follows the tip in this sense and, under an engine, its difficulty and time are in range |
| Signatures.OneAddressTwoKeys | src/transaction/transaction.cpp:17-21 | two keys share an address if and only if their hashes share the first 40 digits |
| Signatures.LeafBinds | src/block/block.cpp:48-54 | a leaf is the identifier, or binds the fields it is hashed from |
| Admission.AdmittedExactlyWhen | src/core/blockchain.cpp:66-179 | in a solvent state whose sums do not wrap a transaction is admitted, to the end of the pool, if and only if it is signed, from its key's prefixed address, covered by balance plus pending income less pending spending, next after all its sender's confirmed and pending nonces, at most 300 seconds from the clock, and with an identifier no confirmed or pending transfer has |
| Admission.AdmissionOverRuns | src/core/blockchain.cpp:66-179 | so it is after every local run from genesis within the bound |
| PoolHistory.ReplacementKeeps | src/core/blockchain.cpp:436-483 | a longer valid chain is taken with its accounts, and exactly the pending transactions whose identifier none of its transfers has stay, in order; any other chain changes nothing |
| PoolHistory.AcceptanceKeeps | src/core/blockchain.cpp:291-306 | after an accepted block exactly the pending transactions whose identifier no transaction in it has stay, in order |
| PoolHistory.LeavesExactlyWhen | src/core/blockchain.cpp:66-497 | a pending transfer leaves the pool in a step if and only if the step confirms its identifier |
| PoolHistory.PendingUntilConfirmed | src/core/blockchain.cpp:66-497 | over every run it stays until then |
| PoolHistory.VersionMoves | src/core/blockchain.cpp:499-503 | the version moves by one exactly when the chain changes or the pool grows |
| PoolHistory.MinedBlockHolds | src/core/blockchain.cpp:198-246 | the mined block field by field: index, link, time, a reward of 50 to the miner, then the first hundred pending transactions, which leave the pool |
| UncheckedBlocks.AcceptedWhateverTheFunds | src/core/blockchain.cpp:270-289 | a sealed block on the tip is accepted if and only if it is signed and, under an engine, its difficulty and time are in range |
| UncheckedBlocks.DistinctExactlyWhenNew | src/core/blockchain.cpp:270-292 | after an accepted block the confirmed identifiers are distinct if and only if the block repeats none of its own and none that is spent |
| UncheckedBlocks.ConfirmedTwice | src/core/blockchain.cpp:270-292 | with or without the engine a received block can confirm a transfer a second time |
| UncheckedBlocks.CountsExactlyWhenContinued | src/core/blockchain.cpp:270-292 | after an accepted block an address's confirmed nonces count from 1 if and only if those in the block continue its count |
| UncheckedBlocks.CountBroken | src/core/blockchain.cpp:270-292 | one signed transfer with any nonce but the next breaks the count and is accepted in a block |
| UncheckedBlocks.SolventExactlyWhenCoveredBehind | src/core/blockchain.cpp:291-306 | after an accepted block that itself replays without saturating, missing an account or wrapping, the rest of the pool is covered if and only if it is covered behind the block's transfers by the accounts as they were |
| UncheckedBlocks.PoolLeftUncovered | src/core/blockchain.cpp:291-306 | a block that spends what a pending transfer needs leaves the pool uncovered |
| UncheckedBlocks.ConservedExactlyWhenFunded | src/state/state_manager.cpp:18-34 | any single transfer adds its amount for a receiver, takes at most what the sender holds and loses 2^64 where the credit wraps; the supply is conserved if and only if no credit wraps and the sender covers the amount, or has nothing taken where there is no receiver |
| UncheckedBlocks.SupplyAfterBlock | src/state/state_manager.cpp:14-40 | over any block accounts and empty address together grow by the rewards and what senders lack, less 2^64 for each wrapped credit |
| UncheckedBlocks.SupplyGrowsExactlyWhen | src/core/blockchain.cpp:270-292 | after an accepted block they grow by 50 if and only if rewards and what senders lack come to 50, wrapped credits aside |
| UncheckedBlocks.RewardIsUnchecked | src/core/blockchain.cpp:270-292 | a block with one reward of any other amount is accepted and breaks this |
| UncheckedBlocks.OverspendingIsUnchecked | src/core/blockchain.cpp:270-292 | so does one with a reward of 50 and a transfer of more than its sender holds |
| LocalRuns.MineKeepsSolvent | src/core/blockchain.cpp:198-246 | mining a prefix of up to a hundred, reward first, replays exactly, keeps the rest covered, and changes the supply by the reward less what is sent to the empty address |
| LocalRuns.LocalRunIsSolvent | src/core/blockchain.cpp:66-268 | over every local run the replay of the pool stays exact, while supply and rewards stay below 2^63 |
| LocalRuns.LocalRunConserves | src/core/blockchain.cpp:209-246 | mining moves transfers from pool to chain without losing, repeating or reordering any; a run adds exactly what it accepted |
| LocalHistory.LocalRunConservesSupply | src/core/blockchain.cpp:198-215 | accounts plus what was sent nowhere grow by exactly 50 a block |
| LocalHistory.FreshRunSupply | src/block/block.cpp:184-210 | from genesis accounts plus what was sent nowhere are 50 times the chain length |
| LocalHistory.AdmissionDoesNotWrap | src/core/blockchain.cpp:105-118 | while 50 times chain length times pool length plus one is below 2^64, no admission sum wraps and the check is exact |
| LocalHistory.LocalRunKeepsIDsDistinct | src/core/blockchain.cpp:153-167 | no transfer is confirmed or pending twice |
| LocalHistory.LocalRunKeepsNoncesContiguous | src/core/blockchain.cpp:128-143 | pending nonces of each sender stay last+1, last+2, ... |
| LocalHistory.LocalRunCountsNonces | src/state/state_manager.cpp:35 | confirmed nonces stay 1, 2, ..., the recorded last one |
| LocalHistory.FreshRunHistory | src/core/blockchain.cpp:49-268 | from genesis all of this together, for every address |
| LocalHistory.PendingViewComesTrue | src/core/blockchain.cpp:213-246 | after enough mining every balance is its effective pending balance plus rewards, and the last nonce the highest pending one |
| WalletView.GetWalletBalance | src/network/http_server.cpp:956-988 | the loop's wrapping sums, their signed difference, and the next nonce |
| WalletView.ShownNonceIsTheOnlyOne | src/network/http_server.cpp:969-988 | what admission accepts from an address carries the nonce shown to it; then the next nonce is shown to the sender and the same to everyone else, and the transaction is not accepted again |
| WalletView.ShownBalanceIsEffective | src/network/http_server.cpp:977-979 | the pending balance shown is the effective balance and not negative |
| WalletView.ShownBalanceComesTrue | src/network/http_server.cpp:956-988 | what is shown is what will be confirmed, plus rewards mined meanwhile |
| EngineRuns.MinedBlockUnderEngine | include/consensus/pow_engine.h:39-93 | the mined block passes the engine if and only if its difficulty is from 1 to 64 and its time is between the tip's and two minutes ahead |
| EngineRuns.RunPassesEngine | src/core/blockchain.cpp:181-474 | with difficulties from 1 to 64 and a clock never behind the tip when mining, every run keeps the chain within the engine's rules |
| EngineRuns.DifficultyStep | src/core/blockchain.cpp:185-196 | only mining moves the difficulty, at window boundaries, within bounds |
| EngineRuns.RunKeepsDifficultyInRange | src/core/blockchain.cpp:185-196 | so every run keeps it within bounds |
| AtomicFiles.AtomicFile.AtomicWrite | src/storage/leveldb_manager.cpp:223-292 | effect by effect, failures and the exception handler included, the disk goes through exactly the states of the protocol, and the result is the protocol's |
| AtomicFiles.AtomicFile.Recover | src/storage/leveldb_manager.cpp:294-321 | drops a leftover temporary file next to a file, installs it where there is none |
| AtomicFiles.EveryStateIsIntact | src/storage/leveldb_manager.cpp:223-292 | a state of a write has the old or the new file, or none and the complete new temporary, if and only if it is not the last one of a write whose exception handler dropped the temporary after the file was lost |
| AtomicFiles.RecoveryKeepsIntact | src/storage/leveldb_manager.cpp:294-321 | recovery keeps this at every point and, completed, leaves the old or the new content |
| AtomicFiles.ReturnsTrue | src/storage/leveldb_manager.cpp:223-292 | a write returns true if and only if opening, writing, installing and, where there is a file, moving it aside succeed, and then the file holds the new content |
| AtomicFiles.CompletedWrite | src/storage/leveldb_manager.cpp:262-277 | a write that returns true leaves the new content, one that returns false the old one, unless the install failed and the backup was not put back |
| AtomicFiles.NothingLeftOver | src/storage/leveldb_manager.cpp:262-277 | a write that returns true leaves no temporary file, and a backup only where its removal fails |
| AtomicFiles.FailedWriteLeaves | src/storage/leveldb_manager.cpp:229-274 | what each failure leaves in the three files |
| AtomicFiles.EpisodeIsAtomic | src/storage/leveldb_manager.cpp:223-321 | a write that completes, or is cut off anywhere and followed by any number of cut-off recoveries and a complete one, leaves exactly old or new if and only if it put back what it moved aside, or was cut before the handler dropped what was left |
| AtomicFiles.HistoryIsAtomic | src/storage/leveldb_manager.cpp:223-321 | over any history of writes, failures and crashes the file is always there if and only if every episode keeps it, and then it is never older than the last write that returned true |
| AtomicFiles.FirstWrite | src/storage/leveldb_manager.cpp:294-320 | where there is no file, a crash in a write recovers to nothing, the complete content or the backup there was if and only if no other temporary file stands alone |
| AtomicFiles.FirstWriteCutShort | src/storage/leveldb_manager.cpp:314 | a partial first file is installed by recovery |
| AtomicFiles.LostMainThenCrash | src/storage/leveldb_manager.cpp:263-274 | when install and restore fail and the next write crashes, recovery installs a partial file although the backup is complete |
| AtomicFiles.OnlyBackupLeft | src/storage/leveldb_manager.cpp:268-291 | when install fails and looking for the backup throws, only the backup is left and recovery leaves it so |
| ChainStorage.ChainStore.HasPersistedChain | src/storage/leveldb_manager.cpp:204-219 | more than an empty array is on disk |
| ChainStorage.ChainStore.LoadChain | src/storage/leveldb_manager.cpp:32-69 | the decoded blocks, nothing for what is not an array |
| ChainStorage.ChainStore.SaveChain | src/storage/leveldb_manager.cpp:71-88 | writes the encoded chain atomically |
| ChainStorage.ChainStore.AppendBlock | src/storage/leveldb_manager.cpp:90-138 | appends exactly when the file is an array or empty and the block continues its last one; true exactly when the write also succeeds |
| ChainStorage.ChainRoundTrip | src/storage/leveldb_manager.cpp:53-79 | a stored chain comes back unchanged if and only if its transactions are normal |
| ChainStorage.AppendStores | src/storage/leveldb_manager.cpp:119-137 | appending the next block to a stored chain is never refused, and where the write returns true it stores the longer chain |
| ChainStorage.AppendCases | src/storage/leveldb_manager.cpp:94-127 | appending works on nothing, on an empty array and on an array that ends in the block before, and on nothing else |
| Durability.MinedBlockIsNormal | src/core/blockchain.cpp:198-221 | mining over a normal pool gives a block that survives storage |
| Durability.RunIsDurable | src/core/blockchain.cpp:251-489 | where all writes return true the file decodes to exactly the chain after every run |
| Durability.RestartRestores | src/core/blockchain.cpp:29-42 | then a restart finds the same chain and rebuilds the same accounts |
| Durability.KeyOnlyIsAdmitted | src/core/blockchain.cpp:66-179 | a funded and signed transfer with a receiver key and no receiver address is admitted and is not normal |
| Durability.UnnormalBlockChangesOnReload | src/transaction/transaction.cpp:163-166 | a block with such a transfer does not come back as it was |
| Durability.ReloadedFailsToVerify | src/transaction/transaction.cpp:57-86 | read back, such a transfer has a receiver address and no longer verifies, or two identifier texts collide |
| Durability.RestartRejectsChain | src/core/blockchain.cpp:30-47 | a restart finds no usable chain in a file that holds one with such a transfer, or two identifier texts collide |
| Crashes.AppendedIsNext | src/storage/leveldb_manager.cpp:119-131 | the continuity check passes only where the file holds the node's own chain, however often storing failed before |
| Crashes.RunKeepsConsistent | src/core/blockchain.cpp:251-489 | over every run with failing writes the file holds a chain the node held |
| Crashes.StoredExactlyWhen | src/core/blockchain.cpp:251-489 | after a step that changes the chain the file holds the new one if and only if the step replaced the chain or the file held the old one, and the write returned true |
| Crashes.BehindStaysBehind | src/storage/leveldb_manager.cpp:119-127 | once the file holds a shorter chain, no run without a replacement changes it again |
| Crashes.FailedAppendEndsStoring | src/core/blockchain.cpp:251-311 | one append whose write returns false leads there |
| Crashes.CrashFindsHeldChain | src/storage/leveldb_manager.cpp:223-321 | after a run in which writes may fail and a crash anywhere in the next write, recovery and restart find a chain the node held, if the clock accepts it |
| Crashes.CrashAfterFreshStart | src/core/blockchain.cpp:49-60 | so it is from a fresh genesis whose first save returned true |
| Crashes.RestartIsConsistent | src/core/blockchain.cpp:30-42 | the restarted node is in such a state again |
| RateLimiter.Limiter.IsRateLimited | src/network/peer.cpp:74-88 | the queue equals the full call history filtered to the last second; limited exactly when it holds more than the maximum |
| RateLimiter.DropOlder | src/network/peer.cpp:80-85 | popping the front while too old leaves exactly the recent calls |
| RateLimiter.AtMostMaxPerSecond | src/network/peer.cpp:74-88 | in every closed window of one second at most the maximum pass |
| PeerLink.LengthRoundTrip | src/network/message.cpp:17-24 | the four prefix bytes read back as the length |
| PeerLink.PrefixIsBigEndian | src/network/message.cpp:17-23 | the most significant byte comes first |
| PeerLink.StreamRoundTrip | src/network/message.cpp:9-27 | any concatenation of frames up to 10 MB decodes to the same bodies in order |
| PeerLink.ParseInPieces | src/network/peer.cpp:90-176 | how the bytes are cut into arrivals makes no difference |
| PeerLink.OversizedFrameCloses | src/network/peer.cpp:123-130 | an oversized frame closes the connection after everything before it, and nothing after it, is delivered |
| PeerLink.Reader.Receive | src/network/peer.cpp:90-176 | the alternating reads have always delivered exactly the parse of everything received |
| PeerLink.Writer.Send | src/network/peer.cpp:15-36 | drops a message when a thousand are queued, else queues its frame behind the others, one write in flight exactly while the queue is not empty |
| PeerLink.Writer.WriteDone | src/network/peer.cpp:193-203 | once the rest of the frame is out the next write starts, or the link falls idle |
| PeerLink.Writer.WriteFailed | src/network/peer.cpp:186-192 | a write error empties the queue, and the link starts anew behind what went out |
| PeerLink.Writer.ReceiverSeesPrefix | src/network/peer.cpp:15-206 | until a write error the receiver is delivered a prefix of the accepted messages |
| PeerLink.Writer.ReceiverSeesPrefixAgain | src/network/peer.cpp:15-206 | after an error between two frames, a prefix of what was accepted since, behind what was delivered before |
| PeerLink.Writer.BetweenFrames | src/network/peer.cpp:178-206 | an error leaves the receiver between two frames if and only if none or all of the frame in flight went out |
| PeerLink.CutFrameSwallows | src/network/peer.cpp:138-170 | otherwise the receiver delivers a message made of the cut frame and the first bytes of what follows |
| Node.Node.Remember | src/network/node.cpp:258-269 | remembers a hash and then at most a thousand |
| Node.Node.BroadcastTo | src/network/node.cpp:688-698 | one message to each connected peer in order, except the sender where one is given |
| Node.Node.TakeBlock | src/network/node.cpp:554-575 | accepts if possible, and passes the block on exactly then |
| Node.Node.HandleNewBlock | src/network/node.cpp:537-583 | ignores a seen hash, tries a block that continues the chain, asks the sender for its chain when the block lies ahead |
| Node.Node.HandleRequestChain | src/network/node.cpp:589-596 | answers with the whole chain |
| Node.Node.HandleResponseChain | src/network/node.cpp:598-617 | offers the chain to the ledger |
| Node.Node.BroadcastBlock | src/network/node.cpp:256-275 | announces a block to all unless its hash is remembered |
| Node.Node.Mine | src/network/node.cpp:32-34 | mining announces the new block |
| Gossip.HandleIsStep | src/network/node.cpp:537-617 | what a message does to a node's ledger is an accepting or a replacing step of it, or nothing |
| Gossip.HistoryIsSound | src/network/node.cpp:537-617 | over any history every node keeps a valid chain, the account state of that chain and a sound pool |
| Gossip.OneAnnouncementPerHeight | src/network/node.cpp:256-580 | over any history the heights a node announces strictly increase, whatever its memory of hashes dropped |
| Gossip.GossipEnds | src/network/node.cpp:537-617 | without mining, the deliveries and losses of any history are at most the weighted messages in flight plus three for each connection and missing block |
| Gossip.GossipAlwaysEnds | src/network/node.cpp:537-617 | every state has such a bound, with no assumption about it |
| Gossip.LongestWins | src/network/node.cpp:598-617 | a node that processes a longest chain ends with its length |
| Gossip.NodesConverge | src/core/blockchain.cpp:436-474 | where the longest chain is unique it ends with exactly that chain and the accounts rebuilt from it |
| Gossip.AllNodesAgree | src/network/node.cpp:598-617 | when every node has or hears it, all nodes end equal |
| Exchange.MinedIsAnnounced | src/network/node.cpp:256-275 | a mined block whose hash is not remembered is announced to every connected peer, any other to nobody |
| Exchange.SeenIsIgnored | src/network/node.cpp:541-556 | an announcement of a remembered hash changes nothing and is not passed on |
| Exchange.UnseenIsRemembered | src/network/node.cpp:546-553 | any other hash is remembered unless it is dropped |
| Exchange.TakenIsPassedOn | src/network/node.cpp:560-579 | a block that is taken goes to every connected peer except the sender, and to nobody else |
| Exchange.AheadIsAsked | src/network/node.cpp:564-570 | an unseen block beyond the next position, or next but not on this tip, makes the node ask its sender for the chain |
| Exchange.StaleIsSilent | src/network/node.cpp:556-580 | one behind it is met with silence |
| Exchange.RequestIsAnswered | src/network/node.cpp:589-596 | a request puts an answer with the whole chain on its way to the asker |
| Exchange.AnswerIsHeard | src/network/node.cpp:598-617 | an answer that is valid at the clock leaves the asker at least as long, with exactly that chain where it was shorter |
| Exchange.StaysInFlight | src/network/node.cpp:537-617 | a message stays on its way until it arrives or is lost |
| Exchange.AheadCatchesUp | src/network/node.cpp:537-617 | an announcement that lies ahead, the request it causes and the answer bring the node to the length of the announcer's chain |
| Exchange.EveryoneCatchesUp | src/network/node.cpp:277-283 | where every node is connected to one that holds the only longest chain, there is a history of asking and answering after which all hold it with its accounts |

## Left out

- Blocks.MineBlock: ends only given a ghost nonce that solves the block; that one exists cannot be known of SHA-256.
- Blocks and transactions are values, as the program copies them; a block index and a stored difficulty are unbounded numbers.
- SHA-256, ECDSA and the time parser are unspecified functions; JSON is a record of optional members, so malformed JSON text inside an array is not modelled.
- Difficulty.SlowerIsNotHarder: real numbers stand for doubles, and the cast of a rounded difficulty above 2^32 is not modelled.
- Gossip.GossipEnds: duplicate suppression, rate limits and bans count as lost messages; how an announced transaction spreads is left open, it may arrive anywhere at any time.
- Gossip.NodesConverge: speaks of chains of normal transactions, since others change in transit.
- Node.Node.BroadcastTo: connections do not come up or go down during a run.
- Node.Node.Remember: which hashes are dropped is left open; the program drops the smallest.
- WalletView.GetWalletBalance: the signed sum is unbounded where the program's would overflow.
- ChainStorage.ChainStore.LoadChain: a directory in place of the file, failing existence queries and the state file are not modelled.
- LocalRuns.LocalRunIsSolvent: runs with received blocks are not covered, because the property is false there.
- Durability.RunIsDurable: writes that return false are excluded; what they leave is the subject of `Crashes`.
- UncheckedBlocks.SolventExactlyWhenCoveredBehind: blocks that saturate, miss an account or wrap in their own replay are excluded.
- PeerLink.CutFrameSwallows: a cut inside the four length bytes is not described.
- Crashes.RunKeepsConsistent: writes that lose the file are excluded; `AtomicFiles` shows what they leave.
- AtomicFiles.AtomicFile.AtomicWrite: the one exception modelled is that of looking for the backup; exhausted memory is not.
- One clock reading serves a whole operation, in whole seconds; the program reads the clock once per timestamp.
- Mutexes and threads: each public operation is one step. Callbacks run after it.
- Peer selection, scoring, dialling, heartbeats, the HTTP interface beyond the balance query, wallets, the proof-of-stake skeleton, configuration and the explorer would add only easy members.
