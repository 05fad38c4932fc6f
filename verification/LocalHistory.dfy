/** What a local run leaves in the chain: the supply, the identifiers, the nonces, and the promise
    that the pending view makes about the confirmed state. */
module LocalHistory {
  import opened Primitives
  import opened Transactions
  import opened Blocks
  import opened ChainValidity
  import opened LedgerSpec
  import opened Totals
  import opened Solvency
  import opened Nonces
  import opened Machine
  import opened LocalRuns

  // ----- supply -----

  /** What was sent to the empty address, rewards included. */
  function Burned(s: NodeState): nat {
    PendingIn(ChainTxs(s.chain), "")
  }

  lemma MinedBurn(s: NodeState, miner: string, clock: Clock, nonce: u64)
    requires s.chain != []
    ensures Burned(AfterMine(s, miner, clock, nonce))
         == Burned(s) + (if miner == "" then 50 else 0) + PendingIn(s.mempool[..TakenCount(s.mempool)], "")
  {
    var reward, taken := Reward(miner, clock), s.mempool[..TakenCount(s.mempool)];
    var b := Sealed(Template(s, miner, clock), nonce);
    assert b.transactions == [reward] + taken;
    RebuildOne(s.chain, b);
    PendingConcat(ChainTxs(s.chain), [reward] + taken, "");
    PendingConcat([reward], taken, "");
    PendingOne([], reward, "");
    assert [] + [reward] == [reward];
  }

  lemma StepConservesSupply(s: NodeState, step: Step)
    requires Enabled(s, step) && Solvent(s) && (step.Add? || step.Mine?)
    requires step.Mine? ==> 2 * (Supply(s.ledger) + 50) < U64
    ensures Supply(Next(s, step).ledger) + Burned(Next(s, step))
         == Supply(s.ledger) + Burned(s) + if step.Mine? then 50 else 0
  {
    if step.Mine? {
      MineKeepsSolvent(s, step.miner, step.clock, step.nonce);
      MinedBurn(s, step.miner, step.clock, step.nonce);
    }
  }

  /** Over a local run the accounts and what was sent nowhere grow together by exactly 50 a
      block. */
  lemma {:induction false} LocalRunConservesSupply(s: NodeState, steps: seq<Step>)
    requires Solvent(s) && IsRun(s, steps) && IsLocal(steps)
    requires 2 * (Supply(s.ledger) + 50 * MineCount(steps)) < U64
    ensures Supply(Final(s, steps).ledger) + Burned(Final(s, steps))
         == Supply(s.ledger) + Burned(s) + 50 * MineCount(steps)
    ensures |Final(s, steps).chain| == |s.chain| + MineCount(steps)
    decreases |steps|
  {
    if steps != [] {
      StepConservesSupply(s, steps[0]);
      LocalStepIsSolvent(s, steps[0]);
      LocalRunConservesSupply(Next(s, steps[0]), steps[1..]);
    }
  }

  lemma GenesisAccounts(engine: Engine, difficulty: nat, nonce: u64)
    ensures var s := StartFrom(engine, difficulty, [Genesis(difficulty, nonce)]);
            && Supply(s.ledger) == 50 && Burned(s) == 0 && Timeline(s) == []
            && forall a :: LastNonceOf(s.ledger, a) == 0
  {
    var g := Genesis(difficulty, nonce);
    GenesisIsSound(engine, difficulty, nonce);
    RewardAddsToSupply(EMPTY, GENESIS_COINBASE);
    assert [] + [g] == [g] && [] + [GENESIS_COINBASE] == [GENESIS_COINBASE];
    RebuildOne([], g);
    assert ChainTxs([g]) == [GENESIS_COINBASE];
    PendingOne([], GENESIS_COINBASE, "");
    TransfersOfReward(GENESIS_COINBASE);
  }

  /** From a fresh genesis the supply is 50 a block less what was sent nowhere. */
  lemma FreshRunSupply(engine: Engine, difficulty: nat, nonce: u64, steps: seq<Step>)
    requires IsLocal(steps) && IsRun(StartFrom(engine, difficulty, [Genesis(difficulty, nonce)]), steps)
    requires 100 * (MineCount(steps) + 1) < U64
    ensures var s := Final(StartFrom(engine, difficulty, [Genesis(difficulty, nonce)]), steps);
            Solvent(s) && RoomToMove(s.ledger) && Supply(s.ledger) + Burned(s) == 50 * |s.chain|
  {
    var start := StartFrom(engine, difficulty, [Genesis(difficulty, nonce)]);
    GenesisAccounts(engine, difficulty, nonce);
    LocalRunConservesSupply(start, steps);
    LocalRunIsSolvent(start, steps);
  }

  /** While 50 times the chain length times the pool length plus one stays below 2^64, the funds
      check of the next admission computes without wrapping and decides exactly whether the sender
      has enough. */
  lemma AdmissionDoesNotWrap(s: NodeState, address: string, amount: u64)
    requires Solvent(s) && Supply(s.ledger) + Burned(s) == 50 * |s.chain|
    requires 50 * |s.chain| * (|s.mempool| + 1) < U64 && address != ""
    ensures BalanceOf(s.ledger, address) + PendingIn(s.mempool, address) < U64
    ensures PendingOut(s.mempool, address) < U64
    ensures var incoming, outgoing := PendingIn(s.mempool, address), PendingOut(s.mempool, address);
            FundsCheck(BalanceOf(s.ledger, address), incoming, outgoing, amount)
            <==> Effective(s.ledger, s.mempool, address) >= amount
  {
    FactorMonotone(Supply(s.ledger), 50 * |s.chain|, |s.mempool| + 1);
    FundsCheckIsExact(s.ledger, s.mempool, address, amount);
  }

  lemma FactorMonotone(x: nat, y: nat, z: nat)
    requires x <= y
    ensures x * z <= y * z
  {
  }

  // ----- identifiers -----

  lemma {:induction false} TransfersMembers(txs: seq<Transaction>)
    ensures forall tx :: tx in Transfers(txs) <==> tx in txs && IsTransfer(tx)
    decreases |txs|
  {
    if txs != [] {
      TransfersMembers(txs[..|txs| - 1]);
      assert txs == txs[..|txs| - 1] + [txs[|txs| - 1]];
    }
  }

  lemma AdmittedIsNew(s: NodeState, tx: Transaction, clock: Clock)
    requires Sound(s) && Admissible(s, tx, clock)
    ensures tx.txID !in IDs(Timeline(s))
  {
    StateIndexesChain(s.chain);
    TransfersMembers(ChainTxs(s.chain));
    forall t | t in Timeline(s)
      ensures t.txID != tx.txID
    {
      if t in s.mempool {
        assert t.txID in IDs(s.mempool);
      } else {
        assert t in Transfers(ChainTxs(s.chain)) && t.txID in TransferIDs(ChainTxs(s.chain));
      }
    }
  }

  lemma DistinctWithOneMore(txs: seq<Transaction>, tx: Transaction)
    requires DistinctIDs(txs) && tx.txID !in IDs(txs)
    ensures DistinctIDs(txs + [tx])
  {
    forall i | 0 <= i < |txs|
      ensures txs[i].txID != tx.txID
    {
      assert txs[i] in txs;
    }
  }

  lemma StepKeepsIDsDistinct(s: NodeState, step: Step)
    requires Sound(s) && AllProper(s.mempool) && Enabled(s, step) && (step.Add? || step.Mine?)
    requires DistinctIDs(Timeline(s))
    ensures DistinctIDs(Timeline(Next(s, step))) && AllProper(Next(s, step).mempool)
  {
    TimelineStep(s, step);
    if Contribution(s, step) == [] {
      assert Timeline(s) + [] == Timeline(s);
    } else {
      AdmittedIsNew(s, step.tx, step.clock);
      DistinctWithOneMore(Timeline(s), step.tx);
    }
  }

  /** No transfer is confirmed twice: over a local run the identifiers of all transfers, confirmed
      and pending, stay pairwise different. */
  lemma {:induction false} LocalRunKeepsIDsDistinct(s: NodeState, steps: seq<Step>)
    requires Sound(s) && AllProper(s.mempool) && IsRun(s, steps) && IsLocal(steps)
    requires DistinctIDs(Timeline(s))
    ensures DistinctIDs(Timeline(Final(s, steps)))
    decreases |steps|
  {
    hide Machine.Sound, Machine.Next, Machine.Enabled;
    if steps != [] {
      NextIsSound(s, steps[0]);
      StepKeepsIDsDistinct(s, steps[0]);
      LocalRunKeepsIDsDistinct(Next(s, steps[0]), steps[1..]);
    }
  }

  // ----- nonces -----

  lemma MinedNonces(s: NodeState, miner: string, clock: Clock, nonce: u64, address: string)
    requires s.chain != [] && AllProper(s.mempool) && address != "" && BalanceOf(s.ledger, miner) + 50 < U64
    requires Contiguous(s.ledger, s.mempool, address)
    ensures var next := AfterMine(s, miner, clock, nonce);
      && Contiguous(next.ledger, next.mempool, address)
      && LastNonceOf(next.ledger, address)
         == LastNonceOf(s.ledger, address) + |NoncesOf(s.mempool[..TakenCount(s.mempool)], address)|
      && Highest(next.ledger, next.mempool, address) == Highest(s.ledger, s.mempool, address)
  {
    MinedLedger(s, miner, clock, nonce);
    RewardCredits(s.ledger, Reward(miner, clock), address);
    SameLastNonce(s.ledger, Rewarded(s, miner, clock), s.mempool, address);
    ContiguousSuffix(Rewarded(s, miner, clock), s.mempool, TakenCount(s.mempool), address);
    HighestAfterPrefix(Rewarded(s, miner, clock), s.mempool, TakenCount(s.mempool), address);
  }

  lemma {:induction false} SameLastNonce(l: Ledger, m: Ledger, pool: seq<Transaction>, address: string)
    requires LastNonceOf(l, address) == LastNonceOf(m, address)
    ensures Highest(l, pool, address) == Highest(m, pool, address)
    decreases |pool|
  {
    if pool != [] {
      SameLastNonce(l, m, pool[..|pool| - 1], address);
    }
  }

  /** The largest number of pending nonces of an address plus its confirmed ones that can be
      reached. */
  predicate NonceRoom(s: NodeState, address: string, steps: nat) {
    Highest(s.ledger, s.mempool, address) + steps < U64
  }

  lemma AddedNonces(s: NodeState, tx: Transaction, clock: Clock, address: string)
    requires AllProper(s.mempool) && Contiguous(s.ledger, s.mempool, address) && NonceRoom(s, address, 1)
    ensures var next := AfterAdd(s, tx, clock);
      && Contiguous(next.ledger, next.mempool, address)
      && Highest(next.ledger, next.mempool, address) <= Highest(s.ledger, s.mempool, address) + 1
  {
    hide Verify, FundsCheck, IsExpired, TransferIDs;
    if Admissible(s, tx, clock) {
      AdmissibleIsAdmitted(s, tx, clock);
      AdmissionKeepsContiguous(s.ledger, s.mempool, tx, address);
      HighestWithOneMore(s.ledger, s.mempool, tx, address);
    }
  }

  lemma NoncesStep(s: NodeState, step: Step, address: string)
    requires Enabled(s, step) && Solvent(s) && (step.Add? || step.Mine?) && address != ""
    requires 2 * (Supply(s.ledger) + if step.Mine? then 50 else 0) < U64
    requires Contiguous(s.ledger, s.mempool, address) && NonceRoom(s, address, 1)
    ensures var next := Next(s, step);
      && Contiguous(next.ledger, next.mempool, address)
      && Highest(next.ledger, next.mempool, address) <= Highest(s.ledger, s.mempool, address) + 1
  {
    if step.Add? {
      AddedNonces(s, step.tx, step.clock, address);
    } else {
      TotalBounds(s.ledger.balances, "", step.miner);
      MinedNonces(s, step.miner, step.clock, step.nonce, address);
    }
  }

  /** In pool order the pending nonces of an address are its last confirmed nonce plus 1, plus 2 and
      so on, over every local run, as long as they do not run out of 64-bit numbers. */
  lemma {:induction false} LocalRunKeepsNoncesContiguous(s: NodeState, steps: seq<Step>, address: string)
    requires Solvent(s) && IsRun(s, steps) && IsLocal(steps) && address != ""
    requires 2 * (Supply(s.ledger) + 50 * MineCount(steps)) < U64
    requires Contiguous(s.ledger, s.mempool, address) && NonceRoom(s, address, |steps|)
    ensures var t := Final(s, steps); Contiguous(t.ledger, t.mempool, address)
    decreases |steps|
  {
    if steps != [] {
      NoncesStep(s, steps[0], address);
      LocalStepIsSolvent(s, steps[0]);
      LocalRunKeepsNoncesContiguous(Next(s, steps[0]), steps[1..], address);
    }
  }

  lemma {:induction false} NoncesOfTransfers(txs: seq<Transaction>, address: string)
    ensures NoncesOf(Transfers(txs), address) == NoncesOf(txs, address)
    decreases |txs|
  {
    if txs != [] {
      var n := |txs| - 1;
      NoncesOfTransfers(txs[..n], address);
      if IsTransfer(txs[n]) {
        NoncesOne(Transfers(txs[..n]), txs[n], address);
      } else {
        assert Transfers(txs) == Transfers(txs[..n]);
      }
    }
  }

  /** The confirmed nonces of an address count from 1 to its recorded last nonce. */
  predicate CountsFromOne(s: NodeState, address: string) {
    && IsRange(NoncesOf(ChainTxs(s.chain), address), 1)
    && LastNonceOf(s.ledger, address) == |NoncesOf(ChainTxs(s.chain), address)|
  }

  lemma RangeExtends(a: seq<nat>, b: seq<nat>, start: nat)
    requires IsRange(a, start) && IsRange(b, start + |a|)
    ensures IsRange(a + b, start)
  {
  }

  lemma RangePrefix(a: seq<nat>, b: seq<nat>, start: nat)
    requires IsRange(a + b, start)
    ensures IsRange(a, start)
  {
    assert forall j | 0 <= j < |a| :: a[j] == (a + b)[j];
  }

  lemma MineCountsOn(s: NodeState, miner: string, clock: Clock, nonce: u64, address: string)
    requires s.chain != [] && AllProper(s.mempool) && address != "" && BalanceOf(s.ledger, miner) + 50 < U64
    requires Contiguous(s.ledger, s.mempool, address) && CountsFromOne(s, address)
    ensures CountsFromOne(AfterMine(s, miner, clock, nonce), address)
  {
    var next, k := AfterMine(s, miner, clock, nonce), TakenCount(s.mempool);
    MinedNonces(s, miner, clock, nonce, address);
    NoncesOfMinedChain(s, miner, clock, nonce, address);
    TakenNonces(s.mempool, k, address, LastNonceOf(s.ledger, address) + 1);
    RangeExtends(NoncesOf(ChainTxs(s.chain), address), NoncesOf(s.mempool[..k], address), 1);
  }

  lemma NoncesOfMinedChain(s: NodeState, miner: string, clock: Clock, nonce: u64, address: string)
    requires s.chain != [] && AllProper(s.mempool)
    ensures NoncesOf(ChainTxs(AfterMine(s, miner, clock, nonce).chain), address)
         == NoncesOf(ChainTxs(s.chain), address) + NoncesOf(s.mempool[..TakenCount(s.mempool)], address)
  {
    MinedTransfers(s, miner, clock, nonce);
    NoncesOfTransfers(ChainTxs(s.chain), address);
    NoncesOfTransfers(ChainTxs(AfterMine(s, miner, clock, nonce).chain), address);
    NoncesConcat(Transfers(ChainTxs(s.chain)), s.mempool[..TakenCount(s.mempool)], address);
  }

  lemma TakenNonces(pool: seq<Transaction>, k: nat, address: string, start: nat)
    requires k <= |pool| && IsRange(NoncesOf(pool, address), start)
    ensures IsRange(NoncesOf(pool[..k], address), start)
  {
    assert pool[..k] + pool[k..] == pool;
    NoncesConcat(pool[..k], pool[k..], address);
    RangePrefix(NoncesOf(pool[..k], address), NoncesOf(pool[k..], address), start);
  }

  /** In a chain grown from genesis the confirmed nonces of an address are 1, 2, ... up to its
      recorded last nonce, in chain order. */
  lemma {:induction false} LocalRunCountsNonces(s: NodeState, steps: seq<Step>, address: string)
    requires Solvent(s) && IsRun(s, steps) && IsLocal(steps) && address != ""
    requires 2 * (Supply(s.ledger) + 50 * MineCount(steps)) < U64
    requires Contiguous(s.ledger, s.mempool, address) && NonceRoom(s, address, |steps|) && CountsFromOne(s, address)
    ensures CountsFromOne(Final(s, steps), address)
    decreases |steps|
  {
    if steps != [] {
      NoncesStep(s, steps[0], address);
      LocalStepIsSolvent(s, steps[0]);
      if steps[0].Mine? {
        TotalBounds(s.ledger.balances, "", steps[0].miner);
        MineCountsOn(s, steps[0].miner, steps[0].clock, steps[0].nonce, address);
      }
      LocalRunCountsNonces(Next(s, steps[0]), steps[1..], address);
    }
  }

  /** The facts about a fresh node together: after any local run from genesis no transfer is
      confirmed or pending twice, the chain's transfers and the pool are exactly the accepted
      transactions in order, and every address's confirmed nonces count from 1. */
  lemma FreshRunHistory(engine: Engine, difficulty: nat, nonce: u64, steps: seq<Step>, address: string)
    requires IsLocal(steps) && IsRun(StartFrom(engine, difficulty, [Genesis(difficulty, nonce)]), steps)
    requires 100 * (MineCount(steps) + 1) < U64 && |steps| < U64 && address != ""
    ensures var start := StartFrom(engine, difficulty, [Genesis(difficulty, nonce)]);
            var s := Final(start, steps);
            && Timeline(s) == Accepted(start, steps) && DistinctIDs(Timeline(s))
            && CountsFromOne(s, address) && Contiguous(s.ledger, s.mempool, address)
  {
    var start := StartFrom(engine, difficulty, [Genesis(difficulty, nonce)]);
    GenesisIsSound(engine, difficulty, nonce);
    GenesisAccounts(engine, difficulty, nonce);
    LocalRunConserves(start, steps);
    assert [] + Accepted(start, steps) == Accepted(start, steps);
    LocalRunKeepsIDsDistinct(start, steps);
    GenesisNonces(start, address);
    LocalRunKeepsNoncesContiguous(start, steps, address);
    LocalRunCountsNonces(start, steps, address);
  }

  lemma GenesisNonces(s: NodeState, address: string)
    requires s.mempool == [] && Timeline(s) == [] && LastNonceOf(s.ledger, address) == 0
    ensures CountsFromOne(s, address) && Contiguous(s.ledger, s.mempool, address)
    ensures Highest(s.ledger, s.mempool, address) == 0
  {
    NoncesOfTransfers(ChainTxs(s.chain), address);
    assert Transfers(ChainTxs(s.chain)) == [];
  }

  // ----- the pending view is the future -----

  predicate OnlyMining(steps: seq<Step>) {
    forall i | 0 <= i < |steps| :: steps[i].Mine?
  }

  /** The rewards that the mining steps pay to an address. */
  function RewardsTo(steps: seq<Step>, address: string): nat
    decreases |steps|
  {
    if steps == [] then 0
    else (if steps[0].Mine? && steps[0].miner == address then 50 else 0) + RewardsTo(steps[1..], address)
  }

  lemma MineKeepsView(s: NodeState, miner: string, clock: Clock, nonce: u64, address: string)
    requires s.chain != [] && Solvent(s) && 2 * (Supply(s.ledger) + 50) < U64 && address != ""
    ensures var next := AfterMine(s, miner, clock, nonce);
      && Effective(next.ledger, next.mempool, address)
         == Effective(s.ledger, s.mempool, address) + (if miner == address then 50 else 0)
      && Highest(next.ledger, next.mempool, address) == Highest(s.ledger, s.mempool, address)
  {
    hide Machine.Template, Blocks.Sealed, Solvency.Covered, LedgerSpec.ApplyTx, LedgerSpec.ApplyTxs;
    hide Transactions.TxCore;
    var k, rewarded := TakenCount(s.mempool), Rewarded(s, miner, clock);
    SolventWithReward(s, miner, clock);
    RewardCredits(s.ledger, Reward(miner, clock), address);
    MinedLedger(s, miner, clock, nonce);
    EffectiveAfterPrefix(rewarded, s.mempool, k, address, |s.mempool| - k);
    assert s.mempool[k..][..|s.mempool| - k] == s.mempool[k..] && s.mempool[..|s.mempool|] == s.mempool;
    SameLastNonce(s.ledger, rewarded, s.mempool, address);
    HighestAfterPrefix(rewarded, s.mempool, k, address);
  }

  /** Mining alone keeps what the pending view shows: effective balances move only by rewards, and
      the next nonce stays the same. */
  lemma {:induction false} MiningKeepsView(s: NodeState, steps: seq<Step>, address: string)
    requires Solvent(s) && IsRun(s, steps) && OnlyMining(steps) && address != ""
    requires 2 * (Supply(s.ledger) + 50 * |steps|) < U64
    ensures var t := Final(s, steps);
      && Effective(t.ledger, t.mempool, address)
         == Effective(s.ledger, s.mempool, address) + RewardsTo(steps, address)
      && Highest(t.ledger, t.mempool, address) == Highest(s.ledger, s.mempool, address)
    decreases |steps|
  {
    if steps != [] {
      MineKeepsView(s, steps[0].miner, steps[0].clock, steps[0].nonce, address);
      LocalStepIsSolvent(s, steps[0]);
      MiningKeepsView(Next(s, steps[0]), steps[1..], address);
    }
  }

  lemma MineTakes(s: NodeState, miner: string, clock: Clock, nonce: u64)
    requires s.chain != []
    ensures |AfterMine(s, miner, clock, nonce).mempool| == Max(0, |s.mempool| - MAX_TXS_PER_BLOCK)
  {
  }

  lemma {:induction false} MiningDrainsPool(s: NodeState, steps: seq<Step>)
    requires IsRun(s, steps) && OnlyMining(steps)
    ensures |Final(s, steps).mempool| == Max(0, |s.mempool| - MAX_TXS_PER_BLOCK * |steps|)
    decreases |steps|
  {
    hide Machine.AfterMine, Machine.Template, Blocks.Solves;
    if steps != [] {
      MineTakes(s, steps[0].miner, steps[0].clock, steps[0].nonce);
      MiningDrainsPool(Next(s, steps[0]), steps[1..]);
    }
  }

  lemma DrainedView(s: NodeState, t: NodeState, address: string)
    requires t.mempool == []
    requires Highest(t.ledger, t.mempool, address) == Highest(s.ledger, s.mempool, address)
    ensures Effective(t.ledger, t.mempool, address) == BalanceOf(t.ledger, address)
    ensures NextNonce(t.ledger, t.mempool, address) == NextNonce(s.ledger, s.mempool, address)
    ensures LastNonceOf(t.ledger, address) == Highest(s.ledger, s.mempool, address)
  {
  }

  /** The pending view is the future: once enough blocks are mined to take the whole pool, a hundred
      transactions each, and nothing is added meanwhile, every address holds exactly its earlier
      pending balance plus the rewards mined to it, its last nonce is the highest one it had pending,
      and its next nonce is what it was. */
  lemma PendingViewComesTrue(s: NodeState, steps: seq<Step>, address: string)
    requires Solvent(s) && IsRun(s, steps) && OnlyMining(steps) && address != ""
    requires 2 * (Supply(s.ledger) + 50 * |steps|) < U64
    requires |s.mempool| <= MAX_TXS_PER_BLOCK * |steps|
    ensures var t := Final(s, steps);
      && t.mempool == []
      && BalanceOf(t.ledger, address) == Effective(s.ledger, s.mempool, address) + RewardsTo(steps, address)
      && NextNonce(t.ledger, t.mempool, address) == NextNonce(s.ledger, s.mempool, address)
      && LastNonceOf(t.ledger, address) == Highest(s.ledger, s.mempool, address)
  {
    MiningKeepsView(s, steps, address);
    MiningDrainsPool(s, steps);
    DrainedView(s, Final(s, steps), address);
  }
}
