/** Runs of one node on its own: only adding and mining. The blocks of other nodes are not checked
    for funds or nonces, so what is shown here does not extend to runs that accept them. */
module LocalRuns {
  import opened Primitives
  import opened Transactions
  import opened Blocks
  import opened ChainValidity
  import opened LedgerSpec
  import opened Totals
  import opened Solvency
  import opened Nonces
  import opened Machine

  predicate IsLocal(steps: seq<Step>) {
    forall i | 0 <= i < |steps| :: steps[i].Add? || steps[i].Mine?
  }

  function MineCount(steps: seq<Step>): nat
    decreases |steps|
  {
    if steps == [] then 0 else (if steps[0].Mine? then 1 else 0) + MineCount(steps[1..])
  }

  // ----- solvency -----

  /** The pool holds proper transfers and is covered by the accounts. */
  predicate Solvent(s: NodeState) {
    AllProper(s.mempool) && Covered(s.ledger, s.mempool)
  }

  /** The state after the reward of the next block has been credited. */
  function Rewarded(s: NodeState, miner: string, clock: Clock): Ledger {
    ApplyTx(s.ledger, Reward(miner, clock))
  }

  lemma RewardCredits(l: Ledger, reward: Transaction, address: string)
    requires IsCoinbase(reward) && BalanceOf(l, reward.toAddress) + reward.amount < U64
    ensures BalanceOf(ApplyTx(l, reward), address)
         == BalanceOf(l, address) + if address == reward.toAddress && address != "" then reward.amount else 0
    ensures LastNonceOf(ApplyTx(l, reward), address) == LastNonceOf(l, address)
  {
  }

  lemma RewardAddsToSupply(l: Ledger, reward: Transaction)
    requires IsCoinbase(reward) && BalanceOf(l, reward.toAddress) + reward.amount < U64
    ensures Supply(ApplyTx(l, reward)) == Supply(l) + if reward.toAddress != "" then reward.amount else 0
  {
    TotalUpdate(l.balances, reward.toAddress, BalanceOf(l, reward.toAddress) + reward.amount);
  }

  lemma MinedLedger(s: NodeState, miner: string, clock: Clock, nonce: u64)
    requires s.chain != []
    ensures AfterMine(s, miner, clock, nonce).ledger
         == ApplyTxs(Rewarded(s, miner, clock), s.mempool[..TakenCount(s.mempool)])
  {
    var reward, taken := Reward(miner, clock), s.mempool[..TakenCount(s.mempool)];
    ApplyConcat(s.ledger, [reward], taken);
    ApplyOne(s.ledger, [], reward);
    assert [] + [reward] == [reward];
  }

  lemma SolventWithReward(s: NodeState, miner: string, clock: Clock)
    requires Solvent(s) && 2 * (Supply(s.ledger) + 50) < U64
    ensures Covered(Rewarded(s, miner, clock), s.mempool) && RoomToMove(Rewarded(s, miner, clock))
    ensures BalanceOf(s.ledger, miner) + 50 < U64
  {
    var reward := Reward(miner, clock);
    TotalBounds(s.ledger.balances, "", miner);
    RewardAddsToSupply(s.ledger, reward);
    forall a
      ensures BalanceOf(s.ledger, a) <= BalanceOf(Rewarded(s, miner, clock), a)
    {
      RewardCredits(s.ledger, reward, a);
    }
    CoveredByMore(s.ledger, Rewarded(s, miner, clock), s.mempool);
  }

  /** Mining confirms its share of the pool exactly, leaves the rest covered, and changes the supply
      by the reward less what was sent to the empty address. */
  lemma MineKeepsSolvent(s: NodeState, miner: string, clock: Clock, nonce: u64)
    requires s.chain != [] && Solvent(s) && 2 * (Supply(s.ledger) + 50) < U64
    ensures ReplaysExactly(Rewarded(s, miner, clock), s.mempool[..TakenCount(s.mempool)])
    ensures Solvent(AfterMine(s, miner, clock, nonce))
    ensures Supply(AfterMine(s, miner, clock, nonce).ledger)
         == Supply(s.ledger) + (if miner != "" then 50 else 0) - PendingIn(s.mempool[..TakenCount(s.mempool)], "")
  {
    var k, rewarded := TakenCount(s.mempool), Rewarded(s, miner, clock);
    SolventWithReward(s, miner, clock);
    RewardAddsToSupply(s.ledger, Reward(miner, clock));
    MinedLedger(s, miner, clock, nonce);
    CoveredPrefix(rewarded, s.mempool, k);
    CoveredReplay(rewarded, s.mempool[..k]);
    CoveredSuffix(rewarded, s.mempool, k);
  }

  lemma AddKeepsSolvent(s: NodeState, tx: Transaction, clock: Clock)
    requires Solvent(s) && RoomToMove(s.ledger)
    ensures Solvent(AfterAdd(s, tx, clock))
  {
    if Admissible(s, tx, clock) {
      AdmissibleIsAdmitted(s, tx, clock);
      AdmissionKeepsCovered(s.ledger, s.mempool, tx);
    }
  }

  lemma LocalStepIsSolvent(s: NodeState, step: Step)
    requires Enabled(s, step) && Solvent(s) && (step.Add? || step.Mine?)
    requires 2 * (Supply(s.ledger) + if step.Mine? then 50 else 0) < U64
    ensures Solvent(Next(s, step))
    ensures Supply(Next(s, step).ledger) <= Supply(s.ledger) + if step.Mine? then 50 else 0
  {
    if step.Add? {
      AddKeepsSolvent(s, step.tx, step.clock);
    } else {
      MineKeepsSolvent(s, step.miner, step.clock, step.nonce);
    }
  }

  /** Mempool solvency. From any state with an empty pool, after any local run, replaying the whole
      pool in order never reaches the saturating or the missing-account branch of the debit and
      never wraps a credit, as long as the supply and the rewards of the run stay below 2^63.
      No bound on the pool or on the sums of the admission check is needed. */
  lemma {:induction false} LocalRunIsSolvent(s: NodeState, steps: seq<Step>)
    requires Solvent(s) && IsRun(s, steps) && IsLocal(steps)
    requires 2 * (Supply(s.ledger) + 50 * MineCount(steps)) < U64
    ensures Solvent(Final(s, steps))
    ensures Supply(Final(s, steps).ledger) <= Supply(s.ledger) + 50 * MineCount(steps)
    ensures ReplaysExactly(Final(s, steps).ledger, Final(s, steps).mempool)
    decreases |steps|
  {
    if steps == [] {
      CoveredReplay(s.ledger, s.mempool);
    } else {
      LocalStepIsSolvent(s, steps[0]);
      LocalRunIsSolvent(Next(s, steps[0]), steps[1..]);
    }
  }

  // ----- nothing is lost, repeated or reordered -----

  /** The transfers among some transactions, in order. */
  function Transfers(txs: seq<Transaction>): seq<Transaction> {
    if txs == [] then []
    else Transfers(txs[..|txs| - 1]) + if IsTransfer(txs[|txs| - 1]) then [txs[|txs| - 1]] else []
  }

  /** Every transfer the node knows: the confirmed ones, then the pending ones. */
  function Timeline(s: NodeState): seq<Transaction> {
    Transfers(ChainTxs(s.chain)) + s.mempool
  }

  /** The transactions a run adds successfully, in order. */
  function Accepted(s: NodeState, steps: seq<Step>): seq<Transaction>
    requires IsRun(s, steps)
    decreases |steps|
  {
    if steps == [] then []
    else Contribution(s, steps[0]) + Accepted(Next(s, steps[0]), steps[1..])
  }

  lemma {:induction false} TransfersConcat(a: seq<Transaction>, b: seq<Transaction>)
    ensures Transfers(a + b) == Transfers(a) + Transfers(b)
    decreases |b|
  {
    if b == [] {
      assert a + b == a;
    } else {
      var n := |b| - 1;
      assert (a + b)[..|a + b| - 1] == a + b[..n];
      TransfersConcat(a, b[..n]);
    }
  }

  lemma {:induction false} TransfersOfProper(pool: seq<Transaction>)
    requires AllProper(pool)
    ensures Transfers(pool) == pool
    decreases |pool|
  {
    if pool != [] {
      TransfersOfProper(pool[..|pool| - 1]);
      assert Proper(pool[|pool| - 1]);
    }
  }

  lemma TransfersOfReward(reward: Transaction)
    requires IsCoinbase(reward)
    ensures Transfers([reward]) == []
  {
    assert [reward][..0] == [];
  }

  lemma TransfersOfBlock(before: seq<Transaction>, reward: Transaction, taken: seq<Transaction>)
    requires IsCoinbase(reward) && AllProper(taken)
    ensures Transfers(before + ([reward] + taken)) == Transfers(before) + taken
  {
    var txs := [reward] + taken;
    calc {
      Transfers(before + txs);
    ==  { TransfersConcat(before, txs); }
      Transfers(before) + Transfers(txs);
    ==  { TransfersConcat([reward], taken); }
      Transfers(before) + (Transfers([reward]) + Transfers(taken));
    ==  { TransfersOfReward(reward); TransfersOfProper(taken); }
      Transfers(before) + ([] + taken);
    ==
      Transfers(before) + taken;
    }
  }

  lemma MinedTransfers(s: NodeState, miner: string, clock: Clock, nonce: u64)
    requires s.chain != [] && AllProper(s.mempool)
    ensures Transfers(ChainTxs(AfterMine(s, miner, clock, nonce).chain))
         == Transfers(ChainTxs(s.chain)) + s.mempool[..TakenCount(s.mempool)]
  {
    hide AfterMine, Sealed, Template, Transfers, ChainTxs, Rebuild, ApplyTxs, TxCore, Proper;
    var reward, taken := Reward(miner, clock), s.mempool[..TakenCount(s.mempool)];
    var b := Sealed(Template(s, miner, clock), nonce);
    MinedTransactions(s, miner, clock, nonce);
    RebuildOne(s.chain, b);
    TransfersOfBlock(ChainTxs(s.chain), reward, taken);
  }

  lemma Rejoin(confirmed: seq<Transaction>, pool: seq<Transaction>, k: nat)
    requires k <= |pool|
    ensures confirmed + pool[..k] + pool[k..] == confirmed + pool
  {
  }

  lemma TimelineOfMine(s: NodeState, miner: string, clock: Clock, nonce: u64)
    requires s.chain != [] && AllProper(s.mempool)
    ensures Timeline(AfterMine(s, miner, clock, nonce)) == Timeline(s)
    ensures AllProper(AfterMine(s, miner, clock, nonce).mempool)
  {
    MinedTransfers(s, miner, clock, nonce);
    Rejoin(Transfers(ChainTxs(s.chain)), s.mempool, TakenCount(s.mempool));
  }

  lemma AddAtEnd(confirmed: seq<Transaction>, pool: seq<Transaction>, tx: Transaction)
    ensures confirmed + (pool + [tx]) == confirmed + pool + [tx]
  {
  }

  lemma TimelineOfAdd(s: NodeState, tx: Transaction, clock: Clock)
    requires AllProper(s.mempool)
    ensures Timeline(AfterAdd(s, tx, clock)) == Timeline(s) + if Admissible(s, tx, clock) then [tx] else []
    ensures AllProper(AfterAdd(s, tx, clock).mempool)
  {
    if Admissible(s, tx, clock) {
      AdmissibleIsAdmitted(s, tx, clock);
      AddAtEnd(Transfers(ChainTxs(s.chain)), s.mempool, tx);
    }
  }

  /** What one step contributes to the timeline. */
  function Contribution(s: NodeState, step: Step): seq<Transaction> {
    if step.Add? && Admissible(s, step.tx, step.clock) then [step.tx] else []
  }

  lemma TimelineStep(s: NodeState, step: Step)
    requires Enabled(s, step) && AllProper(s.mempool) && (step.Add? || step.Mine?)
    ensures AllProper(Next(s, step).mempool)
    ensures Timeline(Next(s, step)) == Timeline(s) + Contribution(s, step)
  {
    if step.Mine? {
      TimelineOfMine(s, step.miner, step.clock, step.nonce);
    } else {
      TimelineOfAdd(s, step.tx, step.clock);
    }
  }

  lemma Regroup(a: seq<Transaction>, b: seq<Transaction>, c: seq<Transaction>)
    ensures a + b + c == a + (b + c)
  {
  }

  /** Conservation: a local run extends the timeline by exactly the transactions it accepted.
      Mining moves transfers from the pool to the chain without losing, repeating or reordering
      any. */
  lemma {:induction false} LocalRunConserves(s: NodeState, steps: seq<Step>)
    requires AllProper(s.mempool) && IsRun(s, steps) && IsLocal(steps)
    ensures AllProper(Final(s, steps).mempool)
    ensures Timeline(Final(s, steps)) == Timeline(s) + Accepted(s, steps)
    decreases |steps|
  {
    hide Next, Enabled;
    if steps != [] {
      TimelineStep(s, steps[0]);
      var next, rest := Next(s, steps[0]), steps[1..];
      LocalRunConserves(next, rest);
      Regroup(Timeline(s), Contribution(s, steps[0]), Accepted(next, rest));
    } else {
      assert Timeline(s) + [] == Timeline(s);
    }
  }
}
