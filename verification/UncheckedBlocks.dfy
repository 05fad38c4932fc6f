/** What the validation of a received block leaves open: funds, nonces and repetition. Here the
    properties of local runs stop, and exactly where. */
module UncheckedBlocks {
  import opened Primitives
  import opened Transactions
  import opened Blocks
  import opened ChainValidity
  import opened LedgerSpec
  import opened Totals
  import opened Solvency
  import opened Nonces
  import opened Machine
  import opened LocalRuns
  import opened LocalHistory

  /** A block on top of the tip, before its nonce is found. */
  function Offered(s: NodeState, txs: seq<Transaction>, timestamp: string, difficulty: nat): Block
    requires s.chain != []
  {
    Block(|s.chain|, timestamp, s.chain[|s.chain| - 1].hash, txs, MerkleRoot(txs), 0, difficulty, "")
  }

  /** A sealed block on top of the tip is accepted exactly when its transactions are signed and,
      under an engine, its difficulty is from 1 to 64 and its time lies between the tip's and two
      minutes from now: no balance, nonce, identifier or difficulty schedule is looked at. */
  lemma AcceptedWhateverTheFunds(s: NodeState, txs: seq<Transaction>, timestamp: string, difficulty: nat, nonce: u64,
                                 clock: Clock)
    requires Sound(s) && ValidUnder(s.engine, s.chain, clock.epoch)
    requires Solves(Offered(s, txs, timestamp, difficulty), nonce)
    ensures var b := Sealed(Offered(s, txs, timestamp, difficulty), nonce);
            Acceptable(s, b, clock) <==>
              && AllVerified(txs)
              && (s.engine.PoW? ==>
                    1 <= difficulty <= 64 && ValidTimestamp(b, s.chain[|s.chain| - 1], clock.epoch))
  {
    hide Sealed, Solves, MerkleRoot, ApplyTxs, Rebuild;
    var b := Sealed(Offered(s, txs, timestamp, difficulty), nonce);
    SealedBlock(Offered(s, txs, timestamp, difficulty), nonce);
    ExtensionIsValid(s.engine, s.chain, b, clock.epoch);
  }

  // ----- identifiers -----

  lemma AcceptedTransfers(s: NodeState, block: Block, clock: Clock)
    requires Acceptable(s, block, clock)
    ensures Transfers(ChainTxs(AfterAccept(s, block, clock).chain))
         == Transfers(ChainTxs(s.chain)) + Transfers(block.transactions)
  {
    hide ApplyTxs, Rebuild, Transfers, Acceptable;
    RebuildOne(s.chain, block);
    TransfersConcat(ChainTxs(s.chain), block.transactions);
  }

  lemma ConfirmedAreSpent(chain: seq<Block>, id: string)
    ensures id in Rebuild(chain).spent <==> id in IDs(Transfers(ChainTxs(chain)))
  {
    StateIndexesChain(chain);
    TransfersMembers(ChainTxs(chain));
  }

  lemma DistinctConcat(a: seq<Transaction>, b: seq<Transaction>)
    ensures DistinctIDs(a + b) <==> DistinctIDs(a) && DistinctIDs(b) && IDs(a) !! IDs(b)
  {
    if DistinctIDs(a + b) {
      assert forall i | 0 <= i < |a| :: a[i] == (a + b)[i];
      assert forall j | 0 <= j < |b| :: b[j] == (a + b)[|a| + j];
    }
    if DistinctIDs(a) && DistinctIDs(b) && IDs(a) !! IDs(b) {
      forall i, j | 0 <= i < j < |a + b|
        ensures (a + b)[i].txID != (a + b)[j].txID
      {
        if i < |a| <= j {
          assert a[i].txID in IDs(a) && b[j - |a|].txID in IDs(b);
        }
      }
    }
  }

  /** After an accepted block the confirmed identifiers are still distinct exactly when the block
      repeats neither one of its own transfers nor one whose identifier is spent. */
  lemma DistinctExactlyWhenNew(s: NodeState, block: Block, clock: Clock)
    requires Sound(s) && Acceptable(s, block, clock) && DistinctIDs(Transfers(ChainTxs(s.chain)))
    ensures DistinctIDs(Transfers(ChainTxs(AfterAccept(s, block, clock).chain)))
       <==> DistinctIDs(Transfers(block.transactions)) && IDs(Transfers(block.transactions)) !! s.ledger.spent
  {
    hide Acceptable, AfterAccept, Transfers, DistinctIDs, ChainTxs, IDs;
    var before, added := Transfers(ChainTxs(s.chain)), Transfers(block.transactions);
    AcceptedTransfers(s, block, clock);
    DistinctConcat(before, added);
    forall id
      ensures id in s.ledger.spent <==> id in IDs(before)
    {
      ConfirmedAreSpent(s.chain, id);
    }
    assert s.ledger.spent == IDs(before);
  }

  /** What a block with these transactions on top of the tip must fulfil. */
  predicate Passes(s: NodeState, txs: seq<Transaction>, timestamp: string, difficulty: nat, nonce: u64, clock: Clock) {
    && ValidUnder(s.engine, s.chain, clock.epoch)
    && Solves(Offered(s, txs, timestamp, difficulty), nonce)
    && AllVerified(txs)
    && (s.engine.PoW? ==>
          && 1 <= difficulty <= 64
          && ValidTimestamp(Offered(s, txs, timestamp, difficulty), s.chain[|s.chain| - 1], clock.epoch))
  }

  lemma PassingBlockIsAccepted(s: NodeState, txs: seq<Transaction>, timestamp: string, difficulty: nat, nonce: u64,
                               clock: Clock)
    requires Sound(s) && Passes(s, txs, timestamp, difficulty, nonce, clock)
    ensures s.chain != []
    ensures var b := Sealed(Offered(s, txs, timestamp, difficulty), nonce);
            Acceptable(s, b, clock) && b.transactions == txs
  {
    hide Sealed, Solves, MerkleRoot, Rebuild, Acceptable, AllVerified;
    SealedBlock(Offered(s, txs, timestamp, difficulty), nonce);
    AcceptedWhateverTheFunds(s, txs, timestamp, difficulty, nonce, clock);
  }

  /** With or without an engine a block can repeat a transfer that the chain already holds. */
  lemma ConfirmedTwice(s: NodeState, tx: Transaction, timestamp: string, difficulty: nat, nonce: u64, clock: Clock)
    requires Sound(s) && Passes(s, [tx], timestamp, difficulty, nonce, clock)
    requires tx in Transfers(ChainTxs(s.chain)) && IsTransfer(tx)
    ensures var b := Sealed(Offered(s, [tx], timestamp, difficulty), nonce);
            var t := AfterAccept(s, b, clock);
            && Acceptable(s, b, clock)
            && Transfers(ChainTxs(t.chain)) == Transfers(ChainTxs(s.chain)) + [tx]
            && !DistinctIDs(Transfers(ChainTxs(t.chain)))
  {
    hide Passes, Sealed, Sound, Acceptable, AfterAccept, Transfers, ChainTxs, DistinctIDs;
    PassingBlockIsAccepted(s, [tx], timestamp, difficulty, nonce, clock);
    AcceptedTransfers(s, Sealed(Offered(s, [tx], timestamp, difficulty), nonce), clock);
    OneTransfer(tx);
    RepeatedIsNotDistinct(Transfers(ChainTxs(s.chain)), tx);
  }

  lemma OneTransfer(tx: Transaction)
    requires IsTransfer(tx)
    ensures Transfers([tx]) == [tx]
  {
    assert [tx][..0] == [];
  }

  lemma RepeatedIsNotDistinct(txs: seq<Transaction>, tx: Transaction)
    requires tx in txs
    ensures !DistinctIDs(txs + [tx])
  {
    var i :| 0 <= i < |txs| && txs[i] == tx;
    assert (txs + [tx])[i].txID == (txs + [tx])[|txs|].txID;
  }

  // ----- nonces -----

  lemma AcceptedNonces(s: NodeState, block: Block, clock: Clock, address: string)
    requires Acceptable(s, block, clock)
    ensures var t := AfterAccept(s, block, clock);
      && NoncesOf(ChainTxs(t.chain), address)
         == NoncesOf(ChainTxs(s.chain), address) + NoncesOf(block.transactions, address)
      && t.ledger == ApplyTxs(s.ledger, block.transactions)
  {
    hide ApplyTxs, Rebuild, NoncesOf, Acceptable;
    RebuildOne(s.chain, block);
    NoncesConcat(ChainTxs(s.chain), block.transactions, address);
  }

  lemma {:induction false} LastNonceAfterRange(l: Ledger, txs: seq<Transaction>, address: string)
    requires address != "" && IsRange(NoncesOf(txs, address), LastNonceOf(l, address) + 1)
    ensures LastNonceOf(ApplyTxs(l, txs), address) == LastNonceOf(l, address) + |NoncesOf(txs, address)|
    decreases |txs|
  {
    if txs != [] {
      var n := |txs| - 1;
      var some, all := NoncesOf(txs[..n], address), NoncesOf(txs, address);
      assert forall j | 0 <= j < |some| :: some[j] == all[j];
      LastNonceAfterRange(l, txs[..n], address);
      LastNonceOne(ApplyTxs(l, txs[..n]), txs[n], address);
      if SentBy(txs[n], address) {
        assert all[|some|] == txs[n].nonce;
      }
    }
  }

  lemma LastNonceOne(l: Ledger, tx: Transaction, address: string)
    requires address != ""
    ensures LastNonceOf(ApplyTx(l, tx), address)
         == if SentBy(tx, address) then Max(LastNonceOf(l, address), tx.nonce) else LastNonceOf(l, address)
  {
  }

  lemma RangeConcat(a: seq<nat>, b: seq<nat>)
    requires IsRange(a, 1)
    ensures IsRange(a + b, 1) <==> IsRange(b, |a| + 1)
  {
    assert forall j | 0 <= j < |b| :: (a + b)[|a| + j] == b[j];
  }

  /** After an accepted block an address's confirmed nonces still count from 1 exactly when those in
      the block continue its count. */
  lemma CountsExactlyWhenContinued(s: NodeState, block: Block, clock: Clock, address: string)
    requires Acceptable(s, block, clock) && address != "" && CountsFromOne(s, address)
    ensures CountsFromOne(AfterAccept(s, block, clock), address)
       <==> IsRange(NoncesOf(block.transactions, address), LastNonceOf(s.ledger, address) + 1)
  {
    hide Acceptable, AfterAccept, NoncesOf, IsRange, ChainTxs, ApplyTxs;
    var before, added := NoncesOf(ChainTxs(s.chain), address), NoncesOf(block.transactions, address);
    AcceptedNonces(s, block, clock, address);
    RangeConcat(before, added);
    if IsRange(added, LastNonceOf(s.ledger, address) + 1) {
      LastNonceAfterRange(s.ledger, block.transactions, address);
    }
  }

  /** A block can skip a nonce, or use one again: one signed transfer with any but the next nonce of
      its sender is enough. */
  lemma CountBroken(s: NodeState, tx: Transaction, timestamp: string, difficulty: nat, nonce: u64, clock: Clock)
    requires Sound(s) && Passes(s, [tx], timestamp, difficulty, nonce, clock)
    requires IsTransfer(tx) && tx.fromAddress != "" && CountsFromOne(s, tx.fromAddress)
    requires tx.nonce != LastNonceOf(s.ledger, tx.fromAddress) + 1
    ensures var b := Sealed(Offered(s, [tx], timestamp, difficulty), nonce);
            Acceptable(s, b, clock) && !CountsFromOne(AfterAccept(s, b, clock), tx.fromAddress)
  {
    hide Passes, Sealed, Sound, Acceptable, AfterAccept, CountsFromOne, NoncesOf, IsRange;
    PassingBlockIsAccepted(s, [tx], timestamp, difficulty, nonce, clock);
    CountsExactlyWhenContinued(s, Sealed(Offered(s, [tx], timestamp, difficulty), nonce), clock, tx.fromAddress);
    OneNonce(tx, LastNonceOf(s.ledger, tx.fromAddress) + 1);
  }

  lemma OneNonce(tx: Transaction, start: nat)
    requires IsTransfer(tx)
    ensures IsRange(NoncesOf([tx], tx.fromAddress), start) <==> tx.nonce == start
  {
    assert [tx][..0] == [];
    assert NoncesOf([tx], tx.fromAddress) == [tx.nonce];
    assert [tx.nonce][0] == tx.nonce;
  }

  // ----- supply -----

  /** The receiver's balance wraps. */
  predicate CreditWraps(l: Ledger, tx: Transaction) {
    tx.toAddress != "" && BalanceOf(l, tx.toAddress) + tx.amount >= U64
  }

  /** What the sender holds once the receiver is credited: more than before only where it pays
      itself. */
  function Held(l: Ledger, tx: Transaction): nat {
    if tx.fromAddress == "" then 0 else BalanceOf(Credit(l, tx), tx.fromAddress)
  }

  /** A transfer adds its amount for the receiver, takes at most what the sender holds, and loses
      2^64 where the credit wraps. The supply is conserved if and only if the credit does not wrap
      and the sender covers the amount, or, where there is no receiver, has nothing taken. */
  lemma ConservedExactlyWhenFunded(l: Ledger, tx: Transaction)
    requires IsTransfer(tx)
    ensures Supply(ApplyTx(l, tx))
         == Supply(l) + (if tx.toAddress != "" then tx.amount else 0) - (if CreditWraps(l, tx) then U64 else 0)
            - Min(Held(l, tx), tx.amount)
    ensures Supply(ApplyTx(l, tx)) == Supply(l) <==>
              && !CreditWraps(l, tx)
              && if tx.toAddress != "" then Held(l, tx) >= tx.amount else Min(Held(l, tx), tx.amount) == 0
  {
    hide Total, HistoryOf, OwnedBy;
    SupplyCredited(l, tx);
    SupplyDebited(Credit(l, tx), tx);
  }

  lemma SupplyCredited(l: Ledger, tx: Transaction)
    ensures Supply(Credit(l, tx))
         == Supply(l) + (if tx.toAddress != "" then tx.amount else 0) - (if CreditWraps(l, tx) then U64 else 0)
  {
    if tx.toAddress != "" {
      var total := BalanceOf(l, tx.toAddress) + tx.amount;
      assert total % U64 == if total >= U64 then total - U64 else total;
      TotalUpdate(l.balances, tx.toAddress, total % U64);
    }
  }

  lemma SupplyDebited(l: Ledger, tx: Transaction)
    requires IsTransfer(tx)
    ensures Supply(Debit(l, tx))
         == Supply(l) - if tx.fromAddress == "" then 0 else Min(BalanceOf(l, tx.fromAddress), tx.amount)
  {
    if tx.fromAddress != "" && tx.fromAddress in l.balances {
      TotalUpdate(l.balances, tx.fromAddress, SaturatingSub(l.balances[tx.fromAddress], tx.amount));
    }
  }

  /** The rewards among some transactions. */
  function Rewards(txs: seq<Transaction>): nat {
    if txs == [] then 0
    else
      var tx := txs[|txs| - 1];
      Rewards(txs[..|txs| - 1]) + if IsCoinbase(tx) then tx.amount else 0
  }

  /** What the senders of the transfers lack when their turn comes. */
  function Shortfall(l: Ledger, txs: seq<Transaction>): nat {
    if txs == [] then 0
    else
      var before, tx := txs[..|txs| - 1], txs[|txs| - 1];
      Shortfall(l, before) + if IsCoinbase(tx) then 0 else Lacking(ApplyTxs(l, before), tx)
  }

  function Lacking(l: Ledger, tx: Transaction): nat {
    tx.amount - Min(Held(l, tx), tx.amount)
  }

  /** How many credits wrap. */
  function Wraps(l: Ledger, txs: seq<Transaction>): nat {
    if txs == [] then 0
    else
      var before, tx := txs[..|txs| - 1], txs[|txs| - 1];
      Wraps(l, before) + if CreditWraps(ApplyTxs(l, before), tx) then 1 else 0
  }

  lemma SupplyOfOne(l: Ledger, tx: Transaction)
    ensures Supply(ApplyTx(l, tx)) + (if tx.toAddress == "" then tx.amount else 0)
         == Supply(l) + (if IsCoinbase(tx) then tx.amount else Lacking(l, tx))
            - (if CreditWraps(l, tx) then U64 else 0)
  {
    hide Total, HistoryOf, OwnedBy;
    SupplyCredited(l, tx);
    if IsTransfer(tx) {
      ConservedExactlyWhenFunded(l, tx);
    }
  }

  /** Conservation over any block, valid or not: what the accounts and the empty address hold grows by
      the rewards and by what senders lacked, less 2^64 for every credit that wraps. */
  lemma {:induction false} SupplyAfterBlock(l: Ledger, txs: seq<Transaction>)
    ensures Supply(ApplyTxs(l, txs)) + PendingIn(txs, "")
         == Supply(l) + Rewards(txs) + Shortfall(l, txs) - U64 * Wraps(l, txs)
    decreases |txs|
  {
    hide Supply, Lacking, CreditWraps, ApplyTx;
    if txs != [] {
      var n := |txs| - 1;
      SupplyAfterBlock(l, txs[..n]);
      SupplyOfOne(ApplyTxs(l, txs[..n]), txs[n]);
    }
  }

  /** An accepted block lets accounts and empty address grow by 50, as a mined one does, exactly when
      its rewards and what its senders lack come to 50, wrapped credits aside. */
  lemma SupplyGrowsExactlyWhen(s: NodeState, block: Block, clock: Clock)
    requires Acceptable(s, block, clock)
    ensures var t := AfterAccept(s, block, clock);
            Supply(t.ledger) + Burned(t) == Supply(s.ledger) + Burned(s) + 50 <==>
              Rewards(block.transactions) + Shortfall(s.ledger, block.transactions)
              == 50 + U64 * Wraps(s.ledger, block.transactions)
  {
    hide Acceptable, Supply, Rewards, Shortfall, Wraps, ApplyTxs, Rebuild, PendingIn;
    SupplyAfterBlock(s.ledger, block.transactions);
    RebuildOne(s.chain, block);
    PendingConcat(ChainTxs(s.chain), block.transactions, "");
  }

  /** A block can hold one reward of any other amount. */
  lemma RewardIsUnchecked(s: NodeState, reward: Transaction, timestamp: string, difficulty: nat, nonce: u64,
                          clock: Clock)
    requires Sound(s) && Passes(s, [reward], timestamp, difficulty, nonce, clock)
    requires IsCoinbase(reward) && reward.amount != 50
    ensures var b := Sealed(Offered(s, [reward], timestamp, difficulty), nonce);
            var t := AfterAccept(s, b, clock);
            && Acceptable(s, b, clock)
            && Supply(t.ledger) + Burned(t) != Supply(s.ledger) + Burned(s) + 50
  {
    hide Passes, Sealed, Sound, Acceptable, AfterAccept, Supply, Burned;
    PassingBlockIsAccepted(s, [reward], timestamp, difficulty, nonce, clock);
    SupplyGrowsExactlyWhen(s, Sealed(Offered(s, [reward], timestamp, difficulty), nonce), clock);
    OneReward(s.ledger, reward);
  }

  lemma OneReward(l: Ledger, reward: Transaction)
    requires IsCoinbase(reward)
    ensures Rewards([reward]) == reward.amount && Shortfall(l, [reward]) == 0 && Wraps(l, [reward]) <= 1
  {
    assert [reward][..0] == [];
  }

  /** Or a transfer of what its sender does not hold beside a reward of 50. */
  lemma OverspendingIsUnchecked(s: NodeState, reward: Transaction, tx: Transaction, timestamp: string, difficulty: nat,
                                nonce: u64, clock: Clock)
    requires Sound(s) && Passes(s, [reward, tx], timestamp, difficulty, nonce, clock)
    requires IsCoinbase(reward) && reward.amount == 50 && IsTransfer(tx)
    requires Held(ApplyTx(s.ledger, reward), tx) < tx.amount
    ensures var b := Sealed(Offered(s, [reward, tx], timestamp, difficulty), nonce);
            var t := AfterAccept(s, b, clock);
            && Acceptable(s, b, clock)
            && Supply(t.ledger) + Burned(t) != Supply(s.ledger) + Burned(s) + 50
  {
    hide Passes, Sealed, Sound, Acceptable, AfterAccept, Supply, Burned;
    PassingBlockIsAccepted(s, [reward, tx], timestamp, difficulty, nonce, clock);
    SupplyGrowsExactlyWhen(s, Sealed(Offered(s, [reward, tx], timestamp, difficulty), nonce), clock);
    RewardAndTransfer(s.ledger, reward, tx);
  }

  lemma RewardAndTransfer(l: Ledger, reward: Transaction, tx: Transaction)
    requires IsCoinbase(reward) && IsTransfer(tx)
    ensures Rewards([reward, tx]) == reward.amount
    ensures Shortfall(l, [reward, tx]) == Lacking(ApplyTx(l, reward), tx)
  {
    assert [reward, tx][..1] == [reward] && [reward][..0] == [];
    OneReward(l, reward);
    assert [] + [reward] == [reward];
    ApplyOne(l, [], reward);
  }

  // ----- solvency -----

  /** The replay of a block neither wraps a credit nor saturates or misses a debit. */
  predicate BlockIsExact(l: Ledger, txs: seq<Transaction>) {
    forall i | 0 <= i < |txs| :: ExactlyApplied(ApplyTxs(l, txs[..i]), txs[i])
  }

  predicate ExactlyApplied(l: Ledger, tx: Transaction) {
    if IsTransfer(tx) then Exact(l, tx)
    else tx.toAddress != "" ==> BalanceOf(l, tx.toAddress) + tx.amount < U64
  }

  /** What a block moves into an address, less what it moves out. */
  function Moved(txs: seq<Transaction>, address: string): int {
    PendingIn(txs, address) - PendingOut(Transfers(txs), address)
  }

  lemma MovedByOne(l: Ledger, tx: Transaction, address: string)
    requires ExactlyApplied(l, tx) && address != ""
    ensures BalanceOf(ApplyTx(l, tx), address)
         == BalanceOf(l, address) + (if tx.toAddress == address then tx.amount else 0)
            - (if IsTransfer(tx) && tx.fromAddress == address then tx.amount else 0)
  {
    hide HistoryOf, OwnedBy;
  }

  lemma {:induction false} BalanceAfterBlock(l: Ledger, txs: seq<Transaction>, address: string)
    requires BlockIsExact(l, txs) && address != ""
    ensures BalanceOf(ApplyTxs(l, txs), address) == BalanceOf(l, address) + Moved(txs, address)
    decreases |txs|
  {
    if txs != [] {
      var n := |txs| - 1;
      var before := ApplyTxs(l, txs[..n]);
      ExactPrefix(l, txs);
      BalanceAfterBlock(l, txs[..n], address);
      MovedByOne(before, txs[n], address);
      if IsTransfer(txs[n]) {
        PendingOne(Transfers(txs[..n]), txs[n], address);
      } else {
        assert Transfers(txs) == Transfers(txs[..n]);
      }
    }
  }

  lemma ExactPrefix(l: Ledger, txs: seq<Transaction>)
    requires BlockIsExact(l, txs) && txs != []
    ensures BlockIsExact(l, txs[..|txs| - 1])
    ensures ExactlyApplied(ApplyTxs(l, txs[..|txs| - 1]), txs[|txs| - 1])
  {
    hide ExactlyApplied, ApplyTxs;
    var before := txs[..|txs| - 1];
    forall i | 0 <= i < |before|
      ensures ExactlyApplied(ApplyTxs(l, before[..i]), before[i])
    {
      assert before[..i] == txs[..i] && before[i] == txs[i];
    }
  }

  /** Counting what the block moves first, every pending sender has enough at its turn. */
  predicate CoveredBehind(l: Ledger, txs: seq<Transaction>, pool: seq<Transaction>) {
    forall i | 0 <= i < |pool| ::
      Effective(l, pool[..i], pool[i].fromAddress) + Moved(txs, pool[i].fromAddress) >= pool[i].amount
  }

  /** After an accepted block that itself replays exactly, what is left of the pool is covered exactly
      when the block's transfers and the rest of the pool, in this order, are covered by the accounts
      as they were. */
  lemma SolventExactlyWhenCoveredBehind(s: NodeState, block: Block, clock: Clock)
    requires AllProper(s.mempool) && Acceptable(s, block, clock) && BlockIsExact(s.ledger, block.transactions)
    ensures Solvent(AfterAccept(s, block, clock))
       <==> CoveredBehind(s.ledger, block.transactions, Without(s.mempool, IDs(block.transactions)))
  {
    hide Acceptable, BlockIsExact, Moved, IDs, ApplyTxs, PendingIn, PendingOut, Without;
    var rest := Without(s.mempool, IDs(block.transactions));
    RestIsProper(s.mempool, IDs(block.transactions));
    forall i | 0 <= i < |rest|
      ensures Effective(ApplyTxs(s.ledger, block.transactions), rest[..i], rest[i].fromAddress)
           == Effective(s.ledger, rest[..i], rest[i].fromAddress) + Moved(block.transactions, rest[i].fromAddress)
    {
      assert Proper(rest[i]);
      BalanceAfterBlock(s.ledger, block.transactions, rest[i].fromAddress);
    }
  }

  lemma RestIsProper(pool: seq<Transaction>, ids: set<string>)
    requires AllProper(pool)
    ensures AllProper(Without(pool, ids))
  {
    WithoutMembers(pool, ids);
    var rest := Without(pool, ids);
    forall i | 0 <= i < |rest|
      ensures Proper(rest[i])
    {
      assert rest[i] in pool;
    }
  }

  /** A block can take from under a pending transfer what it needs: one that spends everything its
      sender holds. */
  lemma PoolLeftUncovered(s: NodeState, pending: Transaction, tx: Transaction, timestamp: string, difficulty: nat,
                          nonce: u64, clock: Clock)
    requires Sound(s) && Passes(s, [tx], timestamp, difficulty, nonce, clock)
    requires s.mempool == [pending] && Proper(pending) && Proper(tx) && tx.txID != pending.txID
    requires tx.fromAddress == pending.fromAddress != tx.toAddress
    requires tx.amount == BalanceOf(s.ledger, tx.fromAddress) && BlockIsExact(s.ledger, [tx])
    ensures var b := Sealed(Offered(s, [tx], timestamp, difficulty), nonce);
            Acceptable(s, b, clock) && !Solvent(AfterAccept(s, b, clock))
  {
    hide Passes, Sealed, Sound, Acceptable, AfterAccept, BlockIsExact, Solvent;
    PassingBlockIsAccepted(s, [tx], timestamp, difficulty, nonce, clock);
    SolventExactlyWhenCoveredBehind(s, Sealed(Offered(s, [tx], timestamp, difficulty), nonce), clock);
    assert IDs([tx]) == {tx.txID};
    assert Without([pending], {tx.txID}) == [pending] by {
      assert [pending][..0] == [];
    }
    MovedByTransfer(tx);
    assert [pending][..0] == [];
    assert Effective(s.ledger, [pending][..0], pending.fromAddress) == tx.amount;
  }

  lemma MovedByTransfer(tx: Transaction)
    requires IsTransfer(tx) && tx.toAddress != tx.fromAddress
    ensures Moved([tx], tx.fromAddress) == -(tx.amount as int)
  {
    OneTransfer(tx);
    PendingOne([], tx, tx.fromAddress);
    assert [] + [tx] == [tx];
  }
}
