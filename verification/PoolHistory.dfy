/** What becomes of pending transfers: which ones an operation keeps, in which order, and how long an
    admitted one stays. */
module PoolHistory {
  import opened Primitives
  import opened Transactions
  import opened Blocks
  import opened ChainValidity
  import opened LedgerSpec
  import opened Difficulty
  import opened Machine
  import Merkle

  // ----- what is kept -----

  /** The new pool consists of the transactions at these positions of the old one, in this order, and
      these are the positions of all that do not have one of the identifiers. */
  predicate Selects(pool: seq<Transaction>, kept: seq<Transaction>, ids: set<string>, at: seq<nat>) {
    && |at| == |kept|
    && (forall k | 0 <= k < |at| :: at[k] < |pool| && kept[k] == pool[at[k]] && pool[at[k]].txID !in ids)
    && (forall j, k | 0 <= j < k < |at| :: at[j] < at[k])
    && (forall i: nat | i < |pool| && pool[i].txID !in ids :: i in at)
  }

  ghost predicate KeepsAllBut(pool: seq<Transaction>, kept: seq<Transaction>, ids: set<string>) {
    exists at: seq<nat> :: Selects(pool, kept, ids, at)
  }

  lemma SelectsOneMore(pool: seq<Transaction>, kept: seq<Transaction>, ids: set<string>, at: seq<nat>, tx: Transaction)
    requires Selects(pool, kept, ids, at)
    ensures tx.txID in ids ==> Selects(pool + [tx], kept, ids, at)
    ensures tx.txID !in ids ==> Selects(pool + [tx], kept + [tx], ids, at + [|pool|])
  {
    var at' := at + [|pool|];
    assert forall i: nat :: i in at' <==> i in at || i == |pool|;
    assert forall k | 0 <= k < |at| :: at'[k] == at[k];
  }

  lemma WithoutOne(pool: seq<Transaction>, ids: set<string>)
    requires pool != []
    ensures var n := |pool| - 1;
            Without(pool, ids) == if pool[n].txID in ids then Without(pool[..n], ids)
                                  else Without(pool[..n], ids) + [pool[n]]
  {
  }

  lemma {:induction false} WithoutKeeps(pool: seq<Transaction>, ids: set<string>)
    ensures KeepsAllBut(pool, Without(pool, ids), ids)
    decreases |pool|
  {
    if pool == [] {
      assert Selects(pool, [], ids, []);
    } else {
      hide Selects, Without;
      var n := |pool| - 1;
      var before := Without(pool[..n], ids);
      WithoutOne(pool, ids);
      WithoutKeeps(pool[..n], ids);
      var at: seq<nat> :| Selects(pool[..n], before, ids, at);
      SelectsOneMore(pool[..n], before, ids, at, pool[n]);
      assert pool[..n] + [pool[n]] == pool;
      if pool[n].txID in ids {
        assert Selects(pool, before, ids, at);
      } else {
        assert Selects(pool, before + [pool[n]], ids, at + [n]);
      }
    }
  }

  /** The identifiers of the transfers of a chain. */
  function ConfirmedIDs(chain: seq<Block>): set<string> {
    set t | t in ChainTxs(chain) && t.senderPublicKey != COINBASE :: t.txID
  }

  /** The identifiers in a block, rewards included. */
  function BlockIDs(b: Block): set<string> {
    set t | t in b.transactions :: t.txID
  }

  lemma SpentIsConfirmed(chain: seq<Block>)
    ensures Rebuild(chain).spent == ConfirmedIDs(chain)
  {
    StateIndexesChain(chain);
  }

  /** A replacement takes the longer valid chain with its accounts and keeps, in order, exactly the
      pending transactions whose identifier no transfer of the new chain has; any other chain changes
      nothing. */
  lemma ReplacementKeeps(s: NodeState, chain: seq<Block>, clock: Clock)
    ensures var t := AfterReplace(s, chain, clock);
            if |chain| > |s.chain| && ValidUnder(s.engine, chain, clock.epoch)
            then && t.chain == chain && t.ledger == Rebuild(chain)
                 && KeepsAllBut(s.mempool, t.mempool, ConfirmedIDs(chain))
                 && (forall tx :: tx in t.mempool <==> tx in s.mempool && tx.txID !in ConfirmedIDs(chain))
            else t == s
  {
    hide ValidUnder, Rebuild, KeepsAllBut, Without;
    SpentIsConfirmed(chain);
    WithoutKeeps(s.mempool, ConfirmedIDs(chain));
    WithoutMembers(s.mempool, ConfirmedIDs(chain));
  }

  /** An accepted block keeps, in order, exactly the pending transactions whose identifier no transaction
      of the block has. */
  lemma AcceptanceKeeps(s: NodeState, b: Block, clock: Clock)
    requires Acceptable(s, b, clock)
    ensures var t := AfterAccept(s, b, clock);
      && t.chain == s.chain + [b] && t.ledger == ApplyTxs(s.ledger, b.transactions)
      && KeepsAllBut(s.mempool, t.mempool, BlockIDs(b))
      && (forall tx :: tx in t.mempool <==> tx in s.mempool && tx.txID !in BlockIDs(b))
  {
    hide Acceptable, ApplyTxs, KeepsAllBut, Without;
    assert IDs(b.transactions) == BlockIDs(b);
    WithoutKeeps(s.mempool, BlockIDs(b));
    WithoutMembers(s.mempool, BlockIDs(b));
  }

  // ----- how long a transfer stays -----

  /** The step confirms this identifier: the block it mines or the chain it takes holds a transfer with
      it, or the block it accepts holds any transaction with it. */
  predicate Confirms(s: NodeState, step: Step, id: string)
    requires Enabled(s, step)
  {
    var t := Next(s, step);
    t.chain != s.chain && t.chain != [] &&
    match step
    case Add(_, _) => false
    case Mine(_, _, _) =>
      exists tx :: tx in t.chain[|t.chain| - 1].transactions && tx.senderPublicKey != COINBASE && tx.txID == id
    case Accept(_, _) => id in BlockIDs(t.chain[|t.chain| - 1])
    case Replace(_, _) => id in ConfirmedIDs(t.chain)
  }

  lemma MinedPool(s: NodeState, miner: string, clock: Clock, nonce: u64, tx: Transaction)
    requires s.chain != [] && DistinctIDs(s.mempool) && tx in s.mempool && IsTransfer(tx)
    requires forall i | 0 <= i < |s.mempool| :: IsTransfer(s.mempool[i])
    ensures var t := AfterMine(s, miner, clock, nonce);
      && |t.chain| == |s.chain| + 1
      && (tx !in t.mempool <==>
            exists u :: u in t.chain[|t.chain| - 1].transactions && u.senderPublicKey != COINBASE && u.txID == tx.txID)
  {
    hide AfterMine, Sealed, Template, ApplyTxs, TakenCount;
    var k := TakenCount(s.mempool);
    MinedTransactions(s, miner, clock, nonce);
    RewardIsCoinbase(miner, clock);
    SplitPool(s.mempool, k, Reward(miner, clock), tx);
  }

  lemma RewardIsCoinbase(miner: string, clock: Clock)
    ensures Reward(miner, clock).senderPublicKey == COINBASE
  {
  }

  lemma SplitPool(pool: seq<Transaction>, k: nat, reward: Transaction, tx: Transaction)
    requires k <= |pool| && DistinctIDs(pool) && tx in pool && reward.senderPublicKey == COINBASE
    requires forall i | 0 <= i < |pool| :: IsTransfer(pool[i])
    ensures tx !in pool[k..] <==>
              exists u :: u in [reward] + pool[..k] && u.senderPublicKey != COINBASE && u.txID == tx.txID
  {
    var i :| 0 <= i < |pool| && pool[i] == tx;
    var txs := [reward] + pool[..k];
    if i < k {
      assert txs[i + 1] == tx;
      assert IsTransfer(pool[i]);
      forall j | 0 <= j < |pool| - k
        ensures pool[k..][j] != tx
      {
        assert pool[i].txID != pool[k + j].txID;
      }
    } else {
      assert pool[k..][i - k] == tx;
      forall u | u in txs && u.senderPublicKey != COINBASE
        ensures u.txID != tx.txID
      {
        var j :| 0 <= j < |txs| && txs[j] == u;
        assert j > 0 && pool[j - 1] == u;
      }
    }
  }

  /** A pending transfer leaves the pool in a step exactly when the step confirms its identifier. */
  lemma LeavesExactlyWhen(s: NodeState, step: Step, tx: Transaction)
    requires Sound(s) && Enabled(s, step) && tx in s.mempool
    ensures tx !in Next(s, step).mempool <==> Confirms(s, step, tx.txID)
  {
    match step
    case Add(other, clock) => AddKeeps(s, other, clock, tx);
    case Mine(miner, clock, nonce) => MineLeaves(s, miner, clock, nonce, tx);
    case Accept(block, clock) => AcceptLeaves(s, block, clock, tx);
    case Replace(chain, clock) => ReplaceLeaves(s, chain, clock, tx);
  }

  lemma AddKeeps(s: NodeState, other: Transaction, clock: Clock, tx: Transaction)
    requires tx in s.mempool
    ensures tx in AfterAdd(s, other, clock).mempool && AfterAdd(s, other, clock).chain == s.chain
  {
    hide Admissible;
  }

  lemma MineLeaves(s: NodeState, miner: string, clock: Clock, nonce: u64, tx: Transaction)
    requires Sound(s) && Enabled(s, Mine(miner, clock, nonce)) && tx in s.mempool
    ensures tx !in AfterMine(s, miner, clock, nonce).mempool <==> Confirms(s, Mine(miner, clock, nonce), tx.txID)
  {
    hide AfterMine, Rebuild, ValidChain, Verify, Solves, Template;
    PoolIsTransfers(s.mempool, s.ledger.spent);
    assert IsTransfer(tx);
    MinedPool(s, miner, clock, nonce, tx);
  }

  lemma PoolIsTransfers(pool: seq<Transaction>, spent: set<string>)
    requires PoolSound(pool, spent)
    ensures forall i | 0 <= i < |pool| :: IsTransfer(pool[i])
    ensures forall tx :: tx in pool ==> IsTransfer(tx)
  {
    hide Verify, DistinctIDs;
    forall i | 0 <= i < |pool|
      ensures IsTransfer(pool[i])
    {
      assert Admitted(pool[i]);
    }
  }

  lemma AcceptLeaves(s: NodeState, block: Block, clock: Clock, tx: Transaction)
    requires s.chain != [] && tx in s.mempool
    ensures tx !in AfterAccept(s, block, clock).mempool <==> Confirms(s, Accept(block, clock), tx.txID)
  {
    hide ApplyTxs, Without, ValidUnder, KeepsAllBut;
    if Acceptable(s, block, clock) {
      AcceptanceKeeps(s, block, clock);
      assert |AfterAccept(s, block, clock).chain| == |s.chain| + 1;
    }
  }

  lemma ReplaceLeaves(s: NodeState, chain: seq<Block>, clock: Clock, tx: Transaction)
    requires s.chain != [] && tx in s.mempool
    ensures tx !in AfterReplace(s, chain, clock).mempool <==> Confirms(s, Replace(chain, clock), tx.txID)
  {
    hide AfterReplace, ValidUnder, KeepsAllBut, ConfirmedIDs, Rebuild;
    ReplacementKeeps(s, chain, clock);
  }

  /** Somewhere along the run a step confirms this identifier. */
  predicate ConfirmedAlong(s: NodeState, steps: seq<Step>, id: string)
    requires IsRun(s, steps)
    decreases |steps|
  {
    steps != [] && (Confirms(s, steps[0], id) || ConfirmedAlong(Next(s, steps[0]), steps[1..], id))
  }

  /** Nothing pending is lost: over any run a pending transfer stays pending until its identifier is
      confirmed. */
  lemma {:induction false} PendingUntilConfirmed(s: NodeState, steps: seq<Step>, tx: Transaction)
    requires Sound(s) && IsRun(s, steps) && tx in s.mempool
    ensures tx in Final(s, steps).mempool || ConfirmedAlong(s, steps, tx.txID)
    decreases |steps|
  {
    hide Sound, Next, Enabled, Confirms;
    if steps != [] {
      LeavesExactlyWhen(s, steps[0], tx);
      NextIsSound(s, steps[0]);
      if tx in Next(s, steps[0]).mempool {
        PendingUntilConfirmed(Next(s, steps[0]), steps[1..], tx);
      }
    }
  }

  // ----- the version counter -----

  /** The version a client polls moves by one exactly when chain or pool change. */
  lemma VersionMoves(s: NodeState, step: Step)
    requires Enabled(s, step)
    ensures var t := Next(s, step);
            t.version == if t.chain != s.chain || |t.mempool| > |s.mempool| then (s.version + 1) % U64 else s.version
  {
    hide ApplyTxs, Rebuild, ValidUnder, Admissible, Sealed, Template;
    match step
    case Add(_, _) =>
    case Mine(miner, clock, nonce) =>
      assert |Next(s, step).chain| == |s.chain| + 1;
    case Accept(block, clock) =>
      if Acceptable(s, block, clock) {
        assert |Next(s, step).chain| == |s.chain| + 1;
      } else {
        assert Next(s, step) == s;
      }
    case Replace(chain, clock) =>
      if Preferable(s, chain, clock) {
        assert |Next(s, step).chain| > |s.chain|;
      } else {
        assert Next(s, step) == s;
      }
  }

  // ----- the mined block -----

  /** What mining puts on top of the tip: the next index, the tip's hash, the time, a reward of 50 to the
      miner, and the first hundred pending transactions in order, which leave the pool; whatever the
      nonce, the block carries the hash of its header. */
  lemma MinedBlockHolds(s: NodeState, miner: string, clock: Clock, nonce: u64)
    requires s.chain != []
    ensures var t := AfterMine(s, miner, clock, nonce);
            var taken := if |s.mempool| < 100 then |s.mempool| else 100;
      && |t.chain| == |s.chain| + 1 && t.chain[..|s.chain|] == s.chain
      && t.mempool == s.mempool[taken..]
      && var b, reward := t.chain[|s.chain|], t.chain[|s.chain|].transactions[0];
      && b.index == |s.chain| && b.previousHash == s.chain[|s.chain| - 1].hash && b.timestamp == clock.iso
      && b.nonce == nonce && b.difficulty == t.difficulty
      && b.hash == Sha256(Header(b)) && b.merkleRoot == MerkleRoot(b.transactions)
      && b.transactions[1..] == s.mempool[..taken]
      && reward.senderPublicKey == "COINBASE" && reward.fromAddress == "COINBASE" && reward.receiverPublicKey == ""
      && reward.toAddress == miner && reward.amount == 50 && reward.nonce == 0 && reward.timestamp == clock.iso
      && reward.payload == "Mining Reward" && reward.txID == Sha256(TxCore(reward))
  {
    hide Merkle.Root, NextDifficulty, Decimal, ApplyTx;
  }
}
