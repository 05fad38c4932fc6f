/** The node as a state machine: what each public operation makes of the state, and what holds after
    every run of them. */
module Machine {
  import opened Primitives
  import opened Transactions
  import opened Blocks
  import Merkle
  import opened Difficulty
  import opened ChainValidity
  import opened LedgerSpec
  import opened Solvency
  import opened Nonces

  const BLOCK_REWARD: u64 := 50
  const MAX_TXS_PER_BLOCK := 100

  datatype NodeState = NodeState(
    engine: Engine,
    chain: seq<Block>,
    mempool: seq<Transaction>,
    ledger: Ledger,
    difficulty: nat,
    version: u64)

  // ----- the start -----

  function Genesis(difficulty: nat, nonce: u64): Block {
    Sealed(GenesisTemplate(difficulty), nonce)
  }

  function StartFrom(engine: Engine, difficulty: nat, chain: seq<Block>): NodeState {
    NodeState(engine, chain, [], Rebuild(chain), difficulty, 1)
  }

  // ----- adding a transaction -----

  function IDs(txs: seq<Transaction>): set<string> {
    set tx | tx in txs :: tx.txID
  }

  /** The transaction fits the accounts and the pool: covered, next in its sender's count, recent,
      and with an identifier that is neither confirmed nor pending. */
  predicate FitsPool(s: NodeState, tx: Transaction, clock: Clock) {
    && FundsCheck(BalanceOf(s.ledger, tx.fromAddress), PendingIn(s.mempool, tx.fromAddress),
                  PendingOut(s.mempool, tx.fromAddress), tx.amount)
    && tx.nonce == NextNonce(s.ledger, s.mempool, tx.fromAddress)
    && !IsExpired(tx, 300, clock.epoch)
    && tx.txID !in s.ledger.spent
    && tx.txID !in IDs(s.mempool)
  }

  predicate Admissible(s: NodeState, tx: Transaction, clock: Clock) {
    && !IsCoinbase(tx)
    && Verify(tx)
    && tx.amount != 0
    && tx.fromAddress == DeriveAddress(tx.senderPublicKey)
    && FitsPool(s, tx, clock)
  }

  function Bumped(version: u64): u64 {
    (version + 1) % U64
  }

  function AfterAdd(s: NodeState, tx: Transaction, clock: Clock): NodeState {
    if Admissible(s, tx, clock) then s.(mempool := s.mempool + [tx], version := Bumped(s.version)) else s
  }

  // ----- mining -----

  function Reward(miner: string, clock: Clock): Transaction {
    WithID(Transaction("", COINBASE, "", COINBASE, miner, BLOCK_REWARD, 0, "Mining Reward", clock.iso, ""))
  }

  function TakenCount(pool: seq<Transaction>): (k: nat)
    ensures k <= |pool|
  {
    Min(|pool|, MAX_TXS_PER_BLOCK)
  }

  function MiningDifficulty(s: NodeState): nat {
    match s.engine
    case NoEngine => s.difficulty
    case PoW(adjuster) => NextDifficulty(adjuster, s.chain, s.difficulty)
  }

  /** The block that is mined next, before its nonce is found. */
  function Template(s: NodeState, miner: string, clock: Clock): Block
    requires s.chain != []
  {
    var txs := [Reward(miner, clock)] + s.mempool[..TakenCount(s.mempool)];
    Block(|s.chain|, clock.iso, s.chain[|s.chain| - 1].hash, txs, MerkleRoot(txs), 0, MiningDifficulty(s), "")
  }

  function AfterMine(s: NodeState, miner: string, clock: Clock, nonce: u64): NodeState
    requires s.chain != []
  {
    var block := Sealed(Template(s, miner, clock), nonce);
    s.(chain := s.chain + [block],
       ledger := ApplyTxs(s.ledger, block.transactions),
       mempool := s.mempool[TakenCount(s.mempool)..],
       difficulty := MiningDifficulty(s),
       version := Bumped(s.version))
  }

  /** The mined block holds the reward and its share of the pool, and goes on top. */
  lemma MinedTransactions(s: NodeState, miner: string, clock: Clock, nonce: u64)
    requires s.chain != []
    ensures var b := Sealed(Template(s, miner, clock), nonce);
      && b.transactions == [Reward(miner, clock)] + s.mempool[..TakenCount(s.mempool)]
      && AfterMine(s, miner, clock, nonce).chain == s.chain + [b]
      && AfterMine(s, miner, clock, nonce).ledger == ApplyTxs(s.ledger, b.transactions)
      && AfterMine(s, miner, clock, nonce).mempool == s.mempool[TakenCount(s.mempool)..]
  {
    hide Header, Merkle.Root, NextDifficulty, Decimal, ApplyTx;
  }

  // ----- accepting a block, replacing the chain -----

  /** The pool without the transactions that have one of these identifiers. */
  function Without(pool: seq<Transaction>, ids: set<string>): seq<Transaction> {
    if pool == [] then []
    else
      var tx := pool[|pool| - 1];
      Without(pool[..|pool| - 1], ids) + if tx.txID in ids then [] else [tx]
  }

  predicate Acceptable(s: NodeState, block: Block, clock: Clock) {
    && s.chain != []
    && block.index == |s.chain| && block.previousHash == s.chain[|s.chain| - 1].hash
    && ValidUnder(s.engine, s.chain + [block], clock.epoch)
  }

  function AfterAccept(s: NodeState, block: Block, clock: Clock): NodeState {
    if Acceptable(s, block, clock)
    then s.(chain := s.chain + [block],
            ledger := ApplyTxs(s.ledger, block.transactions),
            mempool := Without(s.mempool, IDs(block.transactions)),
            version := Bumped(s.version))
    else s
  }

  predicate Preferable(s: NodeState, chain: seq<Block>, clock: Clock) {
    |chain| > |s.chain| && ValidUnder(s.engine, chain, clock.epoch)
  }

  function AfterReplace(s: NodeState, chain: seq<Block>, clock: Clock): NodeState {
    if Preferable(s, chain, clock)
    then s.(chain := chain,
            ledger := Rebuild(chain),
            mempool := Without(s.mempool, Rebuild(chain).spent),
            version := Bumped(s.version))
    else s
  }

  // ----- runs -----

  datatype Step =
    | Add(tx: Transaction, clock: Clock)
    | Mine(miner: string, clock: Clock, nonce: u64)
    | Accept(block: Block, clock: Clock)
    | Replace(chain: seq<Block>, clock: Clock)

  /** Mining ends with a nonce that solves the block; the other operations can always be called. */
  predicate Enabled(s: NodeState, step: Step) {
    s.chain != [] && (step.Mine? ==> Solves(Template(s, step.miner, step.clock), step.nonce))
  }

  function Next(s: NodeState, step: Step): NodeState
    requires Enabled(s, step)
  {
    match step
    case Add(tx, clock) => AfterAdd(s, tx, clock)
    case Mine(miner, clock, nonce) => AfterMine(s, miner, clock, nonce)
    case Accept(block, clock) => AfterAccept(s, block, clock)
    case Replace(chain, clock) => AfterReplace(s, chain, clock)
  }

  predicate IsRun(s: NodeState, steps: seq<Step>)
    decreases |steps|
  {
    steps == [] || (Enabled(s, steps[0]) && IsRun(Next(s, steps[0]), steps[1..]))
  }

  function Final(s: NodeState, steps: seq<Step>): NodeState
    requires IsRun(s, steps)
    decreases |steps|
  {
    if steps == [] then s else Final(Next(s, steps[0]), steps[1..])
  }

  // ----- what holds after every run -----

  predicate Admitted(tx: Transaction) {
    !IsCoinbase(tx) && Verify(tx) && tx.amount > 0 && tx.fromAddress == DeriveAddress(tx.senderPublicKey)
  }

  predicate DistinctIDs(pool: seq<Transaction>) {
    forall i, j | 0 <= i < j < |pool| :: pool[i].txID != pool[j].txID
  }

  predicate PoolSound(pool: seq<Transaction>, spent: set<string>) {
    && (forall i | 0 <= i < |pool| :: Admitted(pool[i]) && pool[i].txID !in spent)
    && DistinctIDs(pool)
  }

  ghost predicate Sound(s: NodeState) {
    && ValidChain(s.chain)
    && s.ledger == Rebuild(s.chain)
    && PoolSound(s.mempool, s.ledger.spent)
  }

  lemma {:induction false} WithoutMembers(pool: seq<Transaction>, ids: set<string>)
    ensures forall tx :: tx in Without(pool, ids) <==> tx in pool && tx.txID !in ids
    decreases |pool|
  {
    if pool != [] {
      WithoutMembers(pool[..|pool| - 1], ids);
    }
  }

  lemma {:induction false} WithoutKeepsDistinct(pool: seq<Transaction>, ids: set<string>)
    requires DistinctIDs(pool)
    ensures DistinctIDs(Without(pool, ids))
    decreases |pool|
  {
    if pool != [] {
      var n := |pool| - 1;
      WithoutKeepsDistinct(pool[..n], ids);
      WithoutMembers(pool[..n], ids);
      var kept := Without(pool[..n], ids);
      forall i | 0 <= i < |kept|
        ensures kept[i].txID != pool[n].txID
      {
        assert kept[i] in pool[..n];
      }
    }
  }

  lemma PoolWithout(pool: seq<Transaction>, spent: set<string>, ids: set<string>, spent': set<string>)
    requires PoolSound(pool, spent)
    requires forall tx | tx in pool && tx.txID !in ids :: tx.txID !in spent'
    ensures PoolSound(Without(pool, ids), spent')
  {
    WithoutMembers(pool, ids);
    WithoutKeepsDistinct(pool, ids);
    var kept := Without(pool, ids);
    forall i | 0 <= i < |kept|
      ensures Admitted(kept[i]) && kept[i].txID !in spent'
    {
      assert kept[i] in pool;
    }
  }

  lemma {:induction false} SpentAfter(l: Ledger, txs: seq<Transaction>)
    ensures ApplyTxs(l, txs).spent == l.spent + TransferIDs(txs)
    decreases |txs|
  {
    if txs != [] {
      SpentAfter(l, txs[..|txs| - 1]);
      assert txs[..|txs| - 1] + [txs[|txs| - 1]] == txs;
    }
  }

  /** The block that is mined continues the chain, whoever mines it and whatever is pending. */
  lemma MinedBlockIsValid(s: NodeState, miner: string, clock: Clock, nonce: u64)
    requires Sound(s) && Solves(Template(s, miner, clock), nonce)
    ensures var b := Sealed(Template(s, miner, clock), nonce);
            ValidSuccessor(b, s.chain[|s.chain| - 1], |s.chain|)
  {
    hide Sealed, Solves, MerkleRoot, Rebuild, CalculateHash, MeetsTarget;
    SealedBlock(Template(s, miner, clock), nonce);
    TakenAreVerified(s.mempool, Reward(miner, clock), s.ledger.spent);
  }

  lemma TakenAreVerified(pool: seq<Transaction>, reward: Transaction, spent: set<string>)
    requires PoolSound(pool, spent) && IsCoinbase(reward)
    ensures AllVerified([reward] + pool[..TakenCount(pool)])
  {
    hide Verify, DistinctIDs;
    var txs := [reward] + pool[..TakenCount(pool)];
    RewardVerifies(reward);
    forall i | 0 <= i < |txs|
      ensures Verify(txs[i])
    {
      if i > 0 {
        assert txs[i] == pool[i - 1] && Admitted(pool[i - 1]);
      }
    }
  }

  lemma RewardVerifies(reward: Transaction)
    requires IsCoinbase(reward)
    ensures Verify(reward)
  {
  }

  lemma NotAmongTaken(pool: seq<Transaction>, reward: Transaction, k: nat, i: nat)
    requires DistinctIDs(pool) && k <= i < |pool| && IsCoinbase(reward)
    ensures pool[i].txID !in TransferIDs([reward] + pool[..k])
  {
    var txs := [reward] + pool[..k];
    forall tx | tx in txs && IsTransfer(tx)
      ensures tx.txID != pool[i].txID
    {
      var j :| 0 <= j < |txs| && txs[j] == tx;
      assert j > 0 && tx == pool[j - 1];
    }
  }

  lemma RestOfPoolIsSound(pool: seq<Transaction>, spent: set<string>, reward: Transaction, k: nat)
    requires PoolSound(pool, spent) && k <= |pool| && IsCoinbase(reward)
    ensures PoolSound(pool[k..], spent + TransferIDs([reward] + pool[..k]))
  {
    hide Admitted, TransferIDs;
    var rest, txs := pool[k..], [reward] + pool[..k];
    forall i | 0 <= i < |rest|
      ensures Admitted(rest[i]) && rest[i].txID !in spent + TransferIDs(txs)
    {
      assert rest[i] == pool[k + i];
      NotAmongTaken(pool, reward, k, k + i);
    }
  }

  lemma MineIsSound(s: NodeState, miner: string, clock: Clock, nonce: u64)
    requires Sound(s) && Solves(Template(s, miner, clock), nonce)
    ensures Sound(AfterMine(s, miner, clock, nonce))
  {
    var b, k := Sealed(Template(s, miner, clock), nonce), TakenCount(s.mempool);
    MinedBlockIsValid(s, miner, clock, nonce);
    ExtensionIsValid(NoEngine, s.chain, b, 0);
    RebuildOne(s.chain, b);
    SpentAfter(s.ledger, b.transactions);
    RestOfPoolIsSound(s.mempool, s.ledger.spent, Reward(miner, clock), k);
  }

  lemma PoolWithOneMore(pool: seq<Transaction>, spent: set<string>, tx: Transaction)
    requires PoolSound(pool, spent) && Admitted(tx) && tx.txID !in spent && tx.txID !in IDs(pool)
    ensures PoolSound(pool + [tx], spent)
  {
    forall i | 0 <= i < |pool|
      ensures pool[i].txID != tx.txID
    {
      assert pool[i] in pool;
    }
  }

  lemma AdmissibleIsAdmitted(s: NodeState, tx: Transaction, clock: Clock)
    requires Admissible(s, tx, clock)
    ensures Admitted(tx) && Proper(tx)
  {
    assert |DeriveAddress(tx.senderPublicKey)| == 44;
  }

  lemma AddIsSound(s: NodeState, tx: Transaction, clock: Clock)
    requires Sound(s)
    ensures Sound(AfterAdd(s, tx, clock))
  {
    if Admissible(s, tx, clock) {
      AdmissibleIsAdmitted(s, tx, clock);
      PoolWithOneMore(s.mempool, s.ledger.spent, tx);
    }
  }

  lemma AcceptIsSound(s: NodeState, block: Block, clock: Clock)
    requires Sound(s)
    ensures Sound(AfterAccept(s, block, clock))
  {
    if Acceptable(s, block, clock) {
      RebuildOne(s.chain, block);
      SpentAfter(s.ledger, block.transactions);
      PoolWithout(s.mempool, s.ledger.spent, IDs(block.transactions), s.ledger.spent + TransferIDs(block.transactions));
    }
  }

  lemma ReplaceIsSound(s: NodeState, chain: seq<Block>, clock: Clock)
    requires Sound(s)
    ensures Sound(AfterReplace(s, chain, clock))
  {
    var spent := Rebuild(chain).spent;
    PoolWithout(s.mempool, s.ledger.spent, spent, spent);
  }

  lemma ChainGrows(s: NodeState, step: Step)
    requires Enabled(s, step)
    ensures |Next(s, step).chain| >= |s.chain| && Next(s, step).engine == s.engine
  {
  }

  /** Every operation keeps the chain valid, the state the index of the chain, and the pool free of
      duplicates and of confirmed transactions. */
  lemma NextIsSound(s: NodeState, step: Step)
    requires Sound(s) && Enabled(s, step)
    ensures Sound(Next(s, step))
  {
    if step.Add? {
      AddIsSound(s, step.tx, step.clock);
    } else if step.Mine? {
      MineIsSound(s, step.miner, step.clock, step.nonce);
    } else if step.Accept? {
      AcceptIsSound(s, step.block, step.clock);
    } else {
      ReplaceIsSound(s, step.chain, step.clock);
    }
  }

  lemma {:induction false} RunIsSound(s: NodeState, steps: seq<Step>)
    requires Sound(s) && IsRun(s, steps)
    ensures Sound(Final(s, steps))
    ensures |Final(s, steps).chain| >= |s.chain|
    ensures Final(s, steps).engine == s.engine
    decreases |steps|
  {
    if steps != [] {
      NextIsSound(s, steps[0]);
      ChainGrows(s, steps[0]);
      RunIsSound(Next(s, steps[0]), steps[1..]);
    }
  }

  lemma GenesisIsSound(engine: Engine, difficulty: nat, nonce: u64)
    ensures Sound(StartFrom(engine, difficulty, [Genesis(difficulty, nonce)]))
    ensures Rebuild([Genesis(difficulty, nonce)]) == ApplyTx(EMPTY, GENESIS_COINBASE)
  {
    hide Merkle.Root, TxCore, Decimal;
    var g := Genesis(difficulty, nonce);
    assert [] + [g] == [g];
    RebuildOne([], g);
    ApplyOne(EMPTY, [], GENESIS_COINBASE);
    assert [] + [GENESIS_COINBASE] == [GENESIS_COINBASE];
  }

  /** The main invariant: from a fresh genesis or from a valid stored chain, after any run of
      adding, mining, accepting and replacing. */
  lemma EveryReachableStateIsSound(engine: Engine, difficulty: nat, start: seq<Block>, nonce: u64, steps: seq<Step>)
    requires start == [Genesis(difficulty, nonce)] || ValidChain(start)
    requires IsRun(StartFrom(engine, difficulty, start), steps)
    ensures var s := Final(StartFrom(engine, difficulty, start), steps);
            Sound(s) && Indexes(s.ledger, ChainTxs(s.chain))
  {
    if start == [Genesis(difficulty, nonce)] {
      GenesisIsSound(engine, difficulty, nonce);
    }
    RunIsSound(StartFrom(engine, difficulty, start), steps);
    StateIndexesChain(Final(StartFrom(engine, difficulty, start), steps).chain);
  }
}
