/** The node's core object: chain, pool, account state and chain file, changed in place by its
    operations. Each operation is proved against the state machine. */
module Core {
  import opened Primitives
  import opened Transactions
  import opened Blocks
  import opened Difficulty
  import opened ChainValidity
  import opened LedgerSpec
  import opened StateManagement
  import opened Solvency
  import opened Nonces
  import opened Machine
  import opened AtomicFiles
  import opened ChainStorage

  class Blockchain {
    const engine: Engine
    const stateManager: StateManager
    const storage: ChainStore?
    var difficulty: nat
    var chain: seq<Block>
    var mempool: seq<Transaction>
    var chainUpdateVersion: u64

    ghost function View(): NodeState
      reads this, stateManager
    {
      NodeState(engine, chain, mempool, stateManager.View(), difficulty, chainUpdateVersion)
    }

    /** The objects the storage layer owns. */
    ghost function Disk(): set<object> {
      if storage == null then {} else {storage.file}
    }

    ghost function OnDisk(): Files<Content>
      requires storage != null
      reads storage.file
    {
      storage.file.View()
    }

    ghost predicate Valid()
      reads this, stateManager
    {
      chain != []
    }

    /** Load the stored chain if there is one and it is valid; otherwise start from a fresh genesis
        and store that. */
    constructor (difficulty: nat, engine: Engine, storage: ChainStore?, clock: Clock, io: WriteIO<Content>,
                 ghost solution: u64)
      requires storage == null || Usable(storage.file.View(), engine, clock.epoch) == [] ==>
                 Solves(GenesisTemplate(difficulty), solution)
      modifies if storage == null then {} else {storage.file}
      ensures Valid() && fresh(stateManager) && this.engine == engine && this.storage == storage
      ensures var usable := if storage == null then [] else Usable(old(storage.file.View()), engine, clock.epoch);
              if usable != [] then View() == StartFrom(engine, difficulty, usable)
              else exists nonce :: View() == StartFrom(engine, difficulty, [Genesis(difficulty, nonce)])
      ensures storage != null ==>
                storage.file.View() == if Usable(old(storage.file.View()), engine, clock.epoch) != []
                                       then old(storage.file.View()) else AfterSave(old(storage.file.View()), chain, io)
    {
      hide Usable, Rebuild, Genesis, Solves, AfterWrite;
      this.engine, this.storage, this.difficulty := engine, storage, difficulty;
      this.mempool, this.chainUpdateVersion := [], 1;
      var state := new StateManager();
      this.stateManager := state;
      var loaded: seq<Block> := [];
      if storage != null {
        loaded := LoadUsable(storage, engine, clock.epoch);
      }
      var start, nonce := StartChain(loaded, difficulty, state, solution);
      this.chain := start;
      new;
      if storage != null && loaded == [] {
        var ok := storage.SaveChain(start, io);
      }
      assert loaded == [] ==> View() == StartFrom(engine, difficulty, [Genesis(difficulty, nonce)]);
    }

    /** The two sums of the funds check, wrapping at 64 bits. */
    method PendingSums(address: string) returns (incoming: u64, outgoing: u64)
      ensures incoming == Wrap(PendingIn(mempool, address)) && outgoing == Wrap(PendingOut(mempool, address))
    {
      incoming, outgoing := 0, 0;
      assert incoming == Wrap(PendingIn([], address)) && outgoing == Wrap(PendingOut([], address));
      hide Wrap, WrappingAdd, PendingIn, PendingOut;
      for i := 0 to |mempool|
        invariant incoming == Wrap(PendingIn(mempool[..i], address))
        invariant outgoing == Wrap(PendingOut(mempool[..i], address))
      {
        var pending := mempool[i];
        assert mempool[..i + 1] == mempool[..i] + [pending];
        PendingOne(mempool[..i], pending, address);
        if pending.fromAddress == address {
          WrappingSum(PendingOut(mempool[..i], address), pending.amount);
          outgoing := WrappingAdd(outgoing, pending.amount);
        }
        if pending.toAddress == address {
          WrappingSum(PendingIn(mempool[..i], address), pending.amount);
          incoming := WrappingAdd(incoming, pending.amount);
        }
      }
      assert mempool[..|mempool|] == mempool;
    }

    method HasFunds(address: string, amount: u64) returns (ok: bool)
      ensures ok == FundsCheck(BalanceOf(stateManager.View(), address), PendingIn(mempool, address),
                               PendingOut(mempool, address), amount)
    {
      var confirmed := stateManager.GetBalance(address);
      var incoming, outgoing := PendingSums(address);
      var available := (confirmed + incoming) % U64;
      ok := available >= outgoing && available - outgoing >= amount;
    }

    method HighestSeenNonce(address: string) returns (highest: u64)
      ensures highest == Highest(stateManager.View(), mempool, address)
    {
      highest := stateManager.GetLastNonce(address);
      for i := 0 to |mempool|
        invariant highest == Highest(stateManager.View(), mempool[..i], address)
      {
        assert mempool[..i + 1] == mempool[..i] + [mempool[i]];
        HighestWithOneMore(stateManager.View(), mempool[..i], mempool[i], address);
        if mempool[i].fromAddress == address {
          highest := Max(highest, mempool[i].nonce);
        }
      }
      assert mempool[..|mempool|] == mempool;
    }

    method IsInMempool(txID: string) returns (found: bool)
      ensures found <==> txID in IDs(mempool)
    {
      for i := 0 to |mempool|
        invariant forall j | 0 <= j < i :: mempool[j].txID != txID
      {
        if mempool[i].txID == txID {
          assert mempool[i] in mempool;
          return true;
        }
      }
      found := false;
    }

    /** The checks against accounts and pool: funds, nonce, age, and the identifier's novelty. */
    method PassesPoolChecks(tx: Transaction, clock: Clock) returns (ok: bool)
      ensures ok == FitsPool(View(), tx, clock)
    {
      ok := HasFunds(tx.fromAddress, tx.amount);
      if !ok {
        return;
      }
      var highest := HighestSeenNonce(tx.fromAddress);
      if tx.nonce != (highest + 1) % U64 || IsExpired(tx, 300, clock.epoch) || tx.txID in stateManager.spentTxIDs {
        return false;
      }
      var pending := IsInMempool(tx.txID);
      ok := !pending;
    }

    method AddTransaction(tx: Transaction, clock: Clock) returns (ok: bool)
      requires Valid()
      modifies this
      ensures Valid() && ok == Admissible(old(View()), tx, clock) && View() == AfterAdd(old(View()), tx, clock)
    {
      if IsCoinbase(tx) || !Verify(tx) || tx.amount == 0 || tx.fromAddress != DeriveAddress(tx.senderPublicKey) {
        return false;
      }
      ok := PassesPoolChecks(tx, clock);
      if !ok {
        return;
      }
      mempool := mempool + [tx];
      chainUpdateVersion := Bumped(chainUpdateVersion);
    }

    /** The reward and up to a hundred pending transactions. */
    method CollectTransactions(miner: string, clock: Clock) returns (blockTxs: seq<Transaction>)
      ensures blockTxs == [Reward(miner, clock)] + mempool[..TakenCount(mempool)]
    {
      blockTxs := [Reward(miner, clock)];
      for i := 0 to Min(|mempool|, MAX_TXS_PER_BLOCK)
        invariant blockTxs == [Reward(miner, clock)] + mempool[..i]
      {
        blockTxs := blockTxs + [mempool[i]];
      }
    }

    /** Retarget, then put the transactions into a block on top of the tip. */
    method AssembleBlock(miner: string, clock: Clock) returns (newBlock: Block)
      requires Valid()
      modifies this`difficulty
      ensures newBlock == Template(old(View()), miner, clock) && difficulty == MiningDifficulty(old(View()))
    {
      hide MerkleRoot, NextDifficulty, Reward;
      if engine.PoW? {
        difficulty := NextDifficulty(engine.adjuster, chain, difficulty);
      }
      var blockTxs := CollectTransactions(miner, clock);
      var root := ComputeMerkleRoot(blockTxs);
      newBlock := Block(|chain|, clock.iso, chain[|chain| - 1].hash, blockTxs, root, 0, difficulty, "");
    }

    /** Append a block and apply it to the account state. */
    method Append(block: Block)
      modifies this`chain, this`chainUpdateVersion, stateManager
      ensures chain == old(chain) + [block]
      ensures stateManager.View() == ApplyTxs(old(stateManager.View()), block.transactions)
      ensures chainUpdateVersion == Bumped(old(chainUpdateVersion))
    {
      chain := chain + [block];
      stateManager.ApplyBlockState(block);
      chainUpdateVersion := Bumped(chainUpdateVersion);
    }

    /** Assemble and seal the block, append and apply it, drop what was mined. */
    method MineInMemory(miner: string, clock: Clock, ghost solution: u64) returns (block: Block)
      requires Valid() && Solves(Template(View(), miner, clock), solution)
      modifies this, stateManager
      ensures Valid() && Solves(Template(old(View()), miner, clock), block.nonce)
      ensures block == Sealed(Template(old(View()), miner, clock), block.nonce)
      ensures View() == AfterMine(old(View()), miner, clock, block.nonce)
    {
      hide Blocks.Sealed, Blocks.Solves, Machine.Reward;
      var newBlock := AssembleBlock(miner, clock);
      block := MineBlock(newBlock, solution);
      Append(block);
      var txCount := Min(|mempool|, MAX_TXS_PER_BLOCK);
      if txCount >= |mempool| {
        mempool := [];
      } else {
        mempool := mempool[txCount..];
      }
    }

    /** Mine, then store the block; what storing returns is ignored. */
    method MinePendingTransactions(miner: string, clock: Clock, io: WriteIO<Content>, ghost solution: u64)
      returns (block: Block)
      requires Valid() && Solves(Template(View(), miner, clock), solution)
      modifies this, stateManager, Disk()
      ensures Valid() && Solves(Template(old(View()), miner, clock), block.nonce)
      ensures block == Sealed(Template(old(View()), miner, clock), block.nonce)
      ensures View() == AfterMine(old(View()), miner, clock, block.nonce)
      ensures storage != null ==> OnDisk() == AfterAppend(old(OnDisk()), block, io)
    {
      hide Machine.AfterMine, Machine.Template, Blocks.Sealed, Blocks.Solves;
      block := MineInMemory(miner, clock, solution);
      if storage != null {
        var stored := storage.AppendBlock(block, io);
      }
    }

    /** Drop the pending transactions that have one of these identifiers. */
    method RemovePending(ids: set<string>)
      modifies this`mempool
      ensures mempool == Without(old(mempool), ids)
    {
      var kept: seq<Transaction> := [];
      for i := 0 to |mempool|
        invariant mempool == old(mempool)
        invariant kept == Without(mempool[..i], ids)
      {
        assert mempool[..i + 1][..i] == mempool[..i];
        if mempool[i].txID !in ids {
          kept := kept + [mempool[i]];
        }
      }
      assert mempool[..|mempool|] == mempool;
      mempool := kept;
    }

    method AcceptInMemory(block: Block, clock: Clock) returns (ok: bool)
      requires Valid()
      modifies this, stateManager
      ensures Valid() && ok == Acceptable(old(View()), block, clock)
      ensures View() == AfterAccept(old(View()), block, clock)
    {
      hide ValidUnder, Without;
      if block.index != |chain| || block.previousHash != chain[|chain| - 1].hash {
        return false;
      }
      ok := ValidateChainAgainstConsensus(engine, chain + [block], clock.epoch);
      if !ok {
        return;
      }
      Append(block);
      RemovePending(IDs(block.transactions));
    }

    method AcceptBlock(block: Block, clock: Clock, io: WriteIO<Content>) returns (ok: bool)
      requires Valid()
      modifies this, stateManager, Disk()
      ensures Valid() && ok == Acceptable(old(View()), block, clock)
      ensures View() == AfterAccept(old(View()), block, clock)
      ensures storage != null ==> OnDisk() == if ok then AfterAppend(old(OnDisk()), block, io) else old(OnDisk())
    {
      ok := AcceptInMemory(block, clock);
      if ok && storage != null {
        var stored := storage.AppendBlock(block, io);
      }
    }

    method ReplaceInMemory(newChain: seq<Block>, clock: Clock) returns (ok: bool)
      requires Valid()
      modifies this, stateManager
      ensures Valid() && ok == Preferable(old(View()), newChain, clock)
      ensures View() == AfterReplace(old(View()), newChain, clock)
    {
      hide ValidUnder, Rebuild, Without;
      if |newChain| <= |chain| {
        return false;
      }
      ok := ValidateChainAgainstConsensus(engine, newChain, clock.epoch);
      if !ok {
        return;
      }
      chain := newChain;
      stateManager.RebuildState(newChain);
      chainUpdateVersion := Bumped(chainUpdateVersion);
      RemovePending(stateManager.spentTxIDs);
    }

    method ReplaceChain(newChain: seq<Block>, clock: Clock, io: WriteIO<Content>) returns (ok: bool)
      requires Valid()
      modifies this, stateManager, Disk()
      ensures Valid() && ok == Preferable(old(View()), newChain, clock)
      ensures View() == AfterReplace(old(View()), newChain, clock)
      ensures storage != null ==> OnDisk() == if ok then AfterSave(old(OnDisk()), newChain, io) else old(OnDisk())
    {
      ok := ReplaceInMemory(newChain, clock);
      if ok && storage != null {
        var stored := storage.SaveChain(newChain, io);
      }
    }
  }

  // ----- start-up -----

  /** The stored chain, when there is one and it is valid at the clock; otherwise nothing. */
  function Usable(f: Files<Content>, engine: Engine, now: int): seq<Block> {
    if HasChain(f) && LoadedChain(f) != [] && ValidUnder(engine, LoadedChain(f), now) then LoadedChain(f) else []
  }

  method LoadUsable(storage: ChainStore, engine: Engine, now: int) returns (chain: seq<Block>)
    ensures chain == Usable(storage.file.View(), engine, now)
  {
    chain := [];
    var found := storage.HasPersistedChain();
    if found {
      var loaded := storage.LoadChain();
      if loaded != [] {
        var ok := ValidateChainAgainstConsensus(engine, loaded, now);
        if ok {
          chain := loaded;
        }
      }
    }
  }

  method CreateGenesis(difficulty: nat, ghost solution: u64) returns (genesis: Block)
    requires Solves(GenesisTemplate(difficulty), solution)
    ensures genesis == Genesis(difficulty, genesis.nonce)
  {
    genesis := MineBlock(GenesisTemplate(difficulty), solution);
  }

  /** The stored chain with its state rebuilt, or a fresh genesis with its state applied. */
  method StartChain(stored: seq<Block>, difficulty: nat, state: StateManager, ghost solution: u64)
    returns (chain: seq<Block>, ghost nonce: u64)
    requires stored == [] ==> Solves(GenesisTemplate(difficulty), solution)
    requires state.View() == EMPTY
    modifies state
    ensures chain == (if stored != [] then stored else [Genesis(difficulty, nonce)]) && chain != []
    ensures state.View() == Rebuild(chain)
  {
    nonce := solution;
    if stored != [] {
      chain := stored;
      state.RebuildState(stored);
    } else {
      var genesis := CreateGenesis(difficulty, solution);
      nonce := genesis.nonce;
      chain := [genesis];
      state.ApplyBlockState(genesis);
      GenesisState(genesis);
    }
  }

  lemma GenesisState(genesis: Block)
    ensures Rebuild([genesis]) == ApplyTxs(EMPTY, genesis.transactions)
  {
    assert [] + [genesis] == [genesis];
    RebuildOne([], genesis);
  }

  /** A start-up uses what is on disk exactly when that is a non-empty array whose blocks, as they decode,
      form a chain that is valid at the clock; then it starts with that chain and the accounts replayed
      from it, and otherwise it starts anew. Either way the pool is empty and the version 1. */
  lemma UsableExactlyWhen(f: Files<Content>, engine: Engine, now: int, chain: seq<Block>)
    requires chain != []
    ensures Usable(f, engine, now) == chain <==>
              && f.main.Some? && f.main.value.ChainText?
              && |f.main.value.blocks| == |chain|
              && (forall i | 0 <= i < |chain| :: chain[i] == BlockFromJson(f.main.value.blocks[i]))
              && ValidUnder(engine, chain, now)
    ensures forall difficulty ::
              StartFrom(engine, difficulty, chain)
              == NodeState(engine, chain, [], ApplyTxs(EMPTY, ChainTxs(chain)), difficulty, 1)
  {
    hide ValidUnder, BlockFromJson, ApplyTxs;
    RebuildIsReplay(chain);
    if f.main.Some? && f.main.value.ChainText? && |f.main.value.blocks| == |chain|
       && forall i | 0 <= i < |chain| :: chain[i] == BlockFromJson(f.main.value.blocks[i]) {
      assert LoadedChain(f) == chain;
    }
  }
}
