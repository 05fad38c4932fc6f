/** The chain file follows the chain: what is on disk after each operation, and what a restart makes
    of it. */
module Durability {
  import opened Primitives
  import opened Transactions
  import opened Blocks
  import opened ChainValidity
  import opened LedgerSpec
  import opened Nonces
  import opened Machine
  import opened AtomicFiles
  import opened ChainStorage
  import Core

  /** The disk after a step: a new block is appended, a new chain saved. */
  function DiskAfter(s: NodeState, f: Files<Content>, step: Step, io: WriteIO<Content>): Files<Content>
    requires Enabled(s, step)
  {
    match step
    case Add(_, _) => f
    case Mine(miner, clock, nonce) => AfterAppend(f, Sealed(Template(s, miner, clock), nonce), io)
    case Accept(block, clock) => if Acceptable(s, block, clock) then AfterAppend(f, block, io) else f
    case Replace(chain, clock) => if Preferable(s, chain, clock) then AfterSave(f, chain, io) else f
  }

  /** What arrives over the network was decoded, hence is normal; a transaction submitted to the node
      itself has to be. */
  predicate IsNormalStep(step: Step) {
    match step
    case Add(tx, _) => IsNormal(tx)
    case Mine(_, _, _) => true
    case Accept(block, _) => IsNormalBlock(block)
    case Replace(chain, _) => IsNormalChain(chain)
  }

  predicate IsNormalPool(pool: seq<Transaction>) {
    forall tx | tx in pool :: IsNormal(tx)
  }

  /** The tip's index is its position. */
  predicate TipNumbered(chain: seq<Block>) {
    chain != [] && chain[|chain| - 1].index == |chain| - 1
  }

  ghost predicate Durable(s: NodeState, f: Files<Content>) {
    Sound(s) && TipNumbered(s.chain) && IsNormalPool(s.mempool) && Stores(f, s.chain)
  }

  lemma MinedBlockIsNormal(s: NodeState, miner: string, clock: Clock, nonce: u64)
    requires s.chain != [] && IsNormalPool(s.mempool)
    ensures IsNormalBlock(Sealed(Template(s, miner, clock), nonce))
  {
    hide Blocks.Header, Merkle.Root, Transactions.TxCore;
    var txs := Template(s, miner, clock).transactions;
    forall i | 0 <= i < |txs|
      ensures IsNormal(txs[i])
    {
      if i > 0 {
        assert txs[i] == s.mempool[i - 1];
      }
    }
  }

  lemma MineIsDurable(s: NodeState, f: Files<Content>, miner: string, clock: Clock, nonce: u64, io: WriteIO<Content>)
    requires Durable(s, f) && Solves(Template(s, miner, clock), nonce) && io.Succeeds(true)
    ensures Durable(AfterMine(s, miner, clock, nonce), AfterAppend(f, Sealed(Template(s, miner, clock), nonce), io))
    ensures Appends(f, Sealed(Template(s, miner, clock), nonce))
  {
    MinedBlockIsNormal(s, miner, clock, nonce);
    MineIsSound(s, miner, clock, nonce);
    AppendStores(f, s.chain, Sealed(Template(s, miner, clock), nonce), io);
  }

  lemma AcceptIsDurable(s: NodeState, f: Files<Content>, block: Block, clock: Clock, io: WriteIO<Content>)
    requires Durable(s, f) && Acceptable(s, block, clock) && IsNormalBlock(block) && io.Succeeds(true)
    ensures Durable(AfterAccept(s, block, clock), AfterAppend(f, block, io)) && Appends(f, block)
  {
    AcceptIsSound(s, block, clock);
    AppendStores(f, s.chain, block, io);
    WithoutMembers(s.mempool, IDs(block.transactions));
  }

  lemma ReplaceIsDurable(s: NodeState, f: Files<Content>, chain: seq<Block>, clock: Clock, io: WriteIO<Content>)
    requires Durable(s, f) && Preferable(s, chain, clock) && IsNormalChain(chain) && io.Succeeds(true)
    ensures Durable(AfterReplace(s, chain, clock), AfterSave(f, chain, io))
  {
    ReplaceIsSound(s, chain, clock);
    SaveStores(f, chain, io);
    WithoutMembers(s.mempool, Rebuild(chain).spent);
    assert ValidSuccessor(chain[|chain| - 1], chain[|chain| - 2], |chain| - 1);
  }

  lemma AddIsDurable(s: NodeState, f: Files<Content>, tx: Transaction, clock: Clock)
    requires Durable(s, f) && IsNormal(tx)
    ensures Durable(AfterAdd(s, tx, clock), f)
  {
    AddIsSound(s, tx, clock);
  }

  lemma StepIsDurable(s: NodeState, f: Files<Content>, step: Step, io: WriteIO<Content>)
    requires Durable(s, f) && Enabled(s, step) && IsNormalStep(step) && io.Succeeds(true)
    ensures Durable(Next(s, step), DiskAfter(s, f, step, io))
  {
    hide AfterAppend, AfterSave, AfterAdd, AfterMine, Sealed, Template, Solves, ValidUnder, Rebuild, Stores, ApplyTxs;
    match step
    case Add(tx, clock) => AddIsDurable(s, f, tx, clock);
    case Mine(miner, clock, nonce) => MineIsDurable(s, f, miner, clock, nonce, io);
    case Accept(block, clock) => if Acceptable(s, block, clock) { AcceptIsDurable(s, f, block, clock, io); }
    case Replace(chain, clock) => if Preferable(s, chain, clock) { ReplaceIsDurable(s, f, chain, clock, io); }
  }

  /** The disk after a run, each step with its own file accesses. */
  function FinalDisk(s: NodeState, f: Files<Content>, steps: seq<Step>, ios: seq<WriteIO<Content>>): Files<Content>
    requires IsRun(s, steps) && |ios| == |steps|
    decreases |steps|
  {
    if steps == [] then f
    else FinalDisk(Next(s, steps[0]), DiskAfter(s, f, steps[0], ios[0]), steps[1..], ios[1..])
  }

  predicate AllNormal(steps: seq<Step>) {
    forall i | 0 <= i < |steps| :: IsNormalStep(steps[i])
  }

  /** With a file in place every write returns true. */
  predicate AllSucceed(ios: seq<WriteIO<Content>>) {
    forall i | 0 <= i < |ios| :: ios[i].Succeeds(true)
  }

  lemma {:induction false} RunIsDurable(s: NodeState, f: Files<Content>, steps: seq<Step>, ios: seq<WriteIO<Content>>)
    requires Durable(s, f) && IsRun(s, steps) && |ios| == |steps| && AllNormal(steps) && AllSucceed(ios)
    ensures Durable(Final(s, steps), FinalDisk(s, f, steps, ios))
    decreases |steps|
  {
    hide Durable, DiskAfter, Next, WriteIO.Succeeds;
    if steps != [] {
      StepIsDurable(s, f, steps[0], ios[0]);
      RunIsDurable(Next(s, steps[0]), DiskAfter(s, f, steps[0], ios[0]), steps[1..], ios[1..]);
    }
  }

  /** Durability: from a fresh genesis that was stored, after any run whose writes return true and in which
      every submitted transaction is normal, a restart at a clock that accepts the chain finds
      exactly the node's chain and rebuilds exactly its account state. */
  lemma RestartRestores(engine: Engine, difficulty: nat, nonce: u64, f: Files<Content>, io: WriteIO<Content>,
                        steps: seq<Step>, ios: seq<WriteIO<Content>>, now: int)
    requires io.Succeeds(f.main.Some?) && AllSucceed(ios) && |ios| == |steps| && AllNormal(steps)
    requires IsRun(StartFrom(engine, difficulty, [Genesis(difficulty, nonce)]), steps)
    requires ValidUnder(engine, Final(StartFrom(engine, difficulty, [Genesis(difficulty, nonce)]), steps).chain, now)
    ensures var start := StartFrom(engine, difficulty, [Genesis(difficulty, nonce)]);
            var s := Final(start, steps);
            var disk := FinalDisk(start, AfterSave(f, start.chain, io), steps, ios);
            && Core.Usable(disk, engine, now) == s.chain
            && StartFrom(engine, difficulty, Core.Usable(disk, engine, now)).ledger == s.ledger
  {
    var start := StartFrom(engine, difficulty, [Genesis(difficulty, nonce)]);
    GenesisIsSound(engine, difficulty, nonce);
    SaveStores(f, start.chain, io);
    RunIsDurable(start, AfterSave(f, start.chain, io), steps, ios);
    StoredLoads(FinalDisk(start, AfterSave(f, start.chain, io), steps, ios), Final(start, steps).chain);
  }

  // ----- transfers that do not survive storage -----

  /** A transfer to a key without its address, as only a direct caller can submit it: what arrives
      over the network is normalised first, and the HTTP interface asks for an address. */
  function KeyOnly(key: string, receiver: string, amount: u64, nonce: u64, clock: Clock, signature: string)
    : Transaction
  {
    WithID(Transaction("", key, receiver, DeriveAddress(key), "", amount, nonce, "", clock.iso, signature))
  }

  /** Given funds and a signature such a transfer is admitted, although it is not normal. */
  lemma KeyOnlyIsAdmitted(s: NodeState, key: string, receiver: string, amount: u64, clock: Clock, signature: string)
    requires s.mempool == [] && key != "" && key != COINBASE && receiver != ""
    requires 0 < amount <= BalanceOf(s.ledger, DeriveAddress(key))
    requires ISO_PARSER(clock.iso) == Some(clock.epoch)
    requires var tx := KeyOnly(key, receiver, amount, NextNonce(s.ledger, [], DeriveAddress(key)), clock, signature);
             signature != "" && ECDSA(tx.txID, signature, key) && tx.txID !in s.ledger.spent
    ensures var tx := KeyOnly(key, receiver, amount, NextNonce(s.ledger, [], DeriveAddress(key)), clock, signature);
            Admissible(s, tx, clock) && !IsNormal(tx)
  {
    hide TxCore, ComputeTxID, WithID;
    var nonce := NextNonce(s.ledger, [], DeriveAddress(key));
    var tx := KeyOnly(key, receiver, amount, nonce, clock, signature);
    IdentifierFits(Transaction("", key, receiver, DeriveAddress(key), "", amount, nonce, "", clock.iso, signature));
    assert |tx.fromAddress| == 44 && |tx.txID| == 64;
  }

  lemma IdentifierFits(tx: Transaction)
    ensures ComputeTxID(WithID(tx)) == WithID(tx).txID && WithID(tx).(txID := tx.txID) == tx
  {
  }

  /** A transfer with a sender address and a receiver key but no receiver address. */
  predicate LacksReceiver(tx: Transaction) {
    IsTransfer(tx) && tx.fromAddress != "" && tx.toAddress == "" && tx.receiverPublicKey != ""
  }

  function Reloaded(tx: Transaction): Transaction {
    TxFromJson(TxToJson(tx))
  }

  /** Read back it has a receiver, so the identifier it carries no longer fits it. */
  lemma ReloadedFailsToVerify(tx: Transaction)
    requires LacksReceiver(tx) && Verify(tx)
    ensures Reloaded(tx) == tx.(toAddress := DeriveAddress(tx.receiverPublicKey))
    ensures !Verify(Reloaded(tx)) || Collision(TxCore(tx), TxCore(Reloaded(tx)))
  {
    hide Decimal;
    var back := Reloaded(tx);
    assert |back.toAddress| == 44;
    assert |TxCore(back)| == |TxCore(tx)| + 44;
  }

  /** A block comes back changed where one of its transactions lacks the receiver. */
  lemma UnnormalBlockChangesOnReload(b: Block, k: nat)
    requires k < |b.transactions| && b.transactions[k].toAddress == "" && b.transactions[k].receiverPublicKey != ""
    ensures BlockFromJson(BlockToJson(b)) != b
  {
    BlockRoundTrip(b);
    assert !IsNormal(b.transactions[k]);
  }

  /** A node that restarts from a stored chain with such a transfer rejects the chain, and so starts
      afresh, unless two texts it hashes collide. */
  lemma RestartRejectsChain(f: Files<Content>, chain: seq<Block>, i: nat, k: nat, engine: Engine, now: int)
    requires f.main == Some(ChainText(Encode(chain))) && 1 <= i < |chain| && k < |chain[i].transactions|
    requires LacksReceiver(chain[i].transactions[k]) && Verify(chain[i].transactions[k])
    ensures || Core.Usable(f, engine, now) == []
            || Collision(TxCore(chain[i].transactions[k]), TxCore(Reloaded(chain[i].transactions[k])))
  {
    hide Verify, TxCore, Reloaded, LacksReceiver, CalculateHash, MerkleRoot, MeetsTarget, ValidGenesis, EngineAccepts;
    var tx := chain[i].transactions[k];
    ReloadedFailsToVerify(tx);
    var loaded := LoadedChain(f);
    ReloadedAt(chain, i, k);
    if ValidChain(loaded) {
      ValidVerifies(loaded, i, k);
    }
  }

  lemma ValidVerifies(chain: seq<Block>, i: nat, k: nat)
    requires ValidChain(chain) && 1 <= i < |chain| && k < |chain[i].transactions|
    ensures Verify(chain[i].transactions[k])
  {
    assert ValidSuccessor(chain[i], chain[i - 1], i);
  }

  lemma ReloadedAt(chain: seq<Block>, i: nat, k: nat)
    requires i < |chain| && k < |chain[i].transactions|
    ensures var loaded := Decode(Encode(chain));
      && |loaded[i].transactions| == |chain[i].transactions|
      && loaded[i].transactions[k] == Reloaded(chain[i].transactions[k])
  {
    hide TxFromJson, TxToJson;
  }
}
