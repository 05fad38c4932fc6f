/** Validation of a chain: the structural rules, the proof-of-work rules, and the loops that
    check them. */
module ChainValidity {
  import opened Primitives
  import opened Transactions
  import opened Blocks
  import opened Difficulty

  /** The consensus engine a node was built with, if any. */
  datatype Engine = NoEngine | PoW(adjuster: Adjuster)

  // ----- structural rules -----

  predicate ValidGenesis(g: Block) {
    g.previousHash == Zeros(64) && g.hash == CalculateHash(g) && g.merkleRoot == MerkleRoot(g.transactions)
  }

  predicate AllVerified(txs: seq<Transaction>) {
    forall i | 0 <= i < |txs| :: Verify(txs[i])
  }

  /** The rules for the block at a position above the genesis. */
  predicate ValidSuccessor(b: Block, previous: Block, position: nat) {
    && b.index == position
    && b.hash == CalculateHash(b)
    && b.previousHash == previous.hash
    && b.merkleRoot == MerkleRoot(b.transactions)
    && MeetsTarget(b.hash, b.difficulty)
    && AllVerified(b.transactions)
  }

  predicate ValidChain(chain: seq<Block>) {
    && chain != []
    && ValidGenesis(chain[0])
    && forall i | 1 <= i < |chain| :: ValidSuccessor(chain[i], chain[i - 1], i)
  }

  // ----- proof-of-work rules -----

  predicate ValidTimestamp(b: Block, previous: Block, now: int) {
    TimeOf(previous) <= TimeOf(b) <= now + 120
  }

  /** What the engine demands of a block after its predecessor at a clock reading. */
  predicate EngineAccepts(engine: Engine, b: Block, previous: Block, now: int) {
    engine.PoW? ==>
      && 1 <= b.difficulty <= 64
      && b.hash == CalculateHash(b)
      && MeetsTarget(b.hash, b.difficulty)
      && b.previousHash == previous.hash
      && b.merkleRoot == MerkleRoot(b.transactions)
      && ValidTimestamp(b, previous, now)
      && AllVerified(b.transactions)
  }

  predicate ValidUnder(engine: Engine, chain: seq<Block>, now: int) {
    && ValidChain(chain)
    && forall i | 1 <= i < |chain| :: EngineAccepts(engine, chain[i], chain[i - 1], now)
  }

  // ----- the checks as the node runs them -----

  method HasValidTransactions(b: Block) returns (ok: bool)
    ensures ok == AllVerified(b.transactions)
  {
    for i := 0 to |b.transactions|
      invariant forall j | 0 <= j < i :: Verify(b.transactions[j])
    {
      if !Verify(b.transactions[i]) {
        return false;
      }
    }
    ok := true;
  }

  method IsChainValid(chain: seq<Block>) returns (ok: bool)
    ensures ok == ValidChain(chain)
  {
    if chain == [] {
      return false;
    }
    var genesis := chain[0];
    if genesis.previousHash != Zeros(64) || genesis.hash != CalculateHash(genesis) {
      return false;
    }
    var root := ComputeMerkleRoot(genesis.transactions);
    if genesis.merkleRoot != root {
      return false;
    }
    for i := 1 to |chain|
      invariant forall j | 1 <= j < i :: ValidSuccessor(chain[j], chain[j - 1], j)
    {
      var current, previous := chain[i], chain[i - 1];
      if current.index != i || current.hash != CalculateHash(current) || current.previousHash != previous.hash {
        return false;
      }
      root := ComputeMerkleRoot(current.transactions);
      if current.merkleRoot != root || !MeetsTarget(current.hash, current.difficulty) {
        return false;
      }
      var verified := HasValidTransactions(current);
      if !verified {
        return false;
      }
    }
    ok := true;
  }

  method ValidateBlock(engine: Engine, b: Block, previous: Block, now: int) returns (ok: bool)
    requires engine.PoW?
    ensures ok == EngineAccepts(engine, b, previous, now)
  {
    if b.difficulty < 1 || b.difficulty > 64 || b.hash != CalculateHash(b) || !MeetsTarget(b.hash, b.difficulty)
       || b.previousHash != previous.hash {
      return false;
    }
    var root := ComputeMerkleRoot(b.transactions);
    if b.merkleRoot != root || !ValidTimestamp(b, previous, now) {
      return false;
    }
    ok := HasValidTransactions(b);
  }

  method ValidateChainAgainstConsensus(engine: Engine, chain: seq<Block>, now: int) returns (ok: bool)
    ensures ok == ValidUnder(engine, chain, now)
  {
    ok := IsChainValid(chain);
    if !ok || engine.NoEngine? {
      return;
    }
    for i := 1 to |chain|
      invariant forall j | 1 <= j < i :: EngineAccepts(engine, chain[j], chain[j - 1], now)
    {
      ok := ValidateBlock(engine, chain[i], chain[i - 1], now);
      if !ok {
        return;
      }
    }
    ok := true;
  }

  // ----- how validity grows -----

  /** Every non-empty prefix of a valid chain is valid. */
  lemma PrefixIsValid(engine: Engine, chain: seq<Block>, now: int, n: nat)
    requires ValidUnder(engine, chain, now) && 1 <= n <= |chain|
    ensures ValidUnder(engine, chain[..n], now)
  {
    var prefix := chain[..n];
    forall i | 1 <= i < |prefix|
      ensures ValidSuccessor(prefix[i], prefix[i - 1], i) && EngineAccepts(engine, prefix[i], prefix[i - 1], now)
    {
      assert prefix[i] == chain[i] && prefix[i - 1] == chain[i - 1];
    }
  }

  /** The two rules for the block at a position above the genesis. */
  predicate PassesAt(engine: Engine, chain: seq<Block>, i: nat, now: int)
    requires 1 <= i < |chain|
  {
    ValidSuccessor(chain[i], chain[i - 1], i) && EngineAccepts(engine, chain[i], chain[i - 1], now)
  }

  lemma ValidByPositions(engine: Engine, chain: seq<Block>, now: int)
    ensures ValidUnder(engine, chain, now) <==>
              chain != [] && ValidGenesis(chain[0]) && forall i | 1 <= i < |chain| :: PassesAt(engine, chain, i, now)
  {
    if chain != [] && ValidGenesis(chain[0]) && forall i | 1 <= i < |chain| :: PassesAt(engine, chain, i, now) {
      forall i | 1 <= i < |chain|
        ensures ValidSuccessor(chain[i], chain[i - 1], i) && EngineAccepts(engine, chain[i], chain[i - 1], now)
      {
        assert PassesAt(engine, chain, i, now);
      }
    }
  }

  /** A valid chain stays valid under one more block exactly when that block alone passes. */
  lemma ExtensionIsValid(engine: Engine, chain: seq<Block>, b: Block, now: int)
    requires ValidUnder(engine, chain, now)
    ensures ValidUnder(engine, chain + [b], now) <==>
              && ValidSuccessor(b, chain[|chain| - 1], |chain|)
              && EngineAccepts(engine, b, chain[|chain| - 1], now)
  {
    var longer, n := chain + [b], |chain|;
    ValidByPositions(engine, chain, now);
    ValidByPositions(engine, longer, now);
    forall i | 1 <= i < n
      ensures PassesAt(engine, longer, i, now) <==> PassesAt(engine, chain, i, now)
    {
      assert longer[i] == chain[i] && longer[i - 1] == chain[i - 1];
    }
    assert PassesAt(engine, longer, n, now) <==>
      ValidSuccessor(b, chain[n - 1], n) && EngineAccepts(engine, b, chain[n - 1], now);
  }

  /** A valid chain stays valid as the clock advances. */
  lemma LaterClock(engine: Engine, chain: seq<Block>, now: int, later: int)
    requires ValidUnder(engine, chain, now) && now <= later
    ensures ValidUnder(engine, chain, later)
  {
    forall i | 1 <= i < |chain|
      ensures EngineAccepts(engine, chain[i], chain[i - 1], later)
    {
      assert EngineAccepts(engine, chain[i], chain[i - 1], now);
    }
  }
}
