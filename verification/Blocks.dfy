/** Blocks: the header that is hashed, the Merkle root, the nonce search and the JSON form. */
module Blocks {
  import opened Primitives
  import opened Transactions
  import Merkle

  datatype Block = Block(
    index: nat,
    timestamp: string,
    previousHash: string,
    transactions: seq<Transaction>,
    merkleRoot: string,
    nonce: u64,
    difficulty: nat,
    hash: string)

  // ----- Merkle root -----

  function Leaf(tx: Transaction): string {
    if tx.txID == "" then Sha256(tx.senderPublicKey + tx.receiverPublicKey + tx.payload + tx.timestamp)
    else tx.txID
  }

  function Leaves(txs: seq<Transaction>): (leaves: seq<string>)
    ensures |leaves| == |txs|
  {
    seq(|txs|, i requires 0 <= i < |txs| => Leaf(txs[i]))
  }

  function MerkleRoot(txs: seq<Transaction>): string {
    Merkle.Root(Leaves(txs))
  }

  method ComputeMerkleRoot(txs: seq<Transaction>) returns (root: string)
    ensures root == MerkleRoot(txs)
  {
    var hashes: seq<string> := [];
    for i := 0 to |txs|
      invariant hashes == Leaves(txs)[..i]
    {
      hashes := hashes + [Leaf(txs[i])];
    }
    assert hashes == Leaves(txs);
    root := Merkle.ComputeRoot(hashes);
  }

  // ----- hash and nonce search -----

  function Header(b: Block): string {
    Decimal(b.index) + b.timestamp + b.merkleRoot + b.previousHash + (Decimal(b.nonce) + Decimal(b.difficulty))
  }

  function CalculateHash(b: Block): (h: string)
    ensures |h| == 64
  {
    Sha256(Header(b))
  }

  /** The hash starts with as many zeros as the difficulty says. */
  predicate MeetsTarget(hash: string, difficulty: nat) {
    difficulty <= |hash| && forall i | 0 <= i < difficulty :: hash[i] == '0'
  }

  /** The block with another nonce and the hash that goes with it. */
  function WithNonce(b: Block, nonce: u64): Block {
    var renumbered := b.(nonce := nonce);
    renumbered.(hash := CalculateHash(renumbered))
  }

  /** The block sealed with a nonce. */
  function Sealed(b: Block, nonce: u64): Block {
    WithNonce(b.(merkleRoot := MerkleRoot(b.transactions)), nonce)
  }

  lemma Renumbered(b: Block, m: u64, n: u64)
    ensures WithNonce(WithNonce(b, m), n) == WithNonce(b, n)
  {
    assert b.(nonce := m).(hash := CalculateHash(b.(nonce := m))).(nonce := n)
        == b.(nonce := n).(hash := CalculateHash(b.(nonce := m)));
  }

  /** A block whose Merkle root is filled in meets its target with this nonce. */
  predicate Hits(filled: Block, nonce: u64) {
    MeetsTarget(WithNonce(filled, nonce).hash, filled.difficulty)
  }

  predicate Solves(b: Block, nonce: u64) {
    Hits(b.(merkleRoot := MerkleRoot(b.transactions)), nonce)
  }

  /** A block sealed with a solving nonce keeps its contents and has the right root and hash. */
  lemma SealedBlock(b: Block, nonce: u64)
    requires Solves(b, nonce)
    ensures var sealed := Sealed(b, nonce);
      && sealed.index == b.index && sealed.previousHash == b.previousHash && sealed.transactions == b.transactions
      && sealed.timestamp == b.timestamp && sealed.difficulty == b.difficulty
      && sealed.hash == CalculateHash(sealed)
      && sealed.merkleRoot == MerkleRoot(sealed.transactions)
      && MeetsTarget(sealed.hash, sealed.difficulty)
  {
  }

  /** The nonces in order, for a block whose Merkle root is filled in. */
  method SearchNonce(filled: Block, ghost solution: u64) returns (mined: Block)
    requires Hits(filled, solution)
    ensures mined == WithNonce(filled, mined.nonce) && Hits(filled, mined.nonce)
    ensures AllMiss(filled, mined.nonce)
  {
    mined := filled.(nonce := 0);
    mined := mined.(hash := CalculateHash(mined));
    var found := MeetsTarget(mined.hash, filled.difficulty);
    while !found
      invariant mined.nonce <= solution && mined == WithNonce(filled, mined.nonce)
      invariant found == Hits(filled, mined.nonce)
      invariant AllMiss(filled, mined.nonce)
      decreases solution - mined.nonce, !found
    {
      AllMissStep(filled, mined.nonce);
      mined := AdvanceNonce(filled, mined);
      found := MeetsTarget(mined.hash, filled.difficulty);
    }
  }

  ghost predicate AllMiss(filled: Block, bound: nat) {
    forall n: u64 | n < bound :: !Hits(filled, n)
  }

  lemma AllMissStep(filled: Block, bound: u64)
    requires AllMiss(filled, bound) && !Hits(filled, bound)
    ensures AllMiss(filled, bound + 1)
  {
    forall n: u64 | n < bound + 1
      ensures !Hits(filled, n)
    {
      if n == bound {
        assert !Hits(filled, bound);
      }
    }
  }

  /** One round of the search: the next nonce and its hash. */
  method AdvanceNonce(ghost filled: Block, candidate: Block) returns (next: Block)
    requires candidate.nonce + 1 < U64 && candidate == WithNonce(filled, candidate.nonce)
    ensures next == WithNonce(filled, candidate.nonce + 1)
  {
    next := candidate.(nonce := candidate.nonce + 1);
    next := next.(hash := CalculateHash(next));
    Renumbered(filled, candidate.nonce, candidate.nonce + 1);
  }

  /** The search tries the nonces in order; given that some nonce solves the block, it ends with
      the least one. */
  method MineBlock(block: Block, ghost solution: u64) returns (mined: Block)
    requires Solves(block, solution)
    ensures mined == Sealed(block, mined.nonce) && Solves(block, mined.nonce)
    ensures forall n: u64 | n < mined.nonce :: !Solves(block, n)
  {
    var root := ComputeMerkleRoot(block.transactions);
    mined := SearchNonce(block.(merkleRoot := root), solution);
  }

  // ----- genesis -----

  const GENESIS_TIME := "2026-01-01T00:00:00Z"

  function WithID(tx: Transaction): Transaction {
    tx.(txID := ComputeTxID(tx))
  }

  const GENESIS_COINBASE :=
    WithID(Transaction("", COINBASE, "", COINBASE, "GENESIS", 50, 0, "Genesis Block", GENESIS_TIME, ""))

  /** The genesis block before its nonce is found. */
  function GenesisTemplate(difficulty: nat): Block {
    Block(0, GENESIS_TIME, Zeros(64), [GENESIS_COINBASE], MerkleRoot([GENESIS_COINBASE]), 0, difficulty, "")
  }

  // ----- JSON -----

  datatype BlockJson = BlockJson(
    index: Option<nat>,
    timestamp: Option<string>,
    previousHash: Option<string>,
    merkleRoot: Option<string>,
    nonce: Option<u64>,
    difficulty: Option<nat>,
    hash: Option<string>,
    transactions: Option<seq<TxJson>>)

  function BlockToJson(b: Block): BlockJson {
    BlockJson(Some(b.index), Some(b.timestamp), Some(b.previousHash), Some(b.merkleRoot), Some(b.nonce),
              Some(b.difficulty), Some(b.hash),
              Some(seq(|b.transactions|, i requires 0 <= i < |b.transactions| => TxToJson(b.transactions[i]))))
  }

  function BlockFromJson(j: BlockJson): Block {
    var txs := Or(j.transactions, []);
    Block(Or(j.index, 0), Or(j.timestamp, ""), Or(j.previousHash, ""),
          seq(|txs|, i requires 0 <= i < |txs| => TxFromJson(txs[i])),
          Or(j.merkleRoot, ""), Or(j.nonce, 0), Or(j.difficulty, 1), Or(j.hash, ""))
  }

  predicate IsNormalBlock(b: Block) {
    forall i | 0 <= i < |b.transactions| :: IsNormal(b.transactions[i])
  }

  lemma DecodedBlockIsNormal(j: BlockJson)
    ensures IsNormalBlock(BlockFromJson(j))
  {
    var txs := Or(j.transactions, []);
    forall i | 0 <= i < |txs|
      ensures IsNormal(TxFromJson(txs[i]))
    {
      DecodedIsNormal(txs[i]);
    }
  }

  /** A stored or transmitted block comes back unchanged exactly when its transactions are
      normal; its header always comes back. */
  lemma BlockRoundTrip(b: Block)
    ensures BlockFromJson(BlockToJson(b)) == b <==> IsNormalBlock(b)
    ensures BlockFromJson(BlockToJson(b)).(transactions := b.transactions) == b
  {
    var txs := BlockFromJson(BlockToJson(b)).transactions;
    assert |txs| == |b.transactions|;
    forall i | 0 <= i < |txs|
      ensures txs[i] == b.transactions[i] <==> IsNormal(b.transactions[i])
    {
      TxRoundTrip(b.transactions[i]);
    }
    assert txs == b.transactions <==> IsNormalBlock(b);
  }

  /** Members that are missing read as empty, the difficulty as 1. */
  lemma DecodedBlockFields(j: BlockJson)
    ensures var b, txs := BlockFromJson(j), Or(j.transactions, []);
      && b.index == Or(j.index, 0) && b.timestamp == Or(j.timestamp, "") && b.previousHash == Or(j.previousHash, "")
      && b.merkleRoot == Or(j.merkleRoot, "") && b.nonce == Or(j.nonce, 0) && b.difficulty == Or(j.difficulty, 1)
      && b.hash == Or(j.hash, "") && |b.transactions| == |txs|
      && forall i | 0 <= i < |txs| :: b.transactions[i] == TxFromJson(txs[i])
  {
  }

  /** The genesis block of every node: the same but for difficulty and nonce. */
  lemma GenesisHolds(difficulty: nat, nonce: u64)
    ensures var g := Sealed(GenesisTemplate(difficulty), nonce);
      && g.index == 0 && g.timestamp == "2026-01-01T00:00:00Z" && g.previousHash == Zeros(64)
      && g.difficulty == difficulty && g.nonce == nonce && g.hash == Sha256(Header(g))
      && |g.transactions| == 1 && g.merkleRoot == g.transactions[0].txID
      && var reward := g.transactions[0];
      && reward.senderPublicKey == "COINBASE" && reward.fromAddress == "COINBASE" && reward.receiverPublicKey == ""
      && reward.toAddress == "GENESIS" && reward.amount == 50 && reward.nonce == 0
      && reward.payload == "Genesis Block" && reward.timestamp == g.timestamp && reward.txID == Sha256(TxCore(reward))
  {
    hide Decimal;
    assert |GENESIS_COINBASE.txID| == 64;
    assert Leaves([GENESIS_COINBASE]) == [GENESIS_COINBASE.txID];
    Merkle.SingleLeafIsRoot(GENESIS_COINBASE.txID);
  }
}
