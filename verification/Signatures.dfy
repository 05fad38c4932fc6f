/** Who signed what: the transfers a node holds, confirmed or pending, and exactly which blocks it takes. */
module Signatures {
  import opened Primitives
  import opened Transactions
  import opened Blocks
  import opened Difficulty
  import opened ChainValidity
  import opened LedgerSpec
  import opened Machine

  const ADDRESS_PREFIX := "PCN_"

  /** A transfer of a positive amount, from one of its key's addresses if it names a sender, with the
      hash of its fields as identifier, and that identifier signed with its key. */
  predicate Signed(tx: Transaction) {
    && tx.senderPublicKey != COINBASE
    && tx.amount > 0
    && tx.senderPublicKey != "" && tx.digitalSignature != ""
    && (|| tx.fromAddress == ""
        || tx.fromAddress == ADDRESS_PREFIX + Sha256(tx.senderPublicKey)[..40]
        || tx.fromAddress == Sha256(tx.senderPublicKey))
    && tx.txID == Sha256(TxCore(tx))
    && ECDSA(tx.txID, tx.digitalSignature, tx.senderPublicKey)
  }

  lemma VerifiesExactlyWhen(tx: Transaction)
    ensures Verify(tx) <==> tx.senderPublicKey == COINBASE || Signed(tx)
  {
    hide TxCore;
    assert |Sha256(TxCore(tx))| == 64;
  }

  /** The transactions of a block are rewards or signed. */
  predicate AllSigned(txs: seq<Transaction>) {
    forall k | 0 <= k < |txs| :: txs[k].senderPublicKey == COINBASE || Signed(txs[k])
  }

  lemma VerifiedExactlyWhen(txs: seq<Transaction>)
    ensures AllVerified(txs) <==> AllSigned(txs)
  {
    hide Verify, Signed;
    forall k | 0 <= k < |txs|
      ensures Verify(txs[k]) <==> txs[k].senderPublicKey == COINBASE || Signed(txs[k])
    {
      VerifiesExactlyWhen(txs[k]);
    }
  }

  /** A block that follows another at a position: numbered, linked, hashed over its header, with the
      root of its transactions, a hash that begins with as many zeros as its difficulty says, and
      signed. */
  predicate Follows(b: Block, previous: Block, position: nat) {
    && b.index == position
    && b.previousHash == previous.hash
    && b.hash == Sha256(Header(b))
    && b.merkleRoot == MerkleRoot(b.transactions)
    && b.difficulty <= 64 && b.hash[..b.difficulty] == Zeros(b.difficulty)
    && AllSigned(b.transactions)
  }

  lemma ZerosAtFront(hash: string, difficulty: nat)
    requires |hash| == 64
    ensures MeetsTarget(hash, difficulty) <==> difficulty <= 64 && hash[..difficulty] == Zeros(difficulty)
  {
    if difficulty <= 64 && hash[..difficulty] == Zeros(difficulty) {
      forall i | 0 <= i < difficulty
        ensures hash[i] == '0'
      {
        assert hash[i] == hash[..difficulty][i] == Zeros(difficulty)[i];
      }
    }
  }

  lemma FollowsExactlyWhen(b: Block, previous: Block, position: nat)
    ensures ValidSuccessor(b, previous, position) <==> Follows(b, previous, position)
  {
    hide Header, MerkleRoot, AllVerified, AllSigned, MeetsTarget;
    VerifiedExactlyWhen(b.transactions);
    if b.hash == Sha256(Header(b)) {
      ZerosAtFront(b.hash, b.difficulty);
    }
  }

  /** What validation comes to, block by block. */
  predicate WellFormedChain(chain: seq<Block>) {
    && chain != []
    && chain[0].previousHash == Zeros(64) && chain[0].hash == Sha256(Header(chain[0]))
    && chain[0].merkleRoot == MerkleRoot(chain[0].transactions)
    && forall i | 1 <= i < |chain| :: Follows(chain[i], chain[i - 1], i)
  }

  lemma ValidExactlyWhen(chain: seq<Block>)
    ensures ValidChain(chain) <==> WellFormedChain(chain)
  {
    hide Follows, ValidSuccessor, Header, MerkleRoot;
    forall i | 1 <= i < |chain|
      ensures ValidSuccessor(chain[i], chain[i - 1], i) <==> Follows(chain[i], chain[i - 1], i)
    {
      FollowsExactlyWhen(chain[i], chain[i - 1], i);
    }
  }

  /** Pending transfers are signed, and come from the one address that starts with the prefix. */
  predicate PoolIsSigned(pool: seq<Transaction>) {
    forall k | 0 <= k < |pool| ::
      Signed(pool[k]) && pool[k].fromAddress == ADDRESS_PREFIX + Sha256(pool[k].senderPublicKey)[..40]
  }

  lemma SoundPoolIsSigned(pool: seq<Transaction>, spent: set<string>)
    requires PoolSound(pool, spent)
    ensures PoolIsSigned(pool)
  {
    hide Signed, Verify, DistinctIDs;
    forall k | 0 <= k < |pool|
      ensures Signed(pool[k]) && pool[k].fromAddress == ADDRESS_PREFIX + Sha256(pool[k].senderPublicKey)[..40]
    {
      assert Admitted(pool[k]);
      VerifiesExactlyWhen(pool[k]);
    }
  }

  /** After any run of adding, mining, accepting and replacing, whatever the network offers, every
      block above genesis follows its predecessor, every transfer in it is signed, and so is every
      pending one. */
  lemma EveryTransferIsSigned(engine: Engine, difficulty: nat, start: seq<Block>, nonce: u64, steps: seq<Step>)
    requires start == [Genesis(difficulty, nonce)] || ValidChain(start)
    requires IsRun(StartFrom(engine, difficulty, start), steps)
    ensures var s := Final(StartFrom(engine, difficulty, start), steps);
            WellFormedChain(s.chain) && PoolIsSigned(s.mempool)
  {
    hide ValidChain, WellFormedChain, PoolSound, Rebuild, Indexes;
    var s := Final(StartFrom(engine, difficulty, start), steps);
    EveryReachableStateIsSound(engine, difficulty, start, nonce, steps);
    ValidExactlyWhen(s.chain);
    SoundPoolIsSigned(s.mempool, s.ledger.spent);
  }

  /** The engine's own demands. */
  predicate InEngineRange(engine: Engine, b: Block, previous: Block, now: int) {
    engine.PoW? ==> 1 <= b.difficulty <= 64 && TimeOf(previous) <= TimeOf(b) && TimeOf(b) <= now + 120
  }

  /** A node takes a block exactly when it follows the tip and, under an engine, its difficulty is
      from 1 to 64 and its time lies between the tip's and two minutes from now. No block whose
      transfers are signed is refused on their account. */
  lemma AcceptedExactlyWhen(s: NodeState, b: Block, clock: Clock)
    requires ValidUnder(s.engine, s.chain, clock.epoch)
    ensures Acceptable(s, b, clock) <==>
              && Follows(b, s.chain[|s.chain| - 1], |s.chain|)
              && InEngineRange(s.engine, b, s.chain[|s.chain| - 1], clock.epoch)
  {
    hide Follows, ValidUnder, Header, MerkleRoot, AllVerified, MeetsTarget;
    ValidByPositions(s.engine, s.chain, clock.epoch);
    var tip := s.chain[|s.chain| - 1];
    ExtensionIsValid(s.engine, s.chain, b, clock.epoch);
    FollowsExactlyWhen(b, tip, |s.chain|);
  }

  /** Two keys with one address agree in the first 40 digits of their hashes, and conversely. */
  lemma OneAddressTwoKeys(key: string, other: string)
    ensures DeriveAddress(key) == DeriveAddress(other) <==> Sha256(key)[..40] == Sha256(other)[..40]
    ensures DeriveAddress(key) == ADDRESS_PREFIX + Sha256(key)[..40]
  {
    CutEither(ADDRESS_PREFIX, Sha256(key)[..40], Sha256(other)[..40]);
  }

  lemma CutEither(prefix: string, x: string, y: string)
    ensures prefix + x == prefix + y <==> x == y
  {
    if prefix + x == prefix + y {
      CutAt(prefix, x, prefix, y);
    }
  }

  /** The leaf of a transaction without an identifier binds the fields it is hashed from, run together,
      or exhibits a collision; with an identifier it is that. */
  lemma LeafBinds(t: Transaction, u: Transaction)
    requires Leaf(t) == Leaf(u)
    ensures t.txID != "" && u.txID != "" ==> t.txID == u.txID
    ensures t.txID == "" && u.txID == "" ==>
              var x := t.senderPublicKey + t.receiverPublicKey + t.payload + t.timestamp;
              var y := u.senderPublicKey + u.receiverPublicKey + u.payload + u.timestamp;
              x == y || Collision(x, y)
  {
  }
}
