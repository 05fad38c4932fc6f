/** What the hashes of a chain do not bind: rewards, whose identifiers nobody checks, and the genesis
    block. */
module ForgedRewards {
  import opened Primitives
  import opened Transactions
  import opened Blocks
  import opened ChainValidity
  import opened LedgerSpec
  import opened TamperEvidence
  import Merkle

  /** One reward of any amount to anyone, under an identifier of one's choice. */
  function Forged(id: string, to: string, amount: u64): Transaction {
    Transaction(id, COINBASE, "", COINBASE, to, amount, 0, "", "", "")
  }

  /** The block with its transactions replaced by one reward whose identifier is the Merkle root. */
  function Rewritten(b: Block, to: string, amount: u64): Block {
    b.(transactions := [Forged(b.merkleRoot, to, amount)])
  }

  lemma RewrittenFits(b: Block, to: string, amount: u64)
    requires b.merkleRoot != ""
    ensures var r := Rewritten(b, to, amount);
            r.merkleRoot == MerkleRoot(r.transactions) && Header(r) == Header(b) && AllVerified(r.transactions)
  {
    hide Decimal;
    SingleRoot(Forged(b.merkleRoot, to, amount), b.merkleRoot);
  }

  lemma RewrittenSuccessor(b: Block, previous: Block, position: nat, to: string, amount: u64, engine: Engine, now: int)
    requires b.merkleRoot != "" && ValidSuccessor(b, previous, position) && EngineAccepts(engine, b, previous, now)
    ensures ValidSuccessor(Rewritten(b, to, amount), previous, position)
    ensures EngineAccepts(engine, Rewritten(b, to, amount), previous, now)
  {
    hide Header, MerkleRoot, Verify;
    RewrittenFits(b, to, amount);
  }

  lemma SameBehind(b: Block, next: Block, position: nat, to: string, amount: u64, engine: Engine, now: int)
    requires ValidSuccessor(next, b, position) && EngineAccepts(engine, next, b, now)
    ensures ValidSuccessor(next, Rewritten(b, to, amount), position)
    ensures EngineAccepts(engine, next, Rewritten(b, to, amount), now)
  {
    hide Header, MerkleRoot, Verify;
  }

  lemma PassesWith(chain: seq<Block>, i: nat, to: string, amount: u64, engine: Engine, now: int, j: nat)
    requires ValidUnder(engine, chain, now) && i < |chain| && chain[i].merkleRoot != "" && 1 <= j < |chain|
    ensures PassesAt(engine, chain[i := Rewritten(chain[i], to, amount)], j, now)
  {
    hide ValidSuccessor, EngineAccepts, Rewritten;
    ValidByPositions(engine, chain, now);
    assert PassesAt(engine, chain, j, now);
    if j == i {
      RewrittenSuccessor(chain[i], chain[i - 1], i, to, amount, engine, now);
    } else if j == i + 1 {
      SameBehind(chain[i], chain[j], j, to, amount, engine, now);
    }
  }

  lemma RewrittenGenesis(g: Block, to: string, amount: u64)
    requires ValidGenesis(g) && g.merkleRoot != ""
    ensures ValidGenesis(Rewritten(g, to, amount))
  {
    hide Header, MerkleRoot;
    RewrittenFits(g, to, amount);
  }

  /** Any block of a valid chain can be rewritten to one reward of any amount to anyone: the chain
      stays valid, under the engine too, with the same headers and the same tip hash. Identifiers of
      64 characters and ISO timestamps do not help. */
  lemma RewrittenChainIsValid(engine: Engine, chain: seq<Block>, now: int, i: nat, to: string, amount: u64)
    requires ValidUnder(engine, chain, now) && i < |chain| && chain[i].merkleRoot != ""
    ensures var forged := chain[i := Rewritten(chain[i], to, amount)];
      && ValidUnder(engine, forged, now) && SameHeaders(chain, forged)
      && forged[|forged| - 1].hash == chain[|chain| - 1].hash
      && forged[i].transactions == [Forged(chain[i].merkleRoot, to, amount)]
  {
    hide ValidSuccessor, EngineAccepts, ValidGenesis, ValidUnder;
    var forged := chain[i := Rewritten(chain[i], to, amount)];
    ValidByPositions(engine, chain, now);
    ValidByPositions(engine, forged, now);
    if i == 0 {
      RewrittenGenesis(chain[0], to, amount);
    }
    forall j | 1 <= j < |forged|
      ensures PassesAt(engine, forged, j, now)
    {
      PassesWith(chain, i, to, amount, engine, now, j);
    }
  }

  lemma OneRewardApplied(chain: seq<Block>, b: Block, address: string)
    requires |b.transactions| == 1 && IsCoinbase(b.transactions[0])
    ensures BalanceOf(Rebuild(chain + [b]), address)
         == if address != "" && b.transactions[0].toAddress == address
            then (BalanceOf(Rebuild(chain), address) + b.transactions[0].amount) % U64
            else BalanceOf(Rebuild(chain), address)
  {
    hide Rebuild;
    var tx := b.transactions[0];
    RebuildOne(chain, b);
    assert b.transactions == [] + [tx];
    ApplyOne(Rebuild(chain), [], tx);
  }

  /** Two such chains have one tip hash and different accounts. */
  lemma RewrittenAccountsDiffer(engine: Engine, chain: seq<Block>, now: int, to: string, other: string, amount: u64)
    requires ValidUnder(engine, chain, now) && chain[|chain| - 1].merkleRoot != ""
    requires to != "" && other != to && amount > 0
    ensures var n := |chain| - 1;
            var a, b := chain[n := Rewritten(chain[n], to, amount)], chain[n := Rewritten(chain[n], other, amount)];
      && ValidUnder(engine, a, now) && ValidUnder(engine, b, now)
      && SameHeaders(a, b) && a[n].hash == b[n].hash
      && BalanceOf(Rebuild(a), to) != BalanceOf(Rebuild(b), to)
  {
    hide ValidUnder, Rebuild, SameHeader;
    ValidByPositions(engine, chain, now);
    var n := |chain| - 1;
    var a, b := chain[n := Rewritten(chain[n], to, amount)], chain[n := Rewritten(chain[n], other, amount)];
    RewrittenChainIsValid(engine, chain, now, n, to, amount);
    RewrittenChainIsValid(engine, chain, now, n, other, amount);
    SameHeadersTwice(chain, a, b);
    assert a == chain[..n] + [a[n]] && b == chain[..n] + [b[n]];
    OneRewardApplied(chain[..n], a[n], to);
    OneRewardApplied(chain[..n], b[n], to);
    WrappedIsDifferent(BalanceOf(Rebuild(chain[..n]), to), amount);
  }

  lemma SameHeadersTwice(chain: seq<Block>, a: seq<Block>, b: seq<Block>)
    requires SameHeaders(chain, a) && SameHeaders(chain, b)
    ensures SameHeaders(a, b)
  {
    forall i | 0 <= i < |a|
      ensures SameHeader(a[i], b[i]) && a[i].hash == b[i].hash
    {
      assert SameHeader(chain[i], a[i]) && SameHeader(chain[i], b[i]);
    }
  }

  lemma WrappedIsDifferent(balance: u64, amount: u64)
    requires amount > 0
    ensures (balance + amount) % U64 != balance
  {
    assert (balance + amount) % U64 == if balance + amount >= U64 then balance + amount - U64 else balance + amount;
  }

  /** A genesis block may have any index, difficulty, time and transactions, signed or not, and need not
      meet its target. */
  lemma GenesisIsUnchecked(engine: Engine, index: nat, timestamp: string, txs: seq<Transaction>, difficulty: nat,
                           nonce: u64, now: int)
    ensures var g := Sealed(Block(index, timestamp, Zeros(64), txs, "", 0, difficulty, ""), nonce);
            ValidUnder(engine, [g], now) && g.transactions == txs && g.index == index && g.difficulty == difficulty
  {
    hide MerkleRoot, Decimal;
  }
}
