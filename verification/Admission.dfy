/** Exactly which transactions a node admits, in terms of the chain, the pool and the accounts. */
module Admission {
  import opened Primitives
  import opened Transactions
  import opened Blocks
  import opened ChainValidity
  import opened LedgerSpec
  import opened Solvency
  import opened Nonces
  import opened Machine
  import opened LocalRuns
  import opened LocalHistory
  import opened Signatures

  // ----- nonce -----

  /** The transfer's nonce is one above every nonce that its sender used in these transfers. */
  predicate IsNextFor(tx: Transaction, known: seq<Transaction>) {
    && (forall t | t in known && t.fromAddress == tx.fromAddress :: t.nonce < tx.nonce)
    && (tx.nonce == 1 || exists t :: t in known && t.fromAddress == tx.fromAddress && t.nonce + 1 == tx.nonce)
  }

  /** Some nonce of the address is the largest there is. */
  predicate UsedUp(known: seq<Transaction>, address: string) {
    exists t :: t in known && t.fromAddress == address && t.nonce == U64 - 1
  }

  /** n is the largest nonce of the address in these transfers, or 0 where there is none. */
  predicate IsHighest(known: seq<Transaction>, address: string, n: nat) {
    && (forall t | t in known && t.fromAddress == address :: t.nonce <= n)
    && (n > 0 ==> exists t :: t in known && t.fromAddress == address && t.nonce == n)
  }

  lemma {:induction false} HighestOfPool(l: Ledger, confirmed: seq<Transaction>, pool: seq<Transaction>,
                                         address: string)
    requires IsHighest(confirmed, address, LastNonceOf(l, address))
    ensures IsHighest(confirmed + pool, address, Highest(l, pool, address))
    decreases |pool|
  {
    if pool == [] {
      assert confirmed + pool == confirmed;
    } else {
      var n := |pool| - 1;
      HighestOfPool(l, confirmed, pool[..n], address);
      assert confirmed + pool == confirmed + pool[..n] + [pool[n]];
      HighestOfOneMore(confirmed + pool[..n], pool[n], address, Highest(l, pool[..n], address));
    }
  }

  lemma HighestOfOneMore(known: seq<Transaction>, tx: Transaction, address: string, n: nat)
    requires IsHighest(known, address, n)
    ensures IsHighest(known + [tx], address, if tx.fromAddress == address then Max(n, tx.nonce) else n)
  {
    assert forall t :: t in known + [tx] <==> t in known || t == tx;
    if n > 0 {
      var w :| w in known && w.fromAddress == address && w.nonce == n;
      assert w in known + [tx];
    }
    assert tx in known + [tx];
  }

  lemma HighestConfirmed(s: NodeState, address: string)
    requires s.ledger == Rebuild(s.chain) && address != ""
    ensures IsHighest(Transfers(ChainTxs(s.chain)), address, LastNonceOf(s.ledger, address))
  {
    hide Rebuild;
    var all, n := ChainTxs(s.chain), LastNonceOf(s.ledger, address);
    StateIndexesChain(s.chain);
    TransfersMembers(all);
    assert IsLastNonce(all, address, n);
    if n > 0 {
      var w :| w in all && SentBy(w, address) && w.nonce == n;
      assert w in Transfers(all);
    }
  }

  lemma NextExactlyWhen(known: seq<Transaction>, tx: Transaction, n: u64)
    requires IsHighest(known, tx.fromAddress, n)
    ensures tx.nonce == (n + 1) % U64 <==>
              if UsedUp(known, tx.fromAddress) then tx.nonce == 0 else IsNextFor(tx, known)
  {
    if n + 1 < U64 {
      assert !UsedUp(known, tx.fromAddress);
    }
  }

  // ----- age -----

  /** The timestamp parses to a time at most so many seconds from the clock, in either direction. */
  predicate IsRecent(tx: Transaction, seconds: nat, now: int) {
    exists time: int :: ISO_PARSER(tx.timestamp) == Some(time) && now - seconds <= time && time <= now + seconds
  }

  lemma RecentExactlyWhen(tx: Transaction, seconds: nat, now: int)
    ensures IsExpired(tx, seconds, now) <==> !IsRecent(tx, seconds, now)
  {
    match ISO_PARSER(tx.timestamp)
    case None =>
    case Some(time) =>
  }

  // ----- identifiers -----

  lemma NewExactlyWhen(s: NodeState, id: string)
    requires s.ledger == Rebuild(s.chain)
    ensures id !in s.ledger.spent && id !in IDs(s.mempool) <==> forall t | t in Timeline(s) :: t.txID != id
  {
    hide Rebuild;
    StateIndexesChain(s.chain);
    TransfersMembers(ChainTxs(s.chain));
    assert forall t :: t in Timeline(s) <==> t in Transfers(ChainTxs(s.chain)) || t in s.mempool;
  }

  // ----- admission -----

  /** What a transaction must be for the pool to grow by it. */
  predicate Welcome(s: NodeState, tx: Transaction, clock: Clock) {
    && Signed(tx) && tx.fromAddress == ADDRESS_PREFIX + Sha256(tx.senderPublicKey)[..40]
    && BalanceOf(s.ledger, tx.fromAddress) + PendingIn(s.mempool, tx.fromAddress)
       - PendingOut(s.mempool, tx.fromAddress) >= tx.amount
    && (if UsedUp(Timeline(s), tx.fromAddress) then tx.nonce == 0 else IsNextFor(tx, Timeline(s)))
    && IsRecent(tx, 300, clock.epoch)
    && (forall t | t in Timeline(s) :: t.txID != tx.txID)
  }

  /** The checks on the transaction itself. */
  lemma AuthenticExactlyWhen(tx: Transaction)
    ensures !IsCoinbase(tx) && Verify(tx) && tx.amount != 0 && tx.fromAddress == DeriveAddress(tx.senderPublicKey)
       <==> Signed(tx) && tx.fromAddress == ADDRESS_PREFIX + Sha256(tx.senderPublicKey)[..40]
  {
    hide Verify;
    VerifiesExactlyWhen(tx);
  }

  lemma FitsExactlyWhen(s: NodeState, tx: Transaction, clock: Clock)
    requires s.ledger == Rebuild(s.chain) && Solvent(s) && Supply(s.ledger) * (|s.mempool| + 1) < U64
    requires tx.fromAddress != ""
    ensures FitsPool(s, tx, clock) <==>
              && BalanceOf(s.ledger, tx.fromAddress) + PendingIn(s.mempool, tx.fromAddress)
                 - PendingOut(s.mempool, tx.fromAddress) >= tx.amount
              && (if UsedUp(Timeline(s), tx.fromAddress) then tx.nonce == 0 else IsNextFor(tx, Timeline(s)))
              && IsRecent(tx, 300, clock.epoch)
              && (forall t | t in Timeline(s) :: t.txID != tx.txID)
  {
    hide Rebuild, FundsCheck, IsExpired, IsRecent, IsNextFor, UsedUp, IsHighest, Covered, Supply, Highest;
    hide Timeline, IDs;
    FundsCheckIsExact(s.ledger, s.mempool, tx.fromAddress, tx.amount);
    TimelineIs(s);
    HighestConfirmed(s, tx.fromAddress);
    HighestOfPool(s.ledger, Transfers(ChainTxs(s.chain)), s.mempool, tx.fromAddress);
    NextExactlyWhen(Timeline(s), tx, Highest(s.ledger, s.mempool, tx.fromAddress));
    RecentExactlyWhen(tx, 300, clock.epoch);
    NewExactlyWhen(s, tx.txID);
  }

  lemma TimelineIs(s: NodeState)
    ensures Timeline(s) == Transfers(ChainTxs(s.chain)) + s.mempool
  {
  }

  /** In a solvent state whose sums do not wrap a transaction is admitted exactly when it is a signed
      transfer of a positive amount from its key's address, that address would hold the amount once
      everything pending is confirmed, its nonce is one above all of its sender's, confirmed or
      pending, its time is at most 300 seconds from the clock, and no transfer, confirmed or pending,
      has its identifier. Then it goes to the end of the pool; otherwise nothing changes. */
  lemma AdmittedExactlyWhen(s: NodeState, tx: Transaction, clock: Clock)
    requires s.ledger == Rebuild(s.chain) && Solvent(s) && Supply(s.ledger) * (|s.mempool| + 1) < U64
    ensures Admissible(s, tx, clock) <==> Welcome(s, tx, clock)
    ensures AfterAdd(s, tx, clock)
         == if Welcome(s, tx, clock) then s.(mempool := s.mempool + [tx], version := (s.version + 1) % U64) else s
  {
    hide Rebuild, FitsPool, Verify, IsRecent, IsNextFor, UsedUp, Covered, Supply, Timeline, Signed;
    AuthenticExactlyWhen(tx);
    if Signed(tx) && tx.fromAddress == ADDRESS_PREFIX + Sha256(tx.senderPublicKey)[..40] {
      assert |tx.fromAddress| == 44;
      FitsExactlyWhen(s, tx, clock);
    }
  }

  /** Over any local run from genesis the conditions of this hold, as long as 50 times the chain length
      times the pool length plus one stays below 2^64. */
  lemma AdmissionOverRuns(engine: Engine, difficulty: nat, nonce: u64, steps: seq<Step>, tx: Transaction, clock: Clock)
    requires IsLocal(steps) && IsRun(StartFrom(engine, difficulty, [Genesis(difficulty, nonce)]), steps)
    requires 100 * (MineCount(steps) + 1) < U64
    requires var s := Final(StartFrom(engine, difficulty, [Genesis(difficulty, nonce)]), steps);
             50 * |s.chain| * (|s.mempool| + 1) < U64
    ensures var s := Final(StartFrom(engine, difficulty, [Genesis(difficulty, nonce)]), steps);
            Admissible(s, tx, clock) <==> Welcome(s, tx, clock)
  {
    hide Rebuild, Admissible, Welcome, Covered, Supply, Genesis, Burned;
    var s := Final(StartFrom(engine, difficulty, [Genesis(difficulty, nonce)]), steps);
    FreshRunSupply(engine, difficulty, nonce, steps);
    EveryReachableStateIsSound(engine, difficulty, [Genesis(difficulty, nonce)], nonce, steps);
    FactorMonotone(Supply(s.ledger), 50 * |s.chain|, |s.mempool| + 1);
    AdmittedExactlyWhen(s, tx, clock);
  }
}
