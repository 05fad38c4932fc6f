/** The balance query of the HTTP interface: the pending balance and the next nonce it shows. */
module WalletView {
  import opened Primitives
  import opened Transactions
  import opened LedgerSpec
  import opened Totals
  import opened Solvency
  import opened Nonces
  import opened Machine
  import opened LocalRuns
  import opened LocalHistory

  datatype WalletBalance = WalletBalance(
    confirmedBalance: u64,
    pendingBalance: int,
    pendingSent: u64,
    pendingReceived: u64,
    nextNonce: u64)

  /** A 64-bit value reinterpreted as signed. */
  function AsInt64(x: u64): (y: int)
    ensures x <= INT64_MAX ==> y == x
    ensures x > INT64_MAX ==> y == x - 0x1_0000_0000_0000_0000 < 0
  {
    if x <= INT64_MAX then x else x - U64
  }

  /** What the query shows for an address. */
  predicate Shows(w: WalletBalance, l: Ledger, mempool: seq<Transaction>, address: string) {
    && w.confirmedBalance == BalanceOf(l, address)
    && w.pendingSent == Wrap(PendingOut(mempool, address))
    && w.pendingReceived == Wrap(PendingIn(mempool, address))
    && w.nextNonce == NextNonce(l, mempool, address)
    && w.pendingBalance == AsInt64(w.confirmedBalance) + AsInt64(w.pendingReceived) - AsInt64(w.pendingSent)
  }

  /** The loop over the pool. All sums are modulo 2^64; the nonce shown is the one admission
      expects. */
  method GetWalletBalance(l: Ledger, mempool: seq<Transaction>, address: string) returns (w: WalletBalance)
    ensures Shows(w, l, mempool, address)
  {
    var confirmedBalance, confirmedNonce := BalanceOf(l, address), LastNonceOf(l, address);
    var sent: u64, received: u64, highest: u64 := 0, 0, confirmedNonce;
    assert sent == Wrap(PendingOut([], address)) && received == Wrap(PendingIn([], address));
    hide Wrap, WrappingAdd, PendingIn, PendingOut, AsInt64;
    for i := 0 to |mempool|
      invariant sent == Wrap(PendingOut(mempool[..i], address))
      invariant received == Wrap(PendingIn(mempool[..i], address))
      invariant highest == Highest(l, mempool[..i], address)
    {
      var tx := mempool[i];
      assert mempool[..i + 1] == mempool[..i] + [tx];
      PendingOne(mempool[..i], tx, address);
      HighestWithOneMore(l, mempool[..i], tx, address);
      if tx.fromAddress == address {
        WrappingSum(PendingOut(mempool[..i], address), tx.amount);
        sent := WrappingAdd(sent, tx.amount);
        highest := Max(highest, tx.nonce);
      }
      if tx.toAddress == address {
        WrappingSum(PendingIn(mempool[..i], address), tx.amount);
        received := WrappingAdd(received, tx.amount);
      }
    }
    assert mempool[..|mempool|] == mempool;
    w := WalletBalance(confirmedBalance, AsInt64(confirmedBalance) + AsInt64(received) - AsInt64(sent),
                       sent, received, WrappingAdd(highest, 1));
    assert w.nextNonce == NextNonce(l, mempool, address) by {
      NextNonceWraps(l, mempool, address);
    }
  }

  lemma NextNonceWraps(l: Ledger, pool: seq<Transaction>, address: string)
    ensures NextNonce(l, pool, address) == WrappingAdd(Highest(l, pool, address), 1)
  {
  }

  /** All transactions that admission accepts from an address in one state carry the nonce shown. Once
      one is accepted, the nonce shown to its sender is the next one, unless the count has used up 64
      bits, and nobody else's changes; so nothing is accepted twice. */
  lemma ShownNonceIsTheOnlyOne(w: WalletBalance, w': WalletBalance, s: NodeState, tx: Transaction, clock: Clock,
                               address: string)
    requires Admissible(s, tx, clock)
    requires Shows(w, s.ledger, s.mempool, address)
    requires Shows(w', AfterAdd(s, tx, clock).ledger, AfterAdd(s, tx, clock).mempool, address)
    ensures tx.fromAddress == address ==> tx.nonce == w.nextNonce
    ensures w'.nextNonce == if tx.fromAddress == address && w.nextNonce != 0 then WrappingAdd(w.nextNonce, 1)
                            else w.nextNonce
    ensures forall later: Clock :: !Admissible(AfterAdd(s, tx, clock), tx, later)
  {
    hide Admissible, FundsCheck, Highest;
    AdmittedNonce(s, tx, clock);
    HighestWithOneMore(s.ledger, s.mempool, tx, address);
    forall later: Clock
      ensures !Admissible(AfterAdd(s, tx, clock), tx, later)
    {
      PendingIsNotAdmissible(AfterAdd(s, tx, clock), tx, later);
    }
  }

  lemma AdmittedNonce(s: NodeState, tx: Transaction, clock: Clock)
    requires Admissible(s, tx, clock)
    ensures tx.nonce == NextNonce(s.ledger, s.mempool, tx.fromAddress)
  {
    hide Verify, FundsCheck, IsExpired;
  }

  lemma PendingIsNotAdmissible(s: NodeState, tx: Transaction, clock: Clock)
    requires tx in s.mempool
    ensures !Admissible(s, tx, clock)
  {
    hide Verify, FundsCheck, IsExpired;
    assert tx.txID in IDs(s.mempool);
  }

  /** Supply times pool length, plus one, stays below 2^63. */
  ghost predicate RoomToShow(s: NodeState) {
    2 * (Supply(s.ledger) * (|s.mempool| + 1)) < U64
  }

  lemma ShownSumsFit(s: NodeState, address: string)
    requires Solvent(s) && RoomToShow(s) && address != ""
    ensures BalanceOf(s.ledger, address) + PendingIn(s.mempool, address) <= INT64_MAX
    ensures Effective(s.ledger, s.mempool, address) >= 0
  {
    var l, pool := s.ledger, s.mempool;
    SupplyFits(Supply(l), |pool|);
    IncomingBounded(l, pool, address);
    TotalBounds(l.balances, "", address);
    OneMore(|pool|, Supply(l));
    EffectiveIsReplayed(l, pool, address);
  }

  lemma SupplyFits(supply: nat, n: nat)
    requires 2 * (supply * (n + 1)) < U64
    ensures 2 * supply < U64
  {
    assert supply * (n + 1) == supply * n + supply;
  }

  lemma SignedDifference(confirmed: u64, incoming: nat, outgoing: nat)
    requires confirmed + incoming <= INT64_MAX && outgoing <= confirmed + incoming
    ensures AsInt64(confirmed) + AsInt64(incoming % U64) - AsInt64(outgoing % U64) == confirmed + incoming - outgoing
  {
  }

  /** In a solvent state with that room the pending balance shown is the effective balance; it is
      never negative. */
  lemma ShownBalanceIsEffective(w: WalletBalance, s: NodeState, address: string)
    requires Shows(w, s.ledger, s.mempool, address) && address != ""
    requires Solvent(s) && RoomToShow(s)
    ensures w.pendingBalance == Effective(s.ledger, s.mempool, address) >= 0
  {
    ShownSumsFit(s, address);
    SignedDifference(BalanceOf(s.ledger, address), PendingIn(s.mempool, address), PendingOut(s.mempool, address));
  }

  /** What the wallet shows comes true: after enough mining with nothing added, each balance is the
      pending balance shown before plus the rewards since, and the next nonce is the one shown. */
  lemma ShownBalanceComesTrue(w: WalletBalance, s: NodeState, steps: seq<Step>, address: string)
    requires Shows(w, s.ledger, s.mempool, address) && address != ""
    requires Solvent(s) && RoomToShow(s)
    requires IsRun(s, steps) && OnlyMining(steps) && 2 * (Supply(s.ledger) + 50 * |steps|) < U64
    requires |s.mempool| <= MAX_TXS_PER_BLOCK * |steps|
    ensures Final(s, steps).mempool == []
    ensures BalanceOf(Final(s, steps).ledger, address) == w.pendingBalance + RewardsTo(steps, address)
    ensures NextNonce(Final(s, steps).ledger, [], address) == w.nextNonce
  {
    assert w.pendingBalance == Effective(s.ledger, s.mempool, address) by {
      ShownBalanceIsEffective(w, s, address);
    }
    PendingViewComesTrue(s, steps, address);
  }
}
