/** Why the replay of pending transactions never runs into the saturating debit: admission looks at
    sums over the pool, replay moves the amounts one by one. */
module Solvency {
  import opened Primitives
  import opened Transactions
  import opened LedgerSpec
  import opened Totals

  /** Everything the accounts hold. */
  ghost function Supply(l: Ledger): nat {
    Total(l.balances)
  }

  // ----- sums over the pool -----

  function PendingIn(pool: seq<Transaction>, address: string): nat {
    if pool == [] then 0
    else PendingIn(pool[..|pool| - 1], address)
         + if pool[|pool| - 1].toAddress == address then pool[|pool| - 1].amount else 0
  }

  function PendingOut(pool: seq<Transaction>, address: string): nat {
    if pool == [] then 0
    else PendingOut(pool[..|pool| - 1], address)
         + if pool[|pool| - 1].fromAddress == address then pool[|pool| - 1].amount else 0
  }

  /** What an address would hold once the whole pool is confirmed, were no sum to wrap. */
  function Effective(l: Ledger, pool: seq<Transaction>, address: string): int {
    BalanceOf(l, address) + PendingIn(pool, address) - PendingOut(pool, address)
  }

  lemma PendingOne(pool: seq<Transaction>, tx: Transaction, address: string)
    ensures PendingIn(pool + [tx], address)
         == PendingIn(pool, address) + if tx.toAddress == address then tx.amount else 0
    ensures PendingOut(pool + [tx], address)
         == PendingOut(pool, address) + if tx.fromAddress == address then tx.amount else 0
  {
    assert (pool + [tx])[..|pool|] == pool;
  }

  lemma {:induction false} PendingConcat(a: seq<Transaction>, b: seq<Transaction>, address: string)
    ensures PendingIn(a + b, address) == PendingIn(a, address) + PendingIn(b, address)
    ensures PendingOut(a + b, address) == PendingOut(a, address) + PendingOut(b, address)
    decreases |b|
  {
    if b == [] {
      assert a + b == a;
    } else {
      var n := |b| - 1;
      assert a + b == (a + b[..n]) + [b[n]] && b == b[..n] + [b[n]];
      PendingConcat(a, b[..n], address);
      PendingOne(a + b[..n], b[n], address);
      PendingOne(b[..n], b[n], address);
    }
  }

  /** A number as 64 bits keep it. */
  function Wrap(n: nat): u64 {
    n % U64
  }

  /** Addition of 64-bit numbers. */
  function WrappingAdd(x: u64, y: u64): u64 {
    (x + y) % U64
  }

  lemma WrappingSum(x: nat, y: u64)
    ensures WrappingAdd(Wrap(x), y) == Wrap(x + y)
  {
    var q := x / U64;
    assert x == q * U64 + Wrap(x);
  }

  // ----- what admission leaves behind -----

  /** A transfer with a sender and an amount. */
  predicate Proper(tx: Transaction) {
    IsTransfer(tx) && tx.amount > 0 && tx.fromAddress != ""
  }

  predicate AllProper(pool: seq<Transaction>) {
    forall i | 0 <= i < |pool| :: Proper(pool[i])
  }

  /** When its turn comes, counting only what lies before it in the pool, every sender has enough. */
  predicate Covered(l: Ledger, pool: seq<Transaction>) {
    forall i | 0 <= i < |pool| :: Effective(l, pool[..i], pool[i].fromAddress) >= pool[i].amount
  }

  /** The replay of a transfer neither wraps the credit nor reaches the saturating or the
      missing-account branch of the debit. */
  predicate Exact(l: Ledger, tx: Transaction) {
    && (tx.toAddress != "" ==> BalanceOf(l, tx.toAddress) + tx.amount < U64)
    && BalanceOf(l, tx.fromAddress) >= tx.amount
    && tx.fromAddress in Credit(l, tx).balances
    && Credit(l, tx).balances[tx.fromAddress] >= tx.amount
  }

  predicate ReplaysExactly(l: Ledger, pool: seq<Transaction>) {
    forall i | 0 <= i < |pool| :: Exact(ApplyTxs(l, pool[..i]), pool[i])
  }

  /** No account can wrap: not even a sender paying its whole balance to itself. */
  ghost predicate RoomToMove(l: Ledger) {
    2 * Supply(l) < U64
  }

  lemma CoveredIsExact(l: Ledger, tx: Transaction)
    requires Proper(tx) && BalanceOf(l, tx.fromAddress) >= tx.amount && RoomToMove(l)
    ensures Exact(l, tx)
  {
    TotalBounds(l.balances, tx.fromAddress, tx.toAddress);
    TotalBounds(l.balances, tx.toAddress, tx.fromAddress);
  }

  /** The bound is needed: a sender with half the 64-bit range that pays everything to itself
      wraps its own credit and is left with nothing. */
  lemma SelfTransferOfHalfTheRange(l: Ledger, tx: Transaction)
    requires Proper(tx) && tx.toAddress == tx.fromAddress && BalanceOf(l, tx.fromAddress) == tx.amount
    ensures BalanceOf(ApplyTx(l, tx), tx.fromAddress) == if 2 * tx.amount < U64 then tx.amount else 0
  {
  }

  lemma ExactStep(l: Ledger, tx: Transaction, address: string)
    requires Proper(tx) && Exact(l, tx) && address != ""
    ensures BalanceOf(ApplyTx(l, tx), address)
         == BalanceOf(l, address) + (if tx.toAddress == address then tx.amount else 0)
            - (if tx.fromAddress == address then tx.amount else 0)
  {
  }

  lemma BalancesAfter(l: Ledger, tx: Transaction)
    requires Proper(tx) && Exact(l, tx)
    ensures var credited := Credit(l, tx).balances;
            ApplyTx(l, tx).balances == credited[tx.fromAddress := credited[tx.fromAddress] - tx.amount]
  {
  }

  lemma ExactStepSupply(l: Ledger, tx: Transaction)
    requires Proper(tx) && Exact(l, tx)
    ensures Supply(ApplyTx(l, tx)) == Supply(l) - if tx.toAddress == "" then tx.amount else 0
  {
    hide ApplyTx, Total, HistoryOf;
    var credited := Credit(l, tx).balances;
    if tx.toAddress != "" {
      TotalUpdate(l.balances, tx.toAddress, BalanceOf(l, tx.toAddress) + tx.amount);
    }
    TotalUpdate(credited, tx.fromAddress, credited[tx.fromAddress] - tx.amount);
    BalancesAfter(l, tx);
  }

  // ----- sums against folds -----

  /** A covered pool replays exactly, and the supply only loses what is sent to the empty
      address. */
  lemma {:induction false} CoveredReplay(l: Ledger, pool: seq<Transaction>)
    requires AllProper(pool) && Covered(l, pool) && RoomToMove(l)
    ensures ReplaysExactly(l, pool)
    ensures Supply(ApplyTxs(l, pool)) == Supply(l) - PendingIn(pool, "")
    decreases |pool|, 1
  {
    if pool != [] {
      var n := |pool| - 1;
      var before, tx := pool[..n], pool[n];
      assert before + [tx] == pool;
      CoveredPrefix(l, pool, n);
      CoveredReplay(l, before);
      EffectiveIsReplayed(l, before, tx.fromAddress);
      CoveredIsExact(ApplyTxs(l, before), tx);
      ExactStepSupply(ApplyTxs(l, before), tx);
      PendingOne(before, tx, "");
      forall i | 0 <= i < |pool|
        ensures Exact(ApplyTxs(l, pool[..i]), pool[i])
      {
        if i < n {
          assert pool[..i] == before[..i] && pool[i] == before[i];
        }
      }
    }
  }

  /** Sums against folds: after the replay of a covered pool an address holds its effective
      balance. */
  lemma {:induction false} EffectiveIsReplayed(l: Ledger, pool: seq<Transaction>, address: string)
    requires AllProper(pool) && Covered(l, pool) && RoomToMove(l) && address != ""
    ensures BalanceOf(ApplyTxs(l, pool), address) == Effective(l, pool, address)
    decreases |pool|, 2
  {
    if pool != [] {
      var n := |pool| - 1;
      CoveredReplay(l, pool);
      CoveredPrefix(l, pool, n);
      EffectiveIsReplayed(l, pool[..n], address);
      assert Exact(ApplyTxs(l, pool[..n]), pool[n]);
      ExactStep(ApplyTxs(l, pool[..n]), pool[n], address);
    }
  }

  lemma CoveredPrefix(l: Ledger, pool: seq<Transaction>, n: nat)
    requires AllProper(pool) && Covered(l, pool) && n <= |pool|
    ensures AllProper(pool[..n]) && Covered(l, pool[..n])
  {
    forall i | 0 <= i < n
      ensures Effective(l, pool[..n][..i], pool[..n][i].fromAddress) >= pool[..n][i].amount
    {
      assert pool[..n][..i] == pool[..i];
    }
  }

  // ----- mining a prefix -----

  /** Crediting accounts keeps a pool covered. */
  lemma CoveredByMore(l: Ledger, more: Ledger, pool: seq<Transaction>)
    requires Covered(l, pool) && forall a :: BalanceOf(l, a) <= BalanceOf(more, a)
    ensures Covered(more, pool)
  {
    forall i | 0 <= i < |pool|
      ensures Effective(more, pool[..i], pool[i].fromAddress) >= pool[i].amount
    {
      assert BalanceOf(l, pool[i].fromAddress) <= BalanceOf(more, pool[i].fromAddress);
      assert Effective(l, pool[..i], pool[i].fromAddress) >= pool[i].amount;
    }
  }

  lemma PendingSlices(pool: seq<Transaction>, k: nat, i: nat, address: string)
    requires k + i <= |pool|
    ensures PendingIn(pool[..k + i], address) == PendingIn(pool[..k], address) + PendingIn(pool[k..][..i], address)
    ensures PendingOut(pool[..k + i], address) == PendingOut(pool[..k], address) + PendingOut(pool[k..][..i], address)
  {
    assert pool[..k + i] == pool[..k] + pool[k..][..i];
    PendingConcat(pool[..k], pool[k..][..i], address);
  }

  /** Confirming a prefix leaves the effective balances as they were. */
  lemma EffectiveAfterPrefix(l: Ledger, pool: seq<Transaction>, k: nat, address: string, i: nat)
    requires AllProper(pool) && Covered(l, pool) && RoomToMove(l)
    requires address != "" && k + i <= |pool|
    ensures Effective(ApplyTxs(l, pool[..k]), pool[k..][..i], address) == Effective(l, pool[..k + i], address)
  {
    CoveredPrefix(l, pool, k);
    EffectiveIsReplayed(l, pool[..k], address);
    PendingSlices(pool, k, i, address);
  }

  /** The rest of a covered pool is covered once a prefix has been confirmed. */
  lemma CoveredSuffix(l: Ledger, pool: seq<Transaction>, k: nat)
    requires AllProper(pool) && Covered(l, pool) && RoomToMove(l) && k <= |pool|
    ensures AllProper(pool[k..]) && Covered(ApplyTxs(l, pool[..k]), pool[k..])
  {
    var rest := pool[k..];
    forall i | 0 <= i < |rest|
      ensures Effective(ApplyTxs(l, pool[..k]), rest[..i], rest[i].fromAddress) >= rest[i].amount
    {
      assert rest[i] == pool[k + i] && Proper(pool[k + i]);
      EffectiveAfterPrefix(l, pool, k, rest[i].fromAddress, i);
    }
  }

  // ----- admission in 64-bit arithmetic -----

  /** The funds check as the node computes it, every sum wrapping at 64 bits. */
  predicate FundsCheck(confirmed: u64, incoming: nat, outgoing: nat, amount: u64) {
    var available := (confirmed + incoming % U64) % U64;
    var out := outgoing % U64;
    available >= out && available - out >= amount
  }

  /** As long as the effective balance fits 64 bits, wrapping sums never let a payment through that
      is not covered; they can only turn one away, and do not even do that while the incoming sum
      stays below 2^64. */
  lemma FundsCheckIsSound(confirmed: u64, incoming: nat, outgoing: nat, amount: u64)
    requires 0 <= confirmed + incoming - outgoing < U64
    ensures FundsCheck(confirmed, incoming, outgoing, amount) <==>
              && confirmed + incoming - outgoing >= amount
              && (confirmed + incoming) % U64 >= outgoing % U64
    ensures confirmed + incoming < U64 ==>
              (FundsCheck(confirmed, incoming, outgoing, amount) <==> confirmed + incoming - outgoing >= amount)
  {
    var total := confirmed + incoming;
    assert (confirmed + incoming % U64) % U64 == total % U64;
    DifferenceOfRemainders(total, outgoing);
  }

  lemma DifferenceOfRemainders(x: nat, y: nat)
    requires 0 <= x - y < U64
    ensures x % U64 >= y % U64 ==> x % U64 - y % U64 == x - y
    ensures x < U64 ==> x % U64 == x && y % U64 == y
  {
    var q, r := x / U64, y / U64;
    assert x == q * U64 + x % U64 && y == r * U64 + y % U64;
  }

  /** Admitting what the funds check lets through keeps the pool covered. */
  lemma AdmissionKeepsCovered(l: Ledger, pool: seq<Transaction>, tx: Transaction)
    requires AllProper(pool) && Covered(l, pool) && RoomToMove(l) && Proper(tx)
    requires var a := tx.fromAddress; FundsCheck(BalanceOf(l, a), PendingIn(pool, a), PendingOut(pool, a), tx.amount)
    ensures AllProper(pool + [tx]) && Covered(l, pool + [tx])
  {
    var a, longer := tx.fromAddress, pool + [tx];
    EffectiveIsReplayed(l, pool, a);
    FundsCheckIsSound(BalanceOf(l, a), PendingIn(pool, a), PendingOut(pool, a), tx.amount);
    forall i | 0 <= i < |longer|
      ensures Effective(l, longer[..i], longer[i].fromAddress) >= longer[i].amount
    {
      if i < |pool| {
        assert longer[..i] == pool[..i];
      } else {
        assert longer[..i] == pool;
      }
    }
  }

  // ----- when no sum wraps -----

  lemma AmountAtItsTurn(l: Ledger, pool: seq<Transaction>, n: nat)
    requires AllProper(pool) && Covered(l, pool) && RoomToMove(l) && n < |pool|
    ensures pool[n].amount <= Supply(l)
  {
    var here := ApplyTxs(l, pool[..n]);
    CoveredPrefix(l, pool, n);
    CoveredReplay(l, pool[..n]);
    EffectiveIsReplayed(l, pool[..n], pool[n].fromAddress);
    TotalBounds(here.balances, "", pool[n].fromAddress);
  }

  lemma {:induction false} SumBounded(pool: seq<Transaction>, address: string, bound: nat)
    requires forall i | 0 <= i < |pool| :: pool[i].amount <= bound
    ensures PendingIn(pool, address) <= |pool| * bound
    decreases |pool|
  {
    if pool != [] {
      SumBounded(pool[..|pool| - 1], address, bound);
      assert |pool| * bound == (|pool| - 1) * bound + bound;
    }
  }

  lemma IncomingBounded(l: Ledger, pool: seq<Transaction>, address: string)
    requires AllProper(pool) && Covered(l, pool) && RoomToMove(l)
    ensures PendingIn(pool, address) <= |pool| * Supply(l)
  {
    forall i | 0 <= i < |pool|
      ensures pool[i].amount <= Supply(l)
    {
      AmountAtItsTurn(l, pool, i);
    }
    SumBounded(pool, address, Supply(l));
  }

  lemma OneMore(n: nat, b: nat)
    ensures b * (n + 1) == n * b + b
  {
  }

  lemma TwiceAtLeast(n: nat, b: nat)
    requires n > 0
    ensures 2 * b <= b * (n + 1)
  {
    assert b * (n + 1) == 2 * b + b * (n - 1);
  }

  /** While supply times pool length stays below 2^64 the funds check decides exactly whether the
      effective balance covers the amount, and none of its sums wraps. */
  lemma FundsCheckIsExact(l: Ledger, pool: seq<Transaction>, address: string, amount: u64)
    requires AllProper(pool) && Covered(l, pool) && address != ""
    requires Supply(l) * (|pool| + 1) < U64
    ensures BalanceOf(l, address) + PendingIn(pool, address) < U64
    ensures PendingOut(pool, address) < U64
    ensures var incoming, outgoing := PendingIn(pool, address), PendingOut(pool, address);
            FundsCheck(BalanceOf(l, address), incoming, outgoing, amount) <==> Effective(l, pool, address) >= amount
  {
    TotalBounds(l.balances, "", address);
    OneMore(|pool|, Supply(l));
    if pool != [] {
      TwiceAtLeast(|pool|, Supply(l));
      IncomingBounded(l, pool, address);
      EffectiveIsReplayed(l, pool, address);
    }
    FundsCheckIsSound(BalanceOf(l, address), PendingIn(pool, address), PendingOut(pool, address), amount);
  }
}
