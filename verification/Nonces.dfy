/** The nonces of a sender: what the pool and the confirmed state say about the next one. */
module Nonces {
  import opened Primitives
  import opened Transactions
  import opened LedgerSpec
  import opened Solvency

  /** The nonces an address used, in order. */
  function NoncesOf(txs: seq<Transaction>, address: string): seq<nat> {
    if txs == [] then []
    else
      var tx := txs[|txs| - 1];
      NoncesOf(txs[..|txs| - 1], address) + if SentBy(tx, address) then [tx.nonce] else []
  }

  /** The highest nonce seen for an address, confirmed or pending. */
  function Highest(l: Ledger, pool: seq<Transaction>, address: string): u64 {
    if pool == [] then LastNonceOf(l, address)
    else
      var tx := pool[|pool| - 1];
      var before := Highest(l, pool[..|pool| - 1], address);
      if tx.fromAddress == address then Max(before, tx.nonce) else before
  }

  lemma HighestWithOneMore(l: Ledger, pool: seq<Transaction>, tx: Transaction, address: string)
    ensures Highest(l, pool + [tx], address)
         == if tx.fromAddress == address then Max(Highest(l, pool, address), tx.nonce) else Highest(l, pool, address)
  {
    assert (pool + [tx])[..|pool|] == pool;
  }

  /** The nonce admission expects next; it wraps at 64 bits. */
  function NextNonce(l: Ledger, pool: seq<Transaction>, address: string): u64 {
    (Highest(l, pool, address) + 1) % U64
  }

  predicate IsRange(s: seq<nat>, start: nat) {
    forall j | 0 <= j < |s| :: s[j] == start + j
  }

  lemma NoncesOne(txs: seq<Transaction>, tx: Transaction, address: string)
    ensures NoncesOf(txs + [tx], address) == NoncesOf(txs, address) + if SentBy(tx, address) then [tx.nonce] else []
  {
    assert (txs + [tx])[..|txs|] == txs;
  }

  lemma {:induction false} NoncesConcat(a: seq<Transaction>, b: seq<Transaction>, address: string)
    ensures NoncesOf(a + b, address) == NoncesOf(a, address) + NoncesOf(b, address)
    decreases |b|
  {
    if b == [] {
      assert a + b == a;
    } else {
      var n := |b| - 1;
      assert a + b == (a + b[..n]) + [b[n]];
      NoncesConcat(a, b[..n], address);
      NoncesOne(a + b[..n], b[n], address);
    }
  }

  // ----- the highest nonce does not change when a prefix is confirmed -----

  lemma {:induction false} HighestIsConfirmed(l: Ledger, pool: seq<Transaction>, address: string)
    requires AllProper(pool) && address != ""
    ensures LastNonceOf(ApplyTxs(l, pool), address) == Highest(l, pool, address)
    decreases |pool|
  {
    if pool != [] {
      var n := |pool| - 1;
      HighestIsConfirmed(l, pool[..n], address);
      assert Proper(pool[n]);
    }
  }

  lemma {:induction false} HighestConcat(l: Ledger, mid: Ledger, a: seq<Transaction>, b: seq<Transaction>,
                                         address: string)
    requires LastNonceOf(mid, address) == Highest(l, a, address)
    ensures Highest(mid, b, address) == Highest(l, a + b, address)
    decreases |b|
  {
    if b == [] {
      assert a + b == a;
    } else {
      var n := |b| - 1;
      assert (a + b)[..|a + b| - 1] == a + b[..n];
      HighestConcat(l, mid, a, b[..n], address);
    }
  }

  lemma HighestAfterPrefix(l: Ledger, pool: seq<Transaction>, k: nat, address: string)
    requires AllProper(pool) && address != "" && k <= |pool|
    ensures Highest(ApplyTxs(l, pool[..k]), pool[k..], address) == Highest(l, pool, address)
  {
    HighestIsConfirmed(l, pool[..k], address);
    HighestConcat(l, ApplyTxs(l, pool[..k]), pool[..k], pool[k..], address);
    assert pool[..k] + pool[k..] == pool;
  }

  // ----- contiguity -----

  /** The pending nonces of an address count up from its last confirmed one. */
  predicate Contiguous(l: Ledger, pool: seq<Transaction>, address: string) {
    IsRange(NoncesOf(pool, address), LastNonceOf(l, address) + 1)
  }

  lemma {:induction false} HighestCounts(l: Ledger, pool: seq<Transaction>, address: string)
    requires AllProper(pool) && Contiguous(l, pool, address)
    ensures Highest(l, pool, address) == LastNonceOf(l, address) + |NoncesOf(pool, address)|
    decreases |pool|
  {
    if pool != [] {
      var n := |pool| - 1;
      var s, s' := NoncesOf(pool[..n], address), NoncesOf(pool, address);
      assert Proper(pool[n]);
      assert forall j | 0 <= j < |s| :: s[j] == s'[j];
      HighestCounts(l, pool[..n], address);
      if SentBy(pool[n], address) {
        assert s'[|s|] == pool[n].nonce;
      }
    }
  }

  /** Admitting the expected nonce continues the count exactly when the count has not run out of
      64-bit numbers. */
  lemma AdmissionKeepsContiguous(l: Ledger, pool: seq<Transaction>, tx: Transaction, address: string)
    requires AllProper(pool) && Proper(tx) && Contiguous(l, pool, address)
    requires tx.nonce == NextNonce(l, pool, tx.fromAddress)
    ensures Contiguous(l, pool + [tx], address) <==>
              tx.fromAddress != address || Highest(l, pool, address) + 1 < U64
  {
    var s, s' := NoncesOf(pool, address), NoncesOf(pool + [tx], address);
    NoncesOne(pool, tx, address);
    HighestCounts(l, pool, address);
    assert forall j | 0 <= j < |s| :: s[j] == s'[j];
    if tx.fromAddress == address {
      assert s'[|s|] == tx.nonce;
      if Highest(l, pool, address) + 1 < U64 {
        assert tx.nonce == LastNonceOf(l, address) + 1 + |s|;
      } else {
        assert tx.nonce == 0;
      }
    }
  }

  /** Confirming a prefix keeps the rest contiguous. */
  lemma ContiguousSuffix(l: Ledger, pool: seq<Transaction>, k: nat, address: string)
    requires AllProper(pool) && Contiguous(l, pool, address) && address != "" && k <= |pool|
    ensures Contiguous(ApplyTxs(l, pool[..k]), pool[k..], address)
    ensures LastNonceOf(ApplyTxs(l, pool[..k]), address) == LastNonceOf(l, address) + |NoncesOf(pool[..k], address)|
  {
    var first, rest, all := NoncesOf(pool[..k], address), NoncesOf(pool[k..], address), NoncesOf(pool, address);
    assert pool[..k] + pool[k..] == pool;
    NoncesConcat(pool[..k], pool[k..], address);
    assert forall j | 0 <= j < |first| :: first[j] == all[j];
    assert forall j | 0 <= j < |rest| :: rest[j] == all[|first| + j];
    HighestCounts(l, pool[..k], address);
    HighestIsConfirmed(l, pool[..k], address);
  }
}
