/** The account state as a value: what one transaction does to it, and what it says about the
    chain it was built from. */
module LedgerSpec {
  import opened Primitives
  import opened Transactions
  import opened Blocks

  datatype Ledger = Ledger(
    balances: map<string, u64>,
    lastNonce: map<string, u64>,
    spent: set<string>,
    owned: map<string, set<string>>,
    history: map<string, seq<Transaction>>)

  const EMPTY := Ledger(map[], map[], {}, map[], map[])

  function BalanceOf(l: Ledger, address: string): u64 {
    if address in l.balances then l.balances[address] else 0
  }

  function LastNonceOf(l: Ledger, address: string): u64 {
    if address in l.lastNonce then l.lastNonce[address] else 0
  }

  function HistoryOf(l: Ledger, address: string): seq<Transaction> {
    if address in l.history then l.history[address] else []
  }

  function OwnedBy(l: Ledger, key: string): set<string> {
    if key in l.owned then l.owned[key] else {}
  }

  /** The receiver's side: nothing happens for an empty address, and the sum wraps at 64 bits. */
  function Credit(l: Ledger, tx: Transaction): Ledger {
    if tx.toAddress == "" then l
    else l.(
      balances := l.balances[tx.toAddress := (BalanceOf(l, tx.toAddress) + tx.amount) % U64],
      history := l.history[tx.toAddress := HistoryOf(l, tx.toAddress) + [tx]])
  }

  function SaturatingSub(balance: u64, amount: u64): u64 {
    if balance > amount then balance - amount else 0
  }

  /** The sender's side, which a mining reward does not have. */
  function Debit(l: Ledger, tx: Transaction): Ledger {
    if IsCoinbase(tx) then l
    else
      var recorded := l.(
        owned := l.owned[tx.senderPublicKey := OwnedBy(l, tx.senderPublicKey) + {tx.txID}],
        spent := l.spent + {tx.txID});
      var from := tx.fromAddress;
      if from == "" then recorded
      else recorded.(
        balances := if from in l.balances then l.balances[from := SaturatingSub(l.balances[from], tx.amount)]
                    else l.balances,
        lastNonce := l.lastNonce[from := Max(LastNonceOf(l, from), tx.nonce)],
        history := l.history[from := HistoryOf(l, from) + [tx]])
  }

  function ApplyTx(l: Ledger, tx: Transaction): Ledger {
    Debit(Credit(l, tx), tx)
  }

  function ApplyTxs(l: Ledger, txs: seq<Transaction>): Ledger {
    if txs == [] then l else ApplyTx(ApplyTxs(l, txs[..|txs| - 1]), txs[|txs| - 1])
  }

  /** The state after the blocks of a chain. */
  function Rebuild(chain: seq<Block>): Ledger {
    if chain == [] then EMPTY
    else ApplyTxs(Rebuild(chain[..|chain| - 1]), chain[|chain| - 1].transactions)
  }

  /** All transactions of a chain, in chain order. */
  function ChainTxs(chain: seq<Block>): seq<Transaction> {
    if chain == [] then [] else ChainTxs(chain[..|chain| - 1]) + chain[|chain| - 1].transactions
  }

  lemma ApplyOne(l: Ledger, txs: seq<Transaction>, tx: Transaction)
    ensures ApplyTxs(l, txs + [tx]) == ApplyTx(ApplyTxs(l, txs), tx)
  {
    assert (txs + [tx])[..|txs|] == txs;
  }

  lemma {:induction false} ApplyConcat(l: Ledger, a: seq<Transaction>, b: seq<Transaction>)
    ensures ApplyTxs(l, a + b) == ApplyTxs(ApplyTxs(l, a), b)
    decreases |b|
  {
    if b == [] {
      assert a + b == a;
    } else {
      var n := |b| - 1;
      assert a + b == (a + b[..n]) + [b[n]];
      ApplyOne(l, a + b[..n], b[n]);
      ApplyConcat(l, a, b[..n]);
    }
  }

  lemma RebuildOne(chain: seq<Block>, b: Block)
    ensures Rebuild(chain + [b]) == ApplyTxs(Rebuild(chain), b.transactions)
    ensures ChainTxs(chain + [b]) == ChainTxs(chain) + b.transactions
  {
    assert (chain + [b])[..|chain|] == chain;
  }

  lemma {:induction false} RebuildIsReplay(chain: seq<Block>)
    ensures Rebuild(chain) == ApplyTxs(EMPTY, ChainTxs(chain))
  {
    if chain != [] {
      var n := |chain| - 1;
      RebuildIsReplay(chain[..n]);
      ApplyConcat(EMPTY, ChainTxs(chain[..n]), chain[n].transactions);
    }
  }

  // ----- what the state says about the chain -----

  predicate IsTransfer(tx: Transaction) { !IsCoinbase(tx) }

  /** How often a transaction is listed for an address: once as receiver and once as sender. */
  function Mentions(tx: Transaction, address: string): nat {
    (if tx.toAddress == address then 1 else 0)
    + (if IsTransfer(tx) && tx.fromAddress == address then 1 else 0)
  }

  function Copies(tx: Transaction, n: nat): (s: seq<Transaction>)
    ensures |s| == n
  {
    seq(n, i => tx)
  }

  /** The transactions an address takes part in, in order, self-transfers twice. */
  function Involving(txs: seq<Transaction>, address: string): seq<Transaction> {
    if txs == [] then []
    else Involving(txs[..|txs| - 1], address) + Copies(txs[|txs| - 1], Mentions(txs[|txs| - 1], address))
  }

  function TransferIDs(txs: seq<Transaction>): set<string> {
    set tx | tx in txs && IsTransfer(tx) :: tx.txID
  }

  function TransferIDsOf(txs: seq<Transaction>, key: string): set<string> {
    set tx | tx in txs && IsTransfer(tx) && tx.senderPublicKey == key :: tx.txID
  }

  predicate SentBy(tx: Transaction, address: string) {
    IsTransfer(tx) && tx.fromAddress == address
  }

  /** n is the largest nonce that the address used, or 0 when it used none above 0. */
  ghost predicate IsLastNonce(txs: seq<Transaction>, address: string, n: nat) {
    && (forall tx | tx in txs && SentBy(tx, address) :: tx.nonce <= n)
    && (n > 0 ==> exists tx :: tx in txs && SentBy(tx, address) && tx.nonce == n)
  }

  /** The state indexes the transactions. */
  ghost predicate Indexes(l: Ledger, txs: seq<Transaction>) {
    && l.spent == TransferIDs(txs)
    && (forall key :: OwnedBy(l, key) == TransferIDsOf(txs, key))
    && (forall address | address != "" :: IsLastNonce(txs, address, LastNonceOf(l, address)))
    && (forall address | address != "" :: HistoryOf(l, address) == Involving(txs, address))
    && (forall address | address in l.balances ::
          address != "" && exists tx :: tx in txs && tx.toAddress == address)
  }

  lemma IndexStepSpent(l: Ledger, txs: seq<Transaction>, tx: Transaction)
    requires l.spent == TransferIDs(txs)
    ensures ApplyTx(l, tx).spent == TransferIDs(txs + [tx])
  {
    assert forall t :: t in txs + [tx] <==> t in txs || t == tx;
  }

  lemma IndexStepOwned(l: Ledger, txs: seq<Transaction>, tx: Transaction, key: string)
    requires OwnedBy(l, key) == TransferIDsOf(txs, key)
    ensures OwnedBy(ApplyTx(l, tx), key) == TransferIDsOf(txs + [tx], key)
  {
    assert forall t :: t in txs + [tx] <==> t in txs || t == tx;
    assert OwnedBy(ApplyTx(l, tx), key)
        == OwnedBy(l, key) + if IsTransfer(tx) && tx.senderPublicKey == key then {tx.txID} else {};
  }

  lemma IndexStepNonce(l: Ledger, txs: seq<Transaction>, tx: Transaction, address: string)
    requires address != "" && IsLastNonce(txs, address, LastNonceOf(l, address))
    ensures IsLastNonce(txs + [tx], address, LastNonceOf(ApplyTx(l, tx), address))
  {
    var n, n' := LastNonceOf(l, address), LastNonceOf(ApplyTx(l, tx), address);
    var longer := txs + [tx];
    assert n' == if SentBy(tx, address) then Max(n, tx.nonce) else n;
    assert forall t :: t in longer <==> t in txs || t == tx;
    if n' > 0 {
      if n' == n {
        var w :| w in txs && SentBy(w, address) && w.nonce == n;
        assert w in longer;
      } else {
        assert tx in longer;
      }
    }
  }

  lemma HistoryStep(l: Ledger, tx: Transaction, address: string)
    requires address != ""
    ensures HistoryOf(ApplyTx(l, tx), address) == HistoryOf(l, address) + Copies(tx, Mentions(tx, address))
  {
    var before, credited := HistoryOf(l, address), HistoryOf(Credit(l, tx), address);
    assert credited == if tx.toAddress == address then before + [tx] else before;
    assert HistoryOf(Debit(Credit(l, tx), tx), address)
        == if SentBy(tx, address) then credited + [tx] else credited;
    assert Copies(tx, 0) == [] && Copies(tx, 1) == [tx] && Copies(tx, 2) == [tx] + [tx];
  }

  lemma IndexStepHistory(l: Ledger, txs: seq<Transaction>, tx: Transaction, address: string)
    requires address != "" && HistoryOf(l, address) == Involving(txs, address)
    ensures HistoryOf(ApplyTx(l, tx), address) == Involving(txs + [tx], address)
  {
    HistoryStep(l, tx, address);
    assert (txs + [tx])[..|txs|] == txs;
  }

  lemma IndexStepAccounts(l: Ledger, txs: seq<Transaction>, tx: Transaction, address: string)
    requires forall a | a in l.balances :: a != "" && exists t :: t in txs && t.toAddress == a
    requires address in ApplyTx(l, tx).balances
    ensures address != "" && exists t :: t in txs + [tx] && t.toAddress == address
  {
    if address == tx.toAddress {
      assert tx in txs + [tx];
    } else {
      assert address in l.balances;
      var t :| t in txs && t.toAddress == address;
      assert t in txs + [tx];
    }
  }

  lemma {:induction false} ReplayIndexes(txs: seq<Transaction>)
    ensures Indexes(ApplyTxs(EMPTY, txs), txs)
  {
    if txs != [] {
      var n := |txs| - 1;
      var before, tx := txs[..n], txs[n];
      var l := ApplyTxs(EMPTY, before);
      assert before + [tx] == txs;
      ReplayIndexes(before);
      IndexStepSpent(l, before, tx);
      forall key
        ensures OwnedBy(ApplyTx(l, tx), key) == TransferIDsOf(txs, key)
      {
        IndexStepOwned(l, before, tx, key);
      }
      forall address | address != ""
        ensures IsLastNonce(txs, address, LastNonceOf(ApplyTx(l, tx), address))
        ensures HistoryOf(ApplyTx(l, tx), address) == Involving(txs, address)
      {
        IndexStepNonce(l, before, tx, address);
        IndexStepHistory(l, before, tx, address);
      }
      forall address | address in ApplyTx(l, tx).balances
        ensures address != "" && exists t :: t in txs && t.toAddress == address
      {
        IndexStepAccounts(l, before, tx, address);
      }
    }
  }

  /** The rebuilt state is the index of the chain: spent identifiers are exactly the transfers',
      grouped by sender key; the last nonce of an address is the largest it used; its history is
      its transactions in chain order; only receivers have accounts. */
  lemma StateIndexesChain(chain: seq<Block>)
    ensures Indexes(Rebuild(chain), ChainTxs(chain))
  {
    RebuildIsReplay(chain);
    ReplayIndexes(ChainTxs(chain));
  }

  /** The balance of every address after any transaction: what it receives wraps at 64 bits, and what a
      transfer takes from an account stops at zero. */
  lemma BalanceStep(l: Ledger, tx: Transaction, address: string)
    requires address != ""
    ensures var before := BalanceOf(l, address);
            var credited := if tx.toAddress == address then (before + tx.amount) % U64 else before;
            (BalanceOf(ApplyTx(l, tx), address)
             == if !IsCoinbase(tx) && tx.fromAddress == address then Max(0, credited - tx.amount) else credited)
  {
    hide HistoryOf, OwnedBy;
  }
}
