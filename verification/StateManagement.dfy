/** The account state as the node keeps it: five collections updated in place. */
module StateManagement {
  import opened Primitives
  import opened Transactions
  import opened Blocks
  import opened LedgerSpec

  class StateManager {
    var ownershipMap: map<string, set<string>>
    var spentTxIDs: set<string>
    var balances: map<string, u64>
    var lastNonceMap: map<string, u64>
    var transactionsByAddress: map<string, seq<Transaction>>

    /** The state as a value. */
    ghost function View(): Ledger
      reads this
    {
      Ledger(balances, lastNonceMap, spentTxIDs, ownershipMap, transactionsByAddress)
    }

    constructor ()
      ensures View() == EMPTY
    {
      ownershipMap, spentTxIDs := map[], {};
      balances, lastNonceMap, transactionsByAddress := map[], map[], map[];
    }

    /** The receiver's side of a transaction. */
    method CreditReceiver(tx: Transaction)
      modifies this
      ensures View() == Credit(old(View()), tx)
    {
      if tx.toAddress != "" {
        var balance := if tx.toAddress in balances then balances[tx.toAddress] else 0;
        balances := balances[tx.toAddress := (balance + tx.amount) % U64];
        var entries := if tx.toAddress in transactionsByAddress then transactionsByAddress[tx.toAddress] else [];
        transactionsByAddress := transactionsByAddress[tx.toAddress := entries + [tx]];
      }
    }

    /** The sender's side of a transaction. */
    method ChargeSender(tx: Transaction)
      modifies this
      ensures View() == Debit(old(View()), tx)
    {
      if !IsCoinbase(tx) {
        var ids := if tx.senderPublicKey in ownershipMap then ownershipMap[tx.senderPublicKey] else {};
        ownershipMap := ownershipMap[tx.senderPublicKey := ids + {tx.txID}];
        spentTxIDs := spentTxIDs + {tx.txID};
        if tx.fromAddress != "" {
          if tx.fromAddress in balances {
            var balance := balances[tx.fromAddress];
            balances := balances[tx.fromAddress := if balance > tx.amount then balance - tx.amount else 0];
          }
          var last := if tx.fromAddress in lastNonceMap then lastNonceMap[tx.fromAddress] else 0;
          lastNonceMap := lastNonceMap[tx.fromAddress := Max(last, tx.nonce)];
          var entries := if tx.fromAddress in transactionsByAddress then transactionsByAddress[tx.fromAddress] else [];
          transactionsByAddress := transactionsByAddress[tx.fromAddress := entries + [tx]];
        }
      }
    }

    /** The transactions in order, each crediting its receiver before it charges its sender. */
    method ApplyBlockState(block: Block)
      modifies this
      ensures View() == ApplyTxs(old(View()), block.transactions)
    {
      for i := 0 to |block.transactions|
        invariant View() == ApplyTxs(old(View()), block.transactions[..i])
      {
        CreditReceiver(block.transactions[i]);
        ChargeSender(block.transactions[i]);
        assert block.transactions[..i + 1][..i] == block.transactions[..i];
      }
      assert block.transactions[..|block.transactions|] == block.transactions;
    }

    method RebuildState(chain: seq<Block>)
      modifies this
      ensures View() == Rebuild(chain)
    {
      ownershipMap, spentTxIDs := map[], {};
      balances, lastNonceMap, transactionsByAddress := map[], map[], map[];
      for i := 0 to |chain|
        invariant View() == Rebuild(chain[..i])
      {
        ApplyBlockState(chain[i]);
        assert chain[..i + 1][..i] == chain[..i];
      }
      assert chain[..|chain|] == chain;
    }

    method GetBalance(address: string) returns (balance: u64)
      ensures balance == BalanceOf(View(), address)
    {
      balance := if address in balances then balances[address] else 0;
    }

    method GetLastNonce(address: string) returns (nonce: u64)
      ensures nonce == LastNonceOf(View(), address)
    {
      nonce := if address in lastNonceMap then lastNonceMap[address] else 0;
    }
  }
}
