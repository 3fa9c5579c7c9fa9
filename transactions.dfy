/**
 * The entries of the bank ledger (bank.js) and the invariant that ties the
 * running balance to them.
 *
 * Amounts are integer cents. The `date` of an entry is the clock reading the
 * caller supplies; the model never inspects it.
 */
module Transactions {

  /** A clock reading (milliseconds since the epoch), supplied by the caller. */
  type Timestamp = int

  datatype Kind = Deposit | Withdrawal

  datatype Transaction = Transaction(description: string, amount: nat, kind: Kind, date: Timestamp)

  /** 5000 dollars, in cents. */
  const OpeningBalance: nat := 500000

  /** The entry the ledger starts with. */
  function OpeningTransaction(date: Timestamp): Transaction
  {
    Transaction("Opening Balance", OpeningBalance, Deposit, date)
  }

  /** Sum of the amounts of the deposit entries. */
  function DepositTotal(ts: seq<Transaction>): nat
  {
    if ts == [] then 0 else (if ts[0].kind == Deposit then ts[0].amount else 0) + DepositTotal(ts[1..])
  }

  /** Sum of the amounts of the withdrawal entries. */
  function WithdrawalTotal(ts: seq<Transaction>): nat
  {
    if ts == [] then 0 else (if ts[0].kind == Withdrawal then ts[0].amount else 0) + WithdrawalTotal(ts[1..])
  }

  /** Appending one entry adds its amount to the total of its own kind and leaves the other total alone. */
  lemma {:induction false} TotalsAppend(ts: seq<Transaction>, t: Transaction)
    ensures DepositTotal(ts + [t]) == DepositTotal(ts) + (if t.kind == Deposit then t.amount else 0)
    ensures WithdrawalTotal(ts + [t]) == WithdrawalTotal(ts) + (if t.kind == Withdrawal then t.amount else 0)
    decreases |ts|
  {
    if ts == [] {
      assert [t][1..] == [];
    } else {
      assert (ts + [t])[1..] == ts[1..] + [t];
      TotalsAppend(ts[1..], t);
    }
  }

  /**
   * What every reachable ledger state satisfies: the history starts with the
   * opening deposit, every entry has a positive amount, and the balance is
   * the deposits minus the withdrawals and never negative.
   */
  predicate LedgerInvariant(balance: int, ts: seq<Transaction>)
  {
    |ts| > 0 &&
    ts[0].description == "Opening Balance" && ts[0].amount == OpeningBalance && ts[0].kind == Deposit &&
    (forall i :: 0 <= i < |ts| ==> ts[i].amount > 0) &&
    balance == DepositTotal(ts) - WithdrawalTotal(ts) &&
    balance >= 0
  }

  lemma InitialInvariant(date: Timestamp)
    ensures LedgerInvariant(OpeningBalance, [OpeningTransaction(date)])
  {
    assert [OpeningTransaction(date)][1..] == [];
  }

  /** An accepted deposit keeps the invariant. */
  lemma DepositKeepsInvariant(balance: int, ts: seq<Transaction>, t: Transaction)
    requires LedgerInvariant(balance, ts)
    requires t.kind == Deposit && t.amount > 0
    ensures LedgerInvariant(balance + t.amount, ts + [t])
  {
    TotalsAppend(ts, t);
  }

  /** An accepted withdrawal, one no larger than the balance, keeps the invariant. */
  lemma WithdrawalKeepsInvariant(balance: int, ts: seq<Transaction>, t: Transaction)
    requires LedgerInvariant(balance, ts)
    requires t.kind == Withdrawal && 0 < t.amount <= balance
    ensures LedgerInvariant(balance - t.amount, ts + [t])
  {
    TotalsAppend(ts, t);
  }

  /** The balance is the opening balance plus the later deposits minus the later withdrawals. */
  lemma BalanceFromOpening(balance: int, ts: seq<Transaction>)
    requires LedgerInvariant(balance, ts)
    ensures balance == OpeningBalance + DepositTotal(ts[1..]) - WithdrawalTotal(ts[1..])
  {
  }
}
