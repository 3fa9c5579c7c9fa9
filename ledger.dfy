/**
 * The ledger of bank.js: a running balance and an append-only list of
 * entries, changed only by the deposit and withdrawal form handlers.
 *
 * The module-level variables `accountBalance` and `transactions` are the
 * fields of one `Ledger` object; each form submission is one method call
 * whose amount has already been read from the form, and whose outcome stands
 * for the alert or notification the handler shows.
 */
module Bank {
  import opened Transactions
  import opened Currency
  import opened History

  datatype Outcome = Accepted | InvalidAmount | InsufficientFunds

  class Ledger {
    var balance: int
    var transactions: seq<Transaction>

    ghost predicate Valid()
      reads this
    {
      LedgerInvariant(balance, transactions)
    }

    /** The state at page load: 5000 dollars and the opening entry. */
    constructor (openedAt: Timestamp)
      ensures Valid()
      ensures balance == OpeningBalance
      ensures transactions == [OpeningTransaction(openedAt)]
    {
      balance := OpeningBalance;
      transactions := [OpeningTransaction(openedAt)];
      InitialInvariant(openedAt);
    }

    /** The deposit form handler, on an amount already parsed from the form. */
    method Deposit(amount: int, description: string, date: Timestamp) returns (outcome: Outcome)
      requires Valid()
      modifies this
      ensures Valid()
      ensures outcome == (if amount <= 0 then InvalidAmount else Accepted)
      ensures outcome == InvalidAmount ==> balance == old(balance) && transactions == old(transactions)
      ensures outcome == Accepted ==>
                balance == old(balance) + amount &&
                transactions == old(transactions) + [Transaction(description, amount, Kind.Deposit, date)]
    {
      if amount <= 0 {
        return InvalidAmount;
      }
      var entry := Transaction(description, amount, Kind.Deposit, date);
      DepositKeepsInvariant(balance, transactions, entry);
      balance := balance + amount;
      transactions := transactions + [entry];
      outcome := Accepted;
    }

    /**
     * The withdrawal form handler: the amount is checked for being positive
     * before it is compared with the balance.
     */
    method Withdraw(amount: int, description: string, date: Timestamp) returns (outcome: Outcome)
      requires Valid()
      modifies this
      ensures Valid()
      ensures outcome == (if amount <= 0 then InvalidAmount
                          else if amount > old(balance) then InsufficientFunds
                          else Accepted)
      ensures outcome != Accepted ==> balance == old(balance) && transactions == old(transactions)
      ensures outcome == Accepted ==>
                balance == old(balance) - amount &&
                transactions == old(transactions) + [Transaction(description, amount, Withdrawal, date)]
    {
      if amount <= 0 {
        return InvalidAmount;
      }
      if amount > balance {
        return InsufficientFunds;
      }
      var entry := Transaction(description, amount, Withdrawal, date);
      WithdrawalKeepsInvariant(balance, transactions, entry);
      balance := balance - amount;
      transactions := transactions + [entry];
      outcome := Accepted;
    }

    /** The text of the balance display (updateBalance). */
    function BalanceText(): (text: string)
      reads this
      requires Valid()
      ensures RemoveCommas(text) == "$" + ToFixed2(balance)
    {
      FormatCurrencyWithoutCommas(balance);
      FormatCurrency(balance)
    }

    /** The history list, newest first; reading it leaves the ledger as it is. */
    method ShowHistory() returns (rows: seq<Row>)
      ensures |rows| == |transactions|
      ensures forall i :: 0 <= i < |rows| ==> rows[i] == RenderRow(transactions[|transactions| - 1 - i])
    {
      rows := RenderHistory(transactions);
    }
  }

  /** Two withdrawals with the same non-positive amount are rejected alike and change nothing. */
  method RejectedWithdrawalTwice(ledger: Ledger, amount: int, description: string, date: Timestamp)
    returns (first: Outcome, second: Outcome)
    requires ledger.Valid() && amount <= 0
    modifies ledger
    ensures first == second == InvalidAmount
    ensures ledger.balance == old(ledger.balance) && ledger.transactions == old(ledger.transactions)
  {
    first := ledger.Withdraw(amount, description, date);
    second := ledger.Withdraw(amount, description, date);
  }

  /**
   * From a fresh ledger: deposit 250.50 dollars, try to withdraw 6000 dollars,
   * then withdraw everything that is left.
   */
  method OpeningDepositWithdrawScenario(clock: Timestamp)
    returns (afterDeposit: int, entriesAfterDeposit: nat, rejected: Outcome, afterRejection: int,
             afterPayoff: int, entries: nat)
    ensures afterDeposit == 525050 && entriesAfterDeposit == 2
    ensures rejected == InsufficientFunds && afterRejection == 525050
    ensures afterPayoff == 0 && entries == 3
  {
    var ledger := new Ledger(clock);
    var outcome := ledger.Deposit(25050, "Paycheck", clock);
    afterDeposit, entriesAfterDeposit := ledger.balance, |ledger.transactions|;
    rejected := ledger.Withdraw(600000, "Rent", clock);
    afterRejection := ledger.balance;
    outcome := ledger.Withdraw(525050, "Payoff", clock);
    afterPayoff := ledger.balance;
    entries := |ledger.transactions|;
  }
}
