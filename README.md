# Bank ledger model

A Dafny model of the ledger in `bank.js`, a browser-page script for a toy bank.
The page starts with a balance of 5000 dollars and one "Opening Balance" deposit.
Two form handlers change that state. A deposit rejects a non-positive amount;
otherwise it adds the amount to the balance and appends a `deposit` entry.
A withdrawal rejects a non-positive amount first, then an amount larger than the balance;
otherwise it subtracts the amount and appends a `withdrawal` entry.
Two views read the state without changing it.
The history list shows a reversed copy of the entries, newest first, each signed `+` or `-`.
`formatCurrency` renders an amount as `$`, the `toFixed(2)` text, and commas between thousands.

Modules:

- `Currency` (currency.dfy): `formatCurrency`. Amounts are whole cents, so `toFixed(2)` is exact.
  The comma insertion `/\B(?=(\d{3})+(?!\d))/g` is modelled position by position.
  A comma goes at a position that is not a word boundary (`\B`) and is followed by a run of digits whose length is a positive multiple of three.
  `LookaheadReading` proves that this run-length reading equals the regular expression's own reading: "one or more groups of three digits, then no digit".
- `Transactions` (transactions.dfy): entries, the deposit and withdrawal totals, and the ledger invariant.
- `History` (history.dfy): the reversed-copy history view and the loop that builds its rows.
- `Bank` (ledger.dfy): class `Ledger`. Its fields `balance` and `transactions` are the module-level variables `accountBalance` and `transactions`.
  `Deposit` and `Withdraw` are the two submit handlers. Their `Outcome` stands for the alert or notification a handler shows on rejection.

Abstractions:

- Amounts are integers counting cents, not JavaScript numbers. The opening balance is 500000 cents.
- Each amount is the already-parsed number from the form.
- The clock reading that `new Date()` supplies is a `Timestamp` parameter. The model stores it and never inspects it.

The invariant `LedgerInvariant` is kept by the constructor and both methods. It says:

- the first entry is the opening deposit;
- every entry has a positive amount;
- the balance equals the sum of deposit amounts minus the sum of withdrawal amounts (the opening entry included);
- the balance is never negative.

A withdrawal checks "non-positive" before "larger than the balance", so an amount that fails both is reported as `InvalidAmount`.
That order is in `Withdraw`'s contract.
Under the invariant no amount fails both checks, because the balance is never negative.

One might expect non-numeric input to be rejected.
The code does not do this: `parseFloat` of a non-number gives NaN, and `NaN <= 0` is false, so NaN passes the guard.
This model follows the code in taking an already-parsed numeric amount, and claims nothing about non-numeric input.

## Model

| member | source | states |
|---|---|---|
| `Currency.FormatCurrency` | bank.js:44-46 | `formatCurrency`: `$`, then the `toFixed(2)` text with the comma replace applied; what the text is follows from `FormatCurrencyGroups` (where the commas go) and `FormatCurrencyWithoutCommas` (nothing but commas is added) |
| `Currency.ToFixed2` | bank.js:45 | `amount.toFixed(2)` on whole cents: the dollar numeral, a point, the two cent digits; `ToFixed2Value` proves its shape and that it reads back as the amount |
| `Currency.NotWordBoundary` | bank.js:45 | `\B`: the characters on the two sides of the position are both word characters or both not (the string's ends count as non-word) |
| `Currency.ThreeDigitGroupsAhead` | bank.js:45 | the lookahead `(?=(\d{3})+(?!\d))`, read as "the digit run from here has a positive length divisible by three"; `LookaheadReading` proves this equals the pattern's own reading |
| `Currency.CommaAt` | bank.js:45 | the whole pattern matches (empty) at a position: `\B` and the lookahead both hold |
| `Currency.InsertCommas` | bank.js:45 | the global `replace`: each position where the pattern matches gets one comma, every character is copied once; `FormatCurrencyGroups` states the result on the `toFixed(2)` text |
| `Currency.Decimal` | bank.js:45 | the integer part of `toFixed`: a non-empty string of digits, with no leading zero unless the value is zero |
| `Currency.DecimalRoundTrip` | bank.js:45 | reading the decimal text back gives the number it was made from |
| `Currency.ToFixed2Value` | bank.js:45 | `toFixed(2)` text is digits, a point, then two digits, and reading it back gives the amount in cents exactly |
| `Currency.DigitRunMaximal` | bank.js:45 | the digits counted from a position form the longest run of digits there: all digits, then a non-digit or the end |
| `Currency.LookaheadReading` | bank.js:45 | the lookahead `(?=(\d{3})+(?!\d))` holds at a position exactly when some k >= 1 groups of three digits follow and no digit comes after them (both directions) |
| `Currency.GroupLayout` | bank.js:45 | in the grouped dollar digits, every fourth character from the right is a comma, every other one is a digit, and no comma leads |
| `Currency.GroupRemoveCommas` | bank.js:45 | deleting the commas from the grouped digits gives the digits back |
| `Currency.FormatCurrencyGroups` | bank.js:44-46 | `formatCurrency` is `$`, the dollar digits with a comma before every group of three counted from the right, a point and the two cent digits; the regex inserts no comma among the cents or at the front |
| `Currency.FormatCurrencyWithoutCommas` | bank.js:45 | deleting the commas from `formatCurrency`'s text leaves `$` followed by the `toFixed(2)` text |
| `Currency.FormatCurrencyThousands` | bank.js:44-46 | d thousand dollars (1 <= d <= 9) is shown as `$d,000.00`; with d = 5 this is the opening balance's `$5,000.00` |
| `Transactions.LedgerInvariant` | bank.js:2-10 | the state every handler keeps: the first entry is the opening deposit, every amount is positive, the balance is deposits minus withdrawals and is never negative; established by `InitialInvariant`, kept by `DepositKeepsInvariant` and `WithdrawalKeepsInvariant` |
| `Transactions.TotalsAppend` | bank.js:122-127 | appending an entry adds its amount to the total of its own kind and leaves the other total unchanged |
| `Transactions.InitialInvariant` | bank.js:2-10 | the initial state (balance 5000 dollars, only the opening deposit) satisfies the ledger invariant |
| `Transactions.DepositKeepsInvariant` | bank.js:121-127 | adding a positive amount to the balance and appending a deposit entry of that amount keeps the invariant |
| `Transactions.WithdrawalKeepsInvariant` | bank.js:151-163 | subtracting a positive amount no larger than the balance and appending a withdrawal entry keeps the invariant, so the balance stays non-negative |
| `Transactions.BalanceFromOpening` | bank.js:2-10 | under the invariant, the balance is the opening balance plus the later deposits minus the later withdrawals |
| `History.Reversed` | bank.js:88 | `[...transactions].reverse()`: a copy of the same length; `ReversedIndex` states the element order |
| `History.RenderRow` | bank.js:89-101 | one history row: description, date, `positive`/`negative` class and the signed `formatCurrency` text; `RowTag` states its meaning |
| `History.ReversedIndex` | bank.js:88 | the reversed copy has the same length, and position i holds the entry at position n-1-i |
| `History.ReversedTwice` | bank.js:88 | reversing the copy again gives back the insertion order |
| `History.HistoryView` | bank.js:84-105 | the list has one row per entry, and row i renders the entry at position n-1-i, so the newest entry comes first |
| `History.HistoryAfterAppend` | bank.js:88 | after an entry is appended, its row heads the list and the earlier rows follow unchanged |
| `History.RowTag` | bank.js:92-100 | a row keeps the entry's description and date; it is styled positive and signed `+` exactly for a deposit, `-` otherwise; and its amount text, with commas removed, is `$` followed by the `toFixed(2)` text |
| `History.RenderHistory` | bank.js:84-105 | the loop that clears the list and appends one row per entry of the reversed copy builds exactly the history view; its input sequence is a value and is not modified |
| `Bank.Ledger.constructor` | bank.js:2-10 | the ledger starts with balance 500000 cents and exactly one entry, the opening deposit, and satisfies the invariant |
| `Bank.Ledger.Deposit` | bank.js:109-136 | an amount <= 0 gives `InvalidAmount` and changes nothing; otherwise the balance grows by exactly the amount and one deposit entry with that amount and description is appended after the unchanged earlier entries; the invariant is kept |
| `Bank.Ledger.Withdraw` | bank.js:140-172 | an amount <= 0 gives `InvalidAmount` (checked first); an amount larger than the balance gives `InsufficientFunds`; both change nothing; otherwise the balance drops by the amount and one withdrawal entry is appended; the invariant (balance >= 0) is kept |
| `Bank.Ledger.BalanceText` | bank.js:64-65 | the balance display, with commas removed, is `$` followed by the balance's `toFixed(2)` text |
| `Bank.Ledger.ShowHistory` | bank.js:84-105 | the rendered list has as many rows as the ledger has entries, newest first, without changing the ledger |
| `Bank.RejectedWithdrawalTwice` | bank.js:146-149 | two withdrawals with the same non-positive amount are rejected alike, both as `InvalidAmount`, and the state is unchanged |
| `Bank.OpeningDepositWithdrawScenario` | bank.js:109-172 | from a fresh ledger: a deposit of 250.50 dollars gives 5250.50 and two entries; a withdrawal of 6000 dollars is rejected as `InsufficientFunds` with the balance unchanged; withdrawing 5250.50 leaves 0.00 and three entries |

## Left out

- JavaScript numbers: amounts are integer cents. IEEE rounding, amounts that are not whole cents, and `toFixed` rounding are not modelled.
- `toFixed` switches to exponent notation from 1e21 upward. The model covers only the plain decimal form.
- `parseFloat` and NaN: the model takes an already-parsed integer amount. The `amount <= 0` guard does not reject NaN, so nothing is claimed about non-numeric input.
- `formatDate`: it depends on the wall clock and on locale formatting. A row carries the entry's raw `Timestamp` instead of the date label.
- The clock (`new Date()`): the caller passes the reading as the `date` parameter.
- DOM, timers and feedback: tab switching, `clearForms`, the balance animation and its `setTimeout`, the injected CSS keyframes, `showNotification` and `alert`. These are UI side effects. The notification or alert a handler shows is represented only by the `Outcome` it returns.
- The HTML markup that `innerHTML` builds for a row: a row is modelled as its fields (description, date, style class, amount text). bank.js:95-101 puts the description into `innerHTML` without escaping, so markup in a description is parsed as HTML and the displayed text can differ from the stored one; `Row.description` holds the raw stored text.
- `Bank.Ledger.BalanceText`: states the text with its commas removed. The exact comma placement is `Currency.FormatCurrencyGroups`, which this function does not restate.
- admin-dashboard.js is not part of this model. It is theme and navigation UI glue with no ledger logic.
