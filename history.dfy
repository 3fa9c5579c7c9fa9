/**
 * The history list of bank.js (`updateTransactionHistory`): a reversed copy
 * of the entries, newest first, each shown with its description, its date,
 * and its amount signed '+' for a deposit and '-' otherwise.
 */
module History {
  import opened Transactions
  import opened Currency

  /**
   * What the list shows for one entry. `positive` is the choice between the
   * 'positive' and 'negative' style classes; the date is kept as the raw
   * clock reading, since its rendering is not part of this model.
   */
  datatype Row = Row(description: string, date: Timestamp, positive: bool, amountText: string)

  function RenderRow(t: Transaction): Row
  {
    var positive := t.kind == Deposit;
    Row(t.description, t.date, positive, [if positive then '+' else '-'] + FormatCurrency(t.amount))
  }

  /** A reversed copy: the last element first. */
  function Reversed<T>(s: seq<T>): (r: seq<T>)
    ensures |r| == |s|
  {
    if s == [] then [] else [s[|s| - 1]] + Reversed(s[..|s| - 1])
  }

  /** The copy holds the same elements in exactly the opposite order. */
  lemma {:induction false} ReversedIndex<T>(s: seq<T>)
    ensures |Reversed(s)| == |s|
    ensures forall i :: 0 <= i < |s| ==> Reversed(s)[i] == s[|s| - 1 - i]
    decreases |s|
  {
    if s != [] {
      var init := s[..|s| - 1];
      ReversedIndex(init);
      var r := Reversed(s);
      assert r == [s[|s| - 1]] + Reversed(init);
      forall i | 0 <= i < |s|
        ensures r[i] == s[|s| - 1 - i]
      {
        if i > 0 {
          assert r[i] == Reversed(init)[i - 1];
          assert Reversed(init)[i - 1] == init[|init| - 1 - (i - 1)];
        }
      }
    }
  }

  /** Reversing twice gives back the original order. */
  lemma ReversedTwice<T>(s: seq<T>)
    ensures Reversed(Reversed(s)) == s
  {
    ReversedIndex(s);
    ReversedIndex(Reversed(s));
  }

  /** The history list: one row per entry, newest first. */
  function HistoryView(ts: seq<Transaction>): (rows: seq<Row>)
    ensures |rows| == |ts|
    ensures forall i :: 0 <= i < |ts| ==> rows[i] == RenderRow(ts[|ts| - 1 - i])
  {
    ReversedIndex(ts);
    var newestFirst := Reversed(ts);
    seq(|newestFirst|, i requires 0 <= i < |newestFirst| => RenderRow(newestFirst[i]))
  }

  /** After an entry is appended, it heads the list and the older rows follow unchanged. */
  lemma HistoryAfterAppend(ts: seq<Transaction>, t: Transaction)
    ensures HistoryView(ts + [t]) == [RenderRow(t)] + HistoryView(ts)
  {
    var before, after := HistoryView(ts), HistoryView(ts + [t]);
    forall i | 0 <= i < |after|
      ensures after[i] == ([RenderRow(t)] + before)[i]
    {
      if i > 0 {
        assert (ts + [t])[|ts| - i] == ts[|ts| - 1 - (i - 1)];
      }
    }
  }

  /** A row is tagged '+' exactly for a deposit, and its amount text is formatCurrency's. */
  lemma RowTag(t: Transaction)
    ensures var r := RenderRow(t);
            r.description == t.description && r.date == t.date &&
            (r.positive <==> t.kind == Deposit) &&
            |r.amountText| > 1 && (r.amountText[0] == '+' <==> t.kind == Deposit) && r.amountText[0] in "+-" &&
            RemoveCommas(r.amountText[1..]) == "$" + ToFixed2(t.amount)
  {
    var r := RenderRow(t);
    assert r.amountText[1..] == FormatCurrency(t.amount);
    FormatCurrencyWithoutCommas(t.amount);
  }

  /**
   * updateTransactionHistory: clear the list, then append one row per entry
   * of a reversed copy of the entries. The entries themselves are a value
   * here and are left as they are.
   */
  method RenderHistory(ts: seq<Transaction>) returns (rows: seq<Row>)
    ensures rows == HistoryView(ts)
  {
    rows := [];
    var newestFirst := Reversed(ts);
    ReversedIndex(ts);
    for i := 0 to |newestFirst|
      invariant |rows| == i
      invariant forall j :: 0 <= j < i ==> rows[j] == RenderRow(ts[|ts| - 1 - j])
    {
      rows := rows + [RenderRow(newestFirst[i])];
    }
  }
}
