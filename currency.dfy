/**
 * Rendering of money amounts, `formatCurrency` in bank.js.
 *
 * Amounts are whole cents (a `nat`), so `toFixed(2)` is exact: the dollar
 * part in decimal, a point, and two cent digits. The comma insertion is the
 * regular-expression replacement `/\B(?=(\d{3})+(?!\d))/g` applied to that
 * string, modelled position by position: a comma is inserted at position p
 * when p is not a word boundary and the digits that follow p form one or more
 * complete groups of three.
 */
module Currency {

  predicate IsDigit(c: char) { '0' <= c <= '9' }

  /** The characters a JavaScript regular expression counts as `\w`. */
  predicate IsWordChar(c: char) { IsDigit(c) || 'a' <= c <= 'z' || 'A' <= c <= 'Z' || c == '_' }

  predicate AllDigits(s: string) { forall i :: 0 <= i < |s| ==> IsDigit(s[i]) }

  function DigitChar(d: nat): (c: char)
    requires d < 10
    ensures IsDigit(c)
  {
    ('0' as int + d) as char
  }

  function DigitValue(c: char): (d: nat)
    requires IsDigit(c)
    ensures d < 10
  {
    (c as int - '0' as int) as nat
  }

  /** The decimal numeral of n, without leading zeros. */
  function Decimal(n: nat): (s: string)
    ensures |s| > 0 && AllDigits(s)
    ensures n > 0 ==> s[0] != '0'
    ensures |s| == 1 || s[0] != '0'
    decreases n
  {
    if n < 10 then [DigitChar(n)] else Decimal(n / 10) + [DigitChar(n % 10)]
  }

  /** The number a string of decimal digits denotes. */
  function DecimalValue(s: string): nat
    requires AllDigits(s)
  {
    if s == [] then 0 else DecimalValue(s[..|s| - 1]) * 10 + DigitValue(s[|s| - 1])
  }

  lemma {:induction false} DecimalRoundTrip(n: nat)
    ensures DecimalValue(Decimal(n)) == n
    decreases n
  {
    var s := Decimal(n);
    if n >= 10 {
      DecimalRoundTrip(n / 10);
      assert s[..|s| - 1] == Decimal(n / 10);
    } else {
      assert s[..|s| - 1] == [];
    }
  }

  /** `amount.toFixed(2)` for an amount of `cents / 100` dollars. */
  function ToFixed2(cents: nat): string
  {
    Decimal(cents / 100) + "." + [DigitChar(cents / 10 % 10), DigitChar(cents % 10)]
  }

  /** Reading the toFixed(2) text back gives the amount: it is exact on whole cents. */
  lemma ToFixed2Value(cents: nat)
    ensures var s := ToFixed2(cents);
            |s| >= 4 && s[|s| - 3] == '.' &&
            AllDigits(s[..|s| - 3]) && AllDigits(s[|s| - 2..]) &&
            DecimalValue(s[..|s| - 3]) * 100 + DecimalValue(s[|s| - 2..]) == cents
  {
    var ds := Decimal(cents / 100);
    var ff := [DigitChar(cents / 10 % 10), DigitChar(cents % 10)];
    ToFixed2Parts(ToFixed2(cents), ds, ff);
    DecimalRoundTrip(cents / 100);
    TwoDigitValue(ff);
  }

  /** The dollar digits, the point and the cent digits sit where toFixed(2) puts them. */
  lemma ToFixed2Parts(s: string, ds: string, ff: string)
    requires s == ds + "." + ff && |ff| == 2
    ensures |s| == |ds| + 3 && s[..|s| - 3] == ds && s[|s| - 3] == '.' && s[|s| - 2..] == ff
  {
  }

  lemma TwoDigitValue(ff: string)
    requires |ff| == 2 && AllDigits(ff)
    ensures DecimalValue(ff) == DigitValue(ff[0]) * 10 + DigitValue(ff[1])
  {
    var first := ff[..|ff| - 1];
    assert first == [ff[0]];
    assert first[..|first| - 1] == [];
    assert DecimalValue(first) == DigitValue(ff[0]);
  }

  // ---------------------------------------------------------------------
  // The regular expression /\B(?=(\d{3})+(?!\d))/g, replaced by ','
  // ---------------------------------------------------------------------

  /** `\B` at position p (between s[p - 1] and s[p]): not a word boundary. */
  predicate NotWordBoundary(s: string, p: nat)
    requires p <= |s|
  {
    (p > 0 && IsWordChar(s[p - 1])) == (p < |s| && IsWordChar(s[p]))
  }

  /** Length of the run of digits that starts at position p. */
  function DigitRun(s: string, p: nat): (k: nat)
    requires p <= |s|
    ensures p + k <= |s|
    decreases |s| - p
  {
    if p < |s| && IsDigit(s[p]) then 1 + DigitRun(s, p + 1) else 0
  }

  /** The run is the longest one: all digits, then a non-digit or the end of s. */
  lemma {:induction false} DigitRunMaximal(s: string, p: nat)
    requires p <= |s|
    ensures AllDigits(s[p..p + DigitRun(s, p)])
    ensures p + DigitRun(s, p) == |s| || !IsDigit(s[p + DigitRun(s, p)])
    decreases |s| - p
  {
    if p < |s| && IsDigit(s[p]) {
      DigitRunMaximal(s, p + 1);
      var k := DigitRun(s, p + 1);
      assert s[p..p + 1 + k] == [s[p]] + s[p + 1..p + 1 + k];
    }
  }

  /** The lookahead `(?=(\d{3})+(?!\d))` at position p. */
  predicate ThreeDigitGroupsAhead(s: string, p: nat)
    requires p <= |s|
  {
    DigitRun(s, p) > 0 && DigitRun(s, p) % 3 == 0
  }

  /** The whole pattern matches the empty string at position p. */
  predicate CommaAt(s: string, p: nat)
    requires p <= |s|
  {
    NotWordBoundary(s, p) && ThreeDigitGroupsAhead(s, p)
  }

  /** `s.replace(/\B(?=(\d{3})+(?!\d))/g, ',')`, from position p to the end. */
  function InsertCommas(s: string, p: nat): string
    requires p <= |s|
    decreases |s| - p
  {
    (if CommaAt(s, p) then "," else "") + (if p == |s| then "" else [s[p]] + InsertCommas(s, p + 1))
  }

  /** `formatCurrency(amount)` for an amount of `cents / 100` dollars. */
  function FormatCurrency(cents: nat): string
  {
    "$" + InsertCommas(ToFixed2(cents), 0)
  }

  /** The lookahead read as the regular expression states it: k >= 1 groups of three digits, then no digit. */
  predicate GroupsThenNonDigit(s: string, p: nat, k: nat)
  {
    p + 3 * k <= |s| && AllDigits(s[p..p + 3 * k]) && (p + 3 * k == |s| || !IsDigit(s[p + 3 * k]))
  }

  /** A run of m digits ended by a non-digit or the end of s is the longest run. */
  lemma {:induction false} DigitRunIs(s: string, p: nat, m: nat)
    requires p + m <= |s| && AllDigits(s[p..p + m])
    requires p + m == |s| || !IsDigit(s[p + m])
    ensures DigitRun(s, p) == m
    decreases m
  {
    if m > 0 {
      assert s[p] == s[p..p + m][0];
      assert s[p + 1..p + m] == s[p..p + m][1..];
      DigitRunIs(s, p + 1, m - 1);
    }
  }

  /** The digit-run form of the lookahead agrees with the regular expression's own reading. */
  lemma LookaheadReading(s: string, p: nat)
    requires p <= |s|
    ensures ThreeDigitGroupsAhead(s, p) <==> exists k: nat :: k > 0 && GroupsThenNonDigit(s, p, k)
  {
    var run := DigitRun(s, p);
    DigitRunMaximal(s, p);
    if ThreeDigitGroupsAhead(s, p) {
      assert 3 * (run / 3) == run;
      assert GroupsThenNonDigit(s, p, run / 3);
    }
    if exists k: nat :: k > 0 && GroupsThenNonDigit(s, p, k) {
      var k: nat :| k > 0 && GroupsThenNonDigit(s, p, k);
      DigitRunIs(s, p, 3 * k);
    }
  }

  // ---------------------------------------------------------------------
  // Thousands grouping, counted from the right
  // ---------------------------------------------------------------------

  /** A comma before every group of three digits counted from the right. */
  function Group(ds: string): string
    decreases |ds|
  {
    if |ds| <= 3 then ds else Group(ds[..|ds| - 3]) + "," + ds[|ds| - 3..]
  }

  /** The digits of ds from position p on, each preceded by a comma when a multiple of three digits remain from it. */
  function Interleave(ds: string, p: nat): string
    decreases |ds| - p
  {
    if p >= |ds| then ""
    else (if 0 < p && (|ds| - p) % 3 == 0 then "," else "") + [ds[p]] + Interleave(ds, p + 1)
  }

  lemma {:induction false} InterleaveTail(ds: string, p: nat)
    requires 0 < p <= |ds| < p + 3
    ensures Interleave(ds, p) == ds[p..]
    decreases |ds| - p
  {
    if p < |ds| {
      InterleaveTail(ds, p + 1);
    }
  }

  /** One step of Interleave on the prefix ds[..k] reads the same digit as on ds. */
  lemma InterleavePrefixStep(ds: string, k: nat, p: nat)
    requires p < k <= |ds|
    ensures Interleave(ds[..k], p) == (if 0 < p && (k - p) % 3 == 0 then "," else "") + [ds[p]] + Interleave(ds[..k], p + 1)
  {
    assert ds[..k][p] == ds[p];
  }

  /** Concatenation regrouped around the common head of two strings. */
  lemma SharedHead(c: string, x: string, x': string, y: string, y': string, z: string)
    requires x == c + y && x' == c + y' && y == y' + z
    ensures x == x' + z
  {
    assert x == c + (y' + z);
  }

  lemma {:induction false} InterleaveSplit(ds: string, k: nat, p: nat)
    requires p <= k && k + 3 == |ds|
    ensures Interleave(ds, p) == Interleave(ds[..k], p) + Interleave(ds, k)
    decreases k - p
  {
    if p < k {
      var head := (if 0 < p && (k - p) % 3 == 0 then "," else "") + [ds[p]];
      assert Interleave(ds, p) == head + Interleave(ds, p + 1) by {
        assert (|ds| - p) % 3 == (k - p) % 3;
      }
      InterleavePrefixStep(ds, k, p);
      InterleaveSplit(ds, k, p + 1);
      SharedHead(head, Interleave(ds, p), Interleave(ds[..k], p), Interleave(ds, p + 1), Interleave(ds[..k], p + 1), Interleave(ds, k));
    }
  }

  /** A comma comes before the first of the last three digits. */
  lemma InterleaveAtLastGroup(ds: string)
    requires |ds| > 3
    ensures Interleave(ds, |ds| - 3) == "," + [ds[|ds| - 3]] + Interleave(ds, |ds| - 2)
  {
    var p := |ds| - 3;
    assert 0 < p && |ds| - p == 3 && p + 1 == |ds| - 2;
    assert Interleave(ds, p) == (if 0 < p && 3 % 3 == 0 then "," else "") + [ds[p]] + Interleave(ds, p + 1);
  }

  /** The last two digits are copied as they are. */
  lemma InterleaveLastTwo(ds: string)
    requires |ds| > 3
    ensures Interleave(ds, |ds| - 2) == ds[|ds| - 2..]
  {
    InterleaveTail(ds, |ds| - 2);
  }

  lemma CommaBeforeSuffix(ds: string, x: string)
    requires |ds| > 3
    requires x == "," + [ds[|ds| - 3]] + ds[|ds| - 2..]
    ensures x == "," + ds[|ds| - 3..]
  {
    assert ds[|ds| - 3..] == [ds[|ds| - 3]] + ds[|ds| - 2..];
  }

  /** The last three digits come after a comma. */
  lemma InterleaveLastThree(ds: string)
    requires |ds| > 3
    ensures Interleave(ds, |ds| - 3) == "," + ds[|ds| - 3..]
  {
    InterleaveAtLastGroup(ds);
    InterleaveLastTwo(ds);
    CommaBeforeSuffix(ds, Interleave(ds, |ds| - 3));
  }

  /** Splitting off the last three digits: they follow the rest behind a comma. */
  lemma InterleaveLastGroup(ds: string)
    requires |ds| > 3
    ensures Interleave(ds, 0) == Interleave(ds[..|ds| - 3], 0) + "," + ds[|ds| - 3..]
  {
    InterleaveSplit(ds, |ds| - 3, 0);
    InterleaveLastThree(ds);
    CommaBetween(Interleave(ds[..|ds| - 3], 0), Interleave(ds, |ds| - 3), ds[|ds| - 3..]);
  }

  lemma CommaBetween(x: string, y: string, b: string)
    requires y == "," + b
    ensures x + y == x + "," + b
  {
  }

  lemma {:induction false} InterleaveIsGroup(ds: string)
    ensures Interleave(ds, 0) == Group(ds)
    decreases |ds|
  {
    var n := |ds|;
    if 1 < n <= 3 {
      InterleaveTail(ds, 1);
      assert ds == [ds[0]] + ds[1..];
    } else if n > 3 {
      InterleaveLastGroup(ds);
      InterleaveIsGroup(ds[..n - 3]);
    }
  }

  lemma {:induction false} GroupLength(ds: string)
    requires |ds| > 0
    ensures |Group(ds)| % 4 != 0
    decreases |ds|
  {
    if |ds| > 3 {
      GroupLength(ds[..|ds| - 3]);
    }
  }

  /** The layout of a grouped string at position i: a comma every fourth character from the right, digits elsewhere. */
  predicate LayoutAt(g: string, i: nat)
    requires i < |g|
  {
    if (|g| - i) % 4 == 0 then g[i] == ',' else IsDigit(g[i])
  }

  /** Behind the grouped prefix come a comma and three digits, which follow the layout. */
  lemma LayoutInLastGroup(g: string, h: string, b: string, i: nat)
    requires g == h + "," + b && |b| == 3 && AllDigits(b) && |h| <= i < |g|
    ensures LayoutAt(g, i)
  {
    if i > |h| {
      assert g[i] == b[i - |h| - 1];
    }
  }

  /** Appending a comma and three characters keeps the layout of the prefix. */
  lemma LayoutInPrefix(g: string, h: string, b: string, i: nat)
    requires g == h + "," + b && |b| == 3 && i < |h| && LayoutAt(h, i)
    ensures LayoutAt(g, i)
  {
    assert g[i] == h[i];
    assert |g| - i == (|h| - i) + 4;
  }

  lemma {:induction false} GroupCharAt(ds: string, i: nat)
    requires |ds| > 0 && AllDigits(ds) && i < |Group(ds)|
    ensures LayoutAt(Group(ds), i)
    decreases |ds|
  {
    if |ds| > 3 {
      var a, b := ds[..|ds| - 3], ds[|ds| - 3..];
      assert AllDigits(a) && AllDigits(b) by {
        assert forall j :: 0 <= j < |a| ==> a[j] == ds[j];
        assert forall j :: 0 <= j < |b| ==> b[j] == ds[|ds| - 3 + j];
      }
      assert Group(ds) == Group(a) + "," + b;
      if i < |Group(a)| {
        GroupCharAt(a, i);
        LayoutInPrefix(Group(ds), Group(a), b, i);
      } else {
        LayoutInLastGroup(Group(ds), Group(a), b, i);
      }
    }
  }

  /** Every fourth character counted from the right is a comma, every other one a digit. */
  lemma GroupLayout(ds: string)
    requires |ds| > 0 && AllDigits(ds)
    ensures var g := Group(ds);
            |g| % 4 != 0 &&
            forall i :: 0 <= i < |g| ==> if (|g| - i) % 4 == 0 then g[i] == ',' else IsDigit(g[i])
  {
    GroupLength(ds);
    forall i | 0 <= i < |Group(ds)|
      ensures LayoutAt(Group(ds), i)
    {
      GroupCharAt(ds, i);
    }
  }

  // ---------------------------------------------------------------------
  // Removing the commas again
  // ---------------------------------------------------------------------

  function RemoveCommas(s: string): string
  {
    if s == [] then [] else (if s[0] == ',' then [] else [s[0]]) + RemoveCommas(s[1..])
  }

  lemma {:induction false} RemoveCommasAppend(x: string, y: string)
    ensures RemoveCommas(x + y) == RemoveCommas(x) + RemoveCommas(y)
    decreases |x|
  {
    if x != [] {
      assert (x + y)[1..] == x[1..] + y;
      RemoveCommasAppend(x[1..], y);
    } else {
      assert x + y == y;
    }
  }

  lemma {:induction false} RemoveCommasNoComma(s: string)
    requires forall i :: 0 <= i < |s| ==> s[i] != ','
    ensures RemoveCommas(s) == s
    decreases |s|
  {
    if s != [] {
      RemoveCommasNoComma(s[1..]);
    }
  }

  lemma {:induction false} GroupRemoveCommas(ds: string)
    requires AllDigits(ds)
    ensures RemoveCommas(Group(ds)) == ds
    decreases |ds|
  {
    if |ds| <= 3 {
      RemoveCommasNoComma(ds);
    } else {
      var a, b := ds[..|ds| - 3], ds[|ds| - 3..];
      assert AllDigits(a) && AllDigits(b);
      var g := Group(a);
      assert Group(ds) == (g + ",") + b;
      GroupRemoveCommas(a);
      RemoveCommasComma(g, b);
      assert a + b == ds;
    }
  }

  lemma RemoveCommasComma(g: string, b: string)
    requires AllDigits(b)
    ensures RemoveCommas((g + ",") + b) == RemoveCommas(g) + b
  {
    var x := g + ",";
    var rg := RemoveCommas(g);
    assert RemoveCommas(x) == rg by {
      RemoveCommasAppend(g, ",");
      assert RemoveCommas(",") == [] by { assert ","[1..] == []; }
    }
    assert RemoveCommas(b) == b by { RemoveCommasNoComma(b); }
    RemoveCommasAppend(x, b);
  }

  // ---------------------------------------------------------------------
  // The regular expression on a toFixed(2) string
  // ---------------------------------------------------------------------

  lemma CommaInDollars(s: string, ds: string, ff: string, p: nat)
    requires |ds| > 0 && AllDigits(ds) && |ff| == 2 && AllDigits(ff) && s == ds + "." + ff
    requires p <= |ds|
    ensures CommaAt(s, p) <==> 0 < p < |ds| && (|ds| - p) % 3 == 0
  {
    assert s[|ds|] == '.';
    assert s[p..|ds|] == ds[p..];
    DigitRunIs(s, p, |ds| - p);
    if 0 < p {
      assert s[p - 1] == ds[p - 1];
    }
    assert s[0] == ds[0];
  }

  lemma InsertCommasStep(s: string, ds: string, ff: string, p: nat)
    requires |ds| > 0 && AllDigits(ds) && |ff| == 2 && AllDigits(ff) && s == ds + "." + ff
    requires p < |ds|
    ensures InsertCommas(s, p) == (if 0 < p && (|ds| - p) % 3 == 0 then "," else "") + [ds[p]] + InsertCommas(s, p + 1)
  {
    CommaInDollars(s, ds, ff, p);
    assert s[p] == ds[p];
  }

  lemma {:induction false} InsertCommasInDollars(s: string, ds: string, ff: string, p: nat)
    requires |ds| > 0 && AllDigits(ds) && |ff| == 2 && AllDigits(ff) && s == ds + "." + ff
    requires p <= |ds|
    ensures InsertCommas(s, p) == Interleave(ds, p) + InsertCommas(s, |ds|)
    decreases |ds| - p
  {
    if p < |ds| {
      var c := if 0 < p && (|ds| - p) % 3 == 0 then "," else "";
      var rest := InsertCommas(s, |ds|);
      InsertCommasStep(s, ds, ff, p);
      InsertCommasInDollars(s, ds, ff, p + 1);
      calc {
        InsertCommas(s, p);
        c + [ds[p]] + (Interleave(ds, p + 1) + rest);
        (c + [ds[p]] + Interleave(ds, p + 1)) + rest;
        Interleave(ds, p) + rest;
      }
    }
  }

  lemma NoCommaInCents(s: string, ds: string, ff: string)
    requires |ds| > 0 && AllDigits(ds) && |ff| == 2 && AllDigits(ff) && s == ds + "." + ff
    ensures InsertCommas(s, |ds|) == "." + ff
  {
    var n := |ds|;
    assert s[n] == '.' && s[n + 1] == ff[0] && s[n + 2] == ff[1];
    assert s[n + 1..n + 3] == ff;
    assert s[n + 2..n + 3] == ff[1..];
    DigitRunIs(s, n + 1, 2);
    DigitRunIs(s, n + 2, 1);
    DigitRunIs(s, n, 0);
    assert !CommaAt(s, n + 3) && !CommaAt(s, n + 2) && !CommaAt(s, n + 1) && !CommaAt(s, n);
    assert InsertCommas(s, n + 3) == "";
    assert InsertCommas(s, n + 2) == [ff[1]];
    assert InsertCommas(s, n + 1) == [ff[0], ff[1]];
    assert InsertCommas(s, n) == [s[n]] + InsertCommas(s, n + 1);
  }

  /** formatCurrency puts a comma before every group of three dollar digits counted from the right, and none among the cents. */
  lemma FormatCurrencyGroups(cents: nat)
    ensures FormatCurrency(cents) == "$" + Group(Decimal(cents / 100)) + "." + [DigitChar(cents / 10 % 10), DigitChar(cents % 10)]
  {
    var ds := Decimal(cents / 100);
    var ff := [DigitChar(cents / 10 % 10), DigitChar(cents % 10)];
    var s := ToFixed2(cents);
    InsertCommasInDollars(s, ds, ff, 0);
    NoCommaInCents(s, ds, ff);
    InterleaveIsGroup(ds);
  }

  /** Deleting the commas from formatCurrency's text leaves '$' and the toFixed(2) text. */
  lemma FormatCurrencyWithoutCommas(cents: nat)
    ensures RemoveCommas(FormatCurrency(cents)) == "$" + ToFixed2(cents)
  {
    var ds := Decimal(cents / 100);
    var ff := [DigitChar(cents / 10 % 10), DigitChar(cents % 10)];
    var g := Group(ds);
    calc {
      RemoveCommas(FormatCurrency(cents));
      { FormatCurrencyGroups(cents);
        assert FormatCurrency(cents) == "$" + (g + ("." + ff)); }
      RemoveCommas("$" + (g + ("." + ff)));
      { RemoveCommasAppend("$", g + ("." + ff)); RemoveCommasNoComma("$"); }
      "$" + RemoveCommas(g + ("." + ff));
      { RemoveCommasAppend(g, "." + ff); }
      "$" + (RemoveCommas(g) + RemoveCommas("." + ff));
      { GroupRemoveCommas(ds); RemoveCommasNoComma("." + ff); }
      "$" + (ds + ("." + ff));
      { assert ToFixed2(cents) == ds + ("." + ff); }
      "$" + ToFixed2(cents);
    }
  }

  /** A digit followed by zeros: each extra zero is one more trailing '0'. */
  lemma DecimalTimesTen(n: nat, s: string)
    requires 0 < n && Decimal(n) == s
    ensures Decimal(n * 10) == s + "0"
  {
    assert (n * 10) / 10 == n && (n * 10) % 10 == 0;
    assert DigitChar(0) == '0';
  }

  lemma DecimalThousands(d: nat)
    requires 1 <= d <= 9
    ensures Decimal(d * 1000) == [DigitChar(d)] + "000"
  {
    var n1, n2 := d * 10, d * 100;
    assert n2 == n1 * 10 && d * 1000 == n2 * 10;
    var s0 := [DigitChar(d)];
    var s1, s2 := s0 + "0", s0 + "00";
    assert s2 == s1 + "0" && s0 + "000" == s2 + "0";
    DecimalTimesTen(d, s0);
    DecimalTimesTen(n1, s1);
    DecimalTimesTen(n2, s2);
  }

  /** Four digits are grouped as one digit, a comma, and three digits. */
  lemma GroupFour(ds: string)
    requires |ds| == 4
    ensures Group(ds) == [ds[0]] + "," + ds[1..]
  {
    assert ds[..1] == [ds[0]];
  }

  /** The text formatCurrency gives for a whole number of thousands of dollars below ten thousand. */
  lemma FormatCurrencyThousands(cents: nat, d: nat)
    requires 1 <= d <= 9 && cents == d * 100000
    ensures FormatCurrency(cents) == "$" + [DigitChar(d)] + ",000.00"
  {
    assert cents / 100 == d * 1000;
    assert cents / 10 % 10 == 0 && cents % 10 == 0;
    assert DigitChar(0) == '0';
    var ds := [DigitChar(d)] + "000";
    DecimalThousands(d);
    GroupFour(ds);
    assert Group(ds) == [DigitChar(d)] + ",000";
    FormatCurrencyGroups(cents);
  }
}
