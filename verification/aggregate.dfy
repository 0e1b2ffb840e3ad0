/** The derived views of the ledger: the balance, the spending per
    category and the running balance per month. All three are recomputed
    from the whole collection. */
module Aggregate {
  import opened Ledger
  import opened DateSort

  // ---------------------------------------------------------------------------
  // Balance
  // ---------------------------------------------------------------------------

  /** The sum of all amounts, the reference the balance is checked against. */
  function Balance(txs: seq<Tx>): int {
    if |txs| == 0 then 0 else txs[0].amount + Balance(txs[1..])
  }

  lemma {:induction false} BalanceAppend(a: seq<Tx>, b: seq<Tx>)
    ensures Balance(a + b) == Balance(a) + Balance(b)
    decreases |a|
  {
    if |a| == 0 {
      assert a + b == b;
    } else {
      assert (a + b)[1..] == a[1..] + b;
      BalanceAppend(a[1..], b);
    }
  }

  /** The balance as the reducer computes it: a running sum from 0 over the
      records in stored order. */
  method ComputeBalance(txs: seq<Tx>) returns (sum: int)
    ensures sum == Balance(txs)
    ensures txs == [] ==> sum == 0
  {
    sum := 0;
    var i := 0;
    while i < |txs|
      invariant 0 <= i <= |txs|
      invariant sum == Balance(txs[..i])
    {
      assert txs[..i + 1] == txs[..i] + [txs[i]];
      BalanceAppend(txs[..i], [txs[i]]);
      sum := sum + txs[i].amount;
      i := i + 1;
    }
    assert txs[..i] == txs;
  }

  // ---------------------------------------------------------------------------
  // Category totals
  // ---------------------------------------------------------------------------

  /** The name a record is counted under: its category, or "Other" when the
      category is empty. */
  function CategoryLabel(category: string): (name: string)
    ensures name != ""
    ensures category == "" ==> name == "Other"
    ensures category != "" ==> name == category
  {
    if category == "" then "Other" else category
  }

  /** What a record contributes to its category's total: the magnitude of a
      negative amount, nothing for income. */
  function Spending(t: Tx): (v: nat)
    ensures t.amount < 0 ==> v == -t.amount
    ensures t.amount >= 0 ==> v == 0
  {
    if t.amount < 0 then -t.amount else 0
  }

  /** The reference total for one name: the summed spending of the records
      counted under it. */
  function CategorySpend(txs: seq<Tx>, name: string): nat {
    if |txs| == 0 then 0
    else (if CategoryLabel(txs[0].category) == name then Spending(txs[0]) else 0)
         + CategorySpend(txs[1..], name)
  }

  /** The names the records are counted under. */
  function CategoryLabels(txs: seq<Tx>): set<string> {
    if |txs| == 0 then {} else {CategoryLabel(txs[0].category)} + CategoryLabels(txs[1..])
  }

  /** A name is among the labels exactly when some record is counted under
      it. */
  lemma {:induction false} CategoryLabelsMembers(txs: seq<Tx>, name: string)
    ensures name in CategoryLabels(txs)
        <==> exists i | 0 <= i < |txs| :: CategoryLabel(txs[i].category) == name
    decreases |txs|
  {
    if |txs| > 0 {
      CategoryLabelsMembers(txs[1..], name);
      if name in CategoryLabels(txs[1..]) {
        var i :| 0 <= i < |txs[1..]| && CategoryLabel(txs[1..][i].category) == name;
        assert txs[i + 1] == txs[1..][i];
      }
      if i :| 0 < i < |txs| && CategoryLabel(txs[i].category) == name {
        assert txs[1..][i - 1] == txs[i];
      }
    }
  }

  /** One pass over the records in stored order, adding each record's
      spending to the entry for its name (creating the entry at 0). */
  function CategoryFold(txs: seq<Tx>, acc: map<string, int>): map<string, int> {
    if |txs| == 0 then acc
    else
      var name := CategoryLabel(txs[0].category);
      var before := if name in acc then acc[name] else 0;
      CategoryFold(txs[1..], acc[name := before + Spending(txs[0])])
  }

  /** The spending-by-category view. */
  function CategoryTotals(txs: seq<Tx>): map<string, int> {
    CategoryFold(txs, map[])
  }

  lemma {:induction false} CategoryFoldAt(txs: seq<Tx>, acc: map<string, int>, name: string)
    ensures name in CategoryFold(txs, acc) <==> name in acc || name in CategoryLabels(txs)
    ensures name in CategoryFold(txs, acc) ==>
      CategoryFold(txs, acc)[name] == (if name in acc then acc[name] else 0) + CategorySpend(txs, name)
    decreases |txs|
  {
    if |txs| > 0 {
      var head := CategoryLabel(txs[0].category);
      var before := if head in acc then acc[head] else 0;
      CategoryFoldAt(txs[1..], acc[head := before + Spending(txs[0])], name);
    }
  }

  /** The totals have an entry for a name exactly when some record is
      counted under it, and the entry is the summed spending under that
      name, never negative. */
  lemma CategoryTotalsSpec(txs: seq<Tx>, name: string)
    ensures name in CategoryTotals(txs)
        <==> exists i | 0 <= i < |txs| :: CategoryLabel(txs[i].category) == name
    ensures name in CategoryTotals(txs) ==>
      CategoryTotals(txs)[name] == CategorySpend(txs, name) && CategoryTotals(txs)[name] >= 0
  {
    CategoryFoldAt(txs, map[], name);
    CategoryLabelsMembers(txs, name);
  }

  lemma {:induction false} CategorySpendIncomeOnly(txs: seq<Tx>, name: string)
    requires forall i | 0 <= i < |txs| && CategoryLabel(txs[i].category) == name :: txs[i].amount >= 0
    ensures CategorySpend(txs, name) == 0
    decreases |txs|
  {
    if |txs| > 0 {
      assert forall i | 0 <= i < |txs[1..]| :: txs[1..][i] == txs[i + 1];
      CategorySpendIncomeOnly(txs[1..], name);
    }
  }

  /** A name under which only income was filed still has an entry, at 0. */
  /** A record with no category is counted under "Other", alongside any
      record whose category is literally "Other". */
  lemma CategoryOther(txs: seq<Tx>, k: int)
    requires 0 <= k < |txs| && txs[k].category == ""
    ensures "Other" in CategoryTotals(txs)
    ensures CategoryTotals(txs)["Other"] == CategorySpend(txs, "Other")
  {
    CategoryTotalsSpec(txs, "Other");
  }

  lemma CategoryIncomeOnly(txs: seq<Tx>, k: int)
    requires 0 <= k < |txs|
    requires forall i | 0 <= i < |txs| && CategoryLabel(txs[i].category) == CategoryLabel(txs[k].category) ::
      txs[i].amount >= 0
    ensures CategoryLabel(txs[k].category) in CategoryTotals(txs)
    ensures CategoryTotals(txs)[CategoryLabel(txs[k].category)] == 0
  {
    var name := CategoryLabel(txs[k].category);
    CategoryTotalsSpec(txs, name);
    CategorySpendIncomeOnly(txs, name);
  }

  /** A spending of 50 and an income of 200 in the same category total 50. */
  lemma CategoryExample(d: Date)
    ensures CategoryTotals([Tx(1, "Lunch", -50, "Food", d), Tx(2, "Refund", 200, "Food", d)])
         == map["Food" := 50]
  {
    var t1, t2 := Tx(1, "Lunch", -50, "Food", d), Tx(2, "Refund", 200, "Food", d);
    assert [t1, t2][1..] == [t2];
    assert [t2][1..] == [];
    assert CategoryTotals([t1, t2]) == CategoryFold([t2], map["Food" := 50]);
    assert CategoryFold([t2], map["Food" := 50]) == map["Food" := 50]["Food" := 50 + 0];
  }

  // ---------------------------------------------------------------------------
  // Monthly running balance
  // ---------------------------------------------------------------------------

  /** The reference for a month's value: the summed amounts of the records
      dated in that month or earlier. */
  function SumUpToMonth(txs: seq<Tx>, month: int): int {
    if |txs| == 0 then 0
    else (if MonthIndex(txs[0].date) <= month then txs[0].amount else 0) + SumUpToMonth(txs[1..], month)
  }

  /** A labelling of dates that gives two dates the same label exactly when
      they fall in the same month, as MonthKey does. The fold below is
      stated for any such labelling. */
  ghost predicate SeparatesMonths(keyOf: Date -> string) {
    forall a: Date, b: Date ::
      keyOf(a) == keyOf(b) <==> MonthIndex(a) == MonthIndex(b)
  }

  lemma MonthKeySeparatesMonths()
    ensures SeparatesMonths(MonthKey)
  {
    forall a: Date, b: Date
      ensures MonthKey(a) == MonthKey(b) <==> MonthIndex(a) == MonthIndex(b)
    {
      MonthKeySameMonth(a, b);
    }
  }

  /** The labels of the records' dates. */
  function Buckets(txs: seq<Tx>, keyOf: Date -> string): set<string> {
    if |txs| == 0 then {} else {keyOf(txs[0].date)} + Buckets(txs[1..], keyOf)
  }

  lemma {:induction false} BucketsMembers(txs: seq<Tx>, keyOf: Date -> string, k: string)
    ensures k in Buckets(txs, keyOf) <==> exists i | 0 <= i < |txs| :: keyOf(txs[i].date) == k
    decreases |txs|
  {
    if |txs| > 0 {
      BucketsMembers(txs[1..], keyOf, k);
      if k in Buckets(txs[1..], keyOf) {
        var i :| 0 <= i < |txs[1..]| && keyOf(txs[1..][i].date) == k;
        assert txs[i + 1] == txs[1..][i];
      }
      if i :| 0 < i < |txs| && keyOf(txs[i].date) == k {
        assert txs[1..][i - 1] == txs[i];
      }
    }
  }

  /** One pass over date-sorted records keeping a running sum, writing the
      sum so far under each record's label (a later record with the same
      label overwrites the entry). */
  function MonthlyFold(txs: seq<Tx>, keyOf: Date -> string, running: int, acc: map<string, int>): map<string, int> {
    if |txs| == 0 then acc
    else
      var r := running + txs[0].amount;
      MonthlyFold(txs[1..], keyOf, r, acc[keyOf(txs[0].date) := r])
  }

  /** The balance-over-time view: the records sorted oldest first, then
      folded under their "YYYY-MM" labels. */
  function MonthlyBalances(txs: seq<Tx>): map<string, int> {
    MonthlyFold(Sort(txs, Ascending), MonthKey, 0, map[])
  }

  lemma {:induction false} MonthlyFoldKeys(txs: seq<Tx>, keyOf: Date -> string, running: int, acc: map<string, int>)
    ensures MonthlyFold(txs, keyOf, running, acc).Keys == acc.Keys + Buckets(txs, keyOf)
    decreases |txs|
  {
    if |txs| > 0 {
      var r := running + txs[0].amount;
      MonthlyFoldKeys(txs[1..], keyOf, r, acc[keyOf(txs[0].date) := r]);
    }
  }

  /** An entry no record's label writes to keeps its value. */
  lemma {:induction false} MonthlyFoldUntouched(txs: seq<Tx>, keyOf: Date -> string, running: int,
                                                acc: map<string, int>, k: string)
    requires k in acc && k !in Buckets(txs, keyOf)
    ensures k in MonthlyFold(txs, keyOf, running, acc)
    ensures MonthlyFold(txs, keyOf, running, acc)[k] == acc[k]
    decreases |txs|
  {
    if |txs| > 0 {
      var r := running + txs[0].amount;
      MonthlyFoldUntouched(txs[1..], keyOf, r, acc[keyOf(txs[0].date) := r], k);
    }
  }

  /** A label ends up holding the running sum as of the last record that
      writes it. */
  lemma {:induction false} MonthlyFoldLast(txs: seq<Tx>, keyOf: Date -> string, running: int,
                                           acc: map<string, int>, j: int)
    requires 0 <= j < |txs|
    requires keyOf(txs[j].date) !in Buckets(txs[j + 1..], keyOf)
    ensures keyOf(txs[j].date) in MonthlyFold(txs, keyOf, running, acc)
    ensures MonthlyFold(txs, keyOf, running, acc)[keyOf(txs[j].date)] == running + Balance(txs[..j + 1])
    decreases |txs|
  {
    var r := running + txs[0].amount;
    var acc' := acc[keyOf(txs[0].date) := r];
    var tail := txs[1..];
    if j == 0 {
      assert txs[..1][1..] == [];
      MonthlyFoldUntouched(tail, keyOf, r, acc', keyOf(txs[0].date));
    } else {
      assert tail[j - 1] == txs[j];
      assert tail[j..] == txs[j + 1..];
      assert txs[..j + 1][1..] == tail[..j];
      MonthlyFoldLast(tail, keyOf, r, acc', j - 1);
    }
  }

  predicate MonthSorted(txs: seq<Tx>) {
    forall i, j :: 0 <= i < j < |txs| ==> MonthIndex(txs[i].date) <= MonthIndex(txs[j].date)
  }

  lemma DateSortedIsMonthSorted(txs: seq<Tx>)
    requires SortedBy(txs, Ascending)
    ensures MonthSorted(txs)
  {
    SortedPairwise(txs, Ascending);
    forall i, j | 0 <= i < j < |txs|
      ensures MonthIndex(txs[i].date) <= MonthIndex(txs[j].date)
    {
      DateKeyMonotoneInMonth(txs[i].date, txs[j].date);
    }
  }

  /** The index of the last record in the run of records sharing s[i]'s
      month. */
  function LastOfMonth(s: seq<Tx>, i: nat): (j: nat)
    requires i < |s|
    ensures i <= j < |s| && MonthIndex(s[j].date) == MonthIndex(s[i].date)
    ensures j + 1 == |s| || MonthIndex(s[j + 1].date) != MonthIndex(s[i].date)
    decreases |s| - i
  {
    if i + 1 < |s| && MonthIndex(s[i + 1].date) == MonthIndex(s[i].date) then LastOfMonth(s, i + 1) else i
  }

  lemma {:induction false} SumUpToMonthAppend(a: seq<Tx>, b: seq<Tx>, month: int)
    ensures SumUpToMonth(a + b, month) == SumUpToMonth(a, month) + SumUpToMonth(b, month)
    decreases |a|
  {
    if |a| == 0 {
      assert a + b == b;
    } else {
      assert (a + b)[1..] == a[1..] + b;
      SumUpToMonthAppend(a[1..], b, month);
    }
  }

  /** Records from lo on, all in later months, add nothing to the month. */
  lemma {:induction false} SumUpToMonthNone(s: seq<Tx>, lo: int, month: int)
    requires 0 <= lo <= |s|
    requires forall i | lo <= i < |s| :: MonthIndex(s[i].date) > month
    ensures SumUpToMonth(s[lo..], month) == 0
    decreases |s| - lo
  {
    if lo < |s| {
      assert s[lo..][1..] == s[lo + 1..];
      SumUpToMonthNone(s, lo + 1, month);
    }
  }

  /** Records before hi, all in the month or earlier, all count. */
  lemma {:induction false} SumUpToMonthAll(s: seq<Tx>, hi: int, month: int)
    requires 0 <= hi <= |s|
    requires forall i | 0 <= i < hi :: MonthIndex(s[i].date) <= month
    ensures SumUpToMonth(s[..hi], month) == Balance(s[..hi])
    decreases hi
  {
    if hi > 0 {
      SumUpToMonthAll(s, hi - 1, month);
      assert s[..hi] == s[..hi - 1] + [s[hi - 1]];
      SumUpToMonthAppend(s[..hi - 1], [s[hi - 1]], month);
      BalanceAppend(s[..hi - 1], [s[hi - 1]]);
    }
  }

  /** Records all in the month or earlier sum to their balance. */
  lemma SumUpToMonthEvery(s: seq<Tx>, month: int)
    requires forall i | 0 <= i < |s| :: MonthIndex(s[i].date) <= month
    ensures SumUpToMonth(s, month) == Balance(s)
  {
    SumUpToMonthAll(s, |s|, month);
    assert s[..|s|] == s;
  }

  /** In month-sorted records, everything after the last record of a month
      lies in a later month. */
  lemma AfterMonth(s: seq<Tx>, j: int)
    requires MonthSorted(s) && 0 <= j < |s|
    requires j + 1 == |s| || MonthIndex(s[j + 1].date) != MonthIndex(s[j].date)
    ensures forall i | j < i < |s| :: MonthIndex(s[i].date) > MonthIndex(s[j].date)
  {
    forall i | j < i < |s|
      ensures MonthIndex(s[i].date) > MonthIndex(s[j].date)
    {
      assert MonthIndex(s[j + 1].date) <= MonthIndex(s[i].date);
    }
  }

  /** In month-sorted records, the last record of a month splits them into
      everything up to that month and everything after it. */
  lemma MonthSplitSum(s: seq<Tx>, j: int)
    requires MonthSorted(s) && 0 <= j < |s|
    requires j + 1 == |s| || MonthIndex(s[j + 1].date) != MonthIndex(s[j].date)
    ensures SumUpToMonth(s, MonthIndex(s[j].date)) == Balance(s[..j + 1])
  {
    var m := MonthIndex(s[j].date);
    assert SumUpToMonth(s[..j + 1], m) == Balance(s[..j + 1]) by {
      assert forall i | 0 <= i < j + 1 :: MonthIndex(s[i].date) <= m;
      SumUpToMonthAll(s, j + 1, m);
    }
    assert SumUpToMonth(s[j + 1..], m) == 0 by {
      AfterMonth(s, j);
      SumUpToMonthNone(s, j + 1, m);
    }
    SumUpToMonthSplit(s, j + 1, m);
  }

  lemma SumUpToMonthSplit(s: seq<Tx>, k: int, month: int)
    requires 0 <= k <= |s|
    ensures SumUpToMonth(s, month) == SumUpToMonth(s[..k], month) + SumUpToMonth(s[k..], month)
  {
    assert s == s[..k] + s[k..];
    SumUpToMonthAppend(s[..k], s[k..], month);
  }

  /** No record after the last one of a month carries that month's label. */
  lemma MonthSplitLabel(s: seq<Tx>, keyOf: Date -> string, j: int)
    requires SeparatesMonths(keyOf)
    requires MonthSorted(s) && 0 <= j < |s|
    requires j + 1 == |s| || MonthIndex(s[j + 1].date) != MonthIndex(s[j].date)
    ensures keyOf(s[j].date) !in Buckets(s[j + 1..], keyOf)
  {
    var back := s[j + 1..];
    AfterMonth(s, j);
    BucketsMembers(back, keyOf, keyOf(s[j].date));
    forall i | 0 <= i < |back|
      ensures keyOf(back[i].date) != keyOf(s[j].date)
    {
      assert back[i] == s[j + 1 + i];
    }
  }

  lemma {:induction false} SumUpToMonthInsert(x: Tx, txs: seq<Tx>, dir: Direction, month: int)
    requires SortedBy(txs, dir)
    ensures SumUpToMonth(Insert(x, txs, dir), month) == SumUpToMonth([x] + txs, month)
    decreases |txs|
  {
    if |txs| > 0 && Rank(x, dir) > Rank(txs[0], dir) {
      InsertPast(x, txs, dir);
      SumUpToMonthInsert(x, txs[1..], dir, month);
      assert ([txs[0]] + Insert(x, txs[1..], dir))[1..] == Insert(x, txs[1..], dir);
      assert ([x] + ([txs[0]] + txs[1..]))[1..] == [txs[0]] + txs[1..];
      assert ([x] + txs[1..])[1..] == txs[1..];
    }
  }

  lemma {:induction false} SumUpToMonthSort(txs: seq<Tx>, dir: Direction, month: int)
    ensures SumUpToMonth(Sort(txs, dir), month) == SumUpToMonth(txs, month)
    decreases |txs|
  {
    if |txs| > 0 {
      SumUpToMonthSort(txs[1..], dir, month);
      SumUpToMonthInsert(txs[0], Sort(txs[1..], dir), dir, month);
      assert ([txs[0]] + Sort(txs[1..], dir))[1..] == Sort(txs[1..], dir);
    }
  }

  lemma {:induction false} BucketsInsert(x: Tx, txs: seq<Tx>, dir: Direction, keyOf: Date -> string, k: string)
    requires SortedBy(txs, dir)
    ensures k in Buckets(Insert(x, txs, dir), keyOf) <==> k == keyOf(x.date) || k in Buckets(txs, keyOf)
    decreases |txs|
  {
    if |txs| == 0 {
    } else if Rank(x, dir) <= Rank(txs[0], dir) {
      assert ([x] + txs)[1..] == txs;
    } else {
      var rest := Insert(x, txs[1..], dir);
      InsertPast(x, txs, dir);
      BucketsInsert(x, txs[1..], dir, keyOf, k);
      assert ([txs[0]] + rest)[1..] == rest;
    }
  }

  lemma {:induction false} BucketsSort(txs: seq<Tx>, dir: Direction, keyOf: Date -> string, k: string)
    ensures k in Buckets(Sort(txs, dir), keyOf) <==> k in Buckets(txs, keyOf)
    decreases |txs|
  {
    if |txs| > 0 {
      BucketsSort(txs[1..], dir, keyOf, k);
      BucketsInsert(txs[0], Sort(txs[1..], dir), dir, keyOf, k);
    }
  }

  /** Where a record ends up after sorting. */
  lemma PositionInSort(txs: seq<Tx>, dir: Direction, i: int) returns (p: int)
    requires 0 <= i < |txs|
    ensures 0 <= p < |Sort(txs, dir)| && Sort(txs, dir)[p] == txs[i]
  {
    var sorted := Sort(txs, dir);
    assert txs[i] in multiset(txs);
    assert txs[i] in multiset(sorted);
    p :| 0 <= p < |sorted| && sorted[p] == txs[i];
  }

  /** Folding the date-sorted records under a month-separating labelling
      leaves, under each record's label, the summed amounts of everything
      dated in that month or earlier. */
  lemma SortedFoldValue(txs: seq<Tx>, keyOf: Date -> string, i: int)
    requires SeparatesMonths(keyOf) && 0 <= i < |txs|
    ensures keyOf(txs[i].date) in MonthlyFold(Sort(txs, Ascending), keyOf, 0, map[])
    ensures MonthlyFold(Sort(txs, Ascending), keyOf, 0, map[])[keyOf(txs[i].date)]
         == SumUpToMonth(txs, MonthIndex(txs[i].date))
  {
    var sorted := Sort(txs, Ascending);
    var p := PositionInSort(txs, Ascending, i);
    DateSortedIsMonthSorted(sorted);
    var j := LastOfMonth(sorted, p);
    MonthSortedFoldAt(sorted, keyOf, j);
    assert keyOf(sorted[j].date) == keyOf(txs[i].date);
    SumUpToMonthSort(txs, Ascending, MonthIndex(txs[i].date));
  }

  /** Folding month-sorted records leaves, under the label of the last
      record of a month, the sum of everything up to that month. */
  lemma MonthSortedFoldAt(s: seq<Tx>, keyOf: Date -> string, j: int)
    requires SeparatesMonths(keyOf) && MonthSorted(s) && 0 <= j < |s|
    requires j + 1 == |s| || MonthIndex(s[j + 1].date) != MonthIndex(s[j].date)
    ensures keyOf(s[j].date) in MonthlyFold(s, keyOf, 0, map[])
    ensures MonthlyFold(s, keyOf, 0, map[])[keyOf(s[j].date)] == SumUpToMonth(s, MonthIndex(s[j].date))
  {
    MonthSplitSum(s, j);
    MonthSplitLabel(s, keyOf, j);
    MonthlyFoldLast(s, keyOf, 0, map[], j);
  }

  /** The monthly view has an entry for a label exactly when some record
      falls in that month: none for an empty collection, no filled-in
      gaps. */
  lemma MonthlyBalancesKeys(txs: seq<Tx>, k: string)
    ensures k in MonthlyBalances(txs) <==> exists i | 0 <= i < |txs| :: MonthKey(txs[i].date) == k
    ensures txs == [] ==> MonthlyBalances(txs) == map[]
  {
    MonthlyFoldKeys(Sort(txs, Ascending), MonthKey, 0, map[]);
    BucketsSort(txs, Ascending, MonthKey, k);
    BucketsMembers(txs, MonthKey, k);
  }

  /** A record's month entry holds the balance of everything dated in that
      month or earlier. */
  lemma MonthlyBalancesValue(txs: seq<Tx>, i: int)
    requires 0 <= i < |txs|
    ensures MonthKey(txs[i].date) in MonthlyBalances(txs)
    ensures MonthlyBalances(txs)[MonthKey(txs[i].date)] == SumUpToMonth(txs, MonthIndex(txs[i].date))
  {
    MonthKeySeparatesMonths();
    SortedFoldValue(txs, MonthKey, i);
  }

  /** The entry of the latest month is the balance. */
  lemma MonthlyBalancesLatest(txs: seq<Tx>, i: int)
    requires 0 <= i < |txs|
    requires forall k | 0 <= k < |txs| :: MonthIndex(txs[k].date) <= MonthIndex(txs[i].date)
    ensures MonthKey(txs[i].date) in MonthlyBalances(txs)
    ensures MonthlyBalances(txs)[MonthKey(txs[i].date)] == Balance(txs)
  {
    MonthlyBalancesValue(txs, i);
    SumUpToMonthEvery(txs, MonthIndex(txs[i].date));
  }
}
