/** Stable sorting of transactions by date, the way Array.prototype.sort
    orders a copy of the collection with a date-difference comparator:
    ascending for the monthly running balance, descending for the
    displayed list. Records on the same day keep their relative order. */
module DateSort {
  import opened Ledger

  datatype Direction = Ascending | Descending

  /** The comparator's view of a record: ascending compares date keys,
      descending compares their negation. */
  function Rank(t: Tx, dir: Direction): int {
    if dir == Ascending then DateKey(t.date) else -DateKey(t.date)
  }

  /** Each record ranks no higher than the one after it. */
  predicate SortedBy(s: seq<Tx>, dir: Direction) {
    |s| < 2 || (Rank(s[0], dir) <= Rank(s[1], dir) && SortedBy(s[1..], dir))
  }

  /** In a sorted sequence every record ranks no higher than any later one. */
  lemma {:induction false} SortedPairwise(s: seq<Tx>, dir: Direction)
    requires SortedBy(s, dir)
    ensures forall i, j :: 0 <= i < j < |s| ==> Rank(s[i], dir) <= Rank(s[j], dir)
  {
    if |s| >= 2 {
      SortedPairwise(s[1..], dir);
      forall i, j | 0 <= i < j < |s|
        ensures Rank(s[i], dir) <= Rank(s[j], dir)
      {
        if i > 0 {
          assert s[i] == s[1..][i - 1] && s[j] == s[1..][j - 1];
        } else if j > 1 {
          assert s[1] == s[1..][0] && s[j] == s[1..][j - 1];
        }
      }
    }
  }

  /** A sequence whose every record ranks no higher than any later one is
      sorted. */
  lemma {:induction false} PairwiseSorted(s: seq<Tx>, dir: Direction)
    requires forall i, j :: 0 <= i < j < |s| ==> Rank(s[i], dir) <= Rank(s[j], dir)
    ensures SortedBy(s, dir)
  {
    if |s| >= 2 {
      assert forall i, j :: 0 <= i < j < |s[1..]| ==> s[1..][i] == s[i + 1] && s[1..][j] == s[j + 1];
      PairwiseSorted(s[1..], dir);
    }
  }

  /** The records of s dated d, in their order in s. */
  function OnDate(s: seq<Tx>, d: Date): seq<Tx> {
    if |s| == 0 then []
    else (if s[0].date == d then [s[0]] else []) + OnDate(s[1..], d)
  }

  /** Equal ranks mean equal dates. */
  lemma RankSameDate(a: Tx, b: Tx, dir: Direction)
    ensures Rank(a, dir) == Rank(b, dir) <==> a.date == b.date
  {
    DateKeyOrder(a.date, b.date);
  }

  /** Places x in front of the first record that does not rank below it. */
  function Insert(x: Tx, s: seq<Tx>, dir: Direction): (r: seq<Tx>)
    requires SortedBy(s, dir)
    ensures SortedBy(r, dir)
    ensures multiset(r) == multiset(s) + multiset{x}
    ensures r[0] == x || r[0] == s[0]
  {
    if |s| == 0 then [x]
    else if Rank(x, dir) <= Rank(s[0], dir) then [x] + s
    else
      var rest := Insert(x, s[1..], dir);
      assert s == [s[0]] + s[1..];
      assert ([s[0]] + rest)[1..] == rest;
      assert ([s[0]] + rest)[1] == rest[0];
      assert multiset([s[0]] + rest) == multiset{s[0]} + multiset(rest);
      [s[0]] + rest
  }

  /** The collection in date order, same-day records in their original
      order: a sorted permutation of s. */
  function Sort(s: seq<Tx>, dir: Direction): (r: seq<Tx>)
    ensures SortedBy(r, dir)
    ensures multiset(r) == multiset(s)
  {
    if |s| == 0 then []
    else
      assert s == [s[0]] + s[1..];
      Insert(s[0], Sort(s[1..], dir), dir)
  }

  lemma OnDateCons(t: Tx, s: seq<Tx>, d: Date)
    ensures OnDate([t] + s, d) == (if t.date == d then [t] else []) + OnDate(s, d)
  {
    assert ([t] + s)[1..] == s;
  }

  lemma SwapAroundEmpty(a: seq<Tx>, b: seq<Tx>, t: seq<Tx>)
    requires a == [] || b == []
    ensures a + (b + t) == b + (a + t)
  {
    if a == [] {
      assert a + (b + t) == b + t;
      assert a + t == t;
    } else {
      assert b + (a + t) == a + t;
      assert b + t == t;
    }
  }

  lemma {:induction false} OnDateInsert(x: Tx, s: seq<Tx>, dir: Direction, d: Date)
    requires SortedBy(s, dir)
    ensures OnDate(Insert(x, s, dir), d) == OnDate([x] + s, d)
    decreases |s|
  {
    if |s| > 0 && Rank(x, dir) > Rank(s[0], dir) {
      InsertPast(x, s, dir);
      OnDateInsert(x, s[1..], dir, d);
      OnDatePassOver(x, s[0], s[1..], Insert(x, s[1..], dir), dir, d);
    }
  }

  /** A record ranking above the first one is inserted into the rest. */
  lemma InsertPast(x: Tx, s: seq<Tx>, dir: Direction)
    requires SortedBy(s, dir) && |s| > 0 && Rank(x, dir) > Rank(s[0], dir)
    ensures SortedBy(s[1..], dir)
    ensures Insert(x, s, dir) == [s[0]] + Insert(x, s[1..], dir)
    ensures [x] + s == [x] + ([s[0]] + s[1..])
  {
    assert [s[0]] + s[1..] == s;
  }

  /** Moving x past a record of another date does not change the order of
      either date's records. */
  lemma OnDatePassOver(x: Tx, y: Tx, tail: seq<Tx>, rest: seq<Tx>, dir: Direction, d: Date)
    requires Rank(x, dir) > Rank(y, dir)
    requires OnDate(rest, d) == OnDate([x] + tail, d)
    ensures OnDate([y] + rest, d) == OnDate([x] + ([y] + tail), d)
  {
    var hy := if y.date == d then [y] else [];
    var hx := if x.date == d then [x] else [];
    calc {
      OnDate([y] + rest, d);
      { OnDateCons(y, rest, d); }
      hy + OnDate(rest, d);
      { OnDateCons(x, tail, d); }
      hy + (hx + OnDate(tail, d));
      { RankSameDate(x, y, dir); SwapAroundEmpty(hy, hx, OnDate(tail, d)); }
      hx + (hy + OnDate(tail, d));
      { OnDateCons(y, tail, d); }
      hx + OnDate([y] + tail, d);
      { OnDateCons(x, [y] + tail, d); }
      OnDate([x] + ([y] + tail), d);
    }
  }

  /** Sorting is stable: for every date, the records on that date appear
      in the result in exactly their original order. */
  lemma {:induction false} SortStable(s: seq<Tx>, dir: Direction, d: Date)
    ensures OnDate(Sort(s, dir), d) == OnDate(s, d)
    decreases |s|
  {
    if |s| > 0 {
      SortStable(s[1..], dir, d);
      OnDateInsert(s[0], Sort(s[1..], dir), dir, d);
      OnDateCons(s[0], Sort(s[1..], dir), d);
      OnDateCons(s[0], s[1..], d);
      assert [s[0]] + s[1..] == s;
    }
  }

  /** A non-empty sequence has a record on the date of its first record. */
  lemma OnDateEmpty(s: seq<Tx>)
    ensures |s| > 0 ==> OnDate(s, s[0].date) != []
  {
  }

  lemma OnDateMembers(s: seq<Tx>, d: Date)
    ensures forall t | t in OnDate(s, d) :: t in s && t.date == d
  {
    if |s| > 0 {
      OnDateMembers(s[1..], d);
    }
  }

  /** There is one stable sorted arrangement of a collection: two sorted
      sequences that list every date's records in the same order are
      equal. */
  lemma {:induction false} StableSortedUnique(a: seq<Tx>, b: seq<Tx>, dir: Direction)
    requires SortedBy(a, dir) && SortedBy(b, dir)
    requires forall d :: OnDate(a, d) == OnDate(b, d)
    ensures a == b
    decreases |a| + |b|
  {
    if |a| == 0 || |b| == 0 {
      OnDateEmpty(a);
      OnDateEmpty(b);
    } else {
      SortedHeadsAgree(a, b, dir);
      TailsAgree(a, b);
      StableSortedUnique(a[1..], b[1..], dir);
      assert a == [a[0]] + a[1..];
      assert b == [b[0]] + b[1..];
    }
  }

  /** A sorted sequence starts with the first record of its lowest rank. */
  lemma SortedHeadsAgree(a: seq<Tx>, b: seq<Tx>, dir: Direction)
    requires SortedBy(a, dir) && SortedBy(b, dir) && |a| > 0 && |b| > 0
    requires forall d :: OnDate(a, d) == OnDate(b, d)
    ensures a[0] == b[0]
  {
    var x, y := a[0], b[0];
    HeadRankBelow(a, b, dir);
    HeadRankBelow(b, a, dir);
    RankSameDate(x, y, dir);
    OnDateHead(a);
    OnDateHead(b);
    assert OnDate(a, x.date) == OnDate(b, y.date);
  }

  /** The first records on the date of s's first record start with it. */
  lemma OnDateHead(s: seq<Tx>)
    requires |s| > 0
    ensures OnDate(s, s[0].date) != [] && OnDate(s, s[0].date)[0] == s[0]
  {
  }

  /** If b lists a's first record, b's first record ranks no higher. */
  lemma HeadRankBelow(a: seq<Tx>, b: seq<Tx>, dir: Direction)
    requires SortedBy(b, dir) && |a| > 0 && |b| > 0
    requires OnDate(a, a[0].date) == OnDate(b, a[0].date)
    ensures Rank(b[0], dir) <= Rank(a[0], dir)
  {
    OnDateHead(a);
    OnDateMembers(b, a[0].date);
    assert a[0] in OnDate(b, a[0].date);
    var j :| 0 <= j < |b| && b[j] == a[0];
    if j > 0 {
      SortedPairwise(b, dir);
    }
  }

  /** With equal first records, the rests list each date's records alike. */
  lemma TailsAgree(a: seq<Tx>, b: seq<Tx>)
    requires |a| > 0 && |b| > 0 && a[0] == b[0]
    requires forall d :: OnDate(a, d) == OnDate(b, d)
    ensures forall d :: OnDate(a[1..], d) == OnDate(b[1..], d)
  {
    forall d
      ensures OnDate(a[1..], d) == OnDate(b[1..], d)
    {
      var head := if a[0].date == d then [a[0]] else [];
      OnDateCons(a[0], a[1..], d);
      OnDateCons(b[0], b[1..], d);
      assert [a[0]] + a[1..] == a;
      assert [b[0]] + b[1..] == b;
      assert OnDate(a[1..], d) == OnDate(a, d)[|head|..];
      assert OnDate(b[1..], d) == OnDate(b, d)[|head|..];
    }
  }

  /** Whatever stable sort produced r from s, r is Sort(s, dir). */
  lemma StableSortIsSort(s: seq<Tx>, r: seq<Tx>, dir: Direction)
    requires SortedBy(r, dir)
    requires forall d :: OnDate(r, d) == OnDate(s, d)
    ensures r == Sort(s, dir)
  {
    forall d
      ensures OnDate(r, d) == OnDate(Sort(s, dir), d)
    {
      SortStable(s, dir, d);
    }
    StableSortedUnique(r, Sort(s, dir), dir);
  }
}
