/** The collection of records and the operations that change it: loading
    the stored collection, submitting the entry form, deleting by the id
    carried on a list item's delete button, and the order the list is
    displayed in. */
module Store {
  import opened Wrappers
  import opened Text
  import opened Ledger
  import opened DateSort
  import opened Aggregate

  // ---------------------------------------------------------------------------
  // Loading
  // ---------------------------------------------------------------------------

  /** The collection read at start-up: nothing stored (or an empty stored
      text) and a stored text that does not decode both give the empty
      collection. The decoder stands for the JSON parser. */
  function Load(raw: Option<string>, decode: string -> Option<seq<Tx>>): (txs: seq<Tx>)
    ensures raw == None || raw == Some("") ==> txs == []
    ensures raw.Some? && raw.value != "" && decode(raw.value).Some? ==> txs == decode(raw.value).value
    ensures raw.Some? && decode(raw.value) == None ==> txs == []
  {
    match raw
    case None => []
    case Some(text) =>
      if text == "" then []
      else match decode(text)
        case None => []
        case Some(decoded) => decoded
  }

  /** Whatever was saved comes back, given a decoder that reads back what
      the encoder writes and an encoding that is never the empty text. */
  lemma LoadAfterSave(txs: seq<Tx>, encode: seq<Tx> -> string, decode: string -> Option<seq<Tx>>)
    requires decode(encode(txs)) == Some(txs) && encode(txs) != ""
    ensures Load(Some(encode(txs)), decode) == txs
  {
  }

  // ---------------------------------------------------------------------------
  // Submitting the form
  // ---------------------------------------------------------------------------

  /** The entry form as the submit handler reads it: the raw description,
      the amount as parseFloat read it (None when it read NaN), the chosen
      category, and the date (None when the date field is empty). */
  datatype Form = Form(description: string, amount: Option<int>, category: string, date: Option<Date>)

  /** What a submission leads to: the new collection, and whether the user
      was alerted to fill all fields instead. */
  datatype Submitted = Submitted(txs: seq<Tx>, alerted: bool)

  /** The form is accepted when the trimmed description is not empty (the
      description is not all whitespace), the amount is a number and a date
      was chosen. */
  predicate Acceptable(form: Form) {
    !AllWhitespace(form.description) && form.amount.Some? && form.date.Some?
  }

  /** The submit handler: an incomplete form changes nothing and alerts;
      a complete one appends one record stamped with the clock reading
      now, holding the trimmed description and the other fields as
      given. */
  function Submit(txs: seq<Tx>, form: Form, now: nat): (r: Submitted)
    ensures r.alerted <==> !Acceptable(form)
    ensures r.alerted ==> r.txs == txs
    ensures !r.alerted ==> |r.txs| == |txs| + 1 && r.txs[..|txs|] == txs
    ensures !r.alerted ==> var t := r.txs[|txs|];
      && t.id == now
      && (exists lead :: IsTrimSlice(form.description, lead, t.description))
      && Trimmed(t.description)
      && t.description != ""
      && Some(t.amount) == form.amount
      && t.category == form.category
      && Some(t.date) == form.date
  {
    if !Acceptable(form) then Submitted(txs, true)
    else
      var t := Tx(now, Trim(form.description), form.amount.value, form.category, form.date.value);
      assert (txs + [t])[..|txs|] == txs;
      Submitted(txs + [t], false)
  }

  /** The stored description is the entered one as trim() gives it. */
  lemma SubmitDescription(txs: seq<Tx>, form: Form, now: nat)
    requires Acceptable(form)
    ensures Submit(txs, form, now).txs[|txs|].description == Trim(form.description)
  {
    var t := Submit(txs, form, now).txs[|txs|];
    var lead :| IsTrimSlice(form.description, lead, t.description);
    TrimUnique(form.description, lead, t.description);
  }

  /** An accepted submission moves the balance by the submitted amount. */
  lemma SubmitBalance(txs: seq<Tx>, form: Form, now: nat)
    requires Acceptable(form)
    ensures Balance(Submit(txs, form, now).txs) == Balance(txs) + form.amount.value
  {
    var r := Submit(txs, form, now).txs;
    assert r == txs + [r[|txs|]];
    BalanceAppend(txs, [r[|txs|]]);
  }

  /** Every stored description is non-empty, with no whitespace at either
      end. */
  predicate Tidy(txs: seq<Tx>) {
    forall i | 0 <= i < |txs| :: txs[i].description != "" && Trimmed(txs[i].description)
  }

  /** Submitting keeps the collection tidy. */
  lemma SubmitTidy(txs: seq<Tx>, form: Form, now: nat)
    requires Tidy(txs)
    ensures Tidy(Submit(txs, form, now).txs)
  {
    var r := Submit(txs, form, now);
    if !r.alerted {
      var t := r.txs[|txs|];
      assert r.txs == txs + [t];
      TidyAppend(txs, t);
    }
  }

  lemma TidyAppend(txs: seq<Tx>, t: Tx)
    requires Tidy(txs) && t.description != "" && Trimmed(t.description)
    ensures Tidy(txs + [t])
  {
    assert forall i | 0 <= i < |txs| :: (txs + [t])[i] == txs[i];
  }

  // ---------------------------------------------------------------------------
  // Deleting
  // ---------------------------------------------------------------------------

  /** Keeps, in order, the records whose id does not render as the given id
      text; the id text comes from the list item and is compared as a
      string. A record survives exactly when it was stored and its id does
      not render as that text. */
  function Delete(txs: seq<Tx>, id: string): (r: seq<Tx>)
    ensures |r| <= |txs|
    ensures forall t :: t in r <==> t in txs && NatToString(t.id) != id
  {
    if |txs| == 0 then []
    else
      var rest := Delete(txs[1..], id);
      assert txs == [txs[0]] + txs[1..];
      if NatToString(txs[0].id) == id then rest else [txs[0]] + rest
  }

  /** Deleting works record by record: the survivors of a concatenation are
      the survivors of each part, in order. */
  lemma {:induction false} DeleteConcat(a: seq<Tx>, b: seq<Tx>, id: string)
    ensures Delete(a + b, id) == Delete(a, id) + Delete(b, id)
    decreases |a|
  {
    if |a| == 0 {
      assert a + b == b;
    } else {
      assert (a + b)[1..] == a[1..] + b;
      DeleteConcat(a[1..], b, id);
    }
  }

  /** An id text no record carries leaves the collection as it was. */
  lemma {:induction false} DeleteNoMatch(txs: seq<Tx>, id: string)
    requires forall i | 0 <= i < |txs| :: NatToString(txs[i].id) != id
    ensures Delete(txs, id) == txs
    decreases |txs|
  {
    if |txs| > 0 {
      assert forall i | 0 <= i < |txs[1..]| :: txs[1..][i] == txs[i + 1];
      DeleteNoMatch(txs[1..], id);
      assert [txs[0]] + txs[1..] == txs;
    }
  }

  /** Deleting by the rendered id of a record removes exactly the records
      with that numeric id. */
  lemma DeleteById(txs: seq<Tx>, n: nat)
    ensures forall t: Tx :: t in Delete(txs, NatToString(n)) <==> t in txs && t.id != n
  {
    forall t: Tx
      ensures NatToString(t.id) != NatToString(n) <==> t.id != n
    {
      NatToStringInjective(t.id, n);
    }
  }

  /** Deleting the same id twice is deleting it once. */
  lemma {:induction false} DeleteIdempotent(txs: seq<Tx>, id: string)
    ensures Delete(Delete(txs, id), id) == Delete(txs, id)
    decreases |txs|
  {
    if |txs| > 0 {
      DeleteIdempotent(txs[1..], id);
      var rest := Delete(txs[1..], id);
      if NatToString(txs[0].id) != id {
        assert ([txs[0]] + rest)[1..] == rest;
      }
    }
  }

  /** Ids other than n render differently from n. */
  lemma OtherIds(s: seq<Tx>, n: nat)
    requires forall i | 0 <= i < |s| :: s[i].id != n
    ensures forall i | 0 <= i < |s| :: NatToString(s[i].id) != NatToString(n)
  {
    forall i | 0 <= i < |s|
      ensures NatToString(s[i].id) != NatToString(n)
    {
      NatToStringInjective(s[i].id, n);
    }
  }

  /** An id no record carries, rendered, leaves the collection as it was. */
  lemma DeleteAbsent(s: seq<Tx>, n: nat)
    requires forall i | 0 <= i < |s| :: s[i].id != n
    ensures Delete(s, NatToString(n)) == s
  {
    OtherIds(s, n);
    DeleteNoMatch(s, NatToString(n));
  }

  /** Deleting around one matching record that sits between two parts
      without a match drops just that record. */
  lemma DeleteSplit(front: seq<Tx>, x: Tx, back: seq<Tx>, id: string)
    requires Delete(front, id) == front && Delete(back, id) == back
    requires NatToString(x.id) == id
    ensures Delete(front + [x] + back, id) == front + back
  {
    assert ([x] + back)[1..] == back;
    assert Delete([x] + back, id) == back;
    assert front + [x] + back == front + ([x] + back);
    DeleteConcat(front, [x] + back, id);
  }

  /** Deleting by the id of a record whose id no other record shares
      removes that record and nothing else. */
  lemma DeleteUnique(txs: seq<Tx>, k: int)
    requires 0 <= k < |txs|
    requires forall i | 0 <= i < |txs| && i != k :: txs[i].id != txs[k].id
    ensures Delete(txs, NatToString(txs[k].id)) == txs[..k] + txs[k + 1..]
  {
    var front, back := txs[..k], txs[k + 1..];
    forall i | 0 <= i < |front|
      ensures front[i].id != txs[k].id
    {
      assert front[i] == txs[i];
    }
    forall i | 0 <= i < |back|
      ensures back[i].id != txs[k].id
    {
      assert back[i] == txs[k + 1 + i];
    }
    DeleteOnly(front, txs[k], back);
    SplitAround(txs, k);
  }

  /** A collection is the records before position k, the record at k and
      the records after it. */
  lemma SplitAround<T>(s: seq<T>, k: int)
    requires 0 <= k < |s|
    ensures s == s[..k] + [s[k]] + s[k + 1..]
  {
    assert s[..k] + [s[k]] == s[..k + 1];
  }

  /** The same, for a collection given as the parts around the record. */
  lemma DeleteOnly(front: seq<Tx>, x: Tx, back: seq<Tx>)
    requires forall i | 0 <= i < |front| :: front[i].id != x.id
    requires forall i | 0 <= i < |back| :: back[i].id != x.id
    ensures Delete(front + [x] + back, NatToString(x.id)) == front + back
  {
    DeleteAbsent(front, x.id);
    DeleteAbsent(back, x.id);
    DeleteSplit(front, x, back, NatToString(x.id));
  }

  /** Removing one record from between two parts moves the balance by minus
      its amount. */
  lemma BalanceRemove(front: seq<Tx>, x: Tx, back: seq<Tx>)
    ensures Balance(front + back) == Balance(front + [x] + back) - x.amount
  {
    BalanceAppend(front, back);
    BalanceAppend(front + [x], back);
    BalanceAppend(front, [x]);
  }

  /** Removing the one record with a given id moves the balance by minus
      its amount. */
  lemma DeleteBalance(txs: seq<Tx>, k: int)
    requires 0 <= k < |txs|
    requires forall i | 0 <= i < |txs| && i != k :: txs[i].id != txs[k].id
    ensures Balance(Delete(txs, NatToString(txs[k].id))) == Balance(txs) - txs[k].amount
  {
    DeleteUnique(txs, k);
    BalanceRemove(txs[..k], txs[k], txs[k + 1..]);
    SplitAround(txs, k);
  }

  /** Deleting keeps the collection tidy. */
  lemma DeleteTidy(txs: seq<Tx>, id: string)
    requires Tidy(txs)
    ensures Tidy(Delete(txs, id))
  {
    var r := Delete(txs, id);
    forall i | 0 <= i < |r|
      ensures r[i].description != "" && Trimmed(r[i].description)
    {
      assert r[i] in txs;
    }
  }

  // ---------------------------------------------------------------------------
  // Display order
  // ---------------------------------------------------------------------------

  /** The order the list shows: newest date first, records of the same day
      in stored order. The stored collection itself is not reordered. */
  function DisplayOrder(txs: seq<Tx>): seq<Tx> {
    Sort(txs, Descending)
  }

  /** The displayed list holds exactly the stored records, dates never
      increase down the list, and each day's records keep their stored
      order. */
  lemma DisplayOrderSpec(txs: seq<Tx>)
    ensures multiset(DisplayOrder(txs)) == multiset(txs)
    ensures forall i, j | 0 <= i < j < |DisplayOrder(txs)| ::
      DateLe(DisplayOrder(txs)[j].date, DisplayOrder(txs)[i].date)
    ensures forall d :: OnDate(DisplayOrder(txs), d) == OnDate(txs, d)
  {
    var s := DisplayOrder(txs);
    SortedPairwise(s, Descending);
    forall i, j | 0 <= i < j < |s|
      ensures DateLe(s[j].date, s[i].date)
    {
      DateKeyOrder(s[j].date, s[i].date);
    }
    forall d
      ensures OnDate(s, d) == OnDate(txs, d)
    {
      SortStable(txs, Descending, d);
    }
  }

  /** No other arrangement has those properties: a list of the records with
      dates never increasing and each day's records in stored order is the
      displayed list. */
  lemma DisplayOrderUnique(txs: seq<Tx>, r: seq<Tx>)
    requires forall i, j | 0 <= i < j < |r| :: DateLe(r[j].date, r[i].date)
    requires forall d :: OnDate(r, d) == OnDate(txs, d)
    ensures r == DisplayOrder(txs)
  {
    forall i, j | 0 <= i < j < |r|
      ensures Rank(r[i], Descending) <= Rank(r[j], Descending)
    {
      DateKeyOrder(r[j].date, r[i].date);
    }
    PairwiseSorted(r, Descending);
    StableSortIsSort(txs, r, Descending);
  }
}
