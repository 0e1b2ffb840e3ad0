/** The CSV export: a header line naming the five fields, then one line per
    record in stored order, every field wrapped in double quotes with each
    double quote inside it doubled. A reader for exactly that format is the
    partner that shows nothing is lost on the way out. */
module Csv {
  import opened Wrappers
  import opened Text
  import opened Ledger

  // ---------------------------------------------------------------------------
  // Quoting a field
  // ---------------------------------------------------------------------------

  /** Every double quote comes with a second one right after it. */
  predicate QuotesPaired(e: string)
    decreases |e|
  {
    |e| == 0
    || (e[0] != '"' && QuotesPaired(e[1..]))
    || (|e| > 1 && e[0] == '"' && e[1] == '"' && QuotesPaired(e[2..]))
  }

  /** No character is a double quote. */
  predicate NoQuote(s: string) {
    forall i | 0 <= i < |s| :: s[i] != '"'
  }

  /** One character of a field as written out: a double quote doubled,
      anything else as it is. */
  function EscapeChar(c: char): (e: string)
    ensures c == '"' ==> e == "\"\""
    ensures c != '"' ==> e == [c]
  {
    if c == '"' then "\"\"" else [c]
  }

  /** The field text with every double quote doubled. */
  function Escape(s: string): (e: string)
    ensures QuotesPaired(e)
    ensures |e| >= |s|
    ensures NoQuote(s) ==> e == s
  {
    if |s| == 0 then []
    else
      var rest := Escape(s[1..]);
      var e := EscapeChar(s[0]) + rest;
      assert e[|EscapeChar(s[0])|..] == rest;
      assert NoQuote(s) ==> NoQuote(s[1..]) && e == [s[0]] + s[1..];
      e
  }

  /** A field as it appears on a line: escaped and wrapped in quotes. */
  function Quote(s: string): (q: string)
    ensures |q| >= |s| + 2 && q[0] == '"' && q[|q| - 1] == '"'
    ensures QuotesPaired(q[1..|q| - 1])
  {
    var q := "\"" + Escape(s) + "\"";
    assert q[1..|q| - 1] == Escape(s);
    q
  }

  /** Reads a quoted field's body, the opening quote already consumed: a
      doubled quote stands for one quote and a single quote closes the
      field. Gives the field and what follows the closing quote; None when
      the field is never closed. */
  function ReadBody(s: string): (r: Option<(string, string)>)
    ensures r.Some? ==> |r.value.1| < |s|
    decreases |s|
  {
    if |s| == 0 then None
    else if s[0] == '"' && |s| > 1 && s[1] == '"' then
      match ReadBody(s[2..])
      case None => None
      case Some((v, rest)) => Some(("\"" + v, rest))
    else if s[0] == '"' then Some(([], s[1..]))
    else
      match ReadBody(s[1..])
      case None => None
      case Some((v, rest)) => Some(([s[0]] + v, rest))
  }

  /** Reads one quoted field from the front of s. */
  function ReadField(s: string): (r: Option<(string, string)>)
    ensures r.Some? ==> |r.value.1| < |s|
  {
    if |s| > 0 && s[0] == '"' then ReadBody(s[1..]) else None
  }

  /** The escaped text followed by the closing quote reads back as the
      field, as long as what follows the closing quote is not itself a
      quote. */
  lemma {:induction false} ReadBodyEscape(s: string, rest: string)
    requires rest == [] || rest[0] != '"'
    ensures ReadBody(Escape(s) + "\"" + rest) == Some((s, rest))
    decreases |s|
  {
    var x := Escape(s) + "\"" + rest;
    if |s| == 0 {
      assert x == "\"" + rest;
      assert x[1..] == rest;
    } else {
      var h := EscapeChar(s[0]);
      var tail := Escape(s[1..]) + "\"" + rest;
      assert x == h + tail by {
        Regroup3(h, Escape(s[1..]), "\"");
        Regroup3(h, Escape(s[1..]) + "\"", rest);
      }
      assert x[|h|..] == tail;
      ReadBodyEscape(s[1..], rest);
      SplitHead(s);
    }
  }

  /** A quoted field reads back as the field. */
  lemma ReadQuote(s: string, rest: string)
    requires rest == [] || rest[0] != '"'
    ensures ReadField(Quote(s) + rest) == Some((s, rest))
  {
    DropOpening(Escape(s), rest);
    ReadBodyEscape(s, rest);
  }

  lemma DropOpening(e: string, rest: string)
    ensures |("\"" + e + "\"") + rest| > 0 && (("\"" + e + "\"") + rest)[0] == '"'
    ensures (("\"" + e + "\"") + rest)[1..] == e + "\"" + rest
  {
    var x := ("\"" + e + "\"") + rest;
    assert x == "\"" + (e + "\"" + rest);
  }

  /** Escaping works character by character. */
  lemma {:induction false} EscapeAppend(a: string, b: string)
    ensures Escape(a + b) == Escape(a) + Escape(b)
    decreases |a|
  {
    if |a| == 0 {
      assert a + b == b;
    } else {
      var h := EscapeChar(a[0]);
      assert Escape(a + b) == h + Escape(a[1..] + b) by {
        assert (a + b)[0] == a[0] && (a + b)[1..] == a[1..] + b;
      }
      EscapeAppend(a[1..], b);
      assert Escape(a) == h + Escape(a[1..]);
      Regroup3(h, Escape(a[1..]), Escape(b));
    }
  }

  /** Regrouping a three-part concatenation, kept apart so the
      recursive proofs above see the one equation they need. */
  lemma Regroup3(x: string, y: string, z: string)
    ensures x + (y + z) == (x + y) + z
  {
  }

  /** A non-empty sequence is its head followed by its tail. */
  lemma SplitHead<T>(s: seq<T>)
    requires |s| > 0
    ensures [s[0]] + s[1..] == s
  {
  }

  /** A lone double quote is written doubled. */
  lemma EscapeQuote()
    ensures Escape("\"") == "\"\""
  {
  }

  /** Text without a double quote is written unchanged. */
  lemma EscapeNoQuote(s: string)
    requires NoQuote(s)
    ensures Escape(s) == s
  {
  }

  /** Quoting wraps the escaped text in double quotes. */
  lemma QuoteText(s: string, e: string)
    requires Escape(s) == e
    ensures Quote(s) == "\"" + e + "\""
  {
  }

  /** The concatenations of the quoting example, regrouped. */
  lemma Regroup(a: string, w: string, q: string, qq: string)
    ensures q + (a + (qq + (w + qq))) + q == q + a + qq + w + qq + q
    ensures a + q + w + q == a + (q + (w + q))
  {
  }

  /** The export's example shape: text, then a quoted word, as in
      He said "hi"; each quote comes out doubled. */
  lemma QuoteExample(a: string, w: string)
    requires NoQuote(a) && NoQuote(w)
    ensures Quote(a + "\"" + w + "\"") == "\"" + a + "\"\"" + w + "\"\"" + "\""
  {
    var q := "\"";
    var qq := "\"\"";
    EscapeQuote();
    EscapeNoQuote(a);
    EscapeNoQuote(w);
    EscapeAppend(w, q);
    EscapeAppend(q, w + q);
    EscapeAppend(a, q + (w + q));
    Regroup(a, w, q, qq);
    QuoteText(a + q + w + q, a + (qq + (w + qq)));
  }
  // ---------------------------------------------------------------------------
  // Lines
  // ---------------------------------------------------------------------------

  /** The header line: the field names, unquoted. */
  const Header: string := "id,description,amount,category,date"

  /** The five fields of a record as String() renders them. */
  function Fields(t: Tx): (fs: seq<string>)
    ensures |fs| == 5
  {
    [NatToString(t.id), t.description, AmountText(t.amount), t.category, DateText(t.date)]
  }

  function QuoteAll(fs: seq<string>): (qs: seq<string>)
    ensures |qs| == |fs|
    ensures forall i | 0 <= i < |fs| :: qs[i] == Quote(fs[i])
  {
    if |fs| == 0 then [] else [Quote(fs[0])] + QuoteAll(fs[1..])
  }

  /** A record's line: its quoted fields joined with commas. */
  function Row(t: Tx): string {
    Join(QuoteAll(Fields(t)), ",")
  }

  function Rows(txs: seq<Tx>): (rows: seq<string>)
    ensures |rows| == |txs|
    ensures forall i | 0 <= i < |txs| :: rows[i] == Row(txs[i])
  {
    if |txs| == 0 then [] else [Row(txs[0])] + Rows(txs[1..])
  }

  /** The export: refused (None, the user is alerted) when there are no
      records, otherwise the header and one line per record joined with
      line feeds. */
  function Export(txs: seq<Tx>): (csv: Option<string>)
    ensures csv == None <==> |txs| == 0
    ensures csv.Some? ==> |csv.value| > |Header| && csv.value[..|Header| + 1] == Header + "\n"
  {
    if |txs| == 0 then None
    else
      JoinFront(Header, Rows(txs), "\n");
      PrefixSplit(Header + "\n", Join(Rows(txs), "\n"));
      Some(Join([Header] + Rows(txs), "\n"))
  }

  /** Joining a first part in front of non-empty parts. */
  lemma JoinFront(h: string, parts: seq<string>, sep: string)
    requires |parts| > 0
    ensures Join([h] + parts, sep) == (h + sep) + Join(parts, sep)
  {
    assert ([h] + parts)[1..] == parts;
  }

  /** A concatenation splits back into its two parts at the first
      part's length. */
  lemma PrefixSplit(h: string, body: string)
    ensures |h + body| == |h| + |body|
    ensures (h + body)[..|h|] == h && (h + body)[|h|..] == body
  {
  }

  // ---------------------------------------------------------------------------
  // Reading an export back
  // ---------------------------------------------------------------------------

  /** Reads k comma-separated quoted fields from the front of s, giving the
      fields and what follows the last one. */
  function ReadFields(s: string, k: nat): (r: Option<(seq<string>, string)>)
    requires k > 0
    ensures r.Some? ==> |r.value.0| == k && |r.value.1| < |s|
    decreases k
  {
    match ReadField(s)
    case None => None
    case Some((f, rest)) =>
      if k == 1 then Some(([f], rest))
      else if |rest| > 0 && rest[0] == ',' then
        match ReadFields(rest[1..], k - 1)
        case None => None
        case Some((fs, after)) => Some(([f] + fs, after))
      else None
  }

  /** A non-empty run of decimal digits read as a number. */
  function ParseNat(s: string): (r: Option<nat>)
    ensures r.Some? ==> IsNumeral(s)
  {
    if IsNumeral(s) then Some(ParseDigits(s)) else None
  }

  /** A record from its five field texts. */
  function ParseTx(fs: seq<string>): (r: Option<Tx>)
    requires |fs| == 5
    ensures r.Some? ==> r.value.description == fs[1] && r.value.category == fs[3]
  {
    match (ParseNat(fs[0]), ParseAmount(fs[2]), ParseDate(fs[4]))
    case (Some(id), Some(amount), Some(date)) => Some(Tx(id, fs[1], amount, fs[3], date))
    case _ => None
  }

  /** Reads the record lines: each is five quoted fields, and lines are
      separated by single line feeds. */
  function ReadRows(s: string): Option<seq<Tx>>
    decreases |s|
  {
    match ReadFields(s, 5)
    case None => None
    case Some((fs, rest)) =>
      match ParseTx(fs)
      case None => None
      case Some(t) =>
        if rest == [] then Some([t])
        else if rest[0] == '\n' then
          match ReadRows(rest[1..])
          case None => None
          case Some(more) => Some([t] + more)
        else None
  }

  /** Reads an export: the header line, then the record lines. */
  function Import(csv: string): Option<seq<Tx>> {
    if |csv| > |Header| && csv[..|Header| + 1] == Header + "\n" then ReadRows(csv[|Header| + 1..])
    else None
  }

  /** Joining more than one part: the first part, the separator, then the
      rest joined. */
  lemma JoinCons(parts: seq<string>, sep: string)
    requires |parts| > 1
    ensures Join(parts, sep) == parts[0] + (sep + Join(parts[1..], sep))
  {
  }

  /** Regrouping a four-part concatenation. */
  lemma Regroup4(a: string, b: string, c: string, d: string)
    ensures (a + (b + c)) + d == a + (b + (c + d))
  {
  }

  /** One field followed by a comma and k - 1 more fields is k fields. */
  lemma ReadFieldsCons(s: string, f: string, tail: string, fs: seq<string>, after: string, k: nat)
    requires k > 1
    requires ReadField(s) == Some((f, "," + tail))
    requires ReadFields(tail, k - 1) == Some((fs, after))
    ensures ReadFields(s, k) == Some(([f] + fs, after))
  {
    assert ("," + tail)[1..] == tail;
  }

  /** One record line followed by a line feed and more lines. */
  lemma ReadRowsCons(s: string, t: Tx, more: string, txs: seq<Tx>)
    requires ReadFields(s, 5) == Some((Fields(t), "\n" + more))
    requires ParseTx(Fields(t)) == Some(t)
    requires ReadRows(more) == Some(txs)
    ensures ReadRows(s) == Some([t] + txs)
  {
    assert ("\n" + more)[1..] == more;
  }

  /** Quoted fields joined with commas read back as the fields. */
  lemma {:induction false} ReadQuotedFields(fs: seq<string>, rest: string)
    requires |fs| > 0
    requires rest == [] || rest[0] != '"'
    ensures ReadFields(Join(QuoteAll(fs), ",") + rest, |fs|) == Some((fs, rest))
    decreases |fs|
  {
    if |fs| == 1 {
      ReadQuotedField(fs, rest);
    } else {
      ReadQuotedFields(fs[1..], rest);
      ReadQuotedCons(fs[0], fs[1..], rest);
      SplitHead(fs);
    }
  }

  /** One more quoted field in front of fields that read back. */
  lemma ReadQuotedCons(f: string, fs: seq<string>, rest: string)
    requires |fs| > 0
    requires ReadFields(Join(QuoteAll(fs), ",") + rest, |fs|) == Some((fs, rest))
    ensures ReadFields(Join(QuoteAll([f] + fs), ",") + rest, |fs| + 1) == Some(([f] + fs, rest))
  {
    var more := Join(QuoteAll(fs), ",");
    JoinQuoted([f] + fs);
    assert ([f] + fs)[1..] == fs;
    Regroup4(Quote(f), ",", more, rest);
    ReadFieldsStep(f, more, fs, rest);
  }

  lemma ReadQuotedField(fs: seq<string>, rest: string)
    requires |fs| == 1
    requires rest == [] || rest[0] != '"'
    ensures ReadFields(Join(QuoteAll(fs), ",") + rest, 1) == Some((fs, rest))
  {
    assert Join(QuoteAll(fs), ",") == Quote(fs[0]);
    ReadQuote(fs[0], rest);
    assert [fs[0]] == fs;
  }

  lemma JoinQuoted(fs: seq<string>)
    requires |fs| > 1
    ensures Join(QuoteAll(fs), ",") == Quote(fs[0]) + ("," + Join(QuoteAll(fs[1..]), ","))
  {
    var qs := QuoteAll(fs);
    assert qs[1..] == QuoteAll(fs[1..]);
    JoinCons(qs, ",");
  }

  /** One more quoted field and a comma in front of fields that read
      back. */
  lemma ReadFieldsStep(f: string, more: string, fs: seq<string>, rest: string)
    requires |fs| > 0
    requires ReadFields(more + rest, |fs|) == Some((fs, rest))
    ensures ReadFields(Quote(f) + ("," + (more + rest)), |fs| + 1) == Some(([f] + fs, rest))
  {
    ReadQuote(f, "," + (more + rest));
    ReadFieldsCons(Quote(f) + ("," + (more + rest)), f, more + rest, fs, rest, |fs| + 1);
  }

  /** Reading the field texts of a record gives back the record. */
  lemma ParseFields(t: Tx)
    ensures ParseTx(Fields(t)) == Some(t)
  {
    ParseNatToString(t.id);
    AmountTextRoundTrip(t.amount);
    DateTextRoundTrip(t.date);
  }

  /** A record's line, followed by nothing or by a line feed, reads back as
      the record. */
  lemma ReadRow(t: Tx, rest: string)
    requires rest == [] || rest[0] == '\n'
    ensures ReadFields(Row(t) + rest, 5) == Some((Fields(t), rest))
    ensures ParseTx(Fields(t)) == Some(t)
  {
    ReadQuotedFields(Fields(t), rest);
    ParseFields(t);
  }

  /** The record lines joined with line feeds read back as the records. */
  lemma {:induction false} ReadRowsJoin(txs: seq<Tx>)
    requires |txs| > 0
    ensures ReadRows(Join(Rows(txs), "\n")) == Some(txs)
    decreases |txs|
  {
    if |txs| == 1 {
      ReadRowsOne(txs);
    } else {
      ReadRowsJoin(txs[1..]);
      JoinRows(txs);
      ReadRowsStep(txs[0], txs[1..], Join(Rows(txs[1..]), "\n"));
      SplitHead(txs);
    }
  }

  /** The line of a single record reads back as that record. */
  lemma ReadRowsOne(txs: seq<Tx>)
    requires |txs| == 1
    ensures ReadRows(Join(Rows(txs), "\n")) == Some(txs)
  {
    var t := txs[0];
    assert Join(Rows(txs), "\n") == Row(t);
    ReadRowLast(t);
    assert [t] == txs;
  }

  lemma ReadRowLast(t: Tx)
    ensures ReadRows(Row(t)) == Some([t])
  {
    var none: string := "";
    var r := Row(t);
    assert r + none == r;
    ReadRow(t, none);
  }

  /** One more record line in front of lines that read back. */
  lemma ReadRowsStep(t: Tx, tail: seq<Tx>, more: string)
    requires ReadRows(more) == Some(tail)
    ensures ReadRows(Row(t) + ("\n" + more)) == Some([t] + tail)
  {
    ReadRow(t, "\n" + more);
    ReadRowsCons(Row(t) + ("\n" + more), t, more, tail);
  }

  /** The lines of several records: the first record's line, a line feed,
      then the lines of the others. */
  lemma JoinRows(txs: seq<Tx>)
    requires |txs| > 1
    ensures Join(Rows(txs), "\n") == Row(txs[0]) + ("\n" + Join(Rows(txs[1..]), "\n"))
  {
    var rows := Rows(txs);
    assert rows[1..] == Rows(txs[1..]);
    JoinCons(rows, "\n");
  }

  /** Reading an export gives back exactly the records, in stored order. */
  lemma ExportRoundTrip(txs: seq<Tx>)
    requires |txs| > 0
    ensures Import(Export(txs).value) == Some(txs)
  {
    var body := Join(Rows(txs), "\n");
    JoinFront(Header, Rows(txs), "\n");
    PrefixSplit(Header + "\n", body);
    ReadRowsJoin(txs);
  }
}
