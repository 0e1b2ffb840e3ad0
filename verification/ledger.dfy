/** The transaction record and the textual forms of its fields: the
    "YYYY-MM" month bucket, the ISO date text, and the decimal text of an
    amount held in minor currency units (paise). */
module Ledger {
  import opened Wrappers
  import opened Text

  type Month = m: nat | 1 <= m <= 12 witness 1
  type Day = d: nat | 1 <= d <= 31 witness 1

  /** A calendar date at day granularity, taken by its components. */
  datatype Date = Date(year: nat, month: Month, day: Day)

  /** One ledger entry. The id is the millisecond clock value the submit
      handler stamped it with; the amount is signed, in minor units
      (positive is income, negative is spending); the category may be empty. */
  datatype Tx = Tx(id: nat, description: string, amount: int, category: string, date: Date)

  // ---------------------------------------------------------------------------
  // Date order
  // ---------------------------------------------------------------------------

  /** The lexicographic (year, month, day) order. */
  predicate DateLe(a: Date, b: Date) {
    || a.year < b.year
    || (a.year == b.year && a.month < b.month)
    || (a.year == b.year && a.month == b.month && a.day <= b.day)
  }

  /** A number that orders dates as their instants do: a later date has a
      larger key. */
  function DateKey(d: Date): int {
    d.year * 416 + d.month * 32 + d.day
  }

  /** The key agrees with calendar order and tells dates apart. */
  lemma DateKeyOrder(a: Date, b: Date)
    ensures DateKey(a) <= DateKey(b) <==> DateLe(a, b)
    ensures DateKey(a) == DateKey(b) <==> a == b
  {
  }

  /** The month bucket a date falls into, counted from year 0. */
  function MonthIndex(d: Date): int {
    d.year * 12 + d.month - 1
  }

  /** An earlier-or-equal date never lies in a later month. */
  lemma DateKeyMonotoneInMonth(a: Date, b: Date)
    requires DateKey(a) <= DateKey(b)
    ensures MonthIndex(a) <= MonthIndex(b)
  {
    DateKeyOrder(a, b);
  }

  // ---------------------------------------------------------------------------
  // Month key "YYYY-MM"
  // ---------------------------------------------------------------------------

  /** The bucket label: the full year as String renders it, a dash, and the
      month padded to two digits. */
  function MonthKey(d: Date): (k: string)
    ensures |k| == |NatToString(d.year)| + 3
    ensures k[..|k| - 3] == NatToString(d.year) && k[|k| - 3] == '-'
    ensures IsDigit(k[|k| - 2]) && IsDigit(k[|k| - 1])
    ensures PairValue(k[|k| - 2], k[|k| - 1]) == d.month
  {
    NatToString(d.year) + "-" + Pad2(d.month)
  }

  /** Reads a bucket label back into (year, month). */
  function ParseMonthKey(k: string): Option<(nat, Month)> {
    var n := |k|;
    if n < 4 || k[n - 3] != '-' || !IsNumeral(k[..n - 3]) || !IsDigit(k[n - 2]) || !IsDigit(k[n - 1]) then None
    else
      var m := PairValue(k[n - 2], k[n - 1]);
      if 1 <= m <= 12 then Some((ParseDigits(k[..n - 3]), m)) else None
  }

  /** Reading a bucket label gives back the year and the month. */
  lemma MonthKeyRoundTrip(d: Date)
    ensures ParseMonthKey(MonthKey(d)) == Some((d.year, d.month))
  {
    ParseNatToString(d.year);
  }

  /** Two dates share a label exactly when they lie in the same month. */
  lemma MonthKeySameMonth(a: Date, b: Date)
    ensures MonthKey(a) == MonthKey(b) <==> MonthIndex(a) == MonthIndex(b)
  {
    var ka, kb := MonthKey(a), MonthKey(b);
    if ka == kb {
      assert NatToString(a.year) == NatToString(b.year) by {
        assert ka[..|ka| - 3] == kb[..|kb| - 3];
      }
      NatToStringInjective(a.year, b.year);
    }
    if MonthIndex(a) == MonthIndex(b) {
      assert a.year == b.year && a.month == b.month;
    }
  }

  // ---------------------------------------------------------------------------
  // Date text "YYYY-MM-DD"
  // ---------------------------------------------------------------------------

  /** The date as the form's date field writes it: the year padded to four
      digits, then the month and the day padded to two, dash-separated. */
  function DateText(d: Date): string {
    ParsePaddedNat(d.year, 4);
    PadStart(NatToString(d.year), 4, '0') + "-" + Pad2(d.month) + "-" + Pad2(d.day)
  }

  /** Reads a date text back; None for anything that is not such a text or
      names no month 1-12 and day 1-31. */
  function ParseDate(s: string): Option<Date> {
    var n := |s|;
    if n < 7 || s[n - 6] != '-' || s[n - 3] != '-' || !IsNumeral(s[..n - 6]) then None
    else if !IsDigit(s[n - 5]) || !IsDigit(s[n - 4]) || !IsDigit(s[n - 2]) || !IsDigit(s[n - 1]) then None
    else
      var y := ParseDigits(s[..n - 6]);
      var m := PairValue(s[n - 5], s[n - 4]);
      var day := PairValue(s[n - 2], s[n - 1]);
      if 1 <= m <= 12 && 1 <= day <= 31 then Some(Date(y, m, day)) else None
  }

  /** Reading a date text gives back the date. */
  lemma DateTextRoundTrip(d: Date)
    ensures ParseDate(DateText(d)) == Some(d)
  {
    var y := PadStart(NatToString(d.year), 4, '0');
    ParsePaddedNat(d.year, 4);
    ParseDateParts(y, Pad2(d.month), Pad2(d.day));
  }

  /** A year numeral, two month digits and two day digits, dash-joined, read
      back as their values. */
  lemma ParseDateParts(y: string, m: string, dd: string)
    requires IsNumeral(y)
    requires |m| == 2 && IsDigit(m[0]) && IsDigit(m[1]) && 1 <= PairValue(m[0], m[1]) <= 12
    requires |dd| == 2 && IsDigit(dd[0]) && IsDigit(dd[1]) && 1 <= PairValue(dd[0], dd[1]) <= 31
    ensures ParseDate(y + "-" + m + "-" + dd)
         == Some(Date(ParseDigits(y), PairValue(m[0], m[1]), PairValue(dd[0], dd[1])))
  {
    var s := y + "-" + m + "-" + dd;
    var n := |s|;
    assert s[..n - 6] == y;
    assert s[n - 6] == '-' && s[n - 3] == '-';
    assert s[n - 5] == m[0] && s[n - 4] == m[1] && s[n - 2] == dd[0] && s[n - 1] == dd[1];
  }

  // ---------------------------------------------------------------------------
  // Amount text
  // ---------------------------------------------------------------------------

  /** The fraction digits of a minor-unit remainder as String renders a
      number: none for a whole amount, one digit when the second is zero,
      otherwise two. */
  function CentsText(cents: nat): string
    requires cents < 100
  {
    if cents == 0 then ""
    else if cents % 10 == 0 then "." + [DigitChar(cents / 10)]
    else "." + Pad2(cents)
  }

  /** A non-negative minor-unit amount as String renders the equivalent
      decimal number: the whole units, then the shortest fraction. */
  function UnsignedText(m: nat): string {
    NatToString(m / 100) + CentsText(m % 100)
  }

  /** The amount as String renders the equivalent decimal number: a minus
      sign for spending, then the magnitude. */
  function AmountText(a: int): string {
    if a < 0 then "-" + UnsignedText(-a) else UnsignedText(a)
  }

  /** Reads an unsigned decimal with at most two fraction digits into minor
      units. */
  function ParseUnsignedAmount(s: string): Option<nat> {
    var n := |s|;
    if n >= 3 && s[n - 2] == '.' then
      if IsNumeral(s[..n - 2]) && IsDigit(s[n - 1]) then
        Some(ParseDigits(s[..n - 2]) * 100 + DigitValue(s[n - 1]) * 10)
      else None
    else if n >= 4 && s[n - 3] == '.' then
      if IsNumeral(s[..n - 3]) && IsDigit(s[n - 2]) && IsDigit(s[n - 1]) then
        Some(ParseDigits(s[..n - 3]) * 100 + PairValue(s[n - 2], s[n - 1]))
      else None
    else if IsNumeral(s) then Some(ParseDigits(s) * 100)
    else None
  }

  /** Reads an amount text back into minor units. */
  function ParseAmount(s: string): Option<int> {
    if |s| > 0 && s[0] == '-' then
      match ParseUnsignedAmount(s[1..])
      case Some(m) => Some(0 - m)
      case None => None
    else ParseUnsignedAmount(s)
  }

  lemma UnsignedAmountRoundTrip(m: nat)
    ensures ParseUnsignedAmount(UnsignedText(m)) == Some(m)
  {
    var cents := m % 100;
    if cents == 0 {
      WholeAmountRoundTrip(m);
    } else if cents % 10 == 0 {
      TenthsAmountRoundTrip(m);
    } else {
      HundredthsAmountRoundTrip(m);
    }
  }

  lemma WholeAmountRoundTrip(m: nat)
    requires m % 100 == 0
    ensures ParseUnsignedAmount(UnsignedText(m)) == Some(m)
  {
    var u := NatToString(m / 100);
    ParseNatToString(m / 100);
    assert UnsignedText(m) == u;
    ParseWholeAmount(u);
  }

  lemma TenthsAmountRoundTrip(m: nat)
    requires m % 100 != 0 && m % 100 % 10 == 0
    ensures ParseUnsignedAmount(UnsignedText(m)) == Some(m)
  {
    var u, d := NatToString(m / 100), m % 100 / 10;
    assert UnsignedText(m) == u + ("." + [DigitChar(d)]);
    ParseNatToString(m / 100);
    ParseOneDecimal(u, DigitChar(d));
    assert m == (m / 100) * 100 + d * 10;
  }

  lemma HundredthsAmountRoundTrip(m: nat)
    requires m % 100 % 10 != 0
    ensures ParseUnsignedAmount(UnsignedText(m)) == Some(m)
  {
    var u, c := NatToString(m / 100), m % 100;
    var f := Pad2(c);
    assert UnsignedText(m) == u + ("." + f);
    ParseNatToString(m / 100);
    ParseTwoDecimals(u, f);
    assert m == (m / 100) * 100 + c;
  }

  lemma ParseWholeAmount(u: string)
    requires IsNumeral(u)
    ensures ParseUnsignedAmount(u) == Some(ParseDigits(u) * 100)
  {
    var n := |u|;
    assert !(n >= 3 && u[n - 2] == '.') by {
      if n >= 3 { assert IsDigit(u[n - 2]); }
    }
    assert !(n >= 4 && u[n - 3] == '.') by {
      if n >= 4 { assert IsDigit(u[n - 3]); }
    }
  }

  lemma ParseOneDecimal(u: string, d: char)
    requires IsNumeral(u) && IsDigit(d)
    ensures ParseUnsignedAmount(u + ("." + [d])) == Some(ParseDigits(u) * 100 + DigitValue(d) * 10)
  {
    var s := u + ("." + [d]);
    var n := |s|;
    assert s[..n - 2] == u;
    assert s[n - 2] == '.' && s[n - 1] == d;
  }

  lemma ParseTwoDecimals(u: string, f: string)
    requires IsNumeral(u) && |f| == 2 && IsDigit(f[0]) && IsDigit(f[1])
    ensures ParseUnsignedAmount(u + ("." + f)) == Some(ParseDigits(u) * 100 + PairValue(f[0], f[1]))
  {
    var s := u + ("." + f);
    var n := |s|;
    assert s[..n - 3] == u;
    assert s[n - 3] == '.' && s[n - 2] == f[0] && s[n - 1] == f[1];
  }

  /** Reading an amount text gives back the amount. */
  lemma AmountTextRoundTrip(a: int)
    ensures ParseAmount(AmountText(a)) == Some(a)
  {
    if a < 0 {
      var m: nat := -a;
      SpendingTextRoundTrip(m);
    } else {
      IncomeTextRoundTrip(a);
    }
  }

  lemma SpendingTextRoundTrip(m: nat)
    requires m > 0
    ensures ParseAmount(AmountText(-(m as int))) == Some(-(m as int))
  {
    assert AmountText(-(m as int)) == "-" + UnsignedText(m);
    UnsignedAmountRoundTrip(m);
    ParseNegated(UnsignedText(m), m);
  }

  lemma IncomeTextRoundTrip(a: int)
    requires a >= 0
    ensures ParseAmount(AmountText(a)) == Some(a)
  {
    var t := UnsignedText(a);
    UnsignedAmountRoundTrip(a);
    assert IsDigit(NatToString(a / 100)[0]);
    assert t[0] == NatToString(a / 100)[0];
  }

  lemma ParseNegated(t: string, v: nat)
    requires ParseUnsignedAmount(t) == Some(v)
    ensures ParseAmount("-" + t) == Some(-(v as int))
  {
    assert ("-" + t)[1..] == t;
  }
}
