/** String helpers the ledger relies on: decimal numerals (how JavaScript
    renders a non-negative integer), String.prototype.trim,
    String.prototype.padStart and Array.prototype.join. Strings are
    sequences of Unicode scalar values. */
module Text {

  // ---------------------------------------------------------------------------
  // Decimal numerals
  // ---------------------------------------------------------------------------

  predicate IsDigit(c: char) {
    '0' <= c <= '9'
  }

  predicate AllDigits(s: string) {
    forall i :: 0 <= i < |s| ==> IsDigit(s[i])
  }

  /** A non-empty run of decimal digits. */
  predicate IsNumeral(s: string) {
    |s| > 0 && AllDigits(s)
  }

  function DigitValue(c: char): (d: nat)
    requires IsDigit(c)
    ensures d < 10
  {
    (c as int) - ('0' as int)
  }

  function DigitChar(d: nat): (c: char)
    requires d < 10
    ensures IsDigit(c) && DigitValue(c) == d
  {
    (('0' as int) + d) as char
  }

  /** The decimal rendering of n, as String(n) gives it for a non-negative
      integer: digits only, and no leading zero unless n is 0. */
  function NatToString(n: nat): (s: string)
    ensures IsNumeral(s)
    ensures n > 0 ==> s[0] != '0'
    ensures n < 10 <==> |s| == 1
    decreases n
  {
    if n < 10 then [DigitChar(n)] else NatToString(n / 10) + [DigitChar(n % 10)]
  }

  /** The value of a run of decimal digits (leading zeros allowed; the empty
      run is 0). */
  function ParseDigits(s: string): nat
    requires AllDigits(s)
  {
    if |s| == 0 then 0 else ParseDigits(s[..|s| - 1]) * 10 + DigitValue(s[|s| - 1])
  }

  /** Reading back a rendered numeral gives the number. */
  lemma {:induction false} ParseNatToString(n: nat)
    ensures ParseDigits(NatToString(n)) == n
    decreases n
  {
    var s := NatToString(n);
    if n < 10 {
      assert s[..|s| - 1] == [];
    } else {
      assert s[..|s| - 1] == NatToString(n / 10);
      ParseNatToString(n / 10);
    }
  }

  /** Distinct numbers render as distinct numerals. */
  lemma NatToStringInjective(a: nat, b: nat)
    ensures NatToString(a) == NatToString(b) <==> a == b
  {
    if NatToString(a) == NatToString(b) {
      ParseNatToString(a);
      ParseNatToString(b);
    }
  }

  // ---------------------------------------------------------------------------
  // padStart
  // ---------------------------------------------------------------------------

  function Repeat(c: char, k: nat): (r: string)
    ensures |r| == k
    ensures forall i :: 0 <= i < k ==> r[i] == c
  {
    if k == 0 then [] else [c] + Repeat(c, k - 1)
  }

  /** s.padStart(n, c): s itself when it already has n characters, otherwise
      s preceded by as many copies of c as bring it to length n. */
  function PadStart(s: string, n: nat, c: char): (r: string)
    ensures |r| == if |s| >= n then |s| else n
    ensures r[|r| - |s|..] == s
    ensures forall i :: 0 <= i < |r| - |s| ==> r[i] == c
  {
    if |s| >= n then s else Repeat(c, n - |s|) + s
  }

  /** A run of zeros reads as 0. */
  lemma {:induction false} ParseZeros(k: nat)
    ensures AllDigits(Repeat('0', k))
    ensures ParseDigits(Repeat('0', k)) == 0
  {
    if k > 0 {
      assert Repeat('0', k)[..k - 1] == Repeat('0', k - 1);
      ParseZeros(k - 1);
    }
  }

  /** Leading zeros do not change the value of a numeral. */
  lemma {:induction false} ParseLeadingZeros(k: nat, s: string)
    requires AllDigits(s)
    ensures AllDigits(Repeat('0', k) + s)
    ensures ParseDigits(Repeat('0', k) + s) == ParseDigits(s)
    decreases |s|
  {
    var z := Repeat('0', k);
    if |s| == 0 {
      assert z + s == z;
      ParseZeros(k);
    } else {
      assert (z + s)[..|z + s| - 1] == z + s[..|s| - 1];
      ParseLeadingZeros(k, s[..|s| - 1]);
    }
  }

  /** Padding a rendered number with zeros, as a month, day or year is
      padded, keeps its value readable. */
  lemma ParsePaddedNat(n: nat, width: nat)
    ensures IsNumeral(PadStart(NatToString(n), width, '0'))
    ensures ParseDigits(PadStart(NatToString(n), width, '0')) == n
  {
    var s := NatToString(n);
    ParseNatToString(n);
    if |s| < width {
      ParseLeadingZeros(width - |s|, s);
    }
  }

  /** The value of two decimal digits read as a pair. */
  function PairValue(hi: char, lo: char): nat
    requires IsDigit(hi) && IsDigit(lo)
  {
    DigitValue(hi) * 10 + DigitValue(lo)
  }

  /** Two-digit zero padding of a number below 100, as padStart(2, '0')
      applies it to a month or a day: exactly two digits, reading back as
      the number. */
  function Pad2(n: nat): (r: string)
    requires n < 100
    ensures |r| == 2 && IsDigit(r[0]) && IsDigit(r[1])
    ensures PairValue(r[0], r[1]) == n
  {
    if n < 10 then
      assert NatToString(n) == [DigitChar(n)];
      PadStart(NatToString(n), 2, '0')
    else
      assert NatToString(n / 10) == [DigitChar(n / 10)];
      PadStart(NatToString(n), 2, '0')
  }

  // ---------------------------------------------------------------------------
  // trim
  // ---------------------------------------------------------------------------

  /** The characters String.prototype.trim removes: the ECMAScript
      WhiteSpace code points (tab, vertical tab, form feed, space, no-break
      space, byte order mark and the Unicode space separators) and the
      LineTerminator code points (line feed, carriage return, line and
      paragraph separators). */
  predicate IsWhitespace(c: char) {
    var k := c as int;
    || (0x09 <= k <= 0x0D)
    || k == 0x20
    || k == 0xA0
    || k == 0x1680
    || (0x2000 <= k <= 0x200A)
    || k == 0x2028
    || k == 0x2029
    || k == 0x202F
    || k == 0x205F
    || k == 0x3000
    || k == 0xFEFF
  }

  predicate AllWhitespace(s: string) {
    forall i :: 0 <= i < |s| ==> IsWhitespace(s[i])
  }

  /** Drops the leading whitespace: the result is a suffix of s, what was
      dropped is all whitespace, and the result does not start with
      whitespace. */
  function TrimStart(s: string): (r: string)
    ensures |r| <= |s| && r == s[|s| - |r|..]
    ensures AllWhitespace(s[..|s| - |r|])
    ensures r == [] || !IsWhitespace(r[0])
    decreases |s|
  {
    if |s| > 0 && IsWhitespace(s[0]) then TrimStart(s[1..]) else s
  }

  /** Drops the trailing whitespace: the result is a prefix of s, what was
      dropped is all whitespace, and the result does not end with
      whitespace. */
  function TrimEnd(s: string): (r: string)
    ensures |r| <= |s| && r == s[..|r|]
    ensures AllWhitespace(s[|r|..])
    ensures r == [] || !IsWhitespace(r[|r| - 1])
    decreases |s|
  {
    if |s| > 0 && IsWhitespace(s[|s| - 1]) then
      var r := TrimEnd(s[..|s| - 1]);
      assert s[|r|..] == s[..|s| - 1][|r|..] + [s[|s| - 1]];
      r
    else s
  }

  /** s.trim(): what remains of s once the whitespace at both ends is
      dropped. It is a slice of s with only whitespace around it, it is
      empty exactly when s is all whitespace, and otherwise it neither
      starts nor ends with whitespace. */
  function Trim(s: string): (r: string)
    ensures r == [] <==> AllWhitespace(s)
    ensures Trimmed(r)
    ensures exists lead :: IsTrimSlice(s, lead, r)
  {
    var t := TrimStart(s);
    var r := TrimEnd(t);
    TrimSlice(s);
    TrimEmpty(s, |s| - |t|, r);
    assert r != [] ==> r[0] == t[0];
    r
  }

  /** Neither starts nor ends with whitespace. */
  predicate Trimmed(s: string) {
    s == [] || (!IsWhitespace(s[0]) && !IsWhitespace(s[|s| - 1]))
  }

  /** r is the slice of s that starts at lead, with only whitespace before
      and after it. */
  predicate IsTrimSlice(s: string, lead: int, r: string) {
    && 0 <= lead <= lead + |r| <= |s|
    && s[lead..lead + |r|] == r
    && AllWhitespace(s[..lead])
    && AllWhitespace(s[lead + |r|..])
  }

  lemma TrimSlice(s: string)
    ensures IsTrimSlice(s, |s| - |TrimStart(s)|, TrimEnd(TrimStart(s)))
  {
    var t := TrimStart(s);
    var r := TrimEnd(t);
    PrefixOfSuffix(s, |s| - |t|, t, r);
  }

  /** A prefix r of the suffix t of s, with whitespace before t and after r,
      is a trimmed slice of s. */
  lemma PrefixOfSuffix(s: string, lead: int, t: string, r: string)
    requires 0 <= lead <= |s| && t == s[lead..] && |r| <= |t| && r == t[..|r|]
    requires AllWhitespace(s[..lead]) && AllWhitespace(t[|r|..])
    ensures IsTrimSlice(s, lead, r)
  {
    assert t[|r|..] == s[lead + |r|..];
  }

  /** A slice with only whitespace around it, which does not itself end in
      whitespace, is empty exactly when the whole string is whitespace. */
  lemma TrimEmpty(s: string, lead: int, r: string)
    requires IsTrimSlice(s, lead, r)
    requires r != [] ==> !IsWhitespace(r[|r| - 1])
    ensures r == [] <==> AllWhitespace(s)
  {
    if r == [] {
      forall i | 0 <= i < |s| ensures IsWhitespace(s[i]) {
        if i < lead {
          assert s[i] == s[..lead][i];
        } else {
          assert s[i] == s[lead..][i - lead];
        }
      }
    } else {
      assert s[lead + |r| - 1] == r[|r| - 1];
    }
  }

  /** Trimming is determined by what it promises: a non-empty slice with
      only whitespace around it and none at either end is the trimmed
      text. */
  lemma TrimUnique(s: string, lead: int, r: string)
    requires IsTrimSlice(s, lead, r) && Trimmed(r) && r != []
    ensures r == Trim(s)
  {
    var t := Trim(s);
    SliceHead(s, lead, r);
    var lead' := TrimLead(s);
    SameStart(s, lead, r, lead', t);
    SameEnd(s, lead, r, lead', t);
    SameStart(s, lead', t, lead, r);
    SameEnd(s, lead', t, lead, r);
  }

  lemma TrimLead(s: string) returns (lead: int)
    ensures IsTrimSlice(s, lead, Trim(s))
  {
    lead :| IsTrimSlice(s, lead, Trim(s));
  }

  /** A trimmed non-empty slice starts with a character that is not
      whitespace, so the string is not all whitespace. */
  lemma SliceHead(s: string, lead: int, r: string)
    requires IsTrimSlice(s, lead, r) && Trimmed(r) && r != []
    ensures !AllWhitespace(s)
  {
    assert s[lead] == s[lead..lead + |r|][0];
  }

  /** Two such slices cannot start at different places. */
  lemma SameStart(s: string, a: int, r: string, b: int, t: string)
    requires IsTrimSlice(s, a, r) && Trimmed(r) && r != []
    requires IsTrimSlice(s, b, t)
    ensures a >= b
  {
    assert s[a] == s[a..a + |r|][0];
    WhitespaceBefore(s, b);
  }

  /** Two such slices cannot end at different places. */
  lemma SameEnd(s: string, a: int, r: string, b: int, t: string)
    requires IsTrimSlice(s, a, r) && Trimmed(r) && r != []
    requires IsTrimSlice(s, b, t)
    ensures a + |r| <= b + |t|
  {
    assert s[a + |r| - 1] == s[a..a + |r|][|r| - 1];
    WhitespaceAfter(s, b + |t|);
  }

  lemma WhitespaceBefore(s: string, k: int)
    requires 0 <= k <= |s| && AllWhitespace(s[..k])
    ensures forall i :: 0 <= i < k ==> IsWhitespace(s[i])
  {
    assert forall i :: 0 <= i < k ==> s[i] == s[..k][i];
  }

  lemma WhitespaceAfter(s: string, k: int)
    requires 0 <= k <= |s| && AllWhitespace(s[k..])
    ensures forall i :: k <= i < |s| ==> IsWhitespace(s[i])
  {
    assert forall i :: k <= i < |s| ==> s[i] == s[k..][i - k];
  }

  /** Trimming leaves a string without whitespace at either end as it is. */
  lemma TrimTrimmed(s: string)
    requires Trimmed(s)
    ensures Trim(s) == s
  {
    assert TrimStart(s) == s;
    assert TrimEnd(s) == s;
  }

  /** Trimming twice is the same as trimming once. */
  lemma TrimIdempotent(s: string)
    ensures Trim(Trim(s)) == Trim(s)
  {
    TrimTrimmed(Trim(s));
  }

  // ---------------------------------------------------------------------------
  // join
  // ---------------------------------------------------------------------------

  /** parts.join(sep): the parts in order with sep between neighbours. */
  function Join(parts: seq<string>, sep: string): string
  {
    if |parts| == 0 then ""
    else if |parts| == 1 then parts[0]
    else parts[0] + sep + Join(parts[1..], sep)
  }
}
