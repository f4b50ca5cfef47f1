/** Decimal numbers: Python's `int(cell)` as applied to the Salary cell
    (src/handler.py:77-84), and the decimal rendering of row indices and counts in the
    error messages. */
module Numbers {
  import opened Wrappers
  import opened Text

  predicate IsDigit(c: char) {
    '0' <= c <= '9'
  }

  predicate AllDigits(s: string) {
    forall k :: 0 <= k < |s| ==> IsDigit(s[k])
  }

  function DigitOf(c: char): nat
    requires IsDigit(c)
  {
    c as int - '0' as int
  }

  function DigitChar(d: nat): (c: char)
    requires d < 10
    ensures IsDigit(c) && DigitOf(c) == d
  {
    ('0' as int + d) as char
  }

  /** The value of a string of decimal digits, most significant digit first. */
  function DigitsValue(s: string): nat
    requires AllDigits(s)
  {
    if s == [] then 0 else DigitsValue(s[..|s| - 1]) * 10 + DigitOf(s[|s| - 1])
  }

  /** Python's `str(n)` for a natural number: digits only, no leading zero. */
  function NatToString(n: nat): (r: string)
    ensures |r| >= 1 && AllDigits(r)
    ensures |r| > 1 ==> r[0] != '0'
  {
    if n < 10 then [DigitChar(n)] else NatToString(n / 10) + [DigitChar(n % 10)]
  }

  /** Reading back a rendered number gives the number. */
  lemma {:induction false} NatToStringValue(n: nat)
    ensures DigitsValue(NatToString(n)) == n
  {
    if n >= 10 {
      NatToStringValue(n / 10);
      var r := NatToString(n);
      assert r[..|r| - 1] == NatToString(n / 10);
    }
  }

  /** Python's `str(n)` for any integer. */
  function IntToString(n: int): (r: string)
  {
    if n < 0 then "-" + NatToString(-n) else NatToString(n)
  }

  /** The digits of an integer literal with PEP 515 underscores: digits and underscores
      only, a digit at both ends, never two underscores in a row (so every '_' stands
      between two digits). */
  predicate DigitGroups(s: string) {
    && |s| >= 1 && IsDigit(s[0]) && IsDigit(s[|s| - 1])
    && (forall k :: 0 <= k < |s| ==> IsDigit(s[k]) || s[k] == '_')
    && (forall k :: 0 <= k < |s| - 1 ==> s[k] == '_' ==> s[k + 1] != '_')
  }

  /** `s` without its underscores. */
  function DropUnderscores(s: string): (r: string)
    requires forall k :: 0 <= k < |s| ==> IsDigit(s[k]) || s[k] == '_'
    ensures AllDigits(r) && |r| <= |s|
    ensures AllDigits(s) ==> r == s
  {
    if s == [] then []
    else if s[0] == '_' then DropUnderscores(s[1..])
    else [s[0]] + DropUnderscores(s[1..])
  }

  /** `int(t)` on a cell already stripped of white space: an optional sign, then digit
      groups. */
  function ParseSigned(t: string): (r: Option<int>)
  {
    if t == [] then None
    else
      var body := if t[0] == '-' || t[0] == '+' then t[1..] else t;
      if !DigitGroups(body) then None
      else
        var v: int := DigitsValue(DropUnderscores(body));
        Some(if t[0] == '-' then -v else v)
  }

  /** Python's `int(s)` in base 10: the white space `int()` skips is ignored at both ends,
      then an optional sign, then digits in groups joined by single underscores. Anything
      else is the `ValueError` case, here `None`. */
  function ParseInt(s: string): Option<int>
  {
    ParseSigned(Trim(IntBlanks, s))
  }

  predicate NumericChar(c: char) {
    IsIntSpace(c) || IsDigit(c) || c == '+' || c == '-' || c == '_'
  }

  lemma SignedCharset(t: string)
    requires ParseSigned(t).Some?
    ensures forall k :: 0 <= k < |t| ==> NumericChar(t[k])
  {
    var body := if t[0] == '-' || t[0] == '+' then t[1..] else t;
    forall k | 0 <= k < |t| ensures NumericChar(t[k]) {
      if k > 0 && body == t[1..] {
        assert body[k - 1] == t[k];
      }
    }
  }

  /** A cell is accepted only if it is made of the white space `int()` skips, digits, signs
      and underscores, so any cell holding a letter is the invalid-salary case. */
  lemma ParseIntCharset(s: string)
    requires ParseInt(s).Some?
    ensures forall k :: 0 <= k < |s| ==> NumericChar(s[k])
  {
    SignedCharset(Trim(IntBlanks, s));
    forall k | 0 <= k < |s| ensures NumericChar(s[k]) {
      TrimKeeps(IntBlanks, s, k);
    }
  }

  /** A rendered natural number is a single group of digits. */
  lemma RenderedDigitGroups(m: nat)
    ensures DigitGroups(NatToString(m))
    ensures DropUnderscores(NatToString(m)) == NatToString(m)
  {
    var d := NatToString(m);
    assert IsDigit(d[0]) && IsDigit(d[|d| - 1]);
  }

  /** A group of digits reads as its value. */
  lemma ParseSignedDigits(d: string, m: nat)
    requires DigitGroups(d) && AllDigits(d) && DigitsValue(d) == m
    ensures ParseSigned(d) == Some(m)
  {
    assert DropUnderscores(d) == d;
  }

  /** A minus sign before a group of digits reads as the negated value. */
  lemma ParseSignedNegative(t: string, d: string, m: nat)
    requires t == "-" + d
    requires DigitGroups(d) && AllDigits(d) && DigitsValue(d) == m
    ensures ParseSigned(t) == Some(-(m as int))
  {
    assert t[0] == '-' && t[1..] == d;
    assert DropUnderscores(d) == d;
  }

  /** The sign and digits that `str(n)` writes read back as `n`. */
  lemma ParseSignedRendered(n: int)
    ensures ParseSigned(IntToString(n)) == Some(n)
  {
    var m: nat := if n < 0 then -n else n;
    NatToStringValue(m);
    RenderedDigitGroups(m);
    if n < 0 {
      ParseSignedNegative(IntToString(n), NatToString(m), m);
    } else {
      ParseSignedDigits(NatToString(m), m);
    }
  }

  /** `int(str(n)) == n`: every rendered integer reads back as itself. */
  lemma ParseIntRoundTrip(n: int)
    ensures ParseInt(IntToString(n)) == Some(n)
  {
    var r := IntToString(n);
    assert r[0] == '-' || IsDigit(r[0]);
    assert IsDigit(r[|r| - 1]);
    TrimNoBlankEnds(IntBlanks, r);
    ParseSignedRendered(n);
  }

  /** The salary cell of the importer's own examples is rejected. */
  lemma NotANumber(s: string)
    requires s == "NOT A NUMBER"
    ensures ParseInt(s) == None
  {
    if ParseInt(s).Some? {
      ParseIntCharset(s);
    }
  }

  /** A Salary cell that starts with the unit separator U+001F is refused: `str.strip()`
      would remove that character, but `int()` does not skip it. */
  lemma UnitSeparatorIsNotANumber(s: string)
    requires s == "\U{1F}80000"
    ensures ParseInt(s) == None
    ensures Strip(s) == "80000"
  {
    if ParseInt(s).Some? {
      ParseIntCharset(s);
    }
    assert SkipBlank(StrBlanks, s, 1) == 1;
    assert TrimStart(StrBlanks, s) == 1;
    TrimNoBlankEnds(StrBlanks, s[1..]);
  }
}
