/** The Hire Date cell: `datetime.strptime(cell, '%m/%d/%Y')` and the activity flag
    `hire_date < datetime.now()` (src/handler.py:86-101). */
module Dates {
  import opened Wrappers
  import opened Text
  import opened Numbers

  /** A calendar date; the parsed hire date stands for midnight at its start. */
  datatype Date = Date(year: int, month: int, day: int)

  /** `datetime.now()`: today's date and the microseconds elapsed since midnight. */
  datatype Instant = Instant(date: Date, micros: nat)

  predicate IsLeapYear(y: int) {
    y % 4 == 0 && (y % 100 != 0 || y % 400 == 0)
  }

  function DaysInMonth(y: int, m: int): int
    requires 1 <= m <= 12
  {
    if m == 2 then (if IsLeapYear(y) then 29 else 28)
    else if m == 4 || m == 6 || m == 9 || m == 11 then 30
    else 31
  }

  /** The dates Python's `datetime` accepts (years 1 to 9999). */
  predicate ValidDate(d: Date) {
    1 <= d.year <= 9999 && 1 <= d.month <= 12 && 1 <= d.day <= DaysInMonth(d.year, d.month)
  }

  /** The `%m` directive, `(1[0-2]|0[1-9]|[1-9])`, applied to the whole field. */
  function MonthField(t: string): (r: Option<int>)
    ensures r.Some? ==> 1 <= r.value <= 12
  {
    if |t| == 1 && '1' <= t[0] <= '9' then Some(DigitOf(t[0]))
    else if |t| == 2 && t[0] == '0' && '1' <= t[1] <= '9' then Some(DigitOf(t[1]))
    else if |t| == 2 && t[0] == '1' && '0' <= t[1] <= '2' then Some(10 + DigitOf(t[1]))
    else None
  }

  /** The `%d` directive, `(3[01]|[12][0-9]|0[1-9]|[1-9]| [1-9])`, applied to the whole field. */
  function DayField(t: string): (r: Option<int>)
    ensures r.Some? ==> 1 <= r.value <= 31
  {
    if |t| == 1 && '1' <= t[0] <= '9' then Some(DigitOf(t[0]))
    else if |t| == 2 && t[0] == '3' && '0' <= t[1] <= '1' then Some(30 + DigitOf(t[1]))
    else if |t| == 2 && '1' <= t[0] <= '2' && IsDigit(t[1]) then Some(10 * DigitOf(t[0]) + DigitOf(t[1]))
    else if |t| == 2 && (t[0] == '0' || t[0] == ' ') && '1' <= t[1] <= '9' then Some(DigitOf(t[1]))
    else None
  }

  /** The `%Y` directive, four digits. */
  function YearField(t: string): Option<int>
  {
    if |t| == 4 && AllDigits(t) then Some(DigitsValue(t)) else None
  }

  /** Reference reading of `%m/%d/%Y`: the whole cell splits at two slashes into a month,
      a day and a year field, and the three make a date `datetime` accepts. */
  ghost predicate DateText(s: string, d: Date) {
    && ValidDate(d)
    && exists i, j :: 0 <= i < j < |s| && s[i] == '/' && s[j] == '/'
         && MonthField(s[..i]) == Some(d.month)
         && DayField(s[i + 1..j]) == Some(d.day)
         && YearField(s[j + 1..]) == Some(d.year)
  }

  /** `datetime.strptime(s, '%m/%d/%Y')`; `None` is the `ValueError` case. */
  function ParseHireDate(s: string): (r: Option<Date>)
    ensures r.Some? ==> ValidDate(r.value)
  {
    var i := IndexOf(s, '/');
    if i == |s| then None
    else
      var rest := s[i + 1..];
      var j := IndexOf(rest, '/');
      if j == |rest| then None
      else
        var m, d, y := MonthField(s[..i]), DayField(rest[..j]), YearField(rest[j + 1..]);
        if m.None? || d.None? || y.None? then None
        else
          var date := Date(y.value, m.value, d.value);
          if ValidDate(date) then Some(date) else None
  }

  predicate NoSlash(t: string) {
    forall k :: 0 <= k < |t| ==> t[k] != '/'
  }

  lemma FieldsHaveNoSlash(t: string)
    ensures MonthField(t).Some? ==> NoSlash(t)
    ensures DayField(t).Some? ==> NoSlash(t)
  {
  }

  lemma ParseHireDateSound(s: string)
    requires ParseHireDate(s).Some?
    ensures DateText(s, ParseHireDate(s).value)
  {
    var d := ParseHireDate(s).value;
    var i := IndexOf(s, '/');
    var rest := s[i + 1..];
    var j := IndexOf(rest, '/');
    var j' := i + 1 + j;
    assert s[i + 1..j'] == rest[..j];
    assert s[j' + 1..] == rest[j + 1..];
    assert s[j'] == '/';
    assert 0 <= i < j' < |s| && s[i] == '/' && s[j'] == '/'
      && MonthField(s[..i]) == Some(d.month)
      && DayField(s[i + 1..j']) == Some(d.day)
      && YearField(s[j' + 1..]) == Some(d.year);
  }

  lemma ParseHireDateComplete(s: string, d: Date)
    requires DateText(s, d)
    ensures ParseHireDate(s) == Some(d)
  {
    var i, j' :| 0 <= i < j' < |s| && s[i] == '/' && s[j'] == '/'
      && MonthField(s[..i]) == Some(d.month)
      && DayField(s[i + 1..j']) == Some(d.day)
      && YearField(s[j' + 1..]) == Some(d.year);
    SplitIsParsed(s, d, i, j');
  }

  /** The first slash ends a field that holds none. */
  lemma FirstSlashIsSplit(s: string, i: nat)
    requires i < |s| && s[i] == '/' && NoSlash(s[..i])
    ensures IndexOf(s, '/') == i
  {
    forall k | 0 <= k < i ensures s[k] != '/' {
      assert s[..i][k] == s[k];
    }
    IndexOfAt(s, '/', i);
  }

  /** Any split at two slashes that the format admits is the one the parser finds. */
  lemma SplitIsParsed(s: string, d: Date, i: nat, j': nat)
    requires ValidDate(d)
    requires i < j' < |s| && s[i] == '/' && s[j'] == '/'
    requires MonthField(s[..i]) == Some(d.month)
    requires DayField(s[i + 1..j']) == Some(d.day)
    requires YearField(s[j' + 1..]) == Some(d.year)
    ensures ParseHireDate(s) == Some(d)
  {
    FieldsHaveNoSlash(s[..i]);
    FirstSlashIsSplit(s, i);
    var rest := s[i + 1..];
    var j := j' - i - 1;
    assert rest[..j] == s[i + 1..j'];
    assert rest[j + 1..] == s[j' + 1..];
    FieldsHaveNoSlash(rest[..j]);
    FirstSlashIsSplit(rest, j);
  }

  /** The parser accepts exactly the cells that spell a valid date as `%m/%d/%Y`. */
  lemma ParseHireDateCorrect(s: string, d: Date)
    ensures ParseHireDate(s) == Some(d) <==> DateText(s, d)
  {
    if ParseHireDate(s) == Some(d) {
      ParseHireDateSound(s);
    }
    if DateText(s, d) {
      ParseHireDateComplete(s, d);
    }
  }

  /** Two zero-padded digits. */
  function Pad2(n: int): (r: string)
    requires 0 <= n < 100
    ensures |r| == 2 && AllDigits(r)
  {
    [DigitChar(n / 10), DigitChar(n % 10)]
  }

  /** Four zero-padded digits. */
  function Pad4(n: int): (r: string)
    requires 0 <= n < 10000
    ensures |r| == 4 && AllDigits(r)
  {
    Pad2(n / 100) + Pad2(n % 100)
  }

  /** `d.strftime('%m/%d/%Y')`. */
  function FormatDate(d: Date): string
    requires ValidDate(d)
  {
    Pad2(d.month) + "/" + Pad2(d.day) + "/" + Pad4(d.year)
  }

  lemma Pad4Value(n: int)
    requires 0 <= n < 10000
    ensures DigitsValue(Pad4(n)) == n
  {
    var p := Pad4(n);
    var a, b := n / 100, n % 100;
    assert p == [DigitChar(a / 10), DigitChar(a % 10), DigitChar(b / 10), DigitChar(b % 10)];
    assert p[..3][..2][..1][..0] == [];
    assert p[..3][..2][..1] == p[..1];
    assert p[..3][..2] == p[..2];
    assert DigitsValue(p[..1]) == a / 10;
    assert DigitsValue(p[..2]) == a;
    assert DigitsValue(p[..3]) == 10 * a + b / 10;
    assert DigitsValue(p) == 100 * a + b;
  }

  /** Every valid date written as `%m/%d/%Y` reads back as itself. */
  lemma ParseFormatRoundTrip(d: Date)
    requires ValidDate(d)
    ensures ParseHireDate(FormatDate(d)) == Some(d)
  {
    var s := FormatDate(d);
    Pad4Value(d.year);
    assert s[2] == '/' && s[5] == '/';
    assert s[..2] == Pad2(d.month);
    assert s[3..5] == Pad2(d.day);
    assert s[6..] == Pad4(d.year);
    SplitIsParsed(s, d, 2, 5);
  }

  /** The valid Hire Date cell of the importer's own examples. */
  lemma ExampleHireDate(good: string)
    requires good == "07/16/2018"
    ensures ParseHireDate(good) == Some(Date(2018, 7, 16))
  {
    assert FormatDate(Date(2018, 7, 16)) == good;
    ParseFormatRoundTrip(Date(2018, 7, 16));
  }

  /** The invalid Hire Date cell of the importer's own examples: there is no 99th month. */
  lemma ExampleInvalidHireDate(bad: string)
    requires bad == "99/99/2018"
    ensures ParseHireDate(bad) == None
  {
    assert bad[0] != '/' && bad[1] != '/' && bad[2] == '/';
    IndexOfAt(bad, '/', 2);
    assert bad[..2] == "99";
  }

  /** Dates in calendar order. */
  predicate DateBefore(a: Date, b: Date) {
    a.year < b.year || (a.year == b.year && (a.month < b.month || (a.month == b.month && a.day < b.day)))
  }

  /** `hire_date < datetime.now()`, the hire date standing for midnight at its start. */
  predicate HiredBefore(hire: Date, now: Instant) {
    DateBefore(hire, now.date) || (hire == now.date && now.micros > 0)
  }

  /** Someone hired on an earlier day than today is active, someone hired on a later day is
      not, and someone hired today is active as soon as midnight has passed. */
  lemma HiredBeforeMeaning(hire: Date, now: Instant)
    ensures DateBefore(hire, now.date) ==> HiredBefore(hire, now)
    ensures DateBefore(now.date, hire) ==> !HiredBefore(hire, now)
    ensures hire == now.date ==> (HiredBefore(hire, now) <==> now.micros > 0)
  {
  }
}
