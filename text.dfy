/** The string operations the importer applies to the cells it cleans: Python's
    `str.strip()` (remove leading and trailing white space), the white space `int()` skips
    around a number, and `str.lower()`. */
module Text {

  /** Python's `str.isspace()` for one character: the ASCII controls TAB, LF, VT, FF and CR,
      the separators 0x1C to 0x1F, SPACE, NEL, NO-BREAK SPACE and the Unicode space
      separators. */
  predicate IsSpace(c: char) {
    var n := c as int;
    (9 <= n <= 13) || (28 <= n <= 32) || n == 0x85 || n == 0xA0 || n == 0x1680
    || (0x2000 <= n <= 0x200A) || n == 0x2028 || n == 0x2029 || n == 0x202F
    || n == 0x205F || n == 0x3000
  }

  /** What `int()` skips around a number. CPython first turns every non-ASCII white-space
      character into a SPACE and then skips only TAB, LF, VT, FF, CR and SPACE, so the
      separators 0x1C to 0x1F, which `str.isspace()` accepts, are not skipped. */
  predicate IsIntSpace(c: char) {
    var n := c as int;
    (9 <= n <= 13) || n == 32 || (n >= 128 && IsSpace(c))
  }

  /** The two white-space sets the importer trims: the one of `str.strip()` and the one of
      `int()`. */
  datatype Blanks = StrBlanks | IntBlanks

  predicate IsBlank(w: Blanks, c: char) {
    match w
    case StrBlanks => IsSpace(c)
    case IntBlanks => IsIntSpace(c)
  }

  predicate AllBlank(w: Blanks, s: string) {
    forall k :: 0 <= k < |s| ==> IsBlank(w, s[k])
  }

  /** The first index at or after `i` that does not hold white space, `|s|` if none does:
      the left-hand scan of the trim. */
  function SkipBlank(w: Blanks, s: string, i: nat): (n: nat)
    requires i <= |s|
    ensures i <= n <= |s|
    ensures forall k :: i <= k < n ==> IsBlank(w, s[k])
    ensures n < |s| ==> !IsBlank(w, s[n])
    decreases |s| - i
  {
    if i < |s| && IsBlank(w, s[i]) then SkipBlank(w, s, i + 1) else i
  }

  /** The index just past the last character of `s[lo..j]` that is not white space, `lo` if
      there is none: the right-hand scan of the trim, which stops at the left one. */
  function SkipBlankBack(w: Blanks, s: string, lo: nat, j: nat): (n: nat)
    requires lo <= j <= |s|
    ensures lo <= n <= j
    ensures forall k :: n <= k < j ==> IsBlank(w, s[k])
    ensures lo < n ==> !IsBlank(w, s[n - 1])
    decreases j
  {
    if lo < j && IsBlank(w, s[j - 1]) then SkipBlankBack(w, s, lo, j - 1) else j
  }

  /** Where the trimmed part of `s` begins. */
  function TrimStart(w: Blanks, s: string): (a: nat)
    ensures a <= |s|
  {
    SkipBlank(w, s, 0)
  }

  /** Where the trimmed part of `s` ends. */
  function TrimEnd(w: Blanks, s: string): (b: nat)
    ensures TrimStart(w, s) <= b <= |s|
  {
    SkipBlankBack(w, s, TrimStart(w, s), |s|)
  }

  /** `s` without the white space of set `w` at either end. */
  function Trim(w: Blanks, s: string): string
  {
    s[TrimStart(w, s)..TrimEnd(w, s)]
  }

  /** Python's `s.strip()`. */
  function Strip(s: string): string
  {
    Trim(StrBlanks, s)
  }

  /** What `Trim` promises: the result is the part of `s` left between a run of white space
      at the front and one at the back, and it neither starts nor ends with white space. */
  lemma TrimSpec(w: Blanks, s: string)
    ensures var r := Trim(w, s);
      var a := TrimStart(w, s);
      && a + |r| <= |s|
      && r == s[a..a + |r|]
      && AllBlank(w, s[..a]) && AllBlank(w, s[a + |r|..])
      && (r != [] ==> !IsBlank(w, r[0]) && !IsBlank(w, r[|r| - 1]))
  {
    var a := TrimStart(w, s);
    var b := TrimEnd(w, s);
    BlankSlice(w, s, 0, a);
    assert s[0..a] == s[..a];
    BlankSlice(w, s, b, |s|);
    assert s[b..|s|] == s[b..];
    var r := s[a..b];
    if r != [] {
      assert r[0] == s[a] && r[|r| - 1] == s[b - 1];
    }
  }

  /** A run of white space, taken out as a string. */
  lemma BlankSlice(w: Blanks, s: string, i: nat, j: nat)
    requires i <= j <= |s|
    requires forall k :: i <= k < j ==> IsBlank(w, s[k])
    ensures AllBlank(w, s[i..j])
  {
    forall k | 0 <= k < j - i ensures IsBlank(w, s[i..j][k]) {
      assert s[i..j][k] == s[i + k];
    }
  }

  /** Every character of `s` is either white space removed by `Trim` or a character of the
      result, at its offset. */
  lemma TrimKeeps(w: Blanks, s: string, k: nat)
    requires k < |s|
    ensures var a := TrimStart(w, s);
      IsBlank(w, s[k]) || (a <= k < a + |Trim(w, s)| && s[k] == Trim(w, s)[k - a])
  {
  }

  /** A string that neither starts nor ends with white space is left as it is. */
  lemma TrimNoBlankEnds(w: Blanks, s: string)
    requires s != [] ==> !IsBlank(w, s[0]) && !IsBlank(w, s[|s| - 1])
    ensures Trim(w, s) == s
  {
  }

  /** Stripping twice is stripping once: a cleaned cell is a fixed point of the cleaning. */
  lemma StripIdempotent(s: string)
    ensures Strip(Strip(s)) == Strip(s)
  {
    TrimSpec(StrBlanks, s);
    TrimNoBlankEnds(StrBlanks, Strip(s));
  }

  /** Python's `str.lower()` restricted to ASCII: 'A'..'Z' become 'a'..'z'. */
  function LowerChar(c: char): char {
    if 'A' <= c <= 'Z' then (c as int + 32) as char else c
  }

  predicate IsUpper(c: char) {
    'A' <= c <= 'Z'
  }

  predicate NoUpper(s: string) {
    forall k :: 0 <= k < |s| ==> !IsUpper(s[k])
  }

  /** `s.lower()`: same length, every character lower-cased in place. */
  function ToLower(s: string): (r: string)
    ensures |r| == |s|
    ensures forall k :: 0 <= k < |s| ==> r[k] == LowerChar(s[k])
  {
    if s == [] then [] else [LowerChar(s[0])] + ToLower(s[1..])
  }

  /** A lower-cased string has no upper-case letter, and lower-casing it again changes nothing. */
  lemma ToLowerNoUpper(s: string)
    ensures NoUpper(ToLower(s))
    ensures ToLower(ToLower(s)) == ToLower(s)
  {
  }

  /** Lower-casing leaves a string without upper-case letters as it is. */
  lemma ToLowerIdentity(s: string)
    requires NoUpper(s)
    ensures ToLower(s) == s
  {
  }

  /** Stripping keeps a string free of upper-case letters (it only removes characters). */
  lemma StripNoUpper(s: string)
    requires NoUpper(s)
    ensures NoUpper(Strip(s))
  {
    var a := TrimStart(StrBlanks, s);
    var r := Strip(s);
    forall k | 0 <= k < |r| ensures !IsUpper(r[k]) {
      assert r[k] == s[a + k];
    }
  }

  /** Position of the first `c` in `s`, or |s| if there is none. */
  function IndexOf(s: string, c: char): (r: nat)
    ensures r <= |s|
    ensures r < |s| ==> s[r] == c
    ensures forall k :: 0 <= k < r ==> s[k] != c
  {
    if s == [] then 0 else if s[0] == c then 0 else 1 + IndexOf(s[1..], c)
  }

  /** Position of the last `c` in `s`, or -1 if there is none. */
  function LastIndexOf(s: string, c: char): (r: int)
    ensures -1 <= r < |s|
    ensures 0 <= r ==> s[r] == c
    ensures forall k :: r < k < |s| ==> s[k] != c
  {
    if s == [] then -1
    else if s[|s| - 1] == c then |s| - 1
    else LastIndexOf(s[..|s| - 1], c)
  }

  /** The first `c` is found where it first occurs. */
  lemma IndexOfAt(s: string, c: char, i: nat)
    requires i <= |s|
    requires i < |s| ==> s[i] == c
    requires forall k :: 0 <= k < i ==> s[k] != c
    ensures IndexOf(s, c) == i
  {
  }
}
