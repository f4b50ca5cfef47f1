/** The e-mail check applied to the Email cell and to the Manager cell: the cell is
    lower-cased and stripped, then `re.match` is applied with the anchored pattern
    `^[a-z0-9._%+-]+@[a-z0-9.-]+\.[a-z]{2,}$` (src/handler.py:31-38 and 46-54). */
module Emails {
  import opened Text

  predicate IsLocalChar(c: char) {
    'a' <= c <= 'z' || '0' <= c <= '9' || c == '.' || c == '_' || c == '%' || c == '+' || c == '-'
  }

  predicate IsDomainChar(c: char) {
    'a' <= c <= 'z' || '0' <= c <= '9' || c == '.' || c == '-'
  }

  predicate IsTldChar(c: char) {
    'a' <= c <= 'z'
  }

  /** `[a-z0-9._%+-]+` */
  predicate LocalPart(s: string) {
    |s| >= 1 && forall k :: 0 <= k < |s| ==> IsLocalChar(s[k])
  }

  /** `[a-z0-9.-]+` */
  predicate DomainPart(s: string) {
    |s| >= 1 && forall k :: 0 <= k < |s| ==> IsDomainChar(s[k])
  }

  /** `[a-z]{2,}` */
  predicate TopLevel(s: string) {
    |s| >= 2 && forall k :: 0 <= k < |s| ==> IsTldChar(s[k])
  }

  /** Reference reading of the pattern between `^` and `$`: the whole of `s` splits as
      local part, '@', domain, '.', top-level part, for SOME choice of the two split points
      (the regex engine backtracks over them). */
  ghost predicate MatchesPattern(s: string) {
    exists at, dot :: 0 <= at < dot < |s| && s[at] == '@' && s[dot] == '.'
      && LocalPart(s[..at]) && DomainPart(s[at + 1..dot]) && TopLevel(s[dot + 1..])
  }

  /** Python's `$` also matches just before a newline that ends the string. */
  ghost predicate RegexMatch(s: string) {
    MatchesPattern(s) || (|s| > 0 && s[|s| - 1] == '\n' && MatchesPattern(s[..|s| - 1]))
  }

  /** Deterministic scan for the pattern: split at the first '@', then split what follows
      at its last '.'. */
  function CheckPattern(s: string): bool {
    var at := IndexOf(s, '@');
    at < |s| && LocalPart(s[..at]) && CheckDomain(s[at + 1..])
  }

  /** The scan of what follows the '@': domain, last '.', top-level part. */
  function CheckDomain(domain: string): bool {
    var dot := LastIndexOf(domain, '.');
    0 <= dot && DomainPart(domain[..dot]) && TopLevel(domain[dot + 1..])
  }

  /** `re.match(pattern, s)` is truthy. */
  function IsValidEmail(s: string): bool {
    CheckPattern(s) || (|s| > 0 && s[|s| - 1] == '\n' && CheckPattern(s[..|s| - 1]))
  }

  /** The first '@' is the only candidate split point: the local part admits no '@'. */
  lemma FirstAtIsSplit(s: string, at: nat)
    requires at < |s| && s[at] == '@' && LocalPart(s[..at])
    ensures IndexOf(s, '@') == at
  {
  }

  /** The last '.' is the only candidate split point: the top-level part admits no '.'. */
  lemma LastDotIsSplit(domain: string, dot: nat)
    requires dot < |domain| && domain[dot] == '.' && TopLevel(domain[dot + 1..])
    ensures LastIndexOf(domain, '.') == dot
  {
  }

  lemma CheckPatternSound(s: string)
    requires CheckPattern(s)
    ensures MatchesPattern(s)
  {
    var at := IndexOf(s, '@');
    var domain := s[at + 1..];
    var dot := LastIndexOf(domain, '.');
    var dot' := at + 1 + dot;
    assert s[at + 1..dot'] == domain[..dot];
    assert s[dot' + 1..] == domain[dot + 1..];
    assert s[dot'] == '.';
    assert 0 <= at < dot' < |s| && s[at] == '@' && s[dot'] == '.'
      && LocalPart(s[..at]) && DomainPart(s[at + 1..dot']) && TopLevel(s[dot' + 1..]);
  }

  lemma CheckPatternComplete(s: string)
    requires MatchesPattern(s)
    ensures CheckPattern(s)
  {
    var at, dot' :| 0 <= at < dot' < |s| && s[at] == '@' && s[dot'] == '.'
      && LocalPart(s[..at]) && DomainPart(s[at + 1..dot']) && TopLevel(s[dot' + 1..]);
    SplitIsScanned(s, at, dot');
  }

  /** Any split the pattern admits is the one the scan finds. */
  lemma SplitIsScanned(s: string, at: nat, dot': nat)
    requires at < dot' < |s| && s[at] == '@' && s[dot'] == '.'
    requires LocalPart(s[..at]) && DomainPart(s[at + 1..dot']) && TopLevel(s[dot' + 1..])
    ensures CheckPattern(s)
  {
    FirstAtIsSplit(s, at);
    var domain := s[at + 1..];
    var dot := dot' - at - 1;
    assert domain[dot + 1..] == s[dot' + 1..];
    assert domain[..dot] == s[at + 1..dot'];
    DomainSplitIsScanned(domain, dot);
  }

  /** The same for the domain: a split at a '.' the pattern admits is the last '.'. */
  lemma DomainSplitIsScanned(domain: string, dot: nat)
    requires dot < |domain| && domain[dot] == '.'
    requires DomainPart(domain[..dot]) && TopLevel(domain[dot + 1..])
    ensures CheckDomain(domain)
  {
    LastDotIsSplit(domain, dot);
  }

  /** The scan accepts exactly the strings the backtracking pattern matches. */
  lemma CheckPatternCorrect(s: string)
    ensures CheckPattern(s) <==> MatchesPattern(s)
  {
    if CheckPattern(s) {
      CheckPatternSound(s);
    }
    if MatchesPattern(s) {
      CheckPatternComplete(s);
    }
  }

  /** `IsValidEmail` is `re.match` with the anchored pattern, `$` included. */
  lemma IsValidEmailCorrect(s: string)
    ensures IsValidEmail(s) <==> RegexMatch(s)
  {
    CheckPatternCorrect(s);
    if |s| > 0 {
      CheckPatternCorrect(s[..|s| - 1]);
    }
  }

  predicate NoAt(t: string) {
    forall k :: 0 <= k < |t| ==> t[k] != '@'
  }

  /** A domain the scan accepts holds no '@'. */
  lemma DomainHasNoAt(domain: string)
    requires CheckDomain(domain)
    ensures NoAt(domain)
  {
    var dot := LastIndexOf(domain, '.');
    forall k | 0 <= k < |domain| ensures domain[k] != '@' {
      if k < dot {
        assert domain[k] == domain[..dot][k];
      } else if k > dot {
        assert domain[k] == domain[dot + 1..][k - dot - 1];
      }
    }
  }

  /** An address the scan accepts holds exactly one '@', the one it splits at. */
  lemma SingleAt(s: string)
    requires CheckPattern(s)
    ensures IndexOf(s, '@') < |s|
    ensures NoAt(s[IndexOf(s, '@') + 1..])
  {
    DomainHasNoAt(s[IndexOf(s, '@') + 1..]);
  }

  /** The cleaning applied to the Email and Manager cells: `s.lower().strip()`. */
  function CleanEmail(s: string): (r: string)
    ensures |r| <= |s|
    ensures NoUpper(r)
    ensures r == [] || (!IsSpace(r[0]) && !IsSpace(r[|r| - 1]))
  {
    ToLowerNoUpper(s);
    StripNoUpper(ToLower(s));
    TrimSpec(StrBlanks, ToLower(s));
    Strip(ToLower(s))
  }

  /** What the cleaning keeps of the cell: the cleaned e-mail is the cell's characters from
      offset `a` on, each lower-cased, and everything of the cell before and after them is
      white space. */
  lemma CleanEmailSpec(s: string) returns (a: nat)
    ensures a + |CleanEmail(s)| <= |s|
    ensures forall k :: 0 <= k < |CleanEmail(s)| ==> CleanEmail(s)[k] == LowerChar(s[a + k])
    ensures forall k :: 0 <= k < a ==> IsSpace(s[k])
    ensures forall k :: a + |CleanEmail(s)| <= k < |s| ==> IsSpace(s[k])
  {
    TrimSpec(StrBlanks, ToLower(s));
    a := TrimStart(StrBlanks, ToLower(s));
    LoweredSlice(s, ToLower(s), a, CleanEmail(s));
  }

  /** A slice of the lower-cased cell, with white space only around it, read back on the
      cell itself. */
  lemma LoweredSlice(s: string, t: string, a: nat, r: string)
    requires |t| == |s| && forall k :: 0 <= k < |s| ==> t[k] == LowerChar(s[k])
    requires a + |r| <= |t| && r == t[a..a + |r|]
    requires AllBlank(StrBlanks, t[..a]) && AllBlank(StrBlanks, t[a + |r|..])
    ensures forall k :: 0 <= k < |r| ==> r[k] == LowerChar(s[a + k])
    ensures forall k :: 0 <= k < a ==> IsSpace(s[k])
    ensures forall k :: a + |r| <= k < |s| ==> IsSpace(s[k])
  {
    forall k | 0 <= k < a ensures IsSpace(s[k]) {
      assert IsBlank(StrBlanks, t[..a][k]);
    }
    forall k | a + |r| <= k < |s| ensures IsSpace(s[k]) {
      assert IsBlank(StrBlanks, t[a + |r|..][k - a - |r|]);
    }
  }

  /** The stored `normalized_email` is a fixed point of the cleaning: cleaning it again
      yields the same key, so a later row spelling the address the same way finds it. */
  lemma {:induction false} CleanEmailIdempotent(s: string)
    ensures CleanEmail(CleanEmail(s)) == CleanEmail(s)
  {
    var c := CleanEmail(s);
    ToLowerIdentity(c);
    StripIdempotent(ToLower(s));
  }

  /** On a cleaned cell the check is exactly the anchored pattern (no trailing newline). */
  lemma CleanedEmailCheck(s: string)
    ensures IsValidEmail(CleanEmail(s)) <==> MatchesPattern(CleanEmail(s))
  {
    var c := CleanEmail(s);
    CheckPatternCorrect(c);
  }

  /** An address of the importer's own examples passes. */
  lemma ExampleValidAddress(s: string)
    requires s == "bjones@performyard.com"
    ensures IsValidEmail(s)
  {
    assert s[6] == '@';
    assert s[..6] == "bjones";
    assert LocalPart("bjones");
    FirstAtIsSplit(s, 6);
    assert s[7..] == "performyard.com";
    ExampleDomain(s[7..]);
  }

  /** The domain of that address passes the domain scan. */
  lemma ExampleDomain(domain: string)
    requires domain == "performyard.com"
    ensures CheckDomain(domain)
  {
    assert domain[11] == '.';
    assert domain[12..] == "com";
    assert TopLevel("com");
    LastDotIsSplit(domain, 11);
    assert domain[..11] == "performyard";
    assert DomainPart("performyard");
  }

  /** The invalid address of the importer's own examples: it has no '@'. */
  lemma ExampleAddressWithoutAt(s: string)
    requires s == "jsmithperformyard.com"
    ensures !IsValidEmail(s)
  {
    assert s[|s| - 1] == 'm';
    assert NoAt(s);
    IndexOfAt(s, '@', |s|);
  }
}
