/**
 * The format stage of UserModel::isValidEmail (usermodel.cpp:114-115), which
 * matches the whole address against the regular expression
 *
 *     ^[a-zA-Z0-9._%+-]+@[a-zA-Z0-9.-]+\.[a-zA-Z]{2,}$
 *
 * The language of that expression is written out as MatchesPattern; the
 * executable check is the hand-written recogniser Recognise, and the two are
 * proved equal by RecogniseIffMatches.  The module also models the domain
 * extraction of usermodel.cpp:132-134.
 */
module EmailFormat {
  import opened Wrappers

  predicate IsAsciiLetter(c: char) { 'a' <= c <= 'z' || 'A' <= c <= 'Z' }

  predicate IsAsciiDigit(c: char) { '0' <= c <= '9' }

  /** The bracket class [a-zA-Z0-9._%+-] of the local part. */
  predicate IsLocalChar(c: char) {
    IsAsciiLetter(c) || IsAsciiDigit(c) || c == '.' || c == '_' || c == '%' || c == '+' || c == '-'
  }

  /** The bracket class [a-zA-Z0-9.-] of the domain part. */
  predicate IsDomainChar(c: char) {
    IsAsciiLetter(c) || IsAsciiDigit(c) || c == '.' || c == '-'
  }

  /**
   * s splits as  L "@" D "." T  with L = s[..at] a non-empty run of local
   * characters, D = s[at+1..dot] a non-empty run of domain characters and
   * T = s[dot+1..] at least two ASCII letters.
   */
  ghost predicate PatternSplit(s: string, at: int, dot: int) {
    && 0 < at && at + 1 < dot && dot + 2 < |s|
    && s[at] == '@' && s[dot] == '.'
    && (forall i :: 0 <= i < at ==> IsLocalChar(s[i]))
    && (forall i :: at < i < dot ==> IsDomainChar(s[i]))
    && (forall i :: dot < i < |s| ==> IsAsciiLetter(s[i]))
  }

  /** The set of strings the regular expression matches in full. */
  ghost predicate MatchesPattern(s: string) {
    exists at, dot :: PatternSplit(s, at, dot)
  }

  /** Length of the longest prefix of s whose characters all satisfy p. */
  function Span(s: string, p: char -> bool): (n: nat)
    ensures n <= |s|
    ensures forall i :: 0 <= i < n ==> p(s[i])
    ensures n < |s| ==> !p(s[n])
  {
    if s == [] || !p(s[0]) then 0 else 1 + Span(s[1..], p)
  }

  /** Position of the first c in s, if any (std::string::find). */
  function IndexOf(s: string, c: char): (k: Option<nat>)
    ensures k.Some? ==> k.value < |s| && s[k.value] == c
    ensures k.Some? ==> forall i :: 0 <= i < k.value ==> s[i] != c
    ensures k.None? ==> forall i :: 0 <= i < |s| ==> s[i] != c
  {
    if s == [] then None
    else if s[0] == c then Some(0)
    else match IndexOf(s[1..], c)
      case None => None
      case Some(j) => Some(j + 1)
  }

  /** Position of the last c in s, if any. */
  function LastIndexOf(s: string, c: char): (k: Option<nat>)
    ensures k.Some? ==> k.value < |s| && s[k.value] == c
    ensures k.Some? ==> forall i :: k.value < i < |s| ==> s[i] != c
    ensures k.None? ==> forall i :: 0 <= i < |s| ==> s[i] != c
  {
    if s == [] then None
    else if s[|s| - 1] == c then Some(|s| - 1)
    else LastIndexOf(s[..|s| - 1], c)
  }

  /**
   * The part after "@": domain characters only, and its last dot has a
   * non-empty prefix before it and two or more letters after it.
   */
  function DomainMatches(d: string): bool {
    Span(d, IsDomainChar) == |d| &&
    match LastIndexOf(d, '.')
    case None => false
    case Some(k) => 0 < k && k + 2 < |d| && Span(d[k + 1..], IsAsciiLetter) == |d| - (k + 1)
  }

  /**
   * The recogniser: the local class has no '@', so the local part is the
   * longest run of local characters, and it must be followed by '@'.
   */
  function Recognise(s: string): bool {
    var at := Span(s, IsLocalChar);
    0 < at < |s| && s[at] == '@' && DomainMatches(s[at + 1..])
  }

  /** The local part the pattern admits is the longest run of local characters. */
  lemma LocalPartOfSplit(s: string, at: int, dot: int)
    requires PatternSplit(s, at, dot)
    ensures Span(s, IsLocalChar) == at
  {
  }

  /** After the pattern's '@' come only domain characters, and its dot is the last dot. */
  lemma DomainOfSplit(s: string, at: int, dot: int)
    requires PatternSplit(s, at, dot)
    ensures Span(s[at + 1..], IsDomainChar) == |s| - at - 1
    ensures LastIndexOf(s[at + 1..], '.') == Some(dot - at - 1)
    ensures Span(s[dot + 1..], IsAsciiLetter) == |s| - dot - 1
  {
  }

  /** A split of s that the pattern admits is the one Recognise finds. */
  lemma SplitIsRecognised(s: string, at: int, dot: int)
    requires PatternSplit(s, at, dot)
    ensures Recognise(s)
  {
    LocalPartOfSplit(s, at, dot);
    DomainOfSplit(s, at, dot);
    assert s[at + 1..][dot - at..] == s[dot + 1..];
  }

  /** The recogniser accepts exactly the strings the regular expression matches. */
  lemma RecogniseIffMatches(s: string)
    ensures Recognise(s) <==> MatchesPattern(s)
  {
    if Recognise(s) {
      var at := Span(s, IsLocalChar);
      var d := s[at + 1..];
      var k := LastIndexOf(d, '.').value;
      var t := d[k + 1..];
      var dot := at + 1 + k;
      forall i | at < i < dot ensures IsDomainChar(s[i]) {
        assert s[i] == d[i - at - 1];
      }
      forall i | dot < i < |s| ensures IsAsciiLetter(s[i]) {
        assert s[i] == t[i - dot - 1];
      }
      assert PatternSplit(s, at, dot);
    }
    if MatchesPattern(s) {
      var at, dot :| PatternSplit(s, at, dot);
      SplitIsRecognised(s, at, dot);
    }
  }

  /**
   * The expression does not forbid leading, trailing or repeated dots in the
   * local part, nor leading or repeated dots in the domain part.
   */
  lemma DotsUnrestricted()
    ensures MatchesPattern("..a@example.com")
    ensures MatchesPattern("a.@x..co")
    ensures MatchesPattern("a@.b.co")
  {
    assert PatternSplit("..a@example.com", 3, 11);
    assert PatternSplit("a.@x..co", 2, 5);
    assert PatternSplit("a@.b.co", 1, 4);
  }

  /** A trailing dot in the domain is rejected: the address must end in letters. */
  lemma TrailingDomainDotRejected(s: string)
    requires |s| > 0 && s[|s| - 1] == '.'
    ensures !MatchesPattern(s)
  {
  }

  /** The top-level label needs two letters or more: one letter after the last dot is rejected. */
  lemma OneLetterTopLevelRejected(s: string)
    requires |s| >= 2 && s[|s| - 2] == '.'
    ensures !MatchesPattern(s)
  {
  }

  /**
   * The name handed to the MX lookup: the text after the first '@'
   * (find followed by substr(it + 1)).  When there is no '@', find yields
   * npos and npos + 1 wraps to 0, so the whole string is returned.
   */
  function DomainPart(email: string): (d: string)
    ensures '@' in email ==> |d| < |email| && email[|email| - |d| - 1] == '@'
    ensures '@' in email ==> d == email[|email| - |d|..]
    ensures '@' in email ==> '@' !in email[..|email| - |d| - 1]
    ensures '@' !in email ==> d == email
  {
    match IndexOf(email, '@')
    case None => email
    case Some(i) => email[i + 1..]
  }

  /** For a matching address the domain is everything after the pattern's '@'. */
  lemma DomainPartOfMatch(s: string, at: int, dot: int)
    requires PatternSplit(s, at, dot)
    ensures DomainPart(s) == s[at + 1..]
    ensures |DomainPart(s)| >= 4
  {
  }
}
