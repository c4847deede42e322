/**
  The e-mail shape check of the user service (`isValidEmail`, main.go).

  The Go code matches the regular expression
      ^[a-zA-Z0-9._%+-]+@[a-zA-Z0-9.-]+\.[a-zA-Z]{2,}$
  Here the same language is given twice: once as a character-level
  recogniser (`IsValidEmail`, which splits at the first `@` and at the last
  `.` after it) and once as the regular expression's own reading, "there is a
  split local `@` domain `.` tld" (`MatchesPattern`). `IsValidEmailCorrect`
  proves the two agree on every string.
*/
module Email {
  import opened Options

  /* ---------- character classes of the pattern ---------- */

  /** `[a-zA-Z]` */
  predicate IsLetter(c: char) {
    ('a' <= c <= 'z') || ('A' <= c <= 'Z')
  }

  /** `[0-9]` */
  predicate IsDigit(c: char) {
    '0' <= c <= '9'
  }

  /** `[a-zA-Z0-9._%+-]`, the class of the part before `@`. */
  predicate IsLocalChar(c: char) {
    IsLetter(c) || IsDigit(c) || c == '.' || c == '_' || c == '%' || c == '+' || c == '-'
  }

  /** `[a-zA-Z0-9.-]`, the class of the part between `@` and the last `.`. */
  predicate IsDomainChar(c: char) {
    IsLetter(c) || IsDigit(c) || c == '.' || c == '-'
  }

  /* ---------- the recogniser ---------- */

  /** Every character of `s` is in the class `p`, checked left to right. */
  predicate AllIn(s: string, p: char -> bool) {
    |s| == 0 || (p(s[0]) && AllIn(s[1..], p))
  }

  /** Position of the first `c` in `s`, if any. */
  function IndexOf(s: string, c: char): (r: Option<nat>)
    ensures r.Some? ==> r.value < |s| && s[r.value] == c
    ensures r.Some? ==> forall i :: 0 <= i < r.value ==> s[i] != c
    ensures r.None? ==> forall i :: 0 <= i < |s| ==> s[i] != c
  {
    if |s| == 0 then None
    else if s[0] == c then Some(0)
    else match IndexOf(s[1..], c)
      case None => None
      case Some(k) => Some(k + 1)
  }

  /** Position of the last `c` in `s`, if any. */
  function LastIndexOf(s: string, c: char): (r: Option<nat>)
    ensures r.Some? ==> r.value < |s| && s[r.value] == c
    ensures r.Some? ==> forall i :: r.value < i < |s| ==> s[i] != c
    ensures r.None? ==> forall i :: 0 <= i < |s| ==> s[i] != c
  {
    if |s| == 0 then None
    else if s[|s| - 1] == c then Some(|s| - 1)
    else LastIndexOf(s[..|s| - 1], c)
  }

  /**
    `isValidEmail`: split at the first `@`; in what follows it, split at the
    last `.`; the three pieces must be a non-empty local part, a non-empty
    domain and a top-level domain of at least two letters.
  */
  predicate IsValidEmail(email: string) {
    match IndexOf(email, '@')
    case None => false
    case Some(at) =>
      var rest := email[at + 1..];
      match LastIndexOf(rest, '.')
      case None => false
      case Some(dot) => PiecesValid(email[..at], rest[..dot], rest[dot + 1..])
  }

  /** The three pieces the recogniser cut out are each in their class. */
  predicate PiecesValid(local: string, domain: string, tld: string) {
    && |local| >= 1 && AllIn(local, IsLocalChar)
    && |domain| >= 1 && AllIn(domain, IsDomainChar)
    && |tld| >= 2 && AllIn(tld, IsLetter)
  }

  /* ---------- the pattern, read as a regular expression ---------- */

  /** `[a-zA-Z0-9._%+-]+` */
  ghost predicate LocalPart(s: string) {
    |s| >= 1 && forall i :: 0 <= i < |s| ==> IsLocalChar(s[i])
  }

  /** `[a-zA-Z0-9.-]+` */
  ghost predicate DomainPart(s: string) {
    |s| >= 1 && forall i :: 0 <= i < |s| ==> IsDomainChar(s[i])
  }

  /** `[a-zA-Z]{2,}` */
  ghost predicate TldPart(s: string) {
    |s| >= 2 && forall i :: 0 <= i < |s| ==> IsLetter(s[i])
  }

  /** `email` is the concatenation local `@` domain `.` tld. */
  ghost predicate IsSplit(email: string, local: string, domain: string, tld: string) {
    email == local + "@" + domain + "." + tld
  }

  /** The whole string (`^…$`) is in the language of the pattern. */
  ghost predicate MatchesPattern(email: string) {
    exists local, domain, tld ::
      IsSplit(email, local, domain, tld) && LocalPart(local) && DomainPart(domain) && TldPart(tld)
  }

  /* ---------- the recogniser decides the pattern ---------- */

  lemma {:induction false} AllInEvery(s: string, p: char -> bool)
    ensures AllIn(s, p) <==> forall i :: 0 <= i < |s| ==> p(s[i])
    decreases |s|
  {
    if |s| > 0 {
      AllInEvery(s[1..], p);
      assert forall i :: 1 <= i < |s| ==> s[i] == s[1..][i - 1];
    }
  }

  /** No character of a class that excludes `c` is `c`. */
  lemma ClassExcludes(s: string, p: char -> bool, c: char)
    requires forall i :: 0 <= i < |s| ==> p(s[i])
    requires !p(c)
    ensures forall i :: 0 <= i < |s| ==> s[i] != c
    ensures multiset(s)[c] == 0
  {
  }

  /** In local `@` rest, with no `@` in local, the first `@` is the one after local. */
  lemma FirstAtAfterLocal(email: string, local: string, rest: string)
    requires email == local + "@" + rest
    requires forall i :: 0 <= i < |local| ==> local[i] != '@'
    ensures IndexOf(email, '@') == Some(|local|)
    ensures email[..|local|] == local && email[|local| + 1..] == rest
  {
    assert email[|local|] == '@';
    assert forall i :: 0 <= i < |local| ==> email[i] == local[i];
  }

  /** In domain `.` tld, with no `.` in tld, the last `.` is the one before tld. */
  lemma LastDotBeforeTld(rest: string, domain: string, tld: string)
    requires rest == domain + "." + tld
    requires forall i :: 0 <= i < |tld| ==> tld[i] != '.'
    ensures LastIndexOf(rest, '.') == Some(|domain|)
    ensures rest[..|domain|] == domain && rest[|domain| + 1..] == tld
  {
    assert rest[|domain|] == '.';
    assert forall i :: |domain| < i < |rest| ==> rest[i] == tld[i - |domain| - 1];
  }

  /** A string with a split has its `@` and its `.` exactly where the recogniser looks. */
  lemma SplitIsFound(email: string, local: string, domain: string, tld: string)
    requires IsSplit(email, local, domain, tld)
    requires LocalPart(local) && TldPart(tld)
    ensures IndexOf(email, '@') == Some(|local|)
    ensures email[..|local|] == local
    ensures LastIndexOf(email[|local| + 1..], '.') == Some(|domain|)
    ensures email[|local| + 1..][..|domain|] == domain
    ensures email[|local| + 1..][|domain| + 1..] == tld
  {
    var rest := domain + "." + tld;
    assert email == local + "@" + rest;
    ClassExcludes(local, IsLocalChar, '@');
    FirstAtAfterLocal(email, local, rest);
    ClassExcludes(tld, IsLetter, '.');
    LastDotBeforeTld(rest, domain, tld);
  }

  /** Pieces the recogniser accepts are pieces of the pattern. */
  lemma PiecesAreParts(local: string, domain: string, tld: string)
    requires PiecesValid(local, domain, tld)
    ensures LocalPart(local) && DomainPart(domain) && TldPart(tld)
  {
    AllInEvery(local, IsLocalChar);
    AllInEvery(domain, IsDomainChar);
    AllInEvery(tld, IsLetter);
  }

  /** Cutting at an `@` and then at a `.` after it is a split. */
  lemma CutIsSplit(email: string, at: nat, dot: nat)
    requires at < |email| && email[at] == '@'
    requires dot < |email[at + 1..]| && email[at + 1..][dot] == '.'
    ensures IsSplit(email, email[..at], email[at + 1..][..dot], email[at + 1..][dot + 1..])
  {
    var rest := email[at + 1..];
    assert rest == rest[..dot] + "." + rest[dot + 1..];
    assert email == email[..at] + "@" + rest;
  }

  /** Whatever the recogniser accepts has a split the pattern matches. */
  lemma AcceptedMatches(email: string)
    requires IsValidEmail(email)
    ensures MatchesPattern(email)
  {
    var at := IndexOf(email, '@').value;
    var rest := email[at + 1..];
    var dot := LastIndexOf(rest, '.').value;
    PiecesAreParts(email[..at], rest[..dot], rest[dot + 1..]);
    CutIsSplit(email, at, dot);
  }

  /** Pieces of the pattern pass the recogniser's class checks. */
  lemma PartsArePieces(local: string, domain: string, tld: string)
    requires LocalPart(local) && DomainPart(domain) && TldPart(tld)
    ensures PiecesValid(local, domain, tld)
  {
    AllInEvery(local, IsLocalChar);
    AllInEvery(domain, IsDomainChar);
    AllInEvery(tld, IsLetter);
  }

  /** Whatever the pattern matches, the recogniser accepts. */
  lemma MatchesAccepted(email: string)
    requires MatchesPattern(email)
    ensures IsValidEmail(email)
  {
    var local, domain, tld :|
      IsSplit(email, local, domain, tld) && LocalPart(local) && DomainPart(domain) && TldPart(tld);
    SplitIsFound(email, local, domain, tld);
    PartsArePieces(local, domain, tld);
    var at := |local|;
    var rest := email[at + 1..];
    var dot := |domain|;
    assert IndexOf(email, '@') == Some(at);
    assert LastIndexOf(rest, '.') == Some(dot);
    assert PiecesValid(email[..at], rest[..dot], rest[dot + 1..]);
  }

  /** `isValidEmail` accepts exactly the strings the regular expression matches. */
  lemma IsValidEmailCorrect(email: string)
    ensures IsValidEmail(email) <==> MatchesPattern(email)
  {
    if IsValidEmail(email) {
      AcceptedMatches(email);
    }
    if MatchesPattern(email) {
      MatchesAccepted(email);
    }
  }

  /**
    What an accepted address looks like: exactly one `@`, at least six
    characters (so the empty string is rejected), and a last `.` followed by
    two or more letters up to the end.
  */
  lemma AcceptedShape(email: string)
    requires IsValidEmail(email)
    ensures |email| >= 6
    ensures multiset(email)['@'] == 1
    ensures exists d :: 0 <= d < |email| - 2 && email[d] == '.' &&
              forall i :: d < i < |email| ==> IsLetter(email[i])
  {
    AcceptedMatches(email);
    var local, domain, tld :|
      IsSplit(email, local, domain, tld) && LocalPart(local) && DomainPart(domain) && TldPart(tld);
    SplitHasOneAt(email, local, domain, tld);
    SplitEndsInTld(email, local, domain, tld);
  }

  /** A split of the pattern holds exactly one `@`. */
  lemma SplitHasOneAt(email: string, local: string, domain: string, tld: string)
    requires IsSplit(email, local, domain, tld)
    requires LocalPart(local) && DomainPart(domain) && TldPart(tld)
    ensures multiset(email)['@'] == 1
  {
    ClassExcludes(local, IsLocalChar, '@');
    ClassExcludes(domain, IsDomainChar, '@');
    ClassExcludes(tld, IsLetter, '@');
    assert multiset(email) == multiset(local) + multiset("@") + multiset(domain) + multiset(".") + multiset(tld);
  }

  /** A split of the pattern ends in a `.` and two or more letters. */
  lemma SplitEndsInTld(email: string, local: string, domain: string, tld: string)
    requires IsSplit(email, local, domain, tld)
    requires LocalPart(local) && DomainPart(domain) && TldPart(tld)
    ensures |email| >= 6
    ensures exists d :: 0 <= d < |email| - 2 && email[d] == '.' &&
              forall i :: d < i < |email| ==> IsLetter(email[i])
  {
    var d := |local| + 1 + |domain|;
    assert email[d] == '.';
    assert forall i :: d < i < |email| ==> email[i] == tld[i - d - 1];
  }

  /** An address the pattern accepts, with the split the recogniser finds. */
  lemma AcceptedExample()
    ensures IsValidEmail("a@b.co")
  {
    assert IndexOf("a@b.co", '@') == Some(1);
    assert LastIndexOf("a@b.co"[2..], '.') == Some(1);
  }

  /** A second `@` ends up in the domain, where the class rejects it. */
  lemma RejectedTwoAts()
    ensures !IsValidEmail("a@@b.co")
  {
    assert !IsDomainChar('@');
  }

  /** A digit after the last `.` is not a top-level domain. */
  lemma RejectedDigitInTld()
    ensures !IsValidEmail("a@b.c0m")
  {
    assert !IsLetter('0');
  }

  /** One letter after the last `.` is too short a top-level domain. */
  lemma RejectedShortTld()
    ensures !IsValidEmail("a@b.c")
  {
    assert |"c"| < 2;
  }
}
