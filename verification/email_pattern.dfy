/** The e-mail shape the sign-up form accepts, the regular expression
    `^[^\s@]+@[^\s@]+\.[^\s@]+$`, written as a predicate over indices
    instead of through a regular-expression engine. */
module EmailPattern {
  import opened Text

  /** A character of the class `[^\s@]`. */
  predicate Plain(c: char) {
    !IsWhitespace(c) && c != '@'
  }

  predicate AllPlain(s: string) {
    forall i | 0 <= i < |s| :: Plain(s[i])
  }

  /** The regular expression matches `s`: `s` splits as
      `local + "@" + host + "." + tld` with all three parts non-empty runs of
      `[^\s@]`. The host may itself contain dots, so the split point `dot`
      is any dot that leaves a non-empty run on both sides. */
  predicate MatchesEmailRegex(s: string) {
    exists at, dot | 0 < at < |s| && at + 1 < dot < |s| - 1 ::
      && s[at] == '@' && s[dot] == '.'
      && AllPlain(s[..at]) && AllPlain(s[at + 1..dot]) && AllPlain(s[dot + 1..])
  }

  /** `at` is the position of the one and only `@` in `s`. */
  predicate OnlyAt(s: string, at: int) {
    && 0 <= at < |s| && s[at] == '@'
    && forall i | 0 <= i < |s| && s[i] == '@' :: i == at
  }

  /** The same shape described by its parts: no white space and exactly one
      `@`, something before the `@`, and after it a `.` with at least one
      character on each side. */
  predicate EmailShaped(s: string) {
    && NoWhitespace(s)
    && exists at, dot | 0 <= at < |s| && 0 <= dot < |s| ::
         && OnlyAt(s, at) && 0 < at
         && at + 1 < dot < |s| - 1 && s[dot] == '.'
  }

  /** The regular expression accepts only strings of that shape. */
  lemma MatchImpliesShaped(s: string)
    requires MatchesEmailRegex(s)
    ensures EmailShaped(s)
  {
    var at, dot :| 0 < at < |s| && at + 1 < dot < |s| - 1
      && s[at] == '@' && s[dot] == '.'
      && AllPlain(s[..at]) && AllPlain(s[at + 1..dot]) && AllPlain(s[dot + 1..]);
    forall i | 0 <= i < |s| ensures !IsWhitespace(s[i]) && (s[i] == '@' ==> i == at) {
      if i < at {
        assert s[..at][i] == s[i];
      } else if at < i < dot {
        assert s[at + 1..dot][i - at - 1] == s[i];
      } else if dot < i {
        assert s[dot + 1..][i - dot - 1] == s[i];
      }
    }
    assert OnlyAt(s, at);
  }

  /** Every string of that shape matches the regular expression. */
  lemma ShapedImpliesMatch(s: string)
    requires EmailShaped(s)
    ensures MatchesEmailRegex(s)
  {
  }

  /** The regular expression accepts exactly the strings of that shape. */
  lemma EmailRegexIffShaped(s: string)
    ensures MatchesEmailRegex(s) <==> EmailShaped(s)
  {
    if MatchesEmailRegex(s) { MatchImpliesShaped(s); }
    if EmailShaped(s) { ShapedImpliesMatch(s); }
  }

  // ---------------------------------------------------------------------
  // A linear test that gives the same answer as `emailRegex.test(email)`

  /** Index of the first `c` in `s`, or -1 when there is none. */
  function IndexOf(s: string, c: char): (r: int)
    ensures -1 <= r < |s|
  {
    if |s| == 0 then -1
    else if s[0] == c then 0
    else
      var r := IndexOf(s[1..], c);
      if r == -1 then -1 else r + 1
  }

  /** The search returns the first occurrence of `c`, and -1 only when `c`
      does not occur at all. */
  lemma {:induction false} IndexOfFindsFirst(s: string, c: char)
    ensures var r := IndexOf(s, c);
      && (r == -1 <==> forall i | 0 <= i < |s| :: s[i] != c)
      && (r >= 0 ==> s[r] == c && forall i | 0 <= i < r :: s[i] != c)
    decreases |s|
  {
    if |s| > 0 && s[0] != c {
      IndexOfFindsFirst(s[1..], c);
      assert forall i | 1 <= i < |s| :: s[1..][i - 1] == s[i];
    }
  }

  /** Every character of `s` is in `[^\s@]`, checked one by one. */
  predicate PlainRun(s: string)
    decreases |s|
  {
    |s| == 0 || (Plain(s[0]) && PlainRun(s[1..]))
  }

  lemma {:induction false} PlainRunIffAllPlain(s: string)
    ensures PlainRun(s) <==> AllPlain(s)
    decreases |s|
  {
    if |s| > 0 {
      PlainRunIffAllPlain(s[1..]);
      assert forall i | 1 <= i < |s| :: s[1..][i - 1] == s[i];
    }
  }

  /** A linear test that gives the same answer as `emailRegex.test(email)`
      (`EmailRegexTestCorrect`): split at the first `@`, check that the part
      before it is a non-empty plain run, and that the part after it is a
      plain run of at least three characters with a `.` strictly inside. */
  predicate EmailRegexTest(s: string) {
    var at := IndexOf(s, '@');
    && at > 0
    && PlainRun(s[..at])
    && var domain := s[at + 1..];
       && |domain| >= 3
       && PlainRun(domain)
       && IndexOf(domain[1..|domain| - 1], '.') >= 0
  }

  /** Whatever the linear test accepts, the regular expression matches. */
  lemma TestImpliesMatch(s: string)
    requires EmailRegexTest(s)
    ensures MatchesEmailRegex(s)
  {
    var at := IndexOf(s, '@');
    var domain := s[at + 1..];
    var j := IndexOf(domain[1..|domain| - 1], '.');
    IndexOfFindsFirst(s, '@');
    IndexOfFindsFirst(domain[1..|domain| - 1], '.');
    var dot := at + 2 + j;
    PlainRunIffAllPlain(s[..at]);
    PlainRunIffAllPlain(domain);
    assert s[dot] == domain[1..|domain| - 1][j];
    var host, tld := s[at + 1..dot], s[dot + 1..];
    assert host == domain[..j + 1];
    assert tld == domain[j + 2..];
    forall k | 0 <= k < |host| ensures Plain(host[k]) { assert host[k] == domain[k]; }
    forall k | 0 <= k < |tld| ensures Plain(tld[k]) { assert tld[k] == domain[k + j + 2]; }
  }

  /** The parts the linear test inspects, once established, make it accept. */
  lemma TestFromParts(s: string, at: int, dot: int)
    requires 0 < at && at + 1 < dot < |s| - 1 && s[dot] == '.'
    requires IndexOf(s, '@') == at
    requires PlainRun(s[..at]) && PlainRun(s[at + 1..])
    ensures EmailRegexTest(s)
  {
    var domain := s[at + 1..];
    var inner := domain[1..|domain| - 1];
    assert inner[dot - at - 2] == '.';
    IndexOfFindsFirst(inner, '.');
  }

  /** Whatever the regular expression matches, the linear test accepts. */
  lemma MatchImpliesTest(s: string)
    requires MatchesEmailRegex(s)
    ensures EmailRegexTest(s)
  {
    MatchImpliesShaped(s);
    var at, dot :| 0 <= at < |s| && 0 <= dot < |s| && OnlyAt(s, at) && 0 < at
      && at + 1 < dot < |s| - 1 && s[dot] == '.';
    IndexOfFindsFirst(s, '@');
    var local, domain := s[..at], s[at + 1..];
    forall k | 0 <= k < |local| ensures Plain(local[k]) { assert local[k] == s[k]; }
    forall k | 0 <= k < |domain| ensures Plain(domain[k]) { assert domain[k] == s[at + 1 + k]; }
    PlainRunIffAllPlain(local);
    PlainRunIffAllPlain(domain);
    TestFromParts(s, at, dot);
  }

  /** The linear test agrees with the regular expression on every string. */
  lemma EmailRegexTestCorrect(s: string)
    ensures EmailRegexTest(s) <==> MatchesEmailRegex(s)
  {
    if EmailRegexTest(s) { TestImpliesMatch(s); }
    if MatchesEmailRegex(s) { MatchImpliesTest(s); }
  }
}
