/**
 * The contact form's e-mail check, the pattern `^[^\s@]+@[^\s@]+\.[^\s@]+$`, stated twice:
 * once as the language of that pattern and once character by character; the two agree.
 */
module Email {
  import opened Strings

  /** A member of the class `[^\s@]`. */
  predicate IsAtomChar(c: char) {
    !IsSpace(c) && c != '@'
  }

  /** A match of `[^\s@]+`. */
  predicate IsAtom(s: string) {
    |s| > 0 && forall k :: 0 <= k < |s| ==> IsAtomChar(s[k])
  }

  /**
   * The language of the anchored pattern: `s` splits as local `@` host `.` rest, each part a
   * non-empty run without white space or `@`. Backtracking lets the `.` be any dot of the
   * domain, so `i` and `j` range over every split.
   */
  ghost predicate MatchesPattern(s: string) {
    exists i, j :: 0 <= i < j < |s| && s[i] == '@' && s[j] == '.'
      && IsAtom(s[..i]) && IsAtom(s[i + 1..j]) && IsAtom(s[j + 1..])
  }

  /** `d` holds a `.` that is neither its first nor its last character. */
  predicate HasInnerDot(d: string) {
    exists j :: 0 < j < |d| - 1 && d[j] == '.'
  }

  /**
   * The check by characters: no white space, exactly one `@`, something before it, and a
   * domain after it with an inner dot.
   */
  predicate IsValidEmail(s: string) {
    NoSpace(s) && Count(s, '@') == 1 &&
    var k := IndexOf(s, '@');
    k > 0 && HasInnerDot(s[k + 1..])
  }

  lemma ValidEmailMatches(s: string)
    requires IsValidEmail(s)
    ensures MatchesPattern(s)
  {
    var i := IndexOf(s, '@');
    var d := s[i + 1..];
    var jd :| 0 < jd < |d| - 1 && d[jd] == '.';
    var j := i + 1 + jd;
    assert s == s[..i] + [s[i]] + d;
    CountAppend(s[..i] + [s[i]], d, '@');
    CountAppend(s[..i], [s[i]], '@');
    assert '@' !in d;
    assert s[i + 1..j] == d[..jd];
    assert s[j + 1..] == d[jd + 1..];
    assert s[j] == d[jd];
    assert IsAtom(s[..i]);
    assert IsAtom(s[i + 1..j]);
    assert IsAtom(s[j + 1..]);
  }

  lemma MatchesValidEmail(s: string)
    requires MatchesPattern(s)
    ensures IsValidEmail(s)
  {
    var i, j :| 0 <= i < j < |s| && s[i] == '@' && s[j] == '.'
      && IsAtom(s[..i]) && IsAtom(s[i + 1..j]) && IsAtom(s[j + 1..]);
    DomainIsAtom(s, i, j);
    NoSpaceAroundAt(s, i);
    assert s == s[..i] + "@" + s[i + 1..];
    ValidFromParts(s[..i], s[i + 1..], j - (i + 1));
  }

  lemma DomainIsAtom(s: string, i: nat, j: nat)
    requires 0 <= i < j < |s| && s[j] == '.' && IsAtom(s[i + 1..j]) && IsAtom(s[j + 1..])
    ensures IsAtom(s[i + 1..])
  {
    var d, jd := s[i + 1..], j - (i + 1);
    forall k | 0 <= k < |d| ensures IsAtomChar(d[k]) {
      if k < jd { assert d[k] == s[i + 1..j][k]; }
      else if k > jd { assert d[k] == s[j + 1..][k - jd - 1]; }
    }
  }

  lemma NoSpaceAroundAt(s: string, i: nat)
    requires i < |s| && s[i] == '@' && IsAtom(s[..i]) && IsAtom(s[i + 1..])
    ensures NoSpace(s)
  {
    forall k | 0 <= k < |s| ensures !IsSpace(s[k]) {
      if k < i { assert s[k] == s[..i][k]; }
      else if k > i { assert s[k] == s[i + 1..][k - i - 1]; }
    }
  }

  lemma ValidFromParts(local: string, domain: string, dot: nat)
    requires |local| > 0 && '@' !in local && '@' !in domain
    requires NoSpace(local + "@" + domain)
    requires 0 < dot < |domain| - 1 && domain[dot] == '.'
    ensures IsValidEmail(local + "@" + domain)
  {
    SplitAtSign(local, domain);
  }

  /** The character-level check accepts exactly the language of the pattern. */
  lemma ValidEmailIffMatches(s: string)
    ensures IsValidEmail(s) <==> MatchesPattern(s)
  {
    if IsValidEmail(s) { ValidEmailMatches(s); }
    if MatchesPattern(s) { MatchesValidEmail(s); }
  }

  /** `IndexOf` is the one position holding `c` with no `c` before it. */
  lemma {:induction false} IndexOfFirst(s: string, c: char, i: nat)
    requires i < |s| && s[i] == c && c !in s[..i]
    ensures IndexOf(s, c) == i
  {
    if i > 0 {
      assert s[0] == s[..i][0];
      assert s[1..][..i - 1] == s[..i][1..];
      IndexOfFirst(s[1..], c, i - 1);
    }
  }

  /** A string made of a local part, `@`, and a domain that contains no `@`. */
  lemma SplitAtSign(local: string, domain: string)
    requires '@' !in local && '@' !in domain
    ensures var s := local + "@" + domain;
      Count(s, '@') == 1 && IndexOf(s, '@') == |local| && s[|local| + 1..] == domain
  {
    var s := local + "@" + domain;
    CountAppend(local + "@", domain, '@');
    CountAppend(local, "@", '@');
    assert s[..|local|] == local;
    IndexOfFirst(s, '@', |local|);
    assert s[|local| + 1..] == domain;
  }

  lemma AcceptsExample()
    ensures IsValidEmail("user@example.com")
  {
    assert "user" + "@" + "example.com" == "user@example.com";
    ValidFromParts("user", "example.com", 7);
  }

  lemma RejectsMissingDot()
    ensures !IsValidEmail("user@example")
  {
    assert "user" + "@" + "example" == "user@example";
    assert '.' !in "example";
    RejectsWithoutDot("user", "example");
  }

  lemma RejectsWithoutDot(local: string, domain: string)
    requires '@' !in local && '@' !in domain && '.' !in domain
    ensures !IsValidEmail(local + "@" + domain)
  {
    SplitAtSign(local, domain);
  }

  lemma RejectsSpace()
    ensures !IsValidEmail("user example.com")
  {
    assert IsSpace("user example.com"[4]);
  }
}
