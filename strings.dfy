/**
 * Character-level helpers shared by the contact-form checks: the white-space class that
 * both `String.prototype.trim` and the regular-expression class `\s` use, trimming, and
 * counting and locating a character.
 */
module Strings {

  /** ECMAScript WhiteSpace and LineTerminator code points: the set behind `\s` and `trim`. */
  predicate IsSpace(c: char) {
    c == '\t' || c == '\n' || c == '\U{000B}' || c == '\U{000C}' || c == '\r' || c == ' '
    || c == '\U{00A0}' || c == '\U{1680}' || ('\U{2000}' <= c && c <= '\U{200A}')
    || c == '\U{2028}' || c == '\U{2029}' || c == '\U{202F}' || c == '\U{205F}'
    || c == '\U{3000}' || c == '\U{FEFF}'
  }

  predicate NoSpace(s: string) {
    forall k :: 0 <= k < |s| ==> !IsSpace(s[k])
  }

  predicate AllSpace(s: string) {
    forall k :: 0 <= k < |s| ==> IsSpace(s[k])
  }

  /** Drops the leading white space. */
  function TrimStart(s: string): string {
    if s != [] && IsSpace(s[0]) then TrimStart(s[1..]) else s
  }

  /** Drops the trailing white space. */
  function TrimEnd(s: string): string {
    if s != [] && IsSpace(s[|s| - 1]) then TrimEnd(s[..|s| - 1]) else s
  }

  /** `String.prototype.trim`: removes white space from both ends. */
  function Trim(s: string): string {
    TrimEnd(TrimStart(s))
  }

  /**
   * `r` is what trimming `s` must give: a slice of `s` that neither starts nor ends with
   * white space and outside of which `s` holds only white space.
   */
  ghost predicate IsTrimOf(r: string, s: string) {
    exists lo :: 0 <= lo <= |s| - |r| && r == s[lo..lo + |r|] && AllSpace(s[..lo])
      && AllSpace(s[lo + |r|..]) && (r == [] || (!IsSpace(r[0]) && !IsSpace(r[|r| - 1])))
  }

  /** `TrimStart` keeps a suffix and drops only white space before it. */
  lemma {:induction false} TrimStartSuffix(s: string)
    ensures var r := TrimStart(s);
      |r| <= |s| && r == s[|s| - |r|..] && AllSpace(s[..|s| - |r|]) && (r == [] || !IsSpace(r[0]))
  {
    if s != [] && IsSpace(s[0]) {
      TrimStartSuffix(s[1..]);
      var r := TrimStart(s);
      assert s[..|s| - |r|] == [s[0]] + s[1..][..|s| - 1 - |r|];
    } else {
      assert s[..0] == [];
    }
  }

  /** `TrimEnd` keeps a prefix and drops only white space after it. */
  lemma {:induction false} TrimEndPrefix(s: string)
    ensures var r := TrimEnd(s);
      |r| <= |s| && r == s[..|r|] && AllSpace(s[|r|..]) && (r == [] || !IsSpace(r[|r| - 1]))
  {
    if s != [] && IsSpace(s[|s| - 1]) {
      var t := s[..|s| - 1];
      TrimEndPrefix(t);
      var r := TrimEnd(s);
      assert s[|r|..] == t[|r|..] + [s[|s| - 1]];
    } else {
      assert s[|s|..] == [];
    }
  }

  /** `Trim` gives the trimmed form. */
  lemma TrimIsTrimOf(s: string)
    ensures IsTrimOf(Trim(s), s)
  {
    var t := TrimStart(s);
    TrimStartSuffix(s);
    var r := TrimEnd(t);
    TrimEndPrefix(t);
    var lo := |s| - |t|;
    assert s[lo..lo + |r|] == r;
    assert s[lo + |r|..] == t[|r|..];
  }

  /** A string has only one trimmed form, so `Trim` is fixed by `IsTrimOf`. */
  lemma TrimOfUnique(r1: string, r2: string, s: string)
    requires IsTrimOf(r1, s) && IsTrimOf(r2, s)
    ensures r1 == r2
  {
    var lo1 :| 0 <= lo1 <= |s| - |r1| && r1 == s[lo1..lo1 + |r1|] && AllSpace(s[..lo1])
      && AllSpace(s[lo1 + |r1|..]) && (r1 == [] || (!IsSpace(r1[0]) && !IsSpace(r1[|r1| - 1])));
    var lo2 :| 0 <= lo2 <= |s| - |r2| && r2 == s[lo2..lo2 + |r2|] && AllSpace(s[..lo2])
      && AllSpace(s[lo2 + |r2|..]) && (r2 == [] || (!IsSpace(r2[0]) && !IsSpace(r2[|r2| - 1])));
    SpaceOutside(s, lo1, lo1 + |r1|);
    SpaceOutside(s, lo2, lo2 + |r2|);
    assert r1 != [] ==> lo1 == lo2 && |r1| == |r2|;
    assert r2 != [] ==> lo1 == lo2 && |r1| == |r2|;
  }

  lemma SpaceOutside(s: string, lo: nat, hi: nat)
    requires lo <= hi <= |s| && AllSpace(s[..lo]) && AllSpace(s[hi..])
    ensures forall k :: 0 <= k < |s| && (k < lo || hi <= k) ==> IsSpace(s[k])
  {
    forall k | 0 <= k < |s| && (k < lo || hi <= k) ensures IsSpace(s[k]) {
      if k < lo { assert s[..lo][k] == s[k]; } else { assert s[hi..][k - hi] == s[k]; }
    }
  }

  /** Trimming twice is trimming once. */
  lemma TrimIdempotent(s: string)
    ensures Trim(Trim(s)) == Trim(s)
  {
    var t := Trim(s);
    TrimIsTrimOf(s);
    TrimIsTrimOf(t);
    assert IsTrimOf(t, t) by {
      assert t[0..0 + |t|] == t;
      assert t[..0] == [] && t[0 + |t|..] == [];
    }
    TrimOfUnique(Trim(t), t, t);
  }

  /** A value that neither starts nor ends with white space is its own trimmed form. */
  lemma NoEdgeSpace(s: string)
    requires s == [] || (!IsSpace(s[0]) && !IsSpace(s[|s| - 1]))
    ensures Trim(s) == s
  {
    TrimIsTrimOf(s);
    assert IsTrimOf(s, s) by {
      assert s[0..0 + |s|] == s;
      assert s[..0] == [] && s[0 + |s|..] == [];
    }
    TrimOfUnique(Trim(s), s, s);
  }

  /** Number of occurrences of `c` in `s`. */
  function Count(s: string, c: char): (n: nat)
    ensures n <= |s|
    ensures n == 0 <==> c !in s
  {
    if s == [] then 0
    else
      assert s == [s[0]] + s[1..];
      (if s[0] == c then 1 else 0) + Count(s[1..], c)
  }

  lemma {:induction false} CountAppend(a: string, b: string, c: char)
    ensures Count(a + b, c) == Count(a, c) + Count(b, c)
  {
    if a == [] {
      assert a + b == b;
    } else {
      assert (a + b)[1..] == a[1..] + b;
      CountAppend(a[1..], b, c);
    }
  }

  /** The position of the first occurrence of `c` in `s`. */
  function IndexOf(s: string, c: char): (k: nat)
    requires c in s
    ensures k < |s| && s[k] == c && c !in s[..k]
  {
    if s[0] == c then 0
    else
      assert c in s[1..] by { assert s == [s[0]] + s[1..]; }
      var k := 1 + IndexOf(s[1..], c);
      assert s[..k] == [s[0]] + s[1..][..k - 1];
      k
  }
}
