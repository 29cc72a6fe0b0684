/** The string operations the query rewriter uses, on strings of Unicode characters. */
module Texts {
  import opened Basics

  /** unicode.IsSpace */
  predicate IsSpace(c: char) {
    || '\t' <= c <= '\r' || c == ' ' || c == '\U{85}' || c == '\U{A0}' || c == '\U{1680}'
    || '\U{2000}' <= c <= '\U{200A}' || c == '\U{2028}' || c == '\U{2029}' || c == '\U{202F}'
    || c == '\U{205F}' || c == '\U{3000}'
  }

  predicate AllSpace(s: string) {
    forall i | 0 <= i < |s| :: IsSpace(s[i])
  }

  /** The first position from i on that holds no space. */
  function SkipSpaces(s: string, i: nat): (r: nat)
    requires i <= |s|
    ensures i <= r <= |s| && (r < |s| ==> !IsSpace(s[r])) && forall j | i <= j < r :: IsSpace(s[j])
    decreases |s| - i
  {
    if i < |s| && IsSpace(s[i]) then SkipSpaces(s, i + 1) else i
  }

  /** The end of the last character before n that is no space. */
  function SkipSpacesBack(s: string, n: nat): (r: nat)
    requires n <= |s|
    ensures r <= n && (r > 0 ==> !IsSpace(s[r - 1])) && forall j | r <= j < n :: IsSpace(s[j])
  {
    if n > 0 && IsSpace(s[n - 1]) then SkipSpacesBack(s, n - 1) else n
  }

  function TrimLeft(s: string): (t: string)
    ensures t == "" || !IsSpace(t[0])
    ensures |t| <= |s| && s[|s| - |t|..] == t && AllSpace(s[..|s| - |t|])
  {
    s[SkipSpaces(s, 0)..]
  }

  function TrimRight(s: string): (t: string)
    ensures t == "" || !IsSpace(t[|t| - 1])
    ensures |t| <= |s| && s[..|t|] == t && AllSpace(s[|t|..])
  {
    s[..SkipSpacesBack(s, |s|)]
  }

  function TrimSpace(s: string): string {
    TrimRight(TrimLeft(s))
  }

  /** No space at either end. */
  predicate IsTrimmed(s: string) {
    s == "" || (!IsSpace(s[0]) && !IsSpace(s[|s| - 1]))
  }

  lemma TrimmedEnds(l: string)
    requires l == "" || !IsSpace(l[0])
    ensures IsTrimmed(TrimRight(l))
  {
    var t := TrimRight(l);
    assert l[..|t|] == t;
  }

  lemma TrimLeftSplits(s: string) returns (left: string)
    ensures s == left + TrimLeft(s) && AllSpace(left)
  {
    left := s[..|s| - |TrimLeft(s)|];
  }

  lemma TrimRightSplits(s: string) returns (right: string)
    ensures s == TrimRight(s) + right && AllSpace(right)
  {
    right := s[|TrimRight(s)|..];
  }

  lemma ConcatAssociative(a: string, b: string, c: string)
    ensures a + (b + c) == a + b + c
  {
  }

  /** The string is its trimmed form between two runs of spaces. */
  lemma TrimSpaceSplits(s: string) returns (left: string, right: string)
    ensures s == left + TrimSpace(s) + right && AllSpace(left) && AllSpace(right)
    ensures IsTrimmed(TrimSpace(s))
  {
    left := TrimLeftSplits(s);
    right := TrimRightSplits(TrimLeft(s));
    TrimmedEnds(TrimLeft(s));
    ConcatAssociative(left, TrimSpace(s), right);
  }

  lemma TrimSpaceOfTrimmed(s: string)
    requires IsTrimmed(s)
    ensures TrimSpace(s) == s
  {
  }

  predicate IsAt(s: string, pat: string, i: nat) {
    i + |pat| <= |s| && s[i..i + |pat|] == pat
  }

  /** strings.Index */
  function Index(s: string, pat: string): (r: Option<nat>)
    ensures r.Some? ==> IsAt(s, pat, r.value) && forall j: nat | j < r.value :: !IsAt(s, pat, j)
    ensures r == None ==> forall j: nat :: !IsAt(s, pat, j)
  {
    IndexFrom(s, pat, 0)
  }

  function IndexFrom(s: string, pat: string, i: nat): (r: Option<nat>)
    requires forall j: nat | j < i :: !IsAt(s, pat, j)
    ensures r.Some? ==> IsAt(s, pat, r.value) && forall j: nat | j < r.value :: !IsAt(s, pat, j)
    ensures r == None ==> forall j: nat :: !IsAt(s, pat, j)
    decreases |s| - i
  {
    if i + |pat| > |s| then None
    else if IsAt(s, pat, i) then Some(i)
    else IndexFrom(s, pat, i + 1)
  }

  /** An occurrence past a prefix. */
  lemma IsAtPast(prefix: string, s: string, pat: string, k: nat)
    ensures IsAt(prefix + s, pat, |prefix| + k) <==> IsAt(s, pat, k)
  {
    if k + |pat| <= |s| {
      assert (prefix + s)[|prefix| + k..|prefix| + k + |pat|] == s[k..k + |pat|];
    }
  }

  predicate Contains(s: string, pat: string) {
    Index(s, pat).Some?
  }

  lemma ContainsAt(s: string, pat: string, i: nat)
    requires IsAt(s, pat, i)
    ensures Contains(s, pat)
  {
  }

  predicate HasPrefix(s: string, pat: string) {
    pat <= s
  }

  lemma PrefixIsContained(s: string, pat: string)
    requires HasPrefix(s, pat)
    ensures Contains(s, pat)
  {
    assert IsAt(s, pat, 0);
  }

  lemma ContainedInPart(left: string, s: string, right: string, pat: string)
    requires Contains(s, pat)
    ensures Contains(left + s + right, pat)
  {
    var i := Index(s, pat).value;
    assert (left + s + right)[|left| + i..|left| + i + |pat|] == pat;
    ContainsAt(left + s + right, pat, |left| + i);
  }

  /** Spaces around a text hold no part of a pattern that starts and ends without one. */
  lemma OccurrenceInside(left: string, t: string, right: string, pat: string, i: nat)
    requires AllSpace(left) && AllSpace(right)
    requires pat != "" && !IsSpace(pat[0]) && !IsSpace(pat[|pat| - 1])
    requires IsAt(left + t + right, pat, i)
    ensures |left| <= i && i + |pat| <= |left| + |t|
  {
    var s := left + t + right;
    assert s[i] == pat[0] && s[i + |pat| - 1] == pat[|pat| - 1];
    assert forall j | 0 <= j < |left| :: s[j] == left[j];
    assert forall j | |left| + |t| <= j < |s| :: s[j] == right[j - |left| - |t|];
  }

  lemma SliceOfMiddle(left: string, t: string, right: string, k: nat, n: nat)
    requires k + n <= |t|
    ensures (left + t + right)[|left| + k..|left| + k + n] == t[k..k + n]
  {
    assert (left + t + right)[|left|..|left| + |t|] == t;
  }

  lemma ContainsInside(left: string, t: string, right: string, pat: string)
    requires AllSpace(left) && AllSpace(right) && Contains(left + t + right, pat)
    requires pat != "" && !IsSpace(pat[0]) && !IsSpace(pat[|pat| - 1])
    ensures Contains(t, pat)
  {
    var i := Index(left + t + right, pat).value;
    OccurrenceInside(left, t, right, pat, i);
    var k := i - |left|;
    SliceOfMiddle(left, t, right, k, |pat|);
    ContainsAt(t, pat, k);
  }

  /** A pattern without spaces at its ends is not lost by trimming. */
  lemma ContainsAfterTrim(s: string, pat: string)
    requires Contains(s, pat) && pat != "" && !IsSpace(pat[0]) && !IsSpace(pat[|pat| - 1])
    ensures Contains(TrimSpace(s), pat)
  {
    var left, right := TrimSpaceSplits(s);
    ContainsInside(left, TrimSpace(s), right, pat);
  }
}
