/**
  Which fields a selection set selects: a field's text stands in it at brace depth one, outside parentheses and as a
  whole name.
 */
module Selections {
  import opened Basics
  import opened Texts
  import opened Braces
  import opened QueryRewriter
  import opened RewriterLaws

  /** A character of a GraphQL name (section 2.1.9 of the GraphQL specification). */
  predicate IsNameChar(c: char) {
    'a' <= c <= 'z' || 'A' <= c <= 'Z' || '0' <= c <= '9' || c == '_'
  }

  /** No name goes on from one side of the position to the other. */
  ghost predicate Boundary(s: string, i: nat) {
    0 < i < |s| ==> !(IsNameChar(s[i - 1]) && IsNameChar(s[i]))
  }

  ghost predicate SelectedAt(s: string, field: string, i: nat) {
    && IsAt(s, field, i) && Scan(s[..i], 1) == Some(1) && ParenNet(s[..i]) == 0
    && Boundary(s, i) && Boundary(s, i + |field|)
  }

  ghost predicate Selects(s: string, field: string) {
    exists i: nat :: SelectedAt(s, field, i)
  }

  ghost predicate SelectsTwice(s: string, field: string) {
    exists i: nat, j: nat :: i < j && SelectedAt(s, field, i) && SelectedAt(s, field, j)
  }

  ghost predicate SelectsBoth(s: string) {
    Selects(s, DOC_ID) && Selects(s, COMPLETE_VERSION)
  }

  lemma SelectedIsAt(s: string, field: string, i: nat)
    requires SelectedAt(s, field, i)
    ensures IsAt(s, field, i) && i + |field| <= |s|
  {
  }

  lemma SelectedIsContained(s: string, field: string)
    requires Selects(s, field)
    ensures Contains(s, field)
  {
    hide Contains, SelectedAt;
    var i: nat :| SelectedAt(s, field, i);
    SelectedIsAt(s, field, i);
    ContainsAt(s, field, i);
  }

  // ---------- parentheses ----------

  lemma {:induction false} ParenNetOfConcat(s: string, t: string)
    ensures ParenNet(s + t) == ParenNet(s) + ParenNet(t)
  {
    if s == "" {
      assert s + t == t;
    } else {
      assert (s + t)[1..] == s[1..] + t;
      ParenNetOfConcat(s[1..], t);
    }
  }

  lemma {:induction false} NoParens(s: string)
    requires '(' !in s && ')' !in s
    ensures ParenNet(s) == 0
  {
    if s != "" {
      NoParens(s[1..]);
    }
  }

  // ---------- past and before other texts ----------

  /**
    h and h1 can stand before s alike: the same depth of braces and of parentheses, and no name that goes on into s.
   */
  ghost predicate Alike(h: string, h1: string, s: string) {
    && Scan(h, 1) == Scan(h1, 1) && ParenNet(h) == ParenNet(h1)
    && Boundary(h + s, |h|) && Boundary(h1 + s, |h1|)
  }

  lemma BoundaryPast(h: string, s: string, k: nat)
    requires k <= |s| && Boundary(h + s, |h|)
    ensures Boundary(h + s, |h| + k) <==> Boundary(s, k)
  {
    hide IsNameChar;
    if 0 < k < |s| {
      assert (h + s)[|h| + k] == s[k] && (h + s)[|h| + k - 1] == s[k - 1];
    }
  }

  lemma SelectedPastEither(h: string, h1: string, s: string, field: string, k: nat)
    requires Alike(h, h1, s)
    ensures SelectedAt(h + s, field, |h| + k) <==> SelectedAt(h1 + s, field, |h1| + k)
  {
    hide Scan, IsNameChar, ParenNet, IsAt;
    IsAtPast(h, s, field, k);
    IsAtPast(h1, s, field, k);
    if IsAt(s, field, k) {
      assert k + |field| <= |s| by { AtIsInside(s, field, k); }
      assert (h + s)[..|h| + k] == h + s[..k] && (h1 + s)[..|h1| + k] == h1 + s[..k];
      ScanOfConcat(h, s[..k], 1);
      ScanOfConcat(h1, s[..k], 1);
      ParenNetOfConcat(h, s[..k]);
      ParenNetOfConcat(h1, s[..k]);
      BoundaryPast(h, s, k);
      BoundaryPast(h, s, k + |field|);
      BoundaryPast(h1, s, k);
      BoundaryPast(h1, s, k + |field|);
    }
  }

  lemma AtIsInside(s: string, pat: string, k: nat)
    requires IsAt(s, pat, k)
    ensures k + |pat| <= |s|
  {
  }

  /** A text that can stand before any selection set without changing what it selects. */
  ghost predicate Transparent(h: string) {
    Scan(h, 1) == Some(1) && ParenNet(h) == 0 && (h == "" || !IsNameChar(h[|h| - 1]))
  }

  lemma TransparentIsLikeNothing(h: string, s: string)
    requires Transparent(h)
    ensures Alike(h, "", s) && "" + s == s
  {
    hide IsNameChar;
    ScanPlain("", 1);
    if h != "" && s != "" {
      assert (h + s)[|h| - 1] == h[|h| - 1];
    }
  }

  lemma SelectedPast(h: string, s: string, field: string, k: nat)
    requires Transparent(h)
    ensures SelectedAt(h + s, field, |h| + k) <==> SelectedAt(s, field, k)
  {
    hide Transparent, SelectedAt;
    TransparentIsLikeNothing(h, s);
    SelectedPastEither(h, "", s, field, k);
  }

  /** What stands before two continuations of which neither goes on with its last name. */
  lemma SelectedBeforeEither(s: string, t: string, t1: string, field: string, k: nat)
    requires k + |field| <= |s| && Boundary(s + t, |s|) && Boundary(s + t1, |s|)
    ensures SelectedAt(s + t, field, k) <==> SelectedAt(s + t1, field, k)
  {
    hide Scan, ParenNet, IsNameChar;
    assert (s + t)[..k] == s[..k] == (s + t1)[..k];
    assert (s + t)[k..k + |field|] == s[k..k + |field|] == (s + t1)[k..k + |field|];
    BoundaryBefore(s, t, t1, k);
    BoundaryBefore(s, t, t1, k + |field|);
  }

  lemma BoundaryBefore(s: string, t: string, t1: string, k: nat)
    requires k <= |s| && Boundary(s + t, |s|) && Boundary(s + t1, |s|)
    ensures Boundary(s + t, k) <==> Boundary(s + t1, k)
  {
    hide IsNameChar;
    if 0 < k < |s| {
      assert (s + t)[k] == s[k] == (s + t1)[k] && (s + t)[k - 1] == s[k - 1] == (s + t1)[k - 1];
    }
  }

  // ---------- spaces ----------

  lemma SpaceIsNoName(c: char)
    requires IsSpace(c)
    ensures !IsNameChar(c)
  {
  }

  lemma SpaceIsTransparent(left: string)
    requires AllSpace(left)
    ensures Transparent(left)
  {
    SpaceIsBalanced(left);
    NoParens(left);
    if left != "" { SpaceIsNoName(left[|left| - 1]); }
  }

  lemma SpaceBoundary(s: string, right: string)
    requires AllSpace(right)
    ensures Boundary(s + right, |s|) && Boundary(s + "", |s|) && s + "" == s
  {
    hide IsNameChar, IsSpace;
    if right != "" {
      assert (s + right)[|s|] == right[0];
      SpaceIsNoName(right[0]);
    }
  }

  /** t selects what s selects, n places further on. */
  ghost predicate Shifted(s: string, t: string, field: string, n: nat) {
    && (forall k: nat :: SelectedAt(s, field, k) ==> SelectedAt(t, field, n + k))
    && (forall i: nat :: SelectedAt(t, field, i) ==> i >= n && SelectedAt(s, field, i - n))
  }

  lemma ShiftedSelectsAlike(s: string, t: string, field: string, n: nat)
    requires Shifted(s, t, field, n)
    ensures Selects(s, field) <==> Selects(t, field)
    ensures SelectsTwice(s, field) <==> SelectsTwice(t, field)
  {
    hide SelectedAt;
    if i: nat, j: nat :| i < j && SelectedAt(s, field, i) && SelectedAt(s, field, j) {
      assert SelectedAt(t, field, n + i) && SelectedAt(t, field, n + j);
    }
    if i: nat, j: nat :| i < j && SelectedAt(t, field, i) && SelectedAt(t, field, j) {
      assert SelectedAt(s, field, i - n) && SelectedAt(s, field, j - n);
    }
  }

  lemma SpacesShift(left: string, s: string, right: string, field: string)
    requires AllSpace(left) && AllSpace(right) && field != "" && !IsSpace(field[0]) && !IsSpace(field[|field| - 1])
    ensures Shifted(s, left + s + right, field, |left|)
  {
    hide IsSpace, SelectedAt, Transparent, Boundary;
    var all := left + s + right;
    SpaceIsTransparent(left);
    ConcatAssociative(left, s, right);
    SpaceBoundary(s, right);
    forall k: nat | SelectedAt(s, field, k) ensures SelectedAt(all, field, |left| + k) {
      SelectedIsAt(s, field, k);
      SelectedBeforeEither(s, right, "", field, k);
      SelectedPast(left, s + right, field, k);
    }
    forall i: nat | SelectedAt(all, field, i) ensures i >= |left| && SelectedAt(s, field, i - |left|) {
      SelectedIsAt(all, field, i);
      OccurrenceInside(left, s, right, field, i);
      SelectedPast(left, s + right, field, i - |left|);
      SelectedBeforeEither(s, right, "", field, i - |left|);
    }
  }

  /** Trimming a selection set does not change what it selects. */
  lemma SelectsTrim(content: string, field: string)
    requires field != "" && !IsSpace(field[0]) && !IsSpace(field[|field| - 1])
    ensures Selects(content, field) <==> Selects(TrimSpace(content), field)
    ensures SelectsTwice(content, field) <==> SelectsTwice(TrimSpace(content), field)
  {
    hide TrimSpace, IsSpace, Shifted, Selects, SelectsTwice;
    var left, right := TrimSpaceSplits(content);
    SpacesShift(left, TrimSpace(content), right, field);
    ShiftedSelectsAlike(TrimSpace(content), content, field, |left|);
  }
}
