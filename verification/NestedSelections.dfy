/**
  Whether the nested selection sets of a rewritten query select both fields. A nested set is a pair of braces outside
  parentheses that no _version field holds.
 */
module NestedSelections {
  import opened Basics
  import opened Texts
  import opened Braces
  import opened QueryRewriter
  import opened RewriterLaws
  import opened Selections
  import opened RewriterPromises
  import opened OutermostSelections

  ghost predicate VersionAt(s: string, j: nat) {
    IsAt(s, VERSION, j) && Boundary(s, j)
  }

  /** The position belongs to a _version field or to its braces. */
  ghost predicate InVersionField(s: string, i: nat) {
    exists j: nat :: VersionAt(s, j) && FieldCovers(s, j, i)
  }

  ghost predicate FieldCovers(s: string, j: nat, i: nat)
    requires IsAt(s, VERSION, j)
  {
    VersionEnd(s, j).Some? && j <= i < VersionEnd(s, j).value
  }

  ghost predicate IsNestedSet(s: string, i: nat) {
    i < |s| && s[i] == '{' && ParenNet(s[..i]) == 0 && !InVersionField(s, i)
  }

  ghost predicate HasNestedSet(s: string) {
    exists i: nat :: IsNestedSet(s, i)
  }

  /** The text between a brace and the brace that closes it. */
  ghost function Body(s: string, i: nat): Option<string>
    requires i < |s|
  {
    match Close(s[i + 1..], 1) case None => None case Some(c) => Some(s[i + 1..][..c])
  }

  /** The documented promise for nested collections: each of their selection sets is closed and selects both fields. */
  ghost predicate NestedSetsSelectBoth(s: string) {
    forall i: nat | IsNestedSet(s, i) :: Body(s, i).Some? && SelectsBoth(Body(s, i).value)
  }

  // ---------- a satisfied nested set holds both texts ----------

  lemma BodyIsPart(s: string, i: nat, pat: string)
    requires i < |s| && Body(s, i).Some? && Contains(Body(s, i).value, pat)
    ensures Contains(s[i + 1..], pat) && Contains(s, pat)
  {
    hide Contains, Close;
    var rest := s[i + 1..];
    var c := Close(rest, 1).value;
    ContainedInHead(rest, c, pat);
    ContainedInTail(s, i + 1, pat);
  }

  lemma ContainedInHead(s: string, c: nat, pat: string)
    requires c <= |s| && Contains(s[..c], pat)
    ensures Contains(s, pat)
  {
    hide Contains;
    ContainedInPart("", s[..c], s[c..], pat);
    assert s == "" + s[..c] + s[c..];
  }

  lemma ContainedInTail(s: string, i: nat, pat: string)
    requires i <= |s| && Contains(s[i..], pat)
    ensures Contains(s, pat)
  {
    hide Contains;
    ContainedInPart(s[..i], s[i..], "", pat);
    assert s == s[..i] + s[i..] + "";
  }

  lemma SatisfiedSetHoldsBoth(s: string, i: nat)
    requires IsNestedSet(s, i) && NestedSetsSelectBoth(s)
    ensures HasBoth(s[i + 1..]) && HasBoth(s)
  {
    hide Contains, Selects, InVersionField, Body;
    SelectedIsContained(Body(s, i).value, DOC_ID);
    SelectedIsContained(Body(s, i).value, COMPLETE_VERSION);
    BodyIsPart(s, i, DOC_ID);
    BodyIsPart(s, i, COMPLETE_VERSION);
  }

  /** Without both texts the promise is kept only where there is nothing to keep it for. */
  lemma PromiseWithoutBoth(s: string)
    requires !HasBoth(s)
    ensures NestedSetsSelectBoth(s) <==> !HasNestedSet(s)
  {
    hide HasBoth, IsNestedSet;
    if NestedSetsSelectBoth(s) && HasNestedSet(s) {
      var i: nat :| IsNestedSet(s, i);
      SatisfiedSetHoldsBoth(s, i);
      assert false;
    }
  }

  // ---------- past other texts ----------

  /** No _version field that starts in h reaches past it. */
  ghost predicate Contained(h: string, s: string) {
    forall j: nat | j < |h| && VersionAt(h + s, j) && VersionEnd(h + s, j).Some? :: VersionEnd(h + s, j).value <= |h|
  }

  lemma VersionAtPast(h: string, s: string, j: nat)
    requires Boundary(h + s, |h|)
    ensures VersionAt(h + s, |h| + j) <==> VersionAt(s, j)
  {
    hide IsAt, Boundary;
    IsAtPast(h, s, VERSION, j);
    if IsAt(s, VERSION, j) {
      AtIsInside(s, VERSION, j);
      BoundaryPast(h, s, j);
    }
  }

  lemma FieldPast(h: string, s: string, i: nat)
    requires Contained(h, s) && Boundary(h + s, |h|)
    ensures InVersionField(h + s, |h| + i) <==> InVersionField(s, i)
  {
    hide VersionEnd, Boundary;
    forall j: nat | VersionAt(s, j) && FieldCovers(s, j, i) ensures InVersionField(h + s, |h| + i) {
      VersionEndPast(h, s, j);
      VersionAtPast(h, s, j);
      assert FieldCovers(h + s, |h| + j, |h| + i);
    }
    forall j: nat | VersionAt(h + s, j) && FieldCovers(h + s, j, |h| + i) ensures InVersionField(s, i) {
      assert j >= |h|;
      assert j == |h| + (j - |h|);
      VersionAtPast(h, s, j - |h|);
      VersionEndPast(h, s, j - |h|);
      assert FieldCovers(s, j - |h|, i);
    }
  }

  /** Nothing that begins in h goes on in s: no _version field, no name, no parenthesis. */
  ghost predicate Ends(h: string, s: string) {
    Contained(h, s) && Boundary(h + s, |h|) && ParenNet(h) == 0
  }

  lemma NestedPast(h: string, s: string, i: nat)
    requires Ends(h, s)
    ensures IsNestedSet(h + s, |h| + i) <==> IsNestedSet(s, i)
  {
    hide InVersionField, Contained, ParenNet, Boundary;
    FieldPast(h, s, i);
    if i < |s| {
      assert (h + s)[..|h| + i] == h + s[..i];
      ParenNetOfConcat(h, s[..i]);
    }
  }

  /** Behind a text whose own braces are all covered, the nested sets are those of the rest. */
  lemma NestedSetsPast(h: string, s: string)
    requires Ends(h, s) && forall i | 0 <= i < |h| && h[i] == '{' :: InVersionField(h + s, i)
    ensures HasNestedSet(h + s) <==> HasNestedSet(s)
    ensures forall i: nat | IsNestedSet(h + s, i) :: i >= |h|
  {
    hide InVersionField, Ends, ParenNet;
    forall i: nat ensures IsNestedSet(h + s, |h| + i) <==> IsNestedSet(s, i) {
      NestedPast(h, s, i);
    }
    assert forall i | 0 <= i < |h| :: (h + s)[i] == h[i];
    forall i: nat | IsNestedSet(h + s, i) ensures i >= |h| && IsNestedSet(s, i - |h|) {
      assert i == |h| + (i - |h|);
    }
  }

  /** A text in which no _version starts. */
  lemma PlainIsContained(h: string, s: string)
    requires forall j: nat | IsAt(h + s, VERSION, j) :: j >= |h|
    ensures Contained(h, s)
  {
  }

  // ---------- spaces ----------

  lemma NoVersionInSpace(left: string, r: string)
    requires AllSpace(left)
    ensures forall j: nat | IsAt(left + r, VERSION, j) :: j >= |left|
  {
    SpaceIsPlain(left);
    forall j: nat | IsAt(left + r, VERSION, j) ensures j >= |left| {
      CharsAt(left + r, VERSION, j);
      assert VERSION[0] == '_';
      assert forall i | 0 <= i < |left| :: (left + r)[i] == left[i];
    }
  }

  lemma SpacesBefore(left: string, s: string)
    requires AllSpace(left)
    ensures HasNestedSet(left + s) <==> HasNestedSet(s)
  {
    hide IsSpace, HasNestedSet, IsNestedSet, InVersionField, Contained, Transparent;
    NoVersionInSpace(left, s);
    PlainIsContained(left, s);
    SpaceIsPlain(left);
    SpaceIsTransparent(left);
    TransparentEnds(left, s);
    NestedSetsPast(left, s);
  }

  lemma TransparentEnds(h: string, s: string)
    requires Transparent(h) && Contained(h, s)
    ensures Ends(h, s)
  {
    hide Contained, Scan;
    TransparentIsLikeNothing(h, s);
  }

  lemma VersionAtBeforeSpace(s: string, right: string, j: nat)
    requires AllSpace(right)
    ensures VersionAt(s + right, j) <==> VersionAt(s, j)
  {
    hide IsSpace, IsNameChar;
    EndsOfPatterns();
    SpaceBoundary(s, right);
    if IsAt(s + right, VERSION, j) {
      assert "" + s + right == s + right;
      OccurrenceInside("", s, right, VERSION, j);
      assert (s + right)[j..j + 8] == s[j..j + 8];
    }
    if IsAt(s, VERSION, j) {
      assert (s + right)[j..j + 8] == s[j..j + 8];
    }
    if j <= |s| { BoundaryBefore(s, right, "", j); }
  }

  lemma FieldBeforeSpace(s: string, right: string, i: nat)
    requires AllSpace(right) && i < |s|
    ensures InVersionField(s + right, i) <==> InVersionField(s, i)
  {
    hide IsSpace, VersionEnd, Boundary;
    forall j: nat ensures VersionAt(s + right, j) <==> VersionAt(s, j) {
      VersionAtBeforeSpace(s, right, j);
    }
    forall j: nat | VersionAt(s, j) ensures FieldCovers(s + right, j, i) <==> FieldCovers(s, j, i) {
      VersionEndBefore(s, right, j);
    }
  }

  lemma SpacesAfter(s: string, right: string)
    requires AllSpace(right)
    ensures HasNestedSet(s + right) <==> HasNestedSet(s)
  {
    hide IsSpace, InVersionField, ParenNet;
    SpaceIsPlain(right);
    forall i: nat ensures IsNestedSet(s + right, i) <==> IsNestedSet(s, i) {
      if i < |s| {
        FieldBeforeSpace(s, right, i);
        assert (s + right)[..i] == s[..i];
      } else if i < |s + right| {
        assert (s + right)[i] == right[i - |s|];
      }
    }
  }

  /** Trimming adds and removes no nested set. */
  lemma NestedTrim(content: string)
    ensures HasNestedSet(TrimSpace(content)) <==> HasNestedSet(content)
  {
    hide TrimSpace, IsSpace, HasNestedSet;
    var left, right := TrimSpaceSplits(content);
    var t := TrimSpace(content);
    ConcatAssociative(left, t, right);
    SpacesBefore(left, t + right);
    SpacesAfter(t, right);
  }

  // ---------- the new head holds no nested set ----------

  lemma CompleteVersionEnds(rest: string)
    ensures IsAt(COMPLETE_VERSION + rest, VERSION, 0)
    ensures VersionEnd(COMPLETE_VERSION + rest, 0) == Some(|COMPLETE_VERSION|)
  {
    hide Scan, Close;
    CompleteVersionStart();
    var inner := " cid signature " + ("{" + " type identity value " + "}") + " ";
    InnerIsBalanced();
    FieldWithBracesEnds(inner, rest);
    RegroupField(VERSION, inner, rest);
  }

  lemma RegroupField(name: string, inner: string, rest: string)
    ensures name + (" " + ("{" + inner + "}")) + rest == name + (" " + ("{" + (inner + ("}" + rest))))
    ensures |name + (" " + ("{" + inner + "}"))| == |name| + 1 + 1 + |inner| + 1
  {
  }

  lemma InnerIsBalanced()
    ensures Balanced(" cid signature " + ("{" + " type identity value " + "}") + " ")
  {
    hide Scan;
    BalancedPlain(" type identity value ");
    BalancedBraces(" type identity value ");
    BalancedPlain(" cid signature ");
    BalancedPlain(" ");
    BalancedConcat(" cid signature ", "{" + " type identity value " + "}");
    BalancedConcat(" cid signature " + ("{" + " type identity value " + "}"), " ");
  }

  lemma FieldWithBracesEnds(inner: string, rest: string)
    requires Balanced(inner)
    ensures
      var s := VERSION + (" " + ("{" + (inner + ("}" + rest))));
      IsAt(s, VERSION, 0) && VersionEnd(s, 0) == Some(8 + 1 + 1 + |inner| + 1)
  {
    hide Scan, Close;
    var tail := "}" + rest;
    var field := "{" + (inner + tail);
    var s := VERSION + (" " + field);
    assert s[0..8] == VERSION && s[8..] == " " + field;
    assert (" " + field)[1..] == field && field[1..] == inner + tail;
    assert Blanks(field) == 0 && Blanks(" " + field) == 1;
    CloseOfSplit(inner, tail);
  }

  /** A rewritten selection set has the nested sets of what was kept, and all of them stand behind the head. */
  lemma NestedBehindHead(content: string)
    ensures HasNestedSet(NewContent(content)) <==> HasNestedSet(Remaining(content))
    ensures forall i: nat | IsNestedSet(NewContent(content), i) :: i >= |NewHead(content)|
  {
    hide NewContent, NewHead, Remaining, Contains, Scan, IsHead, HasNestedSet, InVersionField, Contained, VersionEnd,
      Transparent;
    HeadIsFirst(content);
    HeadTexts(content);
    HeadIsTransparent(content);
    var h, rest := NewHead(content), Remaining(content);
    if Contains(content, COMPLETE_VERSION) {
      var space :| h == DOC_ID + " " + space && (space == "" || space == " ");
      forall j: nat | IsAt(h + rest, VERSION, j) ensures j >= |h| {
        NotInHead(h, rest, false, VERSION, j);
      }
      PlainIsContained(h, rest);
      assert '{' !in h;
    } else {
      var space :| h == DOC_ID + " " + COMPLETE_VERSION + space && (space == "" || space == " ");
      VersionHeadIsCovered(h, space, rest);
    }
    TransparentEnds(h, rest);
    NestedSetsPast(h, rest);
  }

  lemma VersionHeadIsCovered(h: string, space: string, rest: string)
    requires h == DOC_ID + " " + COMPLETE_VERSION + space && (space == "" || space == " ") && IsHead(h, true)
    ensures Contained(h, rest) && forall i | 0 <= i < |h| && h[i] == '{' :: InVersionField(h + rest, i)
  {
    hide VersionEnd;
    assert VersionAt(h + rest, 7) by {
      assert (h + rest)[6] == h[6] == ' ' && (h + rest)[7..15] == h[7..15];
    }
    hide IsHead, Boundary;
    var start, s := DOC_ID + " ", COMPLETE_VERSION + (space + rest);
    CompleteVersionEnds(space + rest);
    VersionEndPast(start, s, 0);
    RegroupHead(start, COMPLETE_VERSION, space, rest);
    assert start + s == h + rest;
    forall j: nat | j < |h| && VersionAt(h + rest, j) && VersionEnd(h + rest, j).Some?
      ensures VersionEnd(h + rest, j).value <= |h| {
      NotInHead(h, rest, true, VERSION, j);
    }
    assert '{' !in start && '{' !in space;
    assert forall i | 0 <= i < 7 :: h[i] == start[i];
    assert forall i | 7 + |COMPLETE_VERSION| <= i < |h| :: h[i] == space[i - 7 - |COMPLETE_VERSION|];
    forall i | 0 <= i < |h| && h[i] == '{' ensures InVersionField(h + rest, i) {
      assert FieldCovers(h + rest, 7, i);
    }
  }

  // ---------- exactly when the nested promise is kept ----------

  /** What is kept holds no text that was not there. */
  lemma KeptHoldsNothingNew(content: string, pat: string)
    requires (pat == DOC_ID || pat == COMPLETE_VERSION) && Contains(Kept(content), pat)
    ensures Contains(content, pat)
  {
    hide Contains, CutOf, PastLead;
    var p := PastLead(content);
    if CutOf(p).Some? {
      var a, cut, b := CutParts(p);
      FirstIsFirst(p);
      if pat == DOC_ID {
        DocIDAroundSpace(a, cut, b);
      } else {
        CompleteVersionBehindCut(p, a, cut, b);
      }
    }
    ContainedInTail(content, |content| - |p|, pat);
  }

  lemma DocIDAroundSpace(a: string, cut: string, b: string)
    requires Contains(a + " " + b, DOC_ID)
    ensures Contains(a + cut + b, DOC_ID)
  {
    hide Contains;
    var m := a + " " + b;
    var i := IndexOf(m, DOC_ID);
    CharsAt(m, DOC_ID, i);
    FieldNames();
    assert m[|a|] == ' ';
    if i < |a| {
      assert i + 6 <= |a|;
      assert m[i..i + 6] == a[i..i + 6];
      ContainsAt(a, DOC_ID, i);
      ContainedInPart("", a, cut + b, DOC_ID);
      assert "" + a + (cut + b) == a + cut + b;
    } else {
      IsAtPast(a + " ", b, DOC_ID, i - |a| - 1);
      ContainsAt(b, DOC_ID, i - |a| - 1);
      ContainedInPart(a + cut, b, "", DOC_ID);
      assert a + cut + b + "" == a + cut + b;
    }
  }

  lemma CutParts(u: string) returns (a: string, cut: string, b: string)
    requires CutOf(u).Some?
    ensures u == a + cut + b && |a| == CutOf(u).value.0 && |a + cut| == CutOf(u).value.1 && cut != ""
    ensures CutToSpace(u) == a + " " + b
  {
    hide VersionEnd;
    var start, end := CutOf(u).value.0, CutOf(u).value.1;
    a, cut, b := u[..start], u[start..end], u[end..];
  }

  lemma FirstIsFirst(u: string)
    requires CutOf(u).Some?
    ensures VersionEnd(u, CutOf(u).value.0) == Some(CutOf(u).value.1)
    ensures forall j: nat | IsAt(u, VERSION, j) :: j >= CutOf(u).value.0
  {
    hide VersionEnd, Contains;
  }

  lemma IsAtBefore(a: string, s: string, t: string, j: nat)
    ensures j + 8 <= |a| ==> (IsAt(a + s, VERSION, j) <==> IsAt(a + t, VERSION, j))
  {
    if j + 8 <= |a| {
      assert (a + s)[j..j + 8] == a[j..j + 8] == (a + t)[j..j + 8];
    }
  }

  /** No _version starts before the space that replaces the removed field. */
  lemma NoVersionBeforeSpace(u: string, a: string, cut: string, b: string)
    requires u == a + cut + b && cut != "" && forall j: nat | IsAt(u, VERSION, j) :: j >= |a|
    ensures forall j: nat | IsAt(a + " " + b, VERSION, j) :: j >= |a + " "|
  {
    hide IsSpace;
    var m := a + " " + b;
    forall j: nat | IsAt(m, VERSION, j) ensures j >= |a + " "| {
      CharsAt(m, VERSION, j);
      FieldNames();
      assert m[|a|] == ' ' && ' ' !in VERSION;
      ConcatAssociative(a, " ", b);
      ConcatAssociative(a, cut, b);
      IsAtBefore(a, " " + b, cut + b, j);
    }
  }

  lemma CompleteVersionBehindCut(u: string, a: string, cut: string, b: string)
    requires u == a + cut + b && cut != "" && forall j: nat | IsAt(u, VERSION, j) :: j >= |a|
    requires Contains(a + " " + b, COMPLETE_VERSION)
    ensures Contains(u, COMPLETE_VERSION)
  {
    hide Contains;
    var i := IndexOf(a + " " + b, COMPLETE_VERSION);
    CompleteStartsWithVersion(a + " " + b, i);
    NoVersionBeforeSpace(u, a, cut, b);
    IsAtPast(a + " ", b, COMPLETE_VERSION, i - |a + " "|);
    ContainsAt(b, COMPLETE_VERSION, i - |a + " "|);
    ContainedInPart(a + cut, b, "", COMPLETE_VERSION);
    assert a + cut + b + "" == u;
  }

  lemma RemainingHoldsNothingNew(content: string, pat: string)
    requires (pat == DOC_ID || pat == COMPLETE_VERSION) && Contains(Remaining(content), pat)
    ensures Contains(content, pat)
  {
    hide TrimSpace, IsSpace, Contains, Remaining, Kept;
    EndsOfPatterns();
    RemainingIsKept(content);
    ContainsTrim(Kept(content), pat);
    KeptHoldsNothingNew(content, pat);
  }

  /** No nested set of a rewritten selection set selects both fields. */
  lemma NoneIsSatisfied(content: string)
    requires !HasBoth(content)
    ensures NestedSetsSelectBoth(NewContent(content)) <==> !HasNestedSet(NewContent(content))
  {
    hide NewContent, NewHead, Remaining, Contains, Scan, IsHead, IsNestedSet, Body, SelectsBoth;
    HeadIsFirst(content);
    NestedBehindHead(content);
    var s, h := NewContent(content), NewHead(content);
    if NestedSetsSelectBoth(s) && HasNestedSet(s) {
      var i: nat :| IsNestedSet(s, i);
      SatisfiedSetHoldsBoth(s, i);
      NestedInRange(s, i);
      assert s[i + 1..] == Remaining(content)[i + 1 - |h|..];
      ContainedInTail(Remaining(content), i + 1 - |h|, DOC_ID);
      ContainedInTail(Remaining(content), i + 1 - |h|, COMPLETE_VERSION);
      RemainingHoldsNothingNew(content, DOC_ID);
      RemainingHoldsNothingNew(content, COMPLETE_VERSION);
      assert false;
    }
  }

  lemma NestedInRange(s: string, i: nat)
    requires IsNestedSet(s, i)
    ensures i < |s|
  {
  }

  /**
    The nested sets of the answer select both fields exactly when the old selection set is answered unchanged and its
    nested sets do, or nothing that is kept of it is a nested set: the rewriting never adds the fields to a nested set.
   */
  lemma NestedPromiseExactly(content: string)
    ensures NestedSetsSelectBoth(NewSelectionSet(content)) <==>
      if HasBoth(content) then NestedSetsSelectBoth(content) else !HasNestedSet(Kept(content))
  {
    hide NewContent, TrimSpace, Contains, HasNestedSet, NestedSetsSelectBoth, Remaining, Kept;
    if !HasBoth(content) {
      NoneIsSatisfied(content);
      NestedBehindHead(content);
      RemainingIsKept(content);
      NestedTrim(Kept(content));
    }
  }

  // ---------- what is kept has the nested sets of the old selection set ----------

  /** A text that comes back to its starting depth or below closes every brace opened before it. */
  lemma {:induction false} CloseExists(s: string, d: nat, below: nat)
    requires d > 0 && below > 0 && Scan(s, d + below).Some? && Scan(s, d + below).value <= below
    ensures Close(s, d).Some?
  {
    if s != "" && !(s[0] == '}' && d == 1) {
      CloseExists(s[1..], if s[0] == '{' then d + 1 else if s[0] == '}' then d - 1 else d, below);
    }
  }

  /** A pair of braces opened inside a balanced text is closed inside it. */
  lemma InnerCloses(inner: string, p: nat, t: string)
    requires Balanced(inner) && p < |inner| && inner[p] == '{'
    ensures Close(inner[p + 1..] + t, 1).Some? && p + 1 + Close(inner[p + 1..] + t, 1).value < |inner|
  {
    hide Scan, Close;
    var rest := inner[p + 1..];
    assert inner == inner[..p] + inner[p..] && inner[p..] == "{" + rest;
    ScanOfConcat(inner[..p], inner[p..], 1);
    var d := Scan(inner[..p], 1).value;
    OpeningDeepens(rest, d);
    CloseExists(rest, 1, d);
    CloseOfLonger(rest, t, 1);
    CloseIsAfterScan(rest, 1, Close(rest, 1).value);
  }

  lemma OpeningDeepens(rest: string, d: nat)
    requires d > 0
    ensures Scan("{" + rest, d) == Scan(rest, d + 1)
  {
    assert ("{" + rest)[1..] == rest;
  }

  /** A _version named inside a pair of braces ends inside it. */
  lemma InnerVersionEnds(inner: string, t: string, j: nat)
    requires Balanced(inner) && IsAt(inner + "}" + t, VERSION, j) && j < |inner|
    ensures VersionEnd(inner + "}" + t, j).Some? ==> VersionEnd(inner + "}" + t, j).value <= |inner|
  {
    hide Scan, Close;
    var s := inner + "}" + t;
    CharsAt(s, VERSION, j);
    assert s[|inner|] == '}';
    assert '}' !in VERSION;
    assert j + 8 <= |inner|;
    var rest := s[j + 8..];
    var n := Blanks(rest);
    assert rest[|inner| - j - 8] == '}';
    assert n <= |inner| - j - 8;
    var p := j + 8 + n;
    assert rest[n..] == s[p..];
    if p < |inner| && s[p] == '{' {
      InnerCloses(inner, p, "}" + t);
      assert s[p..][1..] == inner[p + 1..] + ("}" + t);
    }
  }

  /** The blanks after the _version at start, and where they end. */
  lemma FieldBlanks(u: string, start: nat) returns (p: nat)
    requires IsAt(u, VERSION, start)
    ensures start + 8 <= p <= |u| && p == start + 8 + Blanks(u[start + 8..])
    ensures forall i | start < i < p :: u[i] != '_' && u[i] != '{'
    ensures forall i | start + 8 <= i < p :: !IsNameChar(u[i]) && u[i] != '}'
    ensures u[start + 8..][Blanks(u[start + 8..])..] == u[p..]
  {
    CharsAt(u, VERSION, start);
    FieldNames();
    assert '{' !in VERSION;
    var rest := u[start + 8..];
    var n := Blanks(rest);
    p := start + 8 + n;
    assert forall i | start + 8 <= i < p :: u[i] == rest[i - start - 8];
  }

  /** The braces of the _version field at start, if it has any. */
  lemma FieldBraces(u: string, start: nat, end: nat) returns (p: nat, inner: string, tail: string)
    requires IsAt(u, VERSION, start) && VersionEnd(u, start) == Some(end)
    ensures start + 8 <= p <= |u| && forall i | start < i < p :: u[i] != '_' && u[i] != '{'
    ensures forall i | start + 8 <= i < p :: !IsNameChar(u[i]) && u[i] != '}'
    ensures p == end ||
      (&& p < end && u == u[..p + 1] + (inner + "}" + tail) && u[p] == '{'
       && Balanced(inner) && p + 1 + |inner| + 1 == end)
  {
    hide Scan, Close, Blanks, IsNameChar;
    p := FieldBlanks(u, start);
    var field := u[p..];
    inner, tail := "", "";
    if field != "" && field[0] == '{' {
      var c := Close(field[1..], 1).value;
      CloseIsAfterScan(field[1..], 1, c);
      inner, tail := field[1..][..c], field[1..][c + 1..];
      assert field[1..] == u[p + 1..] == inner + "}" + tail;
      assert u == u[..p + 1] + u[p + 1..];
    }
  }

  /** Every _version that starts in a _version field ends in it. */
  lemma FieldHoldsItsFields(u: string, start: nat, end: nat, j: nat)
    requires IsAt(u, VERSION, start) && VersionEnd(u, start) == Some(end)
    requires start < j < end && IsAt(u, VERSION, j) && VersionEnd(u, j).Some?
    ensures VersionEnd(u, j).value <= end
  {
    hide VersionEnd;
    var p, inner, tail := FieldBraces(u, start, end);
    CharsAt(u, VERSION, j);
    FieldNames();
    assert j > p;
    var h, s := u[..p + 1], inner + "}" + tail;
    IsAtPast(h, s, VERSION, j - |h|);
    assert s[|inner|] == '}' == u[end - 1];
    VersionEndPast(h, s, j - |h|);
    InnerVersionEnds(inner, tail, j - |h|);
  }

  lemma CutIsContained(u: string, a: string, cut: string, b: string)
    requires CutOf(u).Some? && u == a + cut + b && |a| == CutOf(u).value.0 && |a + cut| == CutOf(u).value.1
    ensures Contained(a + cut, b)
    ensures Boundary(u, |a|) ==> forall i: nat | |a| <= i < |a + cut| :: InVersionField(u, i)
  {
    hide VersionEnd, Contains, Boundary;
    var start, end := |a|, |a + cut|;
    FirstIsFirst(u);
    forall j: nat | j < end && VersionAt(a + cut + b, j) && VersionEnd(u, j).Some?
      ensures VersionEnd(u, j).value <= end {
      if j > start {
        FieldHoldsItsFields(u, start, end, j);
      }
    }
    if Boundary(u, start) {
      assert VersionAt(u, start);
      forall i: nat | start <= i < end ensures InVersionField(u, i) {
        assert FieldCovers(u, start, i);
      }
    }
  }

  /** Where no _version starts in a, its braces outside parentheses are nested sets. */
  lemma NestedBefore(a: string, s: string, i: nat)
    requires i < |a| && forall j: nat | IsAt(a + s, VERSION, j) :: j >= |a|
    ensures IsNestedSet(a + s, i) <==> a[i] == '{' && ParenNet(a[..i]) == 0
  {
    hide VersionEnd, Boundary, ParenNet;
    assert (a + s)[..i] == a[..i] && (a + s)[i] == a[i];
  }

  /** Behind texts with as many open parentheses the nested sets are alike. */
  lemma NestedPastEither(h: string, h1: string, s: string, k: nat)
    requires Contained(h, s) && Contained(h1, s) && ParenNet(h) == ParenNet(h1)
    requires Boundary(h + s, |h|) && Boundary(h1 + s, |h1|)
    ensures IsNestedSet(h + s, |h| + k) <==> IsNestedSet(h1 + s, |h1| + k)
  {
    hide InVersionField, Contained, ParenNet, Boundary;
    FieldPast(h, s, k);
    FieldPast(h1, s, k);
    if k < |s| {
      assert (h + s)[..|h| + k] == h + s[..k] && (h1 + s)[..|h1| + k] == h1 + s[..k];
      ParenNetOfConcat(h, s[..k]);
      ParenNetOfConcat(h1, s[..k]);
    }
  }

  /** Replacing a removed field that is whole by a space adds and removes no nested set. */
  lemma NestedAfterCut(u: string)
    requires CutOf(u).Some? && Boundary(u, CutOf(u).value.0) && Boundary(u, CutOf(u).value.1)
    requires ParenNet(u[CutOf(u).value.0..CutOf(u).value.1]) == 0
    ensures HasNestedSet(CutToSpace(u)) <==> HasNestedSet(u)
  {
    hide CutOf, InVersionField, Contained, ParenNet, IsNameChar;
    var a, cut, b := CutParts(u);
    assert u[|a|..|a + cut|] == cut;
    CutIsContained(u, a, cut, b);
    FirstIsFirst(u);
    NoVersionBeforeSpace(u, a, cut, b);
    var m := a + " " + b;
    PlainIsContained(a + " ", b);
    SpaceIsBoundary(a, b);
    ParenNetOfConcat(a, cut);
    ParenNetOfConcat(a, " ");
    NoParens(" ");
    SameNestedSets(u, m, a, cut, b);
  }

  lemma SpaceIsBoundary(a: string, b: string)
    ensures Boundary(a + " " + b, |a + " "|)
  {
    var m := a + " " + b;
    assert m[|a|] == ' ';
  }

  /** Where u has a removed field m has a space. */
  ghost predicate CutApart(u: string, m: string, a: string, cut: string, b: string) {
    && u == a + cut + b && m == a + " " + b
    && (forall j: nat | IsAt(u, VERSION, j) :: j >= |a|)
    && (forall j: nat | IsAt(m, VERSION, j) :: j >= |a + " "|)
    && (forall i: nat | |a| <= i < |a + cut| :: InVersionField(u, i))
    && Contained(a + cut, b) && Contained(a + " ", b) && ParenNet(a + cut) == ParenNet(a + " ")
    && Boundary(u, |a + cut|) && Boundary(m, |a + " "|)
  }

  lemma NestedBeforeCut(u: string, m: string, a: string, cut: string, b: string, i: nat)
    requires CutApart(u, m, a, cut, b) && i < |a|
    ensures IsNestedSet(u, i) <==> IsNestedSet(m, i)
  {
    hide InVersionField, Contained, ParenNet, Boundary, IsNestedSet;
    ConcatAssociative(a, cut, b);
    ConcatAssociative(a, " ", b);
    NestedBefore(a, cut + b, i);
    NestedBefore(a, " " + b, i);
  }

  lemma NestedBehindCut(u: string, m: string, a: string, cut: string, b: string, k: nat)
    requires CutApart(u, m, a, cut, b)
    ensures IsNestedSet(u, |a + cut| + k) <==> IsNestedSet(m, |a + " "| + k)
  {
    hide InVersionField, Contained, ParenNet, Boundary, IsNestedSet;
    NestedPastEither(a + cut, a + " ", b, k);
  }

  lemma SameNestedSets(u: string, m: string, a: string, cut: string, b: string)
    requires CutApart(u, m, a, cut, b)
    ensures HasNestedSet(u) <==> HasNestedSet(m)
  {
    hide IsNestedSet, CutApart;
    if i: nat :| IsNestedSet(u, i) {
      NotInCut(u, m, a, cut, b, i);
      if i < |a| {
        NestedBeforeCut(u, m, a, cut, b, i);
      } else {
        NestedBehindCut(u, m, a, cut, b, i - |a + cut|);
      }
    }
    if i: nat :| IsNestedSet(m, i) {
      NotBlank(u, m, a, cut, b, i);
      if i < |a| {
        NestedBeforeCut(u, m, a, cut, b, i);
      } else {
        NestedBehindCut(u, m, a, cut, b, i - |a + " "|);
      }
    }
  }

  lemma NotInCut(u: string, m: string, a: string, cut: string, b: string, i: nat)
    requires CutApart(u, m, a, cut, b) && IsNestedSet(u, i)
    ensures i < |a| || i >= |a + cut|
  {
    hide InVersionField, Contained, ParenNet, Boundary;
  }

  lemma NotBlank(u: string, m: string, a: string, cut: string, b: string, i: nat)
    requires CutApart(u, m, a, cut, b) && IsNestedSet(m, i)
    ensures i < |a| || i >= |a + " "|
  {
    hide InVersionField, Contained, ParenNet, Boundary;
    assert m[|a|] == ' ';
  }

  /** When whole fields are removed, what is kept has nested sets exactly when the old selection set has. */
  lemma NestedSetsAreKept(content: string)
    requires RemovesWholeFields(content)
    ensures HasNestedSet(Kept(content)) <==> HasNestedSet(content)
  {
    hide CutOf, CutToSpace, PastLead, HasNestedSet, InVersionField, Contained, ParenNet, IsNameChar, Scan;
    var p := PastLead(content);
    var lead := LeadParts(content);
    PlainIsContained(lead, p);
    NestedSetsPast(lead, p);
    if CutOf(p).Some? {
      NestedAfterCut(p);
    } else {
      NoCutIsAll(p);
    }
  }

  lemma NoCutIsAll(p: string)
    requires CutOf(p) == None
    ensures CutToSpace(p) == p
  {
  }

  /**
    The rewriting gains no nested set its fields: the nested sets of the answer select both exactly when those that are
    kept did, and, when whole fields are removed, exactly when those of the old selection set did.
   */
  lemma NestedSetsNeverGain(content: string)
    ensures NestedSetsSelectBoth(NewSelectionSet(content)) <==>
      NestedSetsSelectBoth(if HasBoth(content) then content else Kept(content))
    ensures RemovesWholeFields(content) ==>
      (NestedSetsSelectBoth(NewSelectionSet(content)) <==> NestedSetsSelectBoth(content))
  {
    hide NewContent, Contains, HasNestedSet, NestedSetsSelectBoth, RemovesWholeFields, Kept;
    NestedPromiseExactly(content);
    if !HasBoth(content) {
      PromiseWithoutBoth(content);
      if HasBoth(Kept(content)) {
        KeptHoldsNothingNew(content, DOC_ID);
        KeptHoldsNothingNew(content, COMPLETE_VERSION);
      }
      PromiseWithoutBoth(Kept(content));
      if RemovesWholeFields(content) {
        NestedSetsAreKept(content);
      }
    }
  }

  /** Exactly which accepted queries are answered with nested selection sets that all select both fields. */
  lemma AnswerNestedExactly(query: string) returns (head: string, content: string, tail: string)
    requires Answer(query).Ok? && HasMainPair(TrimSpace(query))
    ensures Splits(TrimSpace(query), head, content, tail) &&
      Splits(Answer(query).value, head, NewSelectionSet(content), tail)
    ensures NestedSetsSelectBoth(NewSelectionSet(content)) <==>
      if HasBoth(content) then NestedSetsSelectBoth(content) else !HasNestedSet(Kept(content))
  {
    hide Answer, TrimSpace, HasMainPair, Splits, HasBoth, NewContent, HasNestedSet, NestedSetsSelectBoth, Kept;
    head, content, tail := AnswerSplits(query);
    NestedPromiseExactly(content);
  }

  // ---------- the whole query ----------

  /**
    The documented promise for a query: its outermost selection set, those nested in it, and those of whatever
    operations and fragments follow all select both fields.
   */
  ghost predicate EverySetSelectsBoth(content: string, tail: string)
    requires tail != ""
  {
    SelectsBoth(content) && NestedSetsSelectBoth(content) && NestedSetsSelectBoth(tail[1..])
  }

  /**
    Exactly which accepted queries are answered as documented: those answered unchanged because they are so already, and
    those whose outermost set is their only one and holds no complete _version but one that it selects.
   */
  lemma AnswerPromiseExactly(query: string) returns (head: string, content: string, tail: string)
    requires Answer(query).Ok? && HasMainPair(TrimSpace(query))
    ensures Splits(TrimSpace(query), head, content, tail) &&
      Splits(Answer(query).value, head, NewSelectionSet(content), tail)
    ensures EverySetSelectsBoth(NewSelectionSet(content), tail) <==>
      if HasBoth(content) then EverySetSelectsBoth(content, tail)
      else
        && (Contains(content, COMPLETE_VERSION) ==> Selects(content, COMPLETE_VERSION))
        && !HasNestedSet(Kept(content)) && NestedSetsSelectBoth(tail[1..])
  {
    hide Answer, TrimSpace, HasMainPair, Contains, NewContent, HasNestedSet, NestedSetsSelectBoth, Kept, Selects,
      Balanced, MainBrace;
    head, content, tail := AnswerSplits(query);
    OutermostExactly(content);
    NestedPromiseExactly(content);
  }

  // ---------- a query that is answered as documented ----------

  lemma VersionEndBeforeBrace(x: string, j: nat)
    requires IsAt(x, VERSION, j) && VersionEnd(x, j).Some?
    ensures IsAt(x + "}", VERSION, j) && VersionEnd(x + "}", j) == VersionEnd(x, j)
  {
    hide Blanks, Close;
    assert (x + "}")[j..j + 8] == x[j..j + 8];
    var rest := x[j + 8..];
    assert (x + "}")[j + 8..] == rest + "}";
    BlanksOfLonger(rest, "}");
    var n := Blanks(rest);
    if n < |rest| {
      assert (rest + "}")[n..] == rest[n..] + "}";
      if rest[n] == '{' {
        assert (rest[n..] + "}")[1..] == rest[n..][1..] + "}";
        CloseOfLonger(rest[n..][1..], "}", 1);
      }
    } else {
      assert (rest + "}")[|rest|] == '}';
      assert Blanks(rest + "}") == |rest|;
      assert (rest + "}")[|rest|..] == "}";
    }
  }

  lemma NestedBeforeBrace(x: string, k: nat)
    requires IsNestedSet(x + "}", k)
    ensures IsNestedSet(x, k)
  {
    hide InVersionField, ParenNet;
    var s := x + "}";
    assert s[|x|] == '}';
    assert s[..k] == x[..k];
    FieldBeforeBrace(x, k);
  }

  lemma FieldBeforeBrace(x: string, k: nat)
    ensures InVersionField(x, k) ==> InVersionField(x + "}", k)
  {
    hide VersionEnd, IsNameChar;
    var s := x + "}";
    forall j: nat | VersionAt(x, j) && FieldCovers(x, j, k) ensures InVersionField(s, k) {
      VersionEndBeforeBrace(x, j);
      BoundaryInside(x, j);
      assert VersionAt(s, j) && FieldCovers(s, j, k);
    }
  }

  lemma BoundaryInside(x: string, j: nat)
    requires j < |x|
    ensures Boundary(x + "}", j) <==> Boundary(x, j)
  {
    hide IsNameChar;
    if j > 0 { assert (x + "}")[j] == x[j] && (x + "}")[j - 1] == x[j - 1]; }
  }

  /**
    A nested selection set that selects both fields satisfies the promise, whatever objects the arguments before it
    hold: the query is answered unchanged.
   */
  lemma ArgumentObjectsAreNoSets(name: string, x: string)
    requires Balanced(name) && Balanced(x) && ParenNet(name) == 0 && !Contains(name + "{", VERSION)
    requires forall i | 0 <= i < |name| && name[i] == '{' :: ParenNet(name[..i]) != 0
    requires SelectsBoth(x) && !HasNestedSet(x)
    ensures
      var content := name + ("{" + (x + "}"));
      && Answer("{" + content + "}") == Ok("{" + content + "}")
      && NestedSetsSelectBoth(content)
  {
    hide Contains, Scan, Selects, Answer, InVersionField, ParenNet, Body;
    var content := name + ("{" + (x + "}"));
    SelectedIsContained(x, DOC_ID);
    SelectedIsContained(x, COMPLETE_VERSION);
    ConcatAssociative(name, "{", x + "}");
    ConcatAssociative(name + "{", x, "}");
    ConcatAssociative("{", x, "}");
    ContainedInPart(name + "{", x, "}", DOC_ID);
    ContainedInPart(name + "{", x, "}", COMPLETE_VERSION);
    BalancedBraces(x);
    BalancedConcat(name, "{" + x + "}");
    AnswerOfBraces(content);
    forall i: nat | IsNestedSet(content, i) ensures Body(content, i).Some? && SelectsBoth(Body(content, i).value) {
      OnlyTheSet(name, x, i);
      BodyOfSet(name, x);
    }
  }

  lemma BodyOfSet(name: string, x: string)
    requires Balanced(x)
    ensures Body(name + ("{" + (x + "}")), |name|) == Some(x)
  {
    hide Scan, Close;
    var content := name + ("{" + (x + "}"));
    assert content[|name| + 1..] == x + "}";
    CloseOfSplit(x, "}");
    assert (x + "}")[..|x|] == x;
  }

  lemma OnlyTheSet(name: string, x: string, i: nat)
    requires ParenNet(name) == 0 && !Contains(name + "{", VERSION) && !HasNestedSet(x)
    requires forall i | 0 <= i < |name| && name[i] == '{' :: ParenNet(name[..i]) != 0
    requires IsNestedSet(name + ("{" + (x + "}")), i)
    ensures i == |name|
  {
    hide Contains, IsNestedSet, ParenNet, Ends;
    var h, s := name + "{", x + "}";
    ConcatAssociative(name, "{", s);
    if i < |name| {
      NotInArguments(name, "{" + s, i);
    } else if i > |name| {
      OpeningEnds(name, s);
      var k := i - |h|;
      NestedPast(h, s, k);
      NestedBeforeBrace(x, k);
    }
  }

  lemma NotInArguments(name: string, s: string, i: nat)
    requires i < |name| && (name[i] == '{' ==> ParenNet(name[..i]) != 0)
    ensures !IsNestedSet(name + s, i)
  {
    hide ParenNet, InVersionField;
    assert (name + s)[i] == name[i] && (name + s)[..i] == name[..i];
  }

  lemma OpeningEnds(name: string, s: string)
    requires ParenNet(name) == 0 && !Contains(name + "{", VERSION)
    ensures Ends(name + "{", s)
  {
    hide Contains, VersionEnd, ParenNet, IsNameChar;
    var h := name + "{";
    NoParens("{");
    ParenNetOfConcat(name, "{");
    assert (h + s)[|name|] == '{' && !IsNameChar('{') by { BraceIsNoName(); }
    assert '{' !in VERSION;
    forall j: nat | IsAt(h + s, VERSION, j) ensures j >= |h| {
      CharsAt(h + s, VERSION, j);
      if j < |h| {
        assert j + 8 <= |name|;
        assert (h + s)[j..j + 8] == h[j..j + 8];
        ContainsAt(h, VERSION, j);
      }
    }
    PlainIsContained(h, s);
  }

  lemma BraceIsNoName()
    ensures !IsNameChar('{') && !IsNameChar('}')
  {
  }

  // ---------- queries that are not answered as documented ----------

  /** A nested selection set with neither field is answered with neither. */
  lemma NestedSetGainsNothing()
    ensures
      var content := "User{name}";
      && Answer("{" + content + "}") == Ok("{" + NewSelectionSet(content) + "}")
      && HasNestedSet(content) && !NestedSetsSelectBoth(NewSelectionSet(content))
  {
    hide Contains, NewContent, TrimSpace, Scan, NestedSetsSelectBoth, HasNestedSet, HasBoth, Answer, Kept;
    var content := "User{name}";
    BalancedPlain("name");
    UserIsBalanced("name");
    assert "User{" + "name" + "}" == content;
    AnswerOfBraces(content);
    NeverStarts(content, VERSION);
    NoCompleteWithoutVersion(content);
    assert content[0] == 'U';
    NothingRemoved(content);
    assert content == "User" + "{name}";
    OneNestedSet("User", "{name}");
    NestedSetsNeverGain(content);
    PromiseWithoutBoth(content);
  }

  /** Behind a text without parentheses, and with no _version around, a brace opens a nested set. */
  lemma OneNestedSet(name: string, nested: string)
    requires '(' !in name && ')' !in name && nested != "" && nested[0] == '{' && !Contains(name + nested, VERSION)
    ensures HasNestedSet(name + nested)
  {
    hide Contains, ParenNet, VersionEnd;
    var s := name + nested;
    assert s[|name|] == '{' && s[..|name|] == name;
    NoParens(name);
    forall j: nat | VersionAt(s, j) ensures false {
      ContainsAt(s, VERSION, j);
    }
    assert IsNestedSet(s, |name|);
  }

  lemma UserIsBalanced(x: string)
    requires Balanced(x)
    ensures Balanced("User{" + x + "}")
  {
    hide Scan;
    BalancedPlain("User");
    BalancedBraces(x);
    BalancedConcat("User", "{" + x + "}");
    assert "User" + ("{" + x + "}") == "User{" + x + "}";
  }

  /** And a nested incomplete _version, being the first of all, is deleted. */
  lemma NestedVersionIsDeleted()
    ensures
      var content := "User{_version{cid}}";
      && Answer("{" + content + "}") == Ok("{" + NewSelectionSet(content) + "}")
      && NewSelectionSet(content) == DOC_ID + " " + COMPLETE_VERSION + " " + "User{ }"
  {
    hide Contains, NewContent, TrimSpace, Scan, Answer, Remaining;
    var content := "User{_version{cid}}";
    UserVersionIsBalanced();
    AnswerOfBraces(content);
    NeverStarts(content, DOC_ID);
    TooShort(content, COMPLETE_VERSION);
    UserVersionRemaining(content);
    HeadAndRemaining(content);
  }

  lemma UserVersionIsBalanced()
    ensures Balanced("User{_version{cid}}")
  {
    hide Scan;
    BalancedPlain("_version");
    BalancedPlain("cid");
    BalancedBraces("cid");
    BalancedConcat("_version", "{" + "cid" + "}");
    assert "_version" + ("{" + "cid" + "}") == "_version{cid}";
    UserIsBalanced("_version{cid}");
    assert "User{" + "_version{cid}" + "}" == "User{_version{cid}}";
  }

  lemma UserVersionRemaining(content: string)
    requires content == "User{_version{cid}}" && !Contains(content, COMPLETE_VERSION) && !Contains(content, DOC_ID)
    ensures Remaining(content) == "User{ }"
  {
    TrimSpaceOfTrimmed(content);
    hide Contains, TrimSpace, Scan, Remaining, CutOf, IsSpace, IsLead;
    UserCut(content);
    var pre, u := RemainingParts(content);
    assert pre == "" by { if pre != "" { PrefixIsContained(content, DOC_ID); } }
    assert pre + u == u;
    UserWithout(content);
  }

  lemma UserWithout(content: string)
    requires content == "User{_version{cid}}"
    ensures TrimSpace(content[..5] + " " + content[18..]) == "User{ }"
  {
    assert content[..5] == "User{" && content[18..] == "}";
    assert "User{" + " " + "}" == "User{ }";
    TrimSpaceOfTrimmed("User{ }");
  }

  lemma HeadAndRemaining(content: string)
    requires !HasBoth(content) && !Contains(content, COMPLETE_VERSION) && Remaining(content) != ""
    ensures NewSelectionSet(content) == DOC_ID + " " + COMPLETE_VERSION + " " + Remaining(content)
  {
    hide Contains, Remaining;
  }

  lemma UserCut(content: string)
    requires content == "User{_version{cid}}" && !Contains(content, COMPLETE_VERSION)
    ensures CutOf(content) == Some((5, 18))
  {
    hide Scan, Close, VersionEnd, Contains;
    UserVersionStart(content);
    UserVersionEnd(content);
  }

  lemma UserVersionStart(content: string)
    requires content == "User{_version{cid}}"
    ensures Index(content, VERSION) == Some(5)
  {
    hide Index;
    assert content[5..13] == VERSION && IsAt(content, VERSION, 5);
    FieldNames();
    assert forall i | 0 <= i < 5 :: content[i] != '_';
    forall j: nat | j < 5 ensures !IsAt(content, VERSION, j) {
      OccurrenceStart(content, VERSION, j);
    }
  }

  lemma UserVersionEnd(content: string)
    requires content == "User{_version{cid}}" && IsAt(content, VERSION, 5)
    ensures VersionEnd(content, 5) == Some(18)
  {
    hide Scan, Close;
    var rest := content[13..];
    assert rest == "{cid}}" && Blanks(rest) == 0 && rest[0..] == rest;
    assert rest[1..] == "cid" + "}}";
    BalancedPlain("cid");
    CloseOfSplit("cid", "}}");
  }

  /** Whatever is selected first: a selection set of a later operation gains nothing either. */
  lemma LaterSetGainsNothing(content: string, name: string, x: string)
    requires Balanced(content) && '(' !in name && ')' !in name && !Contains(name + ("{" + x + "}"), VERSION)
    ensures
      var tail := "}" + (name + ("{" + x + "}"));
      && Answer("{" + content + tail) == Ok("{" + NewSelectionSet(content) + tail)
      && !NestedSetsSelectBoth(tail[1..])
  {
    hide Contains, NewContent, Scan, NestedSetsSelectBoth, HasNestedSet, Answer, HasBoth;
    var later := name + ("{" + x + "}");
    var tail := "}" + later;
    LastOfConcat(name, "{" + x + "}");
    LastOfConcat("}", later);
    AnswerOfSplit(content, tail);
    assert tail[1..] == later;
    NoCompleteWithoutVersion(later);
    OneNestedSet(name, "{" + x + "}");
    PromiseWithoutBoth(later);
  }
}
