/**
  What else a rewriting does to the fields of a selection set. When it removes whole fields all others stay selected; a
  name that only begins like one of the two is torn, and what belonged to a removed field is left to the next one.
 */
module WholeFields {
  import opened Basics
  import opened Texts
  import opened Braces
  import opened QueryRewriter
  import opened RewriterLaws
  import opened Selections
  import opened RewriterPromises
  import opened NestedSelections

  ghost predicate IsName(f: string) {
    f != "" && forall k | 0 <= k < |f| :: IsNameChar(f[k])
  }

  /** A whole name does not reach over a place where no name goes on. */
  lemma NameEndsAtBoundary(s: string, f: string, i: nat, stop: nat)
    requires IsName(f) && IsAt(s, f, i) && i < stop <= |s| && Boundary(s, stop)
    ensures i + |f| <= stop
  {
    hide IsNameChar;
    CharsAt(s, f, i);
  }

  /** Two whole names that begin at one place are one. */
  lemma OneNameAt(s: string, f: string, g: string, i: nat)
    requires IsName(f) && IsName(g) && IsAt(s, f, i) && IsAt(s, g, i)
    requires Boundary(s, i + |f|) && Boundary(s, i + |g|)
    ensures f == g
  {
    hide IsNameChar;
    AtIsInside(s, f, i);
    AtIsInside(s, g, i);
    NameEndsAtBoundary(s, f, i, i + |g|);
    NameEndsAtBoundary(s, g, i, i + |f|);
  }

  /** No whole name begins inside another. */
  lemma NoNameInsideName(s: string, f: string, g: string, start: nat, i: nat)
    requires IsName(f) && IsName(g) && IsAt(s, g, start) && SelectedAt(s, f, i)
    ensures i <= start || i >= start + |g|
  {
    hide IsNameChar, Scan, ParenNet;
    CharsAt(s, g, start);
    CharsAt(s, f, i);
    assert IsNameChar(s[i]);
  }

  lemma NamesOfFields()
    ensures IsName(DOC_ID) && IsName(VERSION)
  {
  }

  // ---------- what a removed field selects ----------

  lemma CutIsBalanced(u: string, start: nat, end: nat)
    requires IsAt(u, VERSION, start) && VersionEnd(u, start) == Some(end)
    ensures Balanced(u[start..end])
  {
    hide Scan, VersionEnd, IsNameChar;
    var p, inner, tail := FieldBraces(u, start, end);
    CharsAt(u, VERSION, start);
    assert '{' !in VERSION && '}' !in VERSION;
    var name := u[start..p];
    assert forall i | 0 <= i < |name| :: name[i] == u[start + i];
    BalancedPlain(name);
    if p < end {
      BalancedBraces(inner);
      BalancedConcat(name, "{" + inner + "}");
      assert u[start..end] == name + ("{" + inner + "}");
    }
  }

  lemma SameDepth(a: string, m1: string, m2: string)
    requires Balanced(m1) && Balanced(m2)
    ensures Scan(a + m1, 1) == Scan(a + m2, 1)
  {
    ScanOfConcat(a, m1, 1);
    ScanOfConcat(a, m2, 1);
    if Scan(a, 1).Some? {
      BalancedFrom(m1, Scan(a, 1).value);
      BalancedFrom(m2, Scan(a, 1).value);
    }
  }

  /** A brace deepens, and so does every balanced beginning behind it. */
  lemma DeeperBehindBrace(before: string, inner: string, k: nat)
    requires k <= |inner| && Balanced(inner)
    ensures Scan(before + "{" + inner[..k], 1) != Some(1)
  {
    hide Scan;
    ScanOfConcat(before + "{", inner[..k], 1);
    ScanOfConcat(before, "{", 1);
    if Scan(before, 1).Some? {
      var d := Scan(before, 1).value;
      BraceDeepens(d);
      assert inner == inner[..k] + inner[k..];
      ScanOfConcat(inner[..k], inner[k..], 1);
      ScanDeeper(inner[..k], 1, d);
    }
  }

  lemma BraceDeepens(d: nat)
    requires d > 0
    ensures Scan("{", d) == Some(d + 1)
  {
    assert "{"[1..] == "";
  }

  /** Of a whole _version field and its braces only the name itself can be selected. */
  lemma FieldSelectsItsName(u: string, start: nat, end: nat, f: string, i: nat)
    requires IsAt(u, VERSION, start) && VersionEnd(u, start) == Some(end) && Boundary(u, end)
    requires IsName(f) && SelectedAt(u, f, i) && start <= i < end
    ensures i == start && f == VERSION
  {
    hide VersionEnd, IsNameChar, Scan, ParenNet;
    var p, inner, tail := FieldBraces(u, start, end);
    NamesOfFields();
    SelectedIsAt(u, f, i);
    CharsAt(u, f, i);
    assert IsNameChar(u[i]);
    if p < end {
      BraceIsNoName();
      assert u[p] == '{' && u[end - 1] == '}' by {
        assert (inner + "}" + tail)[|inner|] == '}';
        assert u[end - 1] == (inner + "}" + tail)[|inner|];
      }
      if p < i {
        var k := i - p - 1;
        assert u[..i] == u[..p] + "{" + inner[..k];
        DeeperBehindBrace(u[..p], inner, k);
      }
    }
    NoNameInsideName(u, f, VERSION, start, i);
    BoundaryAfterName(u, start, p, end);
    OneNameAt(u, f, VERSION, start);
  }

  lemma BoundaryAfterName(u: string, start: nat, p: nat, end: nat)
    requires start + 8 <= p <= end <= |u| && Boundary(u, end) && (p < end ==> u[p] == '{')
    requires forall i | start + 8 <= i < p :: !IsNameChar(u[i])
    ensures Boundary(u, start + 8)
  {
    BraceIsNoName();
  }

  // ---------- what is kept selects ----------

  predicate InCut(t: string, i: nat) {
    CutOf(t).Some? && CutOf(t).value.0 <= i < CutOf(t).value.1
  }

  /** The position belongs to the leading _docID or to the removed _version. */
  ghost predicate Removed(content: string, i: nat) {
    var n := |content| - |PastLead(content)|;
    i < n || InCut(PastLead(content), i - n)
  }

  /** A name before a removed part stays where it is. */
  lemma SelectedBeforePart(a: string, cut: string, b: string, f: string, i: nat)
    requires IsName(f) && i < |a| && Boundary(a + cut + b, |a|)
    ensures SelectedAt(a + cut + b, f, i) <==> SelectedAt(a + " " + b, f, i)
  {
    hide IsNameChar, Scan, ParenNet;
    SpaceBegins(a, b);
    ConcatAssociative(a, cut, b);
    ConcatAssociative(a, " ", b);
    if IsAt(a + cut + b, f, i) {
      NameEndsAtBoundary(a + cut + b, f, i, |a|);
    }
    if IsAt(a + " " + b, f, i) {
      NameEndsAtBoundary(a + " " + b, f, i, |a|);
    }
    if i + |f| <= |a| {
      SelectedBeforeEither(a, cut + b, " " + b, f, i);
    }
  }

  lemma SpaceBegins(a: string, b: string)
    ensures Boundary(a + " " + b, |a|) && Boundary(a + " " + b, |a + " "|)
  {
    assert (a + " " + b)[|a|] == ' ';
  }

  /** A name behind it keeps its depth. */
  lemma SelectedBehindPart(a: string, cut: string, b: string, f: string, k: nat)
    requires Balanced(cut) && ParenNet(cut) == 0 && Boundary(a + cut + b, |a + cut|)
    ensures SelectedAt(a + cut + b, f, |a + cut| + k) <==> SelectedAt(a + " " + b, f, |a + " "| + k)
  {
    hide IsNameChar, SelectedAt;
    BalancedPlain(" ");
    SameDepth(a, cut, " ");
    ParenNetOfConcat(a, cut);
    ParenNetOfConcat(a, " ");
    NoParens(" ");
    SpaceBegins(a, b);
    hide Scan, ParenNet;
    SelectedPastEither(a + cut, a + " ", b, f, k);
  }

  lemma SpaceSelectsNothing(a: string, b: string, f: string)
    requires IsName(f)
    ensures !SelectedAt(a + " " + b, f, |a|)
  {
    hide Scan, ParenNet;
    var m := a + " " + b;
    assert m[|a|] == ' ';
    if IsAt(m, f, |a|) { CharsAt(m, f, |a|); }
  }

  /** What is left of p selects a name exactly where p does outside the removed field. */
  lemma CutSelectsExactly(p: string, f: string)
    requires IsName(f) && (CutOf(p).Some? ==> Boundary(p, CutOf(p).value.0) && Boundary(p, CutOf(p).value.1)
                                              && ParenNet(p[CutOf(p).value.0..CutOf(p).value.1]) == 0)
    ensures Selects(CutToSpace(p), f) <==> exists i: nat :: SelectedAt(p, f, i) && !InCut(p, i)
  {
    hide IsNameChar, SelectedAt, CutOf, Scan, ParenNet;
    if CutOf(p).Some? {
      var a, cut, b := CutParts(p);
      var m := a + " " + b;
      assert p[|a|..|a + cut|] == cut;
      FirstIsFirst(p);
      CutIsBalanced(p, |a|, |a + cut|);
      if i: nat :| SelectedAt(p, f, i) && !InCut(p, i) {
        if i < |a| {
          SelectedBeforePart(a, cut, b, f, i);
        } else {
          SelectedBehindPart(a, cut, b, f, i - |a + cut|);
        }
      }
      if i: nat :| SelectedAt(m, f, i) {
        SpaceSelectsNothing(a, b, f);
        if i < |a| {
          SelectedBeforePart(a, cut, b, f, i);
        } else {
          var k := i - |a + " "|;
          SelectedBehindPart(a, cut, b, f, k);
          assert !InCut(p, |a + cut| + k);
        }
      }
    } else {
      NoCutIsAll(p);
    }
  }

  /** Past a whole lead the content selects what the rest of it does. */
  lemma SelectedPastLead(content: string, f: string, k: nat)
    requires Boundary(content, |content| - |PastLead(content)|)
    ensures SelectedAt(content, f, |content| - |PastLead(content)| + k) <==> SelectedAt(PastLead(content), f, k)
  {
    hide SelectedAt, PastLead, IsNameChar, Scan, ParenNet;
    var p := PastLead(content);
    var lead := LeadParts(content);
    assert Scan("", 1) == Some(1) && ParenNet("") == 0 by { ScanPlain("", 1); NoParens(""); }
    assert "" + p == p;
    SelectedPastEither(lead, "", p, f, k);
  }

  /** When whole fields are removed, what is kept selects a name exactly where the old selection set does elsewhere. */
  lemma KeptSelectsExactly(content: string, f: string)
    requires RemovesWholeFields(content) && IsName(f)
    ensures Selects(Kept(content), f) <==> exists i: nat :: SelectedAt(content, f, i) && !Removed(content, i)
  {
    hide SelectedAt, PastLead, InCut, CutOf, CutToSpace, Boundary, ParenNet, IsName;
    var p := PastLead(content);
    var n := |content| - |p|;
    CutSelectsExactly(p, f);
    if i: nat :| SelectedAt(p, f, i) && !InCut(p, i) {
      SelectedPastLead(content, f, i);
      assert !Removed(content, n + i);
    }
    if i: nat :| SelectedAt(content, f, i) && !Removed(content, i) {
      assert i == n + (i - n);
      SelectedPastLead(content, f, i - n);
    }
  }

  /**
    When whole fields are removed from a selection set without a complete _version, the new one selects either field
    twice exactly when the old one selects it elsewhere.
   */
  lemma WholeFieldsTwiceExactly(content: string)
    requires RemovesWholeFields(content)
    ensures SelectsTwice(NewContent(content), DOC_ID) <==>
      exists i: nat :: SelectedAt(content, DOC_ID, i) && !Removed(content, i)
    ensures !Contains(content, COMPLETE_VERSION) ==>
      (SelectsTwice(NewContent(content), VERSION) <==>
       exists i: nat :: SelectedAt(content, VERSION, i) && !Removed(content, i))
  {
    hide NewContent, Kept, SelectedAt, Removed, Contains, SelectsTwice, Selects, RemovesWholeFields;
    NamesOfFields();
    DocIDTwiceExactly(content);
    VersionTwiceExactly(content);
    KeptSelectsExactly(content, DOC_ID);
    KeptSelectsExactly(content, VERSION);
  }

  // ---------- the other fields ----------

  /** The lead selects nothing but _docID. */
  lemma LeadSelectsDocID(l: string, r: string, p: string, f: string, i: nat)
    requires AllSpace(l) && AllSpace(r) && Boundary(l + DOC_ID + r + p, |l + DOC_ID + r|)
    requires IsName(f) && SelectedAt(l + DOC_ID + r + p, f, i) && i < |l + DOC_ID + r|
    ensures f == DOC_ID
  {
    hide IsNameChar, Scan, ParenNet, IsSpace;
    var s := l + DOC_ID + r + p;
    var start := |l|;
    NamesOfFields();
    CharsAt(s, f, i);
    assert IsNameChar(s[i]);
    assert s[start..start + 6] == DOC_ID;
    assert forall j | 0 <= j < |l| :: s[j] == l[j];
    assert forall j | start + 6 <= j < start + 6 + |r| :: s[j] == r[j - start - 6];
    forall j | 0 <= j < start || start + 6 <= j < start + 6 + |r| ensures !IsNameChar(s[j]) {
      SpaceIsNoName(s[j]);
    }
    NoNameInsideName(s, f, DOC_ID, start, i);
    assert i == start;
    OneNameAt(s, f, DOC_ID, start);
  }

  /** The new head selects nothing but the two fields. */
  lemma HeadSelectsOnlyBoth(content: string, f: string, i: nat)
    requires IsName(f) && f != DOC_ID && f != VERSION && SelectedAt(NewContent(content), f, i)
    ensures i >= |NewHead(content)|
  {
    hide IsNameChar, Scan, ParenNet, NewContent, NewHead, Remaining, Contains, IsSpace, Transparent, VersionEnd;
    HeadIsFirst(content);
    HeadIsTransparent(content);
    HeadTexts(content);
    var h, rest := NewHead(content), Remaining(content);
    if Contains(content, COMPLETE_VERSION) {
      var space :| h == DOC_ID + " " + space && (space == "" || space == " ");
      PlainHeadSelects(space, rest, f, i);
    } else {
      var space :| h == DOC_ID + " " + COMPLETE_VERSION + space && (space == "" || space == " ");
      FullHeadSelects(space, rest, f, i);
    }
  }

  lemma PlainHeadSelects(space: string, rest: string, f: string, i: nat)
    requires (space == "" || space == " ") && IsName(f) && f != DOC_ID && SelectedAt(DOC_ID + " " + space + rest, f, i)
    ensures i >= |DOC_ID + " " + space|
  {
    hide IsNameChar, Scan, ParenNet, SelectedAt, Boundary;
    var r := " " + space;
    assert "" + DOC_ID + r + rest == DOC_ID + " " + space + rest && "" + DOC_ID + r == DOC_ID + r;
    assert AllSpace("") && AllSpace(r) by { SpaceIsSpace(); }
    BoundaryBehindSpace(DOC_ID + r, rest);
    if i < |DOC_ID + r| {
      LeadSelectsDocID("", r, rest, f, i);
    }
  }

  lemma SpaceIsSpace()
    ensures IsSpace(' ')
  {
  }

  lemma BoundaryBehindSpace(h: string, rest: string)
    requires h != "" && h[|h| - 1] == ' '
    ensures Boundary(h + rest, |h|)
  {
    assert (h + rest)[|h| - 1] == ' ';
  }

  lemma FullHeadSelects(space: string, rest: string, f: string, i: nat)
    requires (space == "" || space == " ") && IsName(f) && f != DOC_ID && f != VERSION
    requires SelectedAt(DOC_ID + " " + COMPLETE_VERSION + space + rest, f, i)
    ensures i >= |DOC_ID + " " + COMPLETE_VERSION + space|
  {
    hide IsNameChar, Scan, ParenNet, SelectedAt, VersionEnd, Boundary;
    var start, field := DOC_ID + " ", COMPLETE_VERSION + (space + rest);
    var s := DOC_ID + " " + COMPLETE_VERSION + space + rest;
    RegroupHead(start, COMPLETE_VERSION, space, rest);
    assert start + "" == start;
    if i < |start| {
      PlainHeadSelects("", field, f, i);
    } else if i < |start| + |COMPLETE_VERSION| {
      CompleteVersionEnds(space + rest);
      VersionEndPast(start, field, 0);
      BoundaryBehindBrace(start, space + rest);
      FieldSelectsItsName(s, |start|, |start| + |COMPLETE_VERSION|, f, i);
    } else if i < |start + COMPLETE_VERSION + space| {
      BlankSelectsNothing(start + COMPLETE_VERSION, space, rest, f, i);
    }
  }

  lemma BoundaryBehindBrace(start: string, rest: string)
    ensures Boundary(start + (COMPLETE_VERSION + rest), |start| + |COMPLETE_VERSION|)
  {
    CompleteVersionStart();
    BraceIsNoName();
    var s := start + (COMPLETE_VERSION + rest);
    assert s[|start| + |COMPLETE_VERSION| - 1] == COMPLETE_VERSION[|COMPLETE_VERSION| - 1];
  }

  lemma BlankSelectsNothing(h: string, space: string, rest: string, f: string, i: nat)
    requires (space == "" || space == " ") && IsName(f) && |h| <= i < |h + space|
    ensures !SelectedAt(h + space + rest, f, i)
  {
    SpaceSelectsNothing(h, rest, f);
    assert space == " " && i == |h|;
  }

  /**
    When whole fields are removed, every other field stays: the rewritten selection set selects a name other than _docID
    and _version exactly when the old one does.
   */
  lemma OtherFieldsSurvive(content: string, f: string)
    requires RemovesWholeFields(content) && IsName(f) && f != DOC_ID && f != VERSION
    ensures Selects(NewContent(content), f) <==> Selects(content, f)
  {
    hide NewContent, NewHead, Remaining, Kept, Removed, SelectedAt, Transparent, IsName, IsSpace, IsHead, Scan,
      RemovesWholeFields;
    HeadIsFirst(content);
    HeadIsTransparent(content);
    var h, rest := NewHead(content), Remaining(content);
    PastHead(h, rest, f);
    NamesHaveNoSpaces(f);
    KeptSelects(content, f);
    KeptSelectsExactly(content, f);
    forall i: nat | SelectedAt(content, f, i) ensures !Removed(content, i) {
      OthersAreNotRemoved(content, f, i);
    }
    if i: nat :| SelectedAt(NewContent(content), f, i) {
      HeadSelectsOnlyBoth(content, f, i);
      assert i == |h| + (i - |h|);
      assert SelectedAt(rest, f, i - |h|);
    }
    if k: nat :| SelectedAt(rest, f, k) {
      assert SelectedAt(h + rest, f, |h| + k);
    }
  }

  lemma NamesHaveNoSpaces(f: string)
    requires IsName(f)
    ensures f != "" && !IsSpace(f[0]) && !IsSpace(f[|f| - 1])
  {
    assert IsNameChar(f[0]) && IsNameChar(f[|f| - 1]);
    if IsSpace(f[0]) { SpaceIsNoName(f[0]); }
    if IsSpace(f[|f| - 1]) { SpaceIsNoName(f[|f| - 1]); }
  }

  lemma OthersAreNotRemoved(content: string, f: string, i: nat)
    requires RemovesWholeFields(content) && IsName(f) && f != DOC_ID && f != VERSION && SelectedAt(content, f, i)
    ensures !Removed(content, i)
  {
    hide SelectedAt, PastLead, CutOf, ParenNet, IsName, IsSpace, Scan, IsNameChar, VersionEnd, Boundary;
    var p := PastLead(content);
    var n := |content| - |p|;
    var lead := LeadParts(content);
    if i < n {
      var l, r :| AllSpace(l) && AllSpace(r) && lead == l + DOC_ID + r;
      LeadSelectsDocID(l, r, p, f, i);
    } else if InCut(p, i - n) {
      assert i == n + (i - n);
      SelectedPastLead(content, f, i - n);
      FirstIsFirst(p);
      FieldSelectsItsName(p, CutOf(p).value.0, CutOf(p).value.1, f, i - n);
    }
  }

  // ---------- all names ----------

  ghost function NameLength(s: string): (n: nat)
    ensures n <= |s| && forall k | 0 <= k < n :: IsNameChar(s[k])
    ensures n < |s| ==> !IsNameChar(s[n])
  {
    if s != "" && IsNameChar(s[0]) then 1 + NameLength(s[1..]) else 0
  }

  /** All names of a text, in order, at whatever depth. */
  ghost function Names(s: string): seq<string> {
    if s == "" then []
    else if !IsNameChar(s[0]) then Names(s[1..])
    else
      var n := NameLength(s);
      [s[..n]] + Names(s[n..])
  }

  lemma {:induction false} NameLengthOfConcat(x: string, y: string)
    ensures NameLength(x) < |x| ==> NameLength(x + y) == NameLength(x)
    ensures NameLength(x) == |x| ==> NameLength(x + y) == |x| + NameLength(y)
  {
    hide IsNameChar;
    if x == "" {
      assert x + y == y;
    } else {
      assert (x + y)[1..] == x[1..] + y;
      NameLengthOfConcat(x[1..], y);
    }
  }

  lemma BoundaryOfRest(x: string, y: string, n: nat)
    requires n < |x|
    ensures Boundary(x + y, |x|) <==> Boundary(x[n..] + y, |x| - n)
  {
    hide IsNameChar;
    assert (x + y)[n..] == x[n..] + y;
    if y != "" {
      assert (x[n..] + y)[|x| - n] == y[0] == (x + y)[|x|];
      assert (x[n..] + y)[|x| - n - 1] == x[|x| - 1] == (x + y)[|x| - 1];
    }
  }

  /** Two texts after each other have the names of both, but for a name that goes on from one into the other. */
  lemma {:induction false} NamesOfConcat(x: string, y: string)
    ensures Boundary(x + y, |x|) ==> Names(x + y) == Names(x) + Names(y)
    ensures !Boundary(x + y, |x|) ==> |Names(x + y)| + 1 == |Names(x)| + |Names(y)|
    decreases |x|
  {
    hide IsNameChar, Boundary;
    if x == "" {
      assert x + y == y;
      BoundaryAtStart(y);
    } else if !IsNameChar(x[0]) {
      assert (x + y)[1..] == x[1..] + y;
      if |x| > 1 { BoundaryOfRest(x, y, 1); } else { NoNameEnds(x, y); }
      NamesOfConcat(x[1..], y);
    } else {
      var n := NameLength(x);
      NameLengthOfConcat(x, y);
      if n < |x| {
        assert (x + y)[..n] == x[..n] && (x + y)[n..] == x[n..] + y;
        BoundaryOfRest(x, y, n);
        NamesOfConcat(x[n..], y);
      } else {
        NamesBehindName(x, y);
      }
    }
  }

  lemma BoundaryAtStart(y: string)
    ensures Boundary("" + y, 0)
  {
  }

  lemma NoNameEnds(x: string, y: string)
    requires |x| == 1 && !IsNameChar(x[0])
    ensures Boundary(x + y, 1) && Boundary(x[1..] + y, 0)
  {
    assert (x + y)[0] == x[0];
  }

  lemma NamesOfName(x: string)
    requires x != "" && NameLength(x) == |x|
    ensures Names(x) == [x]
  {
    hide IsNameChar, NameLength;
    assert IsNameChar(x[0]) && x[..|x|] == x && x[|x|..] == "";
  }

  lemma NamesStep(s: string)
    requires NameLength(s) > 0
    ensures Names(s) == [s[..NameLength(s)]] + Names(s[NameLength(s)..])
  {
    hide IsNameChar;
  }

  lemma NamesBehindName(x: string, y: string)
    requires x != "" && NameLength(x) == |x|
    ensures Boundary(x + y, |x|) ==> Names(x + y) == Names(x) + Names(y)
    ensures !Boundary(x + y, |x|) ==> |Names(x + y)| + 1 == |Names(x)| + |Names(y)|
  {
    hide IsNameChar, Names, NameLength;
    NameLengthOfConcat(x, y);
    NamesOfName(x);
    NamesStep(x + y);
    var m := NameLength(y);
    assert (x + y)[..|x| + m] == x + y[..m] && (x + y)[|x| + m..] == y[m..];
    JoinedExactly(x, y);
    if m == 0 {
      assert x + y[..m] == x && y[m..] == y;
    } else {
      NamesStep(y);
    }
  }

  lemma JoinedExactly(x: string, y: string)
    requires x != "" && NameLength(x) == |x|
    ensures Boundary(x + y, |x|) <==> NameLength(y) == 0
  {
    hide IsNameChar;
    assert (x + y)[|x| - 1] == x[|x| - 1] && IsNameChar(x[|x| - 1]);
    if y != "" {
      assert (x + y)[|x|] == y[0];
    }
  }

  lemma {:induction false} NamesOfSpaces(spaces: string)
    requires AllSpace(spaces)
    ensures Names(spaces) == []
  {
    hide IsSpace;
    if spaces != "" {
      SpaceIsNoName(spaces[0]);
      NamesOfSpaces(spaces[1..]);
    }
  }

  lemma NamesTrim(s: string)
    ensures Names(TrimSpace(s)) == Names(s)
  {
    hide TrimSpace, IsSpace, IsNameChar, Names, Boundary, Transparent;
    var left, right := TrimSpaceSplits(s);
    var t := TrimSpace(s);
    ConcatAssociative(left, t, right);
    SpaceIsTransparent(left);
    TransparentBoundary(left, t + right);
    SpaceBoundary(t, right);
    NamesOfConcat(left, t + right);
    NamesOfConcat(t, right);
    NamesOfSpaces(left);
    NamesOfSpaces(right);
  }

  lemma TransparentBoundary(h: string, s: string)
    requires Transparent(h)
    ensures Boundary(h + s, |h|)
  {
    TransparentIsLikeNothing(h, s);
  }

  lemma NamesAroundSpace(a: string, b: string)
    ensures Names(a + " " + b) == Names(a) + Names(b)
  {
    hide IsSpace, IsNameChar, Names, Boundary;
    SpaceIsSpace();
    NamesOfSpaces(" ");
    SpaceBegins(a, b);
    SpaceBegins(a, "");
    assert a + " " + "" == a + " ";
    NamesOfConcat(a + " ", b);
    NamesOfConcat(a, " ");
  }

  /** The parts of a selection set: its lead, what stands before the removed field, that field, and what follows. */
  ghost predicate Parts(content: string, lead: string, before: string, removed: string, after: string) {
    var p := PastLead(content);
    && content == lead + p && p == before + removed + after
    && match CutOf(p)
       case None => removed == "" && after == ""
       case Some(cut) => |before| == cut.0 && |before + removed| == cut.1
  }

  lemma NamesKept(content: string, lead: string, before: string, removed: string, after: string)
    requires Parts(content, lead, before, removed, after)
    ensures Names(NewContent(content)) == Names(NewHead(content)) + (Names(before) + Names(after))
  {
    hide IsNameChar, Names, NewContent, NewHead, Remaining, Scan, IsHead, Transparent, TrimSpace, CutOf, PastLead,
      Boundary;
    HeadIsFirst(content);
    HeadIsTransparent(content);
    TransparentBoundary(NewHead(content), Remaining(content));
    NamesOfConcat(NewHead(content), Remaining(content));
    RemainingIsKept(content);
    NamesTrim(Kept(content));
    var p := PastLead(content);
    if CutOf(p).Some? {
      assert p[..|before|] == before && p[|before + removed|..] == after;
      NamesAroundSpace(before, after);
    } else {
      assert Names("") == [] by { NamesOfSpaces(""); }
      assert p == before;
    }
  }

  lemma BoundaryInFront(before: string, removed: string, after: string)
    requires removed == "" ==> after == ""
    ensures Boundary(before + removed + after, |before|) <==> Boundary(before + removed, |before|)
  {
    hide IsNameChar;
    if before != "" && removed != "" {
      assert (before + removed + after)[|before|] == (before + removed)[|before|];
      assert (before + removed + after)[|before| - 1] == (before + removed)[|before| - 1];
    }
  }

  /** Texts after each other have together the names of each exactly when no name goes on between any two. */
  lemma NamesOfParts(lead: string, before: string, removed: string, after: string)
    requires removed == "" ==> after == ""
    ensures
      var p := before + removed + after;
      Names(lead + p) == Names(lead) + (Names(before) + Names(removed) + Names(after)) <==>
      Boundary(lead + p, |lead|) && Boundary(p, |before|) && Boundary(p, |before + removed|)
  {
    hide IsNameChar, Names, Boundary;
    var p := before + removed + after;
    NamesOfConcat(lead, p);
    NamesOfConcat(before + removed, after);
    NamesOfConcat(before, removed);
    BoundaryInFront(before, removed, after);
  }

  /**
    Every other name of the old selection set is kept whole and in its place exactly when whole names are removed: the
    names of the new set are always those of its head and of the two parts kept, and the names of the old one are those
    of its four parts exactly then.
   */
  lemma NamesKeptExactly(content: string) returns (lead: string, before: string, removed: string, after: string)
    ensures Parts(content, lead, before, removed, after)
    ensures Names(NewContent(content)) == Names(NewHead(content)) + (Names(before) + Names(after))
    ensures Names(content) == Names(lead) + (Names(before) + Names(removed) + Names(after)) <==>
      RemovesWholeNames(content)
  {
    hide IsNameChar, Names, NewContent, NewHead, CutOf, PastLead, Boundary;
    lead, before, removed, after := PartsOf(content);
    NamesKept(content, lead, before, removed, after);
    assert removed == "" ==> after == "" by { RemovedIsThere(content, lead, before, removed, after); }
    NamesOfParts(lead, before, removed, after);
    BoundaryAtEnd(before, removed, after);
  }

  lemma PartsOf(content: string) returns (lead: string, before: string, removed: string, after: string)
    ensures Parts(content, lead, before, removed, after)
  {
    hide PastLead, CutOf;
    var p := PastLead(content);
    lead := content[..|content| - |p|];
    if CutOf(p).Some? {
      before, removed, after := CutParts(p);
    } else {
      before, removed, after := p, "", "";
    }
  }

  lemma RemovedIsThere(content: string, lead: string, before: string, removed: string, after: string)
    requires Parts(content, lead, before, removed, after)
    ensures removed == "" ==> after == ""
  {
    hide PastLead, CutOf;
  }

  lemma BoundaryAtEnd(before: string, removed: string, after: string)
    ensures removed == "" && after == "" ==>
      Boundary(before + removed + after, |before|) && Boundary(before + removed + after, |before + removed|)
  {
  }

  // ---------- fields that are torn or renamed ----------

  /** A field whose name begins like _docID loses that beginning. */
  lemma TornName()
    ensures
      var content := "_docIDs name";
      && !RemovesWholeNames(content)
      && Answer("{" + content + "}") == Ok("{" + (DOC_ID + " " + COMPLETE_VERSION + " " + "s name") + "}")
  {
    hide Contains, NewContent, TrimSpace, Scan, Answer, Remaining, Kept, CutOf, PastLead, HasBoth;
    var content := "_docIDs name";
    BalancedPlain(content);
    AnswerOfBraces(content);
    NeverStarts(content, VERSION);
    NoCompleteWithoutVersion(content);
    TornPastLead(content);
    assert content[5] == 'D' && content[6] == 's';
    TornRemaining(content);
    HeadAndRemaining(content);
  }

  lemma TornPastLead(content: string)
    requires content == "_docIDs name"
    ensures PastLead(content) == "s name"
  {
    StartIsNotTrimmed(content);
    hide TrimLeft;
    assert content[..6] == DOC_ID && content == DOC_ID + "s name";
    assert content[6..] == "s name";
    StartIsNotTrimmed("s name");
  }

  lemma TornRemaining(content: string)
    requires PastLead(content) == "s name"
    ensures Remaining(content) == "s name"
  {
    hide TrimSpace, PastLead, CutOf, Remaining, Contains;
    RemainingIsKept(content);
    NeverStarts("s name", VERSION);
    NoVersionNoCut("s name");
    TrimSpaceOfTrimmed("s name");
  }

  /** An alias of a removed _version is left to the next field. */
  lemma AliasPassesOn()
    ensures
      var content := "v: _version name";
      && RemovesWholeFields(content)
      && Answer("{" + content + "}") == Ok("{" + (DOC_ID + " " + COMPLETE_VERSION + " " + "v:  name") + "}")
  {
    hide Contains, NewContent, TrimSpace, Scan, Answer, Remaining, Kept, CutOf, PastLead, RemovesWholeFields;
    var content := "v: _version name";
    BalancedPlain(content);
    AnswerOfBraces(content);
    NeverStarts(content, DOC_ID);
    TooShort(content, COMPLETE_VERSION);
    AliasCut(content);
    AliasIsWhole(content);
    AliasRemaining(content);
    HeadAndRemaining(content);
  }

  lemma AliasIsWhole(content: string)
    requires content == "v: _version name" && PastLead(content) == content && CutOf(content) == Some((3, 12))
    ensures RemovesWholeFields(content)
  {
    hide ParenNet, CutOf, PastLead;
    assert content[2] == ' ' && content[11] == ' ';
    NoParens(content[3..12]);
  }

  lemma AliasCut(content: string)
    requires content == "v: _version name" && !Contains(content, COMPLETE_VERSION) && !Contains(content, DOC_ID)
    ensures PastLead(content) == content && CutOf(content) == Some((3, 12))
  {
    hide Contains, Index, VersionEnd;
    StartIsNotTrimmed(content);
    AliasVersion(content);
    AliasVersionEnd(content);
  }

  lemma AliasVersionEnd(content: string)
    requires content == "v: _version name" && IsAt(content, VERSION, 3)
    ensures VersionEnd(content, 3) == Some(12)
  {
    hide Close, IsAt;
    assert content[11..] == " name" && (" name")[1..] == "name";
    assert Blanks("name") == 0 && Blanks(" name") == 1;
  }

  lemma AliasVersion(content: string)
    requires content == "v: _version name"
    ensures Index(content, VERSION) == Some(3)
  {
    hide Index;
    FieldNames();
    assert content[3..11] == VERSION && IsAt(content, VERSION, 3);
    assert forall i | 0 <= i < 3 :: content[i] != '_';
    forall j: nat | j < 3 ensures !IsAt(content, VERSION, j) {
      OccurrenceStart(content, VERSION, j);
    }
  }

  lemma AliasRemaining(content: string)
    requires content == "v: _version name" && PastLead(content) == content && CutOf(content) == Some((3, 12))
    ensures Remaining(content) == "v:  name"
  {
    hide TrimSpace, PastLead, CutOf, Remaining;
    RemainingIsKept(content);
    assert content[..3] == "v: " && content[12..] == "name";
    assert "v: " + " " + "name" == "v:  name";
    TrimSpaceOfTrimmed("v:  name");
  }

  // ---------- answers letter by letter ----------

  lemma CompleteVersionLetters()
    ensures COMPLETE_VERSION == "_version {" + " cid signature {" + " type identity value }" + " }"
  {
    RegroupLetters("_version", " ", "{", " cid signature ", "{", " type identity value ", "}", " ", "}");
    assert "_version" + " " + "{" == "_version {";
    assert " cid signature " + "{" == " cid signature {";
    assert " type identity value " + "}" == " type identity value }";
    assert " " + "}" == " }";
  }

  lemma RegroupLetters(a: string, b: string, c: string, d: string, e: string, f: string, g: string, h: string,
      i: string)
    ensures a + (b + (c + (d + (e + f + g) + h) + i)) == a + b + c + (d + e) + (f + g) + (h + i)
  {
  }

  lemma RegroupAnswer(head: string, kept: string)
    ensures "{" + (DOC_ID + " " + head + " " + kept) + "}" == "{_docID " + head + (" " + kept + "}")
  {
    assert "{" + DOC_ID + " " == "{_docID ";
    assert "{" + (DOC_ID + " " + head + " " + kept) + "}" == "{" + DOC_ID + " " + head + (" " + kept + "}");
  }

  /** A query for a nested name is answered with both fields before it. */
  lemma UserAnswer()
    ensures Answer("{" + " User { name } " + "}") ==
      Ok("{_docID " + ("_version {" + " cid signature {" + " type identity value }" + " }") + " User { name }}")
  {
    hide Contains, NewContent, TrimSpace, Scan, Answer, Remaining, Kept, HasBoth;
    var content := " User { name } ";
    UserContent(content);
    AnswerOfBraces(content);
    HeadAndRemaining(content);
    CompleteVersionLetters();
    RegroupAnswer(COMPLETE_VERSION, "User { name }");
    assert " " + "User { name }" + "}" == " User { name }}";
  }

  lemma UserContent(content: string)
    requires content == " User { name } "
    ensures Balanced(content) && !Contains(content, COMPLETE_VERSION) && !HasBoth(content)
    ensures Remaining(content) == "User { name }"
  {
    hide Contains, Scan, TrimSpace, Remaining, Kept;
    UserNamesBalanced();
    NeverStarts(content, VERSION);
    NoCompleteWithoutVersion(content);
    NeverStarts(content, DOC_ID);
    NothingToRemove(content);
    RemainingIsKept(content);
    assert content == " " + "User { name }" + " ";
    SpaceIsSpace();
    TrimFinds(" ", "User { name }", " ");
  }

  lemma UserNamesBalanced()
    ensures Balanced(" User { name } ")
  {
    hide Scan;
    BalancedPlain(" name ");
    BalancedBraces(" name ");
    BalancedPlain(" User ");
    BalancedConcat(" User ", "{" + " name " + "}");
    BalancedPlain(" ");
    BalancedConcat(" User " + ("{" + " name " + "}"), " ");
    assert " User { name } " == " User " + ("{" + " name " + "}") + " ";
  }

  lemma NothingToRemove(content: string)
    requires !Contains(content, DOC_ID) && !Contains(content, VERSION)
    ensures Kept(content) == content
  {
    hide Contains, TrimLeft;
    NoVersionNoCut(content);
    var left := TrimLeftSplits(content);
    var t := TrimLeft(content);
    assert left + t + "" == content;
    if HasPrefix(t, DOC_ID) {
      PrefixIsContained(t, DOC_ID);
      ContainedInPart(left, t, "", DOC_ID);
    }
  }

  /** A query with both fields, one of them incomplete, is answered with each of them once. */
  lemma BothFieldsAnswer()
    ensures Answer("{" + ("_docID " + ("_version" + (" " + ("{" + (" cid " + ("}" + " name")))))) + "}") ==
      Ok("{_docID " + ("_version {" + " cid signature {" + " type identity value }" + " }") + " name}")
  {
    hide Contains, NewContent, TrimSpace, Scan, Answer, Remaining, Kept, HasBoth;
    var rest := "_version" + (" " + ("{" + (" cid " + ("}" + " name"))));
    var content := "_docID " + rest;
    BothFieldsContent(rest);
    AnswerOfBraces(content);
    HeadAndRemaining(content);
    CompleteVersionLetters();
    RegroupAnswer(COMPLETE_VERSION, "name");
    assert " " + "name" + "}" == " name}";
  }

  lemma BothFieldsContent(rest: string)
    requires rest == VERSION + (" " + ("{" + (" cid " + ("}" + " name"))))
    ensures
      var content := "_docID " + rest;
      && Balanced(content) && !Contains(content, COMPLETE_VERSION) && !HasBoth(content)
      && Remaining(content) == "name"
  {
    hide Contains, Scan, TrimSpace, Remaining, CutOf, PastLead;
    var content := "_docID " + rest;
    BothFieldsBalanced(rest);
    TooShort(content, COMPLETE_VERSION);
    TooShort(rest, COMPLETE_VERSION);
    RemainingIsKept(content);
    assert rest[0] == VERSION[0];
    PastDocID(rest);
    BothFieldsCut(rest);
    assert rest[..0] == "" && rest[16..] == " name";
    SpaceIsSpace();
    TrimFinds("  ", "name", "");
    assert "" + " " + " name" == "  " + "name" + "";
  }

  lemma BothFieldsBalanced(rest: string)
    requires rest == VERSION + (" " + ("{" + (" cid " + ("}" + " name"))))
    ensures Balanced("_docID " + rest)
  {
    hide Scan;
    BalancedPlain(" cid ");
    BalancedBraces(" cid ");
    BalancedPlain(" name");
    BalancedConcat("{" + " cid " + "}", " name");
    ConcatAssociative("{", " cid ", "}" + " name");
    ConcatAssociative("{" + " cid ", "}", " name");
    BalancedPlain(" ");
    BalancedConcat(" ", "{" + " cid " + "}" + " name");
    BalancedPlain(VERSION);
    BalancedConcat(VERSION, " " + ("{" + " cid " + "}" + " name"));
    BalancedPlain("_docID ");
    BalancedConcat("_docID ", rest);
  }

  lemma PastDocID(rest: string)
    requires rest != "" && !IsSpace(rest[0])
    ensures PastLead("_docID " + rest) == rest
  {
    hide TrimLeft;
    var content := "_docID " + rest;
    assert "_docID " == DOC_ID + " ";
    assert content == DOC_ID + (" " + rest) && content[0] == DOC_ID[0];
    EndsOfPatterns();
    StartIsNotTrimmed(content);
    TrimLeftOfSpace(rest);
  }

  lemma TrimLeftOfSpace(rest: string)
    requires rest != "" && !IsSpace(rest[0])
    ensures TrimLeft(" " + rest) == rest
  {
    SpaceIsSpace();
    var s := " " + rest;
    assert s[1] == rest[0];
    assert SkipSpaces(s, 0) == 1;
  }

  lemma BothFieldsCut(rest: string)
    requires rest == VERSION + (" " + ("{" + (" cid " + ("}" + " name")))) && !Contains(rest, COMPLETE_VERSION)
    ensures CutOf(rest) == Some((0, 16))
  {
    hide Contains, VersionEnd;
    BalancedPlain(" cid ");
    FieldWithBracesEnds(" cid ", " name");
  }
}
