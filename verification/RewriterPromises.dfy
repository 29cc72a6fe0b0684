/**
  What becomes of a selection set: its leading _docID goes, the first incomplete _version field gives way to a space,
  and a new head comes first. From this follows exactly when the answer selects a field twice.
 */
module RewriterPromises {
  import opened Basics
  import opened Texts
  import opened Braces
  import opened QueryRewriter
  import opened RewriterLaws
  import opened Selections

  lemma FieldNames()
    ensures DOC_ID[0] == VERSION[0] == '_' && forall k | 0 < k < |DOC_ID| :: DOC_ID[k] != '_'
    ensures forall k | 0 < k < |VERSION| :: VERSION[k] != '_'
    ensures ' ' !in DOC_ID && ' ' !in VERSION && DOC_ID[1] == 'd' && VERSION[1] == 'v'
    ensures forall k | 0 <= k < |DOC_ID| :: !IsSpace(DOC_ID[k])
    ensures forall k | 0 <= k < |VERSION| :: !IsSpace(VERSION[k])
  {
  }

  lemma CharsAt(s: string, pat: string, i: nat)
    requires IsAt(s, pat, i)
    ensures forall j | i <= j < i + |pat| :: s[j] == pat[j - i]
  {
    assert forall j | i <= j < i + |pat| :: s[j] == s[i..i + |pat|][j - i];
  }

  // ---------- the part of the selection set that goes ----------

  /** The end of the _version field at j, its braces included; None when they do not close. */
  function VersionEnd(s: string, j: nat): (end: Option<nat>)
    requires IsAt(s, VERSION, j)
    ensures end.Some? ==> j + |VERSION| <= end.value <= |s|
  {
    var rest := s[j + |VERSION|..];
    var n := Blanks(rest);
    var field := rest[n..];
    if field != "" && field[0] == '{' then
      match Close(field[1..], 1)
      case None => None
      case Some(c) => Some(j + |VERSION| + n + 1 + c + 1)
    else Some(j + |VERSION| + n)
  }

  /** The incomplete _version field that a rewriting removes: the first of all, when none is complete. */
  function CutOf(t: string): (cut: Option<(nat, nat)>)
    ensures cut.Some? ==> cut.value.0 < cut.value.1 <= |t| && IsAt(t, VERSION, cut.value.0)
  {
    if Contains(t, COMPLETE_VERSION) then None
    else
      match Index(t, VERSION)
      case None => None
      case Some(start) =>
        match VersionEnd(t, start)
        case None => None
        case Some(end) => Some((start, end))
  }

  /** The content past a leading _docID and the spaces around it; all of it when it starts with none. */
  function PastLead(content: string): (p: string)
    ensures |p| <= |content| && content[|content| - |p|..] == p
  {
    var t := TrimLeft(content);
    if HasPrefix(t, DOC_ID) then TrimLeft(t[|DOC_ID|..]) else content
  }

  /** The text with the removed _version field replaced by a space. */
  function CutToSpace(s: string): string {
    match CutOf(s) case None => s case Some(cut) => s[..cut.0] + " " + s[cut.1..]
  }

  /** What a rewriting keeps of a selection set, up to the spaces at its ends. */
  function Kept(content: string): string {
    CutToSpace(PastLead(content))
  }

  lemma VersionEndPast(pre: string, s: string, j: nat)
    requires IsAt(s, VERSION, j)
    ensures IsAt(pre + s, VERSION, |pre| + j)
    ensures VersionEnd(pre + s, |pre| + j) ==
      match VersionEnd(s, j) case None => None case Some(end) => Some(|pre| + end)
  {
    hide Blanks, Close;
    IsAtPast(pre, s, VERSION, j);
    assert (pre + s)[|pre| + j + |VERSION|..] == s[j + |VERSION|..];
  }

  /** A leading _docID with the spaces after it. */
  ghost predicate IsLead(pre: string) {
    pre == "" || (HasPrefix(pre, DOC_ID) && AllSpace(pre[|DOC_ID|..]))
  }

  lemma SpaceIsPlain(spaces: string)
    requires AllSpace(spaces)
    ensures '{' !in spaces && '}' !in spaces && '_' !in spaces
  {
  }

  lemma LeadIsPlain(pre: string)
    requires IsLead(pre)
    ensures Scan(pre, 1) == Some(1) && '_' !in pre[if pre == "" then 0 else 1..]
    ensures pre != "" ==> |pre| >= 6 && pre[0] == '_' && pre[1] == 'd'
  {
    hide Scan;
    if pre != "" {
      var spaces := pre[|DOC_ID|..];
      assert pre == DOC_ID + spaces;
      assert pre[1..] == DOC_ID[1..] + spaces;
      SpaceIsPlain(spaces);
    }
    ScanPlain(pre, 1);
  }

  /** No _version starts in a lead. */
  lemma NoVersionInLead(pre: string, u: string, i: nat)
    requires IsLead(pre) && IsAt(pre + u, VERSION, i)
    ensures i >= |pre|
  {
    hide Scan;
    LeadIsPlain(pre);
    FieldNames();
    OccurrenceStart(pre + u, VERSION, i);
    assert forall j | 0 <= j < |pre| :: (pre + u)[j] == pre[j];
    assert forall j | 0 < j < |pre| :: pre[j] == pre[1..][j - 1];
  }

  lemma ContainsTrim(content: string, pat: string)
    requires pat != "" && !IsSpace(pat[0]) && !IsSpace(pat[|pat| - 1])
    ensures Contains(content, pat) <==> Contains(TrimSpace(content), pat)
  {
    hide TrimSpace, Contains;
    var left, right := TrimSpaceSplits(content);
    if Contains(content, pat) {
      ContainsAfterTrim(content, pat);
    }
    if Contains(TrimSpace(content), pat) {
      ContainedInPart(left, TrimSpace(content), right, pat);
    }
  }

  lemma LastOfConcat(s: string, t: string)
    ensures t != "" ==> (s + t)[|s + t| - 1] == t[|t| - 1]
  {
  }

  /** Trimming the rest of a trimmed text removes spaces at its head only. */
  lemma TrimRest(t: string, k: nat) returns (left: string)
    requires IsTrimmed(t) && k <= |t|
    ensures AllSpace(left) && t[k..] == left + TrimSpace(t[k..]) && IsTrimmed(TrimSpace(t[k..]))
  {
    hide TrimSpace, IsSpace;
    var right;
    left, right := TrimSpaceSplits(t[k..]);
    LastOfConcat(left + TrimSpace(t[k..]), right);
    LastOfConcat(t[..k], t[k..]);
    assert t == t[..k] + t[k..];
    assert left + TrimSpace(t[k..]) + "" == left + TrimSpace(t[k..]);
  }

  /** Removing the leading _docID leaves what follows it and its spaces. */
  lemma LeadGoes(t: string) returns (pre: string)
    requires IsTrimmed(t)
    ensures t == pre + RemoveDocIDFromContent(t) && IsLead(pre) && IsTrimmed(RemoveDocIDFromContent(t))
    ensures pre != "" <==> HasPrefix(t, DOC_ID)
  {
    hide TrimSpace, IsSpace;
    TrimSpaceOfTrimmed(t);
    if HasPrefix(t, DOC_ID + " ") {
      var left := TrimRest(t, |DOC_ID + " "|);
      pre := DOC_ID + " " + left;
      assert t == DOC_ID + " " + t[|DOC_ID + " "|..];
      assert pre[|DOC_ID|..] == " " + left;
      assert AllSpace(pre[|DOC_ID|..]) by { SpaceThenSpaces(left); }
      assert HasPrefix(t, DOC_ID) by { assert DOC_ID <= DOC_ID + " "; }
      ConcatAssociative(DOC_ID + " ", left, RemoveDocIDFromContent(t));
    } else if t == DOC_ID {
      pre := DOC_ID;
      assert pre[|DOC_ID|..] == "";
    } else if HasPrefix(t, DOC_ID) {
      var left := TrimRest(t, |DOC_ID|);
      pre := DOC_ID + left;
      assert t == DOC_ID + t[|DOC_ID|..];
      assert pre[|DOC_ID|..] == left;
      ConcatAssociative(DOC_ID, left, RemoveDocIDFromContent(t));
    } else {
      pre := "";
    }
  }

  lemma SpaceThenSpaces(left: string)
    requires AllSpace(left)
    ensures AllSpace(" " + left)
  {
  }

  /** Without a complete _version, removing one is the cut of the first. */
  lemma VersionGoes(u: string)
    requires IsTrimmed(u) && !Contains(u, COMPLETE_VERSION)
    ensures RemoveVersionFromContent(u) ==
      match CutOf(u)
      case None => u
      case Some(cut) => TrimSpace(u[..cut.0] + " " + u[cut.1..])
  {
    hide TrimSpace, IsSpace, Contains, Index, Blanks, Close;
    TrimSpaceOfTrimmed(u);
    NoPrefix(u, COMPLETE_VERSION);
    NoPrefix(u, COMPLETE_VERSION + " ");
    if Index(u, VERSION).Some? {
      CutIsWithoutVersion(u, Index(u, VERSION).value);
    }
    NoFallback(u);
  }

  lemma NoPrefix(u: string, pat: string)
    requires !Contains(u, COMPLETE_VERSION) && (pat == COMPLETE_VERSION || pat == COMPLETE_VERSION + " ")
    ensures !HasPrefix(u, pat)
  {
    hide Contains;
    if HasPrefix(u, pat) {
      assert u[..|COMPLETE_VERSION|] == pat[..|COMPLETE_VERSION|] == COMPLETE_VERSION;
      assert IsAt(u, COMPLETE_VERSION, 0);
      ContainsAt(u, COMPLETE_VERSION, 0);
    }
  }

  /** An occurrence inside an occurrence. */
  lemma InnerAt(s: string, pat: string, i: nat, inner: string, k: nat)
    requires IsAt(s, pat, i) && IsAt(pat, inner, k)
    ensures IsAt(s, inner, i + k)
  {
    var n := |inner|;
    CharsAt(s, pat, i);
    CharsAt(pat, inner, k);
    assert forall j | 0 <= j < n :: s[i + k..i + k + n][j] == s[i + (k + j)] == pat[k + j] == inner[j];
  }

  lemma NoFallback(u: string)
    requires !Contains(u, COMPLETE_VERSION)
    ensures RemoveFallbackVersion(u) == u
  {
    hide TrimSpace, Index;
    forall pat | pat == " " + COMPLETE_VERSION + " " || pat == " " + COMPLETE_VERSION ensures Index(u, pat) == None {
      if Index(u, pat).Some? {
        var i := Index(u, pat).value;
        assert pat[1..1 + |COMPLETE_VERSION|] == COMPLETE_VERSION;
        InnerAt(u, pat, i, COMPLETE_VERSION, 1);
      }
    }
  }

  lemma CutIsWithoutVersion(u: string, start: nat)
    requires Index(u, VERSION) == Some(start)
    ensures WithoutVersion(u) ==
      match VersionEnd(u, start)
      case None => None
      case Some(end) => Some(TrimSpace(u[..start] + " " + u[end..]))
  {
    hide TrimSpace, Index, Blanks, Close;
    var rest := u[start + |VERSION|..];
    var n := Blanks(rest);
    var field := rest[n..];
    assert field == u[start + |VERSION| + n..];
    if field != "" && field[0] == '{' && Close(field[1..], 1).Some? {
      var c := Close(field[1..], 1).value;
      assert field[1..] == u[start + |VERSION| + n + 1..];
      assert field[1..][c + 1..] == u[start + |VERSION| + n + 1 + c + 1..];
    }
  }

  lemma CompleteVersionPastLead(pre: string, u: string)
    requires IsLead(pre)
    ensures Contains(pre + u, COMPLETE_VERSION) <==> Contains(u, COMPLETE_VERSION)
  {
    hide Contains, Scan, IsLead;
    CompleteVersionStart();
    if Contains(pre + u, COMPLETE_VERSION) {
      var i := IndexOf(pre + u, COMPLETE_VERSION);
      InnerAt(pre + u, COMPLETE_VERSION, i, VERSION, 0);
      NoVersionInLead(pre, u, i);
      IsAtPast(pre, u, COMPLETE_VERSION, i - |pre|);
      ContainsAt(u, COMPLETE_VERSION, i - |pre|);
    }
    if Contains(u, COMPLETE_VERSION) {
      ContainedInPart(pre, u, "", COMPLETE_VERSION);
      assert pre + u + "" == pre + u;
    }
  }

  lemma EndsOfPatterns()
    ensures !IsSpace(DOC_ID[0]) && !IsSpace(DOC_ID[|DOC_ID| - 1]) && !IsSpace(VERSION[0]) &&
      !IsSpace(VERSION[|VERSION| - 1])
    ensures |COMPLETE_VERSION| > 8 && !IsSpace(COMPLETE_VERSION[0]) &&
      !IsSpace(COMPLETE_VERSION[|COMPLETE_VERSION| - 1])
  {
    CompleteVersionStart();
  }

  /** The lead and the rest of the trimmed content once _docID has been dealt with. */
  lemma LeadOf(content: string) returns (pre: string, u: string)
    ensures TrimSpace(content) == pre + u && IsLead(pre) && IsTrimmed(u)
    ensures pre != "" <==> HasPrefix(TrimSpace(content), DOC_ID)
    ensures u == if Contains(content, DOC_ID) then RemoveDocIDFromContent(TrimSpace(content)) else TrimSpace(content)
  {
    hide TrimSpace, IsSpace, Contains, RemoveDocIDFromContent;
    var left, right := TrimSpaceSplits(content);
    var t := TrimSpace(content);
    EndsOfPatterns();
    ContainsTrim(content, DOC_ID);
    if Contains(content, DOC_ID) {
      pre := LeadGoes(t);
      u := RemoveDocIDFromContent(t);
    } else {
      pre, u := "", t;
      if HasPrefix(t, DOC_ID) { PrefixIsContained(t, DOC_ID); }
    }
  }

  lemma RemainingParts(content: string) returns (pre: string, u: string)
    ensures TrimSpace(content) == pre + u && IsLead(pre) && IsTrimmed(u)
    ensures pre != "" <==> HasPrefix(TrimSpace(content), DOC_ID)
    ensures Remaining(content) ==
      match CutOf(u) case None => u case Some(cut) => TrimSpace(u[..cut.0] + " " + u[cut.1..])
  {
    hide TrimSpace, IsSpace, Contains, RemoveDocIDFromContent, RemoveVersionFromContent, IsLead;
    EndsOfPatterns();
    pre, u := LeadOf(content);
    ContainsTrim(content, VERSION);
    ContainsTrim(content, COMPLETE_VERSION);
    CompleteVersionPastLead(pre, u);
    if !Contains(u, COMPLETE_VERSION) {
      VersionGoes(u);
      if !Contains(content, VERSION) {
        NoVersionInRest(pre, u);
      }
    }
  }

  lemma NoVersionInRest(pre: string, u: string)
    requires !Contains(pre + u, VERSION)
    ensures CutOf(u) == None
  {
    hide Contains;
    assert pre + u + "" == pre + u;
    if Contains(u, VERSION) { ContainedInPart(pre, u, "", VERSION); }
    NoVersionNoCut(u);
  }

  lemma NoVersionNoCut(t: string)
    requires !Contains(t, VERSION)
    ensures CutOf(t) == None
  {
  }

  // ---------- spaces around what is kept ----------

  /** A trimmed text is what trimming finds between spaces. */
  lemma TrimFinds(left: string, u: string, right: string)
    requires AllSpace(left) && AllSpace(right) && IsTrimmed(u)
    ensures TrimSpace(left + u + right) == u
  {
    hide IsSpace;
    var s := left + u + right;
    assert forall i | 0 <= i < |left| :: s[i] == left[i];
    assert forall i | 0 <= i < |right| :: s[|left| + |u| + i] == right[i];
    var n := SkipSpaces(s, 0);
    if u == "" {
      assert n == |s|;
    } else {
      assert s[|left|] == u[0];
      assert n == |left|;
      var t := TrimLeft(s);
      assert t == u + right;
      assert t[|u| - 1] == u[|u| - 1];
      assert forall i | 0 <= i < |right| :: t[|u| + i] == right[i];
      assert SkipSpacesBack(t, |t|) == |u|;
    }
  }

  /** More spaces around a text leave its trimmed form. */
  lemma TrimAround(left: string, x: string, right: string)
    requires AllSpace(left) && AllSpace(right)
    ensures TrimSpace(left + x + right) == TrimSpace(x)
  {
    hide TrimSpace, IsSpace;
    var l, r := TrimSpaceSplits(x);
    var t := TrimSpace(x);
    SpacesConcat(left, l);
    SpacesConcat(r, right);
    TrimFinds(left + l, t, r + right);
    RegroupSpaces(left, l, t, r, right);
  }

  lemma SpacesConcat(left: string, right: string)
    requires AllSpace(left) && AllSpace(right)
    ensures AllSpace(left + right)
  {
    hide IsSpace;
  }

  lemma RegroupSpaces(left: string, l: string, t: string, r: string, right: string)
    ensures (left + l) + t + (r + right) == left + (l + t + r) + right
  {
  }

  lemma {:induction false} NeverCloses(s: string, right: string, d: nat)
    requires d > 0 && Close(s, d) == None && '}' !in right
    ensures Close(s + right, d) == None
    decreases |s| + |right|
  {
    if s == "" {
      assert s + right == right;
      if right != "" {
        assert "" + right[1..] == right[1..];
        NeverCloses("", right[1..], if right[0] == '{' then d + 1 else d);
      }
    } else {
      assert (s + right)[1..] == s[1..] + right;
      NeverCloses(s[1..], right, if s[0] == '{' then d + 1 else if s[0] == '}' then d - 1 else d);
    }
  }

  /** A matching brace in a text is the matching brace in a longer one. */
  lemma {:induction false} CloseOfLonger(s: string, t: string, d: nat)
    requires d > 0 && Close(s, d).Some?
    ensures Close(s + t, d) == Close(s, d)
  {
    assert (s + t)[1..] == s[1..] + t;
    if !(s[0] == '}' && d == 1) {
      CloseOfLonger(s[1..], t, if s[0] == '{' then d + 1 else if s[0] == '}' then d - 1 else d);
    }
  }

  lemma {:induction false} BlanksOfLonger(s: string, t: string)
    ensures Blanks(s) < |s| ==> Blanks(s + t) == Blanks(s)
    ensures Blanks(s) == |s| ==> Blanks(s + t) >= |s|
  {
    if s != "" {
      assert (s + t)[1..] == s[1..] + t;
      BlanksOfLonger(s[1..], t);
    }
  }

  /** Spaces after a text lengthen at most the blanks after a _version at its end. */
  lemma VersionEndBefore(s: string, right: string, j: nat)
    requires IsAt(s, VERSION, j) && AllSpace(right)
    ensures IsAt(s + right, VERSION, j)
    ensures
      match VersionEnd(s, j)
      case None => VersionEnd(s + right, j) == None
      case Some(end) =>
        VersionEnd(s + right, j).Some? && if end < |s| then VersionEnd(s + right, j) == Some(end)
          else VersionEnd(s + right, j).value >= |s|
  {
    hide Blanks, Close, IsSpace;
    assert (s + right)[j..j + 8] == s[j..j + 8];
    var rest := s[j + 8..];
    assert (s + right)[j + 8..] == rest + right;
    BlanksOfLonger(rest, right);
    SpaceIsPlain(right);
    var n := Blanks(rest);
    if n < |rest| {
      var field := rest[n..];
      assert (rest + right)[n..] == field + right;
      if field[0] == '{' {
        assert (field + right)[1..] == field[1..] + right;
        if Close(field[1..], 1).Some? {
          CloseOfLonger(field[1..], right, 1);
        } else {
          NeverCloses(field[1..], right, 1);
        }
      }
    } else {
      var n1 := Blanks(rest + right);
      assert (rest + right)[n1..] != "" ==> (rest + right)[n1] == right[n1 - |rest|];
    }
  }

  /** Spaces around a text move its removed field only. */
  lemma CutAround(left: string, u: string, right: string) returns (less: string)
    requires AllSpace(left) && AllSpace(right)
    ensures CutToSpace(left + u + right) == left + CutToSpace(u) + less && AllSpace(less)
  {
    hide Contains, Index, VersionEnd, IsSpace;
    less := right;
    CompleteAround(left, u, right);
    VersionsAround(left, u, right);
    if !Contains(u, COMPLETE_VERSION) && Index(u, VERSION).Some? {
      var j := Index(u, VERSION).value;
      VersionEndBefore(u, right, j);
      VersionEndPast(left, u + right, j);
      ConcatAssociative(left, u, right);
      if VersionEnd(u, j).Some? {
        less := SlicesAround(left, u, right, j, VersionEnd(u, j).value, VersionEnd(u + right, j).value);
      }
    }
  }

  lemma SlicesAround(left: string, u: string, right: string, j: nat, end: nat, last: nat) returns (less: string)
    requires j <= end <= |u| && (if end < |u| then last == end else |u| <= last <= |u + right|) && AllSpace(right)
    ensures AllSpace(less)
    ensures
      var s := left + u + right;
      s[..|left| + j] + " " + s[|left| + last..] == left + (u[..j] + " " + u[end..]) + less
  {
    hide IsSpace;
    var s := left + u + right;
    assert s[..|left| + j] == left + u[..j];
    if end < |u| {
      less := right;
      assert s[|left| + end..] == u[end..] + right;
    } else {
      less := right[last - |u|..];
      assert s[|left| + last..] == less && u[end..] == "" && "" + less == less;
    }
    RegroupCut(left, u[..j], u[end..], less);
  }

  lemma RegroupCut(left: string, a: string, b: string, right: string)
    ensures left + a + " " + (b + right) == left + (a + " " + b) + right
  {
  }

  lemma CompleteAround(left: string, u: string, right: string)
    requires AllSpace(left) && AllSpace(right)
    ensures Contains(left + u + right, COMPLETE_VERSION) <==> Contains(u, COMPLETE_VERSION)
  {
    hide Contains, IsSpace;
    EndsOfPatterns();
    if Contains(u, COMPLETE_VERSION) { ContainedInPart(left, u, right, COMPLETE_VERSION); }
    if Contains(left + u + right, COMPLETE_VERSION) { ContainsInside(left, u, right, COMPLETE_VERSION); }
  }

  lemma VersionsAround(left: string, u: string, right: string)
    requires AllSpace(left) && AllSpace(right)
    ensures Index(left + u + right, VERSION) ==
      match Index(u, VERSION) case None => None case Some(j) => Some(|left| + j)
  {
    hide IsSpace, Index;
    var s := left + u + right;
    EndsOfPatterns();
    forall i: nat | IsAt(s, VERSION, i) ensures i >= |left| && IsAt(u, VERSION, i - |left|) {
      OccurrenceInside(left, u, right, VERSION, i);
      SliceOfMiddle(left, u, right, i - |left|, 8);
    }
    if Index(u, VERSION).Some? {
      var j := Index(u, VERSION).value;
      SliceOfMiddle(left, u, right, j, 8);
      assert IsAt(s, VERSION, |left| + j);
    }
  }

  /** Past the lead there is the rest of the trimmed content, between spaces. */
  lemma PastLeadAround(content: string, pre: string, u: string) returns (left: string, right: string)
    requires TrimSpace(content) == pre + u && IsLead(pre) && IsTrimmed(u) &&
      (pre != "" <==> HasPrefix(TrimSpace(content), DOC_ID))
    ensures PastLead(content) == left + u + right && AllSpace(left) && AllSpace(right)
  {
    hide IsSpace, TrimLeft, TrimRight;
    var t := TrimLeft(content);
    var end := TrimRightSplits(t);
    LeadSurvivesTrim(t, pre + u, end);
    if pre == "" {
      left := TrimLeftSplits(content);
      right := end;
      assert pre + u == u;
      ConcatAssociative(left, u, right);
    } else {
      var spaces := pre[|DOC_ID|..];
      assert pre == DOC_ID + spaces;
      assert t[|DOC_ID|..] == spaces + u + end;
      left, right := TrimLeftAround(spaces, u, end);
    }
  }

  lemma LeadSurvivesTrim(t: string, trimmed: string, end: string)
    requires t == trimmed + end && AllSpace(end)
    ensures HasPrefix(t, DOC_ID) <==> HasPrefix(trimmed, DOC_ID)
  {
    hide IsSpace;
    EndsOfPatterns();
    if |trimmed| <= 5 < |t| {
      assert t[5] == end[5 - |trimmed|];
    }
  }

  lemma TrimLeftAround(spaces: string, u: string, end: string) returns (left: string, right: string)
    requires AllSpace(spaces) && AllSpace(end) && IsTrimmed(u)
    ensures TrimLeft(spaces + u + end) == left + u + right && AllSpace(left) && AllSpace(right)
  {
    hide IsSpace;
    var s := spaces + u + end;
    left := "";
    var n := SkipSpaces(s, 0);
    assert forall i | 0 <= i < |spaces| :: s[i] == spaces[i];
    assert n >= |spaces|;
    if u == "" {
      right := "";
      assert forall i | 0 <= i < |end| :: s[|spaces| + i] == end[i];
      assert n == |s|;
    } else {
      assert s[|spaces|] == u[0];
      right := end;
      assert left + u + right == u + end;
    }
  }

  /** What follows the new head is what is kept, trimmed. */
  lemma RemainingIsKept(content: string)
    ensures Remaining(content) == TrimSpace(Kept(content))
  {
    hide TrimSpace, IsSpace, Remaining, CutOf, IsLead, PastLead;
    var pre, u := RemainingParts(content);
    var left, right := PastLeadAround(content, pre, u);
    var less := CutAround(left, u, right);
    TrimAround(left, CutToSpace(u), less);
    TrimSpaceOfTrimmed(u);
  }

  // ---------- whole fields ----------

  /** The leading _docID ends, and the removed _version begins and ends, where no name goes on. */
  ghost predicate RemovesWholeNames(content: string) {
    var p := PastLead(content);
    && Boundary(content, |content| - |p|)
    && (CutOf(p).Some? ==> Boundary(p, CutOf(p).value.0) && Boundary(p, CutOf(p).value.1))
  }

  /** Moreover the removed _version closes as many parentheses as it opens. */
  ghost predicate RemovesWholeFields(content: string) {
    var p := PastLead(content);
    RemovesWholeNames(content) && (CutOf(p).Some? ==> ParenNet(p[CutOf(p).value.0..CutOf(p).value.1]) == 0)
  }

  /** The part of a content that its lead is, between spaces. */
  lemma LeadParts(content: string) returns (lead: string)
    ensures content == lead + PastLead(content) && Scan(lead, 1) == Some(1) && ParenNet(lead) == 0 && '{' !in lead
    ensures lead != "" ==> exists l, r :: AllSpace(l) && AllSpace(r) && lead == l + DOC_ID + r
    ensures forall j: nat | IsAt(content, VERSION, j) :: j >= |lead|
  {
    hide TrimLeft, Scan, ParenNet, IsSpace;
    var p := PastLead(content);
    lead := content[..|content| - |p|];
    if p == content {
      ScanPlain("", 1);
      NoParens("");
    } else {
      var l := TrimLeftSplits(content);
      var r := TrimLeftSplits(TrimLeft(content)[|DOC_ID|..]);
      assert TrimLeft(content) == DOC_ID + TrimLeft(content)[|DOC_ID|..];
      assert content == l + (DOC_ID + (r + p));
      RegroupHead(l, DOC_ID, r, p);
      assert lead == l + DOC_ID + r;
      SpacedDocID(l, r, p);
    }
  }

  lemma RegroupHead(a: string, b: string, c: string, d: string)
    ensures a + (b + (c + d)) == a + b + c + d
  {
  }

  lemma SpacedDocID(l: string, r: string, p: string)
    requires AllSpace(l) && AllSpace(r)
    ensures
      var lead := l + DOC_ID + r;
      && Scan(lead, 1) == Some(1) && ParenNet(lead) == 0 && '{' !in lead
      && forall j: nat | IsAt(lead + p, VERSION, j) :: j >= |lead|
  {
    hide Scan, ParenNet;
    var lead := l + DOC_ID + r;
    SpacesArePlain(l);
    SpacesArePlain(r);
    FieldNames();
    assert forall c | c in lead :: c in l || c in DOC_ID || c in r;
    ScanPlain(lead, 1);
    NoParens(lead);
    var s := lead + p;
    assert forall i | 0 <= i < |l| :: s[i] == l[i];
    assert forall i | |l| <= i < |l| + 6 :: s[i] == DOC_ID[i - |l|];
    assert forall i | |l| + 6 <= i < |lead| :: s[i] == r[i - |l| - 6];
    forall j: nat | IsAt(s, VERSION, j) ensures j >= |lead| {
      OccurrenceStart(s, VERSION, j);
    }
  }

  lemma SpacesArePlain(spaces: string)
    requires AllSpace(spaces)
    ensures '{' !in spaces && '}' !in spaces && '(' !in spaces && ')' !in spaces
    ensures forall i | 0 <= i < |spaces| :: spaces[i] != '_'
  {
  }

  // ---------- the new head ----------

  /** The text that the rewriting puts before what it keeps. */
  function NewHead(content: string): string {
    var needVersion := !Contains(content, COMPLETE_VERSION);
    var space := (needVersion && Remaining(content) != "") ||
      (Contains(content, VERSION) && !Contains(content, DOC_ID));
    if space then Head(needVersion) + " " else Head(needVersion)
  }

  lemma HeadIsFirst(content: string)
    ensures NewContent(content) == NewHead(content) + Remaining(content)
    ensures Scan(NewHead(content), 1) == Some(1)
    ensures IsHead(NewHead(content), !Contains(content, COMPLETE_VERSION))
  {
    hide Contains, Remaining, Scan, Head;
    HeadIsBalanced(true);
    HeadIsBalanced(false);
    HeadsAreHeads();
  }

  /** Where underscores stand in a new head. */
  ghost predicate IsHead(h: string, withVersion: bool) {
    && |h| >= 7 && IsAt(h, DOC_ID, 0) && h[1] == 'd' && h[6] == ' '
    && (forall i | 0 < i < |h| :: h[i] == '_' <==> withVersion && i == 7)
    && (withVersion ==> |h| > 8 + 7 && IsAt(h, VERSION, 7) && h[8] == 'v' && h[15] == ' ')
  }

  lemma HeadsAreHeads()
    ensures IsHead(Head(true), true) && IsHead(Head(true) + " ", true)
    ensures IsHead(Head(false), false) && IsHead(Head(false) + " ", false)
  {
    CompleteVersionStart();
    OneUnderscore();
    HeadIsHead("");
    HeadIsHead(" ");
    assert Head(true) + "" == Head(true);
  }

  lemma HeadIsHead(space: string)
    requires space == "" || space == " "
    ensures IsHead(Head(true) + space, true)
  {
    CompleteVersionStart();
    OneUnderscore();
    assert COMPLETE_VERSION[8] == ' ';
    HeadOfField(COMPLETE_VERSION, space);
  }

  lemma HeadOfField(field: string, space: string)
    requires |field| > 8 && field[..8] == VERSION && field[0] == '_' && field[1] == 'v' && field[8] == ' '
    requires forall j | 0 < j < |field| :: field[j] != '_'
    requires space == "" || space == " "
    ensures IsHead(DOC_ID + " " + field + space, true)
  {
    var start := DOC_ID + " ";
    var h := start + field + space;
    FieldNames();
    assert h[..6] == DOC_ID && h[7..15] == field[..8];
    assert forall i | 0 < i < 7 :: h[i] == start[i] && start[i] != '_';
    assert forall i | 7 <= i < 7 + |field| :: h[i] == field[i - 7];
  }

  lemma NotInHead(h: string, rest: string, withVersion: bool, pat: string, j: nat)
    requires IsHead(h, withVersion) && (pat == DOC_ID || pat == VERSION) && IsAt(h + rest, pat, j)
    ensures pat == DOC_ID ==> j == 0 || j >= |h|
    ensures pat == VERSION ==> (withVersion && j == 7) || j >= |h|
  {
    FieldNames();
    OccurrenceStart(h + rest, pat, j);
    assert forall i | 0 <= i < |h| :: (h + rest)[i] == h[i];
  }

  lemma HeadTexts(content: string)
    ensures !Contains(content, COMPLETE_VERSION) ==>
      exists space :: NewHead(content) == DOC_ID + " " + COMPLETE_VERSION + space && (space == "" || space == " ")
    ensures Contains(content, COMPLETE_VERSION) ==>
      exists space :: NewHead(content) == DOC_ID + " " + space && (space == "" || space == " ")
  {
    hide Contains, Remaining;
    if Contains(content, COMPLETE_VERSION) {
      var space := if NewHead(content) == DOC_ID + " " then "" else " ";
      assert NewHead(content) == DOC_ID + " " + space;
    } else {
      var space := if NewHead(content) == DOC_ID + " " + COMPLETE_VERSION then "" else " ";
      assert NewHead(content) == DOC_ID + " " + COMPLETE_VERSION + space;
    }
  }

  /** No name goes on from the new head, and it opens no brace and no parenthesis. */
  lemma HeadIsTransparent(content: string)
    ensures Transparent(NewHead(content))
  {
    hide NewHead, Scan, ParenNet, Contains, IsHead;
    HeadIsFirst(content);
    HeadTexts(content);
    if Contains(content, COMPLETE_VERSION) {
      var space :| NewHead(content) == DOC_ID + " " + space && (space == "" || space == " ");
      assert DOC_ID + " " + "" + space == DOC_ID + " " + space;
      assert ParenNet("") == 0 by { NoParens(""); }
      FieldHeadIsTransparent("", space);
    } else {
      var space :| NewHead(content) == DOC_ID + " " + COMPLETE_VERSION + space && (space == "" || space == " ");
      NoParensInVersion();
      CompleteVersionStart();
      FieldHeadIsTransparent(COMPLETE_VERSION, space);
    }
  }

  lemma FieldHeadIsTransparent(field: string, space: string)
    requires ParenNet(field) == 0 && (field == "" || field[|field| - 1] == '}') && (space == "" || space == " ")
    requires Scan(DOC_ID + " " + field + space, 1) == Some(1)
    ensures Transparent(DOC_ID + " " + field + space)
  {
    hide ParenNet, Scan;
    var start := DOC_ID + " ";
    ParenNetOfConcat(start, field);
    ParenNetOfConcat(start + field, space);
    NoParens(start);
    NoParens(space);
    LastOfConcat(start, field);
    LastOfConcat(start + field, space);
    assert start[|start| - 1] == ' ';
    assert field == "" ==> start + field == start;
    assert space == "" ==> start + field + space == start + field;
  }

  lemma NoParensInVersion()
    ensures ParenNet(COMPLETE_VERSION) == 0
  {
    hide ParenNet;
    NoParens(VERSION);
    NoParens(" cid signature ");
    NoParens(" type identity value ");
    NoParens(" ");
    NoParens("{");
    NoParens("}");
    BracesHaveNoParens(" type identity value ");
    var inner := "{" + " type identity value " + "}";
    ParenNetOfConcat(" cid signature ", inner);
    ParenNetOfConcat(" cid signature " + inner, " ");
    var fields := " cid signature " + inner + " ";
    BracesHaveNoParens(fields);
    ParenNetOfConcat(" ", "{" + fields + "}");
    ParenNetOfConcat(VERSION, " " + ("{" + fields + "}"));
  }

  lemma BracesHaveNoParens(inner: string)
    requires ParenNet(inner) == 0
    ensures ParenNet("{" + inner + "}") == 0
  {
    hide ParenNet;
    NoParens("{");
    NoParens("}");
    ParenNetOfConcat("{", inner);
    ParenNetOfConcat("{" + inner, "}");
  }

  lemma HeadSelectsDocID(h: string, rest: string, withVersion: bool)
    requires IsHead(h, withVersion)
    ensures SelectedAt(h + rest, DOC_ID, 0)
  {
    hide Scan;
    assert (h + rest)[0..6] == h[0..6] && (h + rest)[..0] == "" && (h + rest)[6] == h[6];
    ScanPlain("", 1);
  }

  /** The _version of the new head. */
  lemma HeadSelectsVersionName(h: string, rest: string)
    requires IsHead(h, true)
    ensures SelectedAt(h + rest, VERSION, 7)
  {
    hide Scan, ParenNet;
    assert (h + rest)[7..15] == h[7..15] && (h + rest)[..7] == h[..7];
    assert (h + rest)[6] == h[6] && (h + rest)[15] == h[15];
    assert h[..7] == DOC_ID + " ";
    ScanPlain(h[..7], 1);
    NoParens(h[..7]);
  }

  lemma PastHead(h: string, rest: string, field: string)
    requires Transparent(h)
    ensures forall k: nat :: SelectedAt(h + rest, field, |h| + k) <==> SelectedAt(rest, field, k)
  {
    hide Transparent, SelectedAt;
    forall k: nat ensures SelectedAt(h + rest, field, |h| + k) <==> SelectedAt(rest, field, k) {
      SelectedPast(h, rest, field, k);
    }
  }

  /** A text that selects a field at one place in its head selects it twice exactly when the rest selects it. */
  lemma TwiceBehindHead(h: string, rest: string, field: string, first: nat)
    requires Transparent(h) && first < |h| && SelectedAt(h + rest, field, first)
    requires forall j: nat | SelectedAt(h + rest, field, j) :: j == first || j >= |h|
    ensures SelectsTwice(h + rest, field) <==> Selects(rest, field)
  {
    hide Transparent, SelectedAt;
    PastHead(h, rest, field);
    if k: nat :| SelectedAt(rest, field, k) {
      assert SelectedAt(h + rest, field, |h| + k);
    }
    forall j: nat | SelectedAt(h + rest, field, j) && j != first ensures SelectedAt(rest, field, j - |h|) {
      assert j == |h| + (j - |h|);
    }
  }

  lemma DocIDPastHead(h: string, rest: string, withVersion: bool)
    requires IsHead(h, withVersion) && Transparent(h)
    ensures SelectsTwice(h + rest, DOC_ID) <==> Selects(rest, DOC_ID)
  {
    hide SelectedAt, Transparent;
    HeadSelectsDocID(h, rest, withVersion);
    forall j: nat | SelectedAt(h + rest, DOC_ID, j) ensures j == 0 || j >= |h| {
      SelectedIsAt(h + rest, DOC_ID, j);
      NotInHead(h, rest, withVersion, DOC_ID, j);
    }
    TwiceBehindHead(h, rest, DOC_ID, 0);
  }

  lemma VersionPastHead(h: string, rest: string)
    requires IsHead(h, true) && Transparent(h)
    ensures SelectsTwice(h + rest, VERSION) <==> Selects(rest, VERSION)
  {
    hide SelectedAt, Transparent;
    HeadSelectsVersionName(h, rest);
    forall j: nat | SelectedAt(h + rest, VERSION, j) ensures j == 7 || j >= |h| {
      SelectedIsAt(h + rest, VERSION, j);
      NotInHead(h, rest, true, VERSION, j);
    }
    TwiceBehindHead(h, rest, VERSION, 7);
  }

  /** A head without the field moves the places at which it is selected. */
  lemma HeadShifts(h: string, rest: string, field: string)
    requires Transparent(h) && forall j: nat | IsAt(h + rest, field, j) :: j >= |h|
    ensures Shifted(rest, h + rest, field, |h|)
  {
    hide Transparent, SelectedAt;
    PastHead(h, rest, field);
    forall j: nat | SelectedAt(h + rest, field, j) ensures j >= |h| && SelectedAt(rest, field, j - |h|) {
      SelectedIsAt(h + rest, field, j);
      assert j == |h| + (j - |h|);
    }
  }

  // ---------- duplicates ----------

  /** What is kept selects what follows the new head. */
  lemma KeptSelects(content: string, field: string)
    requires field != "" && !IsSpace(field[0]) && !IsSpace(field[|field| - 1])
    ensures Selects(Remaining(content), field) <==> Selects(Kept(content), field)
    ensures SelectsTwice(Remaining(content), field) <==> SelectsTwice(Kept(content), field)
  {
    hide Remaining, Kept, TrimSpace, IsSpace, Selects, SelectsTwice;
    RemainingIsKept(content);
    SelectsTrim(Kept(content), field);
  }

  /** The rewritten selection set selects _docID twice exactly when what it keeps of the old one selects it. */
  lemma DocIDTwiceExactly(content: string)
    ensures SelectsTwice(NewContent(content), DOC_ID) <==> Selects(Kept(content), DOC_ID)
  {
    hide NewContent, NewHead, Scan, IsHead, Remaining, Kept, Selects, SelectsTwice, Transparent, IsSpace;
    HeadIsFirst(content);
    HeadIsTransparent(content);
    EndsOfPatterns();
    KeptSelects(content, DOC_ID);
    DocIDPastHead(NewHead(content), Remaining(content), !Contains(content, COMPLETE_VERSION));
  }

  /**
    It selects _version twice exactly when what it keeps selects it, or selects it twice when a complete one is kept.
   */
  lemma VersionTwiceExactly(content: string)
    ensures SelectsTwice(NewContent(content), VERSION) <==>
      if Contains(content, COMPLETE_VERSION) then SelectsTwice(Kept(content), VERSION)
        else Selects(Kept(content), VERSION)
  {
    hide NewContent, NewHead, Scan, IsHead, Remaining, Kept, Selects, SelectsTwice, Transparent, IsSpace, Contains,
      Shifted;
    HeadIsFirst(content);
    HeadIsTransparent(content);
    EndsOfPatterns();
    KeptSelects(content, VERSION);
    var h, rest := NewHead(content), Remaining(content);
    if Contains(content, COMPLETE_VERSION) {
      forall j: nat | IsAt(h + rest, VERSION, j) ensures j >= |h| {
        NotInHead(h, rest, false, VERSION, j);
      }
      HeadShifts(h, rest, VERSION);
      ShiftedSelectsAlike(rest, h + rest, VERSION, |h|);
    } else {
      VersionPastHead(h, rest);
    }
  }

  /** Without a _docID and with a complete _version everything is kept. */
  lemma AllIsKept(content: string)
    requires Contains(content, COMPLETE_VERSION) && !Contains(content, DOC_ID)
    ensures Kept(content) == content
  {
    hide Contains, TrimLeft;
    var left := TrimLeftSplits(content);
    var t := TrimLeft(content);
    assert left + t + "" == content;
    if HasPrefix(t, DOC_ID) {
      PrefixIsContained(t, DOC_ID);
      ContainedInPart(left, t, "", DOC_ID);
      assert false;
    }
  }

  // ---------- answers ----------

  /** The selection set between the main braces after the rewriting. */
  function NewSelectionSet(content: string): string {
    if HasBoth(content) then content else NewContent(content)
  }

  /** An accepted query with a main pair of braces is answered with that pair around the rewritten selection set. */
  lemma AnswerSplits(query: string) returns (head: string, content: string, tail: string)
    requires Answer(query).Ok? && HasMainPair(TrimSpace(query))
    ensures Splits(TrimSpace(query), head, content, tail)
    ensures Splits(Answer(query).value, head, NewSelectionSet(content), tail)
  {
    hide Rewritten, TrimSpace, Splits, HasMainPair, HasBoth, NewContent;
    head, content, tail := RewritesOneSelectionSet(TrimSpace(query));
  }

  /**
    Exactly which accepted queries are answered with an outermost selection set that selects _docID, or _version,
    twice.
   */
  lemma AnswerDuplicatesExactly(query: string) returns (head: string, content: string, tail: string)
    requires Answer(query).Ok? && HasMainPair(TrimSpace(query))
    ensures Splits(TrimSpace(query), head, content, tail) &&
      Splits(Answer(query).value, head, NewSelectionSet(content), tail)
    ensures SelectsTwice(NewSelectionSet(content), DOC_ID) <==>
      if HasBoth(content) then SelectsTwice(content, DOC_ID) else Selects(Kept(content), DOC_ID)
    ensures SelectsTwice(NewSelectionSet(content), VERSION) <==>
      if Contains(content, COMPLETE_VERSION) then SelectsTwice(content, VERSION) else Selects(Kept(content), VERSION)
  {
    hide Rewritten, TrimSpace, Splits, HasMainPair, NewContent, SelectsTwice, Selects, Kept, Answer, Contains;
    head, content, tail := AnswerSplits(query);
    DocIDTwiceExactly(content);
    VersionTwiceExactly(content);
    if Contains(content, COMPLETE_VERSION) && !Contains(content, DOC_ID) {
      AllIsKept(content);
    }
  }

  /** A query that is a selection set with balanced braces, and what follows it. */
  lemma AnswerOfSplit(content: string, tail: string)
    requires Balanced(content) && tail != "" && tail[0] == '}' && tail[|tail| - 1] == '}'
    ensures
      var query := "{" + content + tail;
      TrimSpace(query) == query && Answer(query) == Ok("{" + NewSelectionSet(content) + tail)
  {
    hide HasBoth, NewContent, Scan, Rewritten, TrimSpace, MainBraceFrom;
    var query := "{" + content + tail;
    assert query[0] == '{' && query[|query| - 1] == '}';
    BracesAreTrimmed(query);
    OpeningBraceIsMain();
    RewrittenOfSplit(query, "{", content, tail);
  }

  /** Such a query with nothing behind its selection set. */
  lemma AnswerOfBraces(content: string)
    requires Balanced(content)
    ensures
      var query := "{" + content + "}";
      && TrimSpace(query) == query && Answer(query) == Ok("{" + NewSelectionSet(content) + "}")
      && Splits(query, "{", content, "}") && Splits(Answer(query).value, "{", NewSelectionSet(content), "}")
  {
    hide HasBoth, NewContent, Scan, TrimSpace, MainBraceFrom, Answer;
    AnswerOfSplit(content, "}");
    OpeningBraceIsMain();
    NewContentIsBalanced(content);
  }

  lemma BracesAreTrimmed(query: string)
    requires |query| > 1 && query[0] == '{' && query[|query| - 1] == '}'
    ensures TrimSpace(query) == query
  {
    TrimSpaceOfTrimmed(query);
  }

  lemma OpeningBraceIsMain()
    ensures MainBrace("{") == Some(0)
  {
    assert ("{")[..0] == "";
    assert IsMainBrace("{", 0);
  }

  /** The documentation says that the fields are not duplicated. This query gets a second _docID. */
  lemma SecondDocID()
    ensures
      var content := "name _docID";
      && Answer("{" + content + "}") == Ok("{" + NewSelectionSet(content) + "}")
      && SelectsTwice(NewSelectionSet(content), DOC_ID)
  {
    hide Contains, NewContent, TrimSpace, Scan, SelectedAt, Kept, Answer;
    var content := "name _docID";
    BalancedPlain(content);
    AnswerOfBraces(content);
    NeverStarts(content, VERSION);
    NoCompleteWithoutVersion(content);
    assert content[0] == 'n';
    NothingRemoved(content);
    assert content == "name " + DOC_ID + "";
    SelectedAfterPlain("name ", DOC_ID, "");
    DocIDTwiceExactly(content);
  }

  lemma NothingRemoved(content: string)
    requires content != "" && !IsSpace(content[0]) && content[0] != '_' && !Contains(content, VERSION)
    ensures Kept(content) == content
  {
    hide Contains;
    NoVersionNoCut(content);
    StartIsNotTrimmed(content);
  }

  lemma StartIsNotTrimmed(s: string)
    requires s != "" && !IsSpace(s[0])
    ensures TrimLeft(s) == s
  {
  }

  /** A name after a text without braces and parentheses, which no name goes on from or into. */
  lemma SelectedAfterPlain(before: string, field: string, after: string)
    requires '{' !in before && '}' !in before && '(' !in before && ')' !in before
    requires field != "" && Boundary(before + field + after, |before|) &&
      Boundary(before + field + after, |before| + |field|)
    ensures SelectedAt(before + field + after, field, |before|)
  {
    hide Scan, ParenNet, IsNameChar;
    var s := before + field + after;
    ConcatAssociative(before, field, after);
    assert s[..|before|] == before && s[|before|..|before| + |field|] == field;
    ScanPlain(before, 1);
    NoParens(before);
  }

  lemma NoCompleteWithoutVersion(s: string)
    requires !Contains(s, VERSION)
    ensures !Contains(s, COMPLETE_VERSION) && !HasBoth(s)
  {
    hide Contains;
    CompleteVersionStart();
    if Contains(s, COMPLETE_VERSION) {
      var i := IndexOf(s, COMPLETE_VERSION);
      InnerAt(s, COMPLETE_VERSION, i, VERSION, 0);
      ContainsAt(s, VERSION, i);
    }
  }

  /** This one gets a second _version. */
  lemma SecondVersion()
    ensures
      var content := "_version _version";
      && Answer("{" + content + "}") == Ok("{" + NewSelectionSet(content) + "}")
      && SelectsTwice(NewSelectionSet(content), VERSION)
  {
    hide Contains, NewContent, TrimSpace, Scan, SelectedAt, Kept, Answer;
    var content := "_version _version";
    BalancedPlain(content);
    AnswerOfBraces(content);
    NeverStarts(content, DOC_ID);
    assert !Contains(content, COMPLETE_VERSION) by { TooShort(content, COMPLETE_VERSION); }
    SecondVersionIsKept(content);
    assert " " + VERSION + "" == " _version";
    SelectedAfterPlain(" ", VERSION, "");
    VersionTwiceExactly(content);
  }

  lemma SecondVersionIsKept(content: string)
    requires content == "_version _version" && !Contains(content, COMPLETE_VERSION) && !Contains(content, DOC_ID)
    ensures Kept(content) == " _version"
  {
    hide Contains, CutOf;
    TwoVersionsCut(content);
    StartIsNotTrimmed(content);
    if HasPrefix(content, DOC_ID) { PrefixIsContained(content, DOC_ID); }
    assert content[..0] == "" && content[9..] == "_version";
  }

  lemma TooShort(s: string, pat: string)
    requires |s| < |pat|
    ensures !Contains(s, pat)
  {
    forall i: nat ensures !IsAt(s, pat, i) {
    }
  }

  lemma TwoVersionsCut(content: string)
    requires content == "_version _version" && !Contains(content, COMPLETE_VERSION)
    ensures CutOf(content) == Some((0, 9))
  {
    assert content[0..8] == VERSION && IsAt(content, VERSION, 0);
    assert content[8..] == " _version";
    assert (" _version")[1..] == "_version";
    assert Blanks("_version") == 0 && Blanks(" _version") == 1;
  }
}
