/** What rewriting a query keeps and what it adds. */
module RewriterLaws {
  import opened Basics
  import opened Texts
  import opened Braces
  import opened QueryRewriter

  // ---------- every step keeps the braces balanced ----------

  lemma SpaceIsBalanced(s: string)
    requires AllSpace(s)
    ensures Balanced(s)
  {
    assert '{' !in s && '}' !in s;
    BalancedPlain(s);
  }

  lemma TrimKeepsBalance(s: string)
    requires Balanced(s)
    ensures Balanced(TrimSpace(s))
  {
    hide TrimSpace;
    var left, right := TrimSpaceSplits(s);
    var t := TrimSpace(s);
    SpaceIsBalanced(left);
    SpaceIsBalanced(right);
    ConcatAssociative(left, t, right);
    BalancedConcat(left, t + right);
    ScanOfConcat(t, right, 1);
    BalancedFrom(right, Scan(t, 1).value);
  }

  lemma DropKeepsBalance(prefix: string, s: string)
    requires HasPrefix(s, prefix) && Balanced(prefix) && Balanced(s)
    ensures Balanced(TrimSpace(s[|prefix|..]))
  {
    hide TrimSpace;
    assert s == prefix + s[|prefix|..];
    BalancedConcat(prefix, s[|prefix|..]);
    TrimKeepsBalance(s[|prefix|..]);
  }

  lemma CutKeepsBalance(s: string, i: nat, pat: string)
    requires IsAt(s, pat, i) && Balanced(s) && Balanced(pat)
    ensures Balanced(TrimSpace(s[..i] + s[i + |pat|..]))
  {
    hide TrimSpace, Scan;
    assert s == s[..i] + pat + s[i + |pat|..];
    assert s[..i] + s[i + |pat|..] == s[..i] + "" + s[i + |pat|..];
    BalancedPlain("");
    CutBalanced(s[..i], pat, s[i + |pat|..], "");
    TrimKeepsBalance(s[..i] + s[i + |pat|..]);
  }

  lemma DocIDIsBalanced()
    ensures Balanced(DOC_ID) && Balanced(DOC_ID + " ")
  {
    BalancedPlain(DOC_ID);
    BalancedPlain(DOC_ID + " ");
  }

  lemma CompleteVersionIsBalanced()
    ensures Balanced(COMPLETE_VERSION)
  {
    hide Scan;
    var inner := " type identity value ";
    BalancedPlain(inner);
    BalancedBraces(inner);
    BalancedPlain(" cid signature ");
    BalancedPlain(" ");
    BalancedConcat(" cid signature ", "{" + inner + "}");
    BalancedConcat(" cid signature " + ("{" + inner + "}"), " ");
    BalancedBraces(" cid signature " + ("{" + inner + "}") + " ");
    var outer := "{" + (" cid signature " + ("{" + inner + "}") + " ") + "}";
    BalancedConcat(" ", outer);
    BalancedPlain(VERSION);
    BalancedConcat(VERSION, " " + outer);
  }

  lemma SpacedVersionIsBalanced()
    ensures Balanced(COMPLETE_VERSION + " ") && Balanced(" " + COMPLETE_VERSION)
    ensures Balanced(" " + COMPLETE_VERSION + " ")
  {
    hide Scan;
    CompleteVersionIsBalanced();
    BalancedPlain(" ");
    BalancedConcat(COMPLETE_VERSION, " ");
    BalancedConcat(" ", COMPLETE_VERSION);
    BalancedConcat(" " + COMPLETE_VERSION, " ");
  }

  lemma RemoveDocIDKeepsBalance(content: string)
    requires Balanced(content)
    ensures Balanced(RemoveDocIDFromContent(content))
  {
    hide TrimSpace, Scan;
    TrimKeepsBalance(content);
    DocIDIsBalanced();
    BalancedPlain("");
    var t := TrimSpace(content);
    if HasPrefix(t, DOC_ID + " ") {
      DropKeepsBalance(DOC_ID + " ", t);
    } else if HasPrefix(t, DOC_ID) {
      DropKeepsBalance(DOC_ID, t);
    }
  }

  lemma BlanksAreBalanced(s: string, n: nat)
    requires n <= Blanks(s)
    ensures Balanced(s[..n])
  {
    assert forall i | 0 <= i < n :: s[i] != '{' && s[i] != '}';
    BalancedPlain(s[..n]);
  }

  /** A text up to the brace that closes it, and that brace. */
  lemma ClosedGroup(field: string, c: nat)
    requires field != "" && field[0] == '{' && Close(field[1..], 1) == Some(c)
    ensures field == "{" + field[1..][..c] + "}" + field[1..][c + 1..]
    ensures Balanced("{" + field[1..][..c] + "}")
  {
    CloseIsAfterScan(field[1..], 1, c);
    BalancedBraces(field[1..][..c]);
    var inner := field[1..];
    assert inner == inner[..c] + ("}" + inner[c + 1..]);
    assert field == "{" + inner;
    ConcatAssociative("{", inner[..c], "}" + inner[c + 1..]);
    ConcatAssociative("{" + inner[..c], "}", inner[c + 1..]);
  }

  /** Replacing a balanced middle part by a space. */
  lemma SpaceForPart(before: string, part: string, after: string)
    requires Balanced(before + part + after) && Balanced(part)
    ensures Balanced(TrimSpace(before + " " + after))
  {
    hide TrimSpace, Scan;
    BalancedPlain(" ");
    CutBalanced(before, part, after, " ");
    TrimKeepsBalance(before + " " + after);
  }

  /** A _version field in front of the rest of the text. */
  lemma FieldSplit(content: string, start: nat) returns (name: string, field: string)
    requires IsAt(content, VERSION, start)
    ensures name == VERSION + content[start + |VERSION|..][..Blanks(content[start + |VERSION|..])]
    ensures field == content[start + |VERSION|..][Blanks(content[start + |VERSION|..])..]
    ensures content == content[..start] + name + field && Balanced(name)
  {
    hide Scan;
    var rest := content[start + |VERSION|..];
    var n := Blanks(rest);
    BlanksAreBalanced(rest, n);
    BalancedPlain(VERSION);
    BalancedConcat(VERSION, rest[..n]);
    name, field := VERSION + rest[..n], rest[n..];
    assert content == content[..start] + VERSION + rest;
    assert rest == rest[..n] + field;
    ConcatAssociative(content[..start] + VERSION, rest[..n], field);
    ConcatAssociative(content[..start], VERSION, rest[..n]);
  }

  lemma WithoutVersionKeepsBalance(content: string)
    requires Balanced(content) && WithoutVersion(content).Some?
    ensures Balanced(WithoutVersion(content).value)
  {
    hide TrimSpace, Scan, Index, Blanks, Close;
    var start := Index(content, VERSION).value;
    var name, field := FieldSplit(content, start);
    var before := content[..start];
    if field != "" && field[0] == '{' {
      var c := Close(field[1..], 1).value;
      ClosedGroup(field, c);
      var group, after := "{" + field[1..][..c] + "}", field[1..][c + 1..];
      BalancedConcat(name, group);
      ConcatAssociative(before + name, group, after);
      ConcatAssociative(before, name, group);
      SpaceForPart(before, name + group, after);
    } else {
      SpaceForPart(before, name, field);
    }
  }

  lemma RemoveFallbackKeepsBalance(content: string)
    requires Balanced(content)
    ensures Balanced(RemoveFallbackVersion(content))
  {
    hide TrimSpace, Scan, Index;
    SpacedVersionIsBalanced();
    match Index(content, " " + COMPLETE_VERSION + " ")
    case Some(i) => CutKeepsBalance(content, i, " " + COMPLETE_VERSION + " ");
    case None =>
      match Index(content, " " + COMPLETE_VERSION)
      case Some(i) => CutKeepsBalance(content, i, " " + COMPLETE_VERSION);
      case None =>
  }

  lemma RemoveVersionKeepsBalance(content0: string)
    requires Balanced(content0)
    ensures Balanced(RemoveVersionFromContent(content0))
  {
    hide TrimSpace, Scan, WithoutVersion, RemoveFallbackVersion;
    TrimKeepsBalance(content0);
    var content := TrimSpace(content0);
    CompleteVersionIsBalanced();
    SpacedVersionIsBalanced();
    BalancedPlain("");
    if HasPrefix(content, COMPLETE_VERSION + " ") {
      DropKeepsBalance(COMPLETE_VERSION + " ", content);
    } else if HasPrefix(content, COMPLETE_VERSION) {
      DropKeepsBalance(COMPLETE_VERSION, content);
    } else if WithoutVersion(content).Some? {
      WithoutVersionKeepsBalance(content);
    } else {
      RemoveFallbackKeepsBalance(content);
    }
  }

  lemma RemainingIsBalanced(content: string)
    requires Balanced(content)
    ensures Balanced(Remaining(content))
  {
    hide TrimSpace, Scan, Contains, RemoveDocIDFromContent, RemoveVersionFromContent;
    TrimKeepsBalance(content);
    var trimmed := TrimSpace(content);
    RemoveDocIDKeepsBalance(trimmed);
    RemoveVersionKeepsBalance(trimmed);
    RemoveVersionKeepsBalance(RemoveDocIDFromContent(trimmed));
  }

  lemma HeadIsBalanced(needVersion: bool)
    ensures Balanced(Head(needVersion)) && Balanced(Head(needVersion) + " ")
  {
    hide Scan;
    DocIDIsBalanced();
    CompleteVersionIsBalanced();
    BalancedConcat(DOC_ID + " ", COMPLETE_VERSION);
    BalancedPlain(" ");
    BalancedConcat(Head(needVersion), " ");
  }

  /** Rewriting a balanced selection set gives a balanced selection set. */
  lemma NewContentIsBalanced(content: string)
    requires Balanced(content)
    ensures Balanced(NewContent(content))
  {
    hide Scan, Contains, Remaining, Head;
    var needVersion := !Contains(content, COMPLETE_VERSION);
    RemainingIsBalanced(content);
    HeadIsBalanced(needVersion);
    BalancedConcat(Head(needVersion), Remaining(content));
    BalancedConcat(Head(needVersion) + " ", Remaining(content));
  }

  // ---------- the new content has both fields ----------

  /** An occurrence of pat in prefix + s lies in s when pat's first two characters never meet in the prefix. */
  lemma ContainsPastPrefix(prefix: string, s: string, pat: string)
    requires Contains(prefix + s, pat) && |pat| > 1
    requires forall i | 0 <= i < |prefix| :: prefix[i] == pat[0] ==> i + 1 < |prefix| && prefix[i + 1] != pat[1]
    ensures Contains(s, pat)
  {
    hide Contains;
    var i := IndexOf(prefix + s, pat);
    assert (prefix + s)[i] == pat[0] && (prefix + s)[i + 1] == pat[1];
    assert i >= |prefix|;
    var k := i - |prefix|;
    IsAtPast(prefix, s, pat, k);
    ContainsAt(s, pat, k);
  }

  lemma IndexOf(s: string, pat: string) returns (i: nat)
    requires Contains(s, pat)
    ensures IsAt(s, pat, i)
  {
    i := Index(s, pat).value;
  }

  lemma CompleteVersionStart()
    ensures |COMPLETE_VERSION| > 8 && COMPLETE_VERSION[..8] == VERSION &&
      COMPLETE_VERSION[|COMPLETE_VERSION| - 1] == '}'
    ensures COMPLETE_VERSION[0] == '_' && COMPLETE_VERSION[1] == 'v'
  {
    assert VERSION == COMPLETE_VERSION[..8];
    assert VERSION[0] == '_' && VERSION[1] == 'v';
  }

  lemma RemoveDocIDKeepsVersion(content: string)
    requires Contains(content, COMPLETE_VERSION)
    ensures Contains(RemoveDocIDFromContent(content), COMPLETE_VERSION)
  {
    hide TrimSpace, Contains;
    CompleteVersionStart();
    ContainsAfterTrim(content, COMPLETE_VERSION);
    var t := TrimSpace(content);
    if HasPrefix(t, DOC_ID + " ") {
      KeepsVersionPast(DOC_ID + " ", t);
    } else if HasPrefix(t, DOC_ID) {
      KeepsVersionPast(DOC_ID, t);
    }
  }

  lemma KeepsVersionPast(prefix: string, t: string)
    requires prefix == DOC_ID || prefix == DOC_ID + " "
    requires HasPrefix(t, prefix) && Contains(t, COMPLETE_VERSION)
    ensures t != DOC_ID && Contains(TrimSpace(t[|prefix|..]), COMPLETE_VERSION)
  {
    hide TrimSpace, Contains;
    var rest := t[|prefix|..];
    assert t == prefix + rest;
    CompleteVersionStart();
    ContainsPastPrefix(prefix, rest, COMPLETE_VERSION);
    ContainsAfterTrim(rest, COMPLETE_VERSION);
    var i := IndexOf(rest, COMPLETE_VERSION);
  }

  lemma RemainingKeepsVersion(content: string)
    requires Contains(content, COMPLETE_VERSION)
    ensures Contains(Remaining(content), COMPLETE_VERSION)
  {
    hide TrimSpace, Contains, RemoveDocIDFromContent, RemoveVersionFromContent;
    CompleteVersionStart();
    ContainsAfterTrim(content, COMPLETE_VERSION);
    RemoveDocIDKeepsVersion(TrimSpace(content));
  }

  lemma HeadHolds(needVersion: bool, rest: string)
    ensures Contains(Head(needVersion) + rest, DOC_ID)
    ensures needVersion ==> Contains(Head(needVersion) + rest, COMPLETE_VERSION)
  {
    hide Contains;
    var head := Head(needVersion);
    assert head + rest == DOC_ID + (head + rest)[6..];
    PrefixIsContained(head + rest, DOC_ID);
    if needVersion {
      var start := DOC_ID + " ";
      assert (head + rest)[|start|..|start| + |COMPLETE_VERSION|] == COMPLETE_VERSION;
      ContainsAt(head + rest, COMPLETE_VERSION, |start|);
    }
  }

  /** The new selection set holds both texts. */
  lemma NewContentHasBoth(content: string)
    ensures HasBoth(NewContent(content))
  {
    hide Contains, Remaining, Head;
    var needVersion := !Contains(content, COMPLETE_VERSION);
    var head, remaining := Head(needVersion), Remaining(content);
    ConcatAssociative(head, " ", remaining);
    HeadHolds(needVersion, remaining);
    HeadHolds(needVersion, " " + remaining);
    if !needVersion {
      RemainingKeepsVersion(content);
      ContainedInPart(head, remaining, "", COMPLETE_VERSION);
      ContainedInPart(head + " ", remaining, "", COMPLETE_VERSION);
      assert head + remaining + "" == head + remaining;
      assert head + " " + remaining + "" == head + " " + remaining;
    }
  }

  // ---------- the rewritten query ----------

  /** The query falls apart into a head ending in its main brace, a balanced selection set and a tail starting
      with the brace that closes it. */
  ghost predicate Splits(q: string, head: string, content: string, tail: string) {
    && q == head + content + tail && head != "" && tail != "" && tail[0] == '}' && Balanced(content)
    && MainBrace(head) == Some(|head| - 1)
  }

  /** The main brace depends on no text after it. */
  lemma MainBraceOfPrefix(q: string, head: string, i: nat)
    requires head <= q && i < |head|
    ensures MainBrace(head) == Some(i) <==> MainBrace(q) == Some(i)
  {
    hide MainBraceFrom, ParenNet;
    forall j: nat | j < |head| ensures IsMainBrace(head, j) <==> IsMainBrace(q, j) {
      assert head[..j] == q[..j];
    }
  }

  lemma CloseOfSplit(content: string, tail: string)
    requires Balanced(content) && tail != "" && tail[0] == '}'
    ensures Close(content + tail, 1) == Some(|content|)
  {
    hide Close, Scan;
    assert (content + tail)[..|content|] == content;
    CloseIsAfterScan(content + tail, 1, |content|);
  }

  /** Where a query splits, and only there, its rewriting is decided by the selection set alone. */
  lemma RewrittenOfSplit(q: string, head: string, content: string, tail: string)
    requires Splits(q, head, content, tail)
    ensures Rewritten(q) == if HasBoth(content) then q else head + NewContent(content) + tail
  {
    hide HasBoth, NewContent, Close, MainBrace, Balanced;
    ConcatAssociative(head, content, tail);
    MainBraceOfPrefix(q, head, |head| - 1);
    assert q[|head|..] == content + tail && q[..|head|] == head;
    CloseOfSplit(content, tail);
    assert q[|head|..|head| + |content|] == content;
    assert q[|head| + |content|..] == tail;
  }

  /** A query with a main pair of braces splits. */
  lemma MainPairSplits(q: string, open: nat, c: nat)
    requires MainBrace(q) == Some(open) && Close(q[open + 1..], 1) == Some(c)
    ensures Splits(q, q[..open + 1], q[open + 1..][..c], q[open + 1..][c..])
  {
    hide Close, Scan, MainBraceFrom;
    CloseIsAfterScan(q[open + 1..], 1, c);
    MainBraceOfPrefix(q, q[..open + 1], open);
    var rest := q[open + 1..];
    assert rest == rest[..c] + rest[c..];
    ConcatAssociative(q[..open + 1], rest[..c], rest[c..]);
  }

  ghost predicate HasMainPair(q: string) {
    match MainBrace(q)
    case None => false
    case Some(open) => Close(q[open + 1..], 1).Some?
  }

  lemma NoMainPairIsFixed(q: string)
    requires !HasMainPair(q)
    ensures Rewritten(q) == q
  {
    hide NewContent, HasBoth, MainBrace, Close;
  }

  /**
    The rewriting changes the outermost selection set and nothing else, and afterwards that selection set is
    balanced and holds the texts of both fields, at whatever depth.
   */
  lemma RewritesOneSelectionSet(q: string) returns (head: string, content: string, tail: string)
    requires HasMainPair(q)
    ensures Splits(q, head, content, tail)
    ensures HasBoth(content) ==> Rewritten(q) == q
    ensures !HasBoth(content) ==> Splits(Rewritten(q), head, NewContent(content), tail) && HasBoth(NewContent(content))
  {
    hide NewContent, HasBoth, MainBraceFrom, Close, Rewritten, Balanced;
    var open := MainBrace(q).value;
    var c := Close(q[open + 1..], 1).value;
    MainPairSplits(q, open, c);
    head, content, tail := q[..open + 1], q[open + 1..][..c], q[open + 1..][c..];
    RewrittenOfSplit(q, head, content, tail);
    NewContentIsBalanced(content);
    NewContentHasBoth(content);
  }

  /** A second rewriting changes nothing. */
  lemma RewritingIsIdempotent(q: string)
    ensures Rewritten(Rewritten(q)) == Rewritten(q)
  {
    hide NewContent, HasBoth, HasMainPair, Rewritten, Splits;
    if !HasMainPair(q) {
      NoMainPairIsFixed(q);
    } else {
      var head, content, tail := RewritesOneSelectionSet(q);
      if !HasBoth(content) {
        RewrittenOfSplit(Rewritten(q), head, NewContent(content), tail);
      }
    }
  }

  lemma RewrittenStaysTrimmed(q: string)
    requires IsTrimmed(q) && q != ""
    ensures IsTrimmed(Rewritten(q)) && Rewritten(q) != ""
  {
    hide NewContent, HasBoth, HasMainPair, Rewritten, IsSpace, MainBrace;
    if !HasMainPair(q) {
      NoMainPairIsFixed(q);
    } else {
      var head, content, tail := RewritesOneSelectionSet(q);
      if !HasBoth(content) {
        assert q[0] == head[0] && q[|q| - 1] == tail[|tail| - 1];
        var r := Rewritten(q);
        assert r[0] == head[0] && r[|r| - 1] == tail[|tail| - 1];
      }
    }
  }

  /** Sending an answer back in returns it unchanged, for every query that has an answer. */
  lemma AnswerIsIdempotent(query: string)
    requires Answer(query).Ok?
    ensures Answer(Answer(query).value) == Answer(query)
  {
    hide Rewritten, TrimSpace;
    var left, right := TrimSpaceSplits(query);
    var q := TrimSpace(query);
    RewrittenStaysTrimmed(q);
    TrimSpaceOfTrimmed(Rewritten(q));
    RewritingIsIdempotent(q);
  }

  /**
    In every answer to a query with a main pair of braces that pair holds the texts of both fields, at whatever
    depth.
   */
  lemma AnswerHasBoth(query: string) returns (head: string, content: string, tail: string)
    requires Answer(query).Ok? && HasMainPair(TrimSpace(query))
    ensures Splits(Answer(query).value, head, content, tail) && HasBoth(content)
  {
    hide Rewritten, TrimSpace, Splits, HasMainPair, HasBoth, NewContent;
    head, content, tail := RewritesOneSelectionSet(TrimSpace(query));
    if !HasBoth(content) {
      content := NewContent(content);
    }
  }

  // ---------- where a pattern can start ----------

  lemma OccurrenceStart(s: string, pat: string, i: nat)
    requires |pat| > 1
    ensures IsAt(s, pat, i) ==> s[i] == pat[0] && s[i + 1] == pat[1]
  {
    if IsAt(s, pat, i) {
      assert s[i] == s[i..i + |pat|][0] && s[i + 1] == s[i..i + |pat|][1];
    }
  }

  lemma NeverStarts(s: string, pat: string)
    requires |pat| > 1
    requires forall i | 0 <= i < |s| - 1 :: s[i] != pat[0] || s[i + 1] != pat[1]
    ensures !Contains(s, pat)
  {
    forall i: nat ensures !IsAt(s, pat, i) {
      OccurrenceStart(s, pat, i);
    }
  }

  /** The only underscore of the complete _version is its first character. */
  lemma OneUnderscore()
    ensures forall j | 0 < j < |COMPLETE_VERSION| :: COMPLETE_VERSION[j] != '_'
  {
    var rest := " " + ("{" + (" cid signature " + ("{" + " type identity value " + "}") + " ") + "}");
    assert '_' !in rest;
    assert '_' !in VERSION[1..];
  }
}
