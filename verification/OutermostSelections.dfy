/** Exactly when the rewritten outermost selection set selects both fields. */
module OutermostSelections {
  import opened Basics
  import opened Texts
  import opened Braces
  import opened QueryRewriter
  import opened RewriterLaws
  import opened Selections
  import opened RewriterPromises

  // ---------- the new head ----------

  lemma DocIDSpaceIsTransparent(space: string)
    requires space == "" || space == " "
    ensures Transparent(DOC_ID + " " + space)
  {
    var h := DOC_ID + " " + space;
    BalancedPlain(h);
    NoParens(h);
    assert h[|h| - 1] == ' ';
  }

  /** A new head with a _version selects it. */
  lemma HeadSelectsVersion(rest: string)
    ensures Selects(DOC_ID + " " + (COMPLETE_VERSION + rest), COMPLETE_VERSION)
  {
    hide Scan, Transparent, ParenNet, SelectedAt;
    var h := DOC_ID + " ";
    assert h + "" == h;
    DocIDSpaceIsTransparent("");
    FieldSelectsItself(rest);
    SelectedPast(h, COMPLETE_VERSION + rest, COMPLETE_VERSION, 0);
  }

  lemma FieldSelectsItself(rest: string)
    ensures SelectedAt(COMPLETE_VERSION + rest, COMPLETE_VERSION, 0)
  {
    hide Scan;
    CompleteVersionStart();
    var s := COMPLETE_VERSION + rest;
    assert s[..0] == "" && s[0..|COMPLETE_VERSION|] == COMPLETE_VERSION;
    assert s[|COMPLETE_VERSION| - 1] == '}';
    ScanPlain("", 1);
  }

  // ---------- exactly when both are selected ----------

  lemma CompleteStartsWithVersion(s: string, i: nat)
    requires IsAt(s, COMPLETE_VERSION, i)
    ensures IsAt(s, VERSION, i)
  {
    CompleteVersionStart();
    InnerAt(s, COMPLETE_VERSION, i, VERSION, 0);
  }

  /** When a complete _version is kept, the outermost set selects one exactly when it did before. */
  lemma KeptVersionSelected(content: string)
    requires Contains(content, COMPLETE_VERSION) && !Contains(content, DOC_ID)
    ensures Selects(NewContent(content), COMPLETE_VERSION) <==> Selects(content, COMPLETE_VERSION)
  {
    hide Contains, NewContent, NewHead, Remaining, Kept, IsSpace, Scan, IsHead, Shifted, Selects, SelectsTwice,
      Transparent;
    HeadIsFirst(content);
    HeadIsTransparent(content);
    EndsOfPatterns();
    AllIsKept(content);
    KeptSelects(content, COMPLETE_VERSION);
    var h, rest := NewHead(content), Remaining(content);
    forall i: nat | IsAt(h + rest, COMPLETE_VERSION, i) ensures i >= |h| {
      CompleteStartsWithVersion(h + rest, i);
      NotInHead(h, rest, false, VERSION, i);
    }
    HeadShifts(h, rest, COMPLETE_VERSION);
    ShiftedSelectsAlike(rest, h + rest, COMPLETE_VERSION, |h|);
  }

  /**
    The rewritten outermost selection set selects _docID exactly when the old one did or lacked one of the two texts,
    and a complete _version exactly when the old one did or held none at all.
   */
  lemma OutermostExactly(content: string)
    ensures Selects(NewSelectionSet(content), DOC_ID) <==> (HasBoth(content) ==> Selects(content, DOC_ID))
    ensures Selects(NewSelectionSet(content), COMPLETE_VERSION) <==>
      (Contains(content, COMPLETE_VERSION) ==> Selects(content, COMPLETE_VERSION))
  {
    hide Contains, NewContent, NewHead, Remaining, IsHead, SelectedAt;
    if !HasBoth(content) {
      HeadIsFirst(content);
      HeadSelectsDocID(NewHead(content), Remaining(content), !Contains(content, COMPLETE_VERSION));
      assert SelectedAt(NewContent(content), DOC_ID, 0);
      if Contains(content, COMPLETE_VERSION) {
        KeptVersionSelected(content);
      } else {
        HeadTexts(content);
        var space :| NewHead(content) == DOC_ID + " " + COMPLETE_VERSION + space && (space == "" || space == " ");
        HeadSelectsVersion(space + Remaining(content));
        RegroupHead(DOC_ID + " ", COMPLETE_VERSION, space, Remaining(content));
      }
    }
  }

  /** Exactly which accepted queries are answered with an outermost selection set that selects both fields. */
  lemma AnswerSelectsBothExactly(query: string) returns (head: string, content: string, tail: string)
    requires Answer(query).Ok? && HasMainPair(TrimSpace(query))
    ensures Splits(TrimSpace(query), head, content, tail) &&
      Splits(Answer(query).value, head, NewSelectionSet(content), tail)
    ensures SelectsBoth(NewSelectionSet(content)) <==>
      && (HasBoth(content) ==> Selects(content, DOC_ID))
      && (Contains(content, COMPLETE_VERSION) ==> Selects(content, COMPLETE_VERSION))
  {
    hide Answer, TrimSpace, HasMainPair, Splits, HasBoth, Contains, Selects, NewContent;
    head, content, tail := AnswerSplits(query);
    OutermostExactly(content);
  }

  // ---------- a query whose outermost set gets neither ----------

  lemma {:induction false} ScanPrefix(s: string, i: nat, d: nat)
    requires d > 0 && i <= |s| && Scan(s, d).Some?
    ensures Scan(s[..i], d).Some? && Scan(s[..i], d).value > 0
  {
    hide Scan;
    assert s == s[..i] + s[i..];
    ScanOfConcat(s[..i], s[i..], d);
  }

  /** Inside a nested pair of braces the depth is more than one. */
  lemma InsideIsDeeper(name: string, x: string, i: nat)
    requires '{' !in name && '}' !in name && Balanced(x) && |name| < i <= |name| + 1 + |x|
    ensures Scan((name + "{" + x + "}")[..i], 1) != Some(1)
  {
    hide Scan;
    var k := i - |name| - 1;
    var open := name + "{";
    assert (open + x + "}")[..i] == open + x[..k];
    BalancedPlain(name);
    OpeningScans(name);
    ScanOfConcat(open, x[..k], 1);
    ScanPrefix(x, k, 1);
    ScanDeeper(x[..k], 1, 1);
  }

  lemma OpeningScans(name: string)
    requires Balanced(name)
    ensures Scan(name + "{", 1) == Some(2)
  {
    ScanOfConcat(name, "{", 1);
    assert "{"[1..] == "";
  }

  /** A field name that stands only inside the nested pair is not selected outside. */
  lemma OnlyNested(name: string, x: string, field: string)
    requires '{' !in name && '}' !in name && '_' !in name && Balanced(x)
    requires field == DOC_ID || field == COMPLETE_VERSION
    ensures !Selects(name + "{" + x + "}", field)
  {
    hide Scan, IsNameChar, ParenNet;
    var content := name + "{" + x + "}";
    CompleteVersionStart();
    FieldNames();
    assert forall j | 0 <= j < |name| :: content[j] == name[j];
    assert content[|name|] == '{' && content[|content| - 1] == '}';
    forall i: nat ensures !SelectedAt(content, field, i) {
      if IsAt(content, field, i) {
        OccurrenceStart(content, field, i);
        InsideIsDeeper(name, x, i);
      }
    }
  }

  /**
    The documentation promises both fields. A query whose one nested selection set holds both texts is answered
    unchanged, and its outermost selection set selects neither.
   */
  lemma NestedFieldsSuppressOutermost(name: string, x: string)
    requires '{' !in name && '}' !in name && '_' !in name && Balanced(x) && HasBoth(x)
    ensures
      var content := name + "{" + x + "}";
      && Answer("{" + content + "}") == Ok("{" + content + "}")
      && !Selects(content, DOC_ID) && !Selects(content, COMPLETE_VERSION)
  {
    hide Contains, Scan, Selects, Answer;
    var content := name + "{" + x + "}";
    ContainedInPart(name + "{", x, "}", DOC_ID);
    ContainedInPart(name + "{", x, "}", COMPLETE_VERSION);
    BalancedPlain(name);
    BalancedBraces(x);
    BalancedConcat(name, "{" + x + "}");
    ConcatAssociative(name, "{", x + "}");
    ConcatAssociative(name + "{", x, "}");
    assert name + ("{" + x + "}") == content;
    AnswerOfBraces(content);
    OnlyNested(name, x, DOC_ID);
    OnlyNested(name, x, COMPLETE_VERSION);
  }

  /** For example the fields of a User's selection set. */
  lemma UserFieldsSuppressOutermost()
    ensures
      var content := "User {" + (DOC_ID + " " + COMPLETE_VERSION) + "}";
      && Answer("{" + content + "}") == Ok("{" + content + "}")
      && !Selects(content, DOC_ID) && !Selects(content, COMPLETE_VERSION)
  {
    hide Contains, Scan, Selects, Answer;
    var x := DOC_ID + " " + COMPLETE_VERSION;
    HeadIsBalanced(true);
    HeadHolds(true, "");
    assert Head(true) + "" == x && Head(true) == x;
    NestedFieldsSuppressOutermost("User ", x);
    assert "User " + "{" == "User {";
  }
}
