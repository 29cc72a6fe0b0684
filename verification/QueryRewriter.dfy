/**
  WithReturnDocIDAndVersion: puts _docID and a complete _version at the head of a query's
  outermost selection set.
 */
module QueryRewriter {
  import opened Basics
  import opened Texts
  import opened Braces

  const DOC_ID: string := "_docID"

  const VERSION: string := "_version"

  /** "_version { cid signature { type identity value } }" */
  const COMPLETE_VERSION: string := VERSION +
    (" " + ("{" + (" cid signature " + ("{" + " type identity value " + "}") + " ") + "}"))

  datatype QueryError = QueryEmpty

  // ---------- the specification ----------

  ghost function ParenNet(s: string): int {
    if s == "" then 0
    else (if s[0] == '(' then 1 else if s[0] == ')' then -1 else 0) + ParenNet(s[1..])
  }

  lemma {:induction false} ParenNetStep(s: string, i: nat)
    requires i < |s|
    ensures ParenNet(s[..i + 1]) == ParenNet(s[..i]) + (if s[i] == '(' then 1 else if s[i] == ')' then -1 else 0)
  {
    if i == 0 {
      assert s[..0] == "" && s[..1] == [s[0]] && [s[0]][1..] == "";
    } else {
      ParenNetStep(s[1..], i - 1);
      assert s[..i + 1][1..] == s[1..][..i] && s[..i][1..] == s[1..][..i - 1];
    }
  }

  /** An opening brace with as many opening as closing parentheses before it. */
  ghost predicate IsMainBrace(q: string, i: nat) {
    i < |q| && q[i] == '{' && ParenNet(q[..i]) == 0
  }

  ghost function MainBraceFrom(q: string, i: nat): (r: Option<nat>)
    requires i <= |q| && forall j: nat | j < i :: !IsMainBrace(q, j)
    ensures r.Some? ==> IsMainBrace(q, r.value) && forall j: nat | j < r.value :: !IsMainBrace(q, j)
    ensures r == None ==> forall j: nat :: !IsMainBrace(q, j)
    decreases |q| - i
  {
    if i == |q| then None else if IsMainBrace(q, i) then Some(i) else MainBraceFrom(q, i + 1)
  }

  ghost function MainBrace(q: string): Option<nat> {
    MainBraceFrom(q, 0)
  }

  function RemoveDocIDFromContent(content0: string): string {
    var content := TrimSpace(content0);
    if HasPrefix(content, DOC_ID + " ") then TrimSpace(content[|DOC_ID + " "|..])
    else if content == DOC_ID then ""
    else if HasPrefix(content, DOC_ID) then TrimSpace(content[|DOC_ID|..])
    else content
  }

  /** The spaces, newlines and tabs at the head of s. */
  function Blanks(s: string): (n: nat)
    ensures n <= |s| && (n < |s| ==> s[n] != ' ' && s[n] != '\n' && s[n] != '\t')
    ensures forall i | 0 <= i < n :: s[i] == ' ' || s[i] == '\n' || s[i] == '\t'
  {
    if s != "" && (s[0] == ' ' || s[0] == '\n' || s[0] == '\t') then 1 + Blanks(s[1..]) else 0
  }

  /** What is left when the first _version field goes, with its braces if it has any; None when
      the field is absent or its braces do not close. */
  function WithoutVersion(content: string): Option<string> {
    match Index(content, VERSION)
    case None => None
    case Some(start) =>
      var rest := content[start + |VERSION|..];
      var field := rest[Blanks(rest)..];
      if field != "" && field[0] == '{' then
        match Close(field[1..], 1)
        case None => None
        case Some(c) => Some(TrimSpace(content[..start] + " " + field[1..][c + 1..]))
      else Some(TrimSpace(content[..start] + " " + field))
  }

  function RemoveFallbackVersion(content: string): string {
    match Index(content, " " + COMPLETE_VERSION + " ")
    case Some(i) => TrimSpace(content[..i] + content[i + |" " + COMPLETE_VERSION + " "|..])
    case None =>
      match Index(content, " " + COMPLETE_VERSION)
      case Some(i) => TrimSpace(content[..i] + content[i + |" " + COMPLETE_VERSION|..])
      case None => content
  }

  function RemoveVersionFromContent(content0: string): string {
    var content := TrimSpace(content0);
    if HasPrefix(content, COMPLETE_VERSION + " ") then TrimSpace(content[|COMPLETE_VERSION + " "|..])
    else if content == COMPLETE_VERSION then ""
    else if HasPrefix(content, COMPLETE_VERSION) then TrimSpace(content[|COMPLETE_VERSION|..])
    else
      match WithoutVersion(content)
      case Some(r) => r
      case None => RemoveFallbackVersion(content)
  }

  predicate HasBoth(content: string) {
    Contains(content, DOC_ID) && Contains(content, COMPLETE_VERSION)
  }

  /** What of the old content follows the new head. */
  function Remaining(content: string): string {
    var trimmed := TrimSpace(content);
    var noDocID := if Contains(content, DOC_ID) then RemoveDocIDFromContent(trimmed) else trimmed;
    if Contains(content, VERSION) && !Contains(content, COMPLETE_VERSION) then RemoveVersionFromContent(noDocID)
      else noDocID
  }

  function Head(needVersion: bool): string {
    if needVersion then DOC_ID + " " + COMPLETE_VERSION else DOC_ID + " "
  }

  /** The new content: _docID, a complete _version unless there is one, and the rest. */
  function NewContent(content: string): string {
    var needVersion := !Contains(content, COMPLETE_VERSION);
    var remaining := Remaining(content);
    var space := (needVersion && remaining != "") || (Contains(content, VERSION) && !Contains(content, DOC_ID));
    (if space then Head(needVersion) + " " else Head(needVersion)) + remaining
  }

  ghost function Rewritten(q: string): string {
    match MainBrace(q)
    case None => q
    case Some(open) =>
      match Close(q[open + 1..], 1)
      case None => q
      case Some(c) =>
        var content := q[open + 1..open + 1 + c];
        if HasBoth(content) then q else q[..open + 1] + NewContent(content) + q[open + 1 + c..]
  }

  // ---------- the code ----------

  method FindMainBracePos(query: string) returns (r: Option<nat>)
    ensures r == MainBrace(query)
  {
    for i := 0 to |query|
      invariant forall j: nat | j < i :: !IsMainBrace(query, j)
      invariant MainBrace(query) == MainBraceFrom(query, i)
    {
      if query[i] != '{' {
        continue;
      }
      var parenCount := 0;
      for k := 0 to i
        invariant parenCount == ParenNet(query[..k])
      {
        ParenNetStep(query, k);
        match query[k] {
          case '(' => parenCount := parenCount + 1;
          case ')' => parenCount := parenCount - 1;
          case _ =>
        }
      }
      if parenCount == 0 {
        return Some(i);
      }
    }
    return None;
  }

  ghost function Later(r: Option<nat>, offset: nat): Option<nat> {
    match r case None => None case Some(i) => Some(i + offset)
  }

  lemma EmptyNeverCloses(d: nat)
    requires d > 0
    ensures Close("", d) == None
  {
  }

  lemma CloseStep(query: string, i: nat, d: nat)
    requires i < |query| && d > 0
    ensures query[i] == '}' && d == 1 ==> Close(query[i..], d) == Some(0)
    ensures query[i] != '}' || d > 1 ==>
      Later(Close(query[i..], d), i)
      == Later(Close(query[i + 1..], if query[i] == '{' then d + 1 else if query[i] == '}' then d - 1 else d), i + 1)
  {
    assert query[i..][0] == query[i] && query[i..][1..] == query[i + 1..];
  }

  method FindMatchingCloseBrace(query: string, openBracePos: nat) returns (r: Option<nat>)
    ensures openBracePos >= |query| || query[openBracePos] != '{' ==> r == None
    ensures openBracePos < |query| && query[openBracePos] == '{' ==>
      r == match Close(query[openBracePos + 1..], 1) case None => None case Some(c) => Some(openBracePos + 1 + c)
  {
    if openBracePos >= |query| || query[openBracePos] != '{' {
      return None;
    }
    hide Close;
    ghost var found := Later(Close(query[openBracePos + 1..], 1), openBracePos + 1);
    var braceCount: nat := 1;
    for i := openBracePos + 1 to |query|
      invariant braceCount > 0
      invariant found == Later(Close(query[i..], braceCount), i)
    {
      CloseStep(query, i, braceCount);
      match query[i] {
        case '{' => braceCount := braceCount + 1;
        case '}' =>
          braceCount := braceCount - 1;
          if braceCount == 0 {
            return Some(i);
          }
        case _ =>
      }
    }
    assert query[|query|..] == "" && Close("", braceCount) == None by { EmptyNeverCloses(braceCount); }
    return None;
  }

  /** The scan for the closing brace of a _version field. */
  method RemoveVersionWithBraces(content: string, versionStart: nat, openBracePos: nat)
      returns (result: string, ok: bool)
    requires versionStart <= openBracePos < |content| && content[openBracePos] == '{'
    ensures
      match Close(content[openBracePos + 1..], 1)
      case None => !ok && result == content
      case Some(c) => ok && result == TrimSpace(content[..versionStart] + " " + content[openBracePos + 1..][c + 1..])
  {
    var closeBrace := FindMatchingCloseBrace(content, openBracePos);
    if closeBrace == None {
      return content, false;
    }
    var afterVersionField := "";
    if closeBrace.value + 1 < |content| {
      afterVersionField := content[closeBrace.value + 1..];
    }
    ghost var c := closeBrace.value - openBracePos - 1;
    assert content[openBracePos + 1..][c + 1..] == content[closeBrace.value + 1..];
    return TrimSpace(content[..versionStart] + " " + afterVersionField), true;
  }

  method SkipBlanks(content: string, start: nat) returns (afterVersion: nat)
    requires start <= |content|
    ensures afterVersion == start + Blanks(content[start..])
  {
    afterVersion := start;
    while afterVersion < |content| &&
      (content[afterVersion] == ' ' || content[afterVersion] == '\n' || content[afterVersion] == '\t')
      invariant start <= afterVersion <= |content|
      invariant start + Blanks(content[start..]) == afterVersion + Blanks(content[afterVersion..])
    {
      assert content[afterVersion..][0] == content[afterVersion] &&
        content[afterVersion..][1..] == content[afterVersion + 1..];
      afterVersion := afterVersion + 1;
    }
  }

  method RemoveIncompleteVersion(content: string) returns (result: string, ok: bool)
    ensures ok == WithoutVersion(content).Some?
    ensures result == if ok then WithoutVersion(content).value else content
  {
    hide Close, TrimSpace, Index;
    var versionStart := Index(content, VERSION);
    if versionStart == None {
      return content, false;
    }
    var start := versionStart.value + |VERSION|;
    var afterVersion := SkipBlanks(content, start);
    hide Blanks;
    ghost var rest := content[start..];
    assert rest[Blanks(rest)..] == content[afterVersion..];
    if afterVersion < |content| && content[afterVersion] == '{' {
      assert content[afterVersion..][1..] == content[afterVersion + 1..];
      result, ok := RemoveVersionWithBraces(content, versionStart.value, afterVersion);
      return;
    }
    return TrimSpace(content[..versionStart.value] + " " + content[afterVersion..]), true;
  }

  method RemoveVersion(content0: string) returns (result: string)
    ensures result == RemoveVersionFromContent(content0)
  {
    var content := TrimSpace(content0);
    if HasPrefix(content, COMPLETE_VERSION + " ") {
      return TrimSpace(content[|COMPLETE_VERSION + " "|..]);
    } else if content == COMPLETE_VERSION {
      return "";
    } else if HasPrefix(content, COMPLETE_VERSION) {
      return TrimSpace(content[|COMPLETE_VERSION|..]);
    }
    var ok;
    result, ok := RemoveIncompleteVersion(content);
    if !ok {
      result := RemoveFallbackVersion(content);
    }
  }

  method BuildNewSelectionSetContent(content: string, hasDocID: bool, hasCompleteVersion: bool) returns (b: string)
    requires hasDocID == Contains(content, DOC_ID) && hasCompleteVersion == Contains(content, COMPLETE_VERSION)
    ensures b == NewContent(content)
  {
    hide RemoveDocIDFromContent, RemoveVersionFromContent, Contains, TrimSpace;
    var needDocID, needVersion := !hasDocID, !hasCompleteVersion;
    var hasVersion := Contains(content, VERSION);
    var trimmedContent := TrimSpace(content);
    b := "";
    if needDocID || hasDocID {
      b := b + (DOC_ID + " ");
    }
    if needVersion {
      b := b + COMPLETE_VERSION;
    }
    assert b == Head(needVersion);
    var remainingContent := trimmedContent;
    if hasDocID && !needDocID {
      remainingContent := RemoveDocIDFromContent(remainingContent);
    }
    if hasVersion && needVersion {
      remainingContent := RemoveVersion(remainingContent);
    }
    assert remainingContent == Remaining(content);
    if (needVersion && remainingContent != "") || (hasVersion && needDocID) {
      b := b + " ";
    }
    if remainingContent != "" {
      b := b + remainingContent;
    }
  }

  method AddDocIDAndVersionToSelectionSets(query: string) returns (r: string)
    ensures r == Rewritten(query)
  {
    hide NewContent, Contains, MainBraceFrom, Close;
    var mainBracePos := FindMainBracePos(query);
    if mainBracePos == None {
      return query;
    }
    var closeBracePos := FindMatchingCloseBrace(query, mainBracePos.value);
    if closeBracePos == None {
      return query;
    }
    var contentStart, contentEnd := mainBracePos.value + 1, closeBracePos.value;
    var content := query[contentStart..contentEnd];
    var hasDocID := Contains(content, DOC_ID);
    var hasCompleteVersion := Contains(content, COMPLETE_VERSION);
    if hasDocID && hasCompleteVersion {
      return query;
    }
    var newContent := BuildNewSelectionSetContent(content, hasDocID, hasCompleteVersion);
    return query[..contentStart] + newContent + query[contentEnd..];
  }

  /** The answer for every query, the empty ones included. */
  ghost function Answer(query: string): Result<string, QueryError> {
    if TrimSpace(query) == "" then Err(QueryEmpty) else Ok(Rewritten(TrimSpace(query)))
  }

  method WithReturnDocIDAndVersion(query: string) returns (r: Result<string, QueryError>)
    ensures r == Answer(query)
  {
    hide Rewritten;
    if query == "" {
      return Err(QueryEmpty);
    }
    var trimmed := TrimSpace(query);
    if trimmed == "" {
      return Err(QueryEmpty);
    }
    var rewritten := AddDocIDAndVersionToSelectionSets(trimmed);
    return Ok(rewritten);
  }
}
