/**
  Document IDs "<prefix>-<uuid with hyphens>" packed as 16 bytes, and back.
  A string is a sequence of bytes: one char stands for one byte.
 */
module DocIdCodec {
  import opened Basics
  import opened Hex

  type UUID = b: Bytes | |b| == 16 witness seq(16, _ => 0 as Byte)

  datatype DocIDError = InvalidDocIDFormat | InvalidUUID | InvalidHex

  /** strings.IndexByte(s, '-') */
  function IndexOfHyphen(s: string): (i: Option<nat>)
    ensures i == None <==> '-' !in s
    ensures i.Some? ==> i.value < |s| && s[i.value] == '-' && '-' !in s[..i.value]
  {
    if s == "" then None
    else if s[0] == '-' then Some(0)
    else
      match IndexOfHyphen(s[1..])
      case None => None
      case Some(i) => assert s[..i + 1] == [s[0]] + s[1..][..i]; Some(i + 1)
  }

  /** strings.ReplaceAll(s, "-", "") */
  function RemoveHyphens(s: string): string {
    if s == "" then "" else (if s[0] == '-' then "" else [s[0]]) + RemoveHyphens(s[1..])
  }

  function ParseUUIDHex(uuidStr: string): Result<UUID, DocIDError> {
    var clean := RemoveHyphens(uuidStr);
    if |clean| != 32 then Err(InvalidUUID)
    else
      match DecodeString(clean)
      case Err(_) => Err(InvalidHex)
      case Ok(b) => EncodeOfDecode(clean); Ok(b)
  }

  /** Where the five groups of the 8-4-4-4-12 text form stand in 32 digits. */
  function Hyphenate(h: string): string
    requires |h| == 32
  {
    h[..8] + "-" + h[8..12] + "-" + h[12..16] + "-" + h[16..20] + "-" + h[20..]
  }

  function FormatUUID(b: UUID): string {
    EncodeIsLowerHex(b);
    Hyphenate(EncodeToString(b))
  }

  function RestoreDocID(prefix: string, uuid: UUID): string {
    prefix + "-" + FormatUUID(uuid)
  }

  /** The value part of extractUUID. */
  function Extract(docID: string): Result<UUID, DocIDError> {
    match IndexOfHyphen(docID)
    case None => Err(InvalidDocIDFormat)
    case Some(i) => ParseUUIDHex(docID[i + 1..])
  }

  /** The prefix after a docID has been through extractUUID: taken from the first docID that has
      a hyphen, whether or not its UUID parses, and kept from then on. */
  function Capture(captured: Option<string>, docID: string): Option<string> {
    if captured.Some? || IndexOfHyphen(docID) == None then captured else Some(docID[..IndexOfHyphen(docID).value])
  }

  function CaptureAll(captured: Option<string>, docIDs: seq<string>): Option<string>
    decreases |docIDs|
  {
    if docIDs == [] then captured else CaptureAll(Capture(captured, docIDs[0]), docIDs[1..])
  }

  /** The process-wide prefix, written once. */
  class PrefixCapture {
    var prefix: string
    var captured: bool

    ghost predicate Valid()
      reads this
    {
      && '-' !in prefix
      && (!captured ==> prefix == "")
    }

    ghost function Taken(): Option<string>
      reads this
    {
      if captured then Some(prefix) else None
    }

    constructor ()
      ensures Valid() && Taken() == None
    {
      prefix, captured := "", false;
    }

    method ExtractUUID(docID: string) returns (r: Result<UUID, DocIDError>)
      requires Valid()
      modifies this
      ensures Valid()
      ensures r == Extract(docID)
      ensures Taken() == Capture(old(Taken()), docID)
    {
      var idx := IndexOfHyphen(docID);
      if idx == None {
        return Err(InvalidDocIDFormat);
      }
      if !captured {
        prefix, captured := docID[..idx.value], true;
      }
      r := ParseUUIDHex(docID[idx.value + 1..]);
    }
  }

  // ---------- round trips ----------

  lemma {:induction false} RemoveHyphensOfConcat(s: string, t: string)
    ensures RemoveHyphens(s + t) == RemoveHyphens(s) + RemoveHyphens(t)
  {
    if s == "" {
      assert s + t == t;
    } else {
      assert (s + t)[1..] == s[1..] + t;
      RemoveHyphensOfConcat(s[1..], t);
    }
  }

  lemma {:induction false} RemoveHyphensOfNone(s: string)
    requires '-' !in s
    ensures RemoveHyphens(s) == s
  {
    if s != "" {
      RemoveHyphensOfNone(s[1..]);
    }
  }

  lemma RemoveHyphensBetween(a: string, rest: string)
    requires '-' !in a
    ensures RemoveHyphens(a + "-" + rest) == a + RemoveHyphens(rest)
  {
    RemoveHyphensOfNone(a);
    RemoveHyphensOfConcat(a, "-");
    RemoveHyphensOfConcat(a + "-", rest);
    assert RemoveHyphens("-") == "" by { assert "-"[1..] == ""; }
    assert a + "" == a;
  }

  lemma RemoveFourHyphens(a: string, b: string, c: string, d: string, e: string)
    requires '-' !in a && '-' !in b && '-' !in c && '-' !in d && '-' !in e
    ensures RemoveHyphens(a + "-" + (b + "-" + (c + "-" + (d + "-" + e)))) == a + (b + (c + (d + e)))
  {
    RemoveHyphensOfNone(e);
    RemoveHyphensBetween(d, e);
    RemoveHyphensBetween(c, d + "-" + e);
    RemoveHyphensBetween(b, c + "-" + (d + "-" + e));
    RemoveHyphensBetween(a, b + "-" + (c + "-" + (d + "-" + e)));
  }

  /** Removing the hyphens undoes putting them in. */
  lemma RemoveHyphensOfHyphenate(h: string)
    requires |h| == 32 && '-' !in h
    ensures RemoveHyphens(Hyphenate(h)) == h
  {
    var a, b, c, d, e := h[..8], h[8..12], h[12..16], h[16..20], h[20..];
    RemoveFourHyphens(a, b, c, d, e);
    assert Hyphenate(h) == a + "-" + (b + "-" + (c + "-" + (d + "-" + e)));
    assert h == a + (b + (c + (d + e)));
  }

  lemma LowerHexHasNoHyphen(s: string)
    requires IsLowerHex(s)
    ensures '-' !in s
  {
  }

  lemma ParseOfFormat(b: UUID)
    ensures ParseUUIDHex(FormatUUID(b)) == Ok(b)
  {
    var h := EncodeToString(b);
    EncodeIsLowerHex(b);
    LowerHexHasNoHyphen(h);
    RemoveHyphensOfHyphenate(h);
    DecodeOfEncode(b);
  }

  lemma FirstHyphenUnique(s: string, i: nat)
    requires i < |s| && s[i] == '-' && '-' !in s[..i]
    ensures IndexOfHyphen(s) == Some(i)
  {
    var j := IndexOfHyphen(s).value;
    assert forall k | 0 <= k < i :: s[..i][k] == s[k] && s[k] != '-';
    assert forall k | 0 <= k < j :: s[..j][k] == s[k] && s[k] != '-';
  }

  lemma FirstHyphen(prefix: string, tail: string)
    requires '-' !in prefix
    ensures IndexOfHyphen(prefix + "-" + tail) == Some(|prefix|)
    ensures (prefix + "-" + tail)[|prefix| + 1..] == tail
  {
    var s := prefix + "-" + tail;
    assert s[|prefix|] == '-';
    assert s[..|prefix|] == prefix;
    FirstHyphenUnique(s, |prefix|);
  }

  /** Unpacking and packing again gives the same bytes, whatever prefix was captured. */
  lemma ExtractOfRestore(prefix: string, b: UUID)
    requires '-' !in prefix
    ensures Extract(RestoreDocID(prefix, b)) == Ok(b)
  {
    FirstHyphen(prefix, FormatUUID(b));
    ParseOfFormat(b);
  }

  /** The lower-case text form: 8-4-4-4-12 hexadecimal digits (section 4 of RFC 9562). */
  predicate IsCanonicalText(t: string) {
    && |t| == 36
    && t[8] == '-' && t[13] == '-' && t[18] == '-' && t[23] == '-'
    && IsLowerHex(Digits(t))
  }

  function Digits(t: string): string
    requires |t| == 36
  {
    t[..8] + t[9..13] + t[14..18] + t[19..23] + t[24..]
  }

  lemma DigitsOfHyphenate(h: string)
    requires |h| == 32
    ensures |Hyphenate(h)| == 36 && Digits(Hyphenate(h)) == h
    ensures Hyphenate(h)[8] == Hyphenate(h)[13] == Hyphenate(h)[18] == Hyphenate(h)[23] == '-'
  {
    var t := Hyphenate(h);
    assert t[..8] == h[..8] && t[9..13] == h[8..12] && t[14..18] == h[12..16] && t[19..23] == h[16..20] &&
      t[24..] == h[20..];
    assert h == h[..8] + h[8..12] + h[12..16] + h[16..20] + h[20..];
  }

  lemma HyphenateOfDigits(t: string)
    requires |t| == 36 && t[8] == '-' && t[13] == '-' && t[18] == '-' && t[23] == '-'
    ensures |Digits(t)| == 32 && Hyphenate(Digits(t)) == t
  {
    var h := Digits(t);
    assert h[..8] == t[..8] && h[8..12] == t[9..13] && h[12..16] == t[14..18] && h[16..20] == t[19..23] &&
      h[20..] == t[24..];
    assert t == t[..8] + "-" + t[9..13] + "-" + t[14..18] + "-" + t[19..23] + "-" + t[24..];
  }

  predicate IsCanonicalDocID(docID: string, prefix: string) {
    && |prefix| < |docID|
    && docID[..|prefix|] == prefix
    && docID[|prefix|] == '-'
    && IsCanonicalText(docID[|prefix| + 1..])
  }

  lemma ParseOfCanonical(t: string)
    requires IsCanonicalText(t)
    ensures ParseUUIDHex(t).Ok? && FormatUUID(ParseUUIDHex(t).value) == t
  {
    HyphenateOfDigits(t);
    var h := Digits(t);
    LowerHexHasNoHyphen(h);
    RemoveHyphensOfHyphenate(h);
    DecodeOfLowerHex(h);
    EncodeOfDecode(h);
  }

  /** Packing a docID and restoring it gives the docID back exactly when it has the captured
      prefix and the lower-case 8-4-4-4-12 form. */
  lemma RestoreOfExtract(docID: string, prefix: string)
    requires '-' !in prefix && Extract(docID).Ok?
    ensures RestoreDocID(prefix, Extract(docID).value) == docID <==> IsCanonicalDocID(docID, prefix)
  {
    var b := Extract(docID).value;
    if IsCanonicalDocID(docID, prefix) {
      var t := docID[|prefix| + 1..];
      assert docID == prefix + "-" + t;
      FirstHyphen(prefix, t);
      ParseOfCanonical(t);
    }
    if RestoreDocID(prefix, b) == docID {
      EncodeIsLowerHex(b);
      DigitsOfHyphenate(EncodeToString(b));
      assert docID[|prefix| + 1..] == FormatUUID(b);
    }
  }

  predicate Is32Digits(s: string) {
    |s| == 32 && forall k | 0 <= k < 32 :: IsHexDigit(s[k])
  }

  /** A docID is packed exactly when what follows its first hyphen is, without hyphens, 32 hexadecimal digits. */
  lemma ExtractsExactly(docID: string)
    ensures Extract(docID).Ok? <==>
      exists i | 0 <= i < |docID| ::
        docID[i] == '-' && '-' !in docID[..i] && Is32Digits(RemoveHyphens(docID[i + 1..]))
  {
    hide ParseUUIDHex, RemoveHyphens, Is32Digits;
    match IndexOfHyphen(docID)
    case None =>
    case Some(n) =>
      ParsesExactly(docID[n + 1..]);
      forall i | 0 <= i < |docID| && docID[i] == '-' && '-' !in docID[..i] ensures i == n {
        OneFirstHyphen(docID, i, n);
      }
  }

  lemma ParsesExactly(t: string)
    ensures ParseUUIDHex(t).Ok? <==> Is32Digits(RemoveHyphens(t))
  {
    hide RemoveHyphens, DecodeString;
    DecodesExactly(RemoveHyphens(t));
  }

  lemma OneFirstHyphen(docID: string, i: nat, n: nat)
    requires i < |docID| && n < |docID| && docID[i] == '-' && docID[n] == '-'
    requires '-' !in docID[..i] && '-' !in docID[..n]
    ensures i == n
  {
    assert forall k | 0 <= k < n :: docID[k] in docID[..n];
    assert forall k | 0 <= k < i :: docID[k] in docID[..i];
  }

  /** The prefix taken over from a list is that before the first hyphen of the first docID that has one. */
  lemma {:induction false} CapturesFirst(docIDs: seq<string>, k: nat, i: nat)
    requires k < |docIDs| && forall j | 0 <= j < k :: '-' !in docIDs[j]
    requires i < |docIDs[k]| && docIDs[k][i] == '-' && '-' !in docIDs[k][..i]
    ensures CaptureAll(None, docIDs) == Some(docIDs[k][..i])
  {
    if k == 0 {
      OneFirstHyphen(docIDs[0], i, IndexOfHyphen(docIDs[0]).value);
      CaptureKept(docIDs[0][..i], docIDs[1..]);
    } else {
      assert '-' !in docIDs[0];
      CapturesFirst(docIDs[1..], k - 1, i);
    }
  }

  /** Once taken it is kept. */
  lemma {:induction false} CaptureKept(prefix: string, docIDs: seq<string>)
    ensures CaptureAll(Some(prefix), docIDs) == Some(prefix)
  {
    if docIDs != [] {
      CaptureKept(prefix, docIDs[1..]);
    }
  }
}
