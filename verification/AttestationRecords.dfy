/** Merging attestation records, and what repeated posts for one document leave stored. */
module AttestationRecords {
  import opened Basics
  import opened Dedup

  datatype Record = Record(attestedDocID: string, sourceDocIDs: seq<string>, cids: seq<string>, docType: string,
    voteCount: int)

  datatype MergeError = DifferentAttestedDocIDs(first: string, second: string)

  /** The shapes in which a document hands back a list field; Missing is an absent field or any other type. */
  datatype FieldValue =
    | Missing
    | Options(options: seq<Option<string>>)
    | Strings(strings: seq<string>)
    | Items(items: seq<Item>)

  datatype Item = Text(text: string) | OtherItem

  // ---------- merging one list field ----------

  ghost function TextsOfOptions(options: seq<Option<string>>): seq<string> {
    if options == [] then []
    else (if options[0].Some? then [options[0].value] else []) + TextsOfOptions(options[1..])
  }

  ghost function TextsOfItems(items: seq<Item>): seq<string> {
    if items == [] then []
    else (if items[0].Text? then [items[0].text] else []) + TextsOfItems(items[1..])
  }

  lemma TextsOfOptionsFrom(options: seq<Option<string>>, i: nat)
    requires i < |options|
    ensures TextsOfOptions(options[i..]) ==
      (if options[i].Some? then [options[i].value] + TextsOfOptions(options[i + 1..])
        else TextsOfOptions(options[i + 1..]))
  {
    assert options[i..][1..] == options[i + 1..];
    assert [] + TextsOfOptions(options[i + 1..]) == TextsOfOptions(options[i + 1..]);
  }

  lemma TextsOfItemsFrom(items: seq<Item>, i: nat)
    requires i < |items|
    ensures TextsOfItems(items[i..]) ==
      (if items[i].Text? then [items[i].text] + TextsOfItems(items[i + 1..]) else TextsOfItems(items[i + 1..]))
  {
    assert items[i..][1..] == items[i + 1..];
    assert [] + TextsOfItems(items[i + 1..]) == TextsOfItems(items[i + 1..]);
  }

  /** Of optional strings exactly those that are there count, in order. */
  lemma {:induction false} OptionsExactly(options: seq<Option<string>>, more: seq<Option<string>>)
    ensures (forall i | 0 <= i < |options| :: options[i].Some?) ==>
      && |TextsOfOptions(options)| == |options|
      && forall i | 0 <= i < |options| :: TextsOfOptions(options)[i] == options[i].value
    ensures TextsOfOptions(options + [None] + more) == TextsOfOptions(options + more)
  {
    if options == [] {
      assert [] + [None] + more == [None] + more && ([None] + more)[1..] == more && [] + more == more;
      assert [] + TextsOfOptions(more) == TextsOfOptions(more);
    } else {
      assert (options + [None] + more)[1..] == options[1..] + [None] + more;
      assert (options + more)[1..] == options[1..] + more;
      OptionsExactly(options[1..], more);
    }
  }

  /** Of untyped items exactly the strings do. */
  lemma {:induction false} ItemsExactly(items: seq<Item>, others: seq<Item>)
    ensures (forall i | 0 <= i < |items| :: items[i].Text?) ==>
      && |TextsOfItems(items)| == |items|
      && forall i | 0 <= i < |items| :: TextsOfItems(items)[i] == items[i].text
    ensures TextsOfItems(items + [OtherItem] + others) == TextsOfItems(items + others)
  {
    if items == [] {
      assert [] + [OtherItem] + others == [OtherItem] + others && ([OtherItem] + others)[1..] == others;
      assert [] + others == others && [] + TextsOfItems(others) == TextsOfItems(others);
    } else {
      assert (items + [OtherItem] + others)[1..] == items[1..] + [OtherItem] + others;
      assert (items + others)[1..] == items[1..] + others;
      ItemsExactly(items[1..], others);
    }
  }

  ghost function Texts(field: FieldValue): seq<string> {
    match field
    case Missing => []
    case Options(options) => TextsOfOptions(options)
    case Strings(strings) => strings
    case Items(items) => TextsOfItems(items)
  }

  lemma FirstOfCons(x: string, xs: seq<string>, seen: set<string>)
    ensures FirstPerKey(Self, [x] + xs, seen) ==
      if x in seen then FirstPerKey(Self, xs, seen) else [x] + FirstPerKey(Self, xs, seen + {x})
  {
    assert ([x] + xs)[1..] == xs;
  }

  lemma ElementsOfCons(x: string, xs: seq<string>)
    ensures Elements([x] + xs) == {x} + Elements(xs)
  {
    KeysOfCons(Self, [x] + xs);
    assert ([x] + xs)[1..] == xs;
  }

  method AppendOptions(options: seq<Option<string>>) returns (seen: set<string>, result: seq<string>)
    ensures seen == Elements(TextsOfOptions(options)) && result == Distinct(TextsOfOptions(options))
  {
    hide FirstPerKey, Keys, TextsOfOptions, TextsOfItems;
    seen, result := {}, [];
    for i := 0 to |options|
      invariant seen + Elements(TextsOfOptions(options[i..])) == Elements(TextsOfOptions(options))
      invariant result + FirstPerKey(Self, TextsOfOptions(options[i..]), seen) == Distinct(TextsOfOptions(options))
    {
      TextsOfOptionsFrom(options, i);
      ghost var rest := TextsOfOptions(options[i + 1..]);
      if options[i].Some? {
        var s := options[i].value;
        FirstOfCons(s, rest, seen);
        ElementsOfCons(s, rest);
        if s !in seen {
          seen, result := seen + {s}, result + [s];
        }
      }
    }
    EmptyAppends(seen);
    EndOfShapes(options, []);
  }

  lemma EndOfShapes(options: seq<Option<string>>, items: seq<Item>)
    ensures TextsOfOptions(options[|options|..]) == [] && TextsOfItems(items[|items|..]) == []
  {
  }

  lemma EmptyAppends(seen: set<string>)
    ensures FirstPerKey(Self, [], seen) == [] && Elements([]) == {}
  {
  }

  method AppendItems(items: seq<Item>) returns (seen: set<string>, result: seq<string>)
    ensures seen == Elements(TextsOfItems(items)) && result == Distinct(TextsOfItems(items))
  {
    hide FirstPerKey, Keys, TextsOfOptions, TextsOfItems;
    seen, result := {}, [];
    for i := 0 to |items|
      invariant seen + Elements(TextsOfItems(items[i..])) == Elements(TextsOfItems(items))
      invariant result + FirstPerKey(Self, TextsOfItems(items[i..]), seen) == Distinct(TextsOfItems(items))
    {
      TextsOfItemsFrom(items, i);
      ghost var rest := TextsOfItems(items[i + 1..]);
      if items[i].Text? {
        var s := items[i].text;
        FirstOfCons(s, rest, seen);
        ElementsOfCons(s, rest);
        if s !in seen {
          seen, result := seen + {s}, result + [s];
        }
      }
    }
    EmptyAppends(seen);
    EndOfShapes([], items);
  }

  lemma DistinctInTwo(xs: seq<string>, ys: seq<string>)
    ensures Distinct(xs + ys) == Distinct(xs) + FirstPerKey(Self, ys, Elements(xs))
  {
    FirstPerKeyOfConcat(Self, xs, ys, {});
    assert {} + Keys(Self, xs) == Elements(xs);
  }

  /** The stored list followed by the new values, each string at its first occurrence. */
  method MergeStringListField(field: FieldValue, newValues: seq<string>) returns (result: seq<string>)
    ensures result == Distinct(Texts(field) + newValues)
  {
    hide FirstPerKey, Keys, TextsOfItems, TextsOfOptions;
    EmptyAppends({});
    var seen: set<string> := {};
    result := [];
    match field {
      case Missing =>
      case Options(options) => seen, result := AppendOptions(options);
      case Strings(strings) => seen, result := AppendNew(strings, {}, []);
      case Items(items) => seen, result := AppendItems(items);
    }
    assert seen == Elements(Texts(field)) && result == Distinct(Texts(field));
    DistinctInTwo(Texts(field), newValues);
    seen, result := AppendNew(newValues, seen, result);
  }

  // ---------- merging two records ----------

  ghost function Merged(r1: Record, r2: Record): Result<Record, MergeError> {
    if r1.attestedDocID != r2.attestedDocID then Err(DifferentAttestedDocIDs(r1.attestedDocID, r2.attestedDocID))
    else Ok(Record(r1.attestedDocID, Distinct(r1.sourceDocIDs + r2.sourceDocIDs), Distinct(r1.cids + r2.cids), "", 0))
  }

  method MergeAttestationRecords(record1: Record, record2: Record) returns (r: Result<Record, MergeError>)
    ensures r == Merged(record1, record2)
    ensures r.Err? <==> record1.attestedDocID != record2.attestedDocID
    ensures r.Ok? ==>
      && r.value.attestedDocID == record1.attestedDocID && r.value.docType == "" && r.value.voteCount == 0
      && r.value.sourceDocIDs == Distinct(record1.sourceDocIDs + record2.sourceDocIDs)
      && r.value.cids == Distinct(record1.cids + record2.cids)
  {
    hide FirstPerKey, Keys;
    if record1.attestedDocID != record2.attestedDocID {
      return Err(DifferentAttestedDocIDs(record1.attestedDocID, record2.attestedDocID));
    }
    EmptyAppends({});
    DistinctInTwo(record1.sourceDocIDs, record2.sourceDocIDs);
    DistinctInTwo(record1.cids, record2.cids);
    var sourceSet, mergedSources := AppendNew(record1.sourceDocIDs, {}, []);
    assert mergedSources == Distinct(record1.sourceDocIDs) && sourceSet == Elements(record1.sourceDocIDs);
    sourceSet, mergedSources := AppendNew(record2.sourceDocIDs, sourceSet, mergedSources);
    var cidSet, cids := AppendNew(record1.cids, {}, []);
    assert cids == Distinct(record1.cids) && cidSet == Elements(record1.cids);
    cidSet, cids := AppendNew(record2.cids, cidSet, cids);
    return Ok(Record(record1.attestedDocID, mergedSources, cids, "", 0));
  }

  lemma DistinctElements(xs: seq<string>)
    ensures Elements(Distinct(xs)) == Elements(xs)
  {
    FirstPerKeyKeys(Self, xs, {});
  }

  /** Deduplicating a part first changes nothing. */
  lemma DistinctAbsorbsLeft(xs: seq<string>, ys: seq<string>)
    ensures Distinct(Distinct(xs) + ys) == Distinct(xs + ys)
  {
    DistinctInTwo(Distinct(xs), ys);
    DistinctInTwo(xs, ys);
    DistinctElements(xs);
    FirstPerKeyTwice(Self, xs, {}, {});
  }

  lemma DistinctAbsorbsRight(xs: seq<string>, ys: seq<string>)
    ensures Distinct(xs + Distinct(ys)) == Distinct(xs + ys)
  {
    DistinctInTwo(xs, Distinct(ys));
    DistinctInTwo(xs, ys);
    FirstPerKeyTwice(Self, ys, {}, Elements(xs));
  }

  lemma DistinctAssociative(xs: seq<string>, ys: seq<string>, zs: seq<string>)
    ensures Distinct(Distinct(xs + ys) + zs) == Distinct(xs + Distinct(ys + zs)) == Distinct(xs + ys + zs)
  {
    hide Distinct;
    DistinctAbsorbsLeft(xs + ys, zs);
    DistinctAbsorbsRight(xs, ys + zs);
    assert xs + (ys + zs) == xs + ys + zs;
  }

  lemma DistinctOfConcatElements(xs: seq<string>, ys: seq<string>)
    ensures Elements(Distinct(xs + ys)) == Elements(xs) + Elements(ys)
  {
    DistinctElements(xs + ys);
    KeysOfConcat(Self, xs, ys);
  }

  /** Appending strings that are all there already changes nothing. */
  lemma DistinctAbsorbsRepeats(xs: seq<string>, ys: seq<string>)
    requires Elements(ys) <= Elements(xs)
    ensures Distinct(Distinct(xs) + ys) == Distinct(xs)
  {
    DistinctAbsorbsLeft(xs, ys);
    DistinctInTwo(xs, ys);
    FirstPerKeyAllSeen(Self, ys, Elements(xs));
  }

  ghost predicate SameDoc(a: Record, b: Record) {
    a.attestedDocID == b.attestedDocID
  }

  /** Merging is associative, order of the lists included. */
  lemma MergeIsAssociative(a: Record, b: Record, c: Record)
    requires SameDoc(a, b) && SameDoc(b, c)
    ensures Merged(Merged(a, b).value, c) == Merged(a, Merged(b, c).value)
  {
    hide Distinct;
    DistinctAssociative(a.sourceDocIDs, b.sourceDocIDs, c.sourceDocIDs);
    DistinctAssociative(a.cids, b.cids, c.cids);
  }

  /** Merging the other way round gives the same sets in another order. */
  lemma MergeIsCommutativeAsSets(a: Record, b: Record)
    requires SameDoc(a, b)
    ensures Elements(Merged(a, b).value.sourceDocIDs) == Elements(Merged(b, a).value.sourceDocIDs)
    ensures Elements(Merged(a, b).value.cids) == Elements(Merged(b, a).value.cids)
  {
    hide Distinct, Elements;
    DistinctOfConcatElements(a.sourceDocIDs, b.sourceDocIDs);
    DistinctOfConcatElements(b.sourceDocIDs, a.sourceDocIDs);
    DistinctOfConcatElements(a.cids, b.cids);
    DistinctOfConcatElements(b.cids, a.cids);
  }

  lemma ElementsOfPart(xs: seq<string>, ys: seq<string>)
    ensures Elements(xs) <= Elements(xs + ys) && Elements(ys) <= Elements(xs + ys)
  {
    KeysOfConcat(Self, xs, ys);
  }

  /** A record merged in once more adds nothing. */
  lemma MergeAbsorbsRepeats(a: Record, b: Record)
    requires SameDoc(a, b)
    ensures Merged(Merged(a, b).value, a) == Merged(a, b) && Merged(Merged(a, b).value, b) == Merged(a, b)
  {
    hide Distinct, Elements;
    ElementsOfPart(a.sourceDocIDs, b.sourceDocIDs);
    ElementsOfPart(a.cids, b.cids);
    DistinctAbsorbsRepeats(a.sourceDocIDs + b.sourceDocIDs, a.sourceDocIDs);
    DistinctAbsorbsRepeats(a.sourceDocIDs + b.sourceDocIDs, b.sourceDocIDs);
    DistinctAbsorbsRepeats(a.cids + b.cids, a.cids);
    DistinctAbsorbsRepeats(a.cids + b.cids, b.cids);
  }

  lemma DistinctFixedExactly(xs: seq<string>)
    ensures Distinct(xs) == xs <==> DistinctKeys(Self, xs)
  {
    FirstPerKeyKeys(Self, xs, {});
    if DistinctKeys(Self, xs) {
      FirstPerKeyOfDistinct(Self, xs, {});
    }
  }

  /**
    The merged record has neither a type nor a vote count, so merging a record with itself gives it back only without
    them.
   */
  lemma MergeWithItselfIsIdentityExactly(a: Record)
    ensures Merged(a, a) == Ok(a) <==>
      a.docType == "" && a.voteCount == 0 && DistinctKeys(Self, a.sourceDocIDs) && DistinctKeys(Self, a.cids)
  {
    DistinctTwice(a.sourceDocIDs);
    DistinctTwice(a.cids);
    DistinctFixedExactly(a.sourceDocIDs);
    DistinctFixedExactly(a.cids);
  }

  lemma DistinctTwice(xs: seq<string>)
    ensures Distinct(xs + xs) == Distinct(xs)
  {
    DistinctAbsorbsLeft(xs, xs);
    DistinctAbsorbsRepeats(xs, xs);
  }

  // ---------- repeated posts ----------

  /** The stored records by attested document. */
  type Store = map<string, Record>

  class AttestationStore {
    var records: Store

    constructor ()
      ensures records == map[]
    {
      records := map[];
    }

    /**
      Reads the stored record, merges and writes it back. How the database hands back the two lists, and whether
      the final save works, is up to the environment.
     */
    method PostAttestationRecord(record: Record, sources: FieldValue, cids: FieldValue, saved: bool)
      requires record.attestedDocID in records ==>
        Texts(sources) == records[record.attestedDocID].sourceDocIDs &&
          Texts(cids) == records[record.attestedDocID].cids
      modifies this
      ensures records == if saved then Posted(old(records), record) else old(records)
      ensures !saved ==> records == old(records)
      ensures saved && record.attestedDocID !in old(records) ==> records == old(records)[record.attestedDocID := record]
      ensures saved && record.attestedDocID in old(records) ==>
        var was := old(records)[record.attestedDocID];
        records == old(records)[record.attestedDocID := Record(was.attestedDocID,
          Distinct(was.sourceDocIDs + record.sourceDocIDs), Distinct(was.cids + record.cids),
          was.docType, record.voteCount)]
    {
      hide Texts, Distinct;
      var toSave := record;
      if record.attestedDocID in records {
        var mergedSources := MergeStringListField(sources, record.sourceDocIDs);
        var mergedCIDs := MergeStringListField(cids, record.cids);
        toSave := records[record.attestedDocID].(sourceDocIDs := mergedSources, cids := mergedCIDs,
          voteCount := record.voteCount);
      }
      if saved {
        records := records[record.attestedDocID := toSave];
      }
    }
  }

  /** The store after a successful post. */
  ghost function Posted(records: Store, record: Record): Store {
    var id := record.attestedDocID;
    if id in records then
      var was := records[id];
      records[id := was.(
        sourceDocIDs := Distinct(was.sourceDocIDs + record.sourceDocIDs), cids := Distinct(was.cids + record.cids),
        voteCount := record.voteCount)]
    else records[id := record]
  }

  ghost function Exec(posts: seq<Record>): Store {
    if posts == [] then map[] else Posted(Exec(posts[..|posts| - 1]), posts[|posts| - 1])
  }

  /** The posts for one document, in order. */
  ghost function PostsFor(posts: seq<Record>, id: string): seq<Record> {
    if posts == [] then []
    else
      PostsFor(posts[..|posts| - 1], id) + if posts[|posts| - 1].attestedDocID == id then [posts[|posts| - 1]] else []
  }

  ghost function AllSources(posts: seq<Record>): seq<string> {
    if posts == [] then [] else AllSources(posts[..|posts| - 1]) + posts[|posts| - 1].sourceDocIDs
  }

  ghost function AllCIDs(posts: seq<Record>): seq<string> {
    if posts == [] then [] else AllCIDs(posts[..|posts| - 1]) + posts[|posts| - 1].cids
  }

  /** What is stored for a document after these posts for it: the first as it is, later ones deduplicated into it. */
  ghost function Expected(mine: seq<Record>): Record
    requires mine != []
  {
    if |mine| == 1 then mine[0]
    else Record(mine[0].attestedDocID, Distinct(AllSources(mine)), Distinct(AllCIDs(mine)), mine[0].docType,
      mine[|mine| - 1].voteCount)
  }

  lemma ListsOfOne(mine: seq<Record>)
    requires |mine| == 1
    ensures AllSources(mine) == mine[0].sourceDocIDs && AllCIDs(mine) == mine[0].cids
  {
    assert mine[..0] == [];
    assert [] + mine[0].sourceDocIDs == mine[0].sourceDocIDs && [] + mine[0].cids == mine[0].cids;
  }

  lemma ExpectedStep(mine: seq<Record>, r: Record)
    requires mine != [] && SameDoc(mine[0], r)
    ensures
      var was := Expected(mine);
      Expected(mine + [r]) == was.(
        sourceDocIDs := Distinct(was.sourceDocIDs + r.sourceDocIDs), cids := Distinct(was.cids + r.cids),
          voteCount := r.voteCount)
  {
    hide Distinct;
    assert (mine + [r])[..|mine|] == mine && (mine + [r])[0] == mine[0];
    if |mine| == 1 {
      ListsOfOne(mine);
    } else {
      DistinctAbsorbsLeft(AllSources(mine), r.sourceDocIDs);
      DistinctAbsorbsLeft(AllCIDs(mine), r.cids);
    }
  }

  lemma {:induction false} PostsForAreFor(posts: seq<Record>, id: string)
    ensures forall r | r in PostsFor(posts, id) :: r.attestedDocID == id
  {
    if posts != [] {
      PostsForAreFor(posts[..|posts| - 1], id);
    }
  }

  /** After any run of posts each document's record depends on the posts for it alone, and is as expected from them. */
  lemma {:induction false} StoredAsExpected(posts: seq<Record>, id: string)
    ensures id in Exec(posts) <==> PostsFor(posts, id) != []
    ensures id in Exec(posts) ==> Exec(posts)[id] == Expected(PostsFor(posts, id))
    ensures id in Exec(posts) && |PostsFor(posts, id)| > 1 ==>
      var mine := PostsFor(posts, id);
      Exec(posts)[id] == Record(mine[0].attestedDocID, Distinct(AllSources(mine)), Distinct(AllCIDs(mine)),
        mine[0].docType, mine[|mine| - 1].voteCount)
  {
    ExpectedOfMany(PostsFor(posts, id));
    hide Expected, Distinct;
    if posts != [] {
      var before, r := posts[..|posts| - 1], posts[|posts| - 1];
      StoredAsExpected(before, id);
      assert PostsFor(before, id) + [] == PostsFor(before, id);
      if r.attestedDocID == id {
        var mine := PostsFor(before, id);
        if mine == [] {
          ExpectedOfOne(r);
        } else {
          PostsForAreFor(before, id);
          ExpectedStep(mine, r);
        }
      }
    }
  }

  lemma ExpectedOfMany(mine: seq<Record>)
    ensures |mine| > 1 ==>
      Expected(mine) == Record(mine[0].attestedDocID, Distinct(AllSources(mine)), Distinct(AllCIDs(mine)),
        mine[0].docType, mine[|mine| - 1].voteCount)
  {
  }

  lemma ExpectedOfOne(r: Record)
    ensures Expected([] + [r]) == r
  {
  }

  /**
    The stored lists are the deduplication of everything posted for the document, in order, exactly when there
    were two posts or the only one listed nothing twice.
   */
  lemma StoredIsDeduplicatedExactly(posts: seq<Record>, id: string)
    requires id in Exec(posts)
    ensures
      var mine := PostsFor(posts, id);
      mine != [] &&
      (Exec(posts)[id].sourceDocIDs == Distinct(AllSources(mine)) && Exec(posts)[id].cids == Distinct(AllCIDs(mine))
       <==> |mine| > 1 || (DistinctKeys(Self, mine[0].sourceDocIDs) && DistinctKeys(Self, mine[0].cids)))
  {
    hide Distinct, DistinctKeys;
    StoredAsExpected(posts, id);
    var mine := PostsFor(posts, id);
    if |mine| == 1 {
      ListsOfOne(mine);
      DistinctFixedExactly(mine[0].sourceDocIDs);
      DistinctFixedExactly(mine[0].cids);
    }
  }
}
