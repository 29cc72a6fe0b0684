/** The prune queue: a FIFO of packed document IDs with a collection tag each. */
module EventQueueModel {
  import opened Basics
  import opened Hex
  import opened DocIdCodec

  datatype Entry = Entry(collection: Byte, uuid: UUID)

  datatype CollectionConfig = CollectionConfig(blockCollection: string, dependentCollections: seq<string>)

  datatype DrainResult = DrainResult(docIDsByCollection: map<string, seq<string>>, blockCount: int)

  /** The serialised queue; encoding it is the identity here. */
  datatype QueueSnapshot = QueueSnapshot(docIDPrefix: string, entries: seq<Entry>, blockCount: int,
    collectionNames: map<Byte, string>)

  const COL_BLOCK: Byte := 0

  const KNOWN_COLLECTIONS: map<string, Byte> := map[
    "Ethereum__Mainnet__Transaction" := 1,
    "Ethereum__Mainnet__Log" := 2,
    "Ethereum__Mainnet__AccessListEntry" := 3,
    "Ethereum__Mainnet__BatchSignature" := 4,
    "Ethereum__Mainnet__BlockSignature" := 5,
    "Ethereum__Mainnet__AttestationRecord" := 6
  ]

  // ---------- collection names and tags ----------

  /** The two name maps of a queue. */
  datatype Registry = Registry(names: map<Byte, string>, enums: map<string, Byte>) {

    function Register(name: string, tag: Byte): Registry {
      Registry(names[tag := name], enums[name := tag])
    }

    /** Every registered name has a tag that resolves back to it, and every tag a registered name. */
    ghost predicate Consistent() {
      && (forall n | n in enums :: enums[n] in names && names[enums[n]] == n)
      && (forall c | c in names :: names[c] in enums)
    }

    ghost predicate Inverse() {
      Consistent() && forall c | c in names :: enums[names[c]] == c
    }
  }

  function RegisterDependents(r: Registry, dependents: seq<string>, known: map<string, Byte>): Registry
    decreases |dependents|
  {
    if dependents == [] then r
    else RegisterDependents(
      if dependents[0] in known then r.Register(dependents[0], known[dependents[0]]) else r, dependents[1..], known)
  }

  function RegistryOf(config: CollectionConfig, known: map<string, Byte>): Registry {
    RegisterDependents(Registry(map[], map[]).Register(config.blockCollection, COL_BLOCK),
      config.dependentCollections, known)
  }

  /** No two names share a tag and no name takes the block tag. */
  ghost predicate ProperTags(known: map<string, Byte>) {
    && (forall m, n | m in known && n in known && known[m] == known[n] :: m == n)
    && (forall n | n in known :: known[n] != COL_BLOCK)
  }

  lemma KnownCollectionsProper()
    ensures ProperTags(KNOWN_COLLECTIONS)
  {
  }

  lemma {:induction false} RegisterDependentsConsistent(r: Registry, dependents: seq<string>, known: map<string, Byte>)
    requires ProperTags(known) && r.Consistent()
    requires forall c | c in r.names && c != COL_BLOCK :: r.names[c] in known && known[r.names[c]] == c
    ensures RegisterDependents(r, dependents, known).Consistent()
    ensures RegisterDependents(r, dependents, known).enums.Keys == r.enums.Keys + set n | n in dependents && n in known
    decreases |dependents|
  {
    if dependents != [] {
      var n := dependents[0];
      var r1 := if n in known then r.Register(n, known[n]) else r;
      RegisterDependentsConsistent(r1, dependents[1..], known);
      assert dependents == [n] + dependents[1..];
    }
  }

  /** What registering dependents does to each name, and that it leaves the name of the block tag alone. */
  lemma {:induction false} RegisteredTags(r: Registry, dependents: seq<string>, known: map<string, Byte>)
    requires ProperTags(known) && COL_BLOCK in r.names
    ensures
      var r1 := RegisterDependents(r, dependents, known);
      && COL_BLOCK in r1.names && r1.names[COL_BLOCK] == r.names[COL_BLOCK]
      && (forall n | n in r.enums || (n in dependents && n in known) ::
            n in r1.enums && r1.enums[n] == if n in dependents && n in known then known[n] else r.enums[n])
      && (forall c | c in r1.names && c != COL_BLOCK && !(c in r.names && r1.names[c] == r.names[c]) ::
            r1.names[c] in dependents && r1.names[c] in known && known[r1.names[c]] == c)
    decreases |dependents|
  {
    if dependents != [] {
      var n := dependents[0];
      RegisteredTags(if n in known then r.Register(n, known[n]) else r, dependents[1..], known);
    }
  }

  /**
    Exactly the block collection and the known dependents are registered. The two maps are inverse to each other exactly
    when the block collection is not a known dependent as well.
   */
  lemma RegistryConsistent(config: CollectionConfig, known: map<string, Byte>)
    requires ProperTags(known)
    ensures RegistryOf(config, known).Consistent()
    ensures RegistryOf(config, known).enums.Keys ==
      {config.blockCollection} + set n | n in config.dependentCollections && n in known
    ensures RegistryOf(config, known).Inverse() <==>
      !(config.blockCollection in config.dependentCollections && config.blockCollection in known)
  {
    var start := Registry(map[], map[]).Register(config.blockCollection, COL_BLOCK);
    RegisterDependentsConsistent(start, config.dependentCollections, known);
    RegisteredTags(start, config.dependentCollections, known);
  }

  // ---------- what a list of entries holds ----------

  ghost function CountBlocks(es: seq<Entry>): nat {
    if es == [] then 0 else (if es[0].collection == COL_BLOCK then 1 else 0) + CountBlocks(es[1..])
  }

  lemma {:induction false} CountBlocksOfConcat(xs: seq<Entry>, ys: seq<Entry>)
    ensures CountBlocks(xs + ys) == CountBlocks(xs) + CountBlocks(ys)
  {
    if xs == [] {
      assert xs + ys == ys;
    } else {
      assert (xs + ys)[1..] == xs[1..] + ys;
      CountBlocksOfConcat(xs[1..], ys);
    }
  }

  lemma SingleBlock(e: Entry)
    ensures CountBlocks([e]) == if e.collection == COL_BLOCK then 1 else 0
  {
    assert [e][1..] == [];
  }

  lemma CountBlocksStep(es: seq<Entry>, i: nat)
    requires i < |es|
    ensures CountBlocks(es[..i + 1]) == CountBlocks(es[..i]) + if es[i].collection == COL_BLOCK then 1 else 0
    ensures CountBlocks(es) == CountBlocks(es[..i]) + CountBlocks(es[i..])
  {
    SingleBlock(es[i]);
    hide CountBlocks;
    assert es[..i + 1] == es[..i] + [es[i]];
    CountBlocksOfConcat(es[..i], [es[i]]);
    assert es == es[..i] + es[i..];
    CountBlocksOfConcat(es[..i], es[i..]);
  }

  ghost predicate WellTagged(es: seq<Entry>, names: map<Byte, string>) {
    forall i | 0 <= i < |es| :: es[i].collection in names
  }

  ghost predicate InCollection(e: Entry, names: map<Byte, string>, name: string) {
    e.collection in names && names[e.collection] == name
  }

  /** The packed IDs of one collection, in queue order. */
  ghost function Uuids(es: seq<Entry>, names: map<Byte, string>, name: string): seq<UUID> {
    if es == [] then []
    else (if InCollection(es[0], names, name) then [es[0].uuid] else []) + Uuids(es[1..], names, name)
  }

  lemma {:induction false} UuidsOfConcat(xs: seq<Entry>, ys: seq<Entry>, names: map<Byte, string>, name: string)
    ensures Uuids(xs + ys, names, name) == Uuids(xs, names, name) + Uuids(ys, names, name)
  {
    if xs == [] {
      assert xs + ys == ys;
    } else {
      assert (xs + ys)[1..] == xs[1..] + ys;
      UuidsOfConcat(xs[1..], ys, names, name);
    }
  }

  /** All entries of a collection are its entries, in order, and those of other collections are none. */
  lemma {:induction false} UuidsExactly(es: seq<Entry>, names: map<Byte, string>, name: string)
    requires forall i | 0 <= i < |es| :: es[i].collection in names
    ensures (forall i | 0 <= i < |es| :: names[es[i].collection] == name) ==>
      |Uuids(es, names, name)| == |es| && forall i | 0 <= i < |es| :: Uuids(es, names, name)[i] == es[i].uuid
    ensures (forall i | 0 <= i < |es| :: names[es[i].collection] != name) ==> Uuids(es, names, name) == []
  {
    if es != [] {
      UuidsExactly(es[1..], names, name);
    }
  }

  function Restored(uuids: seq<UUID>, prefix: string): (docIDs: seq<string>)
    ensures |docIDs| == |uuids|
    ensures forall i | 0 <= i < |uuids| :: docIDs[i] == RestoreDocID(prefix, uuids[i])
  {
    seq(|uuids|, i requires 0 <= i < |uuids| => RestoreDocID(prefix, uuids[i]))
  }

  function Group(groups: map<string, seq<string>>, name: string): seq<string> {
    if name in groups then groups[name] else []
  }

  /** The groups hold, for every collection, the restored IDs of its entries in order. */
  ghost predicate GroupsOf(groups: map<string, seq<string>>, es: seq<Entry>, names: map<Byte, string>, prefix: string) {
    forall name :: Group(groups, name) == Restored(Uuids(es, names, name), prefix)
  }

  lemma GroupsOfStep(groups: map<string, seq<string>>, es: seq<Entry>, e: Entry, names: map<Byte, string>,
      prefix: string)
    requires GroupsOf(groups, es, names, prefix) && e.collection in names
    ensures
      var name := names[e.collection];
      GroupsOf(groups[name := Group(groups, name) + [RestoreDocID(prefix, e.uuid)]], es + [e], names, prefix)
  {
    var own := names[e.collection];
    var groups1 := groups[own := Group(groups, own) + [RestoreDocID(prefix, e.uuid)]];
    forall name ensures Group(groups1, name) == Restored(Uuids(es + [e], names, name), prefix) {
      UuidsOfConcat(es, [e], names, name);
      SingleUuid(e, names, name);
    }
  }

  lemma SingleUuid(e: Entry, names: map<Byte, string>, name: string)
    ensures Uuids([e], names, name) == if InCollection(e, names, name) then [e.uuid] else []
  {
    assert [e][1..] == [];
    assert [e.uuid] + [] == [e.uuid];
  }

  /** What Requeue rebuilds from docIDs; those that do not parse are skipped. */
  ghost function Repacked(docIDs: seq<string>, tag: Byte): seq<Entry> {
    if docIDs == [] then []
    else (match Extract(docIDs[0]) case Ok(uuid) => [Entry(tag, uuid)] case Err(_) => []) + Repacked(docIDs[1..], tag)
  }

  /** When all docIDs parse they are all packed again, in order; one that does not is left out. */
  lemma {:induction false} RepackedExactly(docIDs: seq<string>, tag: Byte, bad: string)
    ensures (forall i | 0 <= i < |docIDs| :: Extract(docIDs[i]).Ok?) ==>
      && |Repacked(docIDs, tag)| == |docIDs|
      && forall i | 0 <= i < |docIDs| :: Repacked(docIDs, tag)[i] == Entry(tag, Extract(docIDs[i]).value)
    ensures Extract(bad).Err? ==> Repacked([bad] + docIDs, tag) == Repacked(docIDs, tag)
  {
    hide Extract;
    assert ([bad] + docIDs)[1..] == docIDs;
    assert [] + Repacked(docIDs, tag) == Repacked(docIDs, tag);
    if docIDs != [] {
      RepackedExactly(docIDs[1..], tag, bad);
    }
  }

  /** Taking the next docID off the list that Requeue goes through. */
  lemma RequeueOne(front: seq<Entry>, docIDs: seq<string>, i: nat, tag: Byte, captured: Option<string>)
    requires i < |docIDs|
    ensures Extract(docIDs[i]).Err? ==> Repacked(docIDs[i..], tag) == Repacked(docIDs[i + 1..], tag)
    ensures Extract(docIDs[i]).Ok? ==>
      front + Repacked(docIDs[i..], tag) ==
        front + [Entry(tag, Extract(docIDs[i]).value)] + Repacked(docIDs[i + 1..], tag)
    ensures CaptureAll(captured, docIDs[i..]) == CaptureAll(Capture(captured, docIDs[i]), docIDs[i + 1..])
  {
    hide Extract, Capture;
    assert docIDs[i..][0] == docIDs[i] && docIDs[i..][1..] == docIDs[i + 1..];
    assert [] + Repacked(docIDs[i + 1..], tag) == Repacked(docIDs[i + 1..], tag);
  }

  /** What Push appends. */
  ghost function Pushed(enums: map<string, Byte>, name: string, docID: string): seq<Entry> {
    if Extract(docID).Ok? && name in enums then [Entry(enums[name], Extract(docID).value)] else []
  }

  /** The length of the shortest prefix that holds count blocks. */
  ghost predicate IsBlockCutoff(es: seq<Entry>, count: nat, cutoff: nat) {
    && 0 < cutoff <= |es|
    && CountBlocks(es[..cutoff]) == count
    && forall k | 0 <= k < cutoff :: CountBlocks(es[..k]) < count
  }

  // ---------- the queue ----------

  /** The tables while the names of a snapshot are being merged into them; todo is still to come. */
  ghost predicate Merging(was: Registry, now: Registry, names: map<Byte, string>, todo: set<Byte>) {
    && todo <= names.Keys && now.names + names == was.names + names
    && (forall k | k in names && k !in todo :: k in now.names && now.names[k] == names[k] && names[k] in now.enums)
    && (forall n | n in was.enums :: n in now.enums)
    && (forall n | n in now.enums :: MergedTag(was, now, names, todo, n))
  }

  /** A tag comes from the snapshot where the snapshot has the name, and is the old one elsewhere. */
  ghost predicate MergedTag(was: Registry, now: Registry, names: map<Byte, string>, todo: set<Byte>, n: string)
    requires n in now.enums
  {
    var k := now.enums[n];
    if k in names && k !in todo && names[k] == n then true
    else n in was.enums && k == was.enums[n] && forall j | j in names && j !in todo :: names[j] != n
  }

  lemma NothingMerged(was: Registry, names: map<Byte, string>)
    ensures Merging(was, was, names, names.Keys)
  {
  }

  lemma MergeOne(was: Registry, now: Registry, names: map<Byte, string>, todo: set<Byte>, k: Byte)
    requires Merging(was, now, names, todo) && k in todo
    ensures k in names && Merging(was, Registry(now.names[k := names[k]], now.enums[names[k] := k]), names, todo - {k})
  {
    var next := Registry(now.names[k := names[k]], now.enums[names[k] := k]);
    forall n | n in next.enums ensures MergedTag(was, next, names, todo - {k}, n) {
      if n != names[k] {
        assert MergedTag(was, now, names, todo, n);
      }
    }
  }

  /** Every registered name whose tag the names of a snapshot reassign is among those names. */
  ghost predicate Compatible(was: Registry, names: map<Byte, string>) {
    forall n | n in was.enums && was.enums[n] in names :: n in names.Values
  }

  /** In whatever order the names are merged: the tables stay consistent exactly when the names are compatible. */
  lemma MergedExactly(was: Registry, now: Registry, names: map<Byte, string>)
    requires was.Consistent() && Merging(was, now, names, {})
    ensures now.names == was.names + names
    ensures now.Consistent() <==> Compatible(was, names)
  {
    hide Merging;
    NamesMerged(was, now, names);
    if Compatible(was, names) {
      forall n | n in now.enums ensures now.enums[n] in now.names && now.names[now.enums[n]] == n {
        CompatibleResolves(was, now, names, n);
      }
      EveryTagNamed(was, now, names);
    } else {
      var n :| n in was.enums && was.enums[n] in names && n !in names.Values;
      Misrouted(was, now, names, n);
    }
  }

  lemma NamesMerged(was: Registry, now: Registry, names: map<Byte, string>)
    requires Merging(was, now, names, {})
    ensures now.names == was.names + names
  {
    hide MergedTag;
  }

  lemma EveryTagNamed(was: Registry, now: Registry, names: map<Byte, string>)
    requires was.Consistent() && Merging(was, now, names, {}) && now.names == was.names + names
    ensures forall c | c in now.names :: now.names[c] in now.enums
  {
    hide MergedTag;
  }

  lemma CompatibleResolves(was: Registry, now: Registry, names: map<Byte, string>, n: string)
    requires was.Consistent() && Merging(was, now, names, {}) && now.names == was.names + names
    requires Compatible(was, names) && n in now.enums
    ensures now.enums[n] in now.names && now.names[now.enums[n]] == n
  {
    assert MergedTag(was, now, names, {}, n);
  }

  /** An incompatible name keeps a tag that now resolves to another name. */
  lemma Misrouted(was: Registry, now: Registry, names: map<Byte, string>, n: string)
    requires Merging(was, now, names, {}) && n in was.enums && was.enums[n] in names && n !in names.Values
    ensures
      && n in now.enums && now.enums[n] == was.enums[n] && now.enums[n] in now.names
      && now.names[now.enums[n]] == names[was.enums[n]] != n
  {
    assert MergedTag(was, now, names, {}, n);
    var k := was.enums[n];
    assert (now.names + names)[k] == names[k];
    assert names[k] in names.Values;
  }

  /** So a document pushed into it is drained under that other name and not under its own. */
  lemma MisroutedPush(was: Registry, now: Registry, names: map<Byte, string>, n: string, docID: string)
    requires Merging(was, now, names, {}) && n in was.enums && was.enums[n] in names && n !in names.Values &&
      Extract(docID).Ok?
    ensures
      var pushed, uuid := Pushed(now.enums, n, docID), Extract(docID).value;
      Uuids(pushed, now.names, names[was.enums[n]]) == [uuid] && Uuids(pushed, now.names, n) == []
  {
    hide Extract, Merging;
    Misrouted(was, now, names, n);
    SingleUuid(Pushed(now.enums, n, docID)[0], now.names, n);
    SingleUuid(Pushed(now.enums, n, docID)[0], now.names, names[was.enums[n]]);
  }

  /** Loading this snapshot leaves a queue with these tables valid. */
  ghost predicate Loadable(snap: QueueSnapshot, was: Registry, captured: bool) {
    && Compatible(was, snap.collectionNames)
    && WellTagged(snap.entries, was.names + snap.collectionNames)
    && snap.blockCount == CountBlocks(snap.entries)
    && (captured || '-' !in snap.docIDPrefix)
  }

  /** A queue writes what a queue of the same configuration can load. */
  lemma SavedIsLoadable(r: Registry, entries: seq<Entry>, prefix: string, captured: bool)
    requires r.Consistent() && WellTagged(entries, r.names) && '-' !in prefix
    ensures Loadable(QueueSnapshot(prefix, entries, CountBlocks(entries), r.names), r, captured)
  {
    assert r.names + r.names == r.names;
    forall n | n in r.enums && r.enums[n] in r.names ensures n in r.names.Values {
      assert r.names[r.enums[n]] == n;
    }
  }

  /** What Save does: nothing without a path, removal of the file of an empty queue, or a new file. */
  datatype Saved = NoPath | Removed | Written(snap: QueueSnapshot)

  class EventQueue {
    const codec: PrefixCapture
    var entries: seq<Entry>
    var blockCount: int
    var collectionNames: map<Byte, string>
    var collectionEnums: map<string, Byte>
    var filePath: string

    ghost function Tables(): Registry
      reads this
    {
      Registry(collectionNames, collectionEnums)
    }

    ghost predicate Valid()
      reads this, codec
    {
      && codec.Valid()
      && Registry(collectionNames, collectionEnums).Consistent()
      && WellTagged(entries, collectionNames)
      && blockCount == CountBlocks(entries)
    }

    constructor (codec: PrefixCapture, collections: CollectionConfig)
      requires codec.Valid()
      ensures Valid() && this.codec == codec && entries == []
      ensures Registry(collectionNames, collectionEnums) == RegistryOf(collections, KNOWN_COLLECTIONS)
    {
      this.codec := codec;
      entries, blockCount, filePath := [], 0, "";
      var names: map<Byte, string> := map[COL_BLOCK := collections.blockCollection];
      var enums: map<string, Byte> := map[collections.blockCollection := COL_BLOCK];
      var deps := collections.dependentCollections;
      for i := 0 to |deps|
        invariant RegisterDependents(Registry(names, enums), deps[i..], KNOWN_COLLECTIONS) ==
          RegistryOf(collections, KNOWN_COLLECTIONS)
      {
        assert deps[i..][0] == deps[i] && deps[i..][1..] == deps[i + 1..];
        if deps[i] in KNOWN_COLLECTIONS {
          names := names[KNOWN_COLLECTIONS[deps[i]] := deps[i]];
          enums := enums[deps[i] := KNOWN_COLLECTIONS[deps[i]]];
        }
      }
      collectionNames, collectionEnums := names, enums;
      KnownCollectionsProper();
      RegistryConsistent(collections, KNOWN_COLLECTIONS);
    }

    method Push(collectionName: string, docID: string)
      requires Valid()
      modifies this`entries, this`blockCount, codec
      ensures Valid()
      ensures entries == old(entries) + Pushed(collectionEnums, collectionName, docID)
      ensures Extract(docID).Ok? && collectionName in collectionEnums ==>
        entries == old(entries) + [Entry(collectionEnums[collectionName], Extract(docID).value)]
      ensures Extract(docID).Err? || collectionName !in collectionEnums ==> entries == old(entries)
      ensures codec.Taken() == Capture(old(codec.Taken()), docID)
    {
      var uuid := codec.ExtractUUID(docID);
      if uuid.Err? || collectionName !in collectionEnums {
        return;
      }
      var colType := collectionEnums[collectionName];
      CountBlocksOfConcat(entries, [Entry(colType, uuid.value)]);
      entries := entries + [Entry(colType, uuid.value)];
      if colType == COL_BLOCK {
        blockCount := blockCount + 1;
      }
    }

    /** The grouping loop of both drains. */
    method GroupDrained(drained: seq<Entry>) returns (groups: map<string, seq<string>>)
      requires WellTagged(drained, collectionNames)
      ensures GroupsOf(groups, drained, collectionNames, codec.prefix)
    {
      groups := map[];
      for i := 0 to |drained|
        invariant GroupsOf(groups, drained[..i], collectionNames, codec.prefix)
      {
        var entry := drained[i];
        assert drained[..i + 1] == drained[..i] + [entry];
        if entry.collection in collectionNames {
          GroupsOfStep(groups, drained[..i], entry, collectionNames, codec.prefix);
          var name := collectionNames[entry.collection];
          groups := groups[name := Group(groups, name) + [RestoreDocID(codec.prefix, entry.uuid)]];
        }
      }
      assert drained[..|drained|] == drained;
    }

    /** Removes the first cutoff entries and returns them grouped. */
    method Remove(cutoff: nat, blocksSeen: int) returns (result: DrainResult)
      requires Valid() && cutoff <= |entries| && blocksSeen == CountBlocks(entries[..cutoff])
      modifies this`entries, this`blockCount
      ensures Valid()
      ensures entries == old(entries)[cutoff..]
      ensures GroupsOf(result.docIDsByCollection, old(entries)[..cutoff], collectionNames, codec.prefix)
      ensures result.blockCount == blocksSeen
    {
      var drained := entries[..cutoff];
      assert entries == drained + entries[cutoff..];
      CountBlocksOfConcat(drained, entries[cutoff..]);
      entries := entries[cutoff..];
      blockCount := blockCount - blocksSeen;
      var groups := GroupDrained(drained);
      return DrainResult(groups, blocksSeen);
    }

    method DrainDocs(count: int) returns (result: Option<DrainResult>)
      requires Valid()
      modifies this`entries, this`blockCount
      ensures Valid()
      ensures old(entries) == [] || count <= 0 ==> result == None && entries == old(entries)
      ensures old(entries) != [] && count > 0 ==>
        var n := if count > |old(entries)| then |old(entries)| else count;
        && entries == old(entries)[n..]
        && result.Some?
        && result.value.blockCount == CountBlocks(old(entries)[..n])
        && GroupsOf(result.value.docIDsByCollection, old(entries)[..n], collectionNames, codec.prefix)
    {
      if |entries| == 0 || count <= 0 {
        return None;
      }
      var n := if count > |entries| then |entries| else count;
      var blocksSeen := 0;
      for i := 0 to n
        modifies {}
        invariant blocksSeen == CountBlocks(entries[..i])
      {
        CountBlocksStep(entries, i);
        if entries[i].collection == COL_BLOCK {
          blocksSeen := blocksSeen + 1;
        }
      }
      var r := Remove(n, blocksSeen);
      return Some(r);
    }

    /** Removes exactly the shortest prefix that holds count blocks, or nothing when there are fewer. */
    method DrainBlocks(count: int) returns (result: Option<DrainResult>)
      requires Valid()
      modifies this`entries, this`blockCount
      ensures Valid()
      ensures count <= 0 || CountBlocks(old(entries)) < count ==> result == None && entries == old(entries)
      ensures 0 < count <= CountBlocks(old(entries)) ==>
        exists cutoff: nat ::
          && IsBlockCutoff(old(entries), count, cutoff)
          && entries == old(entries)[cutoff..]
          && result.Some? && result.value.blockCount == count
          && GroupsOf(result.value.docIDsByCollection, old(entries)[..cutoff], collectionNames, codec.prefix)
    {
      if blockCount <= 0 || count <= 0 {
        return None;
      }
      var blocksSeen, cutoff := 0, 0;
      for i := 0 to |entries|
        modifies {}
        invariant cutoff == 0 && blocksSeen == CountBlocks(entries[..i]) < count
        invariant forall k | 0 <= k <= i :: CountBlocks(entries[..k]) < count
      {
        CountBlocksStep(entries, i);
        if entries[i].collection == COL_BLOCK {
          blocksSeen := blocksSeen + 1;
          if blocksSeen >= count {
            cutoff := i + 1;
            break;
          }
        }
      }
      assert entries[..|entries|] == entries;
      if cutoff == 0 {
        return None;
      }
      assert IsBlockCutoff(entries, count, cutoff);
      CountBlocksPrefix(entries, cutoff);
      var r := Remove(cutoff, blocksSeen);
      return Some(r);
    }

    method Requeue(collectionName: string, docIDs: seq<string>)
      requires Valid()
      modifies this`entries, this`blockCount, codec
      ensures Valid()
      ensures collectionName !in collectionEnums ==> entries == old(entries)
      ensures collectionName in collectionEnums ==>
        entries == Repacked(docIDs, collectionEnums[collectionName]) + old(entries)
      ensures codec.Taken() == if collectionName in collectionEnums then CaptureAll(old(codec.Taken()), docIDs)
        else old(codec.Taken())
    {
      if collectionName !in collectionEnums {
        return;
      }
      var colType := collectionEnums[collectionName];
      hide CountBlocks, Repacked, CaptureAll;
      var front, blocks := Repack(docIDs, colType);
      CountBlocksOfConcat(front, entries);
      entries := front + entries;
      blockCount := blockCount + blocks;
    }

    /** The loop that packs the docIDs again, skipping those that do not parse. */
    method Repack(docIDs: seq<string>, colType: Byte) returns (front: seq<Entry>, blocks: nat)
      requires codec.Valid()
      modifies codec
      ensures codec.Valid() && codec.Taken() == CaptureAll(old(codec.Taken()), docIDs)
      ensures front == Repacked(docIDs, colType) && blocks == CountBlocks(front)
      ensures forall j | 0 <= j < |front| :: front[j].collection == colType
    {
      front, blocks := [], 0;
      for i := 0 to |docIDs|
        invariant codec.Valid()
        invariant front + Repacked(docIDs[i..], colType) == Repacked(docIDs, colType)
        invariant blocks == CountBlocks(front) && forall j | 0 <= j < |front| :: front[j].collection == colType
        invariant CaptureAll(codec.Taken(), docIDs[i..]) == CaptureAll(old(codec.Taken()), docIDs)
      {
        hide CountBlocks, Repacked, CaptureAll;
        RequeueOne(front, docIDs, i, colType, codec.Taken());
        var uuid := codec.ExtractUUID(docIDs[i]);
        if uuid.Err? {
          continue;
        }
        CountBlocksOfConcat(front, [Entry(colType, uuid.value)]);
        SingleBlock(Entry(colType, uuid.value));
        front := front + [Entry(colType, uuid.value)];
        if colType == COL_BLOCK {
          blocks := blocks + 1;
        }
      }
    }

    method Save() returns (saved: Saved)
      requires Valid()
      ensures saved == NoPath <==> filePath == ""
      ensures filePath != "" ==> (saved == Removed <==> entries == [])
      ensures saved.Written? ==>
        && saved.snap == QueueSnapshot(codec.prefix, entries, CountBlocks(entries), collectionNames)
        && Loadable(saved.snap, Tables(), codec.captured)
    {
      if filePath == "" {
        return NoPath;
      }
      if |entries| == 0 {
        return Removed;
      }
      SavedIsLoadable(Tables(), entries, codec.prefix, codec.captured);
      return Written(QueueSnapshot(codec.prefix, entries, blockCount, collectionNames));
    }

    /** What LoadFromFile does with a decoded file, or with a missing one. */
    method Load(path: string, file: Option<QueueSnapshot>) returns (count: nat)
      requires Valid()
      modifies this`entries, this`blockCount, this`collectionNames, this`collectionEnums, this`filePath, codec
      ensures filePath == path
      ensures file == None ==> count == 0 && Valid() && entries == old(entries) && codec.Taken() == old(codec.Taken())
      ensures file.Some? ==>
        && count == |entries| && entries == file.value.entries && blockCount == file.value.blockCount
        && Merging(old(Tables()), Tables(), file.value.collectionNames, {})
        && codec.Taken() == if old(codec.captured) || file.value.docIDPrefix == "" then old(codec.Taken())
          else Some(file.value.docIDPrefix)
      ensures file.Some? ==> (Valid() <==> Loadable(file.value, old(Tables()), old(codec.captured)))
    {
      hide Merging, Compatible, CountBlocks, WellTagged;
      filePath := path;
      if file == None {
        return 0;
      }
      var snap := file.value;
      entries, blockCount := snap.entries, snap.blockCount;
      MergeNames(snap.collectionNames);
      if snap.docIDPrefix != "" && !codec.captured {
        codec.prefix, codec.captured := snap.docIDPrefix, true;
      }
      MergedExactly(old(Tables()), Tables(), snap.collectionNames);
      return |entries|;
    }

    /** The range loop over the names of a file. */
    method MergeNames(names: map<Byte, string>)
      modifies this`collectionNames, this`collectionEnums
      ensures Merging(old(Tables()), Tables(), names, {})
    {
      hide Merging;
      NothingMerged(Tables(), names);
      var todo := names.Keys;
      while todo != {}
        invariant todo <= names.Keys && Merging(old(Tables()), Tables(), names, todo)
        decreases todo
      {
        var k :| k in todo;
        MergeOne(old(Tables()), Tables(), names, todo, k);
        collectionNames := collectionNames[k := names[k]];
        collectionEnums := collectionEnums[names[k] := k];
        todo := todo - {k};
      }
    }

    method Len() returns (n: nat)
      ensures n == |entries|
    {
      return |entries|;
    }
  }

  lemma CountBlocksPrefix(es: seq<Entry>, cutoff: nat)
    requires cutoff <= |es|
    ensures CountBlocks(es[..cutoff]) <= CountBlocks(es)
  {
    assert es == es[..cutoff] + es[cutoff..];
    CountBlocksOfConcat(es[..cutoff], es[cutoff..]);
  }
}
