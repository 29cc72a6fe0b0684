/**
  Whole runs of the prune queue: pushes interleave freely with the steps of the one pruner,
  every purge may fail, and the process may restart between cycles.
 */
module PruneRuns {
  import opened Basics
  import opened Hex
  import opened DocIdCodec
  import opened EventQueueModel

  /** maxDocs is max_blocks * docs_per_block; known is the table of collection tags. */
  datatype Config = Config(collections: CollectionConfig, known: map<string, Byte>, maxDocs: int) {

    ghost function Registered(): Registry {
      RegistryOf(collections, known)
    }

    /** The order in which a cycle purges: dependents as listed, the block collection last. */
    function Columns(): seq<string> {
      collections.dependentCollections + [collections.blockCollection]
    }
  }

  /** What the pruner goroutine is doing between two of its atomic steps. */
  datatype Phase =
    | Idle
    | Measured(excess: nat)
    | Purging(todo: seq<string>, groups: map<string, seq<string>>)

  datatype Purge = Purge(collection: string, docIDs: seq<string>)

  /** The queue, the captured prefix, the pruner, and two histories: entries accepted and purges done. */
  datatype Sys = Sys(entries: seq<Entry>, captured: Option<string>, phase: Phase, accepted: seq<Entry>,
    purged: seq<Purge>)

  datatype Action =
    | Push(collection: string, docID: string)
    | Measure
    | Drain
    | PurgeNext(ok: bool)
    | Restart

  const INIT: Sys := Sys([], None, Idle, [], [])

  function Prefix(captured: Option<string>): string {
    if captured.Some? then captured.value else ""
  }

  ghost function GroupMap(es: seq<Entry>, names: map<Byte, string>, prefix: string): map<string, seq<string>> {
    map e | e in es && e.collection in names ::
      names[e.collection] := Restored(Uuids(es, names, names[e.collection]), prefix)
  }

  function AfterPurge(todo: seq<string>, groups: map<string, seq<string>>): Phase {
    if todo == [] then Idle else Purging(todo, groups)
  }

  ghost function Step(cfg: Config, s: Sys, a: Action): Sys {
    var names, enums := cfg.Registered().names, cfg.Registered().enums;
    match a
    case Push(collection, docID) =>
      var more := Pushed(enums, collection, docID);
      s.(captured := Capture(s.captured, docID), entries := s.entries + more, accepted := s.accepted + more)
    case Measure =>
      if s.phase.Idle? && |s.entries| > cfg.maxDocs then s.(phase := Measured(|s.entries| - cfg.maxDocs)) else s
    case Drain =>
      if !s.phase.Measured? then s
      else
        var n := if s.phase.excess > |s.entries| then |s.entries| else s.phase.excess;
        if n == 0 then s.(phase := Idle)
        else s.(entries := s.entries[n..],
          phase := Purging(cfg.Columns(), GroupMap(s.entries[..n], names, Prefix(s.captured))))
    case PurgeNext(ok) =>
      if !s.phase.Purging? || s.phase.todo == [] then s
      else PurgeColumn(enums, s, s.phase.todo[0], s.phase.todo[1..], s.phase.groups, ok)
    case Restart =>
      if !s.phase.Idle? then s
      else s.(captured := if s.entries == [] || Prefix(s.captured) == "" then None else s.captured)
  }

  /** One collection of a cycle: skipped when empty, purged, or requeued at the front. */
  ghost function PurgeColumn(enums: map<string, Byte>, s: Sys, c: string, todo: seq<string>,
                             groups: map<string, seq<string>>, ok: bool): Sys {
    var docIDs := Group(groups, c);
    var s1 := s.(phase := AfterPurge(todo, groups));
    if docIDs == [] then s1
    else if ok then s1.(purged := s.purged + [Purge(c, docIDs)])
    else if c !in enums then s1
    else s1.(entries := Repacked(docIDs, enums[c]) + s.entries, captured := CaptureAll(s.captured, docIDs))
  }

  ghost function Exec(cfg: Config, s: Sys, actions: seq<Action>): Sys
    decreases |actions|
  {
    if actions == [] then s else Exec(cfg, Step(cfg, s, actions[0]), actions[1..])
  }

  // ---------- conservation ----------

  /** The packed IDs of the docIDs that parse. */
  ghost function Unpacked(docIDs: seq<string>): seq<UUID> {
    if docIDs == [] then []
    else (match Extract(docIDs[0]) case Ok(uuid) => [uuid] case Err(_) => []) + Unpacked(docIDs[1..])
  }

  ghost function PurgedUuids(purged: seq<Purge>, c: string): seq<UUID> {
    if purged == [] then []
    else (if purged[0].collection == c then Unpacked(purged[0].docIDs) else []) + PurgedUuids(purged[1..], c)
  }

  /** Drained IDs of c that the cycle has still to purge, once for every time it will do so. */
  ghost function PendingUuids(todo: seq<string>, groups: map<string, seq<string>>, c: string): seq<UUID> {
    if todo == [] then []
    else (if todo[0] == c then Unpacked(Group(groups, c)) else []) + PendingUuids(todo[1..], groups, c)
  }

  ghost function InFlight(phase: Phase, c: string): seq<UUID> {
    if phase.Purging? then PendingUuids(phase.todo, phase.groups, c) else []
  }

  /** What was accepted into a collection is what was purged, then what is in flight, then what is queued. */
  ghost predicate ConservedFor(cfg: Config, s: Sys, c: string) {
    Uuids(s.accepted, cfg.Registered().names, c)
    == PurgedUuids(s.purged, c) + InFlight(s.phase, c) + Uuids(s.entries, cfg.Registered().names, c)
  }

  ghost predicate Conserved(cfg: Config, s: Sys) {
    forall c :: ConservedFor(cfg, s, c)
  }

  ghost function Count(c: string, columns: seq<string>): nat {
    if columns == [] then 0 else (if columns[0] == c then 1 else 0) + Count(c, columns[1..])
  }

  /** The pruner visits every registered collection once. */
  ghost predicate EachOnce(cfg: Config) {
    forall c | c in cfg.Registered().enums :: Count(c, cfg.Columns()) == 1
  }

  /** What every reachable state keeps besides conservation. */
  ghost predicate Inv(cfg: Config, s: Sys) {
    && '-' !in Prefix(s.captured)
    && Conserved(cfg, s)
    && (s.phase.Purging? ==>
        && (forall c | c in cfg.Registered().enums :: Count(c, s.phase.todo) <= 1)
        && (forall c | Group(s.phase.groups, c) != [] :: c in cfg.Registered().enums))
  }

  // ---------- what the steps do to packed IDs ----------

  lemma {:induction false} UnpackedRestored(uuids: seq<UUID>, prefix: string)
    requires '-' !in prefix
    ensures Unpacked(Restored(uuids, prefix)) == uuids
  {
    if uuids != [] {
      ExtractOfRestore(prefix, uuids[0]);
      assert Restored(uuids, prefix)[1..] == Restored(uuids[1..], prefix);
      UnpackedRestored(uuids[1..], prefix);
    }
  }

  lemma {:induction false} UuidsOfRepacked(docIDs: seq<string>, names: map<Byte, string>, tag: Byte, c: string)
    requires tag in names
    ensures Uuids(Repacked(docIDs, tag), names, c) == if names[tag] == c then Unpacked(docIDs) else []
  {
    if docIDs != [] {
      UuidsOfRepacked(docIDs[1..], names, tag, c);
      match Extract(docIDs[0]) {
        case Ok(uuid) =>
          UuidsOfConcat([Entry(tag, uuid)], Repacked(docIDs[1..], tag), names, c);
          SingleUuid(Entry(tag, uuid), names, c);
        case Err(_) =>
          assert [] + Repacked(docIDs[1..], tag) == Repacked(docIDs[1..], tag);
      }
    }
  }

  lemma {:induction false} PurgedUuidsOfMore(purged: seq<Purge>, p: Purge, c: string)
    ensures PurgedUuids(purged + [p], c) == PurgedUuids(purged, c) + if p.collection == c then Unpacked(p.docIDs)
      else []
  {
    if purged == [] {
      assert [p][1..] == [];
    } else {
      assert (purged + [p])[1..] == purged[1..] + [p];
      PurgedUuidsOfMore(purged[1..], p, c);
    }
  }

  lemma {:induction false} PendingOnce(todo: seq<string>, groups: map<string, seq<string>>, c: string)
    ensures Count(c, todo) == 0 ==> PendingUuids(todo, groups, c) == []
    ensures Count(c, todo) == 1 ==> PendingUuids(todo, groups, c) == Unpacked(Group(groups, c))
    ensures Group(groups, c) == [] ==> PendingUuids(todo, groups, c) == []
  {
    if todo != [] {
      PendingOnce(todo[1..], groups, c);
    }
  }

  lemma {:induction false} UuidsOfUnregistered(es: seq<Entry>, r: Registry, c: string)
    requires r.Consistent() && c !in r.enums
    ensures Uuids(es, r.names, c) == []
  {
    if es != [] {
      UuidsOfUnregistered(es[1..], r, c);
    }
  }

  lemma {:induction false} MemberOfUuids(es: seq<Entry>, names: map<Byte, string>, c: string)
    requires Uuids(es, names, c) != []
    ensures exists e :: e in es && InCollection(e, names, c)
  {
    if InCollection(es[0], names, c) {
      assert es[0] in es;
    } else {
      MemberOfUuids(es[1..], names, c);
      var e :| e in es[1..] && InCollection(e, names, c);
      assert e in es;
    }
  }

  lemma GroupMapGroups(es: seq<Entry>, names: map<Byte, string>, prefix: string)
    ensures GroupsOf(GroupMap(es, names, prefix), es, names, prefix)
  {
    forall name ensures Group(GroupMap(es, names, prefix), name) == Restored(Uuids(es, names, name), prefix) {
      if Uuids(es, names, name) != [] {
        MemberOfUuids(es, names, name);
      }
    }
  }

  // ---------- every step keeps the invariant ----------

  lemma {:induction false} CaptureKeepsPlain(captured: Option<string>, docIDs: seq<string>)
    requires '-' !in Prefix(captured)
    ensures '-' !in Prefix(CaptureAll(captured, docIDs))
    decreases |docIDs|
  {
    if docIDs != [] {
      CaptureKeepsPlain(Capture(captured, docIDs[0]), docIDs[1..]);
    }
  }

  lemma PushKeeps(cfg: Config, s: Sys, collection: string, docID: string)
    requires Inv(cfg, s)
    ensures Inv(cfg, Step(cfg, s, Push(collection, docID)))
  {
    var r := cfg.Registered();
    var more := Pushed(r.enums, collection, docID);
    var s1 := Step(cfg, s, Push(collection, docID));
    forall c ensures ConservedFor(cfg, s1, c) {
      assert ConservedFor(cfg, s, c);
      UuidsOfConcat(s.accepted, more, r.names, c);
      UuidsOfConcat(s.entries, more, r.names, c);
    }
  }

  lemma UuidsSplit(es: seq<Entry>, n: nat, names: map<Byte, string>, c: string)
    requires n <= |es|
    ensures Uuids(es[..n], names, c) + Uuids(es[n..], names, c) == Uuids(es, names, c)
  {
    hide Uuids;
    assert es == es[..n] + es[n..];
    UuidsOfConcat(es[..n], es[n..], names, c);
  }

  /** What a cycle has to purge of c is what was drained of c. */
  lemma PendingOfDrained(cfg: Config, drained: seq<Entry>, prefix: string, c: string)
    requires ProperTags(cfg.known) && EachOnce(cfg) && '-' !in prefix
    ensures
      var r := cfg.Registered();
      var groups := GroupMap(drained, r.names, prefix);
      && PendingUuids(cfg.Columns(), groups, c) == Uuids(drained, r.names, c)
      && (Group(groups, c) != [] ==> c in r.enums)
  {
    var r := cfg.Registered();
    assert c in r.enums ==> Count(c, cfg.Columns()) == 1;
    hide Restored, RegistryOf, Unpacked, PendingUuids, EachOnce, Count;
    RegistryConsistent(cfg.collections, cfg.known);
    var uuids := Uuids(drained, r.names, c);
    UnpackedRestored(uuids, prefix);
    PendingOnce(cfg.Columns(), GroupMap(drained, r.names, prefix), c);
    GroupMapGroups(drained, r.names, prefix);
    assert Group(GroupMap(drained, r.names, prefix), c) == Restored(uuids, prefix);
    if c !in r.enums {
      UuidsOfUnregistered(drained, r, c);
    }
  }

  /** The part of Drain that removes entries: a queued prefix becomes the groups in flight. */
  lemma DrainedGoInFlight(cfg: Config, es: seq<Entry>, n: nat, prefix: string, c: string)
    requires ProperTags(cfg.known) && EachOnce(cfg) && '-' !in prefix && n <= |es|
    ensures
      var r := cfg.Registered();
      var groups := GroupMap(es[..n], r.names, prefix);
      && PendingUuids(cfg.Columns(), groups, c) + Uuids(es[n..], r.names, c) == Uuids(es, r.names, c)
      && (Group(groups, c) != [] ==> c in r.enums)
  {
    hide GroupMap, Uuids, PendingUuids, RegistryOf;
    PendingOfDrained(cfg, es[..n], prefix, c);
    UuidsSplit(es, n, cfg.Registered().names, c);
  }

  lemma Regroup<T>(p: seq<T>, u: seq<T>, f: seq<T>, q: seq<T>)
    ensures p + (u + f) + q == p + u + f + q
    ensures p + (u + []) + q == p + [] + (u + q)
    ensures p + ([] + f) + q == p + f + q
    ensures p + [] + (u + q) == p + u + q
  {
    assert [] + f == f && u + [] == u && p + [] == p;
  }

  lemma DrainKeepsOne(cfg: Config, s: Sys, n: nat, c: string)
    requires ProperTags(cfg.known) && EachOnce(cfg) && Inv(cfg, s) && s.phase.Measured? && n <= |s.entries|
    ensures
      var groups := GroupMap(s.entries[..n], cfg.Registered().names, Prefix(s.captured));
      && ConservedFor(cfg, s.(entries := s.entries[n..], phase := Purging(cfg.Columns(), groups)), c)
      && (Group(groups, c) != [] ==> c in cfg.Registered().enums)
  {
    assert ConservedFor(cfg, s, c);
    DrainedGoInFlight(cfg, s.entries, n, Prefix(s.captured), c);
    var names, groups := cfg.Registered().names, GroupMap(s.entries[..n], cfg.Registered().names, Prefix(s.captured));
    Regroup(PurgedUuids(s.purged, c), PendingUuids(cfg.Columns(), groups, c), [], Uuids(s.entries[n..], names, c));
  }

  lemma DrainKeeps(cfg: Config, s: Sys)
    requires ProperTags(cfg.known) && EachOnce(cfg) && Inv(cfg, s)
    ensures Inv(cfg, Step(cfg, s, Drain))
  {
    var s1 := Step(cfg, s, Drain);
    if s.phase.Measured? {
      var n := if s.phase.excess > |s.entries| then |s.entries| else s.phase.excess;
      if n == 0 {
        assert forall c :: ConservedFor(cfg, s, c) ==> ConservedFor(cfg, s1, c);
      } else {
        forall c ensures ConservedFor(cfg, s1, c) && (Group(s1.phase.groups, c) != [] ==> c in cfg.Registered().enums) {
          DrainKeepsOne(cfg, s, n, c);
        }
      }
    }
  }

  /** The share of the next collection in what is pending. */
  ghost function Head(phase: Phase, c: string): seq<UUID>
    requires phase.Purging? && phase.todo != []
  {
    if phase.todo[0] == c then Unpacked(Group(phase.groups, c)) else []
  }

  lemma PurgeColumnSuccess(cfg: Config, s: Sys, c: string)
    requires ConservedFor(cfg, s, c) && s.phase.Purging? && s.phase.todo != [] &&
      Group(s.phase.groups, s.phase.todo[0]) != []
    ensures ConservedFor(cfg, Step(cfg, s, PurgeNext(true)), c)
  {
    var own, todo, groups := s.phase.todo[0], s.phase.todo[1..], s.phase.groups;
    PurgedUuidsOfMore(s.purged, Purge(own, Group(groups, own)), c);
    Regroup(PurgedUuids(s.purged, c), Head(s.phase, c), PendingUuids(todo, groups, c),
      Uuids(s.entries, cfg.Registered().names, c));
  }

  lemma RequeuedUuids(cfg: Config, es: seq<Entry>, own: string, docIDs: seq<string>, c: string)
    requires ProperTags(cfg.known) && own in cfg.Registered().enums
    ensures Uuids(Repacked(docIDs, cfg.Registered().enums[own]) + es, cfg.Registered().names, c)
         == (if own == c then Unpacked(docIDs) else []) + Uuids(es, cfg.Registered().names, c)
  {
    var r := cfg.Registered();
    RegistryConsistent(cfg.collections, cfg.known);
    UuidsOfRepacked(docIDs, r.names, r.enums[own], c);
    UuidsOfConcat(Repacked(docIDs, r.enums[own]), es, r.names, c);
  }

  lemma PurgeColumnFailure(cfg: Config, s: Sys, c: string)
    requires ProperTags(cfg.known) && ConservedFor(cfg, s, c)
    requires s.phase.Purging? && s.phase.todo != [] && s.phase.todo[0] in cfg.Registered().enums
    requires Group(s.phase.groups, s.phase.todo[0]) != []
    requires s.phase.todo[0] == c ==> PendingUuids(s.phase.todo[1..], s.phase.groups, c) == []
    ensures ConservedFor(cfg, Step(cfg, s, PurgeNext(false)), c)
  {
    var own, todo, groups := s.phase.todo[0], s.phase.todo[1..], s.phase.groups;
    RequeuedUuids(cfg, s.entries, own, Group(groups, own), c);
    Regroup(PurgedUuids(s.purged, c), Head(s.phase, c), PendingUuids(todo, groups, c),
      Uuids(s.entries, cfg.Registered().names, c));
    assert [] + Uuids(s.entries, cfg.Registered().names, c) == Uuids(s.entries, cfg.Registered().names, c);
  }

  lemma PurgeKeepsOne(cfg: Config, s: Sys, ok: bool, c: string)
    requires ProperTags(cfg.known) && Inv(cfg, s) && s.phase.Purging? && s.phase.todo != []
    ensures ConservedFor(cfg, Step(cfg, s, PurgeNext(ok)), c)
  {
    assert ConservedFor(cfg, s, c);
    var own, todo, groups := s.phase.todo[0], s.phase.todo[1..], s.phase.groups;
    if Group(groups, own) == [] {
      Regroup(PurgedUuids(s.purged, c), [], PendingUuids(todo, groups, c), Uuids(s.entries, cfg.Registered().names, c));
    } else if ok {
      PurgeColumnSuccess(cfg, s, c);
    } else {
      PendingOnce(todo, groups, c);
      PurgeColumnFailure(cfg, s, c);
    }
  }

  lemma PurgeKeeps(cfg: Config, s: Sys, ok: bool)
    requires ProperTags(cfg.known) && Inv(cfg, s)
    ensures Inv(cfg, Step(cfg, s, PurgeNext(ok)))
  {
    if s.phase.Purging? && s.phase.todo != [] {
      CaptureKeepsPlain(s.captured, Group(s.phase.groups, s.phase.todo[0]));
      forall c ensures ConservedFor(cfg, Step(cfg, s, PurgeNext(ok)), c) {
        PurgeKeepsOne(cfg, s, ok, c);
      }
    }
  }

  lemma StepKeeps(cfg: Config, s: Sys, a: Action)
    requires ProperTags(cfg.known) && EachOnce(cfg) && Inv(cfg, s)
    ensures Inv(cfg, Step(cfg, s, a))
  {
    match a
    case Push(collection, docID) => PushKeeps(cfg, s, collection, docID);
    case Drain => DrainKeeps(cfg, s);
    case PurgeNext(ok) => PurgeKeeps(cfg, s, ok);
    case _ => assert forall c :: ConservedFor(cfg, s, c) ==> ConservedFor(cfg, Step(cfg, s, a), c);
  }

  lemma {:induction false} ExecKeeps(cfg: Config, s: Sys, actions: seq<Action>)
    requires ProperTags(cfg.known) && EachOnce(cfg) && Inv(cfg, s)
    ensures Inv(cfg, Exec(cfg, s, actions))
    decreases |actions|
  {
    if actions != [] {
      StepKeeps(cfg, s, actions[0]);
      ExecKeeps(cfg, Step(cfg, s, actions[0]), actions[1..]);
    }
  }

  /** No run loses, duplicates or reorders a document within its collection. */
  lemma RunsConserve(cfg: Config, actions: seq<Action>)
    requires ProperTags(cfg.known) && EachOnce(cfg)
    ensures Conserved(cfg, Exec(cfg, INIT, actions))
  {
    ExecKeeps(cfg, INIT, actions);
  }

  // ---------- the order of a cycle ----------

  /** What is still to be purged ends with the block collection, behind dependent collections as listed. */
  ghost predicate InOrder(cfg: Config, phase: Phase) {
    phase.Purging? ==>
      var todo, dependents := phase.todo, cfg.collections.dependentCollections;
      && 1 <= |todo| <= |dependents| + 1
      && todo[|todo| - 1] == cfg.collections.blockCollection
      && todo[..|todo| - 1] == dependents[|dependents| + 1 - |todo|..]
  }

  lemma StepKeepsOrder(cfg: Config, s: Sys, a: Action)
    requires InOrder(cfg, s.phase)
    ensures InOrder(cfg, Step(cfg, s, a).phase)
  {
    hide RegistryOf, GroupMap, Repacked;
    if s.phase.Purging? && |s.phase.todo| > 1 {
      var todo := s.phase.todo;
      assert todo[1..][..|todo| - 2] == todo[..|todo| - 1][1..];
    }
  }

  lemma {:induction false} ExecKeepsOrder(cfg: Config, s: Sys, actions: seq<Action>)
    requires InOrder(cfg, s.phase)
    ensures InOrder(cfg, Exec(cfg, s, actions).phase)
    decreases |actions|
  {
    hide InOrder, Step;
    if actions != [] {
      StepKeepsOrder(cfg, s, actions[0]);
      ExecKeepsOrder(cfg, Step(cfg, s, actions[0]), actions[1..]);
    }
  }

  /**
    In every run: a purge or requeue is that of the block collection exactly when it ends its cycle, and otherwise that
    of the next dependent collection as listed. So within a cycle no dependent collection comes after the blocks.
   */
  lemma BlocksArePurgedLast(cfg: Config, actions: seq<Action>, ok: bool)
    requires Exec(cfg, INIT, actions).phase.Purging?
    ensures
      var s := Exec(cfg, INIT, actions);
      var n, dependents := |s.phase.todo|, cfg.collections.dependentCollections;
      && 1 <= n <= |dependents| + 1
      && s.phase.todo[0] == (if n == 1 then cfg.collections.blockCollection else dependents[|dependents| + 1 - n])
      && (Step(cfg, s, PurgeNext(ok)).phase == if n == 1 then Idle else Purging(s.phase.todo[1..], s.phase.groups))
  {
    hide RegistryOf, GroupMap, Repacked, Exec;
    ExecKeepsOrder(cfg, INIT, actions) by { FirstIsInOrder(cfg); }
    var todo := Exec(cfg, INIT, actions).phase.todo;
    if |todo| > 1 {
      assert todo[0] == todo[..|todo| - 1][0];
    }
  }

  lemma FirstIsInOrder(cfg: Config)
    ensures InOrder(cfg, INIT.phase)
  {
  }

  // ---------- the condition is exact ----------

  lemma {:induction false} CountMember(c: string, columns: seq<string>)
    ensures Count(c, columns) > 0 <==> c in columns
  {
    if columns != [] {
      CountMember(c, columns[1..]);
      assert columns == [columns[0]] + columns[1..];
    }
  }

  function Failures(n: nat): seq<Action> {
    if n == 0 then [] else [PurgeNext(false)] + Failures(n - 1)
  }

  /** A cycle in which every purge fails requeues the one drained document of c at every visit of c. */
  lemma {:induction false} EveryPurgeFails(cfg: Config, s: Sys, c: string)
    requires ProperTags(cfg.known) && s.phase.Purging? && c in cfg.Registered().enums
    requires |Unpacked(Group(s.phase.groups, c))| == 1
    requires s.phase.todo != []
    ensures
      var s1 := Exec(cfg, s, Failures(|s.phase.todo|));
      && s1.phase == Idle && s1.purged == s.purged && s1.accepted == s.accepted
      && |Uuids(s1.entries, cfg.Registered().names, c)|
         == Count(c, s.phase.todo) + |Uuids(s.entries, cfg.Registered().names, c)|
    decreases |s.phase.todo|
  {
    var own := s.phase.todo[0];
    var s1 := Step(cfg, s, PurgeNext(false));
    FailuresFirst(cfg, s, |s.phase.todo|);
    if own in cfg.Registered().enums {
      RequeuedUuids(cfg, s.entries, own, Group(s.phase.groups, own), c);
    }
    if |s.phase.todo| > 1 {
      EveryPurgeFails(cfg, s1, c);
    }
  }

  lemma FailuresFirst(cfg: Config, s: Sys, n: nat)
    requires n > 0
    ensures Exec(cfg, s, Failures(n)) == Exec(cfg, Step(cfg, s, PurgeNext(false)), Failures(n - 1))
  {
    assert Failures(n)[1..] == Failures(n - 1);
  }

  lemma {:induction false} ExecConcat(cfg: Config, s: Sys, a: seq<Action>, b: seq<Action>)
    ensures Exec(cfg, s, a + b) == Exec(cfg, Exec(cfg, s, a), b)
    decreases |a|
  {
    if a == [] {
      assert a + b == b;
    } else {
      assert (a + b)[1..] == a[1..] + b;
      ExecConcat(cfg, Step(cfg, s, a[0]), a[1..], b);
    }
  }

  function Copies(e: Entry, n: nat): (es: seq<Entry>)
    ensures |es| == n && forall i | 0 <= i < n :: es[i] == e
  {
    seq(n, _ => e)
  }

  function Pushes(c: string, docID: string, n: nat): seq<Action> {
    if n == 0 then [] else Pushes(c, docID, n - 1) + [Push(c, docID)]
  }

  /** The queue after n pushes of one document, while nothing is purged. */
  ghost function Filled(e: Entry, n: nat): Sys {
    Sys(Copies(e, n), if n == 0 then None else Some(""), Idle, Copies(e, n), [])
  }

  lemma PushOne(cfg: Config, c: string, docID: string, e: Entry, n: nat)
    requires ProperTags(cfg.known) && c in cfg.Registered().enums && docID == RestoreDocID("", e.uuid) &&
      e.collection == cfg.Registered().enums[c]
    ensures Step(cfg, Filled(e, n), Push(c, docID)) == Filled(e, n + 1)
  {
    ExtractOfRestore("", e.uuid);
    FirstHyphen("", FormatUUID(e.uuid));
    assert "" + "-" + FormatUUID(e.uuid) == docID;
    assert Copies(e, n) + [e] == Copies(e, n + 1) && docID[..0] == "";
  }

  lemma {:induction false} PushMany(cfg: Config, c: string, docID: string, e: Entry, n: nat)
    requires ProperTags(cfg.known) && c in cfg.Registered().enums && docID == RestoreDocID("", e.uuid) &&
      e.collection == cfg.Registered().enums[c]
    ensures Exec(cfg, INIT, Pushes(c, docID, n)) == Filled(e, n)
  {
    if n == 0 {
      assert Copies(e, 0) == [];
    } else {
      hide RestoreDocID, Filled, Step;
      PushMany(cfg, c, docID, e, n - 1);
      PushOne(cfg, c, docID, e, n - 1);
      ExecConcat(cfg, INIT, Pushes(c, docID, n - 1), [Push(c, docID)]);
      LastStep(cfg, Filled(e, n - 1), Push(c, docID));
    }
  }

  lemma LastStep(cfg: Config, s: Sys, a: Action)
    ensures Exec(cfg, s, [a]) == Step(cfg, s, a)
  {
    assert [a][1..] == [];
  }

  lemma {:induction false} UuidsOfCopies(e: Entry, n: nat, names: map<Byte, string>, c: string)
    requires InCollection(e, names, c)
    ensures |Uuids(Copies(e, n), names, c)| == n
  {
    if n > 0 {
      assert Copies(e, n)[1..] == Copies(e, n - 1);
      UuidsOfCopies(e, n - 1, names, c);
    }
  }

  /** One document more than the queue may keep, or one at all when it may keep less than none. */
  function OneTooMany(maxDocs: int): (n: nat)
    ensures n > maxDocs && n > 0
  {
    if maxDocs < 0 then 1 else maxDocs + 1
  }

  /** The first of the documents is drained, and the rest stay queued. */
  lemma MeasureDrain(cfg: Config, e: Entry, n: nat) returns (s: Sys)
    requires n == OneTooMany(cfg.maxDocs)
    ensures s == Exec(cfg, Filled(e, n), [Measure, Drain])
    ensures s == Filled(e, n).(entries := Copies(e, n - 1),
      phase := Purging(cfg.Columns(), GroupMap([e], cfg.Registered().names, "")))
  {
    hide GroupMap, RegistryOf;
    var s1 := Step(cfg, Filled(e, n), Measure);
    s := Step(cfg, s1, Drain);
    assert [Measure, Drain][1..] == [Drain];
    LastStep(cfg, s1, Drain);
    assert Copies(e, n)[..1] == [e] && Copies(e, n)[1..] == Copies(e, n - 1);
  }

  lemma DrainedGroup(names: map<Byte, string>, e: Entry, c: string)
    requires InCollection(e, names, c)
    ensures |Unpacked(Group(GroupMap([e], names, ""), c))| == 1
  {
    hide GroupMap, Restored;
    SingleUuid(e, names, c);
    GroupMapGroups([e], names, "");
    UnpackedRestored([e.uuid], "");
    assert Group(GroupMap([e], names, ""), c) == Restored(Uuids([e], names, c), "");
  }

  function ZeroUUID(): UUID {
    seq(16, _ => 0 as Byte)
  }

  /**
    A registered collection listed twice: one document too many is pushed, one cycle has every purge fail, and the idle
    queue holds more than was accepted.
   */
  lemma ListedTwiceDuplicates(cfg: Config, c: string) returns (actions: seq<Action>)
    requires ProperTags(cfg.known) && c in cfg.Registered().enums && Count(c, cfg.Columns()) > 1
    ensures
      var s := Exec(cfg, INIT, actions);
      && s.phase == Idle && s.purged == []
      && |Uuids(s.accepted, cfg.Registered().names, c)| == OneTooMany(cfg.maxDocs)
      && |Uuids(s.entries, cfg.Registered().names, c)| == OneTooMany(cfg.maxDocs) - 1 + Count(c, cfg.Columns())
      && !ConservedFor(cfg, s, c)
  {
    var docID, n, names := RestoreDocID("", ZeroUUID()), OneTooMany(cfg.maxDocs), cfg.Registered().names;
    RegistryConsistent(cfg.collections, cfg.known);
    var e := Entry(cfg.Registered().enums[c], ZeroUUID());
    PushMany(cfg, c, docID, e, n);
    var pushes := Pushes(c, docID, n);
    var s := MeasureDrain(cfg, e, n);
    DrainedGroup(names, e, c);
    hide RestoreDocID, RegistryOf, GroupMap, Step, Copies, Pushes, ConservedFor;
    EveryPurgeFails(cfg, s, c);
    ExecConcat(cfg, INIT, pushes, [Measure, Drain]);
    ExecConcat(cfg, INIT, pushes + [Measure, Drain], Failures(|cfg.Columns()|));
    actions := pushes + [Measure, Drain] + Failures(|cfg.Columns()|);
    UuidsOfCopies(e, n, names, c);
    UuidsOfCopies(e, n - 1, names, c);
    MoreThanAccepted(cfg, Exec(cfg, INIT, actions), c);
  }

  lemma MoreThanAccepted(cfg: Config, s: Sys, c: string)
    requires s.phase == Idle &&
      |Uuids(s.entries, cfg.Registered().names, c)| > |Uuids(s.accepted, cfg.Registered().names, c)|
    ensures !ConservedFor(cfg, s, c)
  {
  }

  /** Every run of a pruner with this configuration conserves documents. */
  ghost predicate AllRunsConserve(cfg: Config) {
    forall actions :: Conserved(cfg, Exec(cfg, INIT, actions))
  }

  lemma EveryRegisteredIsListed(cfg: Config, c: string)
    requires ProperTags(cfg.known) && c in cfg.Registered().enums
    ensures Count(c, cfg.Columns()) >= 1
  {
    RegistryConsistent(cfg.collections, cfg.known);
    CountMember(c, cfg.Columns());
  }

  /** Whatever the maximum: all runs conserve exactly when no registered collection is listed twice. */
  lemma ConservesExactlyWhenListedOnce(cfg: Config)
    requires ProperTags(cfg.known)
    ensures AllRunsConserve(cfg) <==> EachOnce(cfg)
  {
    hide Exec, ConservedFor;
    if EachOnce(cfg) {
      forall actions ensures Conserved(cfg, Exec(cfg, INIT, actions)) {
        RunsConserve(cfg, actions);
      }
    } else {
      var c :| c in cfg.Registered().enums && Count(c, cfg.Columns()) != 1;
      EveryRegisteredIsListed(cfg, c);
      var actions := ListedTwiceDuplicates(cfg, c);
      assert !Conserved(cfg, Exec(cfg, INIT, actions));
    }
  }
}
