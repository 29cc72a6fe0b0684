/** The pruner's cycle over the queue, as the steps of a run, and what a run does to docID texts. */
module PrunerModel {
  import opened Basics
  import opened Hex
  import opened DocIdCodec
  import opened EventQueueModel
  import opened PruneRuns

  ghost predicate SameGroups(a: map<string, seq<string>>, b: map<string, seq<string>>) {
    forall c :: Group(a, c) == Group(b, c)
  }

  ghost function PurgedCount(purged: seq<Purge>): nat {
    if purged == [] then 0 else |purged[0].docIDs| + PurgedCount(purged[1..])
  }

  lemma {:induction false} PurgedCountOfMore(purged: seq<Purge>, p: Purge)
    ensures PurgedCount(purged + [p]) == PurgedCount(purged) + |p.docIDs|
  {
    if purged == [] {
      assert [p][1..] == [];
    } else {
      assert (purged + [p])[1..] == purged[1..] + [p];
      PurgedCountOfMore(purged[1..], p);
    }
  }

  /** One purge of each of n columns, with these outcomes. */
  ghost function Purges(ok: nat -> bool, n: nat): seq<Action> {
    if n == 0 then [] else Purges(ok, n - 1) + [PurgeNext(ok(n - 1))]
  }

  lemma NextColumn(cfg: Config, s: Sys, ok: bool)
    requires s.phase.Purging? && s.phase.todo != []
    ensures Step(cfg, s, PurgeNext(ok)).phase ==
      if |s.phase.todo| == 1 then Idle else Purging(s.phase.todo[1..], s.phase.groups)
  {
  }

  /** The purges of the first n of some collections: of those that were drained from and whose purge succeeds. */
  ghost function PurgesOf(columns: seq<string>, groups: map<string, seq<string>>, ok: nat -> bool, n: nat): seq<Purge>
    requires n <= |columns|
  {
    if n == 0 then []
    else PurgesOf(columns, groups, ok, n - 1) + PurgeOf(columns[n - 1], groups, ok(n - 1))
  }

  ghost function PurgeOf(column: string, groups: map<string, seq<string>>, ok: bool): seq<Purge> {
    if ok && Group(groups, column) != [] then [Purge(column, Group(groups, column))] else []
  }

  /** What the failing purges of the first n put back at the front of the queue, the last one first. */
  ghost function RequeuedOf(enums: map<string, Byte>, columns: seq<string>, groups: map<string, seq<string>>,
                            ok: nat -> bool, n: nat): seq<Entry>
    requires n <= |columns|
  {
    if n == 0 then []
    else RequeueOf(enums, columns[n - 1], groups, ok(n - 1)) + RequeuedOf(enums, columns, groups, ok, n - 1)
  }

  ghost function RequeueOf(enums: map<string, Byte>, column: string, groups: map<string, seq<string>>,
                           ok: bool): seq<Entry> {
    if !ok && column in enums then Repacked(Group(groups, column), enums[column]) else []
  }

  /** Purges are made in the order of the list, each collection at its place. */
  lemma {:induction false} PurgesInOrder(columns: seq<string>, groups: map<string, seq<string>>, ok: nat -> bool,
      n: nat)
    requires n <= |columns|
    ensures |PurgesOf(columns, groups, ok, n)| <= n
    ensures forall p | p in PurgesOf(columns, groups, ok, n) ::
      exists i | 0 <= i < n :: p.collection == columns[i] && ok(i) && p.docIDs == Group(groups, columns[i])
    ensures n > 0 && ok(n - 1) && Group(groups, columns[n - 1]) != [] ==>
      var purges := PurgesOf(columns, groups, ok, n);
      purges != [] && purges[|purges| - 1].collection == columns[n - 1]
  {
    if n > 0 {
      PurgesInOrder(columns, groups, ok, n - 1);
    }
  }

  /** What one collection of a cycle adds to the purges and to the queue. */
  lemma ColumnDoes(cfg: Config, s: Sys, ok: bool)
    requires s.phase.Purging? && s.phase.todo != []
    ensures
      var t := Step(cfg, s, PurgeNext(ok));
      && t.purged == s.purged + PurgeOf(s.phase.todo[0], s.phase.groups, ok)
      && t.entries == RequeueOf(cfg.Registered().enums, s.phase.todo[0], s.phase.groups, ok) + s.entries
  {
    hide RegistryOf;
    assert s.purged + [] == s.purged;
    assert [] + s.entries == s.entries;
    assert Repacked([], 0) == [];
  }

  /** The first n dependent collections of a cycle are done. */
  ghost predicate Did(cfg: Config, groups: map<string, seq<string>>, ok: nat -> bool, s0: Sys, s: Sys, n: nat)
    requires n <= |cfg.collections.dependentCollections|
  {
    var dependents := cfg.collections.dependentCollections;
    && s.purged == s0.purged + PurgesOf(dependents, groups, ok, n)
    && s.entries == RequeuedOf(cfg.Registered().enums, dependents, groups, ok, n) + s0.entries
  }

  lemma DidNone(cfg: Config, groups: map<string, seq<string>>, ok: nat -> bool, s0: Sys)
    ensures Did(cfg, groups, ok, s0, s0, 0)
  {
    hide RegistryOf;
    assert s0.purged + [] == s0.purged && [] + s0.entries == s0.entries;
  }

  lemma DidOneMore(cfg: Config, groups: map<string, seq<string>>, ok: nat -> bool, s0: Sys, s: Sys, n: nat)
    requires n < |cfg.collections.dependentCollections| && Did(cfg, groups, ok, s0, s, n)
    requires s.phase.Purging? && s.phase.groups == groups && s.phase.todo != []
    requires s.phase.todo[0] == cfg.collections.dependentCollections[n]
    ensures Did(cfg, groups, ok, s0, Step(cfg, s, PurgeNext(ok(n))), n + 1)
  {
    hide Step, RegistryOf, PurgeOf, RequeueOf;
    ColumnDoes(cfg, s, ok(n));
  }

  class Pruner {
    const cfg: Config
    const queue: EventQueue
    var totalDocsPruned: int

    /** The host makes the queue from the pruner's own collection configuration. */
    constructor (cfg: Config, queue: EventQueue)
      requires cfg.known == KNOWN_COLLECTIONS && queue.Valid() &&
        queue.Tables() == RegistryOf(cfg.collections, KNOWN_COLLECTIONS)
      ensures Valid()
      ensures this.cfg == cfg && this.queue == queue && totalDocsPruned == 0
    {
      this.cfg, this.queue, totalDocsPruned := cfg, queue, 0;
    }

    ghost predicate Valid()
      reads this, queue, queue.codec
    {
      && queue.Valid()
      && cfg.known == KNOWN_COLLECTIONS
      && Registry(queue.collectionNames, queue.collectionEnums) == cfg.Registered()
    }

    /**
      A cycle adds to the purges those of the dependent collections as listed and then that of the block collection, and
      puts what fails at the front of the queue, so that the blocks come first and then the last dependent collection.
     */
    ghost predicate CycleDoes(groups: map<string, seq<string>>, ok: nat -> bool, purgedBefore: seq<Purge>,
                              purged: seq<Purge>, queuedBefore: seq<Entry>, queued: seq<Entry>)
    {
      var dependents, blocks := cfg.collections.dependentCollections, cfg.collections.blockCollection;
      var enums, n := cfg.Registered().enums, |dependents|;
      && purged == purgedBefore + PurgesOf(dependents, groups, ok, n) + PurgeOf(blocks, groups, ok(n))
      && queued == RequeueOf(enums, blocks, groups, ok(n)) + RequeuedOf(enums, dependents, groups, ok, n) + queuedBefore
    }

    lemma CycleEnds(s0: Sys, s: Sys, ok: nat -> bool)
      requires s0.phase.Purging? && s.phase.Purging?
      requires s.phase == Purging([cfg.collections.blockCollection], s0.phase.groups)
      requires Did(cfg, s0.phase.groups, ok, s0, s, |cfg.collections.dependentCollections|)
      ensures
        var t := Step(cfg, s, PurgeNext(ok(|cfg.collections.dependentCollections|)));
        CycleDoes(s0.phase.groups, ok, s0.purged, t.purged, s0.entries, t.entries)
    {
      hide Step, RegistryOf, PurgeOf, RequeueOf, PurgesOf, RequeuedOf;
      ColumnDoes(cfg, s, ok(|cfg.collections.dependentCollections|));
    }

    ghost function State(phase: Phase, purged: seq<Purge>): Sys
      reads queue, queue.codec
    {
      Sys(queue.entries, queue.codec.Taken(), phase, [], purged)
    }

    /** One collection: purge it, or put it back at the front of the queue when the purge fails. */
    method PurgeColumn(colName: string, result: DrainResult, ok: bool, ghost s: Sys) returns (ghost s1: Sys)
      requires Valid()
      requires s == State(s.phase, s.purged) && s.phase.Purging? && s.phase.todo != [] && s.phase.todo[0] == colName
      requires SameGroups(result.docIDsByCollection, s.phase.groups)
      modifies this`totalDocsPruned, queue`entries, queue`blockCount, queue.codec
      ensures Valid()
      ensures s1 == Step(cfg, s, PurgeNext(ok)) && s1 == State(s1.phase, s1.purged)
      ensures totalDocsPruned - PurgedCount(s1.purged) == old(totalDocsPruned) - PurgedCount(s.purged)
    {
      s1 := Step(cfg, s, PurgeNext(ok));
      var docIDs := Group(result.docIDsByCollection, colName);
      assert docIDs == Group(s.phase.groups, colName);
      if |docIDs| == 0 {
        return;
      }
      if ok {
        PurgedCountOfMore(s.purged, Purge(colName, docIDs));
        totalDocsPruned := totalDocsPruned + |docIDs|;
      } else {
        queue.Requeue(colName, docIDs);
      }
    }

    /** Dependent collections first, the block collection last. ok tells which purges succeed. */
    method PurgeFromDrainResult(result: DrainResult, ok: nat -> bool, ghost s0: Sys)
        returns (ghost actions: seq<Action>, ghost s: Sys)
      requires Valid() && s0.phase.Purging? && s0 == State(Purging(cfg.Columns(), s0.phase.groups), s0.purged)
      requires SameGroups(result.docIDsByCollection, s0.phase.groups)
      modifies this`totalDocsPruned, queue`entries, queue`blockCount, queue.codec
      ensures Valid()
      ensures actions == Purges(ok, |cfg.Columns()|)
      ensures s == Exec(cfg, s0, actions) && s == State(Idle, s.purged)
      ensures totalDocsPruned - PurgedCount(s.purged) == old(totalDocsPruned) - PurgedCount(s0.purged)
      ensures CycleDoes(s0.phase.groups, ok, s0.purged, s.purged, old(queue.entries), queue.entries)
    {
      hide Step, SameGroups, PurgedCount, RegistryOf, PurgeOf, RequeueOf, PurgesOf, RequeuedOf, Did;
      actions, s := [], s0;
      var dependents := cfg.collections.dependentCollections;
      DidNone(cfg, s0.phase.groups, ok, s0);
      for i := 0 to |dependents|
        invariant Valid()
        invariant actions == Purges(ok, i)
        invariant s == Exec(cfg, s0, actions) && s == State(Purging(cfg.Columns()[i..], s0.phase.groups), s.purged)
        invariant totalDocsPruned - PurgedCount(s.purged) == old(totalDocsPruned) - PurgedCount(s0.purged)
        invariant Did(cfg, s0.phase.groups, ok, s0, s, i)
      {
        OneMore(cfg, s0, actions, PurgeNext(ok(i)));
        assert cfg.Columns()[i..][0] == dependents[i] && cfg.Columns()[i..][1..] == cfg.Columns()[i + 1..];
        NextColumn(cfg, s, ok(i));
        DidOneMore(cfg, s0.phase.groups, ok, s0, s, i);
        s := PurgeColumn(dependents[i], result, ok(i), s);
        actions := actions + [PurgeNext(ok(i))];
      }
      ghost var last := PurgeNext(ok(|dependents|));
      OneMore(cfg, s0, actions, last);
      assert cfg.Columns()[|dependents|..] == [cfg.collections.blockCollection];
      NextColumn(cfg, s, ok(|dependents|));
      CycleEnds(s0, s, ok);
      s := PurgeColumn(cfg.collections.blockCollection, result, ok(|dependents|), s);
      actions := actions + [last];
    }

    /** A whole cycle, when no push comes between its steps, is a run of the model from the state the
        queue was in: nothing up to the maximum, and above it a measurement, a drain and one purge of
        every column. So everything proved of runs holds of it. */
    method RunEventQueuePrune(ok: nat -> bool) returns (ghost actions: seq<Action>, ghost s: Sys)
      requires Valid()
      modifies this`totalDocsPruned, queue`entries, queue`blockCount, queue.codec
      ensures Valid()
      ensures |old(queue.entries)| <= cfg.maxDocs ==> actions == []
      ensures old(queue.entries) != [] && |old(queue.entries)| > cfg.maxDocs ==>
        actions == [Measure, Drain] + Purges(ok, |cfg.Columns()|)
      ensures s == Exec(cfg, old(State(Idle, [])), actions) && s == State(Idle, s.purged)
      ensures totalDocsPruned == old(totalDocsPruned) + PurgedCount(s.purged)
      ensures |old(queue.entries)| <= cfg.maxDocs ==> queue.entries == old(queue.entries) && s.purged == []
      ensures old(queue.entries) != [] && |old(queue.entries)| > cfg.maxDocs ==>
        var all := old(queue.entries);
        var excess := if cfg.maxDocs < 0 then |all| else |all| - cfg.maxDocs;
        exists groups ::
          && GroupsOf(groups, all[..excess], old(queue.collectionNames), old(queue.codec.prefix))
          && CycleDoes(groups, ok, [], s.purged, all[excess..], queue.entries)
    {
      ghost var start := State(Idle, []);
      var totalDocs := queue.Len();
      if totalDocs <= cfg.maxDocs {
        return [], start;
      }
      var excess := totalDocs - cfg.maxDocs;
      var result := queue.DrainDocs(excess);
      s := Exec(cfg, start, [Measure, Drain]);
      if result == None {
        TwoSteps(cfg, start, Measure, Drain);
        return [Measure, Drain], s;
      }
      DrainIsTwoSteps(cfg, start, result.value.docIDsByCollection);
      ghost var rest: seq<Action>;
      rest, s := PurgeFromDrainResult(result.value, ok, s);
      ExecConcat(cfg, start, [Measure, Drain], rest);
      actions := [Measure, Drain] + rest;
    }
  }

  lemma DrainIsTwoSteps(cfg: Config, s: Sys, groups: map<string, seq<string>>)
    requires s.phase == Idle && s.entries != [] && |s.entries| > cfg.maxDocs
    requires
      var excess := |s.entries| - cfg.maxDocs;
      var n := if excess > |s.entries| then |s.entries| else excess;
      GroupsOf(groups, s.entries[..n], cfg.Registered().names, Prefix(s.captured))
    ensures
      var excess := |s.entries| - cfg.maxDocs;
      var n := if excess > |s.entries| then |s.entries| else excess;
      var s1 := Exec(cfg, s, [Measure, Drain]);
      && s1.phase.Purging? && s1 == s.(entries := s.entries[n..], phase := Purging(cfg.Columns(), s1.phase.groups))
      && SameGroups(groups, s1.phase.groups)
  {
    var excess := |s.entries| - cfg.maxDocs;
    var n := if excess > |s.entries| then |s.entries| else excess;
    hide Exec, GroupMap, Restored, Uuids, RegistryOf;
    TwoSteps(cfg, s, Measure, Drain);
    GroupMapGroups(s.entries[..n], cfg.Registered().names, Prefix(s.captured));
  }

  lemma OneMore(cfg: Config, s: Sys, actions: seq<Action>, a: Action)
    ensures Exec(cfg, s, actions + [a]) == Step(cfg, Exec(cfg, s, actions), a)
  {
    ExecConcat(cfg, s, actions, [a]);
    OneStep(cfg, Exec(cfg, s, actions), a);
  }

  lemma OneStep(cfg: Config, s: Sys, a: Action)
    ensures Exec(cfg, s, [a]) == Step(cfg, s, a)
  {
    assert [a][1..] == [];
  }

  lemma TwoSteps(cfg: Config, s: Sys, a: Action, b: Action)
    ensures Exec(cfg, s, [a, b]) == Step(cfg, Step(cfg, s, a), b)
  {
    assert [a, b][1..] == [b];
    OneStep(cfg, Step(cfg, s, a), b);
  }
}
