/** Whole runs again, on the texts of the document IDs: what is purged is what was pushed, letter by letter. */
module PrunedDocIDs {
  import opened Basics
  import opened Hex
  import opened DocIdCodec
  import opened EventQueueModel
  import opened PruneRuns

  /** Every docID pushed has the prefix p and the lower-case text form. */
  ghost predicate AllCanonical(actions: seq<Action>, p: string) {
    forall i | 0 <= i < |actions| && actions[i].Push? :: IsCanonicalDocID(actions[i].docID, p)
  }

  /** The docIDs pushed into a registered collection, in order. */
  ghost function PushedDocIDs(cfg: Config, actions: seq<Action>, c: string): seq<string>
    decreases |actions|
  {
    if actions == [] then []
    else
      (match actions[0]
       case Push(collection, docID) => if collection == c && c in cfg.Registered().enums then [docID] else []
       case _ => [])
      + PushedDocIDs(cfg, actions[1..], c)
  }

  ghost function PurgedDocIDs(purged: seq<Purge>, c: string): seq<string> {
    if purged == [] then []
    else (if purged[0].collection == c then purged[0].docIDs else []) + PurgedDocIDs(purged[1..], c)
  }

  ghost function PendingDocIDs(todo: seq<string>, groups: map<string, seq<string>>, c: string): seq<string> {
    if todo == [] then []
    else (if todo[0] == c then Group(groups, c) else []) + PendingDocIDs(todo[1..], groups, c)
  }

  ghost function InFlightDocIDs(phase: Phase, c: string): seq<string> {
    if phase.Purging? then PendingDocIDs(phase.todo, phase.groups, c) else []
  }

  /** These texts are what their packed form restores to. */
  ghost predicate Faithful(docIDs: seq<string>, p: string) {
    forall i | 0 <= i < |docIDs| :: Extract(docIDs[i]).Ok? && RestoreDocID(p, Extract(docIDs[i]).value) == docIDs[i]
  }

  lemma {:induction false} RestoredUnpacked(docIDs: seq<string>, p: string)
    requires Faithful(docIDs, p)
    ensures Restored(Unpacked(docIDs), p) == docIDs
  {
    if docIDs != [] {
      hide Extract, RestoreDocID;
      RestoredUnpacked(docIDs[1..], p);
      var uuid := Extract(docIDs[0]).value;
      RestoredConcat([uuid], Unpacked(docIDs[1..]), p);
      assert docIDs == [docIDs[0]] + docIDs[1..];
    }
  }

  lemma RestoredConcat(xs: seq<UUID>, ys: seq<UUID>, p: string)
    ensures Restored(xs + ys, p) == Restored(xs, p) + Restored(ys, p)
  {
  }

  lemma RestoredFaithful(uuids: seq<UUID>, p: string)
    requires '-' !in p
    ensures Faithful(Restored(uuids, p), p)
  {
    forall i | 0 <= i < |uuids| ensures Extract(Restored(uuids, p)[i]) == Ok(uuids[i]) {
      ExtractOfRestore(p, uuids[i]);
    }
  }

  /** While every docID is canonical under p, p is the prefix of everything that moves. */
  ghost predicate UnderPrefix(s: Sys, p: string) {
    && (s.captured == Some(p) || (s.captured == None && s.entries == [] && !s.phase.Purging?))
    && (forall i | 0 <= i < |s.purged| :: Faithful(s.purged[i].docIDs, p))
    && (s.phase.Purging? ==> forall c :: Faithful(Group(s.phase.groups, c), p))
  }

  lemma {:induction false} CaptureAllTaken(p: string, docIDs: seq<string>)
    ensures CaptureAll(Some(p), docIDs) == Some(p)
    decreases |docIDs|
  {
    if docIDs != [] {
      CaptureAllTaken(p, docIDs[1..]);
    }
  }

  lemma CanonicalIsTaken(docID: string, p: string, captured: Option<string>)
    requires '-' !in p && IsCanonicalDocID(docID, p) && (captured == None || captured == Some(p))
    ensures Capture(captured, docID) == Some(p)
    ensures Extract(docID).Ok? && RestoreDocID(p, Extract(docID).value) == docID
  {
    var t := docID[|p| + 1..];
    assert docID == p + "-" + t;
    FirstHyphen(p, t);
    ParseOfCanonical(t);
    RestoreOfExtract(docID, p);
  }

  lemma StepKeepsPrefix(cfg: Config, s: Sys, a: Action, p: string)
    requires '-' !in p && p != "" && UnderPrefix(s, p)
    requires a.Push? ==> IsCanonicalDocID(a.docID, p)
    ensures UnderPrefix(Step(cfg, s, a), p)
  {
    match a
    case Push(_, docID) => CanonicalIsTaken(docID, p, s.captured);
    case Measure =>
    case Drain => DrainKeepsPrefix(cfg, s, p);
    case PurgeNext(ok) =>
      if s.phase.Purging? && s.phase.todo != [] {
        CaptureAllTaken(p, Group(s.phase.groups, s.phase.todo[0]));
      }
    case Restart =>
  }

  lemma DrainKeepsPrefix(cfg: Config, s: Sys, p: string)
    requires '-' !in p && UnderPrefix(s, p)
    ensures UnderPrefix(Step(cfg, s, Drain), p)
  {
    var s1 := Step(cfg, s, Drain);
    if s.phase.Measured? && s1.phase.Purging? {
      var n := if s.phase.excess > |s.entries| then |s.entries| else s.phase.excess;
      var names := cfg.Registered().names;
      GroupMapGroups(s.entries[..n], names, p);
      forall c ensures Faithful(Group(s1.phase.groups, c), p) {
        RestoredFaithful(Uuids(s.entries[..n], names, c), p);
      }
    }
  }

  /** What a push adds to the texts of a collection. */
  lemma PushedTexts(cfg: Config, collection: string, docID: string, p: string, c: string)
    requires ProperTags(cfg.known) && Extract(docID).Ok? && RestoreDocID(p, Extract(docID).value) == docID
    ensures
      var r := cfg.Registered();
      Restored(Uuids(Pushed(r.enums, collection, docID), r.names, c), p)
      == if collection == c && c in r.enums then [docID] else []
  {
    hide Extract, RestoreDocID;
    RegistryConsistent(cfg.collections, cfg.known);
    var r := cfg.Registered();
    var more := Pushed(r.enums, collection, docID);
    if more != [] {
      SingleUuid(more[0], r.names, c);
    }
  }

  lemma StepAccepts(cfg: Config, s: Sys, a: Action, p: string, c: string)
    requires ProperTags(cfg.known) && '-' !in p
    requires a.Push? ==> IsCanonicalDocID(a.docID, p)
    ensures Restored(Uuids(Step(cfg, s, a).accepted, cfg.Registered().names, c), p)
         == Restored(Uuids(s.accepted, cfg.Registered().names, c), p) + PushedDocIDs(cfg, [a], c)
  {
    hide IsCanonicalDocID, Extract, RestoreDocID, Uuids, Restored;
    var r := cfg.Registered();
    assert [a][1..] == [] && PushedDocIDs(cfg, [], c) == [];
    if a.Push? {
      CanonicalIsTaken(a.docID, p, None);
      var more := Pushed(r.enums, a.collection, a.docID);
      PushedTexts(cfg, a.collection, a.docID, p, c);
      UuidsOfConcat(s.accepted, more, r.names, c);
      RestoredConcat(Uuids(s.accepted, r.names, c), Uuids(more, r.names, c), p);
    }
  }

  lemma {:induction false} ExecAccepts(cfg: Config, s: Sys, actions: seq<Action>, p: string, c: string)
    requires ProperTags(cfg.known) && '-' !in p && p != "" && UnderPrefix(s, p) && AllCanonical(actions, p)
    ensures UnderPrefix(Exec(cfg, s, actions), p)
    ensures Restored(Uuids(Exec(cfg, s, actions).accepted, cfg.Registered().names, c), p)
         == Restored(Uuids(s.accepted, cfg.Registered().names, c), p) + PushedDocIDs(cfg, actions, c)
    decreases |actions|
  {
    hide Step, UnderPrefix, IsCanonicalDocID, Uuids, Restored, ProperTags;
    if actions != [] {
      var a, rest := actions[0], actions[1..];
      StepKeepsPrefix(cfg, s, a, p);
      StepAccepts(cfg, s, a, p, c);
      assert AllCanonical(rest, p) by { assert forall i | 0 <= i < |rest| :: rest[i] == actions[i + 1]; }
      ExecAccepts(cfg, Step(cfg, s, a), rest, p, c);
      assert [a][1..] == [];
    }
  }

  lemma {:induction false} PurgedTexts(purged: seq<Purge>, p: string, c: string)
    requires forall i | 0 <= i < |purged| :: Faithful(purged[i].docIDs, p)
    ensures Restored(PurgedUuids(purged, c), p) == PurgedDocIDs(purged, c)
  {
    if purged != [] {
      PurgedTexts(purged[1..], p, c);
      var own := if purged[0].collection == c then Unpacked(purged[0].docIDs) else [];
      RestoredUnpacked(purged[0].docIDs, p);
      RestoredConcat(own, PurgedUuids(purged[1..], c), p);
    }
  }

  lemma {:induction false} PendingTexts(todo: seq<string>, groups: map<string, seq<string>>, p: string, c: string)
    requires Faithful(Group(groups, c), p)
    ensures Restored(PendingUuids(todo, groups, c), p) == PendingDocIDs(todo, groups, c)
  {
    if todo != [] {
      PendingTexts(todo[1..], groups, p, c);
      var own := if todo[0] == c then Unpacked(Group(groups, c)) else [];
      RestoredUnpacked(Group(groups, c), p);
      RestoredConcat(own, PendingUuids(todo[1..], groups, c), p);
    }
  }

  lemma StartsEmpty(names: map<Byte, string>, c: string, p: string)
    ensures UnderPrefix(INIT, p) && Restored(Uuids(INIT.accepted, names, c), p) == []
  {
  }

  /** In any run over canonical docIDs of one prefix, the docIDs pushed into a collection are, in
      order, those purged from it, then those in flight, then those queued. */
  lemma RunsConserveTexts(cfg: Config, actions: seq<Action>, p: string, c: string)
    requires ProperTags(cfg.known) && EachOnce(cfg)
    requires '-' !in p && p != "" && AllCanonical(actions, p)
    ensures
      var s := Exec(cfg, INIT, actions);
      PushedDocIDs(cfg, actions, c)
      == PurgedDocIDs(s.purged, c) + InFlightDocIDs(s.phase, c) +
        Restored(Uuids(s.entries, cfg.Registered().names, c), p)
  {
    hide Exec, Restored, Uuids, IsCanonicalDocID, ProperTags, EachOnce, PushedDocIDs;
    var s := Exec(cfg, INIT, actions);
    var names := cfg.Registered().names;
    StartsEmpty(names, c, p);
    RunsConserve(cfg, actions);
    assert ConservedFor(cfg, s, c);
    ExecAccepts(cfg, INIT, actions, p, c);
    PurgedTexts(s.purged, p, c);
    if s.phase.Purging? {
      PendingTexts(s.phase.todo, s.phase.groups, p, c);
    }
    RestoredConcat(PurgedUuids(s.purged, c), InFlight(s.phase, c), p);
    RestoredConcat(PurgedUuids(s.purged, c) + InFlight(s.phase, c), Uuids(s.entries, names, c), p);
  }
}
