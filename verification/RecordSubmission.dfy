/**
  Background submission of service records: a semaphore of 64 slots, a wait group, and Drain.

  A record takes a slot in the request handler, is counted by the wait group when its goroutine
  starts, is posted (or fails, or panics and recovers), gives its slot back, and is uncounted last.
 */
module RecordSubmission {
  import opened Basics

  const RECORD_CONCURRENCY: nat := 64

  datatype Stage = Blocked | HasSlot | Running | Posted | SlotFreed | Finished

  /** A call of Drain: the records counted when it began, and whether Wait has been released. */
  datatype DrainCall = DrainCall(earlier: set<nat>, released: bool, returned: bool)

  datatype Sys = Sys(records: map<nat, Stage>, slots: nat, counter: nat, drains: map<nat, DrainCall>)

  datatype Action =
    | Submit(id: nat)
    | TakeSlot(id: nat)
    | Start(id: nat)
    | Post(id: nat)
    | FreeSlot(id: nat)
    | Finish(id: nat)
    | BeginDrain(d: nat)
    | ReturnDrain(d: nat)

  const INIT: Sys := Sys(map[], 0, 0, map[])

  predicate HoldsSlot(stage: Stage) {
    stage.HasSlot? || stage.Running? || stage.Posted?
  }

  predicate IsCounted(stage: Stage) {
    stage.Running? || stage.Posted? || stage.SlotFreed?
  }

  ghost function Holders(records: map<nat, Stage>): set<nat> {
    set id | id in records && HoldsSlot(records[id])
  }

  ghost function Counted(records: map<nat, Stage>): set<nat> {
    set id | id in records && IsCounted(records[id])
  }

  ghost function Move(s: Sys, id: nat, from: Stage, to: Stage): Sys {
    if id in s.records && s.records[id] == from then s.(records := s.records[id := to]) else s
  }

  /** The wait group releases its waiters whenever its counter stands at zero. */
  ghost function Release(s: Sys): Sys {
    if s.counter == 0 then s.(drains := map d | d in s.drains :: s.drains[d].(released := true)) else s
  }

  ghost function Step(s: Sys, a: Action): Sys {
    match a
    case Submit(id) => if id in s.records then s else s.(records := s.records[id := Blocked])
    case TakeSlot(id) =>
      if s.slots < RECORD_CONCURRENCY && Move(s, id, Blocked, HasSlot) != s
      then Move(s, id, Blocked, HasSlot).(slots := s.slots + 1) else s
    case Start(id) =>
      if Move(s, id, HasSlot, Running) != s then Move(s, id, HasSlot, Running).(counter := s.counter + 1) else s
    case Post(id) => Move(s, id, Running, Posted)
    case FreeSlot(id) =>
      if Move(s, id, Posted, SlotFreed) != s && s.slots > 0
      then Move(s, id, Posted, SlotFreed).(slots := s.slots - 1) else s
    case Finish(id) =>
      if Move(s, id, SlotFreed, Finished) != s && s.counter > 0
      then Release(Move(s, id, SlotFreed, Finished).(counter := s.counter - 1)) else s
    case BeginDrain(d) =>
      if d in s.drains then s else Release(s.(drains := s.drains[d := DrainCall(Counted(s.records), false, false)]))
    case ReturnDrain(d) =>
      if d in s.drains && s.drains[d].released then s.(drains := s.drains[d := s.drains[d].(returned := true)]) else s
  }

  ghost function Exec(s: Sys, actions: seq<Action>): Sys
    decreases |actions|
  {
    if actions == [] then s else Exec(Step(s, actions[0]), actions[1..])
  }

  /** Records counted when a drain began are counted still or finished; all are finished once it is released. */
  ghost predicate DrainInv(s: Sys, d: nat) {
    d in s.drains ==>
      && (s.drains[d].returned ==> s.drains[d].released)
      && (forall id | id in s.drains[d].earlier ::
        id in s.records && (IsCounted(s.records[id]) || s.records[id].Finished?))
      && (s.drains[d].released ==> forall id | id in s.drains[d].earlier :: s.records[id].Finished?)
  }

  ghost predicate Counts(s: Sys) {
    && s.slots == |Holders(s.records)| && s.slots <= RECORD_CONCURRENCY
    && s.counter == |Counted(s.records)|
  }

  ghost predicate Inv(s: Sys) {
    Counts(s) && forall d :: DrainInv(s, d)
  }

  lemma SetsAfterUpdate(records: map<nat, Stage>, id: nat, stage: Stage)
    ensures Holders(records[id := stage]) == if HoldsSlot(stage) then Holders(records) + {id}
      else Holders(records) - {id}
    ensures Counted(records[id := stage]) == if IsCounted(stage) then Counted(records) + {id}
      else Counted(records) - {id}
  {
  }

  /** One record moves from one stage to another. */
  lemma CountsAfterUpdate(s: Sys, id: nat, stage: Stage)
    requires Counts(s)
    ensures
      var was := id in s.records && HoldsSlot(s.records[id]);
      |Holders(s.records[id := stage])| - s.slots == (if HoldsSlot(stage) then 1 else 0) - (if was then 1 else 0)
    ensures
      var was := id in s.records && IsCounted(s.records[id]);
      |Counted(s.records[id := stage])| - s.counter == (if IsCounted(stage) then 1 else 0) - (if was then 1 else 0)
  {
    SetsAfterUpdate(s.records, id, stage);
    assert id in Holders(s.records) <==> id in s.records && HoldsSlot(s.records[id]);
    assert id in Counted(s.records) <==> id in s.records && IsCounted(s.records[id]);
    hide Holders, Counted;
    SizeAfter(Holders(s.records), id);
    SizeAfter(Counted(s.records), id);
  }

  lemma SizeAfter(ids: set<nat>, id: nat)
    ensures |ids + {id}| == |ids| + if id in ids then 0 else 1
    ensures |ids - {id}| == |ids| - if id in ids then 1 else 0
  {
    if id in ids {
      assert ids + {id} == ids;
    } else {
      assert ids - {id} == ids;
    }
  }

  lemma CountsKeep(s: Sys, a: Action)
    requires Counts(s)
    ensures Counts(Step(s, a))
  {
    match a
    case Submit(id) => CountsAfterUpdate(s, id, Blocked);
    case TakeSlot(id) => CountsAfterUpdate(s, id, HasSlot);
    case Start(id) => CountsAfterUpdate(s, id, Running);
    case Post(id) => CountsAfterUpdate(s, id, Posted);
    case FreeSlot(id) => CountsAfterUpdate(s, id, SlotFreed);
    case Finish(id) => CountsAfterUpdate(s, id, Finished);
    case _ =>
  }

  lemma NoneCounted(records: map<nat, Stage>, id: nat)
    requires |Counted(records)| == 0 && id in records
    ensures !IsCounted(records[id])
  {
    assert id !in Counted(records);
  }

  lemma ReleaseKeeps(s: Sys, d: nat)
    requires Counts(s) && DrainInv(s, d)
    ensures DrainInv(Release(s), d)
  {
    if s.counter == 0 && d in s.drains {
      forall id | id in s.drains[d].earlier ensures s.records[id].Finished? {
        NoneCounted(s.records, id);
      }
    }
  }

  lemma DrainKeeps(s: Sys, a: Action, d: nat)
    requires Inv(s)
    ensures DrainInv(Step(s, a), d)
  {
    assert DrainInv(s, d);
    CountsKeep(s, a);
    match a
    case Finish(id) =>
      var s1 := Move(s, id, SlotFreed, Finished).(counter := if s.counter > 0 then s.counter - 1 else 0);
      if Step(s, a) != s {
        CountsAfterUpdate(s, id, Finished);
        assert Counts(s1);
        ReleaseKeeps(s1, d);
      }
    case BeginDrain(d1) =>
      if d1 !in s.drains {
        ReleaseKeeps(s.(drains := s.drains[d1 := DrainCall(Counted(s.records), false, false)]), d);
      }
    case _ =>
  }

  lemma {:induction false} ExecKeeps(s: Sys, actions: seq<Action>)
    requires Inv(s)
    ensures Inv(Exec(s, actions))
    decreases |actions|
  {
    if actions != [] {
      var s1 := Step(s, actions[0]);
      CountsKeep(s, actions[0]);
      forall d ensures DrainInv(s1, d) {
        DrainKeeps(s, actions[0], d);
      }
      ExecKeeps(s1, actions[1..]);
    }
  }

  /** In every run at most 64 records hold a slot, and the two counters count what they stand for. */
  lemma AtMost64HoldSlots(actions: seq<Action>)
    ensures
      var s := Exec(INIT, actions);
      && |Holders(s.records)| == s.slots <= 64
      && |Counted(s.records)| == s.counter
  {
    ExecKeeps(INIT, actions);
  }

  /** In every run a record that waits gets a slot exactly when fewer than 64 records hold one. */
  lemma SlotIsFreeExactly(actions: seq<Action>, id: nat)
    requires id in Exec(INIT, actions).records && Exec(INIT, actions).records[id].Blocked?
    ensures
      var s := Exec(INIT, actions);
      var t := Step(s, TakeSlot(id));
      id in t.records && (HoldsSlot(t.records[id]) <==> |Holders(s.records)| < 64)
  {
    ExecKeeps(INIT, actions);
    var s := Exec(INIT, actions);
    if s.slots < RECORD_CONCURRENCY {
      assert Move(s, id, Blocked, HasSlot).records[id] == HasSlot;
    }
  }

  /** In every run, a Drain that returned by completion left no record unfinished that had started
      before it was called. */
  lemma DrainLeavesNoneUnfinished(actions: seq<Action>, d: nat)
    ensures
      var s := Exec(INIT, actions);
      d in s.drains && s.drains[d].returned ==>
        forall id | id in s.drains[d].earlier :: id in s.records && s.records[id].Finished?
  {
    ExecKeeps(INIT, actions);
    assert DrainInv(Exec(INIT, actions), d);
  }

  // ---------- records that a drain misses ----------

  lemma {:induction false} ExecConcat(s: Sys, first: seq<Action>, rest: seq<Action>)
    ensures Exec(s, first + rest) == Exec(Exec(s, first), rest)
    decreases |first|
  {
    hide Step;
    if first == [] {
      assert first + rest == rest;
    } else {
      assert (first + rest)[1..] == first[1..] + rest;
      ExecConcat(Step(s, first[0]), first[1..], rest);
    }
  }

  lemma OneStep(s: Sys, a: Action)
    ensures Exec(s, [a]) == Step(s, a)
  {
    assert [a][1..] == [];
  }

  /** A counted record can take its next step, and no other record is touched. */
  lemma CountedMoves(s: Sys, id: nat) returns (a: Action)
    requires Counts(s) && id in s.records && IsCounted(s.records[id])
    ensures
      var t := Step(s, a);
      && Counts(t) && t.drains.Keys == s.drains.Keys
      && t.records ==
        s.records[id := if s.records[id].Running? then Posted else if s.records[id].Posted? then SlotFreed
        else Finished]
      && (s.records[id].SlotFreed? && t.counter == 0 ==> forall d | d in t.drains :: t.drains[d].released)
  {
    assert id in Counted(s.records);
    assert s.records[id].Posted? ==> id in Holders(s.records);
    a := if s.records[id].Running? then Post(id) else if s.records[id].Posted? then FreeSlot(id) else Finish(id);
    CountsKeep(s, a);
    hide Counts;
  }

  /** So it can be finished. */
  lemma {:induction false} CountedFinishes(s: Sys, id: nat) returns (run: seq<Action>)
    requires Counts(s) && id in s.records && IsCounted(s.records[id])
    ensures
      var t := Exec(s, run);
      && Counts(t) && t.drains.Keys == s.drains.Keys && t.records == s.records[id := Finished]
      && (t.counter == 0 ==> forall d | d in t.drains :: t.drains[d].released)
    decreases if s.records[id].Running? then 2 else if s.records[id].Posted? then 1 else 0
  {
    hide Counts, Step, Release;
    var a := CountedMoves(s, id);
    OneStep(s, a);
    run := [a];
    if !s.records[id].SlotFreed? {
      var rest := CountedFinishes(Step(s, a), id);
      ExecConcat(s, [a], rest);
      run := [a] + rest;
    }
  }

  /** A record that holds a slot or is counted can be finished, and no other is touched. */
  lemma StartedFinishes(s: Sys, id: nat) returns (run: seq<Action>)
    requires Counts(s) && id in s.records && !s.records[id].Blocked? && !s.records[id].Finished?
    ensures Counts(Exec(s, run)) && Exec(s, run).records == s.records[id := Finished]
  {
    if s.records[id].HasSlot? {
      var t := Step(s, Start(id));
      CountsKeep(s, Start(id));
      assert Move(s, id, HasSlot, Running).records[id] == Running;
      OneStep(s, Start(id));
      var rest := CountedFinishes(t, id);
      ExecConcat(s, [Start(id)], rest);
      run := [Start(id)] + rest;
      assert t.records[id := Finished] == s.records[id := Finished];
    } else {
      run := CountedFinishes(s, id);
    }
  }

  lemma BlockedTakesSlot(s: Sys, id: nat)
    requires Counts(s) && s.slots < RECORD_CONCURRENCY && id in s.records && s.records[id].Blocked?
    ensures
      var t := Exec(s, [TakeSlot(id)]);
      Counts(t) && t.records == s.records[id := HasSlot]
  {
    OneStep(s, TakeSlot(id));
    CountsKeep(s, TakeSlot(id));
    assert Move(s, id, Blocked, HasSlot).records[id] == HasSlot;
  }

  lemma HolderExists(s: Sys) returns (id: nat)
    requires Counts(s) && s.slots > 0
    ensures id in s.records && HoldsSlot(s.records[id])
  {
    var held :| held in Holders(s.records);
    id := held;
  }

  lemma BlockedFinishes(s: Sys, id: nat) returns (run: seq<Action>)
    requires Counts(s) && s.slots < RECORD_CONCURRENCY && id in s.records && s.records[id].Blocked?
    ensures id in Exec(s, run).records && Exec(s, run).records[id].Finished?
  {
    hide Counts, Step, Exec;
    BlockedTakesSlot(s, id);
    var t := Exec(s, [TakeSlot(id)]);
    var rest := StartedFinishes(t, id);
    ExecConcat(s, [TakeSlot(id)], rest);
    run := [TakeSlot(id)] + rest;
  }

  lemma FreedSlot(s: Sys, holder: nat, t: Sys)
    requires Counts(s) && Counts(t) && holder in s.records && HoldsSlot(s.records[holder])
    requires t.records == s.records[holder := Finished]
    ensures t.slots < RECORD_CONCURRENCY
  {
    SetsAfterUpdate(s.records, holder, Finished);
    assert holder in Holders(s.records);
    SizeAfter(Holders(s.records), holder);
  }

  /** No record waits for ever: after every run each submitted record can still be finished. */
  lemma EveryRecordCanFinish(past: seq<Action>, id: nat) returns (run: seq<Action>)
    requires id in Exec(INIT, past).records
    ensures id in Exec(INIT, past + run).records && Exec(INIT, past + run).records[id].Finished?
  {
    var s := Exec(INIT, past);
    ExecKeeps(INIT, past);
    hide Exec, Step, Counts;
    if s.records[id].Finished? {
      run := [];
      assert past + [] == past;
    } else {
      if !s.records[id].Blocked? {
        run := StartedFinishes(s, id);
      } else if s.slots < RECORD_CONCURRENCY {
        run := BlockedFinishes(s, id);
      } else {
        var holder := HolderExists(s);
        var first := StartedFinishes(s, holder);
        FreedSlot(s, holder, Exec(s, first));
        var rest := BlockedFinishes(Exec(s, first), id);
        ExecConcat(s, first, rest);
        run := first + rest;
      }
      ExecConcat(INIT, past, run);
    }
  }

  /** The bound is reached: up to 64 submitted records can hold a slot at once. */
  lemma {:induction false} ManyHold(n: nat) returns (run: seq<Action>)
    requires n <= 64
    ensures
      var s := Exec(INIT, run);
      && Counts(s) && |Holders(s.records)| == n && forall id: nat | id >= n :: id !in s.records
  {
    if n == 0 {
      run := [];
      assert Holders(INIT.records) == {} && Counted(INIT.records) == {};
    } else {
      hide Counts, Exec, Step, Holders;
      var first := ManyHold(n - 1);
      var s := Exec(INIT, first);
      OneMoreSubmitted(s, n - 1);
      var t := Exec(s, [Submit(n - 1)]);
      BlockedTakesSlot(t, n - 1);
      OneMoreHolds(t, n - 1);
      ExecConcat(INIT, first, [Submit(n - 1)]);
      ExecConcat(INIT, first + [Submit(n - 1)], [TakeSlot(n - 1)]);
      run := first + [Submit(n - 1)] + [TakeSlot(n - 1)];
    }
  }

  lemma OneMoreSubmitted(s: Sys, id: nat)
    requires Counts(s) && id !in s.records
    ensures
      var t := Exec(s, [Submit(id)]);
      && Counts(t) && t.records == s.records[id := Blocked] && t.slots == s.slots == |Holders(t.records)|
      && Holders(t.records) == Holders(s.records)
  {
    OneStep(s, Submit(id));
    CountsKeep(s, Submit(id));
    SetsAfterUpdate(s.records, id, Blocked);
    assert id !in Holders(s.records);
  }

  lemma OneMoreHolds(t: Sys, id: nat)
    requires id in t.records && t.records[id].Blocked?
    ensures |Holders(t.records[id := HasSlot])| == |Holders(t.records)| + 1
  {
    SetsAfterUpdate(t.records, id, HasSlot);
    assert id !in Holders(t.records);
    SizeAfter(Holders(t.records), id);
  }

  lemma NoneLeft(s: Sys)
    requires Counts(s) && Counted(s.records) == {}
    ensures s.counter == 0
  {
  }

  /** All counted records can be finished while the others stay where they are, and then every drain is released. */
  lemma {:induction false} AllCountedFinish(s: Sys) returns (run: seq<Action>)
    requires Counts(s) && (s.counter == 0 ==> forall d | d in s.drains :: s.drains[d].released)
    ensures
      var t := Exec(s, run);
      && t.drains.Keys == s.drains.Keys && (forall d | d in t.drains :: t.drains[d].released)
      && forall id | id in s.records && !IsCounted(s.records[id]) :: id in t.records && t.records[id] == s.records[id]
    decreases |Counted(s.records)|
  {
    if Counted(s.records) == {} {
      NoneLeft(s);
      run := [];
    } else {
      var id :| id in Counted(s.records);
      var first := CountedFinishes(s, id);
      var t := Exec(s, first);
      SetsAfterUpdate(s.records, id, Finished);
      assert Counted(t.records) == Counted(s.records) - {id};
      hide Counts, Exec, Counted, Step;
      var rest := AllCountedFinish(t);
      ExecConcat(s, first, rest);
      run := first + rest;
    }
  }

  /** After the drain begins in this state, the run returns it while the record is unfinished. */
  ghost predicate Misses(s: Sys, d: nat, id: nat, run: seq<Action>) {
    var t := Exec(Step(s, BeginDrain(d)), run);
    d in t.drains && t.drains[d].returned && id in t.records && !t.records[id].Finished?
  }

  /**
    In every reachable state: a drain beginning there can return while a submitted record is unfinished if and only if
    the record is unfinished and not yet counted, whether it waits for a slot or holds one.
   */
  lemma MissedExactlyWhenUncounted(past: seq<Action>, d: nat, id: nat)
    requires id in Exec(INIT, past).records && d !in Exec(INIT, past).drains
    ensures
      var s := Exec(INIT, past);
      (exists run :: Misses(s, d, id, run)) <==> !IsCounted(s.records[id]) && !s.records[id].Finished?
  {
    var s := Exec(INIT, past);
    ExecKeeps(INIT, past);
    if !IsCounted(s.records[id]) && !s.records[id].Finished? {
      var run := UncountedIsMissed(s, d, id);
    } else if exists run :: Misses(s, d, id, run) {
      var run :| Misses(s, d, id, run);
      NeverMissed(s, d, id, run);
      assert false;
    }
  }

  lemma UncountedIsMissed(s: Sys, d: nat, id: nat) returns (run: seq<Action>)
    requires Inv(s) && d !in s.drains && id in s.records && !IsCounted(s.records[id]) && !s.records[id].Finished?
    ensures Misses(s, d, id, run)
  {
    var s1 := Step(s, BeginDrain(d));
    CountsKeep(s, BeginDrain(d));
    var first := AllCountedFinish(s1);
    ExecConcat(s1, first, [ReturnDrain(d)]);
    OneStep(Exec(s1, first), ReturnDrain(d));
    run := first + [ReturnDrain(d)];
  }

  /** Records that a drain waits for, and finished ones, stay so. */
  ghost predicate Settled(s: Sys, d: nat, id: nat) {
    && d in s.drains && id in s.records
    && (id in s.drains[d].earlier || s.records[id].Finished?)
  }

  lemma {:induction false} SettledStays(s: Sys, d: nat, id: nat, run: seq<Action>)
    requires Settled(s, d, id)
    ensures Settled(Exec(s, run), d, id)
    decreases |run|
  {
    if run != [] {
      SettledStays(Step(s, run[0]), d, id, run[1..]);
    }
  }

  lemma NeverMissed(s: Sys, d: nat, id: nat, run: seq<Action>)
    requires Inv(s) && d !in s.drains && id in s.records && (IsCounted(s.records[id]) || s.records[id].Finished?)
    ensures !Misses(s, d, id, run)
  {
    var s1 := Step(s, BeginDrain(d));
    assert s1 == Exec(s, [BeginDrain(d)]) by { OneStep(s, BeginDrain(d)); }
    ExecKeeps(s, [BeginDrain(d)]);
    ExecKeeps(s1, run);
    SettledStays(s1, d, id, run);
    assert DrainInv(Exec(s1, run), d);
  }
}
