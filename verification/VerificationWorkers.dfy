/**
  The workers of CreateAttestationRecord: one goroutine for each version, a semaphore, a buffered channel, a wait
  group, a closer and the collecting loop. A state is what is seen between two of their steps; any enabled step
  may come next. Which versions verify is an arbitrary verdict per version, as each is verified once.
 */
module VerificationWorkers {
  import opened Basics

  const DEFAULT_LIMIT: nat := 50

  /** Where a worker is; each name is the step it takes next. */
  datatype Phase = Acquiring | Verifying | Sending | Releasing | Finishing | Finished

  datatype Env = Env(cids: seq<string>, verdicts: seq<bool>, maxConcurrentVerifications: int)

  datatype Sys = Sys(
    workers: seq<Phase>, inUse: nat, waiting: nat, channel: seq<string>, closed: bool, collected: seq<string>,
      returned: bool)

  datatype Action =
    | Launch
    | Acquire(worker: nat) | Verify(worker: nat) | Send(worker: nat) | Release(worker: nat) | Finish(worker: nat)
    | Close | Receive | Return

  ghost predicate WellFormed(env: Env) {
    |env.cids| == |env.verdicts|
  }

  /** The semaphore's size. */
  function Limit(maxConcurrentVerifications: int): (r: nat)
    ensures r > 0
  {
    if maxConcurrentVerifications <= 0 then DEFAULT_LIMIT else maxConcurrentVerifications
  }

  const START: Sys := Sys([], 0, 0, [], false, [], false)

  ghost predicate At(s: Sys, worker: nat, phase: Phase) {
    worker < |s.workers| && s.workers[worker] == phase
  }

  ghost predicate Launched(env: Env, s: Sys) {
    |s.workers| == |env.cids|
  }

  /** When a step can be taken: a full semaphore, a full channel and an empty open channel block. */
  ghost predicate Enabled(env: Env, s: Sys, a: Action) {
    match a
    case Launch => |s.workers| < |env.cids|
    case Acquire(i) => At(s, i, Acquiring) && s.inUse < Limit(env.maxConcurrentVerifications)
    case Verify(i) => At(s, i, Verifying)
    case Send(i) => At(s, i, Sending) && |s.channel| < |env.cids|
    case Release(i) => At(s, i, Releasing)
    case Finish(i) => At(s, i, Finishing)
    case Close => Launched(env, s) && s.waiting == 0 && !s.closed
    case Receive => Launched(env, s) && s.channel != [] && !s.returned
    case Return => Launched(env, s) && s.channel == [] && s.closed && !s.returned
  }

  ghost function Moved(s: Sys, worker: nat, phase: Phase): Sys
    requires worker < |s.workers|
  {
    s.(workers := s.workers[worker := phase])
  }

  ghost function Step(env: Env, s: Sys, a: Action): Sys
    requires WellFormed(env) && |s.workers| <= |env.cids| && Enabled(env, s, a)
  {
    match a
    case Launch => s.(workers := s.workers + [Acquiring], waiting := s.waiting + 1)
    case Acquire(i) => Moved(s, i, Verifying).(inUse := s.inUse + 1)
    case Verify(i) => Moved(s, i, if env.verdicts[i] then Sending else Releasing)
    case Send(i) => Moved(s, i, Releasing).(channel := s.channel + [env.cids[i]])
    case Release(i) => Moved(s, i, Finishing).(inUse := if s.inUse > 0 then s.inUse - 1 else 0)
    case Finish(i) => Moved(s, i, Finished).(waiting := if s.waiting > 0 then s.waiting - 1 else 0)
    case Close => s.(closed := true)
    case Receive => s.(collected := s.collected + [s.channel[0]], channel := s.channel[1..])
    case Return => s.(returned := true)
  }

  // ---------- counting workers ----------

  ghost function Sum(f: Phase -> nat, ws: seq<Phase>): nat {
    if ws == [] then 0 else Sum(f, ws[..|ws| - 1]) + f(ws[|ws| - 1])
  }

  lemma SumAppend(f: Phase -> nat, ws: seq<Phase>, p: Phase)
    ensures Sum(f, ws + [p]) == Sum(f, ws) + f(p)
  {
    assert (ws + [p])[..|ws|] == ws;
  }

  lemma {:induction false} SumUpdate(f: Phase -> nat, ws: seq<Phase>, i: nat, p: Phase)
    requires i < |ws|
    ensures Sum(f, ws[i := p]) + f(ws[i]) == Sum(f, ws) + f(p)
  {
    var n := |ws| - 1;
    if i == n {
      assert ws[i := p][..n] == ws[..n];
    } else {
      assert ws[i := p][..n] == ws[..n][i := p];
      SumUpdate(f, ws[..n], i, p);
    }
  }

  lemma {:induction false} SumIsPositive(f: Phase -> nat, ws: seq<Phase>, i: nat)
    requires i < |ws|
    ensures Sum(f, ws) >= f(ws[i])
  {
    if i < |ws| - 1 {
      SumIsPositive(f, ws[..|ws| - 1], i);
    }
  }

  lemma {:induction false} SumHasMember(f: Phase -> nat, ws: seq<Phase>) returns (i: nat)
    requires Sum(f, ws) > 0
    ensures i < |ws| && f(ws[i]) > 0
  {
    i := |ws| - 1;
    if f(ws[i]) == 0 {
      i := SumHasMember(f, ws[..i]);
    }
  }

  function Holds(p: Phase): nat {
    if p == Verifying || p == Sending || p == Releasing then 1 else 0
  }

  function Unfinished(p: Phase): nat {
    if p == Finished then 0 else 1
  }

  function IsVerifying(p: Phase): nat {
    if p == Verifying then 1 else 0
  }

  /** The steps still to come because of a worker, with the one that receives what it sends. */
  function Rank(p: Phase): nat {
    match p
    case Acquiring => 6
    case Verifying => 5
    case Sending => 4
    case Releasing => 2
    case Finishing => 1
    case Finished => 0
  }

  lemma {:induction false} VerifyingHolds(ws: seq<Phase>)
    ensures Sum(IsVerifying, ws) <= Sum(Holds, ws)
  {
    if ws != [] {
      VerifyingHolds(ws[..|ws| - 1]);
    }
  }

  // ---------- what has been sent ----------

  ghost predicate HasSent(p: Phase) {
    p == Releasing || p == Finishing || p == Finished
  }

  ghost function SentBy(env: Env, i: nat, p: Phase): multiset<string>
    requires WellFormed(env) && i < |env.cids|
  {
    if env.verdicts[i] && HasSent(p) then multiset{env.cids[i]} else multiset{}
  }

  /** The CIDs the workers have sent so far. */
  ghost function Sent(env: Env, ws: seq<Phase>): multiset<string>
    requires WellFormed(env) && |ws| <= |env.cids|
  {
    if ws == [] then multiset{} else Sent(env, ws[..|ws| - 1]) + SentBy(env, |ws| - 1, ws[|ws| - 1])
  }

  lemma SentAppend(env: Env, ws: seq<Phase>, p: Phase)
    requires WellFormed(env) && |ws| < |env.cids|
    ensures Sent(env, ws + [p]) == Sent(env, ws) + SentBy(env, |ws|, p)
  {
    assert (ws + [p])[..|ws|] == ws;
  }

  lemma {:induction false} SentUnchanged(env: Env, ws: seq<Phase>, i: nat, p: Phase)
    requires WellFormed(env) && i < |ws| <= |env.cids|
    requires SentBy(env, i, p) == SentBy(env, i, ws[i])
    ensures Sent(env, ws[i := p]) == Sent(env, ws)
  {
    var n := |ws| - 1;
    if i == n {
      assert ws[i := p][..n] == ws[..n];
    } else {
      assert ws[i := p][..n] == ws[..n][i := p];
      SentUnchanged(env, ws[..n], i, p);
    }
  }

  lemma {:induction false} SentOneMore(env: Env, ws: seq<Phase>, i: nat, p: Phase)
    requires WellFormed(env) && i < |ws| <= |env.cids|
    requires SentBy(env, i, ws[i]) == multiset{}
    ensures Sent(env, ws[i := p]) == Sent(env, ws) + SentBy(env, i, p)
  {
    hide SentBy;
    var n := |ws| - 1;
    if i == n {
      assert ws[i := p][..n] == ws[..n];
    } else {
      assert ws[i := p][..n] == ws[..n][i := p];
      SentOneMore(env, ws[..n], i, p);
    }
  }

  function NotSent(p: Phase): nat {
    if p == Acquiring || p == Verifying || p == Sending then 1 else 0
  }

  lemma {:induction false} SentIsAtMostOneEach(env: Env, ws: seq<Phase>)
    requires WellFormed(env) && |ws| <= |env.cids|
    ensures |Sent(env, ws)| + Sum(NotSent, ws) <= |ws|
  {
    if ws != [] {
      SentIsAtMostOneEach(env, ws[..|ws| - 1]);
    }
  }

  /** The CIDs of the versions that verify, in version order. */
  ghost function Passing(cids: seq<string>, verdicts: seq<bool>): seq<string>
    requires |cids| == |verdicts|
  {
    if cids == [] then []
    else
      var n := |cids| - 1;
      Passing(cids[..n], verdicts[..n]) + if verdicts[n] then [cids[n]] else []
  }

  /** The versions of one CID that verify. */
  ghost function PassingWith(cids: seq<string>, verdicts: seq<bool>, cid: string): set<int>
    requires |cids| == |verdicts|
  {
    set i | 0 <= i < |cids| && cids[i] == cid && verdicts[i]
  }

  /** Each CID passes as often as versions of it verify. */
  lemma {:induction false} PassingExactly(cids: seq<string>, verdicts: seq<bool>, cid: string)
    requires |cids| == |verdicts|
    ensures multiset(Passing(cids, verdicts))[cid] == |PassingWith(cids, verdicts, cid)|
  {
    if cids != [] {
      var n := |cids| - 1;
      PassingExactly(cids[..n], verdicts[..n], cid);
      PassingWithStep(cids, verdicts, cid);
      hide PassingWith;
      assert Passing(cids, verdicts) == Passing(cids[..n], verdicts[..n]) + if verdicts[n] then [cids[n]] else [];
    }
  }

  lemma PassingWithStep(cids: seq<string>, verdicts: seq<bool>, cid: string)
    requires |cids| == |verdicts| && cids != []
    ensures
      var n := |cids| - 1;
      |PassingWith(cids, verdicts, cid)| ==
        |PassingWith(cids[..n], verdicts[..n], cid)| + if cids[n] == cid && verdicts[n] then 1 else 0
  {
    var n := |cids| - 1;
    assert PassingWith(cids, verdicts, cid) ==
      PassingWith(cids[..n], verdicts[..n], cid) + if cids[n] == cid && verdicts[n] then {n} else {};
  }

  lemma {:induction false} AllSent(env: Env, ws: seq<Phase>)
    requires WellFormed(env) && |ws| <= |env.cids| && forall i | 0 <= i < |ws| :: ws[i] == Finished
    ensures Sent(env, ws) == multiset(Passing(env.cids[..|ws|], env.verdicts[..|ws|]))
  {
    if ws != [] {
      var n := |ws| - 1;
      AllSent(env, ws[..n]);
      PassingStep(env.cids, env.verdicts, n);
    }
  }

  lemma PassingStep(cids: seq<string>, verdicts: seq<bool>, n: nat)
    requires n < |cids| == |verdicts|
    ensures multiset(Passing(cids[..n + 1], verdicts[..n + 1])) ==
      multiset(Passing(cids[..n], verdicts[..n])) + if verdicts[n] then multiset{cids[n]} else multiset{}
  {
    assert cids[..n + 1][..n] == cids[..n] && verdicts[..n + 1][..n] == verdicts[..n];
  }

  // ---------- the invariant ----------

  ghost predicate Inv(env: Env, s: Sys)
    requires WellFormed(env)
  {
    && |s.workers| <= |env.cids|
    && s.inUse == Sum(Holds, s.workers) && s.inUse <= Limit(env.maxConcurrentVerifications)
    && s.waiting == Sum(Unfinished, s.workers)
    && (forall i | 0 <= i < |s.workers| && s.workers[i] == Sending :: env.verdicts[i])
    && multiset(s.channel) + multiset(s.collected) == Sent(env, s.workers)
    && (s.closed ==> Launched(env, s) && s.waiting == 0)
    && (s.returned ==> s.closed && s.channel == [])
  }

  /** What is left to do; every step uses up at least one. */
  ghost function Measure(env: Env, s: Sys): nat
    requires |s.workers| <= |env.cids|
  {
    7 * (|env.cids| - |s.workers|) + Sum(Rank, s.workers) + |s.channel|
    + (if s.closed then 0 else 1) + (if s.returned then 0 else 1)
  }

  lemma MoveSums(s: Sys, i: nat, p: Phase)
    requires i < |s.workers|
    ensures Sum(Holds, s.workers[i := p]) + Holds(s.workers[i]) == Sum(Holds, s.workers) + Holds(p)
    ensures Sum(Unfinished, s.workers[i := p]) + Unfinished(s.workers[i]) == Sum(Unfinished, s.workers) + Unfinished(p)
    ensures Sum(Rank, s.workers[i := p]) + Rank(s.workers[i]) == Sum(Rank, s.workers) + Rank(p)
    ensures Sum(Holds, s.workers) >= Holds(s.workers[i]) && Sum(Unfinished, s.workers) >= Unfinished(s.workers[i])
  {
    SumUpdate(Holds, s.workers, i, p);
    SumUpdate(Unfinished, s.workers, i, p);
    SumUpdate(Rank, s.workers, i, p);
    SumIsPositive(Holds, s.workers, i);
    SumIsPositive(Unfinished, s.workers, i);
  }

  lemma MoveKeepsInv(env: Env, s: Sys, a: Action)
    requires WellFormed(env) && Inv(env, s) && Enabled(env, s, a)
    requires a.Acquire? || a.Verify? || a.Release? || a.Finish?
    ensures Inv(env, Step(env, s, a)) && Measure(env, Step(env, s, a)) < Measure(env, s)
  {
    hide Sum, Sent;
    var i := a.worker;
    var p := Step(env, s, a).workers[i];
    MoveSums(s, i, p);
    SentUnchanged(env, s.workers, i, p);
  }

  lemma SendKeepsInv(env: Env, s: Sys, a: Action)
    requires WellFormed(env) && Inv(env, s) && Enabled(env, s, a) && a.Send?
    ensures Inv(env, Step(env, s, a)) && Measure(env, Step(env, s, a)) < Measure(env, s)
  {
    hide Sum, Sent;
    var i := a.worker;
    MoveSums(s, i, Releasing);
    SentOneMore(env, s.workers, i, Releasing);
  }

  lemma StepKeepsInv(env: Env, s: Sys, a: Action)
    requires WellFormed(env) && Inv(env, s) && Enabled(env, s, a)
    ensures Inv(env, Step(env, s, a)) && Measure(env, Step(env, s, a)) < Measure(env, s)
  {
    hide Sum, Sent;
    match a
    case Launch =>
      SumAppend(Holds, s.workers, Acquiring);
      SumAppend(Unfinished, s.workers, Acquiring);
      SumAppend(Rank, s.workers, Acquiring);
      SentAppend(env, s.workers, Acquiring);
    case Close =>
    case Receive =>
      assert s.channel == [s.channel[0]] + s.channel[1..];
    case Return =>
    case Send(_) => SendKeepsInv(env, s, a);
    case _ => MoveKeepsInv(env, s, a);
  }

  // ---------- every schedule ----------

  /** The state after a schedule, oldest step first; None when some step of it was not enabled. */
  ghost function After(env: Env, schedule: seq<Action>): (r: Option<Sys>)
    requires WellFormed(env)
    ensures r.Some? ==> |r.value.workers| <= |env.cids|
  {
    if schedule == [] then Some(START)
    else
      match After(env, schedule[..|schedule| - 1])
      case None => None
      case Some(s) =>
        var a := schedule[|schedule| - 1];
        if Enabled(env, s, a) then Some(Step(env, s, a)) else None
  }

  /** Every state of every schedule keeps the invariant, and no schedule has more than 7n + 2 steps. */
  lemma {:induction false} SchedulesKeepInv(env: Env, schedule: seq<Action>)
    requires WellFormed(env) && After(env, schedule).Some?
    ensures Inv(env, After(env, schedule).value)
    ensures |schedule| + Measure(env, After(env, schedule).value) <= 7 * |env.cids| + 2
  {
    hide Inv, Measure;
    if schedule == [] {
      StartIsFine(env);
    } else {
      var before := schedule[..|schedule| - 1];
      SchedulesKeepInv(env, before);
      StepKeepsInv(env, After(env, before).value, schedule[|schedule| - 1]);
    }
  }

  lemma StartIsFine(env: Env)
    requires WellFormed(env)
    ensures Inv(env, START) && Measure(env, START) == 7 * |env.cids| + 2
  {
  }

  /**
    However workers are scheduled, no more verify at once than were asked for, or than 50 when that is not positive.
   */
  lemma EverySlotIsBounded(env: Env, schedule: seq<Action>)
    requires WellFormed(env) && After(env, schedule).Some?
    ensures Sum(IsVerifying, After(env, schedule).value.workers) <=
      if env.maxConcurrentVerifications > 0 then env.maxConcurrentVerifications else 50
  {
    SchedulesKeepInv(env, schedule);
    VerifyingHolds(After(env, schedule).value.workers);
  }

  /** After all versions were launched and the first k workers have taken a slot. */
  ghost predicate FirstAreVerifying(env: Env, s: Sys, k: nat) {
    && |s.workers| == |env.cids| && s.inUse == k <= |env.cids| && Sum(IsVerifying, s.workers) == k
    && forall i | k <= i < |s.workers| :: s.workers[i] == Acquiring
  }

  lemma AfterMore(env: Env, schedule: seq<Action>, a: Action)
    requires WellFormed(env) && After(env, schedule).Some? && Enabled(env, After(env, schedule).value, a)
    ensures After(env, schedule + [a]) == Some(Step(env, After(env, schedule).value, a))
  {
    hide Step, Enabled;
    assert (schedule + [a])[..|schedule|] == schedule;
  }

  lemma {:induction false} AllLaunched(env: Env, n: nat) returns (schedule: seq<Action>)
    requires WellFormed(env) && n <= |env.cids|
    ensures After(env, schedule).Some?
    ensures
      var s := After(env, schedule).value;
      && |s.workers| == n && s.inUse == 0 && Sum(IsVerifying, s.workers) == 0
      && forall i | 0 <= i < n :: s.workers[i] == Acquiring
  {
    schedule := [];
    if n > 0 {
      schedule := AllLaunched(env, n - 1);
      var s := After(env, schedule).value;
      AfterMore(env, schedule, Launch);
      SumAppend(IsVerifying, s.workers, Acquiring);
      schedule := schedule + [Launch];
    }
  }

  lemma {:induction false} ManyVerify(env: Env, k: nat) returns (schedule: seq<Action>)
    requires WellFormed(env) && k <= |env.cids| && k <= Limit(env.maxConcurrentVerifications)
    ensures After(env, schedule).Some? && FirstAreVerifying(env, After(env, schedule).value, k)
  {
    if k == 0 {
      schedule := AllLaunched(env, |env.cids|);
    } else {
      schedule := ManyVerify(env, k - 1);
      var s := After(env, schedule).value;
      AfterMore(env, schedule, Acquire(k - 1));
      SumUpdate(IsVerifying, s.workers, k - 1, Verifying);
      schedule := schedule + [Acquire(k - 1)];
    }
  }

  /** And so many do verify at once under some schedule, when there are as many versions. */
  lemma EverySlotIsUsed(env: Env) returns (schedule: seq<Action>)
    requires WellFormed(env)
    ensures After(env, schedule).Some?
    ensures
      var limit := if env.maxConcurrentVerifications > 0 then env.maxConcurrentVerifications else 50;
      Sum(IsVerifying, After(env, schedule).value.workers) == if |env.cids| < limit then |env.cids| else limit
  {
    var limit := Limit(env.maxConcurrentVerifications);
    schedule := ManyVerify(env, if |env.cids| < limit then |env.cids| else limit);
  }

  lemma EveryScheduleEnds(env: Env, schedule: seq<Action>)
    requires WellFormed(env) && After(env, schedule).Some?
    ensures |schedule| <= 7 * |env.cids| + 2
  {
    SchedulesKeepInv(env, schedule);
  }

  lemma CanSend(env: Env, s: Sys, i: nat)
    requires WellFormed(env) && Inv(env, s) && At(s, i, Sending)
    ensures |s.channel| < |env.cids| && !s.closed
  {
    hide Sum, Sent;
    SumIsPositive(NotSent, s.workers, i);
    SentIsAtMostOneEach(env, s.workers);
    SizeOfParts(s.channel, s.collected, Sent(env, s.workers));
    SumIsPositive(Unfinished, s.workers, i);
  }

  lemma SizeOfParts(xs: seq<string>, ys: seq<string>, all: multiset<string>)
    requires multiset(xs) + multiset(ys) == all
    ensures |all| == |xs| + |ys|
  {
  }

  /** A worker that is neither waiting for a slot nor done can take its next step. */
  lemma WorkerCanMove(env: Env, s: Sys, i: nat)
    requires WellFormed(env) && Inv(env, s) && i < |s.workers| && Holds(s.workers[i]) > 0
    ensures exists a :: Enabled(env, s, a)
  {
    hide Sum, Inv;
    match s.workers[i] {
      case Verifying => assert Enabled(env, s, Verify(i));
      case Sending => CanSend(env, s, i); assert Enabled(env, s, Send(i));
      case Releasing => assert Enabled(env, s, Release(i));
    }
  }

  lemma UnfinishedCanMove(env: Env, s: Sys, i: nat)
    requires WellFormed(env) && Inv(env, s) && i < |s.workers| && Unfinished(s.workers[i]) > 0
    ensures exists a :: Enabled(env, s, a)
  {
    match s.workers[i] {
      case Acquiring =>
        if s.inUse < Limit(env.maxConcurrentVerifications) {
          assert Enabled(env, s, Acquire(i));
        } else {
          var holder := SumHasMember(Holds, s.workers);
          WorkerCanMove(env, s, holder);
        }
      case Finishing => assert Enabled(env, s, Finish(i));
      case _ => WorkerCanMove(env, s, i);
    }
  }

  /** No schedule deadlocks: until the collector has returned, some step can be taken. */
  lemma NeverStuck(env: Env, schedule: seq<Action>)
    requires WellFormed(env) && After(env, schedule).Some? && !After(env, schedule).value.returned
    ensures exists a :: Enabled(env, After(env, schedule).value, a)
  {
    SchedulesKeepInv(env, schedule);
    var s := After(env, schedule).value;
    if |s.workers| < |env.cids| {
      assert Enabled(env, s, Launch);
    } else if s.waiting > 0 {
      var i := SumHasMember(Unfinished, s.workers);
      UnfinishedCanMove(env, s, i);
    } else if !s.closed {
      assert Enabled(env, s, Close);
    } else if s.channel != [] {
      assert Enabled(env, s, Receive);
    } else {
      assert Enabled(env, s, Return);
    }
  }

  /** No worker sends on the closed channel, and none blocks on it: its buffer has room for every version. */
  lemma SendsNeverBlock(env: Env, schedule: seq<Action>, i: nat)
    requires WellFormed(env) && After(env, schedule).Some? && At(After(env, schedule).value, i, Sending)
    ensures !After(env, schedule).value.closed && Enabled(env, After(env, schedule).value, Send(i))
  {
    hide Inv;
    SchedulesKeepInv(env, schedule);
    CanSend(env, After(env, schedule).value, i);
  }

  lemma AllFinished(ws: seq<Phase>, i: nat)
    requires Sum(Unfinished, ws) == 0 && i < |ws|
    ensures ws[i] == Finished
  {
    SumIsPositive(Unfinished, ws, i);
  }

  /** Whatever the schedule, the record lists exactly the CIDs of the versions that verify, each as often as it does. */
  lemma ReturnsWhatVerifies(env: Env, schedule: seq<Action>)
    requires WellFormed(env) && After(env, schedule).Some? && After(env, schedule).value.returned
    ensures multiset(After(env, schedule).value.collected) == multiset(Passing(env.cids, env.verdicts))
    ensures forall cid ::
      multiset(After(env, schedule).value.collected)[cid] ==
      |set i | 0 <= i < |env.cids| && env.cids[i] == cid && env.verdicts[i]|
  {
    forall cid
      ensures multiset(Passing(env.cids, env.verdicts))[cid] ==
              |set i | 0 <= i < |env.cids| && env.cids[i] == cid && env.verdicts[i]|
    {
      PassingExactly(env.cids, env.verdicts, cid);
    }
    SchedulesKeepInv(env, schedule);
    var s := After(env, schedule).value;
    forall i: nat | i < |s.workers| ensures s.workers[i] == Finished {
      AllFinished(s.workers, i);
    }
    AllSent(env, s.workers);
    assert env.cids[..|s.workers|] == env.cids && env.verdicts[..|s.workers|] == env.verdicts;
  }
}
