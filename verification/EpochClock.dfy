/**
  The settlement epoch clock: lazily refreshed, refreshes coalesced by a single flight, the
  height read outside the lock.
 */
module EpochClockModel {
  import opened Basics

  type Time = int

  /** The fields under the lock. */
  datatype Clock = Clock(epoch: nat, haveEpoch: bool, lastFetch: Time) {

    ghost predicate Fresh(now: Time, interval: int) {
      haveEpoch && now - lastFetch < interval
    }

    /** The locked end of refresh. */
    ghost function Refreshed(block: Result<nat, ()>, epochLength: nat, now: Time): Clock
      requires epochLength > 0
    {
      if block.Err? then this else Clock(block.value / epochLength, true, now)
    }

    /** What that refresh returns. */
    ghost function Outcome(block: Result<nat, ()>, epochLength: nat): Result<nat, ()>
      requires epochLength > 0
    {
      if block.Ok? then Ok(block.value / epochLength) else if haveEpoch then Ok(epoch) else Err(())
    }
  }

  class EpochClock {
    const epochLength: nat
    const interval: int
    var epoch: nat
    var haveEpoch: bool
    var lastFetch: Time

    constructor (epochLength: nat, interval: int)
      ensures this.epochLength == epochLength && this.interval == interval && !haveEpoch
    {
      this.epochLength, this.interval := epochLength, interval;
      epoch, haveEpoch, lastFetch := 0, false, 0;
    }

    ghost function State(): Clock
      reads this
    {
      Clock(epoch, haveEpoch, lastFetch)
    }

    /** The locked fast path of Epoch. */
    method Peek(now: Time) returns (r: Option<nat>)
      ensures r.Some? <==> haveEpoch && now - lastFetch < interval
      ensures r.Some? ==> r.value == epoch
    {
      if haveEpoch && now - lastFetch < interval {
        return Some(epoch);
      }
      return None;
    }

    /** The locked end of refresh, after the height read returned block. */
    method Commit(block: Result<nat, ()>, now: Time) returns (r: Result<nat, ()>)
      requires epochLength > 0
      modifies this
      ensures State() == old(State()).Refreshed(block, epochLength, now)
      ensures r == old(State()).Outcome(block, epochLength)
      ensures block.Ok? ==> haveEpoch && epoch == block.value / epochLength && lastFetch == now && r == Ok(epoch)
      ensures block.Err? ==> State() == old(State()) && r == if old(haveEpoch) then Ok(old(epoch)) else Err(())
    {
      if block.Err? {
        if haveEpoch {
          return Ok(epoch);
        }
        return Err(());
      }
      epoch := block.value / epochLength;
      haveEpoch := true;
      lastFetch := now;
      return Ok(epoch);
    }
  }

  // ---------- runs ----------

  /** A caller of Epoch: past the fast path with a stale view, waiting on a flight, or back. */
  datatype Caller =
    | Stale(commitsSeen: nat)
    | Waiting(flight: nat)
    | Back(epoch: Result<nat, ()>, via: Option<nat>)

  /** The single flight: no refresh, a height read under way, its result at hand, its outcome decided. */
  datatype Flight =
    | Grounded
    | Reading
    | HasRead(block: Result<nat, ()>)
    | Landed(outcome: Result<nat, ()>)

  /** flights counts the flights taken off, commits the successful ones that committed;
      firstCommit is the flight of the first of them, heights all heights read; takeOff is the time at
      which the last flight took off, lastFailed whether the last one to land read no height, and log every
      commit in order. */
  datatype World = World(
    clock: Clock, now: Time, height: nat,
    flight: Flight, flights: nat, callers: map<nat, Caller>,
    heights: set<nat>, commits: nat, firstCommit: Option<nat>, lastHeight: nat,
    takeOff: Time, lastFailed: bool, log: seq<LogEntry>)

  /** The height a commit was made for, and when. */
  datatype LogEntry = LogEntry(height: nat, time: Time)

  datatype Action =
    | Tick(d: nat)
    | Grow(blocks: nat)
    | Call(id: nat)
    | Join(id: nat)
    | ReadHeight(ok: bool)
    | CommitRead
    | Deliver

  datatype Settings = Settings(epochLength: nat, interval: int)

  ghost predicate Init(w: World) {
    && !w.clock.haveEpoch && w.flight == Grounded && w.flights == 0 && w.callers == map[]
    && w.heights == {} && w.commits == 0 && w.firstCommit == None && w.lastHeight == 0 && w.log == []
  }

  ghost function Step(cfg: Settings, w: World, a: Action): World
    requires cfg.epochLength > 0
  {
    match a
    case Tick(d) => w.(now := w.now + d)
    case Grow(blocks) => w.(height := w.height + blocks)
    case Call(id) =>
      if id in w.callers then w
      else if w.clock.Fresh(w.now, cfg.interval) then w.(callers := w.callers[id := Back(Ok(w.clock.epoch), None)])
      else w.(callers := w.callers[id := Stale(w.commits)])
    case Join(id) =>
      if id !in w.callers || !w.callers[id].Stale? then w
      else if w.flight.Grounded? then
        w.(flight := Reading, flights := w.flights + 1, callers := w.callers[id := Waiting(w.flights + 1)],
          takeOff := w.now)
      else w.(callers := w.callers[id := Waiting(w.flights)])
    case ReadHeight(ok) =>
      if !w.flight.Reading? then w
      else if ok then w.(flight := HasRead(Ok(w.height)), heights := w.heights + {w.height})
      else w.(flight := HasRead(Err(())))
    case CommitRead =>
      if !w.flight.HasRead? then w
      else
        var block := w.flight.block;
        var w1 := w.(clock := w.clock.Refreshed(block, cfg.epochLength, w.now),
          flight := Landed(w.clock.Outcome(block, cfg.epochLength)), lastFailed := block.Err?);
        if block.Err? then w1
        else w1.(commits := w.commits + 1, lastHeight := block.value, log := w.log + [LogEntry(block.value, w.now)],
                 firstCommit := if w.firstCommit == None then Some(w.flights) else w.firstCommit)
    case Deliver =>
      if !w.flight.Landed? then w
      else w.(flight := Grounded, callers := map id | id in w.callers :: Delivered(w.callers[id], w.flight.outcome))
  }

  ghost function Delivered(c: Caller, outcome: Result<nat, ()>): Caller {
    if c.Waiting? then Back(outcome, Some(c.flight)) else c
  }

  ghost function Exec(cfg: Settings, w: World, actions: seq<Action>): World
    requires cfg.epochLength > 0
    decreases |actions|
  {
    if actions == [] then w else Exec(cfg, Step(cfg, w, actions[0]), actions[1..])
  }

  /** The epoch of some height that was read. */
  ghost predicate EpochOfRead(w: World, epoch: nat, epochLength: nat)
    requires epochLength > 0
  {
    exists h | h in w.heights :: epoch == h / epochLength
  }

  /** An outcome of a flight: an epoch that was read, or an error from before the first success. */
  ghost predicate Justified(w: World, outcome: Result<nat, ()>, flight: nat, epochLength: nat)
    requires epochLength > 0
  {
    match outcome
    case Ok(epoch) => EpochOfRead(w, epoch, epochLength)
    case Err(_) => w.firstCommit == None || flight < w.firstCommit.value
  }

  ghost predicate CallerInv(cfg: Settings, w: World, id: nat)
    requires cfg.epochLength > 0
  {
    id in w.callers ==>
      match w.callers[id]
      case Stale(commitsSeen) => commitsSeen <= w.commits &&
        (commitsSeen == w.commits ==> !w.clock.Fresh(w.now, cfg.interval))
      case Waiting(flight) => !w.flight.Grounded? && flight == w.flights
      case Back(epoch, Some(flight)) =>
        && flight <= w.flights && (!w.flight.Grounded? ==> flight < w.flights)
        && Justified(w, epoch, flight, cfg.epochLength)
      case Back(epoch, None) => epoch.Ok? && EpochOfRead(w, epoch.value, cfg.epochLength)
  }

  ghost predicate ClockInv(w: World, epochLength: nat)
    requires epochLength > 0
  {
    && (w.clock.haveEpoch <==> w.firstCommit.Some?)
    && (w.clock.haveEpoch <==> w.commits > 0)
    && (w.clock.haveEpoch ==>
        && w.clock.epoch == w.lastHeight / epochLength
        && w.lastHeight in w.heights && w.lastHeight <= w.height
        && 1 <= w.firstCommit.value <= w.flights)
  }

  ghost predicate FlightInv(w: World, epochLength: nat)
    requires epochLength > 0
  {
    && (!w.flight.Grounded? ==> w.flights >= 1)
    && (w.firstCommit.Some? && (w.flight.Reading? || w.flight.HasRead?) ==> w.firstCommit.value < w.flights)
    && match w.flight
       case HasRead(Ok(h)) => h in w.heights && h <= w.height && (w.clock.haveEpoch ==> w.lastHeight <= h)
       case Landed(outcome) => Justified(w, outcome, w.flights, epochLength)
       case _ => true
  }

  ghost predicate Inv(cfg: Settings, w: World)
    requires cfg.epochLength > 0
  {
    ClockInv(w, cfg.epochLength) && FlightInv(w, cfg.epochLength) && forall id :: CallerInv(cfg, w, id)
  }

  lemma ClockKeeps(cfg: Settings, w: World, a: Action)
    requires cfg.epochLength > 0 && Inv(cfg, w)
    ensures ClockInv(Step(cfg, w, a), cfg.epochLength)
    ensures FlightInv(Step(cfg, w, a), cfg.epochLength)
  {
    var w1 := Step(cfg, w, a);
    assert w.heights <= w1.heights;
    if a.CommitRead? && w.flight.HasRead? {
      if w.clock.haveEpoch {
        assert EpochOfRead(w1, w.clock.epoch, cfg.epochLength);
      }
      if w.flight.block.Ok? {
        assert EpochOfRead(w1, w.flight.block.value / cfg.epochLength, cfg.epochLength);
      }
    }
  }

  lemma CallerKeeps(cfg: Settings, w: World, a: Action, id: nat)
    requires cfg.epochLength > 0 && Inv(cfg, w)
    ensures CallerInv(cfg, Step(cfg, w, a), id)
  {
    var w1 := Step(cfg, w, a);
    assert CallerInv(cfg, w, id);
    assert w.heights <= w1.heights;
    if a.Call? && w.clock.haveEpoch {
      assert EpochOfRead(w1, w.clock.epoch, cfg.epochLength);
    }
  }

  lemma StepKeeps(cfg: Settings, w: World, a: Action)
    requires cfg.epochLength > 0 && Inv(cfg, w)
    ensures Inv(cfg, Step(cfg, w, a))
  {
    ClockKeeps(cfg, w, a);
    forall id ensures CallerInv(cfg, Step(cfg, w, a), id) {
      CallerKeeps(cfg, w, a, id);
    }
  }

  lemma {:induction false} ExecKeeps(cfg: Settings, w: World, actions: seq<Action>)
    requires cfg.epochLength > 0 && Inv(cfg, w)
    ensures Inv(cfg, Exec(cfg, w, actions))
    decreases |actions|
  {
    if actions != [] {
      StepKeeps(cfg, w, actions[0]);
      ExecKeeps(cfg, Step(cfg, w, actions[0]), actions[1..]);
    }
  }

  lemma MultiplesApart(n: nat, x: nat, y: nat)
    ensures x < y ==> n * x + n <= n * y
  {
    if x < y {
      var d := y - x - 1;
      assert y == x + 1 + d;
      assert n * (x + 1 + d) == n * x + n + n * d;
      assert n * d >= 0;
    }
  }

  lemma DivisionMonotone(a: nat, b: nat, n: nat)
    requires n > 0 && a <= b
    ensures a / n <= b / n
  {
    MultiplesApart(n, b / n, a / n);
  }

  lemma StepMonotone(cfg: Settings, w: World, a: Action)
    requires cfg.epochLength > 0 && Inv(cfg, w) && w.clock.haveEpoch
    ensures Step(cfg, w, a).clock.haveEpoch && Step(cfg, w, a).clock.epoch >= w.clock.epoch
  {
    if a.CommitRead? && w.flight.HasRead? && w.flight.block.Ok? {
      DivisionMonotone(w.lastHeight, w.flight.block.value, cfg.epochLength);
    }
  }

  lemma {:induction false} ExecMonotone(cfg: Settings, w: World, actions: seq<Action>)
    requires cfg.epochLength > 0 && Inv(cfg, w) && w.clock.haveEpoch
    ensures Exec(cfg, w, actions).clock.haveEpoch && Exec(cfg, w, actions).clock.epoch >= w.clock.epoch
    decreases |actions|
  {
    if actions != [] {
      StepKeeps(cfg, w, actions[0]);
      StepMonotone(cfg, w, actions[0]);
      ExecMonotone(cfg, Step(cfg, w, actions[0]), actions[1..]);
    }
  }

  /** In every interleaving, and however the hub grows: once an epoch is known it stays known and
      never decreases. */
  lemma EpochNeverDecreases(cfg: Settings, w: World, past: seq<Action>, future: seq<Action>)
    requires cfg.epochLength > 0 && Init(w) && Exec(cfg, w, past).clock.haveEpoch
    ensures Exec(cfg, Exec(cfg, w, past), future).clock.haveEpoch
    ensures Exec(cfg, Exec(cfg, w, past), future).clock.epoch >= Exec(cfg, w, past).clock.epoch
  {
    ExecKeeps(cfg, w, past);
    ExecMonotone(cfg, Exec(cfg, w, past), future);
  }

  // ---------- how long an epoch is served ----------

  /** The clock holds what the last commit was made for. */
  ghost predicate LogInv(cfg: Settings, w: World)
    requires cfg.epochLength > 0
  {
    && |w.log| == w.commits && (w.clock.haveEpoch <==> w.log != [])
    && (w.log != [] ==>
        var last := w.log[|w.log| - 1];
        w.clock.epoch == last.height / cfg.epochLength && w.clock.lastFetch == last.time)
  }

  lemma {:induction false} ExecKeepsLog(cfg: Settings, w: World, actions: seq<Action>)
    requires cfg.epochLength > 0 && LogInv(cfg, w)
    ensures LogInv(cfg, Exec(cfg, w, actions))
    decreases |actions|
  {
    if actions != [] {
      ExecKeepsLog(cfg, Step(cfg, w, actions[0]), actions[1..]);
    }
  }

  /**
    In every run a new call is answered at once exactly when the last commit was made less than an interval before, and
    then with the epoch of its height.
   */
  lemma ServedExactlyWithinInterval(cfg: Settings, w0: World, past: seq<Action>, id: nat)
    requires cfg.epochLength > 0 && Init(w0) && id !in Exec(cfg, w0, past).callers
    ensures
      var w := Exec(cfg, w0, past);
      var w1 := Exec(cfg, w0, past + [Call(id)]);
      id in w1.callers && w1.callers[id] ==
        if w.log != [] && w.now - w.log[|w.log| - 1].time < cfg.interval
        then Back(Ok(w.log[|w.log| - 1].height / cfg.epochLength), None) else Stale(|w.log|)
  {
    var w := Exec(cfg, w0, past);
    ExecKeepsLog(cfg, w0, past);
    ExecConcat(cfg, w0, past, [Call(id)]);
    OneMore(cfg, w, Call(id));
  }

  lemma {:induction false} ExecConcat(cfg: Settings, w: World, first: seq<Action>, rest: seq<Action>)
    requires cfg.epochLength > 0
    ensures Exec(cfg, w, first + rest) == Exec(cfg, Exec(cfg, w, first), rest)
    decreases |first|
  {
    hide Step;
    if first == [] {
      assert first + rest == rest;
    } else {
      assert (first + rest)[1..] == first[1..] + rest;
      ExecConcat(cfg, Step(cfg, w, first[0]), first[1..], rest);
    }
  }

  lemma OneMore(cfg: Settings, w: World, a: Action)
    requires cfg.epochLength > 0
    ensures Exec(cfg, w, [a]) == Step(cfg, w, a)
  {
    assert [a][1..] == [];
  }

  /**
    A caller that is not answered at once waits for a height read, the one under way or one that it starts; and when no
    other is under way it gets the epoch of the height the hub has then.
   */
  lemma OtherwiseTheHubIsRead(cfg: Settings, w: World, id: nat)
    requires cfg.epochLength > 0 && id in w.callers && w.callers[id].Stale?
    ensures
      var w1 := Exec(cfg, w, [Join(id)]);
      && id in w1.callers && w1.callers[id] == Waiting(w1.flights)
      && !w1.flight.Grounded? && (w.flight.Grounded? ==> w1.flight == Reading)
      && (!w.flight.Grounded? ==> w1.flight == w.flight && w1.flights == w.flights)
    ensures w.flight.Grounded? ==>
      var w1 := Exec(cfg, w, [Join(id), ReadHeight(true), CommitRead, Deliver]);
      id in w1.callers && w1.callers[id] == Back(Ok(w.height / cfg.epochLength), Some(w.flights + 1))
  {
    OneMore(cfg, w, Join(id));
    var w2 := Step(cfg, Step(cfg, w, Join(id)), ReadHeight(true));
    TwoMore(cfg, w, Join(id), ReadHeight(true), [CommitRead, Deliver]);
    TwoMore(cfg, w2, CommitRead, Deliver, []);
  }

  /** Every epoch a caller gets is that of a height the hub reported; an error reaches only callers
      of a flight that ended before any read had succeeded. */
  lemma ReturnedEpochsAreRead(cfg: Settings, w: World, actions: seq<Action>, id: nat)
    requires cfg.epochLength > 0 && Init(w)
    ensures
      var w1 := Exec(cfg, w, actions);
      id in w1.callers && w1.callers[id].Back? ==>
        match w1.callers[id].epoch
        case Ok(epoch) => EpochOfRead(w1, epoch, cfg.epochLength)
        case Err(_) =>
          w1.callers[id].via.Some? && (w1.firstCommit == None || w1.callers[id].via.value < w1.firstCommit.value)
  {
    ExecKeeps(cfg, w, actions);
    assert CallerInv(cfg, Exec(cfg, w, actions), id);
  }

  // ---------- how close two reads come ----------

  /** A caller whose joining starts a height read. */
  ghost predicate TakesOff(w: World, id: nat) {
    id in w.callers && w.callers[id].Stale? && w.flight.Grounded?
  }

  /** The last read failed, or a later commit overtook the caller's look at the clock. */
  ghost predicate Excused(w: World, id: nat)
    requires TakesOff(w, id)
  {
    w.lastFailed || w.callers[id].commitsSeen < w.commits
  }

  /** A height read that starts now starts at least an interval after the last one did. */
  ghost predicate Spaced(cfg: Settings, w: World) {
    w.flights > 0 ==> w.now - w.takeOff >= cfg.interval
  }

  /** Any two successive height reads of the run start at least an interval apart: the documented bound. */
  ghost predicate ReadsAreSpaced(cfg: Settings, w: World, actions: seq<Action>)
    requires cfg.epochLength > 0
    decreases |actions|
  {
    actions == [] ||
    ((actions[0].Join? && TakesOff(w, actions[0].id) ==> Spaced(cfg, w))
     && ReadsAreSpaced(cfg, Step(cfg, w, actions[0]), actions[1..]))
  }

  /** The callers that the last read's failure or a later commit excuses wait the interval out before they join. */
  ghost predicate ExcusedCallersWait(cfg: Settings, w: World, actions: seq<Action>)
    requires cfg.epochLength > 0
    decreases |actions|
  {
    actions == [] ||
    ((actions[0].Join? && TakesOff(w, actions[0].id) && Excused(w, actions[0].id) ==> Spaced(cfg, w))
     && ExcusedCallersWait(cfg, Step(cfg, w, actions[0]), actions[1..]))
  }

  /** The last flight to land committed no earlier than it took off. */
  ghost predicate TakeOffInv(w: World) {
    && w.takeOff <= w.now
    && (w.flights > 0 && (w.flight.Grounded? || w.flight.Landed?) && !w.lastFailed ==>
        w.clock.haveEpoch && w.takeOff <= w.clock.lastFetch)
  }

  lemma TakeOffKeeps(cfg: Settings, w: World, a: Action)
    requires cfg.epochLength > 0 && (TakeOffInv(w) || w.flights == 0) && Inv(cfg, w)
    ensures TakeOffInv(Step(cfg, w, a)) || Step(cfg, w, a).flights == 0
  {
    hide Justified, EpochOfRead;
  }

  /** A caller that saw the last commit and follows a successful read never starts one within the interval. */
  lemma UnexcusedIsSpaced(cfg: Settings, w: World, id: nat)
    requires cfg.epochLength > 0 && Inv(cfg, w) && (TakeOffInv(w) || w.flights == 0) && TakesOff(w, id)
    ensures !Excused(w, id) ==> Spaced(cfg, w)
  {
    hide Justified, EpochOfRead;
    assert CallerInv(cfg, w, id);
  }

  lemma {:induction false} SpacedExactly(cfg: Settings, w: World, actions: seq<Action>)
    requires cfg.epochLength > 0 && Inv(cfg, w) && (TakeOffInv(w) || w.flights == 0)
    ensures ReadsAreSpaced(cfg, w, actions) <==> ExcusedCallersWait(cfg, w, actions)
    decreases |actions|
  {
    hide Inv, TakeOffInv, Step, Spaced, Excused;
    if actions != [] {
      var a := actions[0];
      if a.Join? && TakesOff(w, a.id) {
        UnexcusedIsSpaced(cfg, w, a.id);
      }
      StepKeeps(cfg, w, a);
      TakeOffKeeps(cfg, w, a);
      SpacedExactly(cfg, Step(cfg, w, a), actions[1..]);
    }
  }

  /**
    In every run: no two height reads start within an interval if and only if every caller that follows a failed read,
    or that looked at the clock before the last commit, joins at least an interval after the last read started.
   */
  lemma ReadsAreSpacedExactly(cfg: Settings, w: World, actions: seq<Action>)
    requires cfg.epochLength > 0 && Init(w)
    ensures ReadsAreSpaced(cfg, w, actions) <==> ExcusedCallersWait(cfg, w, actions)
  {
    SpacedExactly(cfg, w, actions);
  }

  /** No height read fails, and no commit comes between a caller's look at the clock and the read it starts. */
  ghost predicate Calm(cfg: Settings, w: World, actions: seq<Action>)
    requires cfg.epochLength > 0
    decreases |actions|
  {
    actions == [] ||
    (&& actions[0] != ReadHeight(false)
     && (actions[0].Join? && TakesOff(w, actions[0].id) ==> w.callers[actions[0].id].commitsSeen == w.commits)
     && Calm(cfg, Step(cfg, w, actions[0]), actions[1..]))
  }

  /** No read has failed. */
  ghost predicate NoFailure(w: World) {
    && !(w.flight.HasRead? && w.flight.block.Err?)
    && (w.flights > 0 && (w.flight.Grounded? || w.flight.Landed?) ==> !w.lastFailed)
  }

  lemma NoFailureKeeps(cfg: Settings, w: World, a: Action)
    requires cfg.epochLength > 0 && Inv(cfg, w) && NoFailure(w) && a != ReadHeight(false)
    ensures NoFailure(Step(cfg, w, a))
  {
    hide CallerInv, ClockInv, Justified;
  }

  lemma {:induction false} CalmHasNoneToWait(cfg: Settings, w: World, actions: seq<Action>)
    requires cfg.epochLength > 0 && Inv(cfg, w) && NoFailure(w) && Calm(cfg, w, actions)
    ensures ExcusedCallersWait(cfg, w, actions)
    decreases |actions|
  {
    hide Inv, Step;
    if actions != [] {
      StepKeeps(cfg, w, actions[0]);
      NoFailureKeeps(cfg, w, actions[0]);
      CalmHasNoneToWait(cfg, Step(cfg, w, actions[0]), actions[1..]);
    }
  }

  /** In a run without failed reads and without commits behind a caller's back, the documented bound holds. */
  lemma CalmRunsAreSpaced(cfg: Settings, w: World, actions: seq<Action>)
    requires cfg.epochLength > 0 && Init(w) && Calm(cfg, w, actions)
    ensures ReadsAreSpaced(cfg, w, actions)
  {
    CalmHasNoneToWait(cfg, w, actions);
    ReadsAreSpacedExactly(cfg, w, actions);
  }

  ghost predicate Reachable(cfg: Settings, w: World)
    requires cfg.epochLength > 0
  {
    exists w0, actions :: Init(w0) && w == Exec(cfg, w0, actions)
  }

  /**
    For every read of every run: when it starts within an interval of the last one, its caller follows a failed read or
    had looked at the clock before the last commit. The clock, however fresh, is not looked at again.
   */
  lemma EarlyReadsAreExcused(cfg: Settings, w: World, id: nat)
    requires cfg.epochLength > 0 && Reachable(cfg, w) && TakesOff(w, id)
    ensures
      var w1 := Step(cfg, w, Join(id));
      && w1.flight == Reading && w1.flights == w.flights + 1 && w1.takeOff == w.now
      && (!Spaced(cfg, w) ==> Excused(w, id))
  {
    hide Inv, TakeOffInv;
    var w0, actions :| Init(w0) && w == Exec(cfg, w0, actions);
    RunKeepsTakeOff(cfg, w0, actions);
    UnexcusedIsSpaced(cfg, w, id);
  }

  lemma {:induction false} ExecKeepsTakeOff(cfg: Settings, w: World, actions: seq<Action>)
    requires cfg.epochLength > 0 && Inv(cfg, w) && (TakeOffInv(w) || w.flights == 0)
    ensures Inv(cfg, Exec(cfg, w, actions)) && (TakeOffInv(Exec(cfg, w, actions)) || Exec(cfg, w, actions).flights == 0)
    decreases |actions|
  {
    hide Inv, TakeOffInv, Step;
    if actions != [] {
      StepKeeps(cfg, w, actions[0]);
      TakeOffKeeps(cfg, w, actions[0]);
      ExecKeepsTakeOff(cfg, Step(cfg, w, actions[0]), actions[1..]);
    }
  }

  lemma RunKeepsTakeOff(cfg: Settings, w: World, actions: seq<Action>)
    requires cfg.epochLength > 0 && Init(w)
    ensures Inv(cfg, Exec(cfg, w, actions)) && (TakeOffInv(Exec(cfg, w, actions)) || Exec(cfg, w, actions).flights == 0)
  {
    ExecKeepsTakeOff(cfg, w, actions);
  }

  /** Two callers look, one read completes, and the second caller starts another at the same instant. */
  lemma SecondReadWithinInterval(cfg: Settings, w: World)
    requires cfg.epochLength > 0 && cfg.interval > 0 && Init(w)
    ensures
      var first := [Call(1), Call(2), Join(1), ReadHeight(true), CommitRead, Deliver];
      var w1 := Exec(cfg, w, first);
      && w1.clock.Fresh(w1.now, cfg.interval) && TakesOff(w1, 2) && !Spaced(cfg, w1)
  {
    hide Exec;
    SixSteps(cfg, w, Call(1), Call(2), Join(1), ReadHeight(true), CommitRead, Deliver);
    var w4 := Step(cfg, Step(cfg, Step(cfg, Step(cfg, w, Call(1)), Call(2)), Join(1)), ReadHeight(true));
    assert Step(cfg, Step(cfg, w4, CommitRead), Deliver).callers[2] == Stale(0);
  }

  /** A read fails, and the next caller, with no outdated look at the clock, starts another at the same instant. */
  lemma FailedReadIsRepeatedAtOnce(cfg: Settings, w: World)
    requires cfg.epochLength > 0 && cfg.interval > 0 && Init(w)
    ensures
      var first := [Call(1), Join(1), ReadHeight(false), CommitRead, Deliver, Call(2)];
      var w1 := Exec(cfg, w, first);
      && TakesOff(w1, 2) && w1.callers[2].commitsSeen == w1.commits && !Spaced(cfg, w1)
  {
    hide Exec;
    SixSteps(cfg, w, Call(1), Join(1), ReadHeight(false), CommitRead, Deliver, Call(2));
    var w4 := Step(cfg, Step(cfg, Step(cfg, Step(cfg, w, Call(1)), Join(1)), ReadHeight(false)), CommitRead);
    assert Step(cfg, w4, Deliver).callers.Keys == {1};
  }

  /**
    Whatever happened before: a read that fails while the clock is not fresh can be repeated at the same instant, by
    any caller that has not called yet.
   */
  lemma FailingHubIsReadAgain(cfg: Settings, w: World, id: nat)
    requires cfg.epochLength > 0 && Reachable(cfg, w) && w.flight == HasRead(Err(()))
    requires id !in w.callers && !w.clock.Fresh(w.now, cfg.interval)
    ensures
      var w1 := Exec(cfg, w, [CommitRead, Deliver, Call(id)]);
      TakesOff(w1, id) && Excused(w1, id) && w1.now == w.now && w1.takeOff == w.takeOff
  {
    var w2 := Step(cfg, Step(cfg, w, CommitRead), Deliver);
    TwoMore(cfg, w, CommitRead, Deliver, [Call(id)]);
    assert [Call(id)][1..] == [];
    assert Exec(cfg, w2, [Call(id)]) == Exec(cfg, Step(cfg, w2, Call(id)), []);
    assert w2.callers.Keys == w.callers.Keys;
  }

  lemma RunTooClose(cfg: Settings, w: World) returns (actions: seq<Action>)
    requires cfg.epochLength > 0 && cfg.interval > 0 && Init(w)
    ensures !ReadsAreSpaced(cfg, w, actions)
  {
    FailedReadIsRepeatedAtOnce(cfg, w);
    var first := [Call(1), Join(1), ReadHeight(false), CommitRead, Deliver, Call(2)];
    var joined := [Join(2)];
    assert joined[0] == Join(2);
    hide Exec, Step, TakesOff, Spaced;
    SpacedConcat(cfg, w, first, joined);
    assert !ReadsAreSpaced(cfg, Exec(cfg, w, first), joined);
    actions := first + joined;
  }

  /** So the documented bound holds in every run exactly when the interval is not positive. */
  lemma BoundHoldsExactlyWithoutInterval(cfg: Settings, w: World)
    requires cfg.epochLength > 0 && Init(w)
    ensures (forall actions :: ReadsAreSpaced(cfg, w, actions)) <==> cfg.interval <= 0
  {
    if cfg.interval <= 0 {
      forall actions ensures ReadsAreSpaced(cfg, w, actions) {
        NoIntervalIsSpaced(cfg, w, actions);
      }
    } else {
      var actions := RunTooClose(cfg, w);
    }
  }

  lemma {:induction false} NoIntervalIsSpaced(cfg: Settings, w: World, actions: seq<Action>)
    requires cfg.epochLength > 0 && cfg.interval <= 0 && (w.flights > 0 ==> w.takeOff <= w.now)
    ensures ReadsAreSpaced(cfg, w, actions)
    decreases |actions|
  {
    if actions != [] {
      NoIntervalIsSpaced(cfg, Step(cfg, w, actions[0]), actions[1..]);
    }
  }

  lemma {:induction false} SpacedConcat(cfg: Settings, w: World, actions: seq<Action>, more: seq<Action>)
    requires cfg.epochLength > 0
    ensures ReadsAreSpaced(cfg, w, actions + more) ==> ReadsAreSpaced(cfg, Exec(cfg, w, actions), more)
    decreases |actions|
  {
    hide Step, Spaced;
    if actions == [] {
      assert actions + more == more;
    } else {
      assert (actions + more)[1..] == actions[1..] + more;
      SpacedConcat(cfg, Step(cfg, w, actions[0]), actions[1..], more);
    }
  }

  lemma SixSteps(cfg: Settings, w: World, a: Action, b: Action, c: Action, d: Action, e: Action, f: Action)
    requires cfg.epochLength > 0
    ensures Exec(cfg, w, [a, b, c, d, e, f]) ==
      Step(cfg, Step(cfg, Step(cfg, Step(cfg, Step(cfg, Step(cfg, w, a), b), c), d), e), f)
  {
    hide Step, Exec;
    var w2 := Step(cfg, Step(cfg, w, a), b);
    var w4 := Step(cfg, Step(cfg, w2, c), d);
    assert [a, b, c, d, e, f] == [a, b] + [c, d, e, f] && [c, d, e, f] == [c, d] + [e, f] && [e, f] == [e, f] + [];
    TwoMore(cfg, w, a, b, [c, d, e, f]);
    TwoMore(cfg, w2, c, d, [e, f]);
    TwoMore(cfg, w4, e, f, []);
    NoMore(cfg, Step(cfg, Step(cfg, w4, e), f));
  }

  lemma NoMore(cfg: Settings, w: World)
    requires cfg.epochLength > 0
    ensures Exec(cfg, w, []) == w
  {
  }

  lemma TwoMore(cfg: Settings, w: World, a: Action, b: Action, rest: seq<Action>)
    requires cfg.epochLength > 0
    ensures Exec(cfg, w, [a, b] + rest) == Exec(cfg, Step(cfg, Step(cfg, w, a), b), rest)
  {
    assert ([a, b] + rest)[1..] == [b] + rest;
    assert ([b] + rest)[1..] == rest;
  }
}
