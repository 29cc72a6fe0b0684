/**
  The peer connections as a state machine. A step is what one goroutine does between taking the lock and giving it
  up. A connect loop gives the lock up while it dials and while it waits, and keeps the peer object it started with even
  when the peer is removed or added again meanwhile. A StartNetwork call holds the lock from its start, and again from
  the end of each of its connect loops, until its next dial or its return; until then no other step can be taken.
 */
module PeerNetwork {
  import opened Basics
  import opened ConnectDelay

  datatype State = Disconnected | Connecting | Connected | Reconnecting | Failed

  /** The fields of a peer that decide anything. */
  datatype Peer = Peer(state: State, retryCount: int)

  /**
    A connect loop while the lock is free: dialing, or waiting after a failed attempt. byStart: run by StartNetwork.
   */
  datatype Loop = Loop(peer: nat, attempt: nat, waiting: bool, delay: int, byStart: bool)

  datatype Config = Config(maxRetries: int, baseDelay: int)

  /**
    objects: every peer object ever made; peers: the table of the handler; loops: the running connect loops;
    pending: goroutines that will attempt a reconnection; starting: a StartNetwork call holds the lock.
   */
  datatype Sys = Sys(
    objects: seq<Peer>, peers: map<string, nat>, loops: map<nat, Loop>, nextLoop: nat,
    pending: multiset<string>, starting: bool, active: bool)

  const FRESH: Peer := Peer(Disconnected, 0)

  datatype Action =
    | StartCall | StartConnect(addr: string) | StartReturn
    | AddPeer(addr: string) | RemovePeer(addr: string)
    | Attempt(addr: string) | DialOk(id: nat) | DialFail(id: nat) | DelayOver(id: nat)
    | DropPeers(lost: set<string>) | SpawnReconnects

  ghost predicate Typed(s: Sys) {
    && (forall addr | addr in s.peers :: s.peers[addr] < |s.objects|)
    && (forall l | l in s.loops :: s.loops[l].peer < |s.objects| && l < s.nextLoop)
  }

  // ---------- the steps ----------

  /** connectWithRetryLocked up to its first dial; without any retries it fails at once. */
  function Connect(cfg: Config, s: Sys, peer: nat, byStart: bool): Sys
    requires peer < |s.objects|
  {
    if cfg.maxRetries <= 0 then
      s.(objects := s.objects[peer := Peer(Failed, 0)])
    else
      s.(objects := s.objects[peer := Peer(Connecting, 1)],
        loops := s.loops[s.nextLoop := Loop(peer, 0, false, 0, byStart)],
         nextLoop := s.nextLoop + 1)
  }

  /** attemptReconnect, by a goroutine no longer counted as pending. */
  function Reconnect(cfg: Config, s: Sys, addr: string): Sys
    requires Typed(s)
  {
    if addr !in s.peers then s
    else
      var state := s.objects[s.peers[addr]].state;
      if state == Connected || state == Connecting || state == Reconnecting then s
        else Connect(cfg, s, s.peers[addr], false)
  }

  /** The end of a connect loop; a StartNetwork call goes on with its next peer. */
  function Settle(s: Sys, id: nat, state: State): Sys
    requires Typed(s) && id in s.loops
  {
    var p := s.loops[id].peer;
    s.(objects := s.objects[p := s.objects[p].(state := state)], loops := s.loops - {id},
       starting := s.loops[id].byStart)
  }

  function Advance(s: Sys, id: nat): Sys
    requires Typed(s) && id in s.loops
  {
    var loop := s.loops[id];
    s.(objects := s.objects[loop.peer := s.objects[loop.peer].(retryCount := loop.attempt + 2)],
       loops := s.loops[id := loop.(attempt := loop.attempt + 1, waiting := false)])
  }

  function Wait(cfg: Config, s: Sys, id: nat): Sys
    requires Typed(s) && id in s.loops
  {
    s.(loops := s.loops[id := s.loops[id].(waiting := true, delay := Delay(cfg.baseDelay, s.loops[id].attempt))])
  }

  function AfterDelay(cfg: Config, s: Sys, id: nat): Sys
    requires Typed(s) && id in s.loops
  {
    var loop := s.loops[id];
    if loop.attempt + 1 < cfg.maxRetries then Advance(s, id) else Settle(s, id, Failed)
  }

  /** A connected object listed under one of these addresses. */
  ghost predicate IsLost(s: Sys, lost: set<string>, i: nat)
    requires i < |s.objects|
  {
    s.objects[i].state == Connected && exists addr :: addr in lost && addr in s.peers && s.peers[addr] == i
  }

  ghost function Dropped(s: Sys, lost: set<string>): (objects: seq<Peer>)
    ensures |objects| == |s.objects|
  {
    seq(|s.objects|, i requires 0 <= i < |s.objects| =>
      if IsLost(s, lost, i) then s.objects[i].(state := Disconnected) else s.objects[i])
  }

  /** The peers reconnectDisconnectedPeers finds. */
  ghost function ToReconnect(s: Sys): set<string>
    requires Typed(s)
  {
    set addr | addr in s.peers &&
      (s.objects[s.peers[addr]].state == Disconnected || s.objects[s.peers[addr]].state == Failed)
  }

  /**
    Whether a step can be taken: the lock is free or held by the StartNetwork call whose step it is. The background
    goroutines run only once the network is active.
   */
  ghost predicate Enabled(s: Sys, a: Action) {
    && Typed(s)
    && (s.starting ==> a.StartConnect? || a.StartReturn?)
    && match a
       case StartCall => !s.active
       case StartConnect(addr) => s.starting && addr in s.peers
       case StartReturn => s.starting
       case AddPeer(addr) => addr !in s.peers
       case RemovePeer(addr) => addr in s.peers
       case Attempt(addr) => addr in s.pending
       case DialOk(id) => id in s.loops && !s.loops[id].waiting
       case DialFail(id) => id in s.loops && !s.loops[id].waiting
       case DelayOver(id) => id in s.loops && s.loops[id].waiting
       case DropPeers(_) => s.active
       case SpawnReconnects => s.active
  }

  ghost function Step(cfg: Config, s: Sys, a: Action): Sys
    requires Enabled(s, a)
  {
    match a
    case StartCall => s.(starting := true)
    case StartConnect(addr) =>
      Connect(cfg, s.(starting := cfg.maxRetries <= 0), s.peers[addr], true)
    case StartReturn => s.(starting := false, active := true)
    case AddPeer(addr) =>
      s.(objects := s.objects + [FRESH], peers := s.peers[addr := |s.objects|],
         pending := if s.active then s.pending + multiset{addr} else s.pending)
    case RemovePeer(addr) => s.(peers := s.peers - {addr})
    case Attempt(addr) => Reconnect(cfg, s.(pending := s.pending - multiset{addr}), addr)
    case DialOk(id) => Settle(s, id, Connected)
    case DialFail(id) => Wait(cfg, s, id)
    case DelayOver(id) => AfterDelay(cfg, s, id)
    case DropPeers(lost) => s.(objects := Dropped(s, lost))
    case SpawnReconnects => s.(pending := s.pending + multiset(ToReconnect(s)))
  }

  // ---------- the invariant ----------

  ghost function Cap(cfg: Config): nat {
    if cfg.maxRetries <= 0 then 0 else cfg.maxRetries
  }

  ghost predicate PeerOk(cfg: Config, p: Peer) {
    p.state != Reconnecting && 0 <= p.retryCount <= Cap(cfg)
  }

  ghost predicate LoopOk(cfg: Config, s: Sys, l: nat)
    requires Typed(s) && l in s.loops
  {
    var loop := s.loops[l];
    && loop.attempt < Cap(cfg)
    && s.objects[loop.peer] == Peer(Connecting, loop.attempt + 1)
    && (loop.waiting ==> loop.delay == Delay(cfg.baseDelay, loop.attempt))
  }

  ghost predicate HasLoop(s: Sys, peer: nat) {
    exists l :: l in s.loops && s.loops[l].peer == peer
  }

  /** Every loop runs on a connecting peer, and no peer has two. */
  ghost predicate Safe(cfg: Config, s: Sys) {
    && Typed(s)
    && (forall i | 0 <= i < |s.objects| :: PeerOk(cfg, s.objects[i]))
    && (forall l | l in s.loops :: LoopOk(cfg, s, l))
    && (forall l, m | l in s.loops && m in s.loops && s.loops[l].peer == s.loops[m].peer :: l == m)
  }

  /** Every connecting peer has a loop. */
  ghost predicate Covered(s: Sys) {
    forall i | 0 <= i < |s.objects| && s.objects[i].state == Connecting :: HasLoop(s, i)
  }

  ghost predicate Inv(cfg: Config, s: Sys) {
    Safe(cfg, s) && Covered(s)
  }

  /** At most one StartNetwork call is under way, none once the network is active, and nothing else runs before that. */
  ghost predicate OneStart(s: Sys) {
    && (s.active ==> !s.starting && forall l | l in s.loops :: !s.loops[l].byStart)
    && (!s.active ==> s.pending == multiset{} && forall l | l in s.loops :: s.loops[l].byStart)
    && (s.starting ==> s.loops == map[])
    && (!s.active ==> forall l, m | l in s.loops && m in s.loops :: l == m)
  }

  /** How coverage passes from one state to the next. */
  lemma CoverageMoves(s: Sys, t: Sys)
    requires Covered(s) && |s.objects| <= |t.objects|
    requires forall i | 0 <= i < |t.objects| && t.objects[i].state == Connecting ::
      HasLoop(t, i) || (i < |s.objects| && s.objects[i].state == Connecting)
    requires forall l |
      l in s.loops && s.loops[l].peer < |t.objects| && t.objects[s.loops[l].peer].state == Connecting ::
      l in t.loops && t.loops[l].peer == s.loops[l].peer
    ensures Covered(t)
  {
    forall i | 0 <= i < |s.objects| && t.objects[i].state == Connecting && s.objects[i].state == Connecting
      ensures HasLoop(t, i)
    {
      assert HasLoop(s, i);
      var l :| l in s.loops && s.loops[l].peer == i;
      assert t.loops[l].peer == i;
    }
  }

  /** A change to an object that no loop runs on. */
  lemma OtherLoopsStay(cfg: Config, s: Sys, peer: nat, p: Peer)
    requires Safe(cfg, s) && peer < |s.objects| && s.objects[peer].state != Connecting && PeerOk(cfg, p)
    ensures Safe(cfg, s.(objects := s.objects[peer := p]))
    ensures forall l | l in s.loops :: s.loops[l].peer != peer
  {
    hide Delay;
    assert forall l | l in s.loops :: LoopOk(cfg, s, l) && s.loops[l].peer != peer;
  }

  /** One more loop on an object that just became connecting. */
  lemma LoopIsSafe(cfg: Config, s: Sys, peer: nat, byStart: bool)
    requires Safe(cfg, s) && peer < |s.objects| && cfg.maxRetries > 0 && s.objects[peer] == Peer(Connecting, 1)
    requires forall l | l in s.loops :: s.loops[l].peer != peer
    ensures Safe(cfg, s.(loops := s.loops[s.nextLoop := Loop(peer, 0, false, 0, byStart)], nextLoop := s.nextLoop + 1))
  {
    hide Delay, PeerOk;
    var t := s.(loops := s.loops[s.nextLoop := Loop(peer, 0, false, 0, byStart)], nextLoop := s.nextLoop + 1);
    assert forall l | l in s.loops :: LoopOk(cfg, s, l) && LoopOk(cfg, t, l);
    assert LoopOk(cfg, t, s.nextLoop);
  }

  lemma ConnectIsSafe(cfg: Config, s: Sys, peer: nat, byStart: bool)
    requires Safe(cfg, s) && peer < |s.objects| && s.objects[peer].state != Connecting
    ensures Safe(cfg, Connect(cfg, s, peer, byStart))
  {
    hide Safe;
    if cfg.maxRetries <= 0 {
      OtherLoopsStay(cfg, s, peer, Peer(Failed, 0));
    } else {
      OtherLoopsStay(cfg, s, peer, Peer(Connecting, 1));
      LoopIsSafe(cfg, s.(objects := s.objects[peer := Peer(Connecting, 1)]), peer, byStart);
    }
  }

  lemma ConnectKeepsInv(cfg: Config, s: Sys, peer: nat, byStart: bool)
    requires Inv(cfg, s) && peer < |s.objects| && s.objects[peer].state != Connecting
    ensures Inv(cfg, Connect(cfg, s, peer, byStart))
  {
    hide Delay, LoopOk, PeerOk;
    ConnectIsSafe(cfg, s, peer, byStart);
    var t := Connect(cfg, s, peer, byStart);
    assert cfg.maxRetries > 0 ==> t.loops[s.nextLoop].peer == peer;
    CoverageMoves(s, t);
  }

  lemma SettleIsSafe(cfg: Config, s: Sys, id: nat, state: State)
    requires Safe(cfg, s) && id in s.loops && state != Connecting && state != Reconnecting
    ensures Safe(cfg, Settle(s, id, state))
  {
    hide Delay;
    assert LoopOk(cfg, s, id);
    assert forall l | l in s.loops && l != id :: LoopOk(cfg, s, l) && s.loops[l].peer != s.loops[id].peer;
  }

  lemma SettleKeepsInv(cfg: Config, s: Sys, id: nat, state: State)
    requires Inv(cfg, s) && id in s.loops && state != Connecting && state != Reconnecting
    ensures Inv(cfg, Settle(s, id, state))
  {
    hide LoopOk, PeerOk;
    SettleIsSafe(cfg, s, id, state);
    CoverageMoves(s, Settle(s, id, state));
  }

  lemma AdvanceIsSafe(cfg: Config, s: Sys, id: nat)
    requires Safe(cfg, s) && id in s.loops && s.loops[id].attempt + 1 < cfg.maxRetries
    ensures Safe(cfg, Advance(s, id))
  {
    hide Delay;
    assert LoopOk(cfg, s, id);
    assert forall l | l in s.loops && l != id :: LoopOk(cfg, s, l) && s.loops[l].peer != s.loops[id].peer;
  }

  lemma AfterDelayKeepsInv(cfg: Config, s: Sys, id: nat)
    requires Inv(cfg, s) && id in s.loops
    ensures Inv(cfg, AfterDelay(cfg, s, id))
  {
    hide LoopOk, PeerOk, Settle;
    if s.loops[id].attempt + 1 < cfg.maxRetries {
      AdvanceIsSafe(cfg, s, id);
      CoverageMoves(s, Advance(s, id));
    } else {
      SettleKeepsInv(cfg, s, id, Failed);
    }
  }

  lemma WaitIsSafe(cfg: Config, s: Sys, id: nat)
    requires Safe(cfg, s) && id in s.loops
    ensures Safe(cfg, Wait(cfg, s, id))
  {
    hide Delay, PeerOk;
    assert LoopOk(cfg, s, id);
    assert forall l | l in s.loops && l != id :: LoopOk(cfg, s, l);
  }

  lemma WaitKeepsInv(cfg: Config, s: Sys, id: nat)
    requires Inv(cfg, s) && id in s.loops
    ensures Inv(cfg, Wait(cfg, s, id))
  {
    hide LoopOk, PeerOk, Delay;
    WaitIsSafe(cfg, s, id);
    CoverageMoves(s, Wait(cfg, s, id));
  }

  lemma DropIsSafe(cfg: Config, s: Sys, lost: set<string>)
    requires Safe(cfg, s)
    ensures Safe(cfg, s.(objects := Dropped(s, lost)))
  {
    hide Delay;
    assert forall l | l in s.loops :: LoopOk(cfg, s, l);
  }

  lemma DropKeepsInv(cfg: Config, s: Sys, lost: set<string>)
    requires Inv(cfg, s)
    ensures Inv(cfg, s.(objects := Dropped(s, lost)))
  {
    hide LoopOk, PeerOk;
    DropIsSafe(cfg, s, lost);
    CoverageMoves(s, s.(objects := Dropped(s, lost)));
  }

  lemma AddIsSafe(cfg: Config, s: Sys, addr: string)
    requires Safe(cfg, s) && Enabled(s, AddPeer(addr))
    ensures Safe(cfg, Step(cfg, s, AddPeer(addr)))
  {
    hide Delay;
    var t := Step(cfg, s, AddPeer(addr));
    assert forall l | l in s.loops :: LoopOk(cfg, s, l) && t.objects[s.loops[l].peer] == s.objects[s.loops[l].peer];
  }

  lemma AddKeepsInv(cfg: Config, s: Sys, addr: string)
    requires Inv(cfg, s) && Enabled(s, AddPeer(addr))
    ensures Inv(cfg, Step(cfg, s, AddPeer(addr)))
  {
    hide LoopOk, PeerOk;
    AddIsSafe(cfg, s, addr);
    CoverageMoves(s, Step(cfg, s, AddPeer(addr)));
  }

  /** A change to anything but objects, loops and the peer table. */
  lemma SameLoopsKeepInv(cfg: Config, s: Sys, t: Sys)
    requires Inv(cfg, s) && Typed(t) && t.objects == s.objects && t.loops == s.loops
    ensures Inv(cfg, t)
  {
    hide Delay;
    assert forall l | l in s.loops :: LoopOk(cfg, s, l);
    CoverageMoves(s, t);
  }

  lemma ReconnectKeepsInv(cfg: Config, s: Sys, addr: string)
    requires Inv(cfg, s)
    ensures Inv(cfg, Reconnect(cfg, s, addr))
  {
    hide Connect, Safe, Covered;
    TypedFromSafe(cfg, s);
    if addr in s.peers {
      var state := s.objects[s.peers[addr]].state;
      if state == Disconnected || state == Failed {
        ConnectKeepsInv(cfg, s, s.peers[addr], false);
      }
    }
  }

  lemma TypedFromSafe(cfg: Config, s: Sys)
    requires Safe(cfg, s)
    ensures Typed(s)
  {
  }

  lemma NoLoopsNoConnecting(cfg: Config, s: Sys, peer: nat)
    requires Inv(cfg, s) && s.loops == map[] && peer < |s.objects|
    ensures s.objects[peer].state != Connecting
  {
    hide Safe;
    assert !HasLoop(s, peer);
  }

  /** A StartNetwork call beginning while no other is under way. */
  ghost predicate StartsAlone(s: Sys, a: Action) {
    a.StartCall? ==> s.loops == map[]
  }

  lemma StartConnectKeepsInv(cfg: Config, s: Sys, addr: string)
    requires Inv(cfg, s) && OneStart(s) && Enabled(s, StartConnect(addr))
    ensures Inv(cfg, Step(cfg, s, StartConnect(addr)))
  {
    hide Safe, Covered, Connect;
    NoLoopsNoConnecting(cfg, s, s.peers[addr]);
    var fewer := s.(starting := cfg.maxRetries <= 0);
    SameLoopsKeepInv(cfg, s, fewer);
    ConnectKeepsInv(cfg, fewer, s.peers[addr], true);
  }

  lemma StepKeepsInv(cfg: Config, s: Sys, a: Action)
    requires Inv(cfg, s) && OneStart(s) && Enabled(s, a)
    ensures Inv(cfg, Step(cfg, s, a))
  {
    hide Safe, Covered, Connect, Settle, Reconnect, Wait, AfterDelay, OneStart;
    match a
    case StartCall => SameLoopsKeepInv(cfg, s, Step(cfg, s, a));
    case StartConnect(addr) => StartConnectKeepsInv(cfg, s, addr);
    case StartReturn => SameLoopsKeepInv(cfg, s, Step(cfg, s, a));
    case AddPeer(addr) => AddKeepsInv(cfg, s, addr);
    case RemovePeer(addr) => SameLoopsKeepInv(cfg, s, Step(cfg, s, a));
    case Attempt(addr) =>
      var fewer := s.(pending := s.pending - multiset{addr});
      SameLoopsKeepInv(cfg, s, fewer);
      ReconnectKeepsInv(cfg, fewer, addr);
    case DialOk(id) => SettleKeepsInv(cfg, s, id, Connected);
    case DialFail(id) => WaitKeepsInv(cfg, s, id);
    case DelayOver(id) => AfterDelayKeepsInv(cfg, s, id);
    case DropPeers(lost) => DropKeepsInv(cfg, s, lost);
    case SpawnReconnects => SameLoopsKeepInv(cfg, s, Step(cfg, s, a));
  }

  lemma StartConnectKeepsOneStart(cfg: Config, s: Sys, addr: string)
    requires OneStart(s) && Enabled(s, StartConnect(addr))
    ensures OneStart(Step(cfg, s, StartConnect(addr)))
  {
    var t := Step(cfg, s, StartConnect(addr));
    assert forall l | l in t.loops :: l == s.nextLoop;
  }

  lemma AttemptKeepsOneStart(cfg: Config, s: Sys, addr: string)
    requires OneStart(s) && Enabled(s, Attempt(addr))
    ensures OneStart(Step(cfg, s, Attempt(addr)))
  {
  }

  lemma SettleKeepsOneStart(s: Sys, id: nat, state: State)
    requires OneStart(s) && Typed(s) && id in s.loops
    ensures OneStart(Settle(s, id, state))
  {
    var t := Settle(s, id, state);
    assert !s.active ==> t.loops == map[];
  }

  lemma SameOwnerKeepsOneStart(s: Sys, id: nat, t: Sys)
    requires OneStart(s) && id in s.loops && t.loops.Keys == s.loops.Keys
    requires forall l | l in t.loops :: t.loops[l].byStart == s.loops[l].byStart
    requires t.starting == s.starting && t.active == s.active && t.pending == s.pending
    ensures OneStart(t)
  {
  }

  lemma OtherKeepsOneStart(cfg: Config, s: Sys, a: Action)
    requires OneStart(s) && Enabled(s, a) && StartsAlone(s, a)
    requires a.StartCall? || a.StartReturn? || a.AddPeer? || a.RemovePeer? || a.DropPeers? || a.SpawnReconnects?
    ensures OneStart(Step(cfg, s, a))
  {
    hide Dropped, ToReconnect;
  }

  lemma StepKeepsOneStart(cfg: Config, s: Sys, a: Action)
    requires OneStart(s) && Enabled(s, a) && StartsAlone(s, a)
    ensures OneStart(Step(cfg, s, a))
  {
    hide Delay, Dropped, ToReconnect, OneStart;
    match a
    case StartConnect(addr) => StartConnectKeepsOneStart(cfg, s, addr);
    case Attempt(addr) => AttemptKeepsOneStart(cfg, s, addr);
    case DialOk(id) => SettleKeepsOneStart(s, id, Connected);
    case DialFail(id) => SameOwnerKeepsOneStart(s, id, Step(cfg, s, a));
    case DelayOver(id) =>
      SettleKeepsOneStart(s, id, Failed);
      SameOwnerKeepsOneStart(s, id, Advance(s, id));
    case _ => OtherKeepsOneStart(cfg, s, a);
  }

  // ---------- every run ----------

  /** NewNetworkHandler's settings: zero means the default, and the delay's product can wrap. */
  function HandlerConfig(maxRetries: int, retryBaseDelayMs: int): Config {
    Config(if maxRetries == 0 then 5 else maxRetries,
           Wrap((if retryBaseDelayMs == 0 then 1000 else retryBaseDelayMs) * 1_000_000))
  }

  /** A new handler: its bootstrap peers disconnected, and nothing running. */
  ghost predicate IsNew(s: Sys) {
    && Typed(s) && (forall i | 0 <= i < |s.objects| :: s.objects[i] == FRESH)
    && s.loops == map[] && s.pending == multiset{} && !s.starting && !s.active
  }

  /**
    The state after a run, oldest step first. None when some step was not possible or a StartNetwork call began while
    another was under way.
   */
  ghost function After(cfg: Config, s0: Sys, run: seq<Action>): Option<Sys> {
    if run == [] then Some(s0)
    else
      match After(cfg, s0, run[..|run| - 1])
      case None => None
      case Some(s) =>
        var a := run[|run| - 1];
        if Enabled(s, a) && StartsAlone(s, a) then Some(Step(cfg, s, a)) else None
  }

  lemma {:induction false} RunsKeepInvFrom(cfg: Config, s: Sys, run: seq<Action>)
    requires Inv(cfg, s) && OneStart(s) && After(cfg, s, run).Some?
    ensures Inv(cfg, After(cfg, s, run).value) && OneStart(After(cfg, s, run).value)
  {
    hide Step, Enabled, StartsAlone, Inv, OneStart;
    if run != [] {
      var before, a := run[..|run| - 1], run[|run| - 1];
      RunsKeepInvFrom(cfg, s, before);
      StepKeepsInv(cfg, After(cfg, s, before).value, a);
      StepKeepsOneStart(cfg, After(cfg, s, before).value, a);
    }
  }

  lemma NewIsFine(cfg: Config, s: Sys)
    requires IsNew(s)
    ensures Inv(cfg, s) && OneStart(s)
  {
  }

  lemma RunsKeepInv(cfg: Config, s0: Sys, run: seq<Action>)
    requires IsNew(s0) && After(cfg, s0, run).Some?
    ensures Inv(cfg, After(cfg, s0, run).value) && OneStart(After(cfg, s0, run).value)
  {
    hide IsNew, Inv, OneStart, After;
    NewIsFine(cfg, s0);
    RunsKeepInvFrom(cfg, s0, run);
  }

  ghost function LoopsOn(s: Sys, peer: nat): set<nat> {
    set l | l in s.loops && s.loops[l].peer == peer
  }

  lemma OneLoopExactly(cfg: Config, s: Sys, i: nat)
    requires Inv(cfg, s) && i < |s.objects|
    ensures |LoopsOn(s, i)| == if s.objects[i].state == Connecting then 1 else 0
  {
    var on := LoopsOn(s, i);
    if s.objects[i].state == Connecting {
      var l :| l in s.loops && s.loops[l].peer == i;
      assert forall m | m in on :: m == l;
      assert on == {l};
    } else {
      assert forall l | l in s.loops :: LoopOk(cfg, s, l);
      assert on == {};
    }
  }

  /**
    In every run, whatever the ticks, lost peers, added and removed peers: each peer object has exactly one connect
    loop while it is connecting and none otherwise, is never seen reconnecting, and never counts more tries than the
    maximum.
   */
  lemma OneLoopPerConnectingPeer(cfg: Config, s0: Sys, run: seq<Action>, i: nat)
    requires IsNew(s0) && After(cfg, s0, run).Some? && i < |After(cfg, s0, run).value.objects|
    ensures
      var s := After(cfg, s0, run).value;
      && |LoopsOn(s, i)| == (if s.objects[i].state == Connecting then 1 else 0)
      && s.objects[i].state != Reconnecting && 0 <= s.objects[i].retryCount <= Cap(cfg)
  {
    RunsKeepInv(cfg, s0, run);
    var s := After(cfg, s0, run).value;
    OneLoopExactly(cfg, s, i);
    assert PeerOk(cfg, s.objects[i]);
  }

  /** While the last try's delay does not overflow, every waiting loop waits min(base * 2^attempt, 30s). */
  lemma EveryDelayIsCapped(cfg: Config, s0: Sys, run: seq<Action>, l: nat)
    requires IsNew(s0) && After(cfg, s0, run).Some?
    requires cfg.baseDelay > 0 && cfg.maxRetries > 0 && cfg.baseDelay * Pow2(cfg.maxRetries - 1) < TWO_63
    requires l in After(cfg, s0, run).value.loops && After(cfg, s0, run).value.loops[l].waiting
    ensures
      var loop := After(cfg, s0, run).value.loops[l];
      loop.delay == Min(cfg.baseDelay * Pow2(loop.attempt), MAX_DELAY) && 0 < loop.delay <= 30_000_000_000
  {
    hide Pow2, Min, Delay;
    RunsKeepInv(cfg, s0, run);
    var s := After(cfg, s0, run).value;
    assert LoopOk(cfg, s, l);
    DelaysAreCapped(cfg.baseDelay, cfg.maxRetries, s.loops[l].attempt);
  }

  // ---------- loops end ----------

  /** The dials and waits a loop still has before it. */
  ghost function LoopRank(cfg: Config, s: Sys, l: nat): int
    requires l in s.loops
  {
    2 * (cfg.maxRetries - s.loops[l].attempt) - (if s.loops[l].waiting then 1 else 0)
  }

  ghost predicate StepsLoop(a: Action, l: nat) {
    (a.DialOk? || a.DialFail? || a.DelayOver?) && a.id == l
  }

  /** Each step of a loop brings it closer to its end, and no other step touches it. */
  lemma LoopsRunDown(cfg: Config, s: Sys, a: Action, l: nat)
    requires Inv(cfg, s) && Enabled(s, a) && l in s.loops
    ensures LoopRank(cfg, s, l) > 0
    ensures !StepsLoop(a, l) ==> l in Step(cfg, s, a).loops && Step(cfg, s, a).loops[l] == s.loops[l]
    ensures StepsLoop(a, l) && l in Step(cfg, s, a).loops ==> LoopRank(cfg, Step(cfg, s, a), l) < LoopRank(cfg, s, l)
  {
    hide Delay, Dropped, ToReconnect, PeerOk, Covered;
    assert LoopOk(cfg, s, l);
  }

  // ---------- what state a peer is in ----------

  /** The state before step k of a run that can be taken. */
  ghost function At(cfg: Config, s0: Sys, run: seq<Action>, k: nat): Sys
    requires k <= |run|
  {
    match After(cfg, s0, run[..k]) case None => s0 case Some(s) => s
  }

  /** A dial of a loop on this peer object succeeds. */
  ghost predicate DialSucceeds(s: Sys, a: Action, peer: nat) {
    a.DialOk? && a.id in s.loops && s.loops[a.id].peer == peer
  }

  /** The object is found lost under some address, or a StartNetwork call connects to it again. */
  ghost predicate Disturbed(s: Sys, a: Action, peer: nat) {
    || (a.DropPeers? && exists addr :: addr in a.lost && addr in s.peers && s.peers[addr] == peer)
    || (a.StartConnect? && a.addr in s.peers && s.peers[a.addr] == peer)
  }

  /** The object is connected, as far as there is one. */
  ghost predicate IsConnected(s: Sys, peer: nat) {
    peer < |s.objects| && s.objects[peer].state == Connected
  }

  lemma ConnectedAfterDial(cfg: Config, s: Sys, a: Action, peer: nat)
    requires Inv(cfg, s) && Enabled(s, a) && (a.DialOk? || a.DialFail?)
    ensures IsConnected(Step(cfg, s, a), peer) <==> DialSucceeds(s, a, peer) || IsConnected(s, peer)
  {
    hide Delay, Covered, PeerOk;
    assert LoopOk(cfg, s, a.id);
  }

  lemma ConnectedAfterDelay(cfg: Config, s: Sys, id: nat, peer: nat)
    requires Inv(cfg, s) && Enabled(s, DelayOver(id))
    ensures IsConnected(Step(cfg, s, DelayOver(id)), peer) <==> IsConnected(s, peer)
  {
    hide Delay, Covered, PeerOk;
    assert LoopOk(cfg, s, id);
  }

  lemma ConnectedAfterConnect(cfg: Config, s: Sys, a: Action, peer: nat)
    requires Enabled(s, a) && (a.StartConnect? || a.Attempt?)
    ensures IsConnected(Step(cfg, s, a), peer) <==> IsConnected(s, peer) && !Disturbed(s, a, peer)
  {
    hide Delay;
  }

  lemma ConnectedAfterDrop(cfg: Config, s: Sys, lost: set<string>, peer: nat)
    requires Enabled(s, DropPeers(lost))
    ensures IsConnected(Step(cfg, s, DropPeers(lost)), peer) <==>
      IsConnected(s, peer) && !Disturbed(s, DropPeers(lost), peer)
  {
  }

  lemma ConnectedAfterOther(cfg: Config, s: Sys, a: Action, peer: nat)
    requires Enabled(s, a)
    requires a.StartCall? || a.StartReturn? || a.AddPeer? || a.RemovePeer? || a.SpawnReconnects?
    ensures IsConnected(Step(cfg, s, a), peer) <==> IsConnected(s, peer)
  {
    hide ToReconnect;
  }

  lemma ConnectedAfterStep(cfg: Config, s: Sys, a: Action, peer: nat)
    requires Inv(cfg, s) && Enabled(s, a)
    ensures IsConnected(Step(cfg, s, a), peer) <==>
      DialSucceeds(s, a, peer) || (IsConnected(s, peer) && !Disturbed(s, a, peer))
  {
    hide Step, Enabled, Inv, IsConnected;
    match a
    case DialOk(_) => ConnectedAfterDial(cfg, s, a, peer);
    case DialFail(_) => ConnectedAfterDial(cfg, s, a, peer);
    case DelayOver(id) => ConnectedAfterDelay(cfg, s, id, peer);
    case StartConnect(_) => ConnectedAfterConnect(cfg, s, a, peer);
    case Attempt(_) => ConnectedAfterConnect(cfg, s, a, peer);
    case DropPeers(lost) => ConnectedAfterDrop(cfg, s, lost, peer);
    case _ => ConnectedAfterOther(cfg, s, a, peer);
  }

  /** A dial on the object succeeds at step k of the run, and nothing disturbs it later. */
  ghost predicate ConnectedSince(cfg: Config, s0: Sys, run: seq<Action>, peer: nat, k: nat) {
    && k < |run| && DialSucceeds(At(cfg, s0, run, k), run[k], peer)
    && forall j | k < j < |run| :: !Disturbed(At(cfg, s0, run, j), run[j], peer)
  }

  lemma RunBefore(cfg: Config, s0: Sys, run: seq<Action>)
    requires run != [] && After(cfg, s0, run).Some?
    ensures
      var before, a := run[..|run| - 1], run[|run| - 1];
      && After(cfg, s0, before).Some? && At(cfg, s0, run, |run| - 1) == After(cfg, s0, before).value
      && Enabled(After(cfg, s0, before).value, a)
      && After(cfg, s0, run).value == Step(cfg, After(cfg, s0, before).value, a)
  {
    hide Step, Enabled, StartsAlone;
  }

  lemma SinceBefore(cfg: Config, s0: Sys, run: seq<Action>, peer: nat, k: nat)
    requires run != [] && k < |run| - 1
    ensures ConnectedSince(cfg, s0, run, peer, k) <==>
      && ConnectedSince(cfg, s0, run[..|run| - 1], peer, k)
      && !Disturbed(At(cfg, s0, run, |run| - 1), run[|run| - 1], peer)
  {
    hide After, DialSucceeds, Disturbed;
    var n := |run| - 1;
    var before := run[..n];
    forall j | 0 <= j < n ensures before[j] == run[j] && At(cfg, s0, before, j) == At(cfg, s0, run, j) {
      assert before[..j] == run[..j];
    }
  }

  /**
    In every run a peer object is connected exactly when a dial of one of its loops succeeded and since then no step has
    found it lost and no StartNetwork call has connected to it again.
   */
  lemma {:induction false} ConnectedExactly(cfg: Config, s0: Sys, run: seq<Action>, peer: nat)
    requires IsNew(s0) && After(cfg, s0, run).Some?
    ensures IsConnected(After(cfg, s0, run).value, peer) <==>
      exists k: nat :: ConnectedSince(cfg, s0, run, peer, k)
    decreases |run|
  {
    hide Step, Enabled, Inv, OneStart, After, At, DialSucceeds, Disturbed, ConnectedSince, IsConnected;
    if run == [] {
      NoneConnected(cfg, s0, peer);
    } else {
      var n := |run| - 1;
      RunBefore(cfg, s0, run);
      RunsKeepInv(cfg, s0, run[..n]);
      ConnectedExactly(cfg, s0, run[..n], peer);
      ConnectedAfterStep(cfg, At(cfg, s0, run, n), run[n], peer);
      SinceStep(cfg, s0, run, peer);
    }
  }

  lemma NoneConnected(cfg: Config, s0: Sys, peer: nat)
    requires IsNew(s0)
    ensures After(cfg, s0, []) == Some(s0) && !IsConnected(s0, peer)
    ensures forall k: nat :: !ConnectedSince(cfg, s0, [], peer, k)
  {
  }

  lemma SinceStep(cfg: Config, s0: Sys, run: seq<Action>, peer: nat)
    requires run != []
    ensures
      var n := |run| - 1;
      var before := run[..n];
      (exists k: nat :: ConnectedSince(cfg, s0, run, peer, k)) <==>
      || DialSucceeds(At(cfg, s0, run, n), run[n], peer)
      || ((exists k: nat :: ConnectedSince(cfg, s0, before, peer, k)) && !Disturbed(At(cfg, s0, run, n), run[n], peer))
  {
    var n := |run| - 1;
    var before := run[..n];
    assert ConnectedSince(cfg, s0, run, peer, n) <==> DialSucceeds(At(cfg, s0, run, n), run[n], peer);
    InRange(cfg, s0, run, peer);
    InRange(cfg, s0, before, peer);
    hide At, DialSucceeds, Disturbed, ConnectedSince;
    forall k: nat | k < n
      ensures ConnectedSince(cfg, s0, run, peer, k) <==>
        ConnectedSince(cfg, s0, before, peer, k) && !Disturbed(At(cfg, s0, run, n), run[n], peer)
    {
      SinceBefore(cfg, s0, run, peer, k);
    }
  }

  lemma InRange(cfg: Config, s0: Sys, run: seq<Action>, peer: nat)
    ensures forall k: nat | ConnectedSince(cfg, s0, run, peer, k) :: k < |run|
  {
  }

  // ---------- how often a loop dials ----------

  /**
    What a run has made of the loops started in it: a loop under way has failed to dial as often as it counts, and one
    that ended has dialed successfully once, or failed as often as there are retries.
   */
  ghost predicate Tried(cfg: Config, s0: Sys, s: Sys, run: seq<Action>, id: nat) {
    var ok, failed := multiset(run)[DialOk(id)], multiset(run)[DialFail(id)];
    if id in s.loops then
      ok == 0 && failed == s.loops[id].attempt + if s.loops[id].waiting then 1 else 0
    else if s0.nextLoop <= id < s.nextLoop then
      (ok == 1 && failed < cfg.maxRetries) || (ok == 0 && failed == cfg.maxRetries)
    else ok == 0 && failed == 0
  }

  /** What a step does to one loop. */
  ghost predicate LoopMoves(cfg: Config, s: Sys, a: Action, t: Sys, id: nat) {
    if a == DialOk(id) then id in s.loops && !s.loops[id].waiting && id !in t.loops
    else if a == DialFail(id) then
      id in s.loops && !s.loops[id].waiting && id in t.loops && t.loops[id].attempt == s.loops[id].attempt
      && t.loops[id].waiting
    else if a == DelayOver(id) then
      && id in s.loops && s.loops[id].waiting
      && if id in t.loops then t.loops[id].attempt == s.loops[id].attempt + 1 && !t.loops[id].waiting
         else s.loops[id].attempt + 1 == cfg.maxRetries
    else if id in s.loops then id in t.loops && t.loops[id] == s.loops[id]
    else id in t.loops ==> id == s.nextLoop && t.loops[id].attempt == 0 && !t.loops[id].waiting
  }

  lemma LoopAfterOwnStep(cfg: Config, s: Sys, a: Action, id: nat)
    requires Inv(cfg, s) && Enabled(s, a) && (a.DialOk? || a.DialFail? || a.DelayOver?)
    ensures LoopMoves(cfg, s, a, Step(cfg, s, a), id)
  {
    hide Delay, Dropped, ToReconnect, Covered, PeerOk;
    assert LoopOk(cfg, s, a.id);
  }

  lemma LoopAfterConnect(cfg: Config, s: Sys, a: Action, id: nat)
    requires Enabled(s, a) && (a.StartConnect? || a.Attempt?)
    ensures LoopMoves(cfg, s, a, Step(cfg, s, a), id)
  {
    hide Delay;
  }

  lemma LoopAfterOther(cfg: Config, s: Sys, a: Action, id: nat)
    requires Enabled(s, a)
    requires a.StartCall? || a.StartReturn? || a.AddPeer? || a.RemovePeer? || a.DropPeers? || a.SpawnReconnects?
    ensures LoopMoves(cfg, s, a, Step(cfg, s, a), id)
  {
    hide Dropped, ToReconnect;
  }

  lemma LoopAfterStep(cfg: Config, s: Sys, a: Action, id: nat)
    requires Inv(cfg, s) && Enabled(s, a)
    ensures LoopMoves(cfg, s, a, Step(cfg, s, a), id)
  {
    hide Step, Enabled, Inv, LoopMoves;
    match a
    case DialOk(_) => LoopAfterOwnStep(cfg, s, a, id);
    case DialFail(_) => LoopAfterOwnStep(cfg, s, a, id);
    case DelayOver(_) => LoopAfterOwnStep(cfg, s, a, id);
    case StartConnect(_) => LoopAfterConnect(cfg, s, a, id);
    case Attempt(_) => LoopAfterConnect(cfg, s, a, id);
    case _ => LoopAfterOther(cfg, s, a, id);
  }

  /** A loop is numbered when it is started. */
  lemma NextLoopAfterStep(cfg: Config, s: Sys, a: Action)
    requires Inv(cfg, s) && Enabled(s, a)
    ensures
      var t := Step(cfg, s, a);
      && s.nextLoop <= t.nextLoop <= s.nextLoop + 1 && (t.nextLoop > s.nextLoop ==> s.nextLoop in t.loops)
      && (forall id | id in s.loops :: id < s.nextLoop) && forall id | id in t.loops :: id < t.nextLoop
  {
    hide Delay, Dropped, ToReconnect, Covered, PeerOk, LoopOk;
  }

  lemma AttemptsAreFew(cfg: Config, s: Sys, id: nat)
    requires Inv(cfg, s) && id in s.loops
    ensures s.loops[id].attempt < cfg.maxRetries
  {
    assert LoopOk(cfg, s, id);
  }

  lemma TriedStep(cfg: Config, s0: Sys, s: Sys, run: seq<Action>, a: Action, id: nat)
    requires Inv(cfg, s) && Enabled(s, a) && s0.nextLoop <= s.nextLoop
    requires Tried(cfg, s0, s, run, id) && (id in s.loops ==> id >= s0.nextLoop)
    ensures Tried(cfg, s0, Step(cfg, s, a), run + [a], id)
    ensures s0.nextLoop <= Step(cfg, s, a).nextLoop && (id in Step(cfg, s, a).loops ==> id >= s0.nextLoop)
  {
    hide Step, Enabled, Inv;
    assert multiset(run + [a]) == multiset(run) + multiset{a};
    LoopAfterStep(cfg, s, a, id);
    NextLoopAfterStep(cfg, s, a);
    if id in s.loops { AttemptsAreFew(cfg, s, id); }
  }

  lemma {:induction false} RunTried(cfg: Config, s0: Sys, run: seq<Action>, id: nat)
    requires IsNew(s0) && After(cfg, s0, run).Some?
    ensures
      var s := After(cfg, s0, run).value;
      Tried(cfg, s0, s, run, id) && s0.nextLoop <= s.nextLoop && (id in s.loops ==> id >= s0.nextLoop)
    decreases |run|
  {
    if run == [] {
      assert multiset(run) == multiset{};
    } else {
      hide Step, Enabled, Inv, OneStart, Tried;
      var n := |run| - 1;
      RunBefore(cfg, s0, run);
      RunsKeepInv(cfg, s0, run[..n]);
      RunTried(cfg, s0, run[..n], id);
      TriedStep(cfg, s0, After(cfg, s0, run[..n]).value, run[..n], run[n], id);
      assert run == run[..n] + [run[n]];
    }
  }

  /**
    In every run a connect loop that has ended either dialed successfully, once and after fewer failures than there are
    retries, or failed exactly as often as there are.
   */
  lemma LoopsDialExactly(cfg: Config, s0: Sys, run: seq<Action>, id: nat)
    requires IsNew(s0) && After(cfg, s0, run).Some? && s0.nextLoop <= id < After(cfg, s0, run).value.nextLoop
    requires id !in After(cfg, s0, run).value.loops
    ensures
      var ok, failed := multiset(run)[DialOk(id)], multiset(run)[DialFail(id)];
      (ok == 1 && failed < cfg.maxRetries) || (ok == 0 && failed == cfg.maxRetries)
  {
    RunTried(cfg, s0, run, id);
  }

  /**
    A connected peer that is found lost, and one that is disconnected or failed, is dialed again after the next tick.
   */
  lemma LostPeerIsDialedAgain(cfg: Config, s: Sys, addr: string)
    requires Inv(cfg, s) && s.active && !s.starting && addr in s.peers && cfg.maxRetries > 0
    requires s.objects[s.peers[addr]].state != Connecting
    ensures
      var t := After(cfg, s, [DropPeers({addr}), SpawnReconnects, Attempt(addr)]);
      && t.Some? && |t.value.objects| == |s.objects| && s.peers[addr] < |s.objects|
      && t.value.objects[s.peers[addr]] == Peer(Connecting, 1) && HasLoop(t.value, s.peers[addr])
  {
    hide Delay;
    var peer := s.peers[addr];
    assert PeerOk(cfg, s.objects[peer]);
    var s1 := Step(cfg, s, DropPeers({addr}));
    assert s1.objects[peer].state == Disconnected || s1.objects[peer].state == Failed;
    var s2 := Step(cfg, s1, SpawnReconnects);
    assert addr in ToReconnect(s1);
    var s3 := Step(cfg, s2, Attempt(addr));
    assert s3.loops[s2.nextLoop].peer == peer;
    ThreeSteps(cfg, s, DropPeers({addr}), SpawnReconnects, Attempt(addr));
  }

  lemma ThreeSteps(cfg: Config, s: Sys, a: Action, b: Action, c: Action)
    requires Enabled(s, a) && !a.StartCall? && Enabled(Step(cfg, s, a), b) && !b.StartCall?
    requires Enabled(Step(cfg, Step(cfg, s, a), b), c) && !c.StartCall?
    ensures After(cfg, s, [a, b, c]) == Some(Step(cfg, Step(cfg, Step(cfg, s, a), b), c))
  {
    hide Step, Enabled;
    assert [a][..0] == [];
    assert After(cfg, s, [a]) == Some(Step(cfg, s, a));
    assert [a, b, c][..2] == [a, b] && [a, b][..1] == [a];
  }

  // ---------- overlapping StartNetwork calls ----------

  /** Two connect loops run on one peer object. */
  ghost predicate Doubled(s: Sys) {
    exists l, m :: l in s.loops && m in s.loops && l != m && s.loops[l].peer == s.loops[m].peer
  }

  lemma {:induction false} FreshAddress(addrs: set<string>) returns (addr: string)
    ensures addr !in addrs && addr != "" && forall a | a in addrs :: |a| < |addr|
  {
    addr := "/";
    if addrs != {} {
      var a :| a in addrs;
      var rest := FreshAddress(addrs - {a});
      addr := rest + a;
      forall b | b in addrs ensures |b| < |addr| {
        assert b == a || b in addrs - {a};
        assert |addr| == |rest| + |a|;
      }
    }
  }

  /** A StartNetwork call connects to a listed peer whatever its state. */
  lemma SecondLoop(cfg: Config, s: Sys, addr: string)
    requires Typed(s) && s.starting && cfg.maxRetries > 0 && addr in s.peers
    ensures Enabled(s, StartConnect(addr))
    ensures
      var t := Step(cfg, s, StartConnect(addr));
      && Typed(t) && t.peers == s.peers && !t.starting && t.active == s.active && t.nextLoop == s.nextLoop + 1
      && t.loops == s.loops[s.nextLoop := Loop(s.peers[addr], 0, false, 0, true)]
      && (HasLoop(s, s.peers[addr]) ==> Doubled(t))
  {
    var t := Step(cfg, s, StartConnect(addr));
    assert t.loops[s.nextLoop].peer == s.peers[addr];
    if HasLoop(s, s.peers[addr]) {
      var l :| l in s.loops && s.loops[l].peer == s.peers[addr];
      assert l != s.nextLoop && t.loops[l].peer == s.peers[addr];
    }
  }

  lemma Extend(cfg: Config, s: Sys, run: seq<Action>, a: Action) returns (longer: seq<Action>, t: Sys)
    requires After(cfg, s, run).Some? && Enabled(After(cfg, s, run).value, a) && !a.StartCall?
    ensures longer == run + [a] && t == Step(cfg, After(cfg, s, run).value, a) && After(cfg, s, longer) == Some(t)
  {
    hide Step, Enabled;
    longer, t := run + [a], Step(cfg, After(cfg, s, run).value, a);
    assert longer[..|run|] == run;
  }

  /** A loop of a StartNetwork call has ended and the call holds the lock, everything else being as before. */
  ghost predicate WentOn(s: Sys, l: nat, t: Sys) {
    && Typed(t) && t.starting && t.peers == s.peers && t.active == s.active && t.nextLoop == s.nextLoop
    && t.loops == s.loops - {l}
  }

  /** Such a loop can end, so that its call goes on to its next peer. */
  lemma LoopCanEnd(cfg: Config, s0: Sys, run: seq<Action>, l: nat) returns (longer: seq<Action>, t: Sys)
    requires After(cfg, s0, run).Some?
    requires
      var s := After(cfg, s0, run).value;
      Typed(s) && !s.starting && l in s.loops && s.loops[l].byStart
    ensures After(cfg, s0, longer) == Some(t) && WentOn(After(cfg, s0, run).value, l, t)
  {
    hide After;
    var s := After(cfg, s0, run).value;
    if !s.loops[l].waiting {
      longer, t := Extend(cfg, s0, run, DialOk(l));
    } else {
      longer, t := Extend(cfg, s0, run, DelayOver(l));
      if s.loops[l].attempt + 1 < cfg.maxRetries {
        longer, t := Extend(cfg, s0, longer, DialOk(l));
      }
    }
  }

  /** The peer being connected is still listed: the second call connects to it too. */
  lemma ListedDoubles(cfg: Config, s: Sys, addr: string) returns (run: seq<Action>)
    requires Typed(s) && s.starting && cfg.maxRetries > 0 && addr in s.peers && HasLoop(s, s.peers[addr])
    ensures After(cfg, s, run).Some? && Doubled(After(cfg, s, run).value)
  {
    hide Step, Enabled, Doubled, HasLoop;
    SecondLoop(cfg, s, addr);
    var t;
    run, t := Extend(cfg, s, [], StartConnect(addr));
  }

  /** It was removed, but another peer is listed: both calls come to a peer added while they dial. */
  lemma OtherListedDoubles(cfg: Config, s: Sys, l: nat, other: string) returns (run: seq<Action>)
    requires Typed(s) && s.starting && cfg.maxRetries > 0 && other in s.peers && l in s.loops && s.loops[l].byStart
    ensures After(cfg, s, run).Some? && Doubled(After(cfg, s, run).value)
  {
    hide Connect, Settle, AfterDelay, Doubled, Step, Enabled, After;
    var t;
    var second := s.nextLoop;
    SecondLoop(cfg, s, other);
    assert After(cfg, s, []) == Some(s) by { AfterNothing(cfg, s); }
    run, t := Extend(cfg, s, [], StartConnect(other));
    var addr;
    run, t, addr := AddedMeanwhile(cfg, s, run);
    run, t := LoopCanEnd(cfg, s, run, l);
    SecondLoop(cfg, t, addr);
    run, t := Extend(cfg, s, run, StartConnect(addr));
    var third := t.nextLoop - 1;
    assert t.loops[third].peer == t.peers[addr];
    run, t := LoopCanEnd(cfg, s, run, second);
    assert t.loops[third].peer == t.peers[addr] && HasLoop(t, t.peers[addr]);
    SecondLoop(cfg, t, addr);
    run, t := Extend(cfg, s, run, StartConnect(addr));
  }

  lemma AfterNothing(cfg: Config, s: Sys)
    ensures After(cfg, s, []) == Some(s)
  {
  }

  /** A peer is added while the lock is free. */
  lemma AddedMeanwhile(cfg: Config, s0: Sys, run: seq<Action>) returns (longer: seq<Action>, t: Sys, addr: string)
    requires After(cfg, s0, run).Some? && Typed(After(cfg, s0, run).value) && !After(cfg, s0, run).value.starting
    ensures After(cfg, s0, longer) == Some(t) && Typed(t) && addr in t.peers
    ensures
      var s := After(cfg, s0, run).value;
      && !t.starting && t.active == s.active && t.loops == s.loops && t.nextLoop == s.nextLoop
      && (s.active ==> addr in t.pending) && t.objects[t.peers[addr]] == FRESH
  {
    hide After;
    var s := After(cfg, s0, run).value;
    addr := FreshAddress(s.peers.Keys);
    longer, t := Extend(cfg, s0, run, AddPeer(addr));
  }

  /**
    No peer is listed: the second call returns, and a peer added then is being reconnected when the first comes to
    it.
   */
  lemma NoneListedDoubles(cfg: Config, s: Sys, l: nat) returns (run: seq<Action>)
    requires Typed(s) && s.starting && cfg.maxRetries > 0 && s.peers == map[] && l in s.loops && s.loops[l].byStart
    ensures After(cfg, s, run).Some? && Doubled(After(cfg, s, run).value)
  {
    hide Settle, AfterDelay, Doubled, After;
    var t;
    assert After(cfg, s, []) == Some(s) by { AfterNothing(cfg, s); }
    run, t := Extend(cfg, s, [], StartReturn);
    var addr;
    run, t, addr := AddedMeanwhile(cfg, s, run);
    run, t := Extend(cfg, s, run, Attempt(addr));
    var second := t.nextLoop - 1;
    assert t.loops[second].peer == t.peers[addr];
    run, t := LoopCanEnd(cfg, s, run, l);
    assert t.loops[second].peer == t.peers[addr] && HasLoop(t, t.peers[addr]);
    SecondLoop(cfg, t, addr);
    run, t := Extend(cfg, s, run, StartConnect(addr));
  }

  /**
    A StartNetwork call begun while another is under way: some run doubles a loop. In it each call connects to a peer at
    most once, and returns only when no peer is listed.
   */
  lemma OverlapDoubles(cfg: Config, s: Sys) returns (run: seq<Action>)
    requires Inv(cfg, s) && OneStart(s) && Enabled(s, StartCall) && !StartsAlone(s, StartCall) && cfg.maxRetries > 0
    ensures
      var t := After(cfg, Step(cfg, s, StartCall), run);
      t.Some? && Doubled(t.value)
  {
    hide Doubled, Safe, Covered, After;
    var s1 := Step(cfg, s, StartCall);
    TypedFromSafe(cfg, s);
    var l :| l in s.loops;
    assert s1.loops[l].byStart;
    if addr :| addr in s1.peers && s1.peers[addr] == s1.loops[l].peer {
      assert HasLoop(s1, s1.peers[addr]);
      run := ListedDoubles(cfg, s1, addr);
    } else if other :| other in s1.peers {
      run := OtherListedDoubles(cfg, s1, l, other);
    } else {
      assert s1.peers == map[];
      run := NoneListedDoubles(cfg, s1, l);
    }
  }

  /**
    While the network is inactive, a StartNetwork call leaves every continuation without a doubled loop if and only if
    no other call is under way when it begins.
   */
  lemma StartIsSafeExactlyAlone(cfg: Config, s: Sys)
    requires Inv(cfg, s) && OneStart(s) && Enabled(s, StartCall) && cfg.maxRetries > 0
    ensures StartsAlone(s, StartCall) <==>
      forall run :: After(cfg, Step(cfg, s, StartCall), run).Some? ==>
        !Doubled(After(cfg, Step(cfg, s, StartCall), run).value)
  {
    hide After, Step, Doubled, Enabled, Safe, Covered, OneStart;
    if StartsAlone(s, StartCall) {
      StepKeepsInv(cfg, s, StartCall);
      StepKeepsOneStart(cfg, s, StartCall);
      var s1 := Step(cfg, s, StartCall);
      forall run | After(cfg, s1, run).Some? ensures !Doubled(After(cfg, s1, run).value) {
        RunsKeepInvFrom(cfg, s1, run);
        SafeIsNotDoubled(cfg, After(cfg, s1, run).value);
      }
    } else {
      var run := OverlapDoubles(cfg, s);
    }
  }

  lemma SafeIsNotDoubled(cfg: Config, s: Sys)
    requires Safe(cfg, s)
    ensures !Doubled(s)
  {
  }
}
