/**
  The locked sections of the network handler, each proved to be one step of the state machine. A method that gives the
  lock up and takes it again is cut there: what follows is a method of its own.
 */
module NetworkHandlerModel {
  import opened Basics
  import opened PeerNetwork
  import opened ConnectDelay

  datatype PeerError = PeerAlreadyAdded | NoPeerFound

  datatype ConnectionStats = ConnectionStats(total: nat, connected: nat, connecting: nat, disconnected: nat,
    failed: nat)

  ghost function InStates(s: Sys, addrs: set<string>, states: set<State>): set<string>
    requires Typed(s) && addrs <= s.peers.Keys
  {
    set addr | addr in addrs && s.objects[s.peers[addr]].state in states
  }

  lemma OneMoreInStates(s: Sys, addrs: set<string>, addr: string, states: set<State>)
    requires Typed(s) && addrs <= s.peers.Keys && addr in s.peers && addr !in addrs
    ensures |InStates(s, addrs + {addr}, states)| ==
      |InStates(s, addrs, states)| + if s.objects[s.peers[addr]].state in states then 1 else 0
  {
    if s.objects[s.peers[addr]].state in states {
      assert InStates(s, addrs + {addr}, states) == InStates(s, addrs, states) + {addr};
    } else {
      assert InStates(s, addrs + {addr}, states) == InStates(s, addrs, states);
    }
  }

  const CONNECTED: set<State> := {Connected}
  const CONNECTING: set<State> := {Connecting, Reconnecting}
  const DISCONNECTED: set<State> := {Disconnected}
  const FAILED: set<State> := {Failed}

  ghost predicate Counts(s: Sys, addrs: set<string>, stats: ConnectionStats)
    requires Typed(s) && addrs <= s.peers.Keys
  {
    && stats.connected == |InStates(s, addrs, CONNECTED)|
    && stats.connecting == |InStates(s, addrs, CONNECTING)|
    && stats.disconnected == |InStates(s, addrs, DISCONNECTED)|
    && stats.failed == |InStates(s, addrs, FAILED)|
  }

  /** Counting one peer: what the switch of GetConnectionStats does. */
  function Count(stats: ConnectionStats, state: State): ConnectionStats {
    match state
    case Connected => stats.(connected := stats.connected + 1)
    case Connecting | Reconnecting => stats.(connecting := stats.connecting + 1)
    case Failed => stats.(failed := stats.failed + 1)
    case Disconnected => stats.(disconnected := stats.disconnected + 1)
  }

  lemma CountOne(s: Sys, addrs: set<string>, addr: string, stats: ConnectionStats)
    requires Typed(s) && addrs <= s.peers.Keys && addr in s.peers && addr !in addrs && Counts(s, addrs, stats)
    ensures Counts(s, addrs + {addr}, Count(stats, s.objects[s.peers[addr]].state))
    ensures Count(stats, s.objects[s.peers[addr]].state).total == stats.total
  {
    assert s.peers[addr] < |s.objects|;
    hide InStates, Typed;
    OneMoreInStates(s, addrs, addr, CONNECTED);
    OneMoreInStates(s, addrs, addr, CONNECTING);
    OneMoreInStates(s, addrs, addr, DISCONNECTED);
    OneMoreInStates(s, addrs, addr, FAILED);
  }

  lemma CountNone(s: Sys)
    requires Typed(s)
    ensures Counts(s, {}, ConnectionStats(|s.peers|, 0, 0, 0, 0))
  {
    assert InStates(s, {}, CONNECTED) == InStates(s, {}, CONNECTING) == {};
    assert InStates(s, {}, DISCONNECTED) == InStates(s, {}, FAILED) == {};
  }

  /** The Reconnecting mark is overwritten before the lock is given up. */
  lemma MarkedBeforeConnect(cfg: Config, s: Sys, peer: nat)
    requires peer < |s.objects|
    ensures Connect(cfg, s.(objects := s.objects[peer := s.objects[peer].(state := Reconnecting)]), peer, false)
         == Connect(cfg, s, peer, false)
  {
    var p := Connect(cfg, s, peer, false).objects[peer];
    assert s.objects[peer := s.objects[peer].(state := Reconnecting)][peer := p] == s.objects[peer := p];
  }

  /** Losing one more address disconnects its object if that is still connected. */
  lemma DropOne(s: Sys, lost: set<string>, addr: string)
    requires Typed(s) && addr in s.peers
    ensures
      var p, before := s.peers[addr], Dropped(s, lost);
      Dropped(s, lost + {addr})
      == if before[p].state == Connected then before[p := before[p].(state := Disconnected)] else before
  {
    assert forall i | 0 <= i < |s.objects| :: IsLost(s, lost + {addr}, i) <==>
      IsLost(s, lost, i) || (i == s.peers[addr] && s.objects[i].state == Connected);
  }

  lemma DropNone(s: Sys)
    ensures Dropped(s, {}) == s.objects
  {
  }

  /** The list names, once each, the peers to reconnect outside todo. */
  ghost predicate Found(s: Sys, todo: set<string>, xs: seq<string>)
    requires Typed(s)
  {
    multiset(xs) == multiset(ToReconnect(s) - todo)
  }

  lemma FoundOne(s: Sys, todo: set<string>, addr: string, xs: seq<string>)
    requires Typed(s) && addr in todo && addr in s.peers && Found(s, todo, xs)
    ensures
      var state := s.objects[s.peers[addr]].state;
      Found(s, todo - {addr}, if state == Disconnected || state == Failed then xs + [addr] else xs)
  {
    var state := s.objects[s.peers[addr]].state;
    var found := ToReconnect(s) - todo;
    assert ToReconnect(s) - (todo - {addr}) == if state == Disconnected || state == Failed then found + {addr}
      else found;
  }

  lemma NoneFound(s: Sys)
    requires Typed(s)
    ensures Found(s, s.peers.Keys, [])
  {
    assert ToReconnect(s) - s.peers.Keys == {};
  }

  lemma AllFound(s: Sys, xs: seq<string>)
    requires Typed(s) && Found(s, {}, xs)
    ensures multiset(xs) == multiset(ToReconnect(s))
  {
    assert ToReconnect(s) - {} == ToReconnect(s);
  }

  /** A peer, shared by the table and by the loops that connect it. */
  class PeerState {
    var state: State
    var retryCount: int
    /** How many peers were made before it. */
    ghost const number: nat

    constructor (ghost number: nat)
      ensures this.number == number && View() == FRESH
    {
      this.number := number;
      state, retryCount := Disconnected, 0;
    }

    ghost function View(): Peer
      reads this
    {
      Peer(state, retryCount)
    }
  }

  ghost function Views(made: seq<PeerState>): (objects: seq<Peer>)
    reads made
    ensures |objects| == |made| && forall i | 0 <= i < |made| :: objects[i] == made[i].View()
  {
    if made == [] then [] else Views(made[..|made| - 1]) + [made[|made| - 1].View()]
  }

  ghost predicate Numbered(made: seq<PeerState>) {
    forall i | 0 <= i < |made| :: made[i].number == i
  }

  ghost function Numbers(peers: map<string, PeerState>): (numbers: map<string, nat>)
    ensures numbers.Keys == peers.Keys && forall addr | addr in peers :: numbers[addr] == peers[addr].number
  {
    map addr | addr in peers :: peers[addr].number
  }

  lemma NumbersOfMore(peers: map<string, PeerState>, addr: string, peer: PeerState)
    ensures Numbers(peers[addr := peer]) == Numbers(peers)[addr := peer.number]
  {
  }

  lemma NumbersOfLess(peers: map<string, PeerState>, addr: string)
    ensures Numbers(peers - {addr}) == Numbers(peers) - {addr}
  {
  }

  lemma ViewsOfMore(made: seq<PeerState>, peer: PeerState)
    ensures Views(made + [peer]) == Views(made) + [peer.View()]
    ensures Numbered(made) && peer.number == |made| ==> Numbered(made + [peer])
  {
    assert (made + [peer])[..|made|] == made;
  }

  /** When only one peer differs from an earlier list of views, one view changes. */
  lemma ViewsChange(made: seq<PeerState>, before: seq<Peer>, peer: PeerState)
    requires Numbered(made) && peer.number < |made| && made[peer.number] == peer
    requires |before| == |made| && forall i | 0 <= i < |made| && made[i] != peer :: made[i].View() == before[i]
    ensures Views(made) == before[peer.number := peer.View()]
  {
    forall i | 0 <= i < |made| ensures Views(made)[i] == before[peer.number := peer.View()][i] {
      assert i != peer.number ==> made[i] != peer;
    }
  }

  /**
    peers and active are the handler's fields. The ghost fields record what lives in no field: every peer ever made, the
    loops and goroutines under way, and whether a StartNetwork call holds the lock.
   */
  class NetworkHandler {
    const cfg: Config
    var peers: map<string, PeerState>
    var active: bool
    ghost var made: seq<PeerState>
    ghost var loops: map<nat, Loop>
    ghost var nextLoop: nat
    ghost var pending: multiset<string>
    ghost var starting: bool

    ghost predicate Valid()
      reads this
    {
      && Numbered(made)
      && (forall addr | addr in peers :: Owns(peers[addr]))
      && (forall l | l in loops :: loops[l].peer < |made| && l < nextLoop)
    }

    ghost predicate Owns(peer: PeerState)
      reads this
    {
      peer.number < |made| && made[peer.number] == peer
    }

    /** The state of the machine that the heap holds. */
    ghost function Abs(): Sys
      reads this, made
    {
      Sys(Views(made), Numbers(peers), loops, nextLoop, pending, starting, active)
    }

    lemma AbsIsTyped()
      requires Valid()
      ensures Typed(Abs())
    {
    }

    /** The table leads to the same peer in the machine as in the heap. */
    lemma Entry(addr: string)
      requires Valid() && addr in peers
      ensures addr in Abs().peers && Abs().peers[addr] < |Abs().objects| &&
        Abs().objects[Abs().peers[addr]] == peers[addr].View()
    {
    }

    /** A repeated bootstrap address replaces its peer. */
    constructor (bootstrapPeers: seq<string>, maxRetries: int, retryBaseDelayMs: int)
      ensures Valid() && IsNew(Abs()) && cfg == HandlerConfig(maxRetries, retryBaseDelayMs)
      ensures cfg.maxRetries == if maxRetries == 0 then 5 else maxRetries
      ensures retryBaseDelayMs == 0 ==> cfg.baseDelay == 1_000_000_000
      ensures 0 < retryBaseDelayMs <= 1_000_000_000_000 ==> cfg.baseDelay == retryBaseDelayMs * 1_000_000
      ensures peers.Keys == set addr | addr in bootstrapPeers
    {
      cfg := HandlerConfig(maxRetries, retryBaseDelayMs);
      peers, active := map[], false;
      made, loops, nextLoop, pending, starting := [], map[], 0, multiset{}, false;
      new;
      for i := 0 to |bootstrapPeers|
        invariant Valid() && loops == map[] && pending == multiset{} && !starting && !active
        invariant forall p | p in made :: fresh(p) && p.View() == FRESH
        invariant peers.Keys == set addr | addr in bootstrapPeers[..i]
      {
        var peer := new PeerState(|made|);
        made, peers := made + [peer], peers[bootstrapPeers[i] := peer];
      }
      assert bootstrapPeers[..|bootstrapPeers|] == bootstrapPeers;
    }

    method AddPeer(addr: string) returns (error: Option<PeerError>)
      requires Valid() && !starting
      modifies this
      ensures Valid()
      ensures addr in old(peers) ==> error == Some(PeerAlreadyAdded) && Abs() == old(Abs())
      ensures addr !in old(peers) ==>
        && error == None && addr in peers && fresh(peers[addr])
        && Abs() == Step(cfg, old(Abs()), PeerNetwork.AddPeer(addr))
        && peers == old(peers)[addr := peers[addr]] && peers[addr].state == Disconnected && peers[addr].retryCount == 0
        && pending == if active then old(pending) + multiset{addr} else old(pending)
    {
      hide Views, Numbers, Numbered, Typed;
      AbsIsTyped();
      if addr in peers {
        return Some(PeerAlreadyAdded);
      }
      NewPeer(addr);
      if active {
        pending := pending + multiset{addr};
      }
      return None;
    }

    /** A fresh peer under this address. */
    method NewPeer(addr: string)
      requires Valid()
      modifies this`peers, this`made
      ensures Valid() && addr in peers && fresh(peers[addr])
      ensures Views(made) == old(Views(made)) + [FRESH] && Numbers(peers) == old(Numbers(peers))[addr := |old(made)|]
      ensures peers == old(peers)[addr := peers[addr]] && peers[addr].state == Disconnected &&
        peers[addr].retryCount == 0
    {
      hide Views, Numbers, Numbered;
      var peer := new PeerState(|made|);
      ViewsOfMore(made, peer);
      NumbersOfMore(peers, addr, peer);
      made, peers := made + [peer], peers[addr := peer];
    }

    method RemovePeer(addr: string) returns (error: Option<PeerError>)
      requires Valid() && !starting
      modifies this
      ensures Valid() && made == old(made)
      ensures addr !in old(peers) ==> error == Some(NoPeerFound) && Abs() == old(Abs())
      ensures addr in old(peers) ==> error == None && Abs() == Step(cfg, old(Abs()), PeerNetwork.RemovePeer(addr))
      ensures peers == old(peers) - {addr} && loops == old(loops) && pending == old(pending)
    {
      if addr !in peers {
        return Some(NoPeerFound);
      }
      hide Views, Numbers;
      AbsIsTyped();
      NumbersOfLess(peers, addr);
      peers := peers - {addr};
      return None;
    }

    /** connectWithRetryLocked up to its first dial, or to its end when there are no retries. */
    method BeginConnect(peer: PeerState, ghost byStart: bool) returns (dials: bool)
      requires Valid() && Owns(peer)
      modifies this`loops, this`nextLoop, peer
      ensures Valid() && dials == (cfg.maxRetries > 0)
      ensures Abs() == Connect(cfg, old(Abs()), peer.number, byStart)
      ensures dials ==> peer.state == Connecting && peer.retryCount == 1
      ensures dials ==> loops == old(loops)[old(nextLoop) := Loop(peer.number, 0, false, 0, byStart)]
      ensures !dials ==> peer.state == Failed && peer.retryCount == 0 && loops == old(loops)
    {
      hide Views, Numbers;
      peer.state, peer.retryCount := Connecting, 0;
      if cfg.maxRetries <= 0 {
        peer.state := Failed;
        dials := false;
      } else {
        peer.retryCount := 1;
        loops, nextLoop := loops[nextLoop := Loop(peer.number, 0, false, 0, byStart)], nextLoop + 1;
        dials := true;
      }
      ViewsChange(made, old(Views(made)), peer);
    }

    /** A reconnecting goroutine, up to the first dial of its loop. */
    method AttemptReconnect(addr: string) returns (dials: bool)
      requires Valid() && !starting && addr in pending
      modifies this, if addr in peers then {peers[addr]} else {}
      ensures Valid() && made == old(made) && peers == old(peers)
      ensures Abs() == Step(cfg, old(Abs()), Attempt(addr))
      ensures pending == old(pending) - multiset{addr}
      ensures
        if addr in peers && old(peers[addr].state) != Connected && old(peers[addr].state) != Connecting
           && old(peers[addr].state) != Reconnecting
        then dials == (cfg.maxRetries > 0) && peers[addr].state == (if dials then Connecting else Failed)
        else !dials && loops == old(loops) && (addr in peers ==> peers[addr].state == old(peers[addr].state))
    {
      hide Connect, Views, Numbers, Typed;
      AbsIsTyped();
      pending := pending - multiset{addr};
      if addr !in peers {
        return false;
      }
      Entry(addr);
      var peer := peers[addr];
      match peer.state {
        case Connected | Connecting | Reconnecting => return false;
        case _ =>
      }
      dials := Redial(peer);
    }

    /** The mark, and the start of the loop that overwrites it. */
    method Redial(peer: PeerState) returns (dials: bool)
      requires Valid() && Owns(peer)
      modifies this`loops, this`nextLoop, peer
      ensures Valid() && dials == (cfg.maxRetries > 0) && peer.state == if dials then Connecting else Failed
      ensures Abs() == Connect(cfg, old(Abs()), peer.number, false)
    {
      hide Connect, Views, Numbers;
      ghost var before := Abs();
      peer.state := Reconnecting;
      ViewsChange(made, before.objects, peer);
      MarkedBeforeConnect(cfg, before, peer.number);
      dials := BeginConnect(peer, false);
    }

    /** A loop as the goroutine that runs it knows it. */
    ghost predicate Runs(id: nat, peer: PeerState, attempt: nat, waiting: bool)
      reads this
    {
      Owns(peer) && id in loops && loops[id].peer == peer.number && loops[id].attempt == attempt &&
        loops[id].waiting == waiting
    }

    /** From the return of a dial to the end of the loop, or to its next wait of the given delay. */
    method FinishDial(peer: PeerState, attempt: nat, ok: bool, ghost id: nat) returns (delay: Option<int>)
      requires Valid() && !starting && Runs(id, peer, attempt, false)
      modifies this`loops, this`starting, peer
      ensures Valid() && (delay == None <==> ok)
      ensures Abs() == Step(cfg, old(Abs()), if ok then DialOk(id) else DialFail(id))
      ensures ok ==> peer.state == Connected && id !in loops
      ensures !ok ==> peer.state == old(peer.state) && peer.retryCount == old(peer.retryCount)
      ensures delay.Some? ==>
        Runs(id, peer, attempt, true) && loops[id].delay == delay.value == Delay(cfg.baseDelay, attempt)
    {
      hide Delay, Views, Numbers;
      AbsIsTyped();
      if ok {
        peer.state := Connected;
        EndLoop(id);
        ViewsChange(made, old(Views(made)), peer);
        return None;
      }
      delay := Some(Delay(cfg.baseDelay, attempt));
      loops := loops[id := loops[id].(waiting := true, delay := delay.value)];
    }

    ghost method EndLoop(id: nat)
      requires id in loops
      modifies this`loops, this`starting
      ensures loops == old(loops) - {id} && starting == old(loops)[id].byStart
    {
      starting := loops[id].byStart;
      loops := loops - {id};
    }

    /** From the end of a wait to the next dial, or to the end of the loop after its last attempt. */
    method FinishDelay(peer: PeerState, attempt: nat, ghost id: nat) returns (dials: bool)
      requires Valid() && !starting && Runs(id, peer, attempt, true)
      modifies this`loops, this`starting, peer
      ensures Valid()
      ensures Abs() == Step(cfg, old(Abs()), DelayOver(id))
      ensures dials <==> attempt + 1 < cfg.maxRetries
      ensures dials ==>
        Runs(id, peer, attempt + 1, false) && peer.state == old(peer.state) && peer.retryCount == attempt + 2
      ensures !dials ==> peer.state == Failed && id !in loops
    {
      hide Views, Numbers;
      AbsIsTyped();
      if attempt + 1 < cfg.maxRetries {
        peer.retryCount := attempt + 2;
        loops := loops[id := loops[id].(attempt := attempt + 1, waiting := false)];
        dials := true;
      } else {
        peer.state := Failed;
        EndLoop(id);
        dials := false;
      }
      ViewsChange(made, old(Views(made)), peer);
    }

    /** checkPeerHealth with the peers found alive; forceReconnectAll's marking finds none alive. */
    method MarkLost(alive: set<string>)
      requires Valid()
      modifies made
      ensures Abs() == old(Abs()).(objects := Dropped(old(Abs()), old(peers).Keys - alive))
      ensures forall p | p in made ::
        p.state == if old(p.state) == Connected && exists addr :: addr in peers && addr !in alive && peers[addr] == p
          then Disconnected else old(p.state)
    {
      hide Dropped, Views, Numbers, Typed;
      AbsIsTyped();
      ghost var was := Abs();
      var todo := peers.Keys;
      ghost var lost: set<string> := {};
      DropNone(was);
      while todo != {}
        invariant todo <= peers.Keys && lost == peers.Keys - todo - alive
        invariant Views(made) == Dropped(was, lost)
        decreases todo
      {
        var addr :| addr in todo;
        todo := todo - {addr};
        if addr !in alive {
          DropOne(was, lost, addr);
          var peer := peers[addr];
          if peer.state == Connected {
            ghost var before := Views(made);
            peer.state := Disconnected;
            ViewsChange(made, before, peer);
          }
          lost := lost + {addr};
        }
      }
      assert lost == peers.Keys - alive;
      LostByName(was, lost, alive);
      assert forall p | p in made :: was.objects[p.number].state == old(p.state);
    }

    /** Being lost under a number is being lost under the address of that very peer. */
    lemma LostByName(was: Sys, lost: set<string>, alive: set<string>)
      requires Valid() && Typed(was) && was.peers == Numbers(peers) && lost == peers.Keys - alive
      requires Views(made) == Dropped(was, lost)
      ensures forall p | p in made ::
        && p.number < |made| == |was.objects|
        && var state := was.objects[p.number].state;
           p.state == if state == Connected && exists addr :: addr in peers && addr !in alive && peers[addr] == p
             then Disconnected else state
    {
      forall p | p in made
        ensures p.number < |made| && made[p.number] == p && p.View() == Dropped(was, lost)[p.number]
        ensures (exists addr :: addr in lost && addr in was.peers && was.peers[addr] == p.number) <==>
          exists addr :: addr in peers && addr !in alive && peers[addr] == p
      {
        var i :| 0 <= i < |made| && made[i] == p;
        forall addr | addr in peers ensures was.peers[addr] == p.number <==> peers[addr] == p {
          assert Owns(peers[addr]);
        }
      }
    }

    /** The addresses to reconnect are collected, and one goroutine is started for each. */
    method ReconnectDisconnectedPeers() returns (disconnectedPeers: seq<string>)
      requires Valid() && !starting && active
      modifies this`pending
      ensures Valid() && Abs() == Step(cfg, old(Abs()), SpawnReconnects)
      ensures multiset(disconnectedPeers) ==
        multiset(set addr | addr in peers && (peers[addr].state == Disconnected || peers[addr].state == Failed))
      ensures pending == old(pending) + multiset(disconnectedPeers)
    {
      hide Views, Numbers, Typed, ToReconnect;
      AbsIsTyped();
      disconnectedPeers := DisconnectedPeers();
      pending := pending + multiset(disconnectedPeers);
    }

    lemma ToReconnectByName()
      requires Valid() && Typed(Abs())
      ensures ToReconnect(Abs()) ==
        set addr | addr in peers && (peers[addr].state == Disconnected || peers[addr].state == Failed)
    {
      hide Views, Numbers, Typed;
      forall addr | addr in peers ensures Abs().objects[Abs().peers[addr]].state == peers[addr].state {
        Entry(addr);
      }
      assert Abs().peers.Keys == peers.Keys;
    }

    lemma StatesByName(states: set<State>)
      requires Valid() && Typed(Abs())
      ensures Abs().peers.Keys == peers.Keys
      ensures InStates(Abs(), peers.Keys, states) == set addr | addr in peers && peers[addr].state in states
    {
      hide Views, Numbers, Typed;
      forall addr | addr in peers ensures Abs().objects[Abs().peers[addr]].state == peers[addr].state {
        Entry(addr);
      }
      assert Abs().peers.Keys == peers.Keys;
    }

    lemma CountsByName(stats: ConnectionStats)
      requires Valid() && Typed(Abs()) && Abs().peers.Keys == peers.Keys && Counts(Abs(), peers.Keys, stats)
      ensures stats.connected == |set addr | addr in peers && peers[addr].state == Connected|
      ensures stats.connecting ==
        |set addr | addr in peers && (peers[addr].state == Connecting || peers[addr].state == Reconnecting)|
      ensures stats.disconnected == |set addr | addr in peers && peers[addr].state == Disconnected|
      ensures stats.failed == |set addr | addr in peers && peers[addr].state == Failed|
    {
      hide InStates, Views, Numbers, Typed;
      OneStateByName(Connected);
      OneStateByName(Disconnected);
      OneStateByName(Failed);
      ConnectingByName();
    }

    lemma OneStateByName(state: State)
      requires Valid() && Typed(Abs()) && Abs().peers.Keys == peers.Keys
      ensures InStates(Abs(), peers.Keys, {state}) == set addr | addr in peers && peers[addr].state == state
    {
      hide InStates, Views, Numbers, Typed;
      StatesByName({state});
    }

    lemma ConnectingByName()
      requires Valid() && Typed(Abs()) && Abs().peers.Keys == peers.Keys
      ensures InStates(Abs(), peers.Keys, CONNECTING) ==
        set addr | addr in peers && (peers[addr].state == Connecting || peers[addr].state == Reconnecting)
    {
      hide InStates, Views, Numbers, Typed;
      StatesByName(CONNECTING);
    }

    method DisconnectedPeers() returns (disconnectedPeers: seq<string>)
      requires Valid()
      ensures multiset(disconnectedPeers) == multiset(ToReconnect(Abs()))
      ensures ToReconnect(Abs()) ==
        set addr | addr in peers && (peers[addr].state == Disconnected || peers[addr].state == Failed)
    {
      hide ToReconnect, Views, Numbers, Typed, Found;
      AbsIsTyped();
      ghost var s := Abs();
      var todo := peers.Keys;
      disconnectedPeers := [];
      NoneFound(s);
      while todo != {}
        modifies {}
        invariant todo <= peers.Keys && Found(s, todo, disconnectedPeers)
        decreases todo
      {
        var addr :| addr in todo;
        Entry(addr);
        FoundOne(s, todo, addr, disconnectedPeers);
        todo := todo - {addr};
        var state := peers[addr].state;
        if state == Disconnected || state == Failed {
          disconnectedPeers := disconnectedPeers + [addr];
        }
      }
      AllFound(s, disconnectedPeers);
      ToReconnectByName();
    }

    method GetConnectionStats() returns (stats: ConnectionStats)
      requires Valid()
      ensures stats.total == |peers| && Counts(Abs(), peers.Keys, stats)
      ensures stats.connected == |set addr | addr in peers && peers[addr].state == Connected|
      ensures stats.connecting ==
        |set addr | addr in peers && (peers[addr].state == Connecting || peers[addr].state == Reconnecting)|
      ensures stats.disconnected == |set addr | addr in peers && peers[addr].state == Disconnected|
      ensures stats.failed == |set addr | addr in peers && peers[addr].state == Failed|
    {
      hide Counts, Views, Numbers, Typed, Count;
      AbsIsTyped();
      ghost var s := Abs();
      CountNone(s);
      stats := ConnectionStats(|peers|, 0, 0, 0, 0);
      ghost var total := |peers|;
      assert s.peers.Keys == peers.Keys && |s.peers| == |s.peers.Keys| && |peers| == |peers.Keys|;
      var todo := peers.Keys;
      ghost var done: set<string> := {};
      while todo != {}
        modifies {}
        invariant todo !! done && todo + done == peers.Keys
        invariant stats.total == total && Counts(s, done, stats)
        decreases todo
      {
        var addr :| addr in todo;
        Entry(addr);
        CountOne(s, done, addr, stats);
        todo, done := todo - {addr}, done + {addr};
        var state := peers[addr].state;
        assert s.objects[s.peers[addr]].state == state;
        stats := Count(stats, state);
      }
      assert done == peers.Keys;
      CountsByName(stats);
    }
  }

  lemma SplitStates(s: Sys, states: set<State>, more: set<State>)
    requires Typed(s) && states !! more
    ensures |InStates(s, s.peers.Keys, states + more)| ==
      |InStates(s, s.peers.Keys, states)| + |InStates(s, s.peers.Keys, more)|
  {
    var a, b := InStates(s, s.peers.Keys, states), InStates(s, s.peers.Keys, more);
    assert a !! b && InStates(s, s.peers.Keys, states + more) == a + b;
  }

  lemma InSomeState(s: Sys)
    requires Typed(s)
    ensures InStates(s, s.peers.Keys, CONNECTED + CONNECTING + DISCONNECTED + FAILED) == s.peers.Keys
  {
    forall addr | addr in s.peers
      ensures s.objects[s.peers[addr]].state in CONNECTED + CONNECTING + DISCONNECTED + FAILED {
      match s.objects[s.peers[addr]].state
      case Disconnected =>
      case Failed =>
      case Connected =>
      case _ =>
    }
  }

  /** Every peer is counted once. */
  lemma StatsAddUp(s: Sys, stats: ConnectionStats)
    requires Typed(s) && stats.total == |s.peers| && Counts(s, s.peers.Keys, stats)
    ensures stats.connected + stats.connecting + stats.disconnected + stats.failed == stats.total
  {
    hide InStates;
    SplitStates(s, CONNECTED, CONNECTING);
    SplitStates(s, CONNECTED + CONNECTING, DISCONNECTED);
    SplitStates(s, CONNECTED + CONNECTING + DISCONNECTED, FAILED);
    InSomeState(s);
    assert |s.peers| == |s.peers.Keys|;
  }
}
