/**
  The payer balance gate: an epoch-keyed cache whose hub reads happen outside its lock.

  The critical sections are the methods of BalanceAuthorizer. Calls interleave between them, so
  the properties are about runs of the atomic steps, whose cache updates the methods perform.
 */
module BalanceGate {
  import opened Basics

  /** An Ethereum address, as the number its 20 bytes spell. */
  type Address = nat

  datatype Cache = Cache(balances: map<Address, int>, epoch: nat) {

    /** cachedFunded: another epoch empties the cache and misses. */
    ghost function Probed(epoch: nat): Cache {
      if epoch != this.epoch then Cache(map[], epoch) else this
    }

    ghost predicate Hit(epoch: nat, payer: Address) {
      epoch == this.epoch && payer in balances
    }

    /** The write after the hub read: only a funded balance, only under the epoch it was checked for. */
    ghost function Stored(epoch: nat, payer: Address, balance: int, minBalance: int): Cache {
      if this.epoch == epoch && balance >= minBalance then Cache(balances[payer := balance], this.epoch) else this
    }
  }

  class BalanceAuthorizer {
    const minBalance: int
    var cache: map<Address, int>
    var cacheEpoch: nat

    constructor (minBalance: int)
      ensures this.minBalance == minBalance && State() == Cache(map[], 0)
    {
      this.minBalance, cache, cacheEpoch := minBalance, map[], 0;
    }

    ghost function State(): Cache
      reads this
    {
      Cache(cache, cacheEpoch)
    }

    method CachedFunded(epoch: nat, payer: Address) returns (found: bool)
      modifies this
      ensures State() == old(State()).Probed(epoch)
      ensures found == old(State()).Hit(epoch, payer)
      ensures epoch != old(cacheEpoch) ==> !found && cache == map[] && cacheEpoch == epoch
      ensures epoch == old(cacheEpoch) ==>
        (found <==> payer in old(cache)) && cache == old(cache) && cacheEpoch == old(cacheEpoch)
    {
      if epoch != cacheEpoch {
        cache := map[];
        cacheEpoch := epoch;
        return false;
      }
      return payer in cache;
    }

    /** The locked write at the end of Authorize. */
    method StoreFunded(epoch: nat, payer: Address, balance: int) returns (funded: bool)
      modifies this
      ensures State() == old(State()).Stored(epoch, payer, balance, minBalance)
      ensures funded == (balance >= minBalance) && cacheEpoch == old(cacheEpoch)
      ensures cache == if old(cacheEpoch) == epoch && balance >= minBalance then old(cache)[payer := balance]
        else old(cache)
    {
      funded := balance >= minBalance;
      if cacheEpoch == epoch && funded {
        cache := cache[payer := balance];
      }
    }

    /** One call that nothing interrupts. epoch and balance are what the clock and the hub return. */
    method Authorize(epoch: Result<nat, ()>, payer: Address, balance: Result<int, ()>) returns (r: Result<bool, ()>)
      modifies this
      ensures epoch.Err? ==> r == Err(()) && State() == old(State())
      ensures epoch.Ok? && old(State()).Hit(epoch.value, payer) ==> r == Ok(true) && State() == old(State())
      ensures epoch.Ok? && !old(State()).Hit(epoch.value, payer) ==>
        var missed := old(State()).Probed(epoch.value);
        match balance
        case Err(_) => r == Err(()) && State() == missed
        case Ok(b) => r == Ok(b >= minBalance) && State() == missed.Stored(epoch.value, payer, b, minBalance)
      ensures r == Ok(true) ==> cacheEpoch == epoch.value && payer in cache
      ensures epoch.Ok? && old(cacheEpoch) == epoch.value && payer in old(cache) ==> r == Ok(true)
      ensures epoch.Ok? && (old(cacheEpoch) != epoch.value || payer !in old(cache)) ==>
        r == if balance.Err? then Err(()) else Ok(balance.value >= minBalance)
    {
      if epoch.Err? {
        return Err(());
      }
      var found := CachedFunded(epoch.value, payer);
      if found {
        return Ok(true);
      }
      if balance.Err? {
        return Err(());
      }
      var funded := StoreFunded(epoch.value, payer, balance.value);
      return Ok(funded);
    }
  }

  // ---------- runs ----------

  /** Where a call of Authorize stands between two atomic steps. */
  datatype Call =
    | Observed(payer: Address, epoch: nat)
    | Missed(payer: Address, epoch: nat)
    | HasRead(payer: Address, epoch: nat, balance: int)
    | Returned(payer: Address, epoch: nat, allowed: bool)
    | Failed

  /** A balance the hub returned to a call, with the epoch that call had observed before. */
  datatype HubRead = HubRead(call: nat, payer: Address, epoch: nat, balance: int)

  datatype Gate = Gate(cache: Cache, calls: map<nat, Call>, hubReads: set<HubRead>)

  datatype Action =
    | Observe(call: nat, payer: Address, epoch: nat)
    | Probe(call: nat)
    | ReadHub(call: nat, balance: Result<int, ()>)
    | Finish(call: nat)

  const INIT: Gate := Gate(Cache(map[], 0), map[], {})

  ghost function Step(minBalance: int, g: Gate, a: Action): Gate {
    match a
    case Observe(id, payer, epoch) =>
      if id in g.calls then g else g.(calls := g.calls[id := Observed(payer, epoch)])
    case Probe(id) =>
      if id !in g.calls || !g.calls[id].Observed? then g
      else
        var c := g.calls[id];
        g.(cache := g.cache.Probed(c.epoch),
           calls := g.calls[id := if g.cache.Hit(c.epoch, c.payer) then Returned(c.payer, c.epoch, true)
             else Missed(c.payer, c.epoch)])
    case ReadHub(id, balance) =>
      if id !in g.calls || !g.calls[id].Missed? then g
      else
        var c := g.calls[id];
        if balance.Err? then g.(calls := g.calls[id := Failed])
        else g.(calls := g.calls[id := HasRead(c.payer, c.epoch, balance.value)],
                hubReads := g.hubReads + {HubRead(id, c.payer, c.epoch, balance.value)})
    case Finish(id) =>
      if id !in g.calls || !g.calls[id].HasRead? then g
      else
        var c := g.calls[id];
        g.(cache := g.cache.Stored(c.epoch, c.payer, c.balance, minBalance),
           calls := g.calls[id := Returned(c.payer, c.epoch, c.balance >= minBalance)])
  }

  ghost function Exec(minBalance: int, g: Gate, actions: seq<Action>): Gate
    decreases |actions|
  {
    if actions == [] then g else Exec(minBalance, Step(minBalance, g, actions[0]), actions[1..])
  }

  /** A sufficient balance of the payer was read by a call that had observed this epoch. */
  ghost predicate Backed(g: Gate, payer: Address, epoch: nat, minBalance: int) {
    exists r | r in g.hubReads :: r.payer == payer && r.epoch == epoch && r.balance >= minBalance
  }

  /** Every cached balance was read, and is sufficient, under the epoch the cache is for. */
  ghost predicate CacheBacked(g: Gate, minBalance: int) {
    forall p | p in g.cache.balances ::
      exists r | r in g.hubReads ::
        r.payer == p && r.epoch == g.cache.epoch && r.balance == g.cache.balances[p] && r.balance >= minBalance
  }

  ghost predicate CallBacked(g: Gate, id: nat, minBalance: int) {
    id in g.calls ==>
      match g.calls[id]
      case HasRead(payer, epoch, balance) => HubRead(id, payer, epoch, balance) in g.hubReads
      case Returned(payer, epoch, true) => Backed(g, payer, epoch, minBalance)
      case Returned(payer, epoch, false) => exists b :: b < minBalance && HubRead(id, payer, epoch, b) in g.hubReads
      case _ => true
  }

  ghost predicate Inv(g: Gate, minBalance: int) {
    CacheBacked(g, minBalance) && forall id :: CallBacked(g, id, minBalance)
  }

  lemma StepKeeps(minBalance: int, g: Gate, a: Action)
    requires Inv(g, minBalance)
    ensures Inv(Step(minBalance, g, a), minBalance)
  {
    var g1 := Step(minBalance, g, a);
    assert g.hubReads <= g1.hubReads;
    forall id ensures CallBacked(g1, id, minBalance) {
      assert CallBacked(g, id, minBalance);
      if a.Finish? && a.call == id && id in g.calls && g.calls[id].HasRead? {
        var c := g.calls[id];
        assert HubRead(id, c.payer, c.epoch, c.balance) in g1.hubReads;
      }
    }
    forall p | p in g1.cache.balances
      ensures exists r | r in g1.hubReads ::
        r.payer == p && r.epoch == g1.cache.epoch && r.balance == g1.cache.balances[p] && r.balance >= minBalance
    {
      if a.Finish? && a.call in g.calls && g.calls[a.call].HasRead? && g.calls[a.call].payer == p &&
        g1.cache != g.cache {
        var c := g.calls[a.call];
        assert CallBacked(g, a.call, minBalance);
        assert HubRead(a.call, p, c.epoch, c.balance) in g1.hubReads;
      }
    }
  }

  lemma {:induction false} ExecKeeps(minBalance: int, g: Gate, actions: seq<Action>)
    requires Inv(g, minBalance)
    ensures Inv(Exec(minBalance, g, actions), minBalance)
    decreases |actions|
  {
    if actions != [] {
      StepKeeps(minBalance, g, actions[0]);
      ExecKeeps(minBalance, Step(minBalance, g, actions[0]), actions[1..]);
    }
  }

  /** In every interleaving, whatever epochs the calls observe and however late they act on them:
      an allow rests on a sufficient balance read under the very epoch of the call, a deny on an
      insufficient balance the call itself read, and so does every cached balance. */
  lemma EveryDecisionIsBacked(minBalance: int, actions: seq<Action>, id: nat)
    ensures
      var g := Exec(minBalance, INIT, actions);
      && CacheBacked(g, minBalance)
      && (id in g.calls && g.calls[id].Returned? ==>
          var c := g.calls[id];
          if c.allowed then Backed(g, c.payer, c.epoch, minBalance)
          else exists b :: b < minBalance && HubRead(id, c.payer, c.epoch, b) in g.hubReads)
  {
    ExecKeeps(minBalance, INIT, actions);
    assert CallBacked(Exec(minBalance, INIT, actions), id, minBalance);
  }

  // ---------- what is cached ----------

  /** A call ends with a sufficient balance of the payer while the cache is still for the epoch the call observed. */
  ghost predicate Fills(minBalance: int, g: Gate, a: Action, payer: Address) {
    && a.Finish? && a.call in g.calls && g.calls[a.call].HasRead? && g.calls[a.call].payer == payer
    && g.calls[a.call].balance >= minBalance && g.calls[a.call].epoch == g.cache.epoch
  }

  /** A call probes the cache for another epoch. */
  ghost predicate Empties(g: Gate, a: Action) {
    a.Probe? && a.call in g.calls && g.calls[a.call].Observed? && g.calls[a.call].epoch != g.cache.epoch
  }

  /** The k-th step fills the cache for the payer, and no later one empties it. */
  ghost predicate FilledAt(minBalance: int, actions: seq<Action>, payer: Address, k: nat) {
    && k < |actions| && Fills(minBalance, Exec(minBalance, INIT, actions[..k]), actions[k], payer)
    && forall j | k < j < |actions| :: !Empties(Exec(minBalance, INIT, actions[..j]), actions[j])
  }

  lemma {:induction false} ExecConcat(minBalance: int, g: Gate, first: seq<Action>, rest: seq<Action>)
    ensures Exec(minBalance, g, first + rest) == Exec(minBalance, Exec(minBalance, g, first), rest)
    decreases |first|
  {
    hide Step;
    if first == [] {
      assert first + rest == rest;
    } else {
      assert (first + rest)[1..] == first[1..] + rest;
      ExecConcat(minBalance, Step(minBalance, g, first[0]), first[1..], rest);
    }
  }

  lemma LastStep(minBalance: int, actions: seq<Action>)
    requires actions != []
    ensures
      var n := |actions| - 1;
      Exec(minBalance, INIT, actions) == Step(minBalance, Exec(minBalance, INIT, actions[..n]), actions[n])
  {
    hide Step;
    var n := |actions| - 1;
    assert actions == actions[..n] + [actions[n]];
    ExecConcat(minBalance, INIT, actions[..n], [actions[n]]);
    assert [actions[n]][1..] == [];
  }

  lemma CachedAfterStep(minBalance: int, g: Gate, a: Action, payer: Address)
    ensures payer in Step(minBalance, g, a).cache.balances <==>
      Fills(minBalance, g, a, payer) || (payer in g.cache.balances && !Empties(g, a))
  {
  }

  /**
    In every interleaving a payer is cached exactly when some call read a sufficient balance and ended under the epoch
    of the cache, and no call has probed the cache for another epoch since.
   */
  lemma {:induction false} CachedExactly(minBalance: int, actions: seq<Action>, payer: Address)
    ensures payer in Exec(minBalance, INIT, actions).cache.balances <==>
      exists k: nat :: FilledAt(minBalance, actions, payer, k)
    decreases |actions|
  {
    hide Step, Exec, Fills, Empties;
    if actions == [] {
      NothingCached(minBalance, payer);
    } else {
      var n := |actions| - 1;
      var before := actions[..n];
      CachedExactly(minBalance, before, payer);
      LastStep(minBalance, actions);
      CachedAfterStep(minBalance, Exec(minBalance, INIT, before), actions[n], payer);
      FillAndEmpty(minBalance, Exec(minBalance, INIT, before), actions[n], payer);
      assert forall j | 0 <= j < n :: before[j] == actions[j] && before[..j] == actions[..j];
      forall k: nat | k < n ensures FilledAt(minBalance, actions, payer, k) <==>
          FilledAt(minBalance, before, payer, k) && !Empties(Exec(minBalance, INIT, before), actions[n]) {
        assert before[..k] == actions[..k];
      }
      assert FilledAt(minBalance, actions, payer, n) <==>
        Fills(minBalance, Exec(minBalance, INIT, before), actions[n], payer);
    }
  }

  lemma NothingCached(minBalance: int, payer: Address)
    ensures payer !in Exec(minBalance, INIT, []).cache.balances
  {
  }

  lemma FillAndEmpty(minBalance: int, g: Gate, a: Action, payer: Address)
    ensures !(Fills(minBalance, g, a, payer) && Empties(g, a))
  {
  }

  /** And a cached payer is allowed without a read of the hub: a second call in the epoch of a funded first one. */
  lemma SecondCallReadsNothing(minBalance: int, g: Gate, first: nat, second: nat, balance: int)
    requires first in g.calls && g.calls[first].Missed? && g.calls[first].epoch == g.cache.epoch
    requires balance >= minBalance && second !in g.calls
    ensures
      var payer, epoch := g.calls[first].payer, g.calls[first].epoch;
      var done := Exec(minBalance, g, [ReadHub(first, Ok(balance)), Finish(first)]);
      var g1 := Exec(minBalance, done, [Observe(second, payer, epoch), Probe(second)]);
      && second in g1.calls && g1.calls[second] == Returned(payer, epoch, true) && g1.hubReads == done.hubReads
  {
    var payer, epoch := g.calls[first].payer, g.calls[first].epoch;
    TwoSteps(minBalance, g, ReadHub(first, Ok(balance)), Finish(first));
    TwoSteps(minBalance, Exec(minBalance, g, [ReadHub(first, Ok(balance)), Finish(first)]),
             Observe(second, payer, epoch), Probe(second));
  }

  lemma TwoSteps(minBalance: int, g: Gate, a: Action, b: Action)
    ensures Exec(minBalance, g, [a, b]) == Step(minBalance, Step(minBalance, g, a), b)
  {
    hide Step;
    assert [a, b][1..] == [b] && [b][1..] == [];
    assert Exec(minBalance, Step(minBalance, g, a), [b]) == Step(minBalance, Step(minBalance, g, a), b);
  }

  /** The cache epoch is not monotone: a call that observed an older epoch takes it back. */
  lemma CacheEpochGoesBack(minBalance: int, payer: Address, epoch: nat)
    ensures
      var ahead := [Observe(1, payer, epoch), Observe(2, payer, epoch + 1), Probe(2)];
      && Exec(minBalance, INIT, ahead).cache.epoch == epoch + 1
      && Step(minBalance, Exec(minBalance, INIT, ahead), Probe(1)).cache.epoch == epoch
  {
    var a, b, c := Observe(1, payer, epoch), Observe(2, payer, epoch + 1), Probe(2);
    assert [a, b, c][1..] == [b, c] && [b, c][1..] == [c] && [c][1..] == [];
    var g2 := Step(minBalance, Step(minBalance, INIT, a), b);
    assert Exec(minBalance, INIT, [a, b, c]) == Exec(minBalance, Step(minBalance, INIT, a), [b, c]);
    assert Exec(minBalance, Step(minBalance, INIT, a), [b, c]) == Exec(minBalance, g2, [c]);
    assert Exec(minBalance, g2, [c]) == Step(minBalance, g2, c);
  }
}
