/**
  The indexers a host has seen attesting, each with the time of its last observation. Times are integers; the
  clock is a parameter. Observations and snapshots are atomic, as both run under one lock, but a snapshot reads
  the clock before it takes the lock, so any order of cutoffs can occur.
 */
module ObservedAttestersModel {

  type Sightings = map<string, int>

  // ---------- the order of sort.Strings ----------

  predicate AtMost(a: string, b: string) {
    a == "" || (b != "" && (a[0] < b[0] || (a[0] == b[0] && AtMost(a[1..], b[1..]))))
  }

  lemma {:induction false} AtMostIsTotal(a: string, b: string)
    ensures AtMost(a, b) || AtMost(b, a)
    ensures AtMost(a, b) && AtMost(b, a) ==> a == b
  {
    if a != "" && b != "" {
      AtMostIsTotal(a[1..], b[1..]);
      assert a == [a[0]] + a[1..] && b == [b[0]] + b[1..];
    }
  }

  lemma {:induction false} AtMostIsTransitive(a: string, b: string, c: string)
    requires AtMost(a, b) && AtMost(b, c)
    ensures AtMost(a, c)
  {
    if a != "" && a[0] == b[0] == c[0] {
      AtMostIsTransitive(a[1..], b[1..], c[1..]);
    }
  }

  predicate IsSorted(xs: seq<string>) {
    forall i, j | 0 <= i < j < |xs| :: AtMost(xs[i], xs[j])
  }

  function Insert(x: string, xs: seq<string>): seq<string> {
    if xs == [] || AtMost(x, xs[0]) then [x] + xs else [xs[0]] + Insert(x, xs[1..])
  }

  function SortStrings(xs: seq<string>): seq<string> {
    if xs == [] then [] else Insert(xs[0], SortStrings(xs[1..]))
  }

  lemma {:induction false} InsertKeepsAll(x: string, xs: seq<string>)
    ensures multiset(Insert(x, xs)) == multiset(xs) + multiset{x}
  {
    if xs != [] && !AtMost(x, xs[0]) {
      InsertKeepsAll(x, xs[1..]);
      assert xs == [xs[0]] + xs[1..];
    }
  }

  lemma SortedCons(x: string, xs: seq<string>)
    requires IsSorted(xs) && forall y | y in xs :: AtMost(x, y)
    ensures IsSorted([x] + xs)
  {
    var ys := [x] + xs;
    forall i, j | 0 <= i < j < |ys| ensures AtMost(ys[i], ys[j]) {
      if i > 0 { assert ys[i] == xs[i - 1] && ys[j] == xs[j - 1]; } else { assert ys[j] == xs[j - 1]; }
    }
  }

  lemma {:induction false} InsertKeepsOrder(x: string, xs: seq<string>)
    requires IsSorted(xs)
    ensures IsSorted(Insert(x, xs))
  {
    if xs == [] {
    } else if AtMost(x, xs[0]) {
      forall y | y in xs ensures AtMost(x, y) {
        var i :| 0 <= i < |xs| && xs[i] == y;
        if i > 0 { AtMostIsTransitive(x, xs[0], y); }
      }
      SortedCons(x, xs);
    } else {
      InsertKeepsOrder(x, xs[1..]);
      AtMostIsTotal(x, xs[0]);
      InsertKeepsAll(x, xs[1..]);
      var rest := Insert(x, xs[1..]);
      forall y | y in rest ensures AtMost(xs[0], y) {
        assert y in multiset(rest);
        assert y == x || y in xs[1..];
      }
      SortedCons(xs[0], rest);
    }
  }

  lemma {:induction false} SortStringsSorts(xs: seq<string>)
    ensures IsSorted(SortStrings(xs)) && multiset(SortStrings(xs)) == multiset(xs)
  {
    if xs != [] {
      SortStringsSorts(xs[1..]);
      InsertKeepsOrder(xs[0], SortStrings(xs[1..]));
      InsertKeepsAll(xs[0], SortStrings(xs[1..]));
      assert xs == [xs[0]] + xs[1..];
    }
  }

  lemma SortedHead(xs: seq<string>, ys: seq<string>)
    requires IsSorted(xs) && IsSorted(ys) && multiset(xs) == multiset(ys) && xs != [] && ys != []
    ensures xs[0] == ys[0]
  {
    assert xs[0] in multiset(ys) && ys[0] in multiset(xs);
    var i :| 0 <= i < |ys| && ys[i] == xs[0];
    var j :| 0 <= j < |xs| && xs[j] == ys[0];
    AtMostIsTotal(xs[0], ys[0]);
  }

  /** There is one sorted list of given elements, so the order in which the map yields them does not show. */
  lemma {:induction false} SortedIsUnique(xs: seq<string>, ys: seq<string>)
    requires IsSorted(xs) && IsSorted(ys) && multiset(xs) == multiset(ys)
    ensures xs == ys
  {
    assert |xs| == |multiset(xs)| && |ys| == |multiset(ys)|;
    if xs != [] {
      SortedHead(xs, ys);
      assert xs == [xs[0]] + xs[1..] && ys == [ys[0]] + ys[1..];
      assert multiset(xs[1..]) == multiset(xs) - multiset{xs[0]};
      assert multiset(ys[1..]) == multiset(ys) - multiset{ys[0]};
      SortedIsUnique(xs[1..], ys[1..]);
    }
  }

  // ---------- the set ----------

  ghost function Kept(lastSeen: Sightings, cutoff: int): Sightings {
    map id | id in lastSeen && lastSeen[id] >= cutoff :: lastSeen[id]
  }

  /** The list of a set's strings in ascending order. */
  ghost predicate Lists(xs: seq<string>, ids: set<string>) {
    IsSorted(xs) && multiset(xs) == multiset(ids)
  }

  class ObservedAttesters {
    var lastSeen: Sightings
    const window: int

    constructor (window: int)
      ensures lastSeen == map[] && this.window == window
    {
      this.window := window;
      lastSeen := map[];
    }

    method Observe(identity: string, now: int)
      modifies this
      ensures lastSeen == Step(old(lastSeen), Observed(identity, now))
      ensures lastSeen == if identity == "" then old(lastSeen) else old(lastSeen)[identity := now]
    {
      if identity == "" {
        return;
      }
      lastSeen := lastSeen[identity := now];
    }

    method Snapshot(now: int) returns (live: seq<string>)
      modifies this
      ensures lastSeen == Step(old(lastSeen), Snapped(now - window))
      ensures forall id :: id in lastSeen <==> id in old(lastSeen) && old(lastSeen)[id] >= now - window
      ensures forall id | id in lastSeen :: lastSeen[id] == old(lastSeen)[id]
      ensures Lists(live, lastSeen.Keys)
    {
      live := DropAged(now - window);
      SortStringsSorts(live);
      live := SortStrings(live);
    }

    /** The range loop: the aged identities are deleted from the map while it is iterated over. */
    method DropAged(cutoff: int) returns (live: seq<string>)
      modifies this
      ensures lastSeen == Kept(old(lastSeen), cutoff) && multiset(live) == multiset(lastSeen.Keys)
    {
      hide PartlyDropped, Kept;
      NoneDropped(lastSeen, cutoff);
      ghost var was := lastSeen;
      live := [];
      var todo := lastSeen.Keys;
      ghost var found: set<string> := {};
      while todo != {}
        invariant PartlyDropped(was, lastSeen, todo, found, cutoff)
        invariant multiset(live) == multiset(found)
        decreases todo
      {
        var id :| id in todo;
        DropOne(was, lastSeen, todo, found, cutoff, id);
        todo := todo - {id};
        if lastSeen[id] < cutoff {
          lastSeen := lastSeen - {id};
        } else {
          live, found := live + [id], found + {id};
        }
      }
      AllDropped(was, lastSeen, found, cutoff);
    }
  }

  /** The map in the middle of the loop: todo is still to be visited, and found was visited and kept. */
  ghost predicate PartlyDropped(was: Sightings, now: Sightings, todo: set<string>, found: set<string>, cutoff: int) {
    && todo <= was.Keys && now.Keys == found + todo && found !! todo
    && now.Keys <= was.Keys && (forall id | id in now :: now[id] == was[id])
    && forall id | id in was && id !in todo :: id in found <==> was[id] >= cutoff
  }

  lemma NoneDropped(was: Sightings, cutoff: int)
    ensures PartlyDropped(was, was, was.Keys, {}, cutoff)
  {
  }

  lemma AllDropped(was: Sightings, now: Sightings, found: set<string>, cutoff: int)
    requires PartlyDropped(was, now, {}, found, cutoff)
    ensures now == Kept(was, cutoff) && now.Keys == found
  {
  }

  lemma DropOne(was: Sightings, now: Sightings, todo: set<string>, found: set<string>, cutoff: int, id: string)
    requires PartlyDropped(was, now, todo, found, cutoff) && id in todo
    ensures id in now && id !in found
    ensures
      if now[id] < cutoff then PartlyDropped(was, now - {id}, todo - {id}, found, cutoff)
      else PartlyDropped(was, now, todo - {id}, found + {id}, cutoff)
  {
  }

  // ---------- histories ----------

  /** One critical section: an observation at a time, or a snapshot with the cutoff it has computed. */
  datatype Action = Observed(identity: string, now: int) | Snapped(cutoff: int)

  ghost function Step(lastSeen: Sightings, a: Action): Sightings {
    match a
    case Observed(id, now) => if id == "" then lastSeen else lastSeen[id := now]
    case Snapped(cutoff) => Kept(lastSeen, cutoff)
  }

  /** The set after a history, oldest action first. */
  ghost function Exec(history: seq<Action>): Sightings {
    if history == [] then map[] else Step(Exec(history[..|history| - 1]), history[|history| - 1])
  }

  /** The last observation of an identity in the whole history, pruned or not. */
  ghost predicate LastObserved(history: seq<Action>, id: string, i: nat, now: int) {
    && i < |history| && history[i] == Observed(id, now)
    && forall j | i < j < |history| :: !(history[j].Observed? && history[j].identity == id)
  }

  /** Every snapshot after position i would still show an observation of that time. */
  ghost predicate Survives(history: seq<Action>, i: nat, now: int) {
    forall j | i < j < |history| :: history[j].Snapped? ==> now >= history[j].cutoff
  }

  ghost predicate Seen(history: seq<Action>, id: string, now: int) {
    exists i: nat :: LastObserved(history, id, i, now) && Survives(history, i, now)
  }

  lemma LastObservedEarlier(history: seq<Action>, id: string, i: nat, now: int)
    requires history != [] && i < |history| - 1
    ensures LastObserved(history, id, i, now) <==>
      LastObserved(history[..|history| - 1], id, i, now)
      && !(history[|history| - 1].Observed? && history[|history| - 1].identity == id)
  {
    var before := history[..|history| - 1];
    assert forall j | 0 <= j < |before| :: before[j] == history[j];
  }

  lemma SurvivesEarlier(history: seq<Action>, i: nat, now: int)
    requires history != [] && i < |history| - 1
    ensures Survives(history, i, now) <==>
      Survives(history[..|history| - 1], i, now)
      && (history[|history| - 1].Snapped? ==> now >= history[|history| - 1].cutoff)
  {
    var before := history[..|history| - 1];
    assert forall j | 0 <= j < |before| :: before[j] == history[j];
  }

  lemma SeenStep(history: seq<Action>, id: string, now: int)
    requires history != []
    ensures Seen(history, id, now) <==>
      match history[|history| - 1]
      case Observed(x, t) => if x == id then now == t else Seen(history[..|history| - 1], id, now)
      case Snapped(cutoff) => Seen(history[..|history| - 1], id, now) && now >= cutoff
  {
    var n := |history| - 1;
    forall i: nat | i < n
      ensures LastObserved(history, id, i, now) && Survives(history, i, now) <==>
        LastObserved(history[..n], id, i, now) && Survives(history[..n], i, now)
        && !(history[n].Observed? && history[n].identity == id) && (history[n].Snapped? ==> now >= history[n].cutoff)
    {
      LastObservedEarlier(history, id, i, now);
      SurvivesEarlier(history, i, now);
    }
    assert history[n] == Observed(id, now) ==> LastObserved(history, id, n, now) && Survives(history, n, now);
  }

  /**
    After any history an identity is in the set exactly when its last observation is no older than any cutoff
    used since, and then with the time of that observation.
   */
  lemma {:induction false} SetIsSurvivors(history: seq<Action>, id: string, now: int)
    ensures id in Exec(history) && Exec(history)[id] == now <==> id != "" && Seen(history, id, now)
  {
    if history != [] {
      SetIsSurvivors(history[..|history| - 1], id, now);
      SeenStep(history, id, now);
    }
  }

  /** The identities a snapshot with this cutoff returns after a history. */
  ghost function Answer(history: seq<Action>, cutoff: int): set<string> {
    Exec(history + [Snapped(cutoff)]).Keys
  }

  ghost predicate WithinOwnWindow(history: seq<Action>, cutoff: int, id: string) {
    id != "" && exists i: nat, now :: LastObserved(history, id, i, now) && now >= cutoff
  }

  lemma AnswerIsSeen(history: seq<Action>, cutoff: int, id: string)
    ensures id in Answer(history, cutoff) <==> id != "" && exists now :: Seen(history, id, now) && now >= cutoff
  {
    hide Seen;
    assert (history + [Snapped(cutoff)])[..|history|] == history;
    var m := Exec(history);
    if id in m {
      SetIsSurvivors(history, id, m[id]);
    }
    forall now | id != "" && Seen(history, id, now) ensures id in m && m[id] == now {
      SetIsSurvivors(history, id, now);
    }
  }

  /** No snapshot returns an identity last observed before its own cutoff, whatever the order of cutoffs. */
  lemma NothingOlderThanCutoff(history: seq<Action>, cutoff: int, id: string)
    requires id in Answer(history, cutoff)
    ensures WithinOwnWindow(history, cutoff, id)
  {
    AnswerIsSeen(history, cutoff, id);
    var now :| Seen(history, id, now) && now >= cutoff;
    var i: nat :| LastObserved(history, id, i, now) && Survives(history, i, now);
  }

  /** Every identity observed at or after the largest cutoff so far is returned. */
  lemma EverythingSinceLargestCutoff(history: seq<Action>, cutoff: int, id: string, largest: int)
    requires cutoff <= largest && forall a | a in history && a.Snapped? :: a.cutoff <= largest
    requires WithinOwnWindow(history, largest, id)
    ensures id in Answer(history, cutoff)
  {
    var i: nat, now :| LastObserved(history, id, i, now) && now >= largest;
    assert Survives(history, i, now);
    assert Seen(history, id, now);
    AnswerIsSeen(history, cutoff, id);
  }

  /**
    While no earlier snapshot used a larger cutoff, a snapshot returns exactly the identities whose last
    observation in the full history lies within the window: pruning never changes an answer.
   */
  lemma PruningNeverShows(history: seq<Action>, cutoff: int, id: string)
    requires forall a | a in history && a.Snapped? :: a.cutoff <= cutoff
    ensures id in Answer(history, cutoff) <==> WithinOwnWindow(history, cutoff, id)
  {
    if id in Answer(history, cutoff) {
      NothingOlderThanCutoff(history, cutoff, id);
    }
    if WithinOwnWindow(history, cutoff, id) {
      EverythingSinceLargestCutoff(history, cutoff, id, cutoff);
    }
  }

  /**
    In general an identity within the window is missing from a snapshot exactly when a snapshot after its last
    observation used a cutoff beyond that observation.
   */
  lemma MissingExactlyWhenOvertaken(history: seq<Action>, cutoff: int, id: string, i: nat, now: int)
    requires id != "" && LastObserved(history, id, i, now) && now >= cutoff
    ensures id !in Answer(history, cutoff) <==>
      exists j :: i < j < |history| && history[j].Snapped? && history[j].cutoff > now
  {
    AnswerIsSeen(history, cutoff, id);
    if Survives(history, i, now) {
      assert Seen(history, id, now);
    }
    forall i': nat, now' | LastObserved(history, id, i', now') ensures i' == i && now' == now {
      assert i' <= i && i <= i';
    }
  }

  /** Two overlapping snapshots: the later cutoff gets the lock first and hides a live identity from the other. */
  lemma OvertakenSnapshot()
    ensures WithinOwnWindow([Observed("a", 5), Snapped(10)], 3, "a")
    ensures "a" !in Answer([Observed("a", 5), Snapped(10)], 3)
  {
    var history := [Observed("a", 5), Snapped(10)];
    assert LastObserved(history, "a", 0, 5);
    MissingExactlyWhenOvertaken(history, 3, "a", 0, 5);
    assert history[1].Snapped? && history[1].cutoff > 5;
  }

  /** The order is that of a dictionary: a beginning comes first, and else the first differing character decides. */
  lemma {:induction false} AtMostIsLexicographic(p: string, x: string, c: char, d: char, y: string)
    ensures AtMost(p, p + x)
    ensures AtMost(p + [c] + x, p + [d] + y) <==> c < d || (c == d && AtMost(x, y))
  {
    if p == "" {
      assert ("" + [c] + x)[1..] == x && ("" + [d] + y)[1..] == y;
    } else {
      assert (p + x)[1..] == p[1..] + x;
      assert (p + [c] + x)[1..] == p[1..] + [c] + x && (p + [d] + y)[1..] == p[1..] + [d] + y;
      AtMostIsLexicographic(p[1..], x, c, d, y);
    }
  }
}
