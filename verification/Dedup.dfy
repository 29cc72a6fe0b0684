/**
  First-occurrence deduplication by a key, in list order: how fields merge by response key,
  and how names, CIDs and source identities merge by themselves.
 */
module Dedup {

  ghost function Keys<T, K>(key: T -> K, xs: seq<T>): set<K> {
    set x | x in xs :: key(x)
  }

  /** The elements of xs whose key is not in seen, each at the first occurrence of its key. */
  ghost function FirstPerKey<T, K>(key: T -> K, xs: seq<T>, seen: set<K>): seq<T> {
    if xs == [] then []
    else if key(xs[0]) in seen then FirstPerKey(key, xs[1..], seen)
    else [xs[0]] + FirstPerKey(key, xs[1..], seen + {key(xs[0])})
  }

  ghost predicate DistinctKeys<T, K>(key: T -> K, xs: seq<T>) {
    forall i, j | 0 <= i < j < |xs| :: key(xs[i]) != key(xs[j])
  }

  lemma KeysOfConcat<T, K>(key: T -> K, xs: seq<T>, ys: seq<T>)
    ensures Keys(key, xs + ys) == Keys(key, xs) + Keys(key, ys)
  {
  }

  lemma KeysOfCons<T, K>(key: T -> K, xs: seq<T>)
    requires xs != []
    ensures Keys(key, xs) == {key(xs[0])} + Keys(key, xs[1..])
  {
    assert xs == [xs[0]] + xs[1..];
  }

  lemma {:induction false} FirstPerKeyKeys<T, K>(key: T -> K, xs: seq<T>, seen: set<K>)
    ensures Keys(key, FirstPerKey(key, xs, seen)) == Keys(key, xs) - seen
    ensures DistinctKeys(key, FirstPerKey(key, xs, seen))
    ensures forall x | x in FirstPerKey(key, xs, seen) :: x in xs
  {
    if xs != [] {
      KeysOfCons(key, xs);
      if key(xs[0]) in seen {
        FirstPerKeyKeys(key, xs[1..], seen);
      } else {
        var rest := FirstPerKey(key, xs[1..], seen + {key(xs[0])});
        FirstPerKeyKeys(key, xs[1..], seen + {key(xs[0])});
        assert forall y | y in rest :: key(y) in Keys(key, rest);
        KeysOfCons(key, [xs[0]] + rest);
        assert ([xs[0]] + rest)[1..] == rest;
      }
    }
  }

  lemma {:induction false} FirstPerKeyOfConcat<T, K>(key: T -> K, xs: seq<T>, ys: seq<T>, seen: set<K>)
    ensures FirstPerKey(key, xs + ys, seen) == FirstPerKey(key, xs, seen) + FirstPerKey(key, ys, seen + Keys(key, xs))
  {
    if xs == [] {
      assert xs + ys == ys && seen + Keys(key, xs) == seen;
    } else {
      assert (xs + ys)[1..] == xs[1..] + ys;
      KeysOfCons(key, xs);
      if key(xs[0]) in seen {
        FirstPerKeyOfConcat(key, xs[1..], ys, seen);
        assert seen + Keys(key, xs) == seen + Keys(key, xs[1..]);
      } else {
        FirstPerKeyOfConcat(key, xs[1..], ys, seen + {key(xs[0])});
        assert seen + Keys(key, xs) == seen + {key(xs[0])} + Keys(key, xs[1..]);
      }
    }
  }

  /** Deduplicating what was already deduplicated against less is deduplicating once. */
  lemma {:induction false} FirstPerKeyTwice<T, K>(key: T -> K, xs: seq<T>, less: set<K>, seen: set<K>)
    requires less <= seen
    ensures FirstPerKey(key, FirstPerKey(key, xs, less), seen) == FirstPerKey(key, xs, seen)
  {
    if xs != [] {
      var k := key(xs[0]);
      if k in less {
        FirstPerKeyTwice(key, xs[1..], less, seen);
      } else {
        var rest := FirstPerKey(key, xs[1..], less + {k});
        assert ([xs[0]] + rest)[1..] == rest;
        if k in seen {
          FirstPerKeyTwice(key, xs[1..], less + {k}, seen);
        } else {
          FirstPerKeyTwice(key, xs[1..], less + {k}, seen + {k});
        }
      }
    }
  }

  /** An element of the list at the first occurrence of its key, which is not in seen. */
  ghost predicate IsFirst<T, K>(key: T -> K, xs: seq<T>, seen: set<K>, i: nat) {
    i < |xs| && key(xs[i]) !in seen && forall j | 0 <= j < i :: key(xs[j]) != key(xs[i])
  }

  /** The deduplication holds exactly the first elements. */
  lemma {:induction false} FirstPerKeyExactly<T, K(!new)>(key: T -> K, xs: seq<T>, seen: set<K>, x: T)
    ensures x in FirstPerKey(key, xs, seen) <==> exists i: nat :: IsFirst(key, xs, seen, i) && xs[i] == x
  {
    if xs != [] {
      var k := key(xs[0]);
      var more := if k in seen then seen else seen + {k};
      FirstPerKeyExactly(key, xs[1..], more, x);
      forall i: nat ensures IsFirst(key, xs, seen, i + 1) <==> IsFirst(key, xs[1..], more, i) {
        assert i < |xs| - 1 ==> xs[i + 1] == xs[1..][i];
        assert forall j | 0 < j < |xs| :: xs[j] == xs[1..][j - 1];
      }
      assert IsFirst(key, xs, seen, 0) <==> k !in seen;
      if x in FirstPerKey(key, xs[1..], more) {
        var i: nat :| IsFirst(key, xs[1..], more, i) && xs[1..][i] == x;
        assert IsFirst(key, xs, seen, i + 1);
      }
      if i: nat :| IsFirst(key, xs, seen, i) && xs[i] == x && i > 0 {
        assert IsFirst(key, xs[1..], more, i - 1);
      }
    }
  }

  /** Nothing is left of a list whose keys are all seen. */
  lemma {:induction false} FirstPerKeyAllSeen<T, K>(key: T -> K, xs: seq<T>, seen: set<K>)
    requires Keys(key, xs) <= seen
    ensures FirstPerKey(key, xs, seen) == []
  {
    if xs != [] {
      KeysOfCons(key, xs);
      FirstPerKeyAllSeen(key, xs[1..], seen);
    }
  }

  /** A list of distinct unseen keys is its own deduplication. */
  lemma {:induction false} FirstPerKeyOfDistinct<T, K>(key: T -> K, xs: seq<T>, seen: set<K>)
    requires DistinctKeys(key, xs) && Keys(key, xs) !! seen
    ensures FirstPerKey(key, xs, seen) == xs
  {
    if xs != [] {
      KeysOfCons(key, xs);
      assert key(xs[0]) !in Keys(key, xs[1..]);
      FirstPerKeyOfDistinct(key, xs[1..], seen + {key(xs[0])});
    }
  }

  // ---------- strings, each its own key ----------

  function Self(s: string): string {
    s
  }

  ghost function Distinct(xs: seq<string>): seq<string> {
    FirstPerKey(Self, xs, {})
  }

  ghost function Elements(xs: seq<string>): set<string> {
    Keys(Self, xs)
  }

  /** The loop every caller writes: extend result by the strings of xs not yet in set. */
  method AppendNew(xs: seq<string>, set0: set<string>, result0: seq<string>)
      returns (set1: set<string>, result1: seq<string>)
    ensures set1 == set0 + Elements(xs)
    ensures result1 == result0 + FirstPerKey(Self, xs, set0)
  {
    set1, result1 := set0, result0;
    for i := 0 to |xs|
      invariant set1 + Elements(xs[i..]) == set0 + Elements(xs)
      invariant result1 + FirstPerKey(Self, xs[i..], set1) == result0 + FirstPerKey(Self, xs, set0)
    {
      KeysOfCons(Self, xs[i..]);
      assert xs[i..][1..] == xs[i + 1..];
      if xs[i] !in set1 {
        set1, result1 := set1 + {xs[i]}, result1 + [xs[i]];
      }
    }
  }

  /** One more element is kept exactly when no earlier one has its key. */
  lemma FirstPerKeyOfMore<T, K>(key: T -> K, xs: seq<T>, x: T)
    ensures FirstPerKey(key, xs + [x], {}) ==
      FirstPerKey(key, xs, {}) + if exists y | y in xs :: key(y) == key(x) then [] else [x]
  {
    FirstPerKeyOfConcat(key, xs, [x], {});
    assert {} + Keys(key, xs) == Keys(key, xs);
    assert [x][1..] == [];
  }
}
