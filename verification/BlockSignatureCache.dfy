/** The block signature cache as a streaming top-k over block numbers. */
module BlockSignatureCacheModel {
  import opened Basics

  /** A signature, of which the cache only looks at the block number. */
  datatype BlockSignature = BlockSignature(blockNumber: int, merkleRoot: string)

  type Signatures = map<int, BlockSignature>

  const DEFAULT_MAX_SIZE: nat := 10000

  // ---------- the scan ----------

  /** What the scan leaves in minBlock when the map is iterated in this order. */
  ghost function Scan(order: seq<int>): int {
    if order == [] then -1
    else
      var m := Scan(order[..|order| - 1]);
      var b := order[|order| - 1];
      if m == -1 || b < m then b else m
  }

  ghost predicate IsOrderOf(order: seq<int>, keys: set<int>) {
    (set b | b in order) == keys && |order| == |keys|
  }

  /** The map after Add under some iteration order of the map. */
  ghost predicate Added(before: Signatures, maxSize: nat, sig: BlockSignature, after: Signatures) {
    var full := before[sig.blockNumber := sig];
    if |full| <= maxSize then after == full
    else exists order :: IsOrderOf(order, full.Keys) && after == if Scan(order) >= 0 then full - {Scan(order)} else full
  }

  class BlockSignatureCache {
    var signatures: Signatures
    const maxSize: nat
    /** All signatures ever added, and the map after each of them. */
    ghost var history: seq<BlockSignature>
    ghost var states: seq<Signatures>

    ghost predicate Valid()
      reads this
    {
      Run(history, maxSize, states) && states[|history|] == signatures
    }

    constructor (maxSize: int)
      ensures Valid() && signatures == map[] && history == []
      ensures this.maxSize == if maxSize <= 0 then 10000 else maxSize
    {
      this.maxSize := if maxSize <= 0 then DEFAULT_MAX_SIZE else maxSize;
      signatures, history, states := map[], [], [map[]];
    }

    method Add(sig: Option<BlockSignature>)
      requires Valid()
      modifies this
      ensures Valid()
      ensures sig == None ==> signatures == old(signatures) && history == old(history)
      ensures sig.Some? ==>
        Added(old(signatures), maxSize, sig.value, signatures) && history == old(history) + [sig.value]
    {
      if sig == None {
        return;
      }
      hide Run;
      signatures := signatures[sig.value.blockNumber := sig.value];
      if |signatures| > maxSize {
        var minBlock, order := ScanMinimum();
        if minBlock >= 0 {
          signatures := signatures - {minBlock};
        }
      }
      RunMore(history, maxSize, states, sig.value, signatures);
      history, states := history + [sig.value], states + [signatures];
    }

    /** The range loop over the map, in whatever order the map yields its keys. */
    method ScanMinimum() returns (minBlock: int, ghost order: seq<int>)
      ensures IsOrderOf(order, signatures.Keys) && minBlock == Scan(order)
    {
      minBlock, order := -1, [];
      var todo := signatures.Keys;
      ghost var done: set<int> := {};
      while todo != {}
        invariant todo !! done && todo + done == signatures.Keys
        invariant IsOrderOf(order, done) && minBlock == Scan(order)
        decreases todo
      {
        ghost var some := Member(todo);
        assert some in todo;
        var blockNum :| blockNum in todo;
        if minBlock == -1 || blockNum < minBlock {
          minBlock := blockNum;
        }
        OneMoreInOrder(order, done, blockNum);
        order, done := order + [blockNum], done + {blockNum};
        todo := todo - {blockNum};
      }
    }

    /**
      The last signature added for the block, or none: exactly which blocks have one is known while none was
      negative.
     */
    method Get(blockNumber: int) returns (sig: Option<BlockSignature>)
      requires Valid()
      ensures sig.Some? ==> sig == LastFor(history, blockNumber)
      ensures NoNegative(history) || |Blocks(history)| <= maxSize ==>
        sig == if blockNumber in Largest(Blocks(history), maxSize) then LastFor(history, blockNumber) else None
    {
      LookupAfterRun(history, maxSize, states, blockNumber);
      return if blockNumber in signatures then Some(signatures[blockNumber]) else None;
    }
  }

  lemma Member<T>(s: set<T>) returns (x: T)
    requires s != {}
    ensures x in s
  {
    x :| x in s;
  }

  lemma OneMoreInOrder(order: seq<int>, done: set<int>, b: int)
    requires IsOrderOf(order, done) && b !in done
    ensures IsOrderOf(order + [b], done + {b})
    ensures Scan(order + [b]) == if Scan(order) == -1 || b < Scan(order) then b else Scan(order)
  {
    assert (order + [b])[..|order|] == order;
  }

  // ---------- the scan and the iteration order ----------

  /** Over non-negative numbers every order finds the minimum. */
  lemma {:induction false} ScanIsMinimum(order: seq<int>)
    requires order != [] && forall b | b in order :: b >= 0
    ensures Scan(order) in order && forall b | b in order :: Scan(order) <= b
  {
    var n := |order| - 1;
    assert order == order[..n] + [order[n]];
    if n > 0 {
      assert forall b | b in order[..n] :: b in order;
      ScanIsMinimum(order[..n]);
    }
  }

  // ---------- histories ----------

  ghost function Blocks(history: seq<BlockSignature>): set<int> {
    set s | s in history :: s.blockNumber
  }

  lemma BlocksOfMore(history: seq<BlockSignature>, sig: BlockSignature)
    ensures Blocks(history + [sig]) == Blocks(history) + {sig.blockNumber}
  {
  }

  ghost function Above(blocks: set<int>, b: int): set<int> {
    set x | x in blocks && x > b
  }

  /** The k largest. */
  ghost function Largest(blocks: set<int>, k: nat): set<int> {
    set b | b in blocks && |Above(blocks, b)| < k
  }

  ghost predicate NewestFor(history: seq<BlockSignature>, sig: BlockSignature) {
    exists i ::
      && 0 <= i < |history| && history[i] == sig
      && forall j | i < j < |history| :: history[j].blockNumber != sig.blockNumber
  }

  /** The keys are the k largest blocks ever added, each with the last signature added for it. */
  ghost predicate IsTopK(history: seq<BlockSignature>, k: nat, m: Signatures) {
    m.Keys == Largest(Blocks(history), k) && AllNewest(history, m)
  }

  ghost predicate AllNewest(history: seq<BlockSignature>, m: Signatures) {
    forall b | b in m :: m[b].blockNumber == b && NewestFor(history, m[b])
  }

  ghost predicate NoNegative(history: seq<BlockSignature>) {
    forall s | s in history :: s.blockNumber >= 0
  }

  /** The states of a cache that adds the history, under iteration orders chosen freely. */
  ghost predicate Run(history: seq<BlockSignature>, k: nat, states: seq<Signatures>) {
    && |states| == |history| + 1 && states[0] == map[]
    && forall i | 0 <= i < |history| :: Added(states[i], k, history[i], states[i + 1])
  }

  lemma RunMore(history: seq<BlockSignature>, k: nat, states: seq<Signatures>, sig: BlockSignature, after: Signatures)
    requires Run(history, k, states) && Added(states[|history|], k, sig, after)
    ensures Run(history + [sig], k, states + [after]) && (states + [after])[|history| + 1] == after
  {
    hide Added;
  }

  // ---------- one step ----------

  /** An upward closed part of the blocks, as large as k allows. */
  ghost predicate TopSet(blocks: set<int>, top: set<int>, k: nat) {
    && top <= blocks
    && (forall x, y | x in top && y in blocks && y > x :: y in top)
    && |top| == if |blocks| <= k then |blocks| else k
  }

  lemma SubsetSize(a: set<int>, b: set<int>)
    requires a <= b
    ensures |a| <= |b| && (a != b ==> |a| < |b|)
  {
    assert b == a + (b - a);
  }

  lemma TopSetIsLargest(blocks: set<int>, top: set<int>, k: nat)
    requires TopSet(blocks, top, k)
    ensures top == Largest(blocks, k)
  {
    forall x | x in blocks ensures x in top <==> x in Largest(blocks, k) {
      if x in top {
        assert Above(blocks, x) <= top - {x};
        SubsetSize(Above(blocks, x), top - {x});
      } else {
        SubsetSize(top, blocks);
        assert top <= Above(blocks, x);
        SubsetSize(top, Above(blocks, x));
      }
    }
  }

  lemma FullTopSet(blocks: set<int>, k: nat)
    requires |blocks| <= k
    ensures TopSet(blocks, blocks, k)
  {
  }

  /** A new block joins while there is room. */
  lemma TopSetGrow(blocks: set<int>, top: set<int>, k: nat, b: int)
    requires TopSet(blocks, top, k) && |top + {b}| <= k
    ensures TopSet(blocks + {b}, top + {b}, k)
  {
    SubsetSize(top, blocks);
    if b in top {
      assert top + {b} == top && blocks + {b} == blocks;
    } else {
      assert top == blocks;
      FullTopSet(blocks + {b}, k);
    }
  }

  /** When there is none, a block joins and the least goes. */
  lemma TopSetEvict(blocks: set<int>, top: set<int>, k: nat, b: int, m: int)
    requires TopSet(blocks, top, k) && |top + {b}| > k
    requires m in top + {b} && forall x | x in top + {b} :: m <= x
    ensures TopSet(blocks + {b}, top + {b} - {m}, k)
  {
    assert b in top ==> top + {b} == top;
    EvictLeast(blocks, top, k, b, m);
  }

  lemma EvictLeast(blocks: set<int>, top: set<int>, k: nat, b: int, m: int)
    requires TopSet(blocks, top, k) && b !in top && |top| == k
    requires m in top + {b} && forall x | x in top + {b} :: m <= x
    ensures TopSet(blocks + {b}, top + {b} - {m}, k)
  {
    var top1, blocks1 := top + {b} - {m}, blocks + {b};
    assert |top1| == k;
    SubsetSize(top, blocks);
    if b in blocks {
      assert blocks1 == blocks;
    }
    forall x, y | x in top1 && y in blocks1 && y > x ensures y in top1 {
      assert m < y;
      if x == b { assert m in top; }
    }
  }

  lemma ValuesKeep(history: seq<BlockSignature>, before: Signatures, k: nat, sig: BlockSignature, after: Signatures)
    requires AllNewest(history, before) && Added(before, k, sig, after)
    ensures AllNewest(history + [sig], after)
  {
    var h1 := history + [sig];
    forall b | b in after ensures after[b].blockNumber == b && NewestFor(h1, after[b]) {
      if b == sig.blockNumber {
        assert h1[|history|] == sig;
      } else {
        var i :| 0 <= i < |history| && history[i] == before[b] &&
          forall j | i < j < |history| :: history[j].blockNumber != b;
        assert h1[i] == before[b];
      }
    }
  }

  lemma KeysKeep(before: Signatures, k: nat, sig: BlockSignature, after: Signatures, blocks: set<int>)
    requires TopSet(blocks, before.Keys, k) && Added(before, k, sig, after)
    requires sig.blockNumber >= 0 && forall b | b in before :: b >= 0
    ensures TopSet(blocks + {sig.blockNumber}, after.Keys, k)
  {
    var b := sig.blockNumber;
    var full := before[b := sig];
    FullKeys(before, b, sig);
    if |full| > k {
      var m := EvictedIsLeast(full, b, after);
      TopSetEvict(blocks, before.Keys, k, b, m);
    } else {
      TopSetGrow(blocks, before.Keys, k, b);
    }
  }

  lemma FullKeys(before: Signatures, b: int, sig: BlockSignature)
    ensures before[b := sig].Keys == before.Keys + {b}
    ensures |before[b := sig]| == |before.Keys + {b}|
  {
    assert before[b := sig].Keys == before.Keys + {b};
  }

  lemma EvictedIsLeast(full: Signatures, b: int, after: Signatures) returns (m: int)
    requires b in full && forall x | x in full :: x >= 0
    requires exists order ::
      IsOrderOf(order, full.Keys) && after == if Scan(order) >= 0 then full - {Scan(order)} else full
    ensures m in full.Keys && (forall x | x in full.Keys :: m <= x) && after.Keys == full.Keys - {m}
  {
    var order :| IsOrderOf(order, full.Keys) && after == if Scan(order) >= 0 then full - {Scan(order)} else full;
    assert forall x | x in order :: x in full.Keys;
    assert b in order by { assert b in set x | x in order; }
    ScanIsMinimum(order);
    m := Scan(order);
    assert forall x | x in full.Keys :: x in set y | y in order;
  }

  /** A negative block is never evicted, and below capacity nothing is. */
  lemma NegativesStay(before: Signatures, k: nat, sig: BlockSignature, after: Signatures)
    requires Added(before, k, sig, after)
    ensures forall b | b in before.Keys + {sig.blockNumber} && b < 0 :: b in after
    ensures after.Keys <= before.Keys + {sig.blockNumber}
    ensures |before.Keys + {sig.blockNumber}| <= k ==> after.Keys == before.Keys + {sig.blockNumber}
  {
    var full := before[sig.blockNumber := sig];
    assert full.Keys == before.Keys + {sig.blockNumber};
  }

  // ---------- whole histories ----------

  lemma RunPrefix(history: seq<BlockSignature>, k: nat, states: seq<Signatures>)
    requires Run(history, k, states) && history != []
    ensures Run(history[..|history| - 1], k, states[..|history|])
    ensures history == history[..|history| - 1] + [history[|history| - 1]]
  {
  }

  lemma {:induction false} RunKeepsValues(history: seq<BlockSignature>, k: nat, states: seq<Signatures>)
    requires Run(history, k, states)
    ensures AllNewest(history, states[|history|])
    decreases |history|
  {
    if history != [] {
      var n := |history| - 1;
      RunPrefix(history, k, states);
      RunKeepsValues(history[..n], k, states[..n + 1]);
      ValuesKeep(history[..n], states[n], k, history[n], states[n + 1]);
    }
  }

  lemma {:induction false} RunKeepsTop(history: seq<BlockSignature>, k: nat, states: seq<Signatures>)
    requires Run(history, k, states) && NoNegative(history)
    ensures TopSet(Blocks(history), states[|history|].Keys, k)
    ensures forall b | b in states[|history|] :: b >= 0
    decreases |history|
  {
    if history == [] {
      assert Blocks(history) == {};
    } else {
      var n := |history| - 1;
      RunPrefix(history, k, states);
      assert forall s | s in history[..n] :: s in history;
      RunKeepsTop(history[..n], k, states[..n + 1]);
      BlocksOfMore(history[..n], history[n]);
      assert history[n] in history;
      KeysKeep(states[n], k, history[n], states[n + 1], Blocks(history[..n]));
      NegativesStay(states[n], k, history[n], states[n + 1]);
    }
  }

  lemma {:induction false} RunKeepsNegatives(history: seq<BlockSignature>, k: nat, states: seq<Signatures>)
    requires Run(history, k, states)
    ensures forall b | b in Blocks(history) && b < 0 :: b in states[|history|]
    ensures |Blocks(history)| <= k ==> states[|history|].Keys == Blocks(history)
    decreases |history|
  {
    if history == [] {
      assert Blocks(history) == {};
    } else {
      var n := |history| - 1;
      RunPrefix(history, k, states);
      RunKeepsNegatives(history[..n], k, states[..n + 1]);
      BlocksOfMore(history[..n], history[n]);
      SubsetSize(Blocks(history[..n]), Blocks(history));
      NegativesStay(states[n], k, history[n], states[n + 1]);
    }
  }

  lemma {:induction false} LeastExists(blocks: set<int>) returns (least: int)
    requires blocks != {}
    ensures least in blocks && forall b | b in blocks :: least <= b
    decreases |blocks|
  {
    var x := Member(blocks);
    least := x;
    if blocks - {x} != {} {
      var rest := LeastExists(blocks - {x});
      least := if rest < x then rest else x;
    }
    forall b | b in blocks ensures least <= b {
      if b != x { assert b in blocks - {x}; }
    }
  }

  lemma LeastIsNotLargest(blocks: set<int>, k: nat, least: int)
    requires |blocks| > k && least in blocks && forall b | b in blocks :: least <= b
    ensures least !in Largest(blocks, k)
  {
    assert Above(blocks, least) == blocks - {least};
  }

  /** Whatever the map iteration orders: after any sequence of Adds the cache is exactly the maxSize
      largest blocks, each with its last signature, if and only if no block number was negative or
      there were never too many. */
  lemma CacheIsTopKExactlyWhen(history: seq<BlockSignature>, maxSize: nat, states: seq<Signatures>)
    requires Run(history, maxSize, states)
    ensures IsTopK(history, maxSize, states[|history|]) <==> NoNegative(history) || |Blocks(history)| <= maxSize
  {
    var m, blocks := states[|history|], Blocks(history);
    RunKeepsValues(history, maxSize, states);
    RunKeepsNegatives(history, maxSize, states);
    if NoNegative(history) {
      RunKeepsTop(history, maxSize, states);
      TopSetIsLargest(blocks, m.Keys, maxSize);
    } else if |blocks| <= maxSize {
      FullTopSet(blocks, maxSize);
      TopSetIsLargest(blocks, blocks, maxSize);
    } else {
      var s :| s in history && s.blockNumber < 0;
      assert s.blockNumber in blocks;
      var least := LeastExists(blocks);
      LeastIsNotLargest(blocks, maxSize, least);
      assert least in m;
    }
  }

  /** The last signature added for a block. */
  ghost function LastFor(history: seq<BlockSignature>, b: int): Option<BlockSignature> {
    if history == [] then None
    else if history[|history| - 1].blockNumber == b then Some(history[|history| - 1])
    else LastFor(history[..|history| - 1], b)
  }

  lemma {:induction false} NewestIsLast(history: seq<BlockSignature>, sig: BlockSignature)
    requires NewestFor(history, sig)
    ensures LastFor(history, sig.blockNumber) == Some(sig)
  {
    var i :| 0 <= i < |history| && history[i] == sig &&
      forall j | i < j < |history| :: history[j].blockNumber != sig.blockNumber;
    if i < |history| - 1 {
      var before := history[..|history| - 1];
      assert before[i] == sig && forall j | i < j < |before| :: before[j] == history[j];
      NewestIsLast(before, sig);
    }
  }

  /** What a lookup finds after any sequence of additions. */
  lemma LookupAfterRun(history: seq<BlockSignature>, k: nat, states: seq<Signatures>, b: int)
    requires Run(history, k, states)
    ensures b in states[|history|] ==> Some(states[|history|][b]) == LastFor(history, b)
    ensures NoNegative(history) || |Blocks(history)| <= k ==>
      (b in states[|history|] <==> b in Largest(Blocks(history), k))
  {
    CacheIsTopKExactlyWhen(history, k, states);
    RunKeepsValues(history, k, states);
    if b in states[|history|] {
      NewestIsLast(history, states[|history|][b]);
    }
  }

  /**
    The same in terms of the additions alone: a block is found exactly when it was added and fewer than k larger ones
    were, and then with a signature behind which none was added for it.
   */
  lemma FoundExactly(history: seq<BlockSignature>, k: nat, states: seq<Signatures>, b: int)
    requires Run(history, k, states)
    requires (forall s | s in history :: s.blockNumber >= 0) || |set s | s in history :: s.blockNumber| <= k
    ensures b in states[|history|] <==>
      && (exists s :: s in history && s.blockNumber == b)
      && |set s | s in history && s.blockNumber > b :: s.blockNumber| < k
    ensures b in states[|history|] ==>
      exists i | 0 <= i < |history| ::
        && history[i] == states[|history|][b] && history[i].blockNumber == b
        && forall j | i < j < |history| :: history[j].blockNumber != b
  {
    CacheIsTopKExactlyWhen(history, k, states);
    RunKeepsValues(history, k, states);
    assert Above(Blocks(history), b) == set s | s in history && s.blockNumber > b :: s.blockNumber;
    if b in states[|history|] {
      var sig := states[|history|][b];
      assert NewestFor(history, sig);
    }
  }
}
