/** The default collection configuration lists every collection once, so its runs conserve documents. */
module DefaultCollections {
  import opened Basics
  import opened DocIdCodec
  import opened EventQueueModel
  import opened PruneRuns

  const DEFAULT_COLLECTIONS: CollectionConfig := CollectionConfig(
    "Ethereum__Mainnet__Block",
    ["Ethereum__Mainnet__BatchSignature", "Ethereum__Mainnet__AccessListEntry", "Ethereum__Mainnet__Log",
     "Ethereum__Mainnet__Transaction", "Ethereum__Mainnet__BlockSignature", "Ethereum__Mainnet__AttestationRecord"])

  lemma {:induction false} DistinctCountsOnce(columns: seq<string>, c: string)
    requires forall i, j | 0 <= i < j < |columns| :: columns[i] != columns[j]
    ensures Count(c, columns) == if c in columns then 1 else 0
  {
    if columns != [] {
      DistinctCountsOnce(columns[1..], c);
      assert columns == [columns[0]] + columns[1..];
    }
  }

  lemma DefaultColumnsDiffer(maxDocs: int, i: nat, j: nat)
    requires i < j < |Config(DEFAULT_COLLECTIONS, KNOWN_COLLECTIONS, maxDocs).Columns()|
    ensures
      var columns := Config(DEFAULT_COLLECTIONS, KNOWN_COLLECTIONS, maxDocs).Columns();
      columns[i] != columns[j]
  {
    var columns := Config(DEFAULT_COLLECTIONS, KNOWN_COLLECTIONS, maxDocs).Columns();
    assert |columns[0]| == 33 && |columns[1]| == 34 && |columns[2]| == 22 && |columns[3]| == 30;
    assert |columns[4]| == 33 && |columns[5]| == 36 && |columns[6]| == 24;
    assert columns[0][20] == 'a' && columns[4][20] == 'l';
  }

  /** With the default configuration no run loses, duplicates or reorders a document. */
  lemma DefaultRunsConserve(maxDocs: int, actions: seq<Action>)
    ensures
      var cfg := Config(DEFAULT_COLLECTIONS, KNOWN_COLLECTIONS, maxDocs);
      Conserved(cfg, Exec(cfg, INIT, actions))
  {
    hide Conserved, Exec, RegistryOf;
    var cfg := Config(DEFAULT_COLLECTIONS, KNOWN_COLLECTIONS, maxDocs);
    KnownCollectionsProper();
    RegistryConsistent(cfg.collections, cfg.known);
    forall c | c in cfg.Registered().enums ensures Count(c, cfg.Columns()) == 1 {
      forall i: nat, j: nat | i < j < |cfg.Columns()| ensures cfg.Columns()[i] != cfg.Columns()[j] {
        DefaultColumnsDiffer(maxDocs, i, j);
      }
      DistinctCountsOnce(cfg.Columns(), c);
    }
    RunsConserve(cfg, actions);
  }
}
