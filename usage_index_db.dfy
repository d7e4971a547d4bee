/**
 * A version's persistent usage store (src/workers/UsageIndexDB.ts). Records are keyed by the pair
 * `[key, value]` itself, so the store is a set of pairs, and a secondary index on `key` answers reads.
 * Opening, closing, upgrades and the IndexedDB transaction machinery are not part of this model.
 */
module UsageIndexDb {
  import opened InsertionOrder
  import opened UsageMaps

  class UsageStore {
    var pairs: set<(string, string)>

    constructor()
      ensures pairs == {}
    {
      pairs := {};
    }

    /** `clear()`: every record of the version is removed. */
    method Clear()
      modifies this
      ensures pairs == {}
    {
      pairs := {};
    }

    /**
     * `batchWrite(entries)`: one `put({key, value})` per value of every key. A pair already stored is
     * written over by an equal record, so the store gains exactly the pairs of the map.
     */
    method BatchWrite(entries: Usages)
      modifies this
      ensures pairs == old(pairs) + Pairs(entries)
    {
      var keys := entries.Keys;
      while keys != {}
        invariant keys <= entries.Keys
        invariant forall k, v :: (k, v) in pairs <==>
                    (k, v) in old(pairs) || (k in entries && k !in keys && v in entries[k])
        decreases |keys|
      {
        var key :| key in keys;
        var values := entries[key];
        while values != {}
          invariant values <= entries[key]
          invariant forall k, v :: (k, v) in pairs <==>
                      (k, v) in old(pairs) || (k in entries && k !in keys && v in entries[k])
                      || (k == key && v in entries[key] && v !in values)
          decreases |values|
        {
          var value :| value in values;
          pairs := pairs + {(key, value)};
          values := values - {value};
        }
        keys := keys - {key};
      }
      forall pair | pair in pairs
        ensures pair in old(pairs) + Pairs(entries)
      {
        var (k, v) := pair;
        if pair !in old(pairs) {
          assert k in entries && v in entries[k];
        }
      }
      forall pair | pair in old(pairs) + Pairs(entries)
        ensures pair in pairs
      {
        var (k, v) := pair;
      }
    }

    /** `read(key)`: every value stored under `key`, each once. */
    method Read(key: string) returns (values: seq<string>)
      ensures Distinct(values)
      ensures forall v :: v in values <==> (key, v) in pairs
    {
      var rest := set pair | pair in pairs && pair.0 == key :: pair.1;
      values := [];
      while rest != {}
        invariant Distinct(values)
        invariant forall v :: v in values ==> v !in rest
        invariant forall v :: (key, v) in pairs <==> v in values || v in rest
        decreases |rest|
      {
        var v :| v in rest;
        values := values + [v];
        rest := rest - {v};
      }
    }
  }
}
