/**
 * A usage table: each key (a class, method or field) maps to the set of usage strings recorded under it.
 * The Java indexer's `Map<String, Set<String>>` and the worker's `Map<string, Set<string>>` share this
 * shape and the same "create the set on first use, then add" update.
 */
module UsageMaps {

  type Usages = map<string, set<string>>

  /** The values recorded under `key`; none when the key is absent (`getOrDefault(key, Set.of())`). */
  function UsagesOf(usages: Usages, key: string): set<string> {
    if key in usages then usages[key] else {}
  }

  /** The table after `value` is added under `key`, the key's set being created on first use. */
  function Added(usages: Usages, key: string, value: string): (r: Usages)
    ensures r.Keys == usages.Keys + {key}
  {
    usages[key := UsagesOf(usages, key) + {value}]
  }

  /** Every (key, value) pair the table holds. */
  ghost function Pairs(usages: Usages): set<(string, string)> {
    set k, v | k in usages && v in usages[k] :: (k, v)
  }

  /** Adding a value keeps every earlier value and adds exactly the one pair. */
  lemma AddedPairs(usages: Usages, key: string, value: string)
    ensures Pairs(Added(usages, key, value)) == Pairs(usages) + {(key, value)}
  {
    var after := Added(usages, key, value);
    forall pair | pair in Pairs(usages) + {(key, value)}
      ensures pair in Pairs(after)
    {
      var (k, v) := pair;
      assert k in after && v in after[k];
    }
  }
}
