/**
 * The version- and tab-aware result cache (src/logic/DecompilationCache.ts): a `Map` keyed by
 * `version:className` that, before every insertion, evicts entries while it holds 75 or more. The victim
 * of each round is the first closed entry of another version, else the first closed entry, else the oldest
 * entry. Which keys are open and which version is selected are read from other subjects; here they are
 * parameters.
 */
module DecompilationCache {
  import opened Wrappers
  import opened Strings
  import opened InsertionOrder
  import Decompiler

  const CACHE_LIMIT: nat := 75

  /** The key `${version}:${className}`. */
  function Key(version: string, className: string): (r: string)
    ensures |r| == |version| + 1 + |className| && r[|version|] == ':'
  {
    version + ":" + className
  }

  /** `key.substring(0, key.indexOf(":"))`: with no ':' in the key this is `substring(0, -1)`, i.e. "". */
  function KeyVersion(key: string): (r: string)
    ensures ':' !in r
    ensures ':' !in key ==> r == ""
    ensures ':' in key ==> |r| < |key| && key[..|r|] == r && key[|r|] == ':'
  {
    IndexOfCharFound(key, ':');
    var i := IndexOfChar(key, ':');
    if i < 0 then "" else key[..i]
  }

  /** The version of a key is the version it was built from, for versions without ':'. */
  lemma KeyVersionOfKey(version: string, className: string)
    requires ':' !in version
    ensures KeyVersion(Key(version, className)) == version
  {
    IndexOfCharAfter(version, ':', className);
  }

  /** A closed key of a version other than the selected one: the preferred victim. */
  predicate Stale(key: string, open: set<string>, selected: string) {
    key !in open && KeyVersion(key) != selected
  }

  /** The position of the first stale key. */
  function FirstStale(keys: seq<string>, open: set<string>, selected: string): (r: Option<nat>)
    ensures r.Some? ==> r.value < |keys| && Stale(keys[r.value], open, selected)
                        && forall j :: 0 <= j < r.value ==> !Stale(keys[j], open, selected)
    ensures r.None? ==> forall j :: 0 <= j < |keys| ==> !Stale(keys[j], open, selected)
  {
    if keys == [] then None
    else if Stale(keys[0], open, selected) then Some(0)
    else
      match FirstStale(keys[1..], open, selected)
      case None => None
      case Some(i) => Some(i + 1)
  }

  /** The position of the first key that is not open. */
  function FirstClosed(keys: seq<string>, open: set<string>): (r: Option<nat>)
    ensures r.Some? ==> r.value < |keys| && keys[r.value] !in open
                        && forall j :: 0 <= j < r.value ==> keys[j] in open
    ensures r.None? ==> forall j :: 0 <= j < |keys| ==> keys[j] in open
  {
    if keys == [] then None
    else if keys[0] !in open then Some(0)
    else
      match FirstClosed(keys[1..], open)
      case None => None
      case Some(i) => Some(i + 1)
  }

  /** `firstNotOpenAndNotVersion ?? firstNotOpen ?? first`, as a position in the key order. */
  function VictimIndex(keys: seq<string>, open: set<string>, selected: string): (r: nat)
    requires keys != []
    ensures r < |keys|
  {
    match FirstStale(keys, open, selected)
    case Some(i) => i
    case None =>
      match FirstClosed(keys, open)
      case Some(i) => i
      case None => 0
  }

  /**
   * The eviction precedence: the victim is the first stale key if there is one; otherwise the first closed
   * key if there is one; otherwise the oldest key.
   */
  lemma VictimPrecedence(keys: seq<string>, open: set<string>, selected: string)
    requires keys != []
    ensures var v := VictimIndex(keys, open, selected);
            ((exists j :: 0 <= j < |keys| && Stale(keys[j], open, selected)) ==>
               Stale(keys[v], open, selected) && forall j :: 0 <= j < v ==> !Stale(keys[j], open, selected))
            && ((forall j :: 0 <= j < |keys| ==> !Stale(keys[j], open, selected))
                && (exists j :: 0 <= j < |keys| && keys[j] !in open) ==>
                  keys[v] !in open && forall j :: 0 <= j < v ==> keys[j] in open)
            && ((forall j :: 0 <= j < |keys| ==> keys[j] in open) ==> v == 0)
  {
    var v := VictimIndex(keys, open, selected);
    if exists j :: 0 <= j < |keys| && Stale(keys[j], open, selected) {
      assert FirstStale(keys, open, selected).Some?;
    } else if exists j :: 0 <= j < |keys| && keys[j] !in open {
      assert FirstClosed(keys, open).Some?;
    }
  }

  /** The key order after `limitCacheSize`: victims are dropped one at a time until fewer than 75 remain. */
  function Evicted(keys: seq<string>, open: set<string>, selected: string): (r: seq<string>)
    ensures |r| < CACHE_LIMIT || r == keys
    ensures |keys| < CACHE_LIMIT ==> r == keys
    ensures forall k :: k in r ==> k in keys
    ensures Distinct(keys) ==> Distinct(r)
    decreases |keys|
  {
    if |keys| < CACHE_LIMIT then keys
    else Evicted(Without(keys, keys[VictimIndex(keys, open, selected)]), open, selected)
  }

  /** Each eviction round drops exactly the victim and keeps every other key, in order. */
  lemma EvictionRound(keys: seq<string>, open: set<string>, selected: string)
    requires Distinct(keys) && |keys| >= CACHE_LIMIT
    ensures var victim := keys[VictimIndex(keys, open, selected)];
            var rest := Without(keys, victim);
            |rest| == |keys| - 1 && (forall k :: k in rest <==> k in keys && k != victim)
            && Evicted(keys, open, selected) == Evicted(rest, open, selected)
  {
  }

  /** Starting from any order, eviction leaves fewer than 75 keys. */
  lemma {:induction false} EvictedBelowLimit(keys: seq<string>, open: set<string>, selected: string)
    ensures |Evicted(keys, open, selected)| < CACHE_LIMIT
    decreases |keys|
  {
    if |keys| >= CACHE_LIMIT {
      var victim := keys[VictimIndex(keys, open, selected)];
      EvictedBelowLimit(Without(keys, victim), open, selected);
    }
  }

  /**
   * The `for (const key of cache.keys())` scan of one eviction round: it tracks the first key, the first
   * closed key and the first stale key, and stops at the first stale key.
   */
  method ScanForVictim(keys: seq<string>, open: set<string>, selected: string)
    returns (toDelete: Option<string>, ghost visited: nat)
    requires "" !in keys
    ensures keys == [] ==> toDelete.None?
    ensures keys != [] ==> toDelete == Some(keys[VictimIndex(keys, open, selected)])
    ensures visited == match FirstStale(keys, open, selected) case Some(i) => i + 1 case None => |keys|
  {
    var firstNotOpenAndNotVersion: Option<string> := None;
    var firstNotOpen: Option<string> := None;
    var first: Option<string> := None;
    ghost var closedAt: nat := 0;
    var i := 0;
    while i < |keys|
      invariant 0 <= i <= |keys|
      invariant first == (if i == 0 then None else Some(keys[0]))
      invariant firstNotOpenAndNotVersion.None?
      invariant forall j :: 0 <= j < i ==> !Stale(keys[j], open, selected)
      invariant firstNotOpen.None? ==> forall j :: 0 <= j < i ==> keys[j] in open
      invariant firstNotOpen.Some? ==> closedAt < i && keys[closedAt] == firstNotOpen.value
                                       && keys[closedAt] !in open
                                       && forall j :: 0 <= j < closedAt ==> keys[j] in open
    {
      var key := keys[i];
      if first.None? {
        first := Some(key);
      }
      var isOpen := key in open;
      var keyVersion := KeyVersion(key);
      var isCurrentVersion := selected == keyVersion;
      if !isOpen {
        if firstNotOpen.None? {
          firstNotOpen := Some(key);
          closedAt := i;
        }
        if !isCurrentVersion && firstNotOpenAndNotVersion.None? {
          firstNotOpenAndNotVersion := Some(key);
        }
      }
      if firstNotOpenAndNotVersion.Some? {
        assert FirstStale(keys, open, selected) == Some(i) by {
          StaleAt(keys, open, selected, i);
        }
        toDelete := firstNotOpenAndNotVersion;
        visited := i + 1;
        return;
      }
      i := i + 1;
    }
    visited := i;
    if firstNotOpen.Some? {
      ClosedAt(keys, open, closedAt);
      toDelete := firstNotOpen;
    } else {
      toDelete := first;
    }
  }

  /** A stale key with no stale key before it is the one `FirstStale` finds. */
  lemma StaleAt(keys: seq<string>, open: set<string>, selected: string, i: nat)
    requires i < |keys| && Stale(keys[i], open, selected)
    requires forall j :: 0 <= j < i ==> !Stale(keys[j], open, selected)
    ensures FirstStale(keys, open, selected) == Some(i)
  {
    var r := FirstStale(keys, open, selected);
    assert r.Some?;
    assert !(r.value < i) && !(i < r.value);
  }

  /** A closed key with only open keys before it is the one `FirstClosed` finds. */
  lemma ClosedAt(keys: seq<string>, open: set<string>, i: nat)
    requires i < |keys| && keys[i] !in open
    requires forall j :: 0 <= j < i ==> keys[j] in open
    ensures FirstClosed(keys, open) == Some(i)
  {
    var r := FirstClosed(keys, open);
    assert r.Some?;
    assert !(r.value < i) && !(i < r.value);
  }

  /** The module-level `cache`: its key order and its entries. */
  class Cache {
    var order: seq<string>
    var entries: map<string, Decompiler.DecompileResult>

    ghost predicate Valid()
      reads this
    {
      Distinct(order) && (forall k :: k in entries <==> k in order) && "" !in order
      && |order| <= CACHE_LIMIT
    }

    constructor()
      ensures Valid() && order == [] && entries == map[]
    {
      order := [];
      entries := map[];
    }

    /** `get(version, className)`: a lookup that changes nothing. */
    function Get(version: string, className: string): (r: Option<Decompiler.DecompileResult>)
      reads this
      ensures r.Some? <==> Key(version, className) in entries
      ensures r.Some? ==> r.value == entries[Key(version, className)]
    {
      var key := Key(version, className);
      if key in entries then Some(entries[key]) else None
    }

    /** `limitCacheSize()`: evict while the cache holds 75 or more entries. */
    method LimitCacheSize(open: set<string>, selected: string)
      requires Valid()
      modifies this
      ensures Valid()
      ensures order == Evicted(old(order), open, selected) && |order| < CACHE_LIMIT
      ensures forall k :: k in entries ==> k in old(entries) && entries[k] == old(entries)[k]
    {
      EvictedBelowLimit(order, open, selected);
      while |order| >= CACHE_LIMIT
        invariant Valid()
        invariant Evicted(order, open, selected) == Evicted(old(order), open, selected)
        invariant forall k :: k in entries ==> k in old(entries) && entries[k] == old(entries)[k]
        decreases |order|
      {
        var toDelete, _ := ScanForVictim(order, open, selected);
        if toDelete.Some? {
          EvictionRound(order, open, selected);
          order := Without(order, toDelete.value);
          entries := entries - {toDelete.value};
        }
      }
    }

    /** `put(version, className, contents)`: make room, then set the key (an existing key keeps its place). */
    method Put(version: string, className: string, contents: Decompiler.DecompileResult, open: set<string>, selected: string)
      requires Valid()
      modifies this
      ensures Valid()
      ensures Get(version, className) == Some(contents)
      ensures order == SetKey(Evicted(old(order), open, selected), Key(version, className))
      ensures forall k :: k in entries && k != Key(version, className) ==>
                k in old(entries) && entries[k] == old(entries)[k]
    {
      LimitCacheSize(open, selected);
      var key := Key(version, className);
      order := SetKey(order, key);
      entries := entries[key := contents];
    }
  }
}
