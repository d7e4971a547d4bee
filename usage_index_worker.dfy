/**
 * One usage-indexing job (src/workers/UsageIndexWorker.ts): the indexer reports usages through three
 * callbacks, every report is collected into a `Map<string, Set<string>>` batch, and the whole batch is
 * written to the version's store once the indexer returns. The indexer itself is not part of this model:
 * the reports it makes for one class file are the input, in the order it makes them.
 */
module UsageIndexWorker {
  import opened UsageMaps
  import opened UsageIndexDb

  /** One callback made by the indexer: the subject used and the usage string describing the user. */
  datatype UsageEvent =
    | ClassUsage(clazz: string, usage: string)
    | MethodUsage(member: string, usage: string)
    | FieldUsage(field: string, usage: string)
  {
    /** The key the usage is filed under: the class, method or field used. */
    function Subject(): string {
      match this
      case ClassUsage(clazz, _) => clazz
      case MethodUsage(member, _) => member
      case FieldUsage(field, _) => field
    }
  }

  /** The batch after every report of `events`, in order, starting from an empty map. */
  function Collected(events: seq<UsageEvent>): (r: Usages)
    ensures forall k :: k in r ==> r[k] != {}
  {
    if events == [] then map[]
    else
      var last := events[|events| - 1];
      Added(Collected(events[..|events| - 1]), last.Subject(), last.usage)
  }

  /** The distinct (subject, usage) pairs reported. */
  ghost function Reported(events: seq<UsageEvent>): set<(string, string)> {
    set i | 0 <= i < |events| :: (events[i].Subject(), events[i].usage)
  }

  /** A key holds a value exactly when some report filed that usage under that subject. */
  lemma {:induction false} CollectedContents(events: seq<UsageEvent>, k: string, v: string)
    ensures v in UsagesOf(Collected(events), k) <==>
              exists i :: 0 <= i < |events| && events[i].Subject() == k && events[i].usage == v
  {
    if events != [] {
      var init := events[..|events| - 1];
      CollectedContents(init, k, v);
      if exists i :: 0 <= i < |events| && events[i].Subject() == k && events[i].usage == v {
        var i :| 0 <= i < |events| && events[i].Subject() == k && events[i].usage == v;
        if i < |init| {
          assert init[i] == events[i];
        }
      }
    }
  }

  /**
   * A key is present exactly when at least one usage was reported for it; no subject is filtered out,
   * whatever its package.
   */
  lemma {:induction false} CollectedKeys(events: seq<UsageEvent>, k: string)
    ensures k in Collected(events) <==> exists i :: 0 <= i < |events| && events[i].Subject() == k
  {
    if events != [] {
      var init := events[..|events| - 1];
      CollectedKeys(init, k);
      if exists i :: 0 <= i < |events| && events[i].Subject() == k {
        var i :| 0 <= i < |events| && events[i].Subject() == k;
        if i < |init| {
          assert init[i] == events[i];
        }
      }
    }
  }

  /** The batch holds exactly the reported pairs. */
  lemma CollectedPairs(events: seq<UsageEvent>)
    ensures Pairs(Collected(events)) == Reported(events)
  {
    var r := Collected(events);
    forall pair | pair in Pairs(r)
      ensures pair in Reported(events)
    {
      var (k, v) := pair;
      CollectedContents(events, k, v);
    }
    forall pair | pair in Reported(events)
      ensures pair in Pairs(r)
    {
      var (k, v) := pair;
      CollectedContents(events, k, v);
      assert k in r && v in r[k];
    }
  }

  /** Only which reports were made matters: their order and their repetitions do not change the batch. */
  lemma CollectedSameReports(a: seq<UsageEvent>, b: seq<UsageEvent>)
    requires forall e :: e in a <==> e in b
    ensures Collected(a) == Collected(b)
  {
    var ra, rb := Collected(a), Collected(b);
    forall k
      ensures k in ra <==> k in rb
    {
      CollectedKeys(a, k);
      CollectedKeys(b, k);
      if exists i :: 0 <= i < |a| && a[i].Subject() == k {
        var i :| 0 <= i < |a| && a[i].Subject() == k;
        assert a[i] in b;
      }
      if exists i :: 0 <= i < |b| && b[i].Subject() == k {
        var i :| 0 <= i < |b| && b[i].Subject() == k;
        assert b[i] in a;
      }
    }
    forall k | k in ra
      ensures ra[k] == rb[k]
    {
      forall v
        ensures v in ra[k] <==> v in rb[k]
      {
        CollectedContents(a, k, v);
        CollectedContents(b, k, v);
        if exists i :: 0 <= i < |a| && a[i].Subject() == k && a[i].usage == v {
          var i :| 0 <= i < |a| && a[i].Subject() == k && a[i].usage == v;
          assert a[i] in b;
        }
        if exists i :: 0 <= i < |b| && b[i].Subject() == k && b[i].usage == v {
          var i :| 0 <= i < |b| && b[i].Subject() == k && b[i].usage == v;
          assert b[i] in a;
        }
      }
    }
  }

  /** The `usageMap` of one job and the `addUsage` closure and `Context` callbacks that fill it. */
  class UsageBatch {
    var usageMap: Usages

    constructor()
      ensures usageMap == map[]
    {
      usageMap := map[];
    }

    /** `addUsage(key, value)`: create the key's set if it has none, then add the value. */
    method AddUsage(key: string, value: string)
      modifies this
      ensures usageMap == Added(old(usageMap), key, value)
    {
      if key !in usageMap {
        usageMap := usageMap[key := {}];
      }
      usageMap := usageMap[key := usageMap[key] + {value}];
    }

    method AddClassUsage(clazz: string, usage: string)
      modifies this
      ensures usageMap == Added(old(usageMap), clazz, usage)
    {
      AddUsage(clazz, usage);
    }

    method AddMethodUsage(member: string, usage: string)
      modifies this
      ensures usageMap == Added(old(usageMap), member, usage)
    {
      AddUsage(member, usage);
    }

    method AddFieldUsage(field: string, usage: string)
      modifies this
      ensures usageMap == Added(old(usageMap), field, usage)
    {
      AddUsage(field, usage);
    }
  }

  /**
   * `index(data, version)`: the indexer's reports for the class file go through the callbacks into a
   * fresh batch, then the batch is written in one go. The store gains exactly the reported pairs.
   */
  method Index(events: seq<UsageEvent>, store: UsageStore)
    modifies store
    ensures store.pairs == old(store.pairs) + Reported(events)
  {
    var batch := new UsageBatch();
    for i := 0 to |events|
      invariant batch.usageMap == Collected(events[..i])
      invariant store.pairs == old(store.pairs)
    {
      assert events[..i + 1][..i] == events[..i];
      match events[i]
      case ClassUsage(clazz, usage) => batch.AddClassUsage(clazz, usage);
      case MethodUsage(member, usage) => batch.AddMethodUsage(member, usage);
      case FieldUsage(field, usage) => batch.AddFieldUsage(field, usage);
    }
    assert events[..|events|] == events;
    CollectedPairs(events);
    store.BatchWrite(batch.usageMap);
  }
}
