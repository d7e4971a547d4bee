/**
 * `indexJar` (src/workers/UsageIndex.ts): rebuild a version's usage store from every class file of the
 * archive. Progress goes to 0, the store is cleared, the class files are popped from a shared stack and
 * handed to an indexing job one by one, each pop publishing the new percentage first, and progress goes
 * to -1 at the end. The reports the indexer makes for a class file are a function of its bytes.
 */
module UsageIndexJar {
  import opened Wrappers
  import opened Strings
  import opened Archive
  import opened TaskQueue
  import opened UsageIndexDb
  import opened UsageIndexWorker

  /** Every pair reported for the class files `names`. */
  ghost function IndexedPairs(jar: Jar, report: seq<byte> -> seq<UsageEvent>, names: seq<string>): set<(string, string)>
    requires forall n :: n in names ==> n in jar.data
  {
    if names == [] then {} else IndexedPairs(jar, report, names[1..]) + Reported(report(jar.data[names[0]]))
  }

  /** A pair is stored after indexing `names` exactly when the indexer reported it for one of them. */
  lemma {:induction false} IndexedPairsContents(jar: Jar, report: seq<byte> -> seq<UsageEvent>, names: seq<string>,
                                                pair: (string, string))
    requires forall n :: n in names ==> n in jar.data
    ensures pair in IndexedPairs(jar, report, names) <==>
              exists j :: 0 <= j < |names| && pair in Reported(report(jar.data[names[j]]))
  {
    if names != [] {
      IndexedPairsContents(jar, report, names[1..], pair);
      if exists j :: 0 <= j < |names| && pair in Reported(report(jar.data[names[j]])) {
        var j :| 0 <= j < |names| && pair in Reported(report(jar.data[names[j]]));
        if j > 0 {
          assert names[1..][j - 1] == names[j];
        }
      }
    }
  }

  /** Popping the item at position `q - 1` puts it after the items popped so far. */
  lemma PopStep(jar: Jar, report: seq<byte> -> seq<UsageEvent>, classNames: seq<string>, q: nat)
    requires 0 < q <= |classNames| && forall n :: n in classNames ==> n in jar.data
    ensures Reversed(classNames[q - 1..]) == Reversed(classNames[q..]) + [classNames[q - 1]]
    ensures IndexedPairs(jar, report, classNames[q - 1..])
            == IndexedPairs(jar, report, classNames[q..]) + Reported(report(jar.data[classNames[q - 1]]))
  {
    assert classNames[q - 1..][1..] == classNames[q..];
  }

  /**
   * Index the archive into `store`, the store of `jar.version`. `openError` is the error the store's
   * `open` or `clear` rejects with, if any: the run then stops after publishing 0 and rethrows it.
   * `progress` is every value published, in order; `indexed` is the class files in the order they were
   * handed to the indexer.
   */
  method IndexJar(jar: Jar, report: seq<byte> -> seq<UsageEvent>, store: UsageStore, openError: Option<string>)
    returns (result: Result<(), string>, progress: seq<int>, ghost indexed: seq<string>)
    requires jar.Valid()
    modifies store
    ensures openError.Some? ==> result == Err(openError.value) && progress == [0] && indexed == []
                                && store.pairs == old(store.pairs)
    ensures openError.None? ==>
              var classNames := ClassFileNames(jar);
              && result == Ok(())
              && progress == [0] + DrainProgress(|classNames|, |classNames|) + [-1]
              && indexed == Reversed(classNames)
              && store.pairs == IndexedPairs(jar, report, classNames)
  {
    progress := [0];
    if openError.Some? {
      return Err(openError.value), progress, [];
    }
    store.Clear();
    var classNames := ClassFileNames(jar);
    forall i | 0 <= i < |classNames|
      ensures classNames[i] in jar.data && classNames[i] != ""
    {
      assert classNames[i] in classNames;
    }
    var published;
    published, indexed := DrainQueue(jar, report, store, classNames);
    progress := progress + published + [-1];
    result := Ok(());
  }

  /**
   * The worker loops: pop the shared stack until it gives nothing, publishing the new percentage and
   * then indexing each class file popped.
   */
  method DrainQueue(jar: Jar, report: seq<byte> -> seq<UsageEvent>, store: UsageStore, classNames: seq<string>)
    returns (published: seq<int>, ghost indexed: seq<string>)
    requires forall i :: 0 <= i < |classNames| ==> classNames[i] in jar.data && classNames[i] != ""
    requires store.pairs == {}
    modifies store
    ensures published == DrainProgress(|classNames|, |classNames|)
    ensures indexed == Reversed(classNames)
    ensures store.pairs == IndexedPairs(jar, report, classNames)
  {
    assert forall n :: n in classNames ==> n in jar.data;
    var taskQueue := classNames;
    var completed := 0;
    published, indexed := [], [];
    while true
      invariant |taskQueue| <= |classNames| && taskQueue == classNames[..|taskQueue|]
      invariant completed == |classNames| - |taskQueue|
      invariant published == DrainProgress(completed, |classNames|)
      invariant indexed == Reversed(classNames[|taskQueue|..])
      invariant store.pairs == IndexedPairs(jar, report, classNames[|taskQueue|..])
      decreases |taskQueue|
    {
      ghost var q := |taskQueue|;
      var nextTask;
      nextTask, taskQueue := Pop(taskQueue);
      // `!nextTask`: `pop` on an empty stack gives `undefined`; "" is falsy too, but ends no `.class` name.
      if nextTask.None? || nextTask.value == "" {
        break;
      }
      var name := nextTask.value;
      assert name == classNames[q - 1];
      PopStep(jar, report, classNames, q);
      completed := completed + 1;
      published := published + [RoundPercent(completed, |classNames|)];
      indexed := indexed + [name];
      Index(report(jar.data[name]), store);
    }
  }
}
