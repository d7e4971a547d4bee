/**
 * The usage-index entry point (src/logic/UsageIndex.ts): one run at a time, guarded by a flag that is
 * reset however the run ends, and an `isIndexing` view of the published progress.
 */
module UsageIndexRun {
  import opened Wrappers
  import opened Archive
  import opened TaskQueue
  import opened UsageIndexDb
  import opened UsageIndexWorker
  import opened UsageIndexJar

  const ALREADY_RUNNING := "Indexing is already in progress"

  /** `isIndexing`: a progress value of 0 or more is a percentage of a run under way. */
  predicate IsIndexing(progress: int) {
    progress >= 0
  }

  class UsageIndexRunner {
    /** The `isRunning` flag and the current value of the `indexProgress` subject. */
    var isRunning: bool
    var progress: int

    constructor()
      ensures !isRunning && progress == -1 && !IsIndexing(progress)
    {
      isRunning, progress := false, -1;
    }

    /**
     * `refreshIndex(minecraftJar)`. A call made while a run is active throws and changes nothing. Otherwise
     * the run publishes `published`, and the flag is cleared whether it completes or rethrows the store's
     * error; after an error the progress stays at 0.
     */
    method RefreshIndex(jar: Jar, report: seq<byte> -> seq<UsageEvent>, store: UsageStore, openError: Option<string>)
      returns (result: Result<(), string>, published: seq<int>)
      requires jar.Valid()
      modifies this, store
      ensures old(isRunning) ==> result == Err(ALREADY_RUNNING) && published == []
                                 && isRunning && progress == old(progress) && store.pairs == old(store.pairs)
      ensures !old(isRunning) ==> !isRunning && published != [] && progress == published[|published| - 1]
      ensures !old(isRunning) && openError.Some? ==> result == Err(openError.value) && published == [0]
      ensures !old(isRunning) && openError.None? ==>
                var classNames := ClassFileNames(jar);
                && result == Ok(())
                && published == [0] + DrainProgress(|classNames|, |classNames|) + [-1]
                && store.pairs == IndexedPairs(jar, report, classNames)
    {
      if isRunning {
        return Err(ALREADY_RUNNING), [];
      }
      isRunning := true;
      ghost var indexed;
      result, published, indexed := IndexJar(jar, report, store, openError);
      progress := published[|published| - 1];
      isRunning := false;
    }
  }

  /**
   * A completed run shows as indexing from its first value to its last percentage and as idle at its end.
   */
  lemma CompletedRunIndexing(n: nat)
    ensures var published := [0] + DrainProgress(n, n) + [-1];
            && (forall i :: 0 <= i < |published| - 1 ==> IsIndexing(published[i]))
            && !IsIndexing(published[|published| - 1])
  {
    DrainProgressShape(n, n);
    var published := [0] + DrainProgress(n, n) + [-1];
    forall i | 0 <= i < |published| - 1
      ensures IsIndexing(published[i])
    {
      if i > 0 {
        assert published[i] == DrainProgress(n, n)[i - 1];
      }
    }
  }
}
