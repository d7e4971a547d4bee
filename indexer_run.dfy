/**
 * The decompile-everything indexer (src/logic/Indexer.ts): one run at a time, over the outer classes of
 * an archive, publishing which class is being decompiled out of how many. The decompiled text is thrown
 * away; a decompilation can only matter by failing, so the error it throws for a class, if any, is the
 * input.
 */
module IndexerRun {
  import opened Wrappers
  import opened Archive
  import opened JarFile

  const ALREADY_RUNNING := "Indexing is already in progress"

  /** `IndexProgress`: the 1-based position of the class being decompiled, the count, and its name. */
  datatype IndexProgress = IndexProgress(current: int, total: int, name: string)

  const DEFAULT_PROGRESS := IndexProgress(0, -1, "")

  /** `isIndexing`: a run under way has a total of 0 or more. */
  predicate IsIndexing(progress: IndexProgress) {
    progress.total >= 0
  }

  /** The values published while the first `k` of `classes` are visited. */
  function Visits(classes: seq<string>, k: nat): (r: seq<IndexProgress>)
    requires k <= |classes|
    ensures |r| == k
    ensures forall i :: 0 <= i < k ==> r[i] == IndexProgress(i + 1, |classes|, classes[i])
  {
    if k == 0 then [] else Visits(classes, k - 1) + [IndexProgress(k, |classes|, classes[k - 1])]
  }

  /** The whole sequence a run publishes when it reaches `k` classes: the start, each visit, the reset. */
  function Published(classes: seq<string>, k: nat): (r: seq<IndexProgress>)
    requires k <= |classes|
  {
    [IndexProgress(0, |classes|, "")] + Visits(classes, k) + [DEFAULT_PROGRESS]
  }

  /**
   * A run shows as indexing from its start to its last visit, never counts past its total, and shows as
   * idle once reset.
   */
  lemma PublishedShape(classes: seq<string>, k: nat)
    requires k <= |classes|
    ensures var r := Published(classes, k);
            && |r| == k + 2
            && (forall i :: 0 <= i < k + 1 ==> IsIndexing(r[i]) && 0 <= r[i].current <= r[i].total)
            && r[k + 1] == DEFAULT_PROGRESS && !IsIndexing(r[k + 1])
  {
    var r := Published(classes, k);
    forall i | 0 <= i < k + 1
      ensures IsIndexing(r[i]) && 0 <= r[i].current <= r[i].total
    {
      if i > 0 {
        assert r[i] == Visits(classes, k)[i - 1];
      }
    }
  }

  class IndexerRunner {
    /** The `isRunning` flag and the current value of the `indexProgress` subject. */
    var isRunning: bool
    var progress: IndexProgress

    constructor()
      ensures !isRunning && progress == DEFAULT_PROGRESS
    {
      isRunning, progress := false, DEFAULT_PROGRESS;
    }

    /**
     * `refreshIndex(jar)`. A call made while a run is active throws and changes nothing. Otherwise every
     * outer class is visited in order until one fails to decompile; either way the flag is cleared and
     * the progress reset, and the first failure is rethrown.
     */
    method RefreshIndex(jar: Jar, errorOf: string -> Option<string>)
      returns (result: Result<(), string>, published: seq<IndexProgress>)
      modifies this
      ensures old(isRunning) ==> result == Err(ALREADY_RUNNING) && published == []
                                 && isRunning && progress == old(progress)
      ensures !old(isRunning) ==> !isRunning && progress == DEFAULT_PROGRESS
      ensures !old(isRunning) ==>
                var classes := ClassesList(jar.paths);
                if result.Ok? then
                  published == Published(classes, |classes|)
                  && forall i :: 0 <= i < |classes| ==> errorOf(classes[i]).None?
                else
                  exists k :: 0 <= k < |classes|
                    && published == Published(classes, k + 1)
                    && errorOf(classes[k]) == Some(result.error)
                    && forall i :: 0 <= i < k ==> errorOf(classes[i]).None?
    {
      if isRunning {
        return Err(ALREADY_RUNNING), [];
      }
      isRunning := true;
      var classes := ClassesList(jar.paths);
      progress := IndexProgress(0, |classes|, "");
      published := [progress];
      result := Ok(());
      for index := 0 to |classes|
        invariant published == [IndexProgress(0, |classes|, "")] + Visits(classes, index)
        invariant progress.total == |classes|
        invariant forall i :: 0 <= i < index ==> errorOf(classes[i]).None?
      {
        progress := IndexProgress(index + 1, progress.total, classes[index]);
        published := published + [progress];
        var error := errorOf(classes[index]);
        if error.Some? {
          result := Err(error.value);
          isRunning := false;
          progress := DEFAULT_PROGRESS;
          published := published + [progress];
          return;
        }
      }
      isRunning := false;
      progress := DEFAULT_PROGRESS;
      published := published + [progress];
    }
  }
}
