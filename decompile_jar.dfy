/**
 * `decompileJar` (src/workers/Decompile.ts): decompile every outer class of an archive. The work list is
 * the `.class` entries without '$' (nested classes come out with their outer class); the entries are
 * popped from a shared stack, each result is stored under its entry name, and the percentage is published
 * after each completion. What a worker's decompiler returns for an entry is a function of its name.
 */
module DecompileJar {
  import opened Wrappers
  import opened Strings
  import opened Archive
  import opened JarFile
  import opened TaskQueue
  import opened Decompiler

  /**
   * `results` maps exactly the work list's entries to their decompilations; `progress` is every value
   * published, in order; `decompiled` is the entries in the order they were handed to the workers.
   */
  method DecompileAll(jar: Jar, decompile: string -> DecompileResult)
    returns (results: map<string, DecompileResult>, progress: seq<int>, ghost decompiled: seq<string>)
    ensures var classNames := ClassesList(jar.paths);
            && (forall n :: n in results <==> n in classNames)
            && (forall n :: n in results ==> results[n] == decompile(n))
            && progress == DrainProgress(|classNames|, |classNames|)
            && decompiled == Reversed(classNames)
  {
    var classNames := ClassesList(jar.paths);
    ClassesListContents(jar.paths, []);
    forall i | 0 <= i < |classNames|
      ensures classNames[i] != ""
    {
      assert classNames[i] in classNames;
    }
    results, progress, decompiled := DrainQueue(classNames, decompile);
  }

  /**
   * The worker loops: pop the shared stack until it gives nothing, store the entry's result, then
   * publish the new percentage.
   */
  method DrainQueue(classNames: seq<string>, decompile: string -> DecompileResult)
    returns (results: map<string, DecompileResult>, progress: seq<int>, ghost decompiled: seq<string>)
    requires forall i :: 0 <= i < |classNames| ==> classNames[i] != ""
    ensures forall n :: n in results <==> n in classNames
    ensures forall n :: n in results ==> results[n] == decompile(n)
    ensures progress == DrainProgress(|classNames|, |classNames|)
    ensures decompiled == Reversed(classNames)
  {
    results := map[];
    progress, decompiled := [], [];
    var taskQueue := classNames;
    var completed := 0;
    while true
      invariant |taskQueue| <= |classNames| && taskQueue == classNames[..|taskQueue|]
      invariant completed == |classNames| - |taskQueue|
      invariant forall n :: n in results <==> n in classNames[|taskQueue|..]
      invariant forall n :: n in results ==> results[n] == decompile(n)
      invariant progress == DrainProgress(completed, |classNames|)
      invariant decompiled == Reversed(classNames[|taskQueue|..])
      decreases |taskQueue|
    {
      ghost var q := |taskQueue|;
      var nextTask;
      nextTask, taskQueue := Pop(taskQueue);
      // `!nextTask`: the stack is empty ("" would end the loop too, but is no `.class` name).
      if nextTask.None? || nextTask.value == "" {
        break;
      }
      var name := nextTask.value;
      assert name == classNames[q - 1];
      assert classNames[q - 1..] == [name] + classNames[q..];
      results := results[name := decompile(name)];
      completed := completed + 1;
      progress := progress + [RoundPercent(completed, |classNames|)];
      decompiled := decompiled + [name];
    }
  }
}
