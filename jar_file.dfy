/**
 * The archive's file lists (src/logic/JarFile.ts): every entry path in key order, and the outer class
 * files among them.
 */
module JarFile {
  import opened Wrappers
  import opened Strings
  import opened Archive

  /** `Object.keys(jar.files)`. */
  function FileList(jar: Jar): (r: seq<string>)
    ensures jar.Valid() ==> forall p :: p in r <==> p in jar.data
  {
    jar.paths
  }

  /** A class file that is not a nested class: ends with `.class` and holds no '$'. */
  predicate IsOuterClassFile(file: string) {
    EndsWith(file, ".class") && '$' !in file
  }

  /** `files.filter(...)`: the outer class files, in their original order. */
  function ClassesList(files: seq<string>): seq<string>
  {
    Filter(files, IsOuterClassFile)
  }

  /**
   * Every listed file ends with `.class` and holds no '$', every such file is listed, and the list keeps
   * the files' relative order.
   */
  lemma ClassesListContents(files: seq<string>, more: seq<string>)
    ensures forall f :: f in ClassesList(files) <==> f in files && EndsWith(f, ".class") && '$' !in f
    ensures ClassesList(files + more) == ClassesList(files) + ClassesList(more)
    ensures |ClassesList(files)| <= |files|
  {
    FilterConcat(files, more, IsOuterClassFile);
  }
}
