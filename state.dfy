/**
 * The selected file at start-up and what each selection writes back (src/logic/State.ts): the initial file
 * comes from the page path, and every selection rewrites the URL and the document title. The browser's
 * `decodeURIComponent` is a parameter.
 */
module State {
  import opened Strings

  const DEFAULT_FILE: string := "net/minecraft/ChatFormatting.class"

  /** `getInitialFile()` for the page path `pathname`. */
  function InitialFile(pathname: string, decode: string -> string): (r: string)
    ensures EndsWith(r, ".class")
  {
    var fileFromUrl := if StartsWith(pathname, "/") then decode(pathname[1..]) else "";
    if fileFromUrl == "" then DEFAULT_FILE
    else if EndsWith(fileFromUrl, ".class") then fileFromUrl
    else
      assert (fileFromUrl + ".class")[|fileFromUrl|..] == ".class";
      fileFromUrl + ".class"
  }

  /**
   * A path without a leading '/' or with nothing after it opens the default class; otherwise the decoded
   * rest is kept when it already ends with `.class` and gets `.class` appended once when it does not.
   */
  lemma InitialFileCases(pathname: string, decode: string -> string)
    ensures !StartsWith(pathname, "/") ==> InitialFile(pathname, decode) == DEFAULT_FILE
    ensures StartsWith(pathname, "/") ==>
              var f := decode(pathname[1..]);
              (f == "" ==> InitialFile(pathname, decode) == DEFAULT_FILE)
              && (f != "" && EndsWith(f, ".class") ==> InitialFile(pathname, decode) == f)
              && (f != "" && !EndsWith(f, ".class") ==> InitialFile(pathname, decode) == f + ".class")
  {
  }

  /** The URL path written for a selected file: `/${file.replace(".class", "")}`. */
  function Url(file: string): (r: string)
    ensures StartsWith(r, "/")
  {
    "/" + ReplaceFirst(file, ".class", "")
  }

  /** The URL path with the trailing `.class` removed, which is what reloading the page needs. */
  function UrlFixed(file: string): (r: string)
    ensures StartsWith(r, "/")
  {
    "/" + (if EndsWith(file, ".class") then file[..|file| - 6] else file)
  }

  /** `(file.split('/').pop() || file).replace('.class', '')`: the document title. */
  function Title(file: string): string
  {
    var last := AfterLast(file, '/');
    ReplaceFirst(if last == "" then file else last, ".class", "")
  }

  /** Reloading the page at the URL written for a class file selects that class file again. */
  lemma UrlFixedReloads(file: string, decode: string -> string)
    requires EndsWith(file, ".class") && |file| > 6 && !EndsWith(file[..|file| - 6], ".class")
    requires decode(file[..|file| - 6]) == file[..|file| - 6]
    ensures InitialFile(UrlFixed(file), decode) == file
  {
    var stem := file[..|file| - 6];
    assert UrlFixed(file)[1..] == stem;
    assert stem + ".class" == file;
  }

  /** When `.class` occurs in a class file's path only at its end, the URL as written is the corrected one. */
  lemma UrlAgreesWithoutInnerClassText(file: string)
    requires EndsWith(file, ".class") && IndexOf(file, ".class") == |file| - 6
    ensures Url(file) == UrlFixed(file)
  {
    assert file[|file| - 6..] + "" == file[|file| - 6..];
  }

  /** The first occurrence of `.class` in `pre.class` followed by anything is the one after `pre`. */
  lemma FirstClassText(pre: string, rest: string)
    requires IndexOf(pre + ".class", ".class") == |pre|
    ensures IndexOf(pre + ".class" + rest, ".class") == |pre|
  {
    var head := pre + ".class";
    var file := head + rest;
    assert file[..|head|] == head;
    forall j | 0 <= j <= |pre|
      ensures OccursAt(file, ".class", j) <==> OccursAt(head, ".class", j)
    {
      assert file[j..j + 6] == head[j..j + 6];
    }
    var r := IndexOf(file, ".class");
    assert OccursAt(file, ".class", |pre|);
    assert r <= |pre|;
  }

  /**
   * A package whose name holds `.class` breaks the round trip: the URL written for
   * `pre.class` + `mid.class` (for example `a.classes/B.class`) drops the first `.class`, and reloading
   * it selects a different, shorter file.
   */
  lemma UrlLosesInnerClassText(pre: string, mid: string)
    requires IndexOf(pre + ".class", ".class") == |pre|
    ensures var file := pre + ".class" + mid + ".class";
            Url(file) == "/" + pre + mid + ".class"
            && InitialFile(Url(file), s => s) == pre + mid + ".class"
            && InitialFile(Url(file), s => s) != file
  {
    var file := pre + ".class" + mid + ".class";
    FirstClassText(pre, mid + ".class");
    assert file == pre + ".class" + (mid + ".class");
    var kept := pre + mid + ".class";
    assert file[..|pre|] + "" + file[|pre| + 6..] == kept;
    assert Url(file)[1..] == kept;
    assert EndsWith(kept, ".class");
  }

  /** The text after the last '/' of `dir/tail` is `tail` when `tail` holds no '/'. */
  lemma AfterLastSlash(dir: string, tail: string)
    requires '/' !in tail
    ensures AfterLast(dir + "/" + tail, '/') == tail
  {
    var file := dir + "/" + tail;
    assert forall k :: |dir| < k < |file| ==> file[k] == tail[k - |dir| - 1];
    assert file[|dir|] == '/';
    assert LastIndexOfChar(file, '/') == |dir|;
    assert file[|dir| + 1..] == tail;
  }

  /** The title of `dir/Name.class` is `Name` when `.class` occurs in the file name only at its end. */
  lemma TitleOfClassFile(dir: string, name: string)
    requires '/' !in name && IndexOf(name + ".class", ".class") == |name|
    ensures Title(dir + "/" + name + ".class") == name
  {
    var tail := name + ".class";
    assert dir + "/" + name + ".class" == dir + "/" + tail;
    AfterLastSlash(dir, tail);
    assert tail[..|name|] == name;
    assert tail[|name| + 6..] == "";
  }
}
