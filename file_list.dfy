/**
 * The class-file tree of src/ui/FileList.tsx: the jar's class paths, sorted, are split on '/' and walked
 * into a tree one level per segment. Each node carries the title shown (the segment with `.class`
 * removed) and its key (the path up to and including that segment).
 */
module FileList {
  import opened Strings
  import opened Sorting
  import Decompiler

  datatype Node = Node(title: string, key: string, children: seq<Node>)

  /** How the walk recognises the node for a segment among the nodes of the current level. */
  datatype Matching =
    | ByTitle  // as written: a node whose title equals the raw segment
    | ByKey    // a node whose key is the path up to this segment

  /** The path up to and including `parts[index]`. */
  function PathKey(parts: seq<string>, index: nat): string
    requires index < |parts|
  {
    Join(parts[..index + 1], "/")
  }

  predicate Reuses(m: Matching, n: Node, parts: seq<string>, index: nat)
    requires index < |parts|
  {
    match m
    case ByTitle => n.title == parts[index]
    case ByKey => n.key == PathKey(parts, index)
  }

  /** `level.findIndex(p)`: the first node satisfying `p`, or -1. */
  function Find(level: seq<Node>, p: Node -> bool): (r: int)
    ensures -1 <= r < |level|
    ensures r >= 0 ==> p(level[r]) && forall k :: 0 <= k < r ==> !p(level[k])
    ensures r < 0 ==> forall k :: 0 <= k < |level| ==> !p(level[k])
    decreases |level|
  {
    if level == [] then -1
    else if p(level[0]) then 0
    else
      var r := Find(level[1..], p);
      if r < 0 then -1 else r + 1
  }

  /** The node created for `parts[index]`, still without children. */
  function NewNode(parts: seq<string>, index: nat): Node
    requires index < |parts|
  {
    Node(ReplaceFirst(parts[index], ".class", ""), PathKey(parts, index), [])
  }

  /** The index of the node the walk reuses for `parts[index]`, or -1. */
  function Found(level: seq<Node>, parts: seq<string>, index: nat, m: Matching): int
    requires index < |parts|
  {
    Find(level, n => Reuses(m, n, parts, index))
  }

  /**
   * The walk of one path from `parts[index]` on, starting at `level`: reuse the matching node or append a
   * new one, then descend into its children unless the segment is the last.
   */
  function Walk(level: seq<Node>, parts: seq<string>, index: nat, m: Matching): seq<Node>
    requires index < |parts|
    decreases |parts| - index
  {
    var found := Found(level, parts, index, m);
    var at := if found >= 0 then found else |level|;
    var current := if found >= 0 then level else level + [NewNode(parts, index)];
    if index < |parts| - 1 then
      current[at := current[at].(children := Walk(current[at].children, parts, index + 1, m))]
    else current
  }

  /** Inserting one class path into the tree as the source does, matching segments by title. */
  function InsertAsWritten(root: seq<Node>, path: string): seq<Node> {
    Walk(root, Split(path, '/'), 0, ByTitle)
  }

  /** Inserting one class path into the tree, matching segments by their path. */
  function Insert(root: seq<Node>, path: string): seq<Node> {
    Walk(root, Split(path, '/'), 0, ByKey)
  }

  /** The four shapes of one step of the walk. */
  lemma WalkCases(level: seq<Node>, parts: seq<string>, index: nat, m: Matching)
    requires index < |parts|
    ensures var found := Found(level, parts, index, m);
            var last := index == |parts| - 1;
            && (found >= 0 && last ==> Walk(level, parts, index, m) == level)
            && (found < 0 && last ==> Walk(level, parts, index, m) == level + [NewNode(parts, index)])
            && (found >= 0 && !last ==>
                  Walk(level, parts, index, m)
                  == level[found := level[found].(children := Walk(level[found].children, parts, index + 1, m))])
            && (found < 0 && !last ==>
                  Walk(level, parts, index, m)
                  == level + [NewNode(parts, index).(children := Walk([], parts, index + 1, m))])
  {
    var found := Found(level, parts, index, m);
    if found < 0 && index < |parts| - 1 {
      var n := NewNode(parts, index);
      assert (level + [n])[|level|] == n;
      assert (level + [n])[|level| := n.(children := Walk([], parts, index + 1, m))]
             == level + [n.(children := Walk([], parts, index + 1, m))];
    }
  }

  /**
   * Along the path from `parts[index]` on, matching by title and matching by key pick the same nodes: at
   * each level a node's title is the segment exactly when its key is the path up to that segment. This
   * fails only where a class's title equals the name of a sibling package (or a segment holds `.class`
   * before its end).
   */
  predicate TitlesAgree(level: seq<Node>, parts: seq<string>, index: nat)
    requires index < |parts|
    decreases |parts| - index
  {
    && (forall k :: 0 <= k < |level| ==> (Reuses(ByTitle, level[k], parts, index) <==> Reuses(ByKey, level[k], parts, index)))
    && (index < |parts| - 1 ==>
          forall k :: 0 <= k < |level| && Reuses(ByKey, level[k], parts, index) ==>
            TitlesAgree(level[k].children, parts, index + 1))
  }

  /** Two tests that agree on every node of a level find the same node. */
  lemma FindSame(level: seq<Node>, p: Node -> bool, q: Node -> bool)
    requires forall k :: 0 <= k < |level| ==> p(level[k]) == q(level[k])
    ensures Find(level, p) == Find(level, q)
  {
  }

  /** Where titles and keys agree along the path, the walk as written builds the same tree as by key. */
  lemma {:induction false} WalkAgrees(level: seq<Node>, parts: seq<string>, index: nat)
    requires index < |parts| && TitlesAgree(level, parts, index)
    ensures Walk(level, parts, index, ByTitle) == Walk(level, parts, index, ByKey)
    decreases |parts| - index
  {
    FindSame(level, n => Reuses(ByTitle, n, parts, index), n => Reuses(ByKey, n, parts, index));
    var found := Found(level, parts, index, ByKey);
    assert Found(level, parts, index, ByTitle) == found;
    WalkCases(level, parts, index, ByTitle);
    WalkCases(level, parts, index, ByKey);
    if index < |parts| - 1 {
      if found >= 0 {
        WalkAgrees(level[found].children, parts, index + 1);
      } else {
        WalkAgrees([], parts, index + 1);
      }
    }
  }

  /**
   * Inserting a path as written gives the same tree as inserting it by key, whenever no title along the
   * path is mistaken for a package of the same name.
   */
  lemma InsertAsWrittenAgrees(root: seq<Node>, path: string)
    requires TitlesAgree(root, Split(path, '/'), 0)
    ensures InsertAsWritten(root, path) == Insert(root, path)
  {
    WalkAgrees(root, Split(path, '/'), 0);
  }

  // ----- keys -----

  function NodeKeys(n: Node): set<string>
    decreases n
  {
    {n.key} + LevelKeys(n.children)
  }

  /** The keys of every node in a forest. */
  function LevelKeys(level: seq<Node>): set<string>
    decreases level
  {
    if level == [] then {} else LevelKeys(level[..|level| - 1]) + NodeKeys(level[|level| - 1])
  }

  /** The keys a path contributes from `parts[from]` on: the path up to each of those segments. */
  function PathKeys(parts: seq<string>, from: nat): set<string> {
    set j | from <= j < |parts| :: PathKey(parts, j)
  }

  /** Every directory and class key the paths call for. */
  function AllKeys(paths: seq<string>): set<string> {
    set p, k | p in paths && k in PathKeys(Split(p, '/'), 0) :: k
  }

  /** Sibling keys are distinct, on every level. */
  predicate WellFormed(level: seq<Node>)
    decreases level
  {
    && (forall i, j :: 0 <= i < j < |level| ==> level[i].key != level[j].key)
    && (forall i :: 0 <= i < |level| ==> WellFormed(level[i].children))
  }

  lemma {:induction false} KeysOfAppend(level: seq<Node>, n: Node)
    ensures LevelKeys(level + [n]) == LevelKeys(level) + NodeKeys(n)
  {
    assert (level + [n])[..|level|] == level;
  }

  lemma {:induction false} NodeKeysInLevel(level: seq<Node>, i: nat)
    requires i < |level|
    ensures NodeKeys(level[i]) <= LevelKeys(level)
    decreases |level|
  {
    if i < |level| - 1 {
      NodeKeysInLevel(level[..|level| - 1], i);
    }
  }

  /** Replacing one node by a node with more keys adds exactly those keys to the level. */
  lemma {:induction false} KeysOfReplace(level: seq<Node>, i: nat, n: Node, extra: set<string>)
    requires i < |level|
    requires NodeKeys(n) == NodeKeys(level[i]) + extra
    ensures LevelKeys(level[i := n]) == LevelKeys(level) + extra
    decreases |level|
  {
    var last := |level| - 1;
    if i == last {
      assert level[i := n][..last] == level[..last];
    } else {
      KeysOfReplace(level[..last], i, n, extra);
      assert level[i := n][..last] == level[..last][i := n];
    }
  }

  lemma PathKeysFrom(parts: seq<string>, index: nat)
    requires index < |parts|
    ensures PathKeys(parts, index) == {PathKey(parts, index)} + PathKeys(parts, index + 1)
  {
  }

  /** Walking a path by key adds exactly the path's keys from the current segment on. */
  lemma {:induction false} WalkKeys(level: seq<Node>, parts: seq<string>, index: nat)
    requires index < |parts|
    ensures LevelKeys(Walk(level, parts, index, ByKey)) == LevelKeys(level) + PathKeys(parts, index)
    decreases |parts| - index
  {
    var found := Found(level, parts, index, ByKey);
    WalkCases(level, parts, index, ByKey);
    PathKeysFrom(parts, index);
    if index == |parts| - 1 {
      assert PathKeys(parts, index + 1) == {};
    }
    if found >= 0 {
      NodeKeysInLevel(level, found);
      if index < |parts| - 1 {
        var old_ := level[found];
        WalkKeys(old_.children, parts, index + 1);
        KeysOfReplace(level, found, old_.(children := Walk(old_.children, parts, index + 1, ByKey)),
                      PathKeys(parts, index + 1));
      }
    } else if index < |parts| - 1 {
      WalkKeys([], parts, index + 1);
      KeysOfAppend(level, NewNode(parts, index).(children := Walk([], parts, index + 1, ByKey)));
    } else {
      KeysOfAppend(level, NewNode(parts, index));
    }
  }

  /** Walking a path by key never gives two siblings the same key. */
  lemma {:induction false} WalkWellFormed(level: seq<Node>, parts: seq<string>, index: nat)
    requires index < |parts| && WellFormed(level)
    ensures WellFormed(Walk(level, parts, index, ByKey))
    decreases |parts| - index
  {
    var found := Found(level, parts, index, ByKey);
    WalkCases(level, parts, index, ByKey);
    if found >= 0 {
      if index < |parts| - 1 {
        WalkWellFormed(level[found].children, parts, index + 1);
        ReplaceWellFormed(level, found, Walk(level[found].children, parts, index + 1, ByKey));
      }
    } else {
      var n := NewNode(parts, index);
      var n' := if index < |parts| - 1 then n.(children := Walk([], parts, index + 1, ByKey)) else n;
      if index < |parts| - 1 {
        WalkWellFormed([], parts, index + 1);
      }
      AppendWellFormed(level, n');
    }
  }

  lemma ReplaceWellFormed(level: seq<Node>, i: nat, children: seq<Node>)
    requires i < |level| && WellFormed(level) && WellFormed(children)
    ensures WellFormed(level[i := level[i].(children := children)])
  {
    var r := level[i := level[i].(children := children)];
    assert forall k :: 0 <= k < |r| ==> r[k].key == level[k].key;
  }

  lemma AppendWellFormed(level: seq<Node>, n: Node)
    requires WellFormed(level) && WellFormed(n.children)
    requires forall k :: 0 <= k < |level| ==> level[k].key != n.key
    ensures WellFormed(level + [n])
  {
  }

  /**
   * Inserting a path adds exactly its directory and class keys to the tree and keeps sibling keys distinct;
   * in particular the path itself becomes a key.
   */
  lemma InsertKeys(root: seq<Node>, path: string)
    requires WellFormed(root)
    ensures LevelKeys(Insert(root, path)) == LevelKeys(root) + PathKeys(Split(path, '/'), 0)
    ensures WellFormed(Insert(root, path))
    ensures path in LevelKeys(Insert(root, path))
  {
    var parts := Split(path, '/');
    WalkKeys(root, parts, 0);
    WalkWellFormed(root, parts, 0);
    JoinSplit(path, '/');
    assert parts[..|parts|] == parts;
    assert PathKey(parts, |parts| - 1) == path;
  }

  /** The title of a class file whose name has no dot is its name. */
  lemma ClassTitle(name: string)
    requires '.' !in name
    ensures ReplaceFirst(name + ".class", ".class", "") == name
  {
    var s := name + ".class";
    assert OccursAt(s, ".class", |name|);
    forall j | 0 <= j < |name|
      ensures !OccursAt(s, ".class", j)
    {
      assert s[j..j + 6][0] == name[j];
    }
    RemoveLastOnly(name, ".class");
  }

  /** A plain name: no dot and no slash. */
  predicate Plain(name: string) {
    '.' !in name && '/' !in name
  }

  /** The tree of a single top-level class. */
  lemma ClassAlone(a: string)
    requires Plain(a)
    ensures InsertAsWritten([], a + ".class") == [Node(a, a + ".class", [])]
  {
    var file := a + ".class";
    var parts := [file];
    assert '/' !in file;
    SplitWithout(file, '/');
    assert Found([], parts, 0, ByTitle) == -1;
    WalkCases([], parts, 0, ByTitle);
    assert parts[..1] == parts;
    ClassTitle(a);
  }

  /** A class path under one package splits into the package and the class file. */
  lemma PackagePath(a: string, b: string)
    requires Plain(a) && Plain(b)
    ensures Split(a + "/" + b + ".class", '/') == [a, b + ".class"]
    ensures PathKey([a, b + ".class"], 1) == a + "/" + b + ".class"
  {
    var parts := [a, b + ".class"];
    assert '/' !in b + ".class";
    assert Join(parts[1..], "/") == b + ".class";
    assert Join(parts, "/") == a + "/" + b + ".class";
    SplitJoin(parts, '/');
    assert parts[..2] == parts;
  }

  /** The class file of a package walk lands, as a new node, in an empty level. */
  lemma ClassInPackage(a: string, b: string)
    requires Plain(a) && Plain(b)
    ensures Walk([], [a, b + ".class"], 1, ByTitle) == [Node(b, a + "/" + b + ".class", [])]
  {
    var parts := [a, b + ".class"];
    PackagePath(a, b);
    assert Found([], parts, 1, ByTitle) == -1;
    WalkCases([], parts, 1, ByTitle);
    ClassTitle(b);
  }

  /**
   * As written, a class `a.class` and a package `a` at the same level share one node: the package's
   * segment `a` equals the class node's title, so the class `a/b.class` lands under the node keyed
   * `a.class` and no node is keyed `a`.
   */
  lemma ClassAndPackageMerge(a: string, b: string)
    requires Plain(a) && Plain(b)
    ensures var root := InsertAsWritten(InsertAsWritten([], a + ".class"), a + "/" + b + ".class");
            && root == [Node(a, a + ".class", [Node(b, a + "/" + b + ".class", [])])]
            && a !in LevelKeys(root)
  {
    MergedTree(a, b);
    KeysOfNested(a, a + ".class", b, a + "/" + b + ".class");
    assert |a + ".class"| != |a| && |a + "/" + b + ".class"| != |a|;
  }

  /** The tree as written after inserting `a.class`, then `a/b.class`. */
  lemma MergedTree(a: string, b: string)
    requires Plain(a) && Plain(b)
    ensures InsertAsWritten(InsertAsWritten([], a + ".class"), a + "/" + b + ".class")
            == [Node(a, a + ".class", [Node(b, a + "/" + b + ".class", [])])]
  {
    ClassAlone(a);
    var parts := [a, b + ".class"];
    PackagePath(a, b);
    var level := [Node(a, a + ".class", [])];
    ClassInPackage(a, b);
    assert Found(level, parts, 0, ByTitle) == 0;
    WalkCases(level, parts, 0, ByTitle);
  }

  /** The keys of a node with a single leaf child. */
  lemma KeysOfNested(t1: string, k1: string, t2: string, k2: string)
    ensures LevelKeys([Node(t1, k1, [Node(t2, k2, [])])]) == {k1, k2}
  {
    var leaf := Node(t2, k2, []);
    KeysOfSingle(leaf);
    KeysOfSingle(Node(t1, k1, [leaf]));
  }

  lemma KeysOfSingle(n: Node)
    ensures LevelKeys([n]) == NodeKeys(n)
  {
    KeysOfAppend([], n);
    assert [] + [n] == [n];
  }

  /** `[...classFiles].sort()`: code-unit order. */
  predicate PathOrder(a: string, b: string) {
    Decompiler.LexOrder(a, b)
  }

  /**
   * The tree of the jar's class paths: sorted, then inserted one by one. Its keys are exactly the
   * directories and classes the paths name, every path is a key, and sibling keys are distinct.
   */
  method BuildTree(classFiles: seq<string>) returns (root: seq<Node>)
    ensures LevelKeys(root) == AllKeys(classFiles)
    ensures forall p :: p in classFiles ==> p in LevelKeys(root)
    ensures WellFormed(root)
  {
    var sorted := Sort(classFiles, PathOrder);
    root := [];
    for i := 0 to |sorted|
      invariant LevelKeys(root) == AllKeys(sorted[..i])
      invariant forall p :: p in sorted[..i] ==> p in LevelKeys(root)
      invariant WellFormed(root)
    {
      InsertKeys(root, sorted[i]);
      AllKeysStep(sorted, i);
      root := Insert(root, sorted[i]);
    }
    assert sorted[..|sorted|] == sorted;
    SameKeys(sorted, classFiles);
  }

  lemma AllKeysStep(paths: seq<string>, i: nat)
    requires i < |paths|
    ensures AllKeys(paths[..i + 1]) == AllKeys(paths[..i]) + PathKeys(Split(paths[i], '/'), 0)
  {
    assert paths[..i + 1] == paths[..i] + [paths[i]];
  }

  lemma SameKeys(a: seq<string>, b: seq<string>)
    requires multiset(a) == multiset(b)
    ensures AllKeys(a) == AllKeys(b)
    ensures forall p :: p in a <==> p in b
  {
    assert forall p :: p in a <==> p in multiset(a);
    assert forall p :: p in b <==> p in multiset(b);
  }
}
