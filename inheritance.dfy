/**
 * The inheritance graph (src/logic/Inheritance.ts). The index interns one node per class name, so a node
 * is identified here by its name: the index maps each name to the node's parents, children and access
 * flags. The build parses every class entry of the archive and links each class to the superclass and
 * interfaces that are themselves in the archive. The UTF-8 decoding of names is a parameter.
 */
module Inheritance {
  import opened Wrappers
  import opened Strings
  import opened InsertionOrder
  import opened Archive
  import Classfile

  /** A `ClassNode`: the names of its parents and children, in link order, and its access flags. */
  datatype ClassNode = ClassNode(parents: seq<string>, children: seq<string>, accessFlags: int)

  type Index = map<string, ClassNode>

  /** A node's lists repeat no name and name only nodes of the index. */
  ghost predicate NodeValid(index: Index, node: ClassNode) {
    Distinct(node.parents) && Distinct(node.children)
    && (forall m :: m in node.parents ==> m in index)
    && (forall m :: m in node.children ==> m in index)
  }

  ghost predicate Valid(index: Index) {
    forall n :: n in index ==> NodeValid(index, index[n])
  }

  /** A node's parents, children and flags, read through its name; a name with no node has none. */
  function ParentsOf(index: Index, name: string): seq<string> {
    if name in index then index[name].parents else []
  }

  function ChildrenOf(index: Index, name: string): seq<string> {
    if name in index then index[name].children else []
  }

  function FlagsOf(index: Index, name: string): int {
    if name in index then index[name].accessFlags else 0
  }

  /** Every parent link has its child link and the other way round. */
  ghost predicate Mirrored(index: Index) {
    forall n, p :: p in ParentsOf(index, n) <==> n in ChildrenOf(index, p)
  }

  const NewNode: ClassNode := ClassNode([], [], 0)

  /** `addClass(name)`: the existing node, or a new one with no links and flags 0. */
  function WithClass(index: Index, name: string): (r: Index)
    ensures name in r && r.Keys == index.Keys + {name}
    ensures forall n :: n in index ==> r[n] == index[n]
    ensures forall n {:trigger ParentsOf(r, n)} :: ParentsOf(r, n) == ParentsOf(index, n)
    ensures forall n {:trigger ChildrenOf(r, n)} :: ChildrenOf(r, n) == ChildrenOf(index, n)
                        && FlagsOf(r, n) == FlagsOf(index, n)
  {
    if name in index then index else index[name := NewNode]
  }

  /** `child.parents.push(parent)` unless already there. */
  function AddParent(index: Index, childName: string, parentName: string): (r: Index)
    requires childName in index
    ensures r.Keys == index.Keys
    ensures forall n {:trigger ParentsOf(r, n)} ::
              ParentsOf(r, n) == if n == childName then SetKey(ParentsOf(index, n), parentName) else ParentsOf(index, n)
    ensures forall n {:trigger ChildrenOf(r, n)} :: ChildrenOf(r, n) == ChildrenOf(index, n)
    ensures forall n {:trigger FlagsOf(r, n)} :: FlagsOf(r, n) == FlagsOf(index, n)
  {
    index[childName := index[childName].(parents := SetKey(index[childName].parents, parentName))]
  }

  /** `parent.children.push(child)` unless already there. */
  function AddChild(index: Index, parentName: string, childName: string): (r: Index)
    requires parentName in index
    ensures r.Keys == index.Keys
    ensures forall n {:trigger ChildrenOf(r, n)} ::
              ChildrenOf(r, n) == if n == parentName then SetKey(ChildrenOf(index, n), childName) else ChildrenOf(index, n)
    ensures forall n {:trigger ParentsOf(r, n)} :: ParentsOf(r, n) == ParentsOf(index, n)
    ensures forall n {:trigger FlagsOf(r, n)} :: FlagsOf(r, n) == FlagsOf(index, n)
  {
    index[parentName := index[parentName].(children := SetKey(index[parentName].children, childName))]
  }

  /** `addParentChildLink(parent, child)`: both nodes exist, and each list gains the other once. */
  function WithLink(index: Index, parentName: string, childName: string): (r: Index)
    ensures r.Keys == index.Keys + {parentName, childName}
    ensures forall n {:trigger ParentsOf(r, n)} ::
              ParentsOf(r, n) == if n == childName then SetKey(ParentsOf(index, n), parentName) else ParentsOf(index, n)
    ensures forall n {:trigger ChildrenOf(r, n)} ::
              ChildrenOf(r, n) == if n == parentName then SetKey(ChildrenOf(index, n), childName) else ChildrenOf(index, n)
    ensures forall n {:trigger FlagsOf(r, n)} :: FlagsOf(r, n) == FlagsOf(index, n)
  {
    var i1 := WithClass(WithClass(index, parentName), childName);
    AddChild(AddParent(i1, childName, parentName), parentName, childName)
  }

  /**
   * `addClass` keeps the index well formed and mirrored, grows it by at most one node, changes no existing
   * node and is idempotent.
   */
  lemma WithClassValid(index: Index, name: string)
    requires Valid(index) && Mirrored(index)
    ensures var r := WithClass(index, name);
            Valid(r) && Mirrored(r) && |r| <= |index| + 1
            && (name !in index ==> r[name] == NewNode)
            && WithClass(r, name) == r
  {
    var r := WithClass(index, name);
    if name !in index {
      assert |r.Keys| <= |index.Keys| + 1;
      forall n | n in r
        ensures NodeValid(r, r[n])
      {
        if n != name {
          assert NodeValid(index, index[n]);
        }
      }
    }
  }

  /** Linking keeps every node's lists free of repeats and within the index. */
  lemma WithLinkValid(index: Index, parentName: string, childName: string)
    requires Valid(index)
    ensures Valid(WithLink(index, parentName, childName))
  {
    var r := WithLink(index, parentName, childName);
    forall n | n in r
      ensures NodeValid(r, r[n])
    {
      assert r[n].parents == ParentsOf(r, n) && r[n].children == ChildrenOf(r, n);
      if n in index {
        assert NodeValid(index, index[n]);
        assert index[n].parents == ParentsOf(index, n) && index[n].children == ChildrenOf(index, n);
      }
    }
  }

  /** Linking adds the parent link and its child link together, so a mirrored index stays mirrored. */
  lemma WithLinkMirrored(index: Index, parentName: string, childName: string)
    requires Mirrored(index)
    ensures Mirrored(WithLink(index, parentName, childName))
  {
    var r := WithLink(index, parentName, childName);
    forall n, p
      ensures p in ParentsOf(r, n) <==> n in ChildrenOf(r, p)
    {
      assert p in ParentsOf(r, n) <==> p in ParentsOf(index, n) || (n == childName && p == parentName);
      assert n in ChildrenOf(r, p) <==> n in ChildrenOf(index, p) || (n == childName && p == parentName);
    }
  }

  /** Two indexes with the same names, lists and flags are the same index. */
  lemma SameIndex(a: Index, b: Index)
    requires a.Keys == b.Keys
    requires forall n :: ParentsOf(a, n) == ParentsOf(b, n) && ChildrenOf(a, n) == ChildrenOf(b, n)
    requires forall n :: FlagsOf(a, n) == FlagsOf(b, n)
    ensures a == b
  {
    forall n | n in a
      ensures a[n] == b[n]
    {
      assert ParentsOf(a, n) == ParentsOf(b, n) && ChildrenOf(a, n) == ChildrenOf(b, n);
      assert FlagsOf(a, n) == FlagsOf(b, n);
    }
  }

  /**
   * After linking, the parent is among the child's parents and the child among the parent's children,
   * each once; and linking again changes nothing.
   */
  lemma WithLinkContents(index: Index, parentName: string, childName: string)
    requires Valid(index)
    ensures var r := WithLink(index, parentName, childName);
            parentName in r[childName].parents && childName in r[parentName].children
            && Distinct(r[childName].parents) && Distinct(r[parentName].children)
            && WithLink(r, parentName, childName) == r
  {
    WithLinkValid(index, parentName, childName);
    var r := WithLink(index, parentName, childName);
    assert NodeValid(r, r[childName]) && NodeValid(r, r[parentName]);
    assert r[childName].parents == ParentsOf(r, childName) && r[parentName].children == ChildrenOf(r, parentName);
    SameIndex(WithLink(r, parentName, childName), r);
  }

  /** The node the `parents[0]` walk from `name` ends at, if it ends within `bound` steps. */
  function RootWithin(index: Index, name: string, bound: nat): (r: Option<string>)
    requires Valid(index) && name in index
    ensures r.Some? ==> r.value in index && index[r.value].parents == []
    decreases bound
  {
    assert NodeValid(index, index[name]);
    if index[name].parents == [] then Some(name)
    else if bound == 0 then None
    else RootWithin(index, index[name].parents[0], bound - 1)
  }

  /** A walk that ends within some number of steps ends at the same node given more. */
  lemma {:induction false} RootWithinMore(index: Index, name: string, bound: nat, more: nat)
    requires Valid(index) && name in index && RootWithin(index, name, bound).Some? && bound <= more
    ensures RootWithin(index, name, more) == RootWithin(index, name, bound)
    decreases bound
  {
    assert NodeValid(index, index[name]);
    if index[name].parents != [] {
      RootWithinMore(index, index[name].parents[0], bound - 1, more - 1);
    }
  }

  /** `node.accessFlags = classInfo.accessFlags` on the node of `name`. */
  function WithFlags(index: Index, name: string, accessFlags: int): (r: Index)
    requires name in index
    ensures r.Keys == index.Keys && FlagsOf(r, name) == accessFlags
    ensures forall n {:trigger ParentsOf(r, n)} :: ParentsOf(r, n) == ParentsOf(index, n)
    ensures forall n {:trigger ChildrenOf(r, n)} :: ChildrenOf(r, n) == ChildrenOf(index, n)
    ensures forall n {:trigger FlagsOf(r, n)} :: n != name ==> FlagsOf(r, n) == FlagsOf(index, n)
    ensures Valid(index) ==> Valid(r)
    ensures Mirrored(index) ==> Mirrored(r)
  {
    var r := index[name := index[name].(accessFlags := accessFlags)];
    assert forall n :: n in index ==> r[n].parents == index[n].parents && r[n].children == index[n].children;
    r
  }

  /** What the build reads from one parsed class file. */
  datatype ClassInfo = ClassInfo(name: string, superName: Option<string>, interfaces: seq<string>, accessFlags: int)

  function Info(cf: Classfile.Classfile, decode: seq<byte> -> string): (r: ClassInfo)
    ensures r.name == decode(cf.name) && r.accessFlags == cf.accessFlags as int
    ensures r.superName.Some? <==> cf.superName.Some?
    ensures cf.superName.Some? ==> r.superName.value == decode(cf.superName.value)
    ensures |r.interfaces| == |cf.interfaces|
    ensures forall i :: 0 <= i < |cf.interfaces| ==> r.interfaces[i] == decode(cf.interfaces[i])
  {
    ClassInfo(decode(cf.name),
              match cf.superName case None => None case Some(s) => Some(decode(s)),
              seq(|cf.interfaces|, i requires 0 <= i < |cf.interfaces| => decode(cf.interfaces[i])),
              cf.accessFlags as int)
  }

  /** `if (classInfo.superName)`: present and not the empty string, and its class file is in the archive. */
  predicate LinksSuper(info: ClassInfo, classNames: seq<string>) {
    info.superName.Some? && info.superName.value != "" && info.superName.value + ".class" in classNames
  }

  /** `WithLink`, carrying the facts that it keeps an index well formed and mirrored. */
  function Link(index: Index, parentName: string, childName: string): (r: Index)
    requires Valid(index) && Mirrored(index)
    ensures Valid(r) && Mirrored(r) && r == WithLink(index, parentName, childName)
  {
    WithLinkValid(index, parentName, childName);
    WithLinkMirrored(index, parentName, childName);
    WithLink(index, parentName, childName)
  }

  /** The interface loop: a link from `name` to each interface whose class file is in the archive, in order. */
  function LinkInterfaces(index: Index, name: string, interfaces: seq<string>, classNames: seq<string>): (r: Index)
    requires Valid(index) && Mirrored(index)
    ensures Valid(r) && Mirrored(r)
  {
    if interfaces == [] then index
    else
      var i1 := LinkInterfaces(index, name, interfaces[..|interfaces| - 1], classNames);
      var last := interfaces[|interfaces| - 1];
      if last + ".class" in classNames then Link(i1, last, name) else i1
  }

  /**
   * The interface loop adds to the parents of `name` exactly the interfaces whose class files are in the
   * archive, after the parents it had, and changes no other node's parents and no flags.
   */
  lemma {:induction false} LinkInterfacesParents(index: Index, name: string, interfaces: seq<string>, classNames: seq<string>)
    requires Valid(index) && Mirrored(index)
    ensures var r := LinkInterfaces(index, name, interfaces, classNames);
            ParentsOf(index, name) <= ParentsOf(r, name)
            && (forall p :: p in ParentsOf(r, name) <==>
                  p in ParentsOf(index, name) || (p in interfaces && p + ".class" in classNames))
            && (forall n {:trigger ParentsOf(r, n)} :: n != name ==> ParentsOf(r, n) == ParentsOf(index, n))
            && (forall n {:trigger FlagsOf(r, n)} :: FlagsOf(r, n) == FlagsOf(index, n))
  {
    if interfaces != [] {
      var init := interfaces[..|interfaces| - 1];
      var last := interfaces[|interfaces| - 1];
      assert interfaces == init + [last];
      LinkInterfacesParents(index, name, init, classNames);
    }
  }

  /** The index a visit has before its interface loop: the class interned, its flags set, its superclass linked. */
  function BeforeInterfaces(index: Index, info: ClassInfo, classNames: seq<string>): (r: Index)
    requires Valid(index) && Mirrored(index)
    ensures Valid(r) && Mirrored(r)
    ensures ParentsOf(r, info.name) == if LinksSuper(info, classNames)
                                       then SetKey(ParentsOf(index, info.name), info.superName.value)
                                       else ParentsOf(index, info.name)
    ensures FlagsOf(r, info.name) == info.accessFlags
    ensures forall n {:trigger ParentsOf(r, n)} :: n != info.name ==> ParentsOf(r, n) == ParentsOf(index, n)
    ensures forall n {:trigger FlagsOf(r, n)} :: n != info.name ==> FlagsOf(r, n) == FlagsOf(index, n)
  {
    WithClassValid(index, info.name);
    var i0 := WithClass(index, info.name);
    var i1 := WithFlags(i0, info.name, info.accessFlags);
    assert ParentsOf(i1, info.name) == ParentsOf(i0, info.name) == ParentsOf(index, info.name);
    assert forall n {:trigger ParentsOf(i1, n)} :: ParentsOf(i1, n) == ParentsOf(index, n);
    assert forall n {:trigger FlagsOf(i1, n)} :: n != info.name ==> FlagsOf(i1, n) == FlagsOf(index, n);
    if LinksSuper(info, classNames) then Link(i1, info.superName.value, info.name) else i1
  }

  /** One pass of the build loop for a parsed class. */
  function Visit(index: Index, info: ClassInfo, classNames: seq<string>): (r: Index)
    requires Valid(index) && Mirrored(index)
    ensures Valid(r) && Mirrored(r)
  {
    LinkInterfaces(BeforeInterfaces(index, info, classNames), info.name, info.interfaces, classNames)
  }

  /**
   * A visit sets the class's flags; adds to its parents exactly its superclass and its interfaces whose
   * class files are in the archive; and changes no other node's parents or flags.
   */
  lemma VisitParents(index: Index, info: ClassInfo, classNames: seq<string>)
    requires Valid(index) && Mirrored(index)
    ensures var r := Visit(index, info, classNames);
            FlagsOf(r, info.name) == info.accessFlags
            && (forall p :: p in ParentsOf(r, info.name) <==>
                  p in ParentsOf(index, info.name)
                  || (LinksSuper(info, classNames) && p == info.superName.value)
                  || (p in info.interfaces && p + ".class" in classNames))
            && (forall n {:trigger ParentsOf(r, n)} :: n != info.name ==> ParentsOf(r, n) == ParentsOf(index, n))
            && (forall n {:trigger FlagsOf(r, n)} :: n != info.name ==> FlagsOf(r, n) == FlagsOf(index, n))
  {
    var i2 := BeforeInterfaces(index, info, classNames);
    LinkInterfacesParents(i2, info.name, info.interfaces, classNames);
  }

  /**
   * A class met for the first time has its superclass, when linked, as its first parent: the one
   * `getRoot` follows.
   */
  lemma VisitSuperFirst(index: Index, info: ClassInfo, classNames: seq<string>)
    requires Valid(index) && Mirrored(index)
    requires ParentsOf(index, info.name) == [] && LinksSuper(info, classNames)
    ensures var parents := ParentsOf(Visit(index, info, classNames), info.name);
            |parents| > 0 && parents[0] == info.superName.value
  {
    var i2 := BeforeInterfaces(index, info, classNames);
    assert ParentsOf(i2, info.name) == [info.superName.value];
    LinkInterfacesParents(i2, info.name, info.interfaces, classNames);
  }

  /** The parse of each class file, in key order. */
  function ParsedEntries(jar: Jar, classNames: seq<string>): (r: seq<Result<Classfile.Classfile, Classfile.ParseError>>)
    requires forall n :: n in classNames ==> n in jar.data
    ensures |r| == |classNames|
    ensures forall i :: 0 <= i < |classNames| ==> r[i] == Classfile.Parse(jar.data[classNames[i]])
  {
    seq(|classNames|, i requires 0 <= i < |classNames| => Classfile.Parse(jar.data[classNames[i]]))
  }

  /** The first `k` class files all parsed. */
  predicate AllParsed(parsed: seq<Result<Classfile.Classfile, Classfile.ParseError>>, k: nat)
    requires k <= |parsed|
  {
    forall i :: 0 <= i < k ==> parsed[i].Ok?
  }

  lemma AllParsedNext(parsed: seq<Result<Classfile.Classfile, Classfile.ParseError>>, k: nat)
    requires k < |parsed| && AllParsed(parsed, k) && parsed[k].Ok?
    ensures AllParsed(parsed, k + 1)
  {
  }

  /** The error of the first class file from position `i` on that did not parse, if any. */
  function FirstFailure(parsed: seq<Result<Classfile.Classfile, Classfile.ParseError>>, i: nat): (r: Option<Classfile.ParseError>)
    requires i <= |parsed|
    ensures r.None? <==> forall j :: i <= j < |parsed| ==> parsed[j].Ok?
    decreases |parsed| - i
  {
    if i == |parsed| then None
    else if parsed[i].Err? then Some(parsed[i].error)
    else FirstFailure(parsed, i + 1)
  }

  /** When the first `k` class files parsed and the next did not, the next one's error is the first. */
  lemma {:induction false} FirstFailureAt(parsed: seq<Result<Classfile.Classfile, Classfile.ParseError>>, i: nat, k: nat)
    requires i <= k < |parsed| && AllParsed(parsed, k) && parsed[k].Err?
    ensures FirstFailure(parsed, i) == Some(parsed[k].error)
    decreases k - i
  {
    if i < k {
      FirstFailureAt(parsed, i + 1, k);
    }
  }

  /** Every parent link points at a class whose class file is in the archive. */
  ghost predicate ArchiveLinked(index: Index, classNames: seq<string>) {
    forall n, p :: p in ParentsOf(index, n) ==> p + ".class" in classNames
  }

  lemma VisitArchiveLinked(index: Index, info: ClassInfo, classNames: seq<string>)
    requires Valid(index) && Mirrored(index) && ArchiveLinked(index, classNames)
    ensures ArchiveLinked(Visit(index, info, classNames), classNames)
  {
    VisitParents(index, info, classNames);
  }

  /** The index after visiting the first `k` class files, all of which parsed. */
  function Built(parsed: seq<Result<Classfile.Classfile, Classfile.ParseError>>, decode: seq<byte> -> string,
                 classNames: seq<string>, k: nat): (r: Index)
    requires k <= |parsed| && AllParsed(parsed, k)
    ensures Valid(r) && Mirrored(r) && ArchiveLinked(r, classNames)
  {
    if k == 0 then map[]
    else
      var prev := Built(parsed, decode, classNames, k - 1);
      var info := Info(parsed[k - 1].value, decode);
      VisitArchiveLinked(prev, info, classNames);
      Visit(prev, info, classNames)
  }

  /** The outcome of a build: the first parse error, or the index after every class file. */
  function Build(parsed: seq<Result<Classfile.Classfile, Classfile.ParseError>>, decode: seq<byte> -> string,
                 classNames: seq<string>): (r: Result<Index, Classfile.ParseError>)
    ensures r.Err? <==> exists i :: 0 <= i < |parsed| && parsed[i].Err?
    ensures r.Ok? ==> Valid(r.value) && Mirrored(r.value) && ArchiveLinked(r.value, classNames)
  {
    match FirstFailure(parsed, 0)
    case Some(e) => Err(e)
    case None => Ok(Built(parsed, decode, classNames, |parsed|))
  }

  /** `Math.round(classNames.indexOf(className) / classNames.length * 100)` for each visited position. */
  function ProgressValues(k: nat, total: nat): (r: seq<int>)
    requires k <= total
    ensures |r| == k
    ensures forall i :: 0 <= i < k ==> r[i] == RoundPercent(i, total)
  {
    if k == 0 then [] else ProgressValues(k - 1, total) + [RoundPercent(k - 1, total)]
  }

  /** The progress values published by a build that visited `k` of `total` class files: 0 first, -1 last. */
  function Published(k: nat, total: nat): (r: seq<int>)
    requires k <= total
    ensures |r| == k + 2 && r[0] == 0 && r[k + 1] == -1 && r[1..k + 1] == ProgressValues(k, total)
  {
    [0] + ProgressValues(k, total) + [-1]
  }

  class InheritanceIndex {
    var index: Index

    constructor()
      ensures index == map[]
    {
      index := map[];
    }

    /** `addClass(className)`: intern the node of `className`. */
    method AddClass(className: string)
      modifies this
      ensures index == WithClass(old(index), className)
    {
      if className !in index {
        index := index[className := ClassNode([], [], 0)];
      }
    }

    /** `addParentChildLink(parentName, childName)`. */
    method AddParentChildLink(parentName: string, childName: string)
      modifies this
      ensures index == WithLink(old(index), parentName, childName)
    {
      AddClass(parentName);
      AddClass(childName);
      ghost var i1 := index;
      var child := index[childName];
      if parentName !in child.parents {
        index := index[childName := child.(parents := child.parents + [parentName])];
      }
      assert index == AddParent(i1, childName, parentName);
      ghost var i2 := index;
      var parent := index[parentName];
      if childName !in parent.children {
        index := index[parentName := parent.(children := parent.children + [childName])];
      }
      assert index == AddChild(i2, parentName, childName);
    }

    /** `addChildParentLink(childName, parentName)` is `addParentChildLink(parentName, childName)`. */
    method AddChildParentLink(childName: string, parentName: string)
      modifies this
      ensures index == WithLink(old(index), parentName, childName)
    {
      AddParentChildLink(parentName, childName);
    }

    /** `node.getRoot()`: follow `parents[0]` until a node with no parents. */
    method GetRoot(name: string, ghost bound: nat) returns (root: string)
      requires Valid(index) && name in index && RootWithin(index, name, bound).Some?
      ensures root == RootWithin(index, name, bound).value
      ensures root in index && index[root].parents == []
    {
      var n := name;
      ghost var steps := bound;
      while index[n].parents != []
        invariant n in index && RootWithin(index, n, steps) == RootWithin(index, name, bound)
        decreases steps
      {
        assert NodeValid(index, index[n]);
        n := index[n].parents[0];
        steps := steps - 1;
      }
      root := n;
    }

    /** The body of the build loop for one parsed class. */
    method VisitClass(info: ClassInfo, classNames: seq<string>)
      requires Valid(index) && Mirrored(index)
      modifies this
      ensures index == Visit(old(index), info, classNames)
    {
      ghost var start := index;
      WithClassValid(index, info.name);
      AddClass(info.name);
      index := WithFlags(index, info.name, info.accessFlags);
      if info.superName.Some? && info.superName.value != "" {
        if info.superName.value + ".class" in classNames {
          ghost var before := index;
          AddChildParentLink(info.name, info.superName.value);
          assert index == Link(before, info.superName.value, info.name);
        }
      }
      assert index == BeforeInterfaces(start, info, classNames);
      AddInterfaceLinks(info.name, info.interfaces, classNames);
    }

    /**
     * The loop of `buildInheritanceIndex` over the class files: parse and visit each in order, publishing
     * its progress value, until one fails to parse.
     */
    method VisitEntries(jar: Jar, classNames: seq<string>, decode: seq<byte> -> string)
      returns (failure: Option<Classfile.ParseError>, visited: seq<int>)
      requires index == map[] && forall n :: n in classNames ==> n in jar.data
      modifies this
      ensures var parsed := ParsedEntries(jar, classNames);
              failure == FirstFailure(parsed, 0)
              && (failure.None? ==> AllParsed(parsed, |parsed|) && index == Built(parsed, decode, classNames, |parsed|))
              && |visited| <= |classNames| && visited == ProgressValues(|visited|, |classNames|)
              && (failure.None? <==> |visited| == |classNames|)
    {
      ghost var parsed := ParsedEntries(jar, classNames);
      visited := [];
      for k := 0 to |classNames|
        invariant AllParsed(parsed, k)
        invariant index == Built(parsed, decode, classNames, k)
        invariant visited == ProgressValues(k, |classNames|)
      {
        var entryFailure := VisitEntry(jar, classNames, decode, parsed, k);
        if entryFailure.Some? {
          FirstFailureAt(parsed, 0, k);
          return entryFailure, visited;
        }
        visited := visited + [RoundPercent(k, |classNames|)];
      }
      failure := None;
    }

    /** One pass of that loop: parse the class file at position `k` and, when it parses, visit it. */
    method VisitEntry(jar: Jar, classNames: seq<string>, decode: seq<byte> -> string,
                      ghost parsed: seq<Result<Classfile.Classfile, Classfile.ParseError>>, k: nat)
      returns (failure: Option<Classfile.ParseError>)
      requires forall n :: n in classNames ==> n in jar.data
      requires parsed == ParsedEntries(jar, classNames) && k < |classNames| && AllParsed(parsed, k)
      requires index == Built(parsed, decode, classNames, k)
      modifies this
      ensures failure == if parsed[k].Err? then Some(parsed[k].error) else None
      ensures failure.None? ==> AllParsed(parsed, k + 1) && index == Built(parsed, decode, classNames, k + 1)
    {
      var classInfo := Classfile.ParseClassfile(jar.data[classNames[k]]);
      if classInfo.Err? {
        return Some(classInfo.error);
      }
      AllParsedNext(parsed, k);
      VisitClass(Info(classInfo.value, decode), classNames);
      failure := None;
    }

    /** The interface loop of one visit: link `className` to each interface whose class file is in the archive. */
    method AddInterfaceLinks(className: string, interfaces: seq<string>, classNames: seq<string>)
      requires Valid(index) && Mirrored(index)
      modifies this
      ensures index == LinkInterfaces(old(index), className, interfaces, classNames)
    {
      ghost var start := index;
      for j := 0 to |interfaces|
        invariant index == LinkInterfaces(start, className, interfaces[..j], classNames)
      {
        assert interfaces[..j + 1][..j] == interfaces[..j];
        var interfaceName := interfaces[j];
        if interfaceName + ".class" !in classNames {
          continue;
        }
        ghost var before := index;
        AddChildParentLink(className, interfaceName);
        assert index == Link(before, interfaceName, className);
      }
      assert interfaces[..|interfaces|] == interfaces;
    }
  }

  /**
   * `buildInheritanceIndex`: progress 0, one visit per class file in key order (each followed by its
   * progress value), and progress -1 at the end whether the build finished or a parse failed.
   */
  method BuildInheritanceIndex(jar: Jar, decode: seq<byte> -> string)
    returns (result: Result<InheritanceIndex, Classfile.ParseError>, progress: seq<int>)
    requires jar.Valid()
    ensures var classNames := ClassFileNames(jar);
            var built := Build(ParsedEntries(jar, classNames), decode, classNames);
            match result
            case Ok(builtIndex) =>
              built == Ok(builtIndex.index) && progress == Published(|classNames|, |classNames|)
            case Err(e) =>
              built == Err(e) && 2 <= |progress| <= |classNames| + 2
              && progress == Published(|progress| - 2, |classNames|)
  {
    var builtIndex := new InheritanceIndex();
    progress := [0];
    var classNames := ClassFileNames(jar);
    var failure, visited := builtIndex.VisitEntries(jar, classNames, decode);
    progress := progress + visited + [-1];
    assert progress == Published(|visited|, |classNames|);
    if failure.Some? {
      return Err(failure.value), progress;
    }
    result := Ok(builtIndex);
  }
}
