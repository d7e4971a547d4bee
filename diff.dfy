/**
 * The version diff (src/logic/Diff.ts): each archive's `.class` entries are grouped by outer class and
 * their CRC-32 values XOR-combined (`getEntriesWithCRC`); two such tables are then compared key by key
 * (`getChangedEntries`). Entry order is the archive's key order; a `Map`'s order is its first-insertion
 * order, kept here as a key sequence beside the map.
 */
/** Left folds and their insensitivity to order when the step function lets any two items swap. */
module Folds {
  function FoldLeft<A, B>(f: (B, A) -> B, init: B, s: seq<A>): B
  {
    if s == [] then init else f(FoldLeft(f, init, s[..|s| - 1]), s[|s| - 1])
  }

  /** Folding in `x` then `y` is the same as folding in `y` then `x`. */
  ghost predicate RightCommutative<A(!new), B(!new)>(f: (B, A) -> B) {
    forall b, x, y :: f(f(b, x), y) == f(f(b, y), x)
  }

  /** Taking one item out of the middle and folding it in last gives the same result. */
  lemma {:induction false} FoldRemove<A(!new), B(!new)>(f: (B, A) -> B, init: B, s: seq<A>, j: nat)
    requires RightCommutative(f) && j < |s|
    ensures FoldLeft(f, init, s) == f(FoldLeft(f, init, s[..j] + s[j + 1..]), s[j])
    decreases |s|
  {
    var prefix := s[..|s| - 1];
    var t := s[..j] + s[j + 1..];
    if j < |s| - 1 {
      var prefixRest := prefix[..j] + prefix[j + 1..];
      FoldRemove(f, init, prefix, j);
      assert t[..|t| - 1] == prefixRest;
      assert t[|t| - 1] == s[|s| - 1];
    } else {
      assert t == prefix;
    }
  }

  /** Removing the last item of `a` and an equal item of `b` keeps two permutations permutations. */
  lemma RemoveMatching<A>(a: seq<A>, b: seq<A>, j: nat)
    requires a != [] && multiset(a) == multiset(b) && j < |b| && b[j] == a[|a| - 1]
    ensures multiset(a[..|a| - 1]) == multiset(b[..j] + b[j + 1..])
  {
    var x := a[|a| - 1];
    assert a == a[..|a| - 1] + [x];
    assert b == b[..j] + [x] + b[j + 1..];
    assert multiset(a[..|a| - 1]) == multiset(a) - multiset{x};
    assert multiset(b[..j] + b[j + 1..]) == multiset(b) - multiset{x};
  }

  /** A right-commutative fold gives the same result for any reordering of the items. */
  lemma {:induction false} FoldPermutation<A(!new), B(!new)>(f: (B, A) -> B, init: B, a: seq<A>, b: seq<A>)
    requires RightCommutative(f) && multiset(a) == multiset(b)
    ensures FoldLeft(f, init, a) == FoldLeft(f, init, b)
    decreases |a|
  {
    if a != [] {
      var x := a[|a| - 1];
      assert x in multiset(b);
      var j :| 0 <= j < |b| && b[j] == x;
      RemoveMatching(a, b, j);
      FoldPermutation(f, init, a[..|a| - 1], b[..j] + b[j + 1..]);
      FoldRemove(f, init, b, j);
    } else {
      assert b == [];
    }
  }
}

module Diff {
  import opened Folds
  import opened Wrappers
  import opened Strings
  import opened InsertionOrder
  import opened JsInt32

  /** One archive entry: its path and the CRC-32 the zip directory records for it. */
  datatype FileEntry = FileEntry(path: string, crc32: int)

  /** A `Map<string, number>`: keys in insertion order and the value of each. */
  datatype Table<V> = Table(keys: seq<string>, values: map<string, V>)
  {
    ghost predicate Valid() {
      Distinct(keys) && forall k :: k in values <==> k in keys
    }
  }

  datatype ChangeState = Added | Deleted | Modified

  // ----- getEntriesWithCRC -----

  /** `path.substring(0, path.length - 6)`, cut at the first '$' when the path holds one. */
  function OuterClass(path: string): (r: string)
    requires EndsWith(path, ".class")
    ensures '$' !in r
    ensures '$' !in path ==> r + ".class" == path
  {
    var className := path[..|path| - 6];
    assert path == className + ".class";
    CutAtChar(className, '$');
    if '$' in path then BeforeFirst(className, '$') else className
  }

  /** The table after one more entry: a new outer class takes the entry's CRC, a known one XORs it in. */
  function AddEntry(t: Table<int>, f: FileEntry): Table<int>
  {
    if !EndsWith(f.path, ".class") then t
    else
      var className := OuterClass(f.path);
      if className in t.values then Table(t.keys, t.values[className := Xor(t.values[className], f.crc32)])
      else Table(t.keys + [className], t.values[className := f.crc32])
  }

  /** The table `getEntriesWithCRC` builds from the entries, in archive order. */
  function Checksums(files: seq<FileEntry>): Table<int>
  {
    if files == [] then Table([], map[])
    else AddEntry(Checksums(files[..|files| - 1]), files[|files| - 1])
  }

  /** `getEntriesWithCRC`: one pass over the archive entries. */
  method GetEntriesWithCrc(files: seq<FileEntry>) returns (entries: Table<int>)
    ensures entries == Checksums(files)
  {
    entries := Table([], map[]);
    for i := 0 to |files|
      invariant entries == Checksums(files[..i])
    {
      assert files[..i + 1][..i] == files[..i];
      var f := files[i];
      if !EndsWith(f.path, ".class") {
        continue;
      }
      var className := OuterClass(f.path);
      if className in entries.values {
        var existing := entries.values[className];
        entries := Table(entries.keys, entries.values[className := Xor(existing, f.crc32)]);
      } else {
        entries := Table(entries.keys + [className], entries.values[className := f.crc32]);
      }
    }
    assert files[..|files|] == files;
  }

  /** The CRCs of the `.class` entries that group under `className`, in archive order. */
  function Contributions(files: seq<FileEntry>, className: string): seq<int>
  {
    if files == [] then []
    else
      var f := files[|files| - 1];
      var rest := Contributions(files[..|files| - 1], className);
      if EndsWith(f.path, ".class") && OuterClass(f.path) == className then rest + [f.crc32] else rest
  }

  /** The value the table holds for a list of CRCs: the first alone, then each next one XOR-ed in. */
  function Combined(crcs: seq<int>): int
    requires crcs != []
  {
    if |crcs| == 1 then crcs[0] else Xor(Combined(crcs[..|crcs| - 1]), crcs[|crcs| - 1])
  }

  /**
   * The table holds exactly the outer classes of the `.class` entries, each once and in order of first
   * appearance, and each class's value combines the CRCs of all its entries.
   */
  lemma {:induction false} ChecksumsContents(files: seq<FileEntry>)
    ensures Checksums(files).Valid()
    ensures forall c :: c in Checksums(files).values <==> Contributions(files, c) != []
    ensures forall c :: c in Checksums(files).values ==> Checksums(files).values[c] == Combined(Contributions(files, c))
  {
    if files != [] {
      var init := files[..|files| - 1];
      ChecksumsContents(init);
      var f := files[|files| - 1];
      var t := Checksums(init);
      if EndsWith(f.path, ".class") {
        var name := OuterClass(f.path);
        var earlier := Contributions(init, name);
        assert Contributions(files, name) == earlier + [f.crc32];
        assert forall c :: c != name ==> Contributions(files, c) == Contributions(init, c);
        if name in t.values {
          assert Checksums(files) == Table(t.keys, t.values[name := Xor(t.values[name], f.crc32)]);
          assert (earlier + [f.crc32])[..|earlier|] == earlier;
        } else {
          assert Checksums(files) == Table(t.keys + [name], t.values[name := f.crc32]);
          TableAppend(t, name, f.crc32);
          assert earlier == [];
        }
      } else {
        assert Checksums(files) == t;
        assert forall c :: Contributions(files, c) == Contributions(init, c);
      }
    }
  }

  /** A class key appears exactly when some `.class` entry groups under it. */
  lemma {:induction false} ContributionsFrom(files: seq<FileEntry>, className: string)
    ensures Contributions(files, className) != [] <==>
              exists i :: 0 <= i < |files| && EndsWith(files[i].path, ".class") && OuterClass(files[i].path) == className
  {
    if files != [] {
      var init := files[..|files| - 1];
      ContributionsFrom(init, className);
      if exists i :: 0 <= i < |init| && EndsWith(init[i].path, ".class") && OuterClass(init[i].path) == className {
        var i :| 0 <= i < |init| && EndsWith(init[i].path, ".class") && OuterClass(init[i].path) == className;
        assert files[i] == init[i];
      }
      if exists i :: 0 <= i < |files| && EndsWith(files[i].path, ".class") && OuterClass(files[i].path) == className {
        var i :| 0 <= i < |files| && EndsWith(files[i].path, ".class") && OuterClass(files[i].path) == className;
        if i < |init| {
          assert init[i] == files[i];
        }
      }
    }
  }

  /** One step of XOR-ing together the 32-bit forms of CRCs. */
  function XorStep(acc: nat, crc: int): nat
  {
    XorBits(acc, Uint32(crc), 32)
  }

  /** The XOR of the 32-bit forms of a list of CRCs. */
  function XorAll(crcs: seq<int>): nat
  {
    FoldLeft(XorStep, 0, crcs)
  }

  lemma XorStepCommutes()
    ensures RightCommutative(XorStep)
  {
    forall acc: nat, x: int, y: int ensures XorStep(XorStep(acc, x), y) == XorStep(XorStep(acc, y), x) {
      XorBitsSwap(acc, Uint32(x), Uint32(y), 32);
    }
  }

  /** Two or more CRCs combine to the signed number whose bits are the XOR of theirs. */
  lemma {:induction false} CombinedIsXor(crcs: seq<int>)
    requires |crcs| >= 2
    ensures XorAll(crcs) < TWO_32 && Combined(crcs) == Int32(XorAll(crcs))
  {
    var init := crcs[..|crcs| - 1];
    var last := crcs[|crcs| - 1];
    Pow2Of32();
    if |crcs| == 2 {
      assert init == [crcs[0]];
      assert XorAll(init) == XorStep(XorAll([]), crcs[0]);
      XorBitsZero(Uint32(crcs[0]), 32);
    } else {
      CombinedIsXor(init);
    }
  }

  /** Combining is blind to order: any reordering of the CRCs combines to the same value. */
  lemma CombinedOrderIndependent(a: seq<int>, b: seq<int>)
    requires a != [] && multiset(a) == multiset(b)
    ensures b != [] && Combined(a) == Combined(b)
  {
    assert |a| == |multiset(a)| == |multiset(b)| == |b|;
    if |a| == 1 {
      assert a[0] in multiset(b);
    } else {
      CombinedIsXor(a);
      CombinedIsXor(b);
      XorStepCommutes();
      FoldPermutation(XorStep, 0, a, b);
    }
  }

  /**
   * The value of a class depends only on which CRCs its entries have, not on their order in the archive:
   * two archives whose entries under a class carry the same CRCs (as a multiset) give that class the same
   * value.
   */
  lemma ChecksumOrderIndependent(files1: seq<FileEntry>, files2: seq<FileEntry>, className: string)
    requires multiset(Contributions(files1, className)) == multiset(Contributions(files2, className))
    requires className in Checksums(files1).values
    ensures className in Checksums(files2).values
    ensures Checksums(files1).values[className] == Checksums(files2).values[className]
  {
    ChecksumsContents(files1);
    ChecksumsContents(files2);
    CombinedOrderIndependent(Contributions(files1, className), Contributions(files2, className));
  }

  // ----- getChangedEntries -----

  /** The classification of one key; none when both sides agree. */
  function ChangeOf(left: map<string, int>, right: map<string, int>, key: string): Option<ChangeState>
  {
    if key !in left then Some(Added)
    else if key !in right then Some(Deleted)
    else if left[key] != right[key] then Some(Modified)
    else None
  }

  /** `new Set([...left.keys(), ...right.keys()])`: the left keys, then the right keys not already seen. */
  function UnionKeys(left: seq<string>, right: seq<string>): (r: seq<string>)
    ensures forall k :: k in r <==> k in left || k in right
    ensures Distinct(left) ==> Distinct(r)
  {
    if right == [] then left
    else
      var rest := UnionKeys(left, right[..|right| - 1]);
      if right[|right| - 1] in rest then rest else rest + [right[|right| - 1]]
  }

  /** The `changes` map after visiting `keys` in order. */
  function Compared(left: map<string, int>, right: map<string, int>, keys: seq<string>): Table<ChangeState>
  {
    if keys == [] then Table([], map[])
    else
      var t := Compared(left, right, keys[..|keys| - 1]);
      var key := keys[|keys| - 1];
      match ChangeOf(left, right, key)
      case None => t
      case Some(state) => Table(t.keys + [key], t.values[key := state])
  }

  /** `getChangedEntries`: one pass over the union of the keys. */
  method GetChangedEntries(left: Table<int>, right: Table<int>) returns (changes: Table<ChangeState>)
    ensures changes == Compared(left.values, right.values, UnionKeys(left.keys, right.keys))
  {
    var allKeys := UnionKeys(left.keys, right.keys);
    changes := Table([], map[]);
    for i := 0 to |allKeys|
      invariant changes == Compared(left.values, right.values, allKeys[..i])
    {
      assert allKeys[..i + 1][..i] == allKeys[..i];
      var key := allKeys[i];
      var leftCrc := if key in left.values then Some(left.values[key]) else None;
      var rightCrc := if key in right.values then Some(right.values[key]) else None;
      if leftCrc.None? {
        changes := Table(changes.keys + [key], changes.values[key := Added]);
      } else if rightCrc.None? {
        changes := Table(changes.keys + [key], changes.values[key := Deleted]);
      } else if leftCrc.value != rightCrc.value {
        changes := Table(changes.keys + [key], changes.values[key := Modified]);
      }
    }
    assert allKeys[..|allKeys|] == allKeys;
  }

  /** Visiting distinct keys reports each changed one once, in visiting order, with its classification. */
  lemma {:induction false} ComparedContents(left: map<string, int>, right: map<string, int>, keys: seq<string>)
    requires Distinct(keys)
    ensures Compared(left, right, keys).Valid()
    ensures forall k :: k in Compared(left, right, keys).values <==> k in keys && ChangeOf(left, right, k).Some?
    ensures forall k :: k in Compared(left, right, keys).values ==>
              Compared(left, right, keys).values[k] == ChangeOf(left, right, k).value
  {
    if keys != [] {
      var init := keys[..|keys| - 1];
      var key := keys[|keys| - 1];
      assert Distinct(init) && key !in init;
      ComparedContents(left, right, init);
      var t := Compared(left, right, init);
      var change := ChangeOf(left, right, key);
      if change.Some? {
        assert Compared(left, right, keys) == Table(t.keys + [key], t.values[key := change.value]);
        TableAppend(t, key, change.value);
      } else {
        assert Compared(left, right, keys) == t;
      }
    }
  }

  /** Appending a new key to a well-formed table keeps it well-formed and every other entry as it was. */
  lemma TableAppend<V>(t: Table<V>, key: string, v: V)
    requires t.Valid() && key !in t.values
    ensures var r := Table(t.keys + [key], t.values[key := v]);
            && r.Valid()
            && (forall k :: k in r.values <==> k in t.values || k == key)
            && r.values[key] == v
            && (forall k :: k in t.values ==> r.values[k] == t.values[k])
  {
  }

  /**
   * For two well-formed tables: a key only on the right is added, a key only on the left is deleted, a key
   * on both sides with different checksums is modified, and no other key is reported.
   */
  lemma ChangesClassify(left: Table<int>, right: Table<int>, key: string)
    requires left.Valid() && right.Valid()
    ensures var c := Compared(left.values, right.values, UnionKeys(left.keys, right.keys));
            c.Valid()
            && (key in right.values && key !in left.values <==> key in c.values && c.values[key] == Added)
            && (key in left.values && key !in right.values <==> key in c.values && c.values[key] == Deleted)
            && ((key in left.values && key in right.values && left.values[key] != right.values[key])
                <==> key in c.values && c.values[key] == Modified)
            && (key in c.values ==> key in left.values || key in right.values)
  {
    ComparedContents(left.values, right.values, UnionKeys(left.keys, right.keys));
  }

  /** Visiting keys that are all in the table, comparing the table with itself, reports nothing. */
  lemma {:induction false} SelfCompareEmpty(t: map<string, int>, keys: seq<string>)
    requires forall k :: k in keys ==> k in t
    ensures Compared(t, t, keys) == Table([], map[])
  {
    if keys != [] {
      SelfCompareEmpty(t, keys[..|keys| - 1]);
    }
  }

  /** Comparing a table with itself reports nothing. */
  lemma SelfDiffEmpty(t: Table<int>)
    requires t.Valid()
    ensures Compared(t.values, t.values, UnionKeys(t.keys, t.keys)) == Table([], map[])
  {
    SelfCompareEmpty(t.values, UnionKeys(t.keys, t.keys));
  }
}
