/**
 * The usage table and class-data table of the Java indexer (java/src/main/java/mcsrc/Indexer.java). The
 * class's static maps and counter are the fields of one `Indexer` object. The ASM visitors that call
 * `addUsage` and `addClassData` are not part of this model: their calls are the inputs. `HashSet` and
 * `HashMap` iteration order is unspecified, so the order the arrays come out in is a parameter.
 */
module JavaIndexer {
  import opened Wrappers
  import opened Strings
  import opened InsertionOrder
  import opened UsageMaps

  /** `isMinecraft`: the key names a Minecraft or Mojang class. */
  predicate IsMinecraft(s: string) {
    StartsWith(s, "net/minecraft") || StartsWith(s, "com/mojang")
  }

  /** The table after `addUsage(key, value)`: a key outside the game's packages changes nothing. */
  function WithUsage(usages: Usages, key: string, value: string): (r: Usages)
    ensures IsMinecraft(key) ==> r.Keys == usages.Keys + {key}
    ensures !IsMinecraft(key) ==> r == usages
  {
    if IsMinecraft(key) then Added(usages, key, value) else usages
  }

  /**
   * After `addUsage(key, value)` a key's values are its earlier values, plus `value` exactly when the
   * key is this one and names a game class: nothing is lost and nothing else is added.
   */
  lemma WithUsageContents(usages: Usages, key: string, value: string, k: string, v: string)
    ensures v in UsagesOf(WithUsage(usages, key, value), k) <==>
              v in UsagesOf(usages, k) || (IsMinecraft(key) && k == key && v == value)
  {
  }

  /** A repeated (key, value) report is stored once. */
  lemma WithUsageIdempotent(usages: Usages, key: string, value: string)
    ensures WithUsage(WithUsage(usages, key, value), key, value) == WithUsage(usages, key, value)
  {
    var once := WithUsage(usages, key, value);
    if IsMinecraft(key) {
      assert UsagesOf(once, key) + {value} == UsagesOf(once, key);
    }
  }

  /** One accepted call adds at most one distinct pair. */
  lemma WithUsagePairs(usages: Usages, key: string, value: string)
    ensures Pairs(WithUsage(usages, key, value)) <= Pairs(usages) + {(key, value)}
    ensures |Pairs(WithUsage(usages, key, value))| <= |Pairs(usages)| + 1
  {
    if IsMinecraft(key) {
      AddedPairs(usages, key, value);
    }
  }

  /** The record `addClassData` keeps for a class. */
  datatype ClassInheritanceInfo = ClassInheritanceInfo(
    className: string, superName: Option<string>, interfaces: seq<string>, accessFlags: int)

  /** `name|super-or-empty|flags|interfaces-joined-by-comma`, the line `getClassData` emits for a class. */
  function ClassDataLine(info: ClassInheritanceInfo): string {
    var superName := if info.superName.Some? then info.superName.value else "";
    Join([info.className, superName, IntToString(info.accessFlags), Join(info.interfaces, ",")], "|")
  }

  /**
   * A line splits back into its four fields when no name holds '|', and the last field splits back into
   * the interfaces when there is at least one and none holds ','. A missing superclass reads back as "".
   */
  lemma ClassDataLineFields(info: ClassInheritanceInfo)
    requires '|' !in info.className
    requires info.superName.Some? ==> '|' !in info.superName.value
    requires forall i :: 0 <= i < |info.interfaces| ==> '|' !in info.interfaces[i] && ',' !in info.interfaces[i]
    ensures var fields := Split(ClassDataLine(info), '|');
            |fields| == 4 && fields[0] == info.className
            && fields[1] == (if info.superName.Some? then info.superName.value else "")
            && fields[2] == IntToString(info.accessFlags)
            && (info.interfaces != [] ==> Split(fields[3], ',') == info.interfaces)
  {
    var superName := if info.superName.Some? then info.superName.value else "";
    var joined := Join(info.interfaces, ",");
    JoinAvoids(info.interfaces, ",", '|');
    var flags := IntToString(info.accessFlags);
    assert '|' !in flags;
    SplitJoin([info.className, superName, flags, joined], '|');
    if info.interfaces != [] {
      SplitJoin(info.interfaces, ',');
    }
  }

  /** A join of parts that avoid a character, with a separator that avoids it, avoids it. */
  lemma {:induction false} JoinAvoids(parts: seq<string>, sep: string, c: char)
    requires c !in sep && forall i :: 0 <= i < |parts| ==> c !in parts[i]
    ensures c !in Join(parts, sep)
  {
    if |parts| > 1 {
      JoinAvoids(parts[1..], sep, c);
    }
  }

  class Indexer {
    var usages: Usages
    var usageSize: int
    var inheritanceData: map<string, ClassInheritanceInfo>

    /**
     * Only game classes are keys, each with at least one value, and the counter of accepted calls is at
     * least the number of distinct pairs stored.
     */
    ghost predicate Valid()
      reads this
    {
      (forall k :: k in usages ==> IsMinecraft(k) && usages[k] != {})
      && |Pairs(usages)| <= usageSize
    }

    constructor()
      ensures Valid() && usages == map[] && usageSize == 0 && inheritanceData == map[]
    {
      usages := map[];
      usageSize := 0;
      inheritanceData := map[];
      assert Pairs(map[]) == {};
    }

    /** `addUsage(key, value)`: record the pair and count the call, for game classes only. */
    method AddUsage(key: string, value: string)
      requires Valid()
      modifies this
      ensures Valid()
      ensures usages == WithUsage(old(usages), key, value)
      ensures usageSize == if IsMinecraft(key) then old(usageSize) + 1 else old(usageSize)
      ensures inheritanceData == old(inheritanceData)
    {
      if !IsMinecraft(key) {
        return;
      }
      WithUsagePairs(usages, key, value);
      var values := if key in usages then usages[key] else {};
      usages := usages[key := values + {value}];
      usageSize := usageSize + 1;
    }

    /** `getUsage(key)`: the values recorded for `key`, each once, in the set's iteration order. */
    method GetUsage(key: string) returns (values: seq<string>)
      ensures Distinct(values)
      ensures forall v :: v in values <==> v in UsagesOf(usages, key)
      ensures key !in usages ==> values == []
    {
      var rest := if key in usages then usages[key] else {};
      values := [];
      while rest != {}
        invariant Distinct(values)
        invariant forall v :: v in values ==> v !in rest
        invariant key !in usages ==> values == []
        invariant forall v :: v in UsagesOf(usages, key) <==> v in values || v in rest
        decreases |rest|
      {
        var v :| v in rest;
        values := values + [v];
        rest := rest - {v};
      }
    }

    /** `getUsageSize()`: the number of accepted `addUsage` calls. */
    method GetUsageSize() returns (size: int)
      requires Valid()
      ensures size == usageSize && size >= |Pairs(usages)|
    {
      size := usageSize;
    }

    /** `addClassData`: the class's record is replaced as a whole; absent interfaces become none. */
    method AddClassData(className: string, superName: Option<string>, interfaces: Option<seq<string>>,
                        accessFlags: int)
      modifies this
      ensures inheritanceData == old(inheritanceData)[className :=
                ClassInheritanceInfo(className, superName, if interfaces.Some? then interfaces.value else [], accessFlags)]
      ensures usages == old(usages) && usageSize == old(usageSize)
    {
      var info := ClassInheritanceInfo(className, superName, if interfaces.Some? then interfaces.value else [], accessFlags);
      inheritanceData := inheritanceData[className := info];
    }

    /**
     * `getClassData()`: one line per recorded class, in `order`, the order the map's values iterate in.
     */
    method GetClassData(order: seq<string>) returns (lines: seq<string>)
      requires Distinct(order) && forall k :: k in order <==> k in inheritanceData
      ensures |lines| == |order| == |inheritanceData|
      ensures forall i :: 0 <= i < |order| ==> lines[i] == ClassDataLine(inheritanceData[order[i]])
    {
      DistinctKeysCard(order, inheritanceData.Keys);
      lines := [];
      for i := 0 to |order|
        invariant |lines| == i
        invariant forall j :: 0 <= j < i ==> lines[j] == ClassDataLine(inheritanceData[order[j]])
      {
        lines := lines + [ClassDataLine(inheritanceData[order[i]])];
      }
    }
  }

  /** A repeat-free listing of a set has one element per member. */
  lemma {:induction false} DistinctKeysCard<K(!new)>(order: seq<K>, keys: set<K>)
    requires Distinct(order) && forall k :: k in order <==> k in keys
    ensures |order| == |keys|
  {
    if order != [] {
      var last := order[|order| - 1];
      var init := order[..|order| - 1];
      assert order == init + [last];
      assert forall k :: k in init <==> k in keys - {last};
      DistinctKeysCard(init, keys - {last});
    }
  }
}
