/**
 * The class-file header reader (src/utils/Classfile.ts): the ClassFile structure of section 4.1 of The Java
 * Virtual Machine Specification, read big-endian up to the interfaces table, with the constant pool of
 * section 4.4. Names are kept as the raw bytes of their CONSTANT_Utf8 entries; UTF-8 decoding is the
 * caller's business.
 */
module Classfile {
  import opened Wrappers
  import opened Archive

  const MAGIC: int := 0xCAFEBABE

  newtype u16 = x: int | 0 <= x < 0x1_0000

  /** One constant-pool slot; `Placeholder` is the `null` at slot 0 and after every Long and Double. */
  datatype ConstantPoolEntry =
    | Utf8(bytes: seq<byte>)
    | Integer(value: int)
    | Float
    | Long(value: int)
    | Double
    | ClassInfo(nameIndex: int)
    | StringInfo(stringIndex: int)
    | Fieldref(classIndex: int, nameAndTypeIndex: int)
    | Methodref(classIndex: int, nameAndTypeIndex: int)
    | InterfaceMethodref(classIndex: int, nameAndTypeIndex: int)
    | NameAndType(nameIndex: int, descriptorIndex: int)
    | MethodHandle(referenceKind: int, referenceIndex: int)
    | MethodType(descriptorIndex: int)
    | Dynamic(bootstrapMethodAttrIndex: int, nameAndTypeIndex: int)
    | InvokeDynamic(bootstrapMethodAttrIndex: int, nameAndTypeIndex: int)
    | Module(nameIndex: int)
    | Package(nameIndex: int)
    | Placeholder

  /** `OutOfBounds` is the RangeError a DataView raises when a read runs past the end of the bytes. */
  datatype ParseError =
    | OutOfBounds
    | InvalidMagic
    | UnknownTag(tag: int)
    | InvalidClassReference
    | InvalidUtf8Reference

  datatype Classfile = Classfile(
    name: seq<byte>,
    superName: Option<seq<byte>>,
    interfaces: seq<seq<byte>>,
    accessFlags: u16)

  /** `(accessFlags & 0x0200) !== 0`, ACC_INTERFACE. */
  function IsInterface(accessFlags: u16): (r: bool)
    ensures r <==> (accessFlags as int / 0x200) % 2 == 1
  {
    (accessFlags as bv16) & 0x0200 != 0
  }

  /** `(accessFlags & 0x0400) !== 0`, ACC_ABSTRACT. */
  function IsAbstract(accessFlags: u16): (r: bool)
    ensures r <==> (accessFlags as int / 0x400) % 2 == 1
  {
    (accessFlags as bv16) & 0x0400 != 0
  }

  predicate CanRead(data: seq<byte>, offset: int, n: nat) {
    0 <= offset && offset + n <= |data|
  }

  function U8(data: seq<byte>, offset: int): int
    requires CanRead(data, offset, 1)
  {
    data[offset] as int
  }

  function U16(data: seq<byte>, offset: int): (r: int)
    requires CanRead(data, offset, 2)
    ensures 0 <= r < 0x1_0000
  {
    data[offset] as int * 0x100 + data[offset + 1] as int
  }

  function U32(data: seq<byte>, offset: int): int
    requires CanRead(data, offset, 4)
  {
    U16(data, offset) * 0x1_0000 + U16(data, offset + 2)
  }

  /** `getInt32`: two's complement. */
  function S32(data: seq<byte>, offset: int): int
    requires CanRead(data, offset, 4)
  {
    var u := U32(data, offset);
    if u >= 0x8000_0000 then u - 0x1_0000_0000 else u
  }

  /** `getBigInt64`: two's complement. */
  function S64(data: seq<byte>, offset: int): int
    requires CanRead(data, offset, 8)
  {
    var u := U32(data, offset) * 0x1_0000_0000 + U32(data, offset + 4);
    if u >= 0x8000_0000_0000_0000 then u - 0x1_0000_0000_0000_0000 else u
  }

  /** `data.slice(from, to)`: clamped to the end of the bytes. */
  function Slice(data: seq<byte>, from: nat, to: nat): (r: seq<byte>)
    requires from <= |data|
  {
    if to <= from then [] else if to <= |data| then data[from..to] else data[from..]
  }

  /** The bytes a tag's entry occupies after the tag byte, except Utf8's `length` bytes; -1 for an unknown tag. */
  function PayloadSize(tag: int): int {
    if tag == 1 then 2
    else if tag == 3 || tag == 4 then 4
    else if tag == 5 || tag == 6 then 8
    else if tag == 7 || tag == 8 || tag == 16 || tag == 19 || tag == 20 then 2
    else if tag == 9 || tag == 10 || tag == 11 || tag == 12 || tag == 17 || tag == 18 then 4
    else if tag == 15 then 3
    else -1
  }

  /**
   * One iteration of the constant-pool loop: the entries pushed (two for Long and Double) and the offset
   * after them.
   */
  function ParseEntry(data: seq<byte>, offset: nat): Result<(seq<ConstantPoolEntry>, nat), ParseError>
  {
    if !CanRead(data, offset, 1) then Err(OutOfBounds)
    else
      var tag := U8(data, offset);
      var p := offset + 1;
      var size := PayloadSize(tag);
      if size < 0 then Err(UnknownTag(tag))
      else if !CanRead(data, p, size) then Err(OutOfBounds)
      else if tag == 1 then
        var length := U16(data, p);
        Ok(([Utf8(Slice(data, p + 2, p + 2 + length))], p + 2 + length))
      else
        var entries :=
          if tag == 3 then [Integer(S32(data, p))]
          else if tag == 4 then [Float]
          else if tag == 5 then [Long(S64(data, p)), Placeholder]
          else if tag == 6 then [Double, Placeholder]
          else if tag == 7 then [ClassInfo(U16(data, p))]
          else if tag == 8 then [StringInfo(U16(data, p))]
          else if tag == 9 then [Fieldref(U16(data, p), U16(data, p + 2))]
          else if tag == 10 then [Methodref(U16(data, p), U16(data, p + 2))]
          else if tag == 11 then [InterfaceMethodref(U16(data, p), U16(data, p + 2))]
          else if tag == 12 then [NameAndType(U16(data, p), U16(data, p + 2))]
          else if tag == 15 then [MethodHandle(U8(data, p), U16(data, p + 1))]
          else if tag == 16 then [MethodType(U16(data, p))]
          else if tag == 17 then [Dynamic(U16(data, p), U16(data, p + 2))]
          else if tag == 18 then [InvokeDynamic(U16(data, p), U16(data, p + 2))]
          else if tag == 19 then [Module(U16(data, p))]
          else [Package(U16(data, p))];
        Ok((entries, p + size))
  }

  /** The constant-pool loop from slot `i` on: the finished pool and the offset after it. */
  function ParsePool(data: seq<byte>, offset: nat, i: nat, count: int, pool: seq<ConstantPoolEntry>)
    : Result<(seq<ConstantPoolEntry>, nat), ParseError>
    decreases count - i
  {
    if i >= count then Ok((pool, offset))
    else
      match ParseEntry(data, offset)
      case Err(e) => Err(e)
      case Ok((entries, next)) =>
        if |entries| == 0 then Err(OutOfBounds)
        else ParsePool(data, next, i + |entries|, count, pool + entries)
  }

  /** `getClassName`: a CONSTANT_Class slot whose name index is a CONSTANT_Utf8 slot. */
  function ClassName(pool: seq<ConstantPoolEntry>, index: int): (r: Result<seq<byte>, ParseError>)
    ensures r.Ok? <==>
              0 <= index < |pool| && pool[index].ClassInfo?
              && 0 <= pool[index].nameIndex < |pool| && pool[pool[index].nameIndex].Utf8?
    ensures r.Ok? ==> r.value == pool[pool[index].nameIndex].bytes
    ensures r.Err? ==> r.error == (if 0 <= index < |pool| && pool[index].ClassInfo?
                                   then InvalidUtf8Reference else InvalidClassReference)
  {
    if !(0 <= index < |pool|) || !pool[index].ClassInfo? then Err(InvalidClassReference)
    else
      var nameIndex := pool[index].nameIndex;
      if !(0 <= nameIndex < |pool|) || !pool[nameIndex].Utf8? then Err(InvalidUtf8Reference)
      else Ok(pool[nameIndex].bytes)
  }

  /** The interfaces loop: `n` u16 class indexes from `offset`, each read and then resolved. */
  function ParseInterfaces(data: seq<byte>, pool: seq<ConstantPoolEntry>, offset: nat, n: nat)
    : Result<seq<seq<byte>>, ParseError>
    decreases n
  {
    if n == 0 then Ok([])
    else if !CanRead(data, offset, 2) then Err(OutOfBounds)
    else
      match ClassName(pool, U16(data, offset))
      case Err(e) => Err(e)
      case Ok(name) =>
        match ParseInterfaces(data, pool, offset + 2, n - 1)
        case Err(e) => Err(e)
        case Ok(rest) => Ok([name] + rest)
  }

  /** Everything after the constant pool: flags, this_class, super_class, interfaces. */
  function ParseAfterPool(data: seq<byte>, pool: seq<ConstantPoolEntry>, offset: nat): Result<Classfile, ParseError>
  {
    if !CanRead(data, offset, 4) then Err(OutOfBounds)
    else
      var accessFlags := U16(data, offset) as u16;
      match ClassName(pool, U16(data, offset + 2))
      case Err(e) => Err(e)
      case Ok(name) =>
        if !CanRead(data, offset + 4, 2) then Err(OutOfBounds)
        else
          var superIndex := U16(data, offset + 4);
          var superName := if superIndex == 0 then Ok(None) else
            match ClassName(pool, superIndex)
            case Err(e) => Err(e)
            case Ok(s) => Ok(Some(s));
          if superName.Err? then Err(superName.error)
          else if !CanRead(data, offset + 6, 2) then Err(OutOfBounds)
          else
            match ParseInterfaces(data, pool, offset + 8, U16(data, offset + 6))
            case Err(e) => Err(e)
            case Ok(interfaces) => Ok(Classfile(name, superName.value, interfaces, accessFlags))
  }

  /** What `parseClassfile` returns or throws for `data`. */
  function Parse(data: seq<byte>): Result<Classfile, ParseError>
  {
    if !CanRead(data, 0, 4) then Err(OutOfBounds)
    else if U32(data, 0) != MAGIC then Err(InvalidMagic)
    else if !CanRead(data, 8, 2) then Err(OutOfBounds)
    else
      match ParsePool(data, 10, 1, U16(data, 8), [Placeholder])
      case Err(e) => Err(e)
      case Ok((pool, offset)) => ParseAfterPool(data, pool, offset)
  }

  /** The constant-pool loop of `parseClassfile`: `count - 1` slots read from offset 10. */
  method ReadConstantPool(data: seq<byte>, count: int) returns (r: Result<(seq<ConstantPoolEntry>, nat), ParseError>)
    ensures r == ParsePool(data, 10, 1, count, [Placeholder])
  {
    var offset: nat := 10;
    var pool := [Placeholder];
    var i: nat := 1;
    while i < count
      invariant ParsePool(data, offset, i, count, pool) == ParsePool(data, 10, 1, count, [Placeholder])
      decreases count - i
    {
      var step := ParseEntry(data, offset);
      if step.Err? {
        return Err(step.error);
      }
      var (entries, next) := step.value;
      if |entries| == 0 {
        return Err(OutOfBounds);
      }
      pool := pool + entries;
      offset := next;
      i := i + |entries|;
    }
    r := Ok((pool, offset));
  }

  /** The interfaces loop of `parseClassfile`: `n` class indexes from `start`, resolved one by one. */
  method ReadInterfaces(data: seq<byte>, pool: seq<ConstantPoolEntry>, start: nat, n: nat)
    returns (r: Result<seq<seq<byte>>, ParseError>)
    ensures r == ParseInterfaces(data, pool, start, n)
  {
    var offset := start;
    var interfaces: seq<seq<byte>> := [];
    var k := 0;
    match ParseInterfaces(data, pool, offset, n) {
      case Ok(rest) => assert interfaces + rest == rest;
      case Err(_) =>
    }
    while k < n
      invariant 0 <= k <= n && offset == start + 2 * k
      invariant ParseInterfaces(data, pool, start, n) ==
                match ParseInterfaces(data, pool, offset, n - k)
                case Err(e) => Err(e)
                case Ok(rest) => Ok(interfaces + rest)
    {
      if !CanRead(data, offset, 2) {
        return Err(OutOfBounds);
      }
      var interfaceIndex := U16(data, offset);
      offset := offset + 2;
      var name := ClassName(pool, interfaceIndex);
      if name.Err? {
        return Err(name.error);
      }
      match ParseInterfaces(data, pool, offset, n - k - 1) {
        case Ok(rest) => assert interfaces + ([name.value] + rest) == (interfaces + [name.value]) + rest;
        case Err(_) =>
      }
      interfaces := interfaces + [name.value];
      k := k + 1;
    }
    assert interfaces + [] == interfaces;
    r := Ok(interfaces);
  }

  /** `parseClassfile`: a cursor over the bytes, the constant-pool loop, then the interfaces loop. */
  method ParseClassfile(data: seq<byte>) returns (r: Result<Classfile, ParseError>)
    ensures r == Parse(data)
  {
    var offset := 0;
    if !CanRead(data, offset, 4) {
      return Err(OutOfBounds);
    }
    var magic := U32(data, offset);
    offset := offset + 4;
    if magic != MAGIC {
      return Err(InvalidMagic);
    }
    offset := offset + 4; // minor and major version
    if !CanRead(data, offset, 2) {
      return Err(OutOfBounds);
    }
    var count := U16(data, offset);
    var poolResult := ReadConstantPool(data, count);
    if poolResult.Err? {
      return Err(poolResult.error);
    }
    var pool;
    pool, offset := poolResult.value.0, poolResult.value.1;

    if !CanRead(data, offset, 4) {
      return Err(OutOfBounds);
    }
    var accessFlags := U16(data, offset) as u16;
    var thisClass := U16(data, offset + 2);
    var name := ClassName(pool, thisClass);
    if name.Err? {
      return Err(name.error);
    }
    if !CanRead(data, offset + 4, 2) {
      return Err(OutOfBounds);
    }
    var superClassIndex := U16(data, offset + 4);
    var superName: Option<seq<byte>> := None;
    if superClassIndex != 0 {
      var s := ClassName(pool, superClassIndex);
      if s.Err? {
        return Err(s.error);
      }
      superName := Some(s.value);
    }
    if !CanRead(data, offset + 6, 2) {
      return Err(OutOfBounds);
    }
    var interfacesCount := U16(data, offset + 6);
    var interfaces := ReadInterfaces(data, pool, offset + 8, interfacesCount);
    if interfaces.Err? {
      return Err(interfaces.error);
    }
    r := Ok(Classfile(name.value, superName, interfaces.value, accessFlags));
  }

  /** Parsing succeeds only on bytes that start with 0xCAFEBABE; any other first word is InvalidMagic. */
  lemma MagicChecked(data: seq<byte>)
    ensures Parse(data).Ok? ==> CanRead(data, 0, 4) && U32(data, 0) == MAGIC
    ensures CanRead(data, 0, 4) && U32(data, 0) != MAGIC ==> Parse(data) == Err(InvalidMagic)
  {
  }

  /**
   * Each entry consumes its tag byte plus the tag's fixed payload (Utf8: the u16 length plus that many
   * bytes); an unknown tag is an error naming it.
   */
  lemma EntrySize(data: seq<byte>, offset: nat)
    requires CanRead(data, offset, 1)
    ensures PayloadSize(U8(data, offset)) < 0 ==> ParseEntry(data, offset) == Err(UnknownTag(U8(data, offset)))
    ensures ParseEntry(data, offset).Ok? ==>
              var size := PayloadSize(U8(data, offset));
              var extra := if U8(data, offset) == 1 then U16(data, offset + 1) else 0;
              ParseEntry(data, offset).value.1 == offset + 1 + size + extra
  {
  }

  /** Exactly the seventeen tags of section 4.4 are known. */
  lemma KnownTags(tag: int)
    ensures PayloadSize(tag) >= 0 <==> tag in {1, 3, 4, 5, 6, 7, 8, 9, 10, 11, 12, 15, 16, 17, 18, 19, 20}
  {
  }

  /** Long and Double entries are followed by a placeholder slot; every other entry fills one slot. */
  ghost predicate WideFollowed(pool: seq<ConstantPoolEntry>) {
    forall j :: 0 <= j < |pool| && (pool[j].Long? || pool[j].Double?) ==> j + 1 < |pool| && pool[j + 1].Placeholder?
  }

  lemma EntryShape(data: seq<byte>, offset: nat)
    ensures ParseEntry(data, offset).Ok? ==>
              var es := ParseEntry(data, offset).value.0;
              (|es| == 1 && !es[0].Long? && !es[0].Double? && !es[0].Placeholder?)
              || (|es| == 2 && (es[0].Long? || es[0].Double?) && es[1].Placeholder?)
  {
  }

  /**
   * The pool is 1-indexed: slot 0 stays the placeholder, the loop fills at least `count` slots (one more
   * when a Long or Double takes the last index) and every wide entry keeps its second slot.
   */
  lemma {:induction false} PoolShape(data: seq<byte>, offset: nat, i: nat, count: int, pool: seq<ConstantPoolEntry>)
    requires |pool| == i >= 1 && pool[0].Placeholder? && WideFollowed(pool)
    requires ParsePool(data, offset, i, count, pool).Ok?
    ensures var p := ParsePool(data, offset, i, count, pool).value.0;
            |p| >= |pool| && p[..|pool|] == pool
            && p[0].Placeholder? && |p| >= count && (count > i ==> |p| <= count + 1) && WideFollowed(p)
    decreases count - i
  {
    if i < count {
      EntryShape(data, offset);
      var (entries, next) := ParseEntry(data, offset).value;
      var pool' := pool + entries;
      assert pool'[..|pool|] == pool;
      PoolShape(data, next, i + |entries|, count, pool');
    }
  }

  /** The interfaces are exactly `interfaces_count` resolved names, in the order of their indexes. */
  lemma {:induction false} InterfacesResolved(data: seq<byte>, pool: seq<ConstantPoolEntry>, offset: nat, n: nat)
    requires ParseInterfaces(data, pool, offset, n).Ok?
    ensures var names := ParseInterfaces(data, pool, offset, n).value;
            |names| == n
            && forall j :: 0 <= j < n ==>
                 CanRead(data, offset + 2 * j, 2) && ClassName(pool, U16(data, offset + 2 * j)) == Ok(names[j])
    decreases n
  {
    if n > 0 {
      InterfacesResolved(data, pool, offset + 2, n - 1);
      var names := ParseInterfaces(data, pool, offset, n).value;
      forall j | 1 <= j < n
        ensures CanRead(data, offset + 2 * j, 2) && ClassName(pool, U16(data, offset + 2 * j)) == Ok(names[j])
      {
        assert offset + 2 * j == (offset + 2) + 2 * (j - 1);
      }
    }
  }

  /**
   * The fields after the pool: the access flags are the u16 at the pool's end, a super_class of 0 means no
   * superclass and any other index is resolved, and the class's own name is this_class resolved.
   */
  lemma AfterPoolFields(data: seq<byte>, pool: seq<ConstantPoolEntry>, offset: nat)
    requires ParseAfterPool(data, pool, offset).Ok?
    ensures var cf := ParseAfterPool(data, pool, offset).value;
            CanRead(data, offset, 8)
            && cf.accessFlags as int == U16(data, offset)
            && ClassName(pool, U16(data, offset + 2)) == Ok(cf.name)
            && (cf.superName.None? <==> U16(data, offset + 4) == 0)
            && (cf.superName.Some? ==> ClassName(pool, U16(data, offset + 4)) == Ok(cf.superName.value))
            && |cf.interfaces| == U16(data, offset + 6)
  {
    InterfacesResolved(data, pool, offset + 8, U16(data, offset + 6));
  }
}
