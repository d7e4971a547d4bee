/**
 * The editor context-menu actions of src/ui/CodeContextActions.ts, as the text each one produces for the
 * token under the cursor: the Class Tweaker (access widener) entry, the Mixin target, the find-usages key
 * and the class whose inheritance to show. An `Err` carries the message shown instead.
 */
module CodeContextActions {
  import opened Wrappers
  import opened Strings
  import opened Tokens

  const NOT_A_MEMBER := "Token is not a class, field, or method."

  /** The token kinds the copy and find actions accept. */
  predicate IsMemberKind(kind: TokenType) {
    kind == ClassToken || kind == FieldToken || kind == MethodToken
  }

  /** The copy-AW action: `accessible class C`, `accessible field C N D` or `accessible method C N D`. */
  function CopyAw(token: Option<Token>): Result<string, string> {
    match token
    case None => Err("Failed to find token for Class Tweaker entry.")
    case Some(t) =>
      match t.kind
      case ClassToken => Ok("accessible class " + t.className)
      case FieldToken => Ok("accessible field " + t.className + " " + Spliced(t.name) + " " + Spliced(t.descriptor))
      case MethodToken => Ok("accessible method " + t.className + " " + Spliced(t.name) + " " + Spliced(t.descriptor))
      case _ => Err(NOT_A_MEMBER)
  }

  /** The copy-Mixin action: `C`, `LC;N:D` for a field, `LC;ND` for a method. */
  function CopyMixin(token: Option<Token>): Result<string, string> {
    match token
    case None => Err("Failed to find token for Mixin target.")
    case Some(t) =>
      match t.kind
      case ClassToken => Ok(t.className)
      case FieldToken => Ok("L" + t.className + ";" + Spliced(t.name) + ":" + Spliced(t.descriptor))
      case MethodToken => Ok("L" + t.className + ";" + Spliced(t.name) + Spliced(t.descriptor))
      case _ => Err(NOT_A_MEMBER)
  }

  /** The find-usages action's query: `C` for a class, `C:N:D` for a field or a method. */
  function FindUsagesKey(token: Option<Token>): Result<string, string> {
    match token
    case None => Err("Failed to find token for usages.")
    case Some(t) =>
      match t.kind
      case ClassToken => Ok(t.className)
      case FieldToken => Ok(t.className + ":" + Spliced(t.name) + ":" + Spliced(t.descriptor))
      case MethodToken => Ok(t.className + ":" + Spliced(t.name) + ":" + Spliced(t.descriptor))
      case _ => Err(NOT_A_MEMBER)
  }

  /** The view-inheritance action's class: the decompiled file's name with its first `.class` removed. */
  function InheritanceClassName(className: string): string {
    ReplaceFirst(className, ".class", "")
  }

  /**
   * Each copy or find action produces text exactly for class, field and method tokens; a missing token,
   * a parameter or a local yields an error message and nothing to copy or query.
   */
  lemma ActionsAcceptMembersOnly(token: Option<Token>)
    ensures CopyAw(token).Ok? <==> token.Some? && IsMemberKind(token.value.kind)
    ensures CopyMixin(token).Ok? <==> token.Some? && IsMemberKind(token.value.kind)
    ensures FindUsagesKey(token).Ok? <==> token.Some? && IsMemberKind(token.value.kind)
    ensures token.Some? && !IsMemberKind(token.value.kind) ==>
              CopyAw(token) == CopyMixin(token) == FindUsagesKey(token) == Err(NOT_A_MEMBER)
  {
  }

  /** The words of `a b c ...` separated by single spaces, when no word holds a space. */
  lemma WordsOf(words: seq<string>)
    requires |words| >= 1 && forall i :: 0 <= i < |words| ==> ' ' !in words[i]
    ensures Split(Join(words, " "), ' ') == words
  {
    SplitJoin(words, ' ');
  }

  /**
   * A field or method entry splits on spaces back into `accessible`, the kind, the class, the name and
   * the descriptor, whenever none of those holds a space.
   */
  lemma AwEntryFields(t: Token)
    requires t.kind == FieldToken || t.kind == MethodToken
    requires t.name.Some? && t.descriptor.Some?
    requires ' ' !in t.className && ' ' !in t.name.value && ' ' !in t.descriptor.value
    ensures Split(CopyAw(Some(t)).value, ' ')
            == ["accessible", TypeName(t.kind), t.className, t.name.value, t.descriptor.value]
  {
    var kind := TypeName(t.kind);
    assert ' ' !in kind;
    if t.kind == FieldToken {
      assert "accessible field " == "accessible" + " " + "field" + " ";
    } else {
      assert "accessible method " == "accessible" + " " + "method" + " ";
    }
    FiveWords("accessible", kind, t.className, t.name.value, t.descriptor.value);
  }

  lemma FiveWords(a: string, b: string, c: string, d: string, e: string)
    requires ' ' !in a && ' ' !in b && ' ' !in c && ' ' !in d && ' ' !in e
    ensures Split(a + " " + b + " " + c + " " + d + " " + e, ' ') == [a, b, c, d, e]
  {
    SplitWithout(a, ' ');
    SplitAppendWord(a, ' ', b);
    SplitAppendWord(a + " " + b, ' ', c);
    SplitAppendWord(a + " " + b + " " + c, ' ', d);
    SplitAppendWord(a + " " + b + " " + c + " " + d, ' ', e);
  }

  /** A class entry splits on spaces into `accessible`, `class` and the class. */
  lemma AwClassEntryFields(t: Token)
    requires t.kind == ClassToken && ' ' !in t.className
    ensures Split(CopyAw(Some(t)).value, ' ') == ["accessible", "class", t.className]
  {
    var words := ["accessible", "class", t.className];
    assert Join(words[2..], " ") == t.className;
    assert Join(words, " ") == CopyAw(Some(t)).value;
    WordsOf(words);
  }

  /**
   * A member's Mixin target reads back: after `L`, the owner runs up to the first ';', and what follows is
   * the name then the descriptor, separated by ':' for a field and joined directly for a method.
   */
  lemma MixinTargetParts(t: Token)
    requires t.kind == FieldToken || t.kind == MethodToken
    requires t.name.Some? && t.descriptor.Some?
    requires ';' !in t.className
    ensures var target := CopyMixin(Some(t)).value;
            var sep := if t.kind == FieldToken then ":" else "";
            && target[0] == 'L'
            && BeforeFirst(target[1..], ';') == t.className
            && target[|t.className| + 2..] == t.name.value + sep + t.descriptor.value
  {
    var target := CopyMixin(Some(t)).value;
    var sep := if t.kind == FieldToken then ":" else "";
    var rest := t.name.value + sep + t.descriptor.value;
    assert target == "L" + t.className + ";" + rest;
    assert target[1..] == t.className + ";" + rest;
    BeforeFirstIs(target[1..], ';', t.className);
  }

  /** A field's name comes back from the Mixin target's tail when the name holds no ':'. */
  lemma MixinFieldName(name: string, descriptor: string)
    requires ':' !in name
    ensures BeforeFirst(name + ":" + descriptor, ':') == name
  {
    BeforeFirstIs(name + ":" + descriptor, ':', name);
  }

  /** A member's usage key splits on ':' into class, name and descriptor when none of them holds ':'. */
  lemma UsageKeyFields(t: Token)
    requires t.kind == FieldToken || t.kind == MethodToken
    requires t.name.Some? && t.descriptor.Some?
    requires ':' !in t.className && ':' !in t.name.value && ':' !in t.descriptor.value
    ensures Split(FindUsagesKey(Some(t)).value, ':') == [t.className, t.name.value, t.descriptor.value]
  {
    var parts := [t.className, t.name.value, t.descriptor.value];
    assert Join(parts[2..], ":") == t.descriptor.value;
    assert Join(parts, ":") == FindUsagesKey(Some(t)).value;
    SplitJoin(parts, ':');
  }

  /**
   * The inheritance view shows `C` for the file `C.class` when `.class` occurs only at its end, and leaves
   * a name without `.class` unchanged.
   */
  lemma InheritanceClassNameOfFile(c: string)
    ensures IndexOf(c + ".class", ".class") == |c| ==> InheritanceClassName(c + ".class") == c
    ensures IndexOf(c, ".class") < 0 ==> InheritanceClassName(c) == c
  {
    if IndexOf(c + ".class", ".class") == |c| {
      RemoveLastOnly(c, ".class");
    }
  }
}
