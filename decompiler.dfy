/**
 * The decompiler front end (src/logic/Decompiler.ts): the per-emission cache lookup keyed by version,
 * class and lambda display, the busy counter around each decompilation, the token list the decompiler
 * reports plus the tokens synthesised from import lines, and the class selection for bytecode view.
 * The decompiler and the bytecode printer are parameters.
 */
module Decompiler {
  import opened Wrappers
  import opened Strings
  import opened Sorting
  import opened Tokens
  import opened Archive
  import opened InsertionOrder

  datatype Language = Java | Bytecode

  datatype DecompileResult = DecompileResult(className: string, source: string, tokens: seq<Token>, language: Language)

  const CACHE_LIMIT: nat := 75

  /** One callback the decompiler makes on its token collector, with the arguments the collector keeps. */
  datatype Visit =
    | VisitClass(start: int, length: int, declaration: bool, name: string)
    | VisitField(start: int, length: int, declaration: bool, className: string, name: string, descriptor: string)
    | VisitMethod(start: int, length: int, declaration: bool, className: string, name: string, descriptor: string)
    | VisitParameter(start: int, length: int, declaration: bool, className: string)
    | VisitLocal(start: int, length: int, declaration: bool, className: string)

  /** What a call of the decompiler does: returns the source after its callbacks, or throws. */
  datatype EngineOutcome = Decompiled(source: string, visits: seq<Visit>) | Threw(message: string)

  /**
   * The decompiler, given the class name without `.class`, the resource names, whether lambda markers are
   * on, and the archive its `source` callback reads.
   */
  type Engine = (string, seq<string>, bool, Jar) -> EngineOutcome

  /** The bytecode printer, given the bytes of the classes to print; it returns text or throws. */
  type BytecodePrinter = seq<seq<byte>> -> Result<string, string>

  // ----- cache key -----

  function CacheKey(version: string, className: string, displayLambdas: bool): (r: string)
  {
    version + ":" + className + (if displayLambdas then ":lambdas" else "")
  }

  /** The text before the first ':' of `v + ":" + t` is `v` when `v` holds no ':'. */
  lemma SplitAtFirstColon(v1: string, t1: string, v2: string, t2: string)
    requires ':' !in v1 && ':' !in v2
    requires v1 + ":" + t1 == v2 + ":" + t2
    ensures v1 == v2 && t1 == t2
  {
    var k := v1 + ":" + t1;
    IndexOfCharAfter(v1, ':', t1);
    IndexOfCharAfter(v2, ':', t2);
    assert |v1| == |v2|;
    assert v1 == k[..|v1|];
    assert v2 == k[..|v2|];
    assert t1 == k[|v1| + 1..];
  }

  /** A class path ending in `.class` never ends in `:lambdas`. */
  lemma ClassNotLambdas(c: string, d: string)
    requires EndsWith(d, ".class")
    ensures d != c + ":lambdas"
  {
    var e := c + ":lambdas";
    assert e[|e| - 6] == 'a';
    assert d[|d| - 6..] == ".class";
    assert d[|d| - 6] == '.';
  }

  lemma LambdaSuffixDistinct(c1: string, l1: bool, c2: string, l2: bool)
    requires EndsWith(c1, ".class") && EndsWith(c2, ".class")
    requires c1 + (if l1 then ":lambdas" else "") == c2 + (if l2 then ":lambdas" else "")
    ensures c1 == c2 && l1 == l2
  {
    var t := c1 + (if l1 then ":lambdas" else "");
    ClassNotLambdas(c1, c2);
    ClassNotLambdas(c2, c1);
    assert |c1| == |c2|;
    assert c1 == t[..|c1|];
  }

  /**
   * For a version without ':' and a class path ending in `.class`, the key determines the version, the
   * class and the lambda flag, so different requests never share a cache entry.
   */
  lemma CacheKeyInjective(v1: string, c1: string, l1: bool, v2: string, c2: string, l2: bool)
    requires ':' !in v1 && ':' !in v2
    requires EndsWith(c1, ".class") && EndsWith(c2, ".class")
    requires CacheKey(v1, c1, l1) == CacheKey(v2, c2, l2)
    ensures v1 == v2 && c1 == c2 && l1 == l2
  {
    var t1 := c1 + (if l1 then ":lambdas" else "");
    var t2 := c2 + (if l2 then ":lambdas" else "");
    assert CacheKey(v1, c1, l1) == v1 + ":" + t1;
    assert CacheKey(v2, c2, l2) == v2 + ":" + t2;
    SplitAtFirstColon(v1, t1, v2, t2);
    LambdaSuffixDistinct(c1, l1, c2, l2);
  }

  // ----- result shapes -----

  function NotFound(className: string, language: Language): (r: DecompileResult)
    ensures r.className == className && r.tokens == [] && r.language == language
    ensures r.source == "// Class not found: " + className
  {
    DecompileResult(className, "// Class not found: " + className, [], language)
  }

  // ----- token collection -----

  /** The token each collector callback pushes; parameter and local tokens drop the member details. */
  function TokenOf(v: Visit): (t: Token)
    ensures t.start == v.start && t.length == v.length && t.declaration == v.declaration
    ensures t.kind == ClassToken <==> v.VisitClass?
    ensures t.kind == FieldToken <==> v.VisitField?
    ensures t.kind == MethodToken <==> v.VisitMethod?
    ensures t.kind == ParameterToken <==> v.VisitParameter?
    ensures t.kind == LocalToken <==> v.VisitLocal?
    ensures t.name.Some? <==> (v.VisitField? || v.VisitMethod?)
    ensures t.descriptor.Some? <==> (v.VisitField? || v.VisitMethod?)
    ensures v.VisitClass? ==> t.className == v.name
    ensures !v.VisitClass? ==> t.className == v.className
    ensures v.VisitField? || v.VisitMethod? ==> t.name == Some(v.name) && t.descriptor == Some(v.descriptor)
  {
    match v
    case VisitClass(start, length, declaration, name) => Token(ClassToken, start, length, name, declaration, None, None)
    case VisitField(start, length, declaration, className, name, descriptor) =>
      Token(FieldToken, start, length, className, declaration, Some(name), Some(descriptor))
    case VisitMethod(start, length, declaration, className, name, descriptor) =>
      Token(MethodToken, start, length, className, declaration, Some(name), Some(descriptor))
    case VisitParameter(start, length, declaration, className) =>
      Token(ParameterToken, start, length, className, declaration, None, None)
    case VisitLocal(start, length, declaration, className) =>
      Token(LocalToken, start, length, className, declaration, None, None)
  }

  /** `tokenCollector(tokens)`: every callback, in call order, pushes one token. */
  method CollectTokens(visits: seq<Visit>) returns (tokens: seq<Token>)
    ensures |tokens| == |visits|
    ensures forall i :: 0 <= i < |visits| ==> tokens[i] == TokenOf(visits[i])
  {
    tokens := [];
    var i := 0;
    while i < |visits|
      invariant 0 <= i <= |visits| && |tokens| == i
      invariant forall j :: 0 <= j < i ==> tokens[j] == TokenOf(visits[j])
    {
      tokens := tokens + [TokenOf(visits[i])];
      i := i + 1;
    }
  }

  function CollectedTokens(visits: seq<Visit>): (r: seq<Token>)
    ensures |r| == |visits|
    ensures forall i :: 0 <= i < |visits| ==> r[i] == TokenOf(visits[i])
  {
    seq(|visits|, i requires 0 <= i < |visits| => TokenOf(visits[i]))
  }

  // ----- import tokens: /^\s*import\s+(?!static\b)([^\s;]+)\s*;/gm -----

  /** The characters after which `^` matches in multiline mode. */
  predicate IsLineTerminator(c: char) {
    c == '\n' || c == '\r' || c == '\U{2028}' || c == '\U{2029}'
  }

  predicate AtLineStart(s: string, p: int) {
    p == 0 || (0 < p <= |s| && IsLineTerminator(s[p - 1]))
  }

  /** `\w`, for the `\b` after `static`. */
  predicate IsWordChar(c: char) {
    ('a' <= c <= 'z') || ('A' <= c <= 'Z') || ('0' <= c <= '9') || c == '_'
  }

  /** A character of `[^\s;]`. */
  predicate IsPathChar(c: char) {
    !IsSpace(c) && c != ';'
  }

  /** The end of the longest run of `\s` from `p`. */
  function SkipSpaces(s: string, p: nat): (r: nat)
    requires p <= |s|
    ensures p <= r <= |s|
    decreases |s| - p
  {
    if p < |s| && IsSpace(s[p]) then SkipSpaces(s, p + 1) else p
  }

  /** The end of the longest run of `[^\s;]` from `p`. */
  function SkipPath(s: string, p: nat): (r: nat)
    requires p <= |s|
    ensures p <= r <= |s|
    decreases |s| - p
  {
    if p < |s| && IsPathChar(s[p]) then SkipPath(s, p + 1) else p
  }

  lemma {:induction false} SkipSpacesSpan(s: string, p: nat)
    requires p <= |s|
    ensures forall i :: p <= i < SkipSpaces(s, p) ==> IsSpace(s[i])
    ensures SkipSpaces(s, p) < |s| ==> !IsSpace(s[SkipSpaces(s, p)])
    decreases |s| - p
  {
    if p < |s| && IsSpace(s[p]) {
      SkipSpacesSpan(s, p + 1);
    }
  }

  lemma {:induction false} SkipPathSpan(s: string, p: nat)
    requires p <= |s|
    ensures forall i :: p <= i < SkipPath(s, p) ==> IsPathChar(s[i])
    ensures SkipPath(s, p) < |s| ==> !IsPathChar(s[SkipPath(s, p)])
    decreases |s| - p
  {
    if p < |s| && IsPathChar(s[p]) {
      SkipPathSpan(s, p + 1);
    }
  }

  /** A match: `index` where it starts, `end` after the ';', and the capture group `path`. */
  datatype ImportMatch = ImportMatch(index: nat, end: nat, pathStart: nat, pathEnd: nat)

  /**
   * The pattern tried at `p`. Every quantifier in it either takes its longest run or the match fails, since
   * shortening a run leaves a character the next part of the pattern cannot start with.
   */
  function MatchAt(s: string, p: nat): (r: Option<ImportMatch>)
    requires p <= |s|
    ensures r.Some? ==> r.value.index == p && p < r.value.pathStart < r.value.pathEnd < r.value.end <= |s|
  {
    var a := SkipSpaces(s, p);
    if !OccursAt(s, "import", a) then None
    else
      var b := SkipSpaces(s, a + 6);
      if b == a + 6 then None
      else if OccursAt(s, "static", b) && (b + 6 == |s| || !IsWordChar(s[b + 6])) then None
      else
        var c := SkipPath(s, b);
        if c == b then None
        else
          var d := SkipSpaces(s, c);
          if d < |s| && s[d] == ';' then Some(ImportMatch(p, d + 1, b, c)) else None
  }

  /**
   * What a match covers: the capture group is a run of `[^\s;]` that is not the keyword `static`, and only
   * space separates it from the closing ';'.
   */
  lemma MatchShape(s: string, p: nat)
    requires p <= |s| && MatchAt(s, p).Some?
    ensures var m := MatchAt(s, p).value;
            (forall i :: m.pathStart <= i < m.pathEnd ==> IsPathChar(s[i]))
            && (forall i :: m.pathEnd <= i < m.end - 1 ==> IsSpace(s[i]))
            && s[m.end - 1] == ';'
            && OccursAt(s, "import", SkipSpaces(s, p))
            && !(OccursAt(s, "static", m.pathStart) && (m.pathStart + 6 == |s| || !IsWordChar(s[m.pathStart + 6])))
  {
    var m := MatchAt(s, p).value;
    SkipPathSpan(s, m.pathStart);
    SkipSpacesSpan(s, m.pathEnd);
  }

  /** `importRegex.exec(source)` with `lastIndex == from`: the first line start at or after `from` that matches. */
  function NextMatch(s: string, from: nat): (r: Option<ImportMatch>)
    requires from <= |s|
    ensures r.Some? ==> from <= r.value.index <= |s| && MatchAt(s, r.value.index) == r
    decreases |s| - from
  {
    if AtLineStart(s, from) && MatchAt(s, from).Some? then MatchAt(s, from)
    else if from == |s| then None
    else NextMatch(s, from + 1)
  }

  /** exec returns the first line start from `lastIndex` on where the pattern matches. */
  lemma {:induction false} NextMatchIsFirst(s: string, from: nat)
    requires from <= |s|
    ensures NextMatch(s, from).Some? ==> AtLineStart(s, NextMatch(s, from).value.index)
    ensures forall p :: from <= p <= |s| && AtLineStart(s, p) && MatchAt(s, p).Some? ==>
              NextMatch(s, from).Some? && NextMatch(s, from).value.index <= p
    decreases |s| - from
  {
    if !(AtLineStart(s, from) && MatchAt(s, from).Some?) && from < |s| {
      NextMatchIsFirst(s, from + 1);
      assert NextMatch(s, from) == NextMatch(s, from + 1);
    }
  }

  /** The slash form of the capture group. */
  function ImportPath(s: string, m: ImportMatch): string
    requires m.pathStart <= m.pathEnd <= |s|
  {
    ReplaceChar(s[m.pathStart..m.pathEnd], '.', '/')
  }

  /** The token one match yields; none for a wildcard import. */
  function ImportToken(s: string, m: ImportMatch): (r: Option<Token>)
    requires m.index <= m.pathStart <= m.pathEnd <= m.end <= |s|
    ensures r.Some? ==> r.value.kind == ClassToken && !r.value.declaration && r.value.name.None?
                        && r.value.className == ImportPath(s, m) && !EndsWith(r.value.className, "*")
  {
    var importPath := ImportPath(s, m);
    if EndsWith(importPath, "*") then None
    else
      var className := AfterLast(importPath, '/');
      Some(Token(ClassToken, m.index + LastIndexOf(s[m.index..m.end], className),
                 |importPath| - LastIndexOf(importPath, className), importPath, false, None, None))
  }


  /** The bounds every match respects. */
  predicate Fits(s: string, m: ImportMatch) {
    m.index < m.pathStart < m.pathEnd < m.end <= |s|
  }

  /** The matches the `exec` loop visits from `lastIndex == from` on, in order. */
  function Matches(s: string, from: nat): (r: seq<ImportMatch>)
    requires from <= |s|
    decreases |s| - from
  {
    match NextMatch(s, from)
    case None => []
    case Some(m) => [m] + Matches(s, m.end)
  }

  /** Each visited match lies within the text, after `from`. */
  lemma {:induction false} MatchesFit(s: string, from: nat)
    requires from <= |s|
    ensures forall i :: 0 <= i < |Matches(s, from)| ==> from <= Matches(s, from)[i].index && Fits(s, Matches(s, from)[i])
    decreases |s| - from
  {
    match NextMatch(s, from)
    case None =>
    case Some(m) =>
      MatchesFit(s, m.end);
      assert Matches(s, from) == [m] + Matches(s, m.end);
  }

  /** Each visited match is a match of the pattern at a line start, and they come in increasing order. */
  lemma {:induction false} MatchesAreMatches(s: string, from: nat)
    requires from <= |s|
    ensures forall i :: 0 <= i < |Matches(s, from)| ==>
              from <= Matches(s, from)[i].index && AtLineStart(s, Matches(s, from)[i].index)
              && MatchAt(s, Matches(s, from)[i].index) == Some(Matches(s, from)[i])
    ensures forall i, j :: 0 <= i < j < |Matches(s, from)| ==> Matches(s, from)[i].end <= Matches(s, from)[j].index
    decreases |s| - from
  {
    match NextMatch(s, from)
    case None =>
    case Some(m) =>
      MatchesAreMatches(s, m.end);
      NextMatchIsFirst(s, from);
      assert Matches(s, from) == [m] + Matches(s, m.end);
  }

  /** What a match yields: a token, or nothing for a wildcard import. */
  function MatchToken(s: string): ImportMatch --> Option<Token> {
    m requires Fits(s, m) => ImportToken(s, m)
  }

  /** The tokens the exec loop pushes from `lastIndex == from` on. */
  function ImportTokens(s: string, from: nat): seq<Token>
    requires from <= |s|
  {
    MatchesFit(s, from);
    Present(Map(Matches(s, from), MatchToken(s)))
  }

  /** `generateImportTokens`: the `exec` loop, with the global regex's `lastIndex` as the cursor. */
  method GenerateImportTokens(source: string) returns (importTokens: seq<Token>)
    ensures importTokens == ImportTokens(source, 0)
  {
    importTokens := [];
    var lastIndex := 0;
    while true
      invariant lastIndex <= |source|
      invariant importTokens + ImportTokens(source, lastIndex) == ImportTokens(source, 0)
      decreases |source| - lastIndex
    {
      var m := NextMatch(source, lastIndex);
      if m.None? {
        break;
      }
      ImportTokensAfter(importTokens, source, lastIndex);
      lastIndex := m.value.end;
      var token := ImportToken(source, m.value);
      if token.None? {
        assert OptionToSeq(token) == [];
        assert importTokens + [] == importTokens;
        assert importTokens + ImportTokens(source, lastIndex) == ImportTokens(source, 0);
        continue;
      }
      importTokens := importTokens + [token.value];
      assert importTokens + ImportTokens(source, lastIndex) == ImportTokens(source, 0);
    }
  }

  /** The exec loop's invariant survives one round. */
  lemma ImportTokensAfter(done: seq<Token>, s: string, from: nat)
    requires from <= |s| && NextMatch(s, from).Some?
    ensures var m := NextMatch(s, from).value;
            done + ImportTokens(s, from) == done + OptionToSeq(ImportToken(s, m)) + ImportTokens(s, m.end)
  {
    var m := NextMatch(s, from).value;
    ImportTokensStep(s, from);
    AppendAssoc(done, OptionToSeq(ImportToken(s, m)), ImportTokens(s, m.end));
  }

  lemma AppendAssoc<T>(a: seq<T>, b: seq<T>, c: seq<T>)
    ensures a + (b + c) == a + b + c
  {
  }

  /** One round of the exec loop: the next match's token, then the rest of the scan from its end. */
  lemma ImportTokensStep(s: string, from: nat)
    requires from <= |s| && NextMatch(s, from).Some?
    ensures var m := NextMatch(s, from).value;
            ImportTokens(s, from) == OptionToSeq(ImportToken(s, m)) + ImportTokens(s, m.end)
  {
    var m := NextMatch(s, from).value;
    MatchesFit(s, from);
    MatchesFit(s, m.end);
    var rest := Matches(s, m.end);
    assert Matches(s, from) == [m] + rest;
    MapCons(m, rest, MatchToken(s));
    PresentConcat([MatchToken(s)(m)], Map(rest, MatchToken(s)));
  }

  /** The last segment of the slash form is made of characters copied unchanged from the dotted form. */
  lemma LastSegmentUnchanged(group: string, path: string, cn: string)
    requires path == ReplaceChar(group, '.', '/') && cn == AfterLast(path, '/')
    ensures |cn| <= |group| && EndsRun(group, |group|, cn)
  {
    var off := |path| - |cn|;
    forall k | off <= k < |path|
      ensures group[k] == path[k]
    {
      assert path[k] == cn[k - off];
    }
    SameFrom(group, path, off);
  }

  /** `cn` is the text of `s` that ends at position `b`. */
  predicate EndsRun(s: string, b: int, cn: string) {
    0 <= b - |cn| && b <= |s| && s[b - |cn|..b] == cn
  }

  /** Text that ends at `p` inside the slice `s[i..e]` ends at `i + p` in `s`. */
  lemma EndsRunIn(s: string, i: nat, e: nat, p: nat, b: nat, cn: string)
    requires i <= e <= |s| && p <= e - i && b == i + p
    requires EndsRun(s[i..e], p, cn)
    ensures EndsRun(s, b, cn)
  {
    SliceOfSlice(s, i, e, p - |cn|, p);
  }

  /** Text that ends at `b` in `s`, inside `s[i..e]`, ends at `p` in that slice. */
  lemma EndsRunOut(s: string, i: nat, e: nat, p: nat, b: nat, cn: string)
    requires i <= e <= |s| && p <= e - i && b == i + p && |cn| <= p
    requires EndsRun(s, b, cn)
    ensures EndsRun(s[i..e], p, cn)
  {
    SliceOfSlice(s, i, e, p - |cn|, p);
  }

  /** The simple name of the text between `a` and `b` is the end of that text. */
  lemma SimpleNameAtEnd(s: string, a: nat, b: nat, cn: string)
    requires a <= b <= |s|
    requires cn == AfterLast(ReplaceChar(s[a..b], '.', '/'), '/')
    ensures |cn| <= b - a && EndsRun(s, b, cn)
  {
    var group := s[a..b];
    LastSegmentUnchanged(group, ReplaceChar(group, '.', '/'), cn);
    EndsRunIn(s, a, b, |group|, b, cn);
  }

  /** The group is a run of `[^\s;]` and nothing after it up to the end of the match is one. */
  predicate GroupShape(s: string, m: ImportMatch) {
    Fits(s, m)
    && (forall i :: m.pathStart <= i < m.pathEnd ==> IsPathChar(s[i]))
    && (forall i :: m.pathEnd <= i < m.end ==> !IsPathChar(s[i]))
  }

  lemma MatchGroupShape(s: string, p: nat)
    requires p <= |s| && MatchAt(s, p).Some?
    ensures GroupShape(s, MatchAt(s, p).value)
  {
    MatchShape(s, p);
  }

  /** A name that ends a run at `b`, followed only by characters outside the run, occurs last there. */
  lemma LastOccurrenceBeforeStop(text: string, b: nat, cn: string, inRun: char -> bool)
    requires cn != "" && EndsRun(text, b, cn)
    requires inRun(text[b - 1])
    requires forall q {:trigger inRun(text[q])} :: b <= q < |text| ==> !inRun(text[q])
    ensures LastIndexOf(text, cn) == b - |cn|
  {
    var j := b - |cn|;
    assert OccursAt(text, cn, j);
    forall q | j < q
      ensures !OccursAt(text, cn, q)
    {
      if q + |cn| <= |text| {
        assert text[q..q + |cn|][|cn| - 1] == text[q + |cn| - 1];
        assert cn[|cn| - 1] == text[b - 1];
      }
    }
    LastIndexOfIs(text, cn, j);
  }

  /** The slash form has no '.' left. */
  lemma NoDotInPath(s: string, m: ImportMatch)
    requires m.pathStart <= m.pathEnd <= |s|
    ensures '.' !in ImportPath(s, m)
  {
    var path := ImportPath(s, m);
    forall k | 0 <= k < |path|
      ensures path[k] != '.'
    {
    }
  }

  /**
   * A name that ends the capture group is found by `match[0].lastIndexOf` where it ends the group, since
   * nothing after the group up to the end of the match is a path character.
   */
  lemma LastInMatch(s: string, m: ImportMatch, cn: string)
    requires GroupShape(s, m)
    requires cn != "" && |cn| <= m.pathEnd - m.pathStart && EndsRun(s, m.pathEnd, cn)
    ensures LastIndexOf(s[m.index..m.end], cn) == m.pathEnd - |cn| - m.index
  {
    var text := s[m.index..m.end];
    var off, len := m.pathStart - m.index, m.pathEnd - m.pathStart;
    GroupInText(s, m);
    EndsRunOut(s, m.index, m.end, off + len, m.pathEnd, cn);
    LastOccurrenceBeforeStop(text, off + len, cn, IsPathChar);
  }

  /** The capture group and what follows it, seen inside the matched text. */
  lemma GroupInText(s: string, m: ImportMatch)
    requires GroupShape(s, m)
    ensures var text := s[m.index..m.end];
            var off, len := m.pathStart - m.index, m.pathEnd - m.pathStart;
            0 < len && off + len <= |text| && text[off..off + len] == s[m.pathStart..m.pathEnd]
            && IsPathChar(text[off + len - 1])
            && (forall q :: off + len <= q < |text| ==> !IsPathChar(text[q]))
  {
    var text := s[m.index..m.end];
    SliceOfSlice(s, m.index, m.end, m.pathStart - m.index, m.pathEnd - m.index);
    assert text[m.pathEnd - 1 - m.index] == s[m.pathEnd - 1];
    forall q | m.pathEnd - m.index <= q < |text|
      ensures !IsPathChar(text[q])
    {
      assert text[q] == s[m.index + q];
    }
  }

  /** The token's fields, once the simple name is known to sit at the end of the group. */
  lemma TokenAtGroupEnd(s: string, m: ImportMatch, cn: string)
    requires Fits(s, m)
    requires !EndsWith(ImportPath(s, m), "*")
    requires cn == AfterLast(ImportPath(s, m), '/')
    requires |cn| <= m.pathEnd - m.pathStart
    requires LastIndexOf(s[m.index..m.end], cn) == m.pathEnd - |cn| - m.index
    ensures var t := ImportToken(s, m).value;
            t.start == m.pathEnd - |cn| && t.length == |cn|
  {
    var path := ImportPath(s, m);
    AfterLastIsSuffix(path, '/');
    LastIndexOfSuffix(path, cn);
  }

  /** The token of a non-wildcard match names the slash form of the group. */
  lemma ImportTokenClass(s: string, m: ImportMatch)
    requires Fits(s, m)
    requires !EndsWith(ImportPath(s, m), "*")
    ensures ImportToken(s, m).Some?
    ensures var t := ImportToken(s, m).value;
            t.kind == ClassToken && !t.declaration && t.className == ImportPath(s, m) && '.' !in t.className
  {
    NoDotInPath(s, m);
  }

  /** `match[0].lastIndexOf(className)` finds the simple name of the import path at the end of the group. */
  lemma SimpleNameFound(s: string, m: ImportMatch, cn: string)
    requires GroupShape(s, m)
    requires cn == AfterLast(ImportPath(s, m), '/') && cn != ""
    ensures |cn| <= m.pathEnd - m.pathStart && EndsRun(s, m.pathEnd, cn)
    ensures LastIndexOf(s[m.index..m.end], cn) == m.pathEnd - |cn| - m.index
  {
    SimpleNameAtEnd(s, m.pathStart, m.pathEnd, cn);
    LastInMatch(s, m, cn);
  }

  /**
   * A non-wildcard import of a name not ending in '/' yields a reference class token that covers exactly
   * the simple name at the end of the capture group, whose class is the dotted path with '/' for '.'.
   */
  lemma ImportTokenPointsAtSimpleName(s: string, m: ImportMatch)
    requires GroupShape(s, m)
    requires !EndsWith(ImportPath(s, m), "*")
    requires AfterLast(ImportPath(s, m), '/') != ""
    ensures ImportToken(s, m).Some?
    ensures var t := ImportToken(s, m).value;
            t.kind == ClassToken && !t.declaration && t.className == ImportPath(s, m) && '.' !in t.className
    ensures var t := ImportToken(s, m).value;
            var cn := AfterLast(ImportPath(s, m), '/');
            t.length == |cn| && t.start == m.pathEnd - |cn| && m.index < t.start && EndsRun(s, m.pathEnd, cn)
  {
    var cn := AfterLast(ImportPath(s, m), '/');
    SimpleNameFound(s, m, cn);
    TokenAtGroupEnd(s, m, cn);
    ImportTokenClass(s, m);
  }

  /** A token as the import scan produces it: a class reference, not a wildcard. */
  predicate IsImportReference(t: Token) {
    t.kind == ClassToken && !t.declaration && t.name.None? && !EndsWith(t.className, "*")
  }

  /** Wildcard imports yield nothing; every import token is a non-declaration class reference. */
  lemma ImportTokensShape(s: string, from: nat)
    requires from <= |s|
    ensures forall t :: t in ImportTokens(s, from) ==> IsImportReference(t)
  {
    MatchesFit(s, from);
    var ms := Matches(s, from);
    var os := Map(ms, MatchToken(s));
    forall t | t in Present(os)
      ensures IsImportReference(t)
    {
      PresentFrom(os, t);
      var i :| 0 <= i < |os| && os[i] == Some(t);
      assert Fits(s, ms[i]);
      assert os[i] == ImportToken(s, ms[i]);
    }
  }

  // ----- decompileClass -----

  /** The `resources` list: every `.class` entry, with `.class` removed. */
  function Resources(paths: seq<string>): (r: seq<string>)
    ensures |r| <= |paths|
  {
    if paths == [] then []
    else if EndsWith(paths[0], ".class") then [ReplaceFirst(paths[0], ".class", "")] + Resources(paths[1..])
    else Resources(paths[1..])
  }

  /** The resources are the `.class` entries, in archive order, each with its first `.class` removed. */
  lemma {:induction false} ResourcesContents(paths: seq<string>)
    ensures |Resources(paths)| == |ClassEntries(paths)|
    ensures forall i :: 0 <= i < |Resources(paths)| ==>
              Resources(paths)[i] == ReplaceFirst(ClassEntries(paths)[i], ".class", "")
  {
    if paths != [] {
      ResourcesContents(paths[1..]);
      var rest, entries := Resources(paths[1..]), ClassEntries(paths[1..]);
      if EndsWith(paths[0], ".class") {
        var head := ReplaceFirst(paths[0], ".class", "");
        assert Resources(paths) == [head] + rest;
        assert ClassEntries(paths) == [paths[0]] + entries;
      } else {
        assert Resources(paths) == rest && ClassEntries(paths) == entries;
      }
    }
  }

  /** What `decompileClass` resolves to. */
  function DecompileOutcome(className: string, jar: Jar, displayLambdas: bool, engine: Engine): DecompileResult
  {
    if className !in jar.paths then NotFound(className, Java)
    else
      match engine(ReplaceFirst(className, ".class", ""), Resources(jar.paths), displayLambdas, jar)
      case Threw(message) => DecompileResult(className, "// Error during decompilation: " + message, [], Java)
      case Decompiled(source, visits) =>
        DecompileResult(className, source, Sort(CollectedTokens(visits) + ImportTokens(source, 0), StartLe), Java)
  }

  /**
   * The three result shapes: a missing class, a decompiler error and a decompiled class whose tokens are
   * the reported ones plus the import tokens, sorted by start.
   */
  lemma DecompileShapes(className: string, jar: Jar, displayLambdas: bool, engine: Engine)
    ensures var r := DecompileOutcome(className, jar, displayLambdas, engine);
            r.className == className && r.language == Java
            && (className !in jar.paths ==> r.source == "// Class not found: " + className && r.tokens == [])
            && (className in jar.paths ==>
                  match engine(ReplaceFirst(className, ".class", ""), Resources(jar.paths), displayLambdas, jar)
                  case Threw(message) => r.source == "// Error during decompilation: " + message && r.tokens == []
                  case Decompiled(source, visits) =>
                    r.source == source && SortedBy(r.tokens, StartLe)
                    && multiset(r.tokens) == multiset(CollectedTokens(visits) + ImportTokens(source, 0)))
  {
    if className in jar.paths {
      match engine(ReplaceFirst(className, ".class", ""), Resources(jar.paths), displayLambdas, jar)
      case Threw(_) =>
      case Decompiled(source, visits) =>
        SortSorted(CollectedTokens(visits) + ImportTokens(source, 0), StartLe);
    }
  }

  // ----- getClassBytecode -----

  function ClassEntries(paths: seq<string>): (r: seq<string>)
    ensures forall p :: p in r <==> p in paths && EndsWith(p, ".class")
  {
    if paths == [] then []
    else if EndsWith(paths[0], ".class") then [paths[0]] + ClassEntries(paths[1..])
    else ClassEntries(paths[1..])
  }

  lemma SortedEntriesInData(jar: Jar)
    requires jar.Valid()
    ensures forall p :: p in Sort(ClassEntries(jar.paths), LexOrder) <==> p in ClassEntries(jar.paths)
    ensures forall p :: p in Sort(ClassEntries(jar.paths), LexOrder) ==> p in jar.data
  {
    var allClasses := Sort(ClassEntries(jar.paths), LexOrder);
    assert forall p :: p in allClasses <==> p in multiset(allClasses);
  }

  /** The entries of `sorted`, in order, whose names start with `prefix`. */
  function WithPrefix(sorted: seq<string>, prefix: string): (r: seq<string>)
    ensures forall p :: p in r <==> p in sorted && StartsWith(p, prefix)
  {
    if sorted == [] then []
    else if StartsWith(sorted[0], prefix) then [sorted[0]] + WithPrefix(sorted[1..], prefix)
    else WithPrefix(sorted[1..], prefix)
  }

  lemma {:induction false} WithPrefixSorted(sorted: seq<string>, prefix: string)
    requires SortedBy(sorted, LexLe)
    ensures SortedBy(WithPrefix(sorted, prefix), LexLe)
  {
    if sorted != [] {
      WithPrefixSorted(sorted[1..], prefix);
      var rest := WithPrefix(sorted[1..], prefix);
      forall k | 0 <= k < |rest|
        ensures LexLe(sorted[0], rest[k])
      {
        assert rest[k] in sorted[1..];
        var m :| 0 <= m < |sorted[1..]| && sorted[1..][m] == rest[k];
        assert sorted[1 + m] == rest[k];
      }
    }
  }

  predicate LexOrder(a: string, b: string) {
    LexLe(a, b)
  }

  lemma LexOrderIsTotalPreorder()
    ensures TotalPreorder(LexOrder)
  {
    forall a, b ensures LexOrder(a, b) || LexOrder(b, a) {
      LexLeTotal(a, b);
    }
    forall a, b, c | LexOrder(a, b) && LexOrder(b, c) ensures LexOrder(a, c) {
      LexLeTransitive(a, b, c);
    }
  }

  /** The names whose bytes go to the bytecode printer: the class, then its nested classes in sorted order. */
  function BytecodeClasses(className: string, jar: Jar): seq<string>
  {
    var allClasses := Sort(ClassEntries(jar.paths), LexOrder);
    [className] + WithPrefix(allClasses, ReplaceFirst(className, ".class", "") + "$")
  }

  /**
   * The bytecode view prints the selected class first and then every class of the archive named
   * `outer$...`, in default string order.
   */
  lemma BytecodeClassesSelection(className: string, jar: Jar)
    ensures var names := BytecodeClasses(className, jar);
            var prefix := ReplaceFirst(className, ".class", "") + "$";
            names[0] == className
            && (forall p :: p in names[1..] <==> p in jar.paths && EndsWith(p, ".class") && StartsWith(p, prefix))
            && SortedBy(names[1..], LexLe)
  {
    var allClasses := Sort(ClassEntries(jar.paths), LexOrder);
    var prefix := ReplaceFirst(className, ".class", "") + "$";
    LexOrderIsTotalPreorder();
    SortSorted(ClassEntries(jar.paths), LexOrder);
    forall p ensures p in allClasses <==> p in ClassEntries(jar.paths) {
      assert p in allClasses <==> p in multiset(allClasses);
    }
    WithPrefixSorted(allClasses, prefix);
    assert BytecodeClasses(className, jar)[1..] == WithPrefix(allClasses, prefix);
  }

  predicate InData(jar: Jar, names: seq<string>) {
    forall i :: 0 <= i < |names| ==> names[i] in jar.data
  }

  function ClassBytes(jar: Jar, names: seq<string>): seq<seq<byte>>
    requires InData(jar, names)
  {
    seq(|names|, i requires 0 <= i < |names| => jar.data[names[i]])
  }

  /** What `getClassBytecode` resolves to. */
  function BytecodeOutcome(className: string, jar: Jar, printer: BytecodePrinter): DecompileResult
    requires jar.Valid()
  {
    if className !in ClassEntries(jar.paths) then NotFound(className, Bytecode)
    else
      var names := BytecodeClasses(className, jar);
      BytecodeClassesSelection(className, jar);
      match printer(ClassBytes(jar, names))
      case Ok(text) => DecompileResult(className, text, [], Bytecode)
      case Err(message) => DecompileResult(className, "// Error during bytecode retrieval: " + message, [], Bytecode)
  }

  // ----- the pipeline state -----

  /** The module-level state: the insertion-ordered result cache and the busy counter. */
  class DecompilerState {
    var order: seq<string>
    var cache: map<string, DecompileResult>
    var counter: int

    ghost predicate Valid()
      reads this
    {
      Distinct(order) && (forall k :: k in cache <==> k in order) && |order| <= CACHE_LIMIT
      && "" !in order
    }

    constructor()
      ensures Valid() && order == [] && cache == map[] && counter == 0
    {
      order := [];
      cache := map[];
      counter := 0;
    }

    /** `isDecompiling`: the counter is positive. */
    function IsDecompiling(): (r: bool)
      reads this
      ensures r <==> counter > 0
    {
      counter > 0
    }

    /** `decompileClass`: the counter goes up before the decompiler runs and back down in `finally`. */
    method DecompileClass(className: string, jar: Jar, displayLambdas: bool, engine: Engine) returns (r: DecompileResult)
      modifies this
      ensures r == DecompileOutcome(className, jar, displayLambdas, engine)
      ensures order == old(order) && cache == old(cache) && counter == old(counter)
    {
      if className !in jar.paths {
        return NotFound(className, Java);
      }
      counter := counter + 1;
      var outcome := engine(ReplaceFirst(className, ".class", ""), Resources(jar.paths), displayLambdas, jar);
      match outcome {
        case Threw(message) =>
          r := DecompileResult(className, "// Error during decompilation: " + message, [], Java);
        case Decompiled(source, visits) =>
          var tokens := DecompiledTokens(source, visits);
          r := DecompileResult(className, source, tokens, Java);
      }
      counter := counter - 1;
    }

    /** `getClassBytecode`: the selected class's bytes, then each nested class's, for the printer. */
    method GetClassBytecode(className: string, jar: Jar, printer: BytecodePrinter) returns (r: DecompileResult)
      requires jar.Valid()
      modifies this
      ensures r == BytecodeOutcome(className, jar, printer)
      ensures order == old(order) && cache == old(cache) && counter == old(counter)
    {
      var allClasses := Sort(ClassEntries(jar.paths), LexOrder);
      SortedEntriesInData(jar);
      if className !in allClasses {
        return NotFound(className, Bytecode);
      }
      counter := counter + 1;
      var classData := NestedClassData(className, jar, allClasses, ReplaceFirst(className, ".class", "") + "$");
      var printed := printer(classData);
      if printed.Ok? {
        r := DecompileResult(className, printed.value, [], Bytecode);
      } else {
        r := DecompileResult(className, "// Error during bytecode retrieval: " + printed.error, [], Bytecode);
      }
      counter := counter - 1;
    }

    /**
     * One emission of `decompileResultPipeline` for `(className, jar, displayLambdas, bytecode)`: bytecode
     * view bypasses the cache; a hit moves its key to the end of the order; a miss decompiles, drops the
     * oldest key when the cache is full and appends the new key.
     */
    method Emit(className: string, jar: Jar, displayLambdas: bool, bytecode: bool, engine: Engine, printer: BytecodePrinter)
      returns (r: DecompileResult)
      requires Valid() && jar.Valid()
      modifies this
      ensures Valid() && counter == old(counter)
      ensures bytecode ==> r == BytecodeOutcome(className, jar, printer) && order == old(order) && cache == old(cache)
      ensures !bytecode && CacheKey(jar.version, className, displayLambdas) in old(cache) ==>
                var key := CacheKey(jar.version, className, displayLambdas);
                r == old(cache)[key] && cache == old(cache) && order == MoveToEnd(old(order), key)
      ensures !bytecode && CacheKey(jar.version, className, displayLambdas) !in old(cache) ==>
                var key := CacheKey(jar.version, className, displayLambdas);
                r == DecompileOutcome(className, jar, displayLambdas, engine)
                && (|old(order)| >= CACHE_LIMIT ==>
                      order == old(order)[1..] + [key] && cache == (old(cache) - {old(order)[0]})[key := r])
                && (|old(order)| < CACHE_LIMIT ==> order == old(order) + [key] && cache == old(cache)[key := r])
    {
      if bytecode {
        r := GetClassBytecode(className, jar, printer);
        return;
      }
      var key := CacheKey(jar.version, className, displayLambdas);
      if key in cache {
        r := cache[key];
        order := MoveToEnd(order, key);
        return;
      }
      r := DecompileClass(className, jar, displayLambdas, engine);
      Store(key, r);
    }

    /** The `tap` after a miss: drop the oldest key when the cache holds 75 results, then append `key`. */
    method Store(key: string, result: DecompileResult)
      requires Valid() && key != "" && key !in cache
      modifies this
      ensures Valid() && counter == old(counter)
      ensures |old(order)| >= CACHE_LIMIT ==>
                order == old(order)[1..] + [key] && cache == (old(cache) - {old(order)[0]})[key := result]
      ensures |old(order)| < CACHE_LIMIT ==> order == old(order) + [key] && cache == old(cache)[key := result]
    {
      if |order| >= CACHE_LIMIT {
        var firstKey := order[0];
        if firstKey != "" {
          DropFirst(order);
          order := Without(order, firstKey);
          cache := cache - {firstKey};
        }
      }
      assert key !in order;
      order := SetKey(order, key);
      cache := cache[key := result];
    }
  }

  /** Removing the first key of a key order without repeats leaves the rest of the order. */
  lemma DropFirst<K(!new)>(s: seq<K>)
    requires Distinct(s) && s != []
    ensures Without(s, s[0]) == s[1..]
  {
    assert s[0] !in s[1..] by {
      forall j | 0 <= j < |s[1..]| ensures s[1..][j] != s[0] {
        assert s[1..][j] == s[j + 1];
      }
    }
  }

  /** The tokens of a decompiled class: the reported ones, then the import tokens, sorted by start. */
  method DecompiledTokens(source: string, visits: seq<Visit>) returns (tokens: seq<Token>)
    ensures tokens == Sort(CollectedTokens(visits) + ImportTokens(source, 0), StartLe)
  {
    tokens := CollectTokens(visits);
    assert tokens == CollectedTokens(visits);
    var importTokens := GenerateImportTokens(source);
    tokens := tokens + importTokens;
    tokens := Sort(tokens, StartLe);
  }

  /** The bytes of `className`, then of every entry of `allClasses` named `prefix...`, in order. */
  method NestedClassData(className: string, jar: Jar, allClasses: seq<string>, prefix: string)
    returns (classData: seq<seq<byte>>)
    requires className in jar.data && forall p :: p in allClasses ==> p in jar.data
    ensures InData(jar, [className] + WithPrefix(allClasses, prefix))
    ensures classData == ClassBytes(jar, [className] + WithPrefix(allClasses, prefix))
  {
    classData := [jar.data[className]];
    ghost var names := [className];
    var i := 0;
    while i < |allClasses|
      invariant 0 <= i <= |allClasses|
      invariant names == [className] + WithPrefix(allClasses[..i], prefix)
      invariant InData(jar, names)
      invariant classData == ClassBytes(jar, names)
    {
      assert allClasses[..i + 1] == allClasses[..i] + [allClasses[i]];
      WithPrefixAppend(allClasses[..i], allClasses[i], prefix);
      if StartsWith(allClasses[i], prefix) {
        ClassBytesAppend(jar, names, allClasses[i]);
        classData := classData + [jar.data[allClasses[i]]];
        names := names + [allClasses[i]];
      }
      i := i + 1;
    }
    assert allClasses[..i] == allClasses;
  }

  lemma ClassBytesAppend(jar: Jar, names: seq<string>, x: string)
    requires InData(jar, names) && x in jar.data
    ensures InData(jar, names + [x])
    ensures ClassBytes(jar, names + [x]) == ClassBytes(jar, names) + [jar.data[x]]
  {
  }

  lemma WithPrefixAppend(s: seq<string>, x: string, prefix: string)
    ensures WithPrefix(s + [x], prefix) == WithPrefix(s, prefix) + (if StartsWith(x, prefix) then [x] else [])
  {
    if s != [] {
      assert (s + [x])[1..] == s[1..] + [x];
      WithPrefixAppend(s[1..], x, prefix);
    }
  }
}
