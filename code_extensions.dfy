/**
 * The editor extensions of src/ui/CodeExtensions.ts: the go-to-definition provider (editor position to
 * character offset, offset to reference token, token to `goto://` link), the opener that follows such a
 * link, `jumpToToken`, and the import and bracket folding providers.
 */
module CodeExtensions {
  import opened Wrappers
  import opened Strings
  import opened Tokens

  // ---------------------------------------------------------------------------------------------
  // Editor positions and character offsets

  /** The text of the first `n` lines, each followed by the '\n' that separated it from the next. */
  function LinesBefore(lines: seq<string>, n: nat): (r: string)
    requires n <= |lines|
  {
    if n == 0 then "" else LinesBefore(lines, n - 1) + lines[n - 1] + "\n"
  }

  /** The editor's whole text: its lines joined by '\n'. */
  function Text(lines: seq<string>): string {
    Join(lines, "\n")
  }

  /** The text splits after line `n`: the lines before it with their newlines, then the rest joined. */
  lemma {:induction false} TextSplitsAt(lines: seq<string>, n: nat)
    requires n < |lines|
    ensures Text(lines) == LinesBefore(lines, n) + Text(lines[n..])
  {
    if n == 0 {
      assert lines[0..] == lines;
    } else {
      TextSplitsAt(lines, n - 1);
      var tail := lines[n - 1..];
      assert |tail| >= 2 && tail[0] == lines[n - 1] && tail[1..] == lines[n..];
      assert Text(tail) == lines[n - 1] + "\n" + Text(lines[n..]);
    }
  }

  /** A line's text starts the text of the lines from it on. */
  lemma TextStartsWithFirst(lines: seq<string>)
    requires |lines| >= 1
    ensures StartsWith(Text(lines), lines[0])
  {
    if |lines| > 1 {
      assert Text(lines) == lines[0] + "\n" + Text(lines[1..]);
    }
  }

  /**
   * The offset `provideDefinition` computes for the 1-based `lineNumber` and `column`: the length of every
   * earlier line plus one for its newline, then `column - 1`. Whenever the position names a character of
   * its line, the offset indexes that same character of the whole text.
   */
  method TargetOffset(lines: seq<string>, lineNumber: int, column: int) returns (offset: int)
    requires lineNumber - 1 <= |lines|
    ensures offset == |LinesBefore(lines, if lineNumber < 1 then 0 else lineNumber - 1)| + column - 1
    ensures 1 <= lineNumber <= |lines| && 1 <= column <= |lines[lineNumber - 1]| ==>
              0 <= offset < |Text(lines)| && Text(lines)[offset] == lines[lineNumber - 1][column - 1]
  {
    var charCount := 0;
    var i := 0;
    while i < lineNumber - 1
      invariant 0 <= i <= if lineNumber < 1 then 0 else lineNumber - 1
      invariant charCount == |LinesBefore(lines, i)|
    {
      charCount := charCount + |lines[i]| + 1;
      i := i + 1;
    }
    offset := charCount + (column - 1);
    if 1 <= lineNumber <= |lines| && 1 <= column <= |lines[lineNumber - 1]| {
      var n := lineNumber - 1;
      TextSplitsAt(lines, n);
      TextStartsWithFirst(lines[n..]);
      var before := LinesBefore(lines, n);
      assert Text(lines)[|before| + column - 1] == Text(lines[n..])[column - 1];
    }
  }

  // ---------------------------------------------------------------------------------------------
  // Definition lookup

  /** The offset falls on the token, both ends included. */
  predicate Covers(t: Token, offset: int) {
    t.start <= offset <= t.start + t.length
  }

  /** Tokens in ascending `start` order, as the decompiler returns them. */
  predicate SortedByStart(tokens: seq<Token>) {
    forall i, j :: 0 <= i < j < |tokens| ==> tokens[i].start <= tokens[j].start
  }

  /**
   * The token `provideDefinition` settles on: declarations are skipped, the first covering reference wins,
   * and the scan gives up at the first reference that starts after the offset.
   */
  function DefinitionToken(tokens: seq<Token>, offset: int): (r: Option<Token>)
    ensures r.Some? ==> r.value in tokens && !r.value.declaration && Covers(r.value, offset)
  {
    if tokens == [] then None
    else if tokens[0].declaration then DefinitionToken(tokens[1..], offset)
    else if Covers(tokens[0], offset) then Some(tokens[0])
    else if tokens[0].start > offset then None
    else DefinitionToken(tokens[1..], offset)
  }

  /** The first reference token covering the offset, found by a scan that never stops early. */
  function FirstCovering(tokens: seq<Token>, offset: int): (r: Option<Token>)
    ensures r.Some? ==> exists i :: 0 <= i < |tokens| && tokens[i] == r.value
                          && !r.value.declaration && Covers(r.value, offset)
                          && forall j :: 0 <= j < i ==> tokens[j].declaration || !Covers(tokens[j], offset)
    ensures r.None? ==> forall i :: 0 <= i < |tokens| ==> tokens[i].declaration || !Covers(tokens[i], offset)
  {
    if tokens == [] then None
    else if !tokens[0].declaration && Covers(tokens[0], offset) then Some(tokens[0])
    else
      var r := FirstCovering(tokens[1..], offset);
      if r.Some? then
        var i :| 0 <= i < |tokens[1..]| && tokens[1..][i] == r.value
                 && forall j :: 0 <= j < i ==> tokens[1..][j].declaration || !Covers(tokens[1..][j], offset);
        assert tokens[i + 1] == r.value;
        r
      else r
  }

  /** On sorted tokens, stopping at the first reference past the offset loses nothing. */
  lemma {:induction false} DefinitionTokenIsFirst(tokens: seq<Token>, offset: int)
    requires SortedByStart(tokens)
    ensures DefinitionToken(tokens, offset) == FirstCovering(tokens, offset)
  {
    if tokens != [] {
      var t := tokens[0];
      if !t.declaration && !Covers(t, offset) && t.start > offset {
        forall i | 0 <= i < |tokens|
          ensures tokens[i].declaration || !Covers(tokens[i], offset)
        {
          if i > 0 {
            assert tokens[0].start <= tokens[i].start;
          }
        }
      } else if t.declaration || !Covers(t, offset) {
        DefinitionTokenIsFirst(tokens[1..], offset);
      }
    }
  }

  /** A parsed editor URI. */
  datatype Uri = Uri(scheme: string, authority: string, path: string, fragment: string)

  /** A definition: the target URI and the clicked range on one line, `column` to `column + length`. */
  datatype Definition = Definition(uri: Uri, line: int, startColumn: int, endColumn: int)

  /** `className.split('$')[0] + ".class"`: the file of the outermost class. */
  function OuterClassFile(className: string): string {
    BeforeFirst(className, '$') + ".class"
  }

  /**
   * `goto://class/<className>`; a token carrying a descriptor adds the fragment `<type>:<descriptor>` for
   * methods and `<type>:<name>` otherwise.
   */
  function GotoUri(t: Token, classFile: string): Uri {
    var fragment :=
      if t.descriptor.None? then ""
      else TypeName(t.kind) + ":" + (if t.kind == MethodToken then t.descriptor.value else Spliced(t.name));
    Uri("goto", "class", "/" + classFile, fragment)
  }

  /** The link for a reference token, offered only when its class or its outer class is in the jar. */
  function DefinitionLink(t: Token, classList: Option<seq<string>>, lineNumber: int, column: int): (r: Option<Definition>)
    ensures r.Some? <==> classList.Some? && (t.className + ".class" in classList.value
                                             || OuterClassFile(t.className) in classList.value)
    ensures r.Some? ==> r.value.uri.scheme == "goto" && r.value.uri.path == "/" + t.className + ".class"
                        && r.value.endColumn - r.value.startColumn == t.length
  {
    var classFile := t.className + ".class";
    if classList.Some? && (classFile in classList.value || OuterClassFile(t.className) in classList.value) then
      Some(Definition(GotoUri(t, classFile), lineNumber, column, column + t.length))
    else None
  }

  /** What `provideDefinition` returns for a position, with `null` as `None`. */
  function DefinitionAt(lines: seq<string>, lineNumber: int, column: int, tokens: seq<Token>,
                        classList: Option<seq<string>>): Option<Definition>
    requires lineNumber - 1 <= |lines|
  {
    var offset := |LinesBefore(lines, if lineNumber < 1 then 0 else lineNumber - 1)| + column - 1;
    match DefinitionToken(tokens, offset)
    case None => None
    case Some(t) => DefinitionLink(t, classList, lineNumber, column)
  }

  /** The token scan of `provideDefinition`, which leaves its loop as soon as the outcome is known. */
  method FindDefinitionToken(tokens: seq<Token>, targetOffset: int) returns (r: Option<Token>)
    ensures r == DefinitionToken(tokens, targetOffset)
  {
    var i := 0;
    while i < |tokens|
      invariant 0 <= i <= |tokens|
      invariant DefinitionToken(tokens, targetOffset) == DefinitionToken(tokens[i..], targetOffset)
    {
      var token := tokens[i];
      assert tokens[i..][1..] == tokens[i + 1..];
      if token.declaration {
        i := i + 1;
        continue;
      }
      if Covers(token, targetOffset) {
        return Some(token);
      }
      if token.start > targetOffset {
        return None;
      }
      i := i + 1;
    }
    return None;
  }

  /** `provideDefinition`: the offset of the position, the token there, and the link for it. */
  method ProvideDefinition(lines: seq<string>, lineNumber: int, column: int, tokens: seq<Token>,
                           classList: Option<seq<string>>) returns (r: Option<Definition>)
    requires lineNumber - 1 <= |lines|
    ensures r == DefinitionAt(lines, lineNumber, column, tokens, classList)
  {
    var targetOffset := TargetOffset(lines, lineNumber, column);
    var token := FindDefinitionToken(tokens, targetOffset);
    if token.None? {
      return None;
    }
    return DefinitionLink(token.value, classList, lineNumber, column);
  }

  // ---------------------------------------------------------------------------------------------
  // Following a link

  /** A pending `jumpToToken`: at once in the open file, or once `tab` is the decompiled class. */
  datatype Jump = Jump(targetType: string, target: string, sameFile: bool)

  /** `false` for a foreign scheme; otherwise the jump scheduled and the tab opened. */
  datatype OpenOutcome = Declined | Opened(jump: Option<Jump>, tab: string)

  /**
   * `openCodeEditor`: only `goto` schemes are handled. The tab opened is the outer class file; a
   * `type:target` fragment jumps to that member, and a bare inner-class link jumps to the inner class.
   */
  function OpenCodeEditor(uri: Uri, activeTabKey: string): (r: OpenOutcome)
    ensures r.Declined? <==> !StartsWith(uri.scheme, "goto")
  {
    if !StartsWith(uri.scheme, "goto") then Declined
    else
      var className := if |uri.path| == 0 then "" else uri.path[1..];
      var baseClassName := if '$' in className then OuterClassFile(className) else className;
      var jumpInSameFile := baseClassName == activeTabKey;
      var fragment := Split(uri.fragment, ':');
      var jump :=
        if |fragment| == 2 then Some(Jump(fragment[0], fragment[1], jumpInSameFile))
        else if baseClassName != className then
          Some(Jump("class", ReplaceFirst(className, ".class", ""), jumpInSameFile))
        else None;
      Opened(jump, baseClassName)
  }

  /** The outer class file of `C.class` is that of `C`. */
  lemma OuterOfClassFile(className: string)
    ensures ('$' in className + ".class") == ('$' in className)
    ensures '$' in className ==> OuterClassFile(className + ".class") == OuterClassFile(className)
  {
    var file := className + ".class";
    assert forall k :: 0 <= k < |className| ==> file[k] == className[k];
    assert '$' !in ".class";
    if '$' in className {
      CutAtChar(className, '$');
      BeforeFirstIs(file, '$', BeforeFirst(className, '$'));
    }
  }

  /** The tab the opener opens is always an outer class: its name holds no '$'. */
  lemma OpenedTabIsOuter(uri: Uri, activeTabKey: string)
    ensures var r := OpenCodeEditor(uri, activeTabKey);
            r.Opened? ==> '$' !in r.tab
  {
    var className := if |uri.path| == 0 then "" else uri.path[1..];
    CutAtChar(className, '$');
    assert '$' !in ".class";
  }

  /** Splitting `type:target` on ':' gives both parts back when the target holds no ':'. */
  lemma SplitFragment(kind: string, target: string)
    requires ':' !in kind && ':' !in target
    ensures Split(kind + ":" + target, ':') == [kind, target]
  {
    assert Join([kind, target], [':']) == kind + ":" + target by {
      assert Join([kind, target][1..], [':']) == target;
    }
    SplitJoin([kind, target], ':');
  }

  /**
   * Following a definition link opens the tab of the token's outer class, and jumps to the method by its
   * descriptor or to the field by its name, at once when that tab is already active.
   */
  lemma DefinitionOpensTarget(t: Token, classList: Option<seq<string>>, lineNumber: int, column: int,
                              activeTabKey: string)
    requires DefinitionLink(t, classList, lineNumber, column).Some?
    requires t.descriptor.Some? && ':' !in t.descriptor.value
    requires t.kind == FieldToken ==> t.name.Some? && ':' !in t.name.value
    requires t.kind == MethodToken || t.kind == FieldToken
    ensures var tab := OuterClassFile(t.className);
            var target := if t.kind == MethodToken then t.descriptor.value else t.name.value;
            OpenCodeEditor(DefinitionLink(t, classList, lineNumber, column).value.uri, activeTabKey)
            == Opened(Some(Jump(TypeName(t.kind), target, tab == activeTabKey)), tab)
  {
    var classFile := t.className + ".class";
    var uri := DefinitionLink(t, classList, lineNumber, column).value.uri;
    assert uri.path[1..] == classFile;
    OuterOfClassFile(t.className);
    if '$' !in t.className {
      assert BeforeFirst(t.className, '$') == t.className by {
        CutAtChar(t.className, '$');
      }
    }
    var target := if t.kind == MethodToken then t.descriptor.value else t.name.value;
    SplitFragment(TypeName(t.kind), target);
  }

  /**
   * Following the link of an inner-class reference opens the outer class and jumps to the inner class's
   * declaration by its name.
   */
  lemma InnerClassLinkOpensOuter(t: Token, classList: Option<seq<string>>, lineNumber: int, column: int,
                                 activeTabKey: string)
    requires DefinitionLink(t, classList, lineNumber, column).Some?
    requires t.descriptor.None? && '$' in t.className
    requires IndexOf(t.className + ".class", ".class") == |t.className|
    ensures var tab := OuterClassFile(t.className);
            OpenCodeEditor(DefinitionLink(t, classList, lineNumber, column).value.uri, activeTabKey)
            == Opened(Some(Jump("class", t.className, tab == activeTabKey)), tab)
  {
    var classFile := t.className + ".class";
    var uri := DefinitionLink(t, classList, lineNumber, column).value.uri;
    assert uri.path[1..] == classFile;
    SplitWithout("", ':');
    OuterOfClassFile(t.className);
    InnerClassNotOuter(t.className);
    RemoveLastOnly(t.className, ".class");
  }

  lemma InnerClassNotOuter(className: string)
    requires '$' in className
    ensures OuterClassFile(className) != className + ".class"
  {
    CutAtChar(className, '$');
    assert '$' !in ".class";
    assert '$' in className + ".class";
  }

  // ---------------------------------------------------------------------------------------------
  // Jumping to a declaration

  /** The declaration `jumpToToken` is looking for. */
  predicate JumpMatch(t: Token, targetType: string, target: string) {
    && t.declaration && TypeName(t.kind) == targetType
    && ((targetType == "method" && t.descriptor == Some(target))
        || (targetType == "field" && t.name == Some(target))
        || (targetType == "class" && t.className == target))
  }

  /** `jumpToToken`: the index of the first matching declaration, or -1 when there is none. */
  method JumpToToken(tokens: seq<Token>, targetType: string, target: string) returns (index: int)
    ensures -1 <= index < |tokens|
    ensures index >= 0 ==> JumpMatch(tokens[index], targetType, target)
                           && forall j :: 0 <= j < index ==> !JumpMatch(tokens[j], targetType, target)
    ensures index < 0 ==> forall j :: 0 <= j < |tokens| ==> !JumpMatch(tokens[j], targetType, target)
  {
    index := 0;
    while index < |tokens|
      invariant 0 <= index <= |tokens|
      invariant forall j :: 0 <= j < index ==> !JumpMatch(tokens[j], targetType, target)
    {
      var token := tokens[index];
      if !(token.declaration && TypeName(token.kind) == targetType) {
        index := index + 1;
        continue;
      }
      if !(targetType == "method" && token.descriptor == Some(target))
         && !(targetType == "field" && token.name == Some(target))
         && !(targetType == "class" && token.className == target)
      {
        index := index + 1;
        continue;
      }
      return;
    }
    index := -1;
  }

  // ---------------------------------------------------------------------------------------------
  // Folding

  /** A folding range over 1-based lines; `imports` marks the import kind. */
  datatype FoldRange = FoldRange(start: int, end: int, imports: bool)

  predicate IsPackageLine(line: string) {
    StartsWith(Trim(line), "package ")
  }

  predicate IsImportLine(line: string) {
    StartsWith(Trim(line), "import ")
  }

  /** The 1-based number of the last line satisfying `p`, or `None`. */
  function LastLine(lines: seq<string>, p: string -> bool): Option<nat> {
    if lines == [] then None
    else if p(lines[|lines| - 1]) then Some(|lines|)
    else LastLine(lines[..|lines| - 1], p)
  }

  /** The 1-based number of the first line satisfying `p`, or `None`. */
  function FirstLine(lines: seq<string>, p: string -> bool): Option<nat> {
    if lines == [] then None
    else
      var r := FirstLine(lines[..|lines| - 1], p);
      if r.Some? then r
      else if p(lines[|lines| - 1]) then Some(|lines|)
      else None
  }

  /** `LastLine` names a line satisfying `p` with none after it, or reports that no line does. */
  lemma {:induction false} LastLineSpec(lines: seq<string>, p: string -> bool)
    ensures var r := LastLine(lines, p);
            && (r.Some? ==> 1 <= r.value <= |lines| && p(lines[r.value - 1])
                            && forall i :: r.value <= i < |lines| ==> !p(lines[i]))
            && (r.None? ==> forall i :: 0 <= i < |lines| ==> !p(lines[i]))
  {
    if lines != [] && !p(lines[|lines| - 1]) {
      LastLineSpec(lines[..|lines| - 1], p);
    }
  }

  /** `FirstLine` names a line satisfying `p` with none before it, or reports that no line does. */
  lemma {:induction false} FirstLineSpec(lines: seq<string>, p: string -> bool)
    ensures var r := FirstLine(lines, p);
            && (r.Some? ==> 1 <= r.value <= |lines| && p(lines[r.value - 1])
                            && forall i :: 0 <= i < r.value - 1 ==> !p(lines[i]))
            && (r.None? ==> forall i :: 0 <= i < |lines| ==> !p(lines[i]))
  {
    if lines != [] {
      FirstLineSpec(lines[..|lines| - 1], p);
    }
  }

  lemma LastLineNext(lines: seq<string>, i: nat, p: string -> bool)
    requires i < |lines|
    ensures LastLine(lines[..i + 1], p) == if p(lines[i]) then Some(i + 1) else LastLine(lines[..i], p)
  {
    assert lines[..i + 1][..i] == lines[..i];
  }

  lemma FirstLineNext(lines: seq<string>, i: nat, p: string -> bool)
    requires i < |lines|
    ensures FirstLine(lines[..i + 1], p)
            == if FirstLine(lines[..i], p).None? && p(lines[i]) then Some(i + 1) else FirstLine(lines[..i], p)
  {
    assert lines[..i + 1][..i] == lines[..i];
  }

  /** Some line from index `from` on is not blank. */
  predicate HasContentAfter(lines: seq<string>, from: nat) {
    exists i :: from <= i < |lines| && |Trim(lines[i])| > 0
  }

  /**
   * The import fold: from the (last) package line, or else from the first import when it is not also the
   * last, to the last import; none when only blank lines follow the last import.
   */
  function ImportFolding(lines: seq<string>): seq<FoldRange> {
    var packageLine := LastLine(lines, IsPackageLine);
    var firstImportLine := FirstLine(lines, IsImportLine);
    var lastImportLine := LastLine(lines, IsImportLine);
    if lastImportLine.Some? && !HasContentAfter(lines, lastImportLine.value) then []
    else if packageLine.Some? && firstImportLine.Some? && lastImportLine.Some? then
      [FoldRange(packageLine.value, lastImportLine.value, true)]
    else if firstImportLine.Some? && lastImportLine.Some? && firstImportLine.value < lastImportLine.value then
      [FoldRange(firstImportLine.value, lastImportLine.value, true)]
    else []
  }

  /** The first loop of `getImportFoldingRanges`: where the package line and the imports are. */
  method FindImportLines(lines: seq<string>) returns (packageLine: Option<nat>, firstImportLine: Option<nat>,
                                                     lastImportLine: Option<nat>)
    ensures packageLine == LastLine(lines, IsPackageLine)
    ensures firstImportLine == FirstLine(lines, IsImportLine)
    ensures lastImportLine == LastLine(lines, IsImportLine)
  {
    packageLine, firstImportLine, lastImportLine := None, None, None;
    for i := 0 to |lines|
      invariant packageLine == LastLine(lines[..i], IsPackageLine)
      invariant firstImportLine == FirstLine(lines[..i], IsImportLine)
      invariant lastImportLine == LastLine(lines[..i], IsImportLine)
    {
      LastLineNext(lines, i, IsPackageLine);
      FirstLineNext(lines, i, IsImportLine);
      LastLineNext(lines, i, IsImportLine);
      var trimmedLine := Trim(lines[i]);
      if StartsWith(trimmedLine, "package ") {
        PackageNotImport(lines[i]);
        packageLine := Some(i + 1);
      } else if StartsWith(trimmedLine, "import ") {
        if firstImportLine == None {
          firstImportLine := Some(i + 1);
        }
        lastImportLine := Some(i + 1);
      }
    }
    assert lines[..|lines|] == lines;
  }

  lemma PackageNotImport(line: string)
    requires IsPackageLine(line)
    ensures !IsImportLine(line)
  {
    assert Trim(line)[0] == "package "[0];
  }

  /** The second loop of `getImportFoldingRanges`: whether a non-blank line follows line `from`. */
  method ContentAfter(lines: seq<string>, from: nat) returns (found: bool)
    ensures found == HasContentAfter(lines, from)
  {
    var i := from;
    while i < |lines|
      invariant from <= i
      invariant forall k :: from <= k < i && k < |lines| ==> |Trim(lines[k])| == 0
    {
      if |Trim(lines[i])| > 0 {
        return true;
      }
      i := i + 1;
    }
    return false;
  }

  /** `getImportFoldingRanges`. */
  method ImportFoldingRanges(lines: seq<string>) returns (ranges: seq<FoldRange>)
    ensures ranges == ImportFolding(lines)
  {
    var packageLine, firstImportLine, lastImportLine := FindImportLines(lines);
    if lastImportLine.Some? {
      var hasContentAfterImports := ContentAfter(lines, lastImportLine.value);
      if !hasContentAfterImports {
        return [];
      }
    }
    if packageLine.Some? && firstImportLine.Some? && lastImportLine.Some? {
      return [FoldRange(packageLine.value, lastImportLine.value, true)];
    } else if firstImportLine.Some? && lastImportLine.Some? && firstImportLine.value < lastImportLine.value {
      return [FoldRange(firstImportLine.value, lastImportLine.value, true)];
    }
    return [];
  }

  /**
   * There is at most one import fold. It ends on the last import line, some non-blank line follows it,
   * and it hides every import whenever it does not start after the first one; without any import, or with
   * a lone import and no package line, nothing folds.
   */
  lemma ImportFoldingShape(lines: seq<string>)
    ensures var r := ImportFolding(lines);
            && |r| <= 1
            && ((forall i :: 0 <= i < |lines| ==> !IsImportLine(lines[i])) ==> r == [])
            && (|r| == 1 ==>
                  && r[0].imports && 1 <= r[0].start && 1 <= r[0].end <= |lines|
                  && IsImportLine(lines[r[0].end - 1])
                  && (forall i :: r[0].end <= i < |lines| ==> !IsImportLine(lines[i]))
                  && HasContentAfter(lines, r[0].end)
                  && (forall i :: 0 <= i < |lines| && IsImportLine(lines[i]) && r[0].start <= FirstLine(lines, IsImportLine).value
                        ==> r[0].start <= i + 1 <= r[0].end))
  {
    var first := FirstLine(lines, IsImportLine);
    var last := LastLine(lines, IsImportLine);
    FirstLineSpec(lines, IsImportLine);
    LastLineSpec(lines, IsImportLine);
    LastLineSpec(lines, IsPackageLine);
    if first.Some? {
      assert last.Some? && first.value <= last.value;
    }
    var r := ImportFolding(lines);
    if |r| == 1 {
      assert last.Some? && r[0].end == last.value;
      var l := last.value - 1;
      assert IsImportLine(lines[l]);
    }
  }

  /** The bracket scan's state: the 1-based lines of the open '{'s and the ranges emitted so far. */
  datatype Brackets = Brackets(stack: seq<int>, ranges: seq<FoldRange>)

  /**
   * One character on 0-based line `i`: '{' pushes `i + 1`; '}' pops, and a popped start other than `i`
   * emits `start..i`, so the closing line stays visible; a '}' with nothing open changes nothing.
   */
  function BracketStep(st: Brackets, c: char, i: int): Brackets {
    if c == '{' then st.(stack := st.stack + [i + 1])
    else if c == '}' && st.stack != [] then
      var start := st.stack[|st.stack| - 1];
      var stack := st.stack[..|st.stack| - 1];
      if start != i then Brackets(stack, st.ranges + [FoldRange(start, i, false)]) else st.(stack := stack)
    else st
  }

  /** The characters of `chars`, all on 0-based line `i`, one after the other. */
  function ScanChars(st: Brackets, chars: string, i: int): Brackets {
    if chars == [] then st else BracketStep(ScanChars(st, chars[..|chars| - 1], i), chars[|chars| - 1], i)
  }

  /** Every line in turn. */
  function ScanLines(lines: seq<string>): Brackets {
    if lines == [] then Brackets([], [])
    else ScanChars(ScanLines(lines[..|lines| - 1]), lines[|lines| - 1], |lines| - 1)
  }

  function BracketFolding(lines: seq<string>): seq<FoldRange> {
    ScanLines(lines).ranges
  }

  /** `getBracketFoldingRanges`: the loop over lines around the loop over one line's characters. */
  method BracketFoldingRanges(lines: seq<string>) returns (ranges: seq<FoldRange>)
    ensures ranges == BracketFolding(lines)
  {
    ranges := [];
    var stack: seq<int> := [];
    for i := 0 to |lines|
      invariant Brackets(stack, ranges) == ScanLines(lines[..i])
    {
      assert lines[..i + 1][..i] == lines[..i];
      stack, ranges := ScanLine(stack, ranges, lines[i], i);
    }
    assert lines[..|lines|] == lines;
  }

  /** The inner loop of `getBracketFoldingRanges` over the characters of line `i`. */
  method ScanLine(stack0: seq<int>, ranges0: seq<FoldRange>, line: string, i: int)
    returns (stack: seq<int>, ranges: seq<FoldRange>)
    ensures Brackets(stack, ranges) == ScanChars(Brackets(stack0, ranges0), line, i)
  {
    stack, ranges := stack0, ranges0;
    for j := 0 to |line|
      invariant Brackets(stack, ranges) == ScanChars(Brackets(stack0, ranges0), line[..j], i)
    {
      assert line[..j + 1][..j] == line[..j];
      var c := line[j];
      if c == '{' {
        stack := stack + [i + 1];
      } else if c == '}' {
        if stack != [] {
          var start := stack[|stack| - 1];
          stack := stack[..|stack| - 1];
          if start != i {
            ranges := ranges + [FoldRange(start, i, false)];
          }
        }
      }
    }
    assert line[..|line|] == line;
  }

  /**
   * What the scan keeps true after line `i`: every open '{' is on a line up to `i + 1` that holds one,
   * and every range runs from a line holding '{' to a line holding '}' no later than `i`, never starts on
   * its own end line, and appears in order of its end.
   */
  ghost predicate ScanInvariant(st: Brackets, lines: seq<string>, i: int) {
    && (forall k :: 0 <= k < |st.stack| ==> 1 <= st.stack[k] <= i + 1 && st.stack[k] <= |lines|
                                            && '{' in lines[st.stack[k] - 1])
    && (forall k :: 0 <= k < |st.ranges| ==> RangeOk(st.ranges[k], lines) && st.ranges[k].end <= i)
    && (forall k, l :: 0 <= k < l < |st.ranges| ==> st.ranges[k].end <= st.ranges[l].end)
  }

  predicate RangeOk(r: FoldRange, lines: seq<string>) {
    && !r.imports && 1 <= r.start <= |lines| && 0 <= r.end < |lines|
    && r.start != r.end && r.start <= r.end + 1
    && '{' in lines[r.start - 1] && '}' in lines[r.end]
  }

  lemma {:induction false} ScanCharsKeeps(st: Brackets, lines: seq<string>, i: nat, j: nat)
    requires i < |lines| && j <= |lines[i]|
    requires ScanInvariant(st, lines, i)
    ensures ScanInvariant(ScanChars(st, lines[i][..j], i), lines, i)
  {
    if j > 0 {
      var line := lines[i];
      assert line[..j][..j - 1] == line[..j - 1];
      ScanCharsKeeps(st, lines, i, j - 1);
      var before := ScanChars(st, line[..j - 1], i);
      var c := line[j - 1];
      assert c in line;
      var after := BracketStep(before, c, i);
      if c == '}' && before.stack != [] {
        var start := before.stack[|before.stack| - 1];
        assert start == before.stack[|before.stack| - 1];
        if start != i {
          assert RangeOk(FoldRange(start, i, false), lines);
        }
      }
    }
  }

  lemma {:induction false} ScanLinesKeeps(lines: seq<string>, n: nat)
    requires n <= |lines|
    ensures ScanInvariant(ScanLines(lines[..n]), lines, n - 1)
  {
    if n > 0 {
      var prefix := lines[..n];
      assert prefix[..n - 1] == lines[..n - 1];
      ScanLinesKeeps(lines, n - 1);
      var st := ScanLines(lines[..n - 1]);
      assert ScanInvariant(st, lines, n - 1);
      ScanCharsKeeps(st, lines, n - 1, |lines[n - 1]|);
      assert lines[n - 1][..|lines[n - 1]|] == lines[n - 1];
    }
  }

  /**
   * Every bracket fold runs from a line holding '{' to an earlier-or-later line holding '}', never from a
   * line to itself, and the folds come in the order of the lines that close them.
   */
  lemma BracketFoldingShape(lines: seq<string>)
    ensures var r := BracketFolding(lines);
            && (forall k :: 0 <= k < |r| ==> RangeOk(r[k], lines))
            && (forall k, l :: 0 <= k < l < |r| ==> r[k].end <= r[l].end)
  {
    ScanLinesKeeps(lines, |lines|);
    assert lines[..|lines|] == lines;
  }

  /** `provideFoldingRanges`: the import fold, then the bracket folds. */
  method ProvideFoldingRanges(lines: seq<string>) returns (ranges: seq<FoldRange>)
    ensures ranges == ImportFolding(lines) + BracketFolding(lines)
  {
    var imports := ImportFoldingRanges(lines);
    var brackets := BracketFoldingRanges(lines);
    ranges := imports + brackets;
  }
}
