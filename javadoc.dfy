/**
 * The Javadoc editor extensions of src/javadoc/JavadocCodeExtensions.ts: the Javadoc text for a token,
 * its conversion to HTML, the view zones shown above documented class declarations, and the
 * "Edit Javadoc" code lenses on declarations.
 */
module JavadocExtensions {
  import opened Wrappers
  import opened Strings
  import opened Tokens

  /** One class's entry: its own Javadoc and those of its methods and fields, by name. */
  datatype ClassDoc = ClassDoc(javadoc: Option<string>, methods: map<string, string>, fields: map<string, string>)

  /** `JavadocData.classes`, by class name. */
  type JavadocData = map<string, ClassDoc>

  /** `record[key]`, absent as `None`. */
  function Lookup(record: map<string, string>, key: string): Option<string> {
    if key in record then Some(record[key]) else None
  }

  /** `value || null`: a missing or empty string is no Javadoc. */
  function NonEmpty(value: Option<string>): (r: Option<string>)
    ensures r.Some? <==> value.Some? && value.value != ""
    ensures r.Some? ==> r == value
  {
    if value.Some? && value.value != "" then value else None
  }

  /** `getJavadocForToken`: class, method and field tokens read their entry; other tokens have none. */
  function JavadocForToken(t: Token, javadoc: JavadocData): Option<string> {
    if t.kind !in {ClassToken, MethodToken, FieldToken} || t.className !in javadoc then None
    else
      var entry := javadoc[t.className];
      match t.kind
      case ClassToken => NonEmpty(entry.javadoc)
      case MethodToken => NonEmpty(Lookup(entry.methods, Spliced(t.name)))
      case _ => NonEmpty(Lookup(entry.fields, Spliced(t.name)))
  }

  /**
   * A token has Javadoc exactly when its class has an entry holding a non-empty text in the place its kind
   * reads: the class's own text, or the method or field of the token's name.
   */
  lemma JavadocForTokenCases(t: Token, javadoc: JavadocData, v: string)
    ensures t.kind == ClassToken ==>
              (JavadocForToken(t, javadoc) == Some(v) <==>
                 t.className in javadoc && javadoc[t.className].javadoc == Some(v) && v != "")
    ensures t.kind == MethodToken ==>
              (JavadocForToken(t, javadoc) == Some(v) <==>
                 && t.className in javadoc && Spliced(t.name) in javadoc[t.className].methods
                 && javadoc[t.className].methods[Spliced(t.name)] == v && v != "")
    ensures t.kind == FieldToken ==>
              (JavadocForToken(t, javadoc) == Some(v) <==>
                 && t.className in javadoc && Spliced(t.name) in javadoc[t.className].fields
                 && javadoc[t.className].fields[Spliced(t.name)] == v && v != "")
    ensures t.kind == ParameterToken || t.kind == LocalToken ==> JavadocForToken(t, javadoc).None?
  {
  }

  /** `formatMarkdownAsHtml`: only the first newline becomes `<br>`. */
  function FormatMarkdownAsHtml(md: string): string {
    ReplaceFirst(md, "\n", "<br>")
  }

  /** The first newline of `a + "\n" + b` is the one after `a` when `a` has none. */
  lemma FirstNewline(a: string, b: string)
    requires '\n' !in a
    ensures IndexOf(a + "\n" + b, "\n") == |a|
  {
    var s := a + "\n" + b;
    assert OccursAt(s, "\n", |a|);
    var r := IndexOf(s, "\n");
    assert r >= 0 && r <= |a|;
    assert s[r..r + 1] == "\n";
    assert s[r] == '\n';
    assert forall j :: 0 <= j < |a| ==> s[j] == a[j];
  }

  /**
   * Text without a newline is unchanged; otherwise the first newline becomes `<br>` and everything after
   * it, later newlines included, is kept as it is.
   */
  lemma FormatMarkdownAsHtmlCases(a: string, b: string)
    ensures '\n' !in a ==> FormatMarkdownAsHtml(a) == a
    ensures '\n' !in a ==> FormatMarkdownAsHtml(a + "\n" + b) == a + "<br>" + b
  {
    if '\n' !in a {
      forall j | 0 <= j < |a|
        ensures !OccursAt(a, "\n", j)
      {
        assert a[j..j + 1][0] == a[j];
      }
      FirstNewline(a, b);
      var s := a + "\n" + b;
      assert s[..|a|] == a && s[|a| + 1..] == b;
    }
  }

  /** A view zone: placed after line `afterLineNumber`, showing `html`. */
  datatype Zone = Zone(afterLineNumber: int, html: string)

  /** Zones are made for class declarations with Javadoc. */
  predicate IsZoneToken(t: Token, javadoc: JavadocData) {
    t.declaration && t.kind == ClassToken && JavadocForToken(t, javadoc).Some?
  }

  /** `IsZoneToken` for one Javadoc table, as a filter. */
  function Documented(javadoc: JavadocData): Token -> bool {
    t => IsZoneToken(t, javadoc)
  }

  /** The zone for a documented class declaration found on line `line`: placed after the line before. */
  function ZoneFor(t: Token, javadoc: JavadocData, line: int): Zone {
    var md := match JavadocForToken(t, javadoc) case Some(v) => v case None => "";
    Zone(line - 1, "<span style=\"color: #6A9955;\">" + FormatMarkdownAsHtml(md) + "</span>")
  }

  /**
   * The view-zone pass: one zone per class declaration that has Javadoc, in token order, each placed after
   * the line before its token's line (`lineOf` stands for the location lookup on the decompiled text).
   */
  method ViewZones(tokens: seq<Token>, javadoc: JavadocData, lineOf: Token -> int) returns (zones: seq<Zone>)
    ensures var documented := Filter(tokens, Documented(javadoc));
            && |zones| == |documented|
            && forall k :: 0 <= k < |zones| ==> zones[k] == ZoneFor(documented[k], javadoc, lineOf(documented[k]))
  {
    zones := [];
    for i := 0 to |tokens|
      invariant var documented := Filter(tokens[..i], Documented(javadoc));
                && |zones| == |documented|
                && forall k :: 0 <= k < |zones| ==> zones[k] == ZoneFor(documented[k], javadoc, lineOf(documented[k]))
    {
      FilterStep(tokens, i, Documented(javadoc));
      var token := tokens[i];
      if !(token.declaration && token.kind == ClassToken) {
        assert !Documented(javadoc)(token);
        continue;
      }
      var mdValue := JavadocForToken(token, javadoc);
      if mdValue.None? {
        assert !Documented(javadoc)(token);
        continue;
      }
      assert Documented(javadoc)(token);
      var html := "<span style=\"color: #6A9955;\">" + FormatMarkdownAsHtml(mdValue.value) + "</span>";
      assert Zone(lineOf(token) - 1, html) == ZoneFor(token, javadoc, lineOf(token));
      ZonesStep(zones, Filter(tokens[..i], Documented(javadoc)), token, javadoc, lineOf);
      zones := zones + [Zone(lineOf(token) - 1, html)];
    }
    assert tokens[..|tokens|] == tokens;
  }

  /** The zones for one more documented class, after those of the earlier ones. */
  lemma ZonesStep(zones: seq<Zone>, documented: seq<Token>, t: Token, javadoc: JavadocData, lineOf: Token -> int)
    requires |zones| == |documented|
    requires forall k :: 0 <= k < |zones| ==> zones[k] == ZoneFor(documented[k], javadoc, lineOf(documented[k]))
    ensures var zones' := zones + [ZoneFor(t, javadoc, lineOf(t))];
            var documented' := documented + [t];
            && |zones'| == |documented'|
            && forall k :: 0 <= k < |zones'| ==> zones'[k] == ZoneFor(documented'[k], javadoc, lineOf(documented'[k]))
  {
  }

  /** An "Edit Javadoc" lens on `line`, carrying its token. */
  datatype Lens = Lens(line: int, token: Token)

  /** Lenses go on every declaration except parameters. */
  predicate IsLensToken(t: Token) {
    t.declaration && t.kind != ParameterToken
  }

  /** `provideCodeLenses`: one lens per declaration that is not a parameter, in token order. */
  method CodeLenses(tokens: seq<Token>, lineOf: Token -> int) returns (lenses: seq<Lens>)
    ensures var declared := Filter(tokens, IsLensToken);
            && |lenses| == |declared|
            && forall k :: 0 <= k < |lenses| ==> lenses[k] == Lens(lineOf(declared[k]), declared[k])
  {
    lenses := [];
    for i := 0 to |tokens|
      invariant var declared := Filter(tokens[..i], IsLensToken);
                && |lenses| == |declared|
                && forall k :: 0 <= k < |lenses| ==> lenses[k] == Lens(lineOf(declared[k]), declared[k])
    {
      FilterStep(tokens, i, IsLensToken);
      var token := tokens[i];
      if !token.declaration || token.kind == ParameterToken {
        continue;
      }
      lenses := lenses + [Lens(lineOf(token), token)];
    }
    assert tokens[..|tokens|] == tokens;
  }
}
