/**
 * The string operations of the JavaScript and Java standard libraries that the core calls, written out
 * with their library semantics: indexOf/lastIndexOf, replace of the first occurrence, split, join,
 * trim, an ASCII-only toLowerCase, the default (code-unit) sort order and decimal printing of an int.
 */
module Strings {

  /** `s.startsWith(p)` */
  predicate StartsWith(s: string, p: string) {
    |p| <= |s| && s[..|p|] == p
  }

  /** `s.endsWith(p)` */
  predicate EndsWith(s: string, p: string) {
    |p| <= |s| && s[|s| - |p|..] == p
  }

  predicate OccursAt(s: string, sub: string, i: int) {
    0 <= i && i + |sub| <= |s| && s[i..i + |sub|] == sub
  }

  function IndexOfFrom(s: string, sub: string, i: nat): (r: int)
    ensures r == -1 || (i <= r && OccursAt(s, sub, r))
    ensures r >= 0 ==> forall j :: i <= j < r ==> !OccursAt(s, sub, j)
    ensures r == -1 ==> forall j :: i <= j ==> !OccursAt(s, sub, j)
    decreases |s| - i
  {
    if i + |sub| > |s| then -1
    else if s[i..i + |sub|] == sub then i
    else IndexOfFrom(s, sub, i + 1)
  }

  /** `s.indexOf(sub)`: the first position where `sub` occurs, or -1. */
  function IndexOf(s: string, sub: string): (r: int)
    ensures r == -1 || OccursAt(s, sub, r)
    ensures r >= 0 ==> forall j :: 0 <= j < r ==> !OccursAt(s, sub, j)
    ensures r == -1 ==> forall j :: !OccursAt(s, sub, j)
  {
    IndexOfFrom(s, sub, 0)
  }

  /** `s.includes(sub)` */
  predicate Contains(s: string, sub: string) {
    IndexOf(s, sub) >= 0
  }

  function LastIndexOfFrom(s: string, sub: string, i: int): (r: int)
    ensures r == -1 || (r <= i && OccursAt(s, sub, r))
    ensures forall j :: r < j <= i ==> !OccursAt(s, sub, j)
    decreases i + 1
  {
    if i < 0 then -1
    else if OccursAt(s, sub, i) then i
    else LastIndexOfFrom(s, sub, i - 1)
  }

  /** `s.lastIndexOf(sub)`: the last position where `sub` occurs, or -1; `|s|` for the empty string. */
  function LastIndexOf(s: string, sub: string): (r: int)
    ensures r == -1 || OccursAt(s, sub, r)
    ensures forall j :: r < j ==> !OccursAt(s, sub, j)
  {
    LastIndexOfFrom(s, sub, |s| - |sub|)
  }

  /** An occurrence with no later one is the one lastIndexOf finds. */
  lemma LastIndexOfIs(s: string, sub: string, j: int)
    requires OccursAt(s, sub, j)
    requires forall q :: j < q ==> !OccursAt(s, sub, q)
    ensures LastIndexOf(s, sub) == j
  {
  }

  /** A suffix is found at its own position. */
  lemma LastIndexOfSuffix(s: string, sub: string)
    requires EndsWith(s, sub)
    ensures LastIndexOf(s, sub) == |s| - |sub|
  {
    assert OccursAt(s, sub, |s| - |sub|);
  }

  /** `s.replace(pat, rep)` with a string pattern: only the first occurrence is replaced. */
  function ReplaceFirst(s: string, pat: string, rep: string): (r: string)
    ensures IndexOf(s, pat) < 0 ==> r == s
    ensures IndexOf(s, pat) >= 0 ==> |r| == |s| - |pat| + |rep|
  {
    var i := IndexOf(s, pat);
    if i < 0 then s else s[..i] + rep + s[i + |pat|..]
  }

  /** `s.replaceAll(a, b)` for one-character strings. */
  function ReplaceChar(s: string, a: char, b: char): (r: string)
    ensures |r| == |s|
    ensures forall i :: 0 <= i < |s| ==> r[i] == (if s[i] == a then b else s[i])
  {
    seq(|s|, i requires 0 <= i < |s| => if s[i] == a then b else s[i])
  }

  /** The index of the first `c` in `s`, or -1. */
  function IndexOfChar(s: string, c: char): (r: int)
    ensures -1 <= r < |s|
    ensures r >= 0 ==> s[r] == c
    ensures forall k :: 0 <= k < |s| && (r < 0 || k < r) ==> s[k] != c
  {
    if |s| == 0 then -1
    else if s[0] == c then 0
    else
      var k := IndexOfChar(s[1..], c);
      if k < 0 then -1 else k + 1
  }

  /** The index of the last `c` in `s`, or -1. */
  function LastIndexOfChar(s: string, c: char): (r: int)
    ensures -1 <= r < |s|
    ensures r >= 0 ==> s[r] == c
    ensures forall k :: r < k < |s| ==> s[k] != c
  {
    if |s| == 0 then -1
    else if s[|s| - 1] == c then |s| - 1
    else LastIndexOfChar(s[..|s| - 1], c)
  }

  lemma IndexOfCharFound(s: string, c: char)
    ensures IndexOfChar(s, c) == -1 <==> c !in s
    ensures LastIndexOfChar(s, c) == -1 <==> c !in s
  {
    if c in s {
      var k :| 0 <= k < |s| && s[k] == c;
    }
  }

  /** Removing the first `pat` from `pre + pat` gives `pre` when `pat` first occurs at the end. */
  lemma RemoveLastOnly(pre: string, pat: string)
    requires IndexOf(pre + pat, pat) == |pre|
    ensures ReplaceFirst(pre + pat, pat, "") == pre
  {
    var s := pre + pat;
    assert s[..|pre|] + "" + s[|pre| + |pat|..] == pre;
  }

  /** Splitting a string without the separator gives the string alone. */
  lemma SplitWithout(s: string, c: char)
    requires c !in s
    ensures Split(s, c) == [s]
  {
    IndexOfCharFound(s, c);
  }

  /** A prefix free of `c` and followed by `c` is the text before the first `c`. */
  lemma BeforeFirstIs(s: string, c: char, p: string)
    requires |p| < |s| && p == s[..|p|] && c !in p && s[|p|] == c
    ensures BeforeFirst(s, c) == p
  {
    var b := BeforeFirst(s, c);
    assert forall k :: 0 <= k < |p| ==> s[k] == p[k] != c;
    assert |b| == |p|;
    assert b == s[..|b|];
  }

  /** `s.split(c)` with a one-character separator. */
  function Split(s: string, c: char): (r: seq<string>)
    ensures |r| >= 1
    decreases |s|
  {
    var i := IndexOfChar(s, c);
    if i < 0 then [s] else [s[..i]] + Split(s[i + 1..], c)
  }

  /** `s.split(c)[0]`: the text before the first `c`, or all of `s`. */
  function BeforeFirst(s: string, c: char): (r: string)
    ensures |r| <= |s| && r == s[..|r|]
    ensures forall k :: 0 <= k < |r| ==> r[k] != c
    ensures |r| < |s| ==> s[|r|] == c
  {
    var i := IndexOfChar(s, c);
    if i < 0 then s else s[..i]
  }

  /** `s.split(c).pop()`: the text after the last `c`, or all of `s`. */
  function AfterLast(s: string, c: char): (r: string)
    ensures |r| <= |s| && r == s[|s| - |r|..]
    ensures forall k :: 0 <= k < |r| ==> r[k] != c
    ensures |r| < |s| ==> s[|s| - |r| - 1] == c
  {
    var i := LastIndexOfChar(s, c);
    s[i + 1..]
  }

  lemma AfterLastIsSuffix(s: string, c: char)
    ensures EndsWith(s, AfterLast(s, c))
  {
  }

  /** A slice of a slice is a slice of the whole. */
  lemma SliceOfSlice(s: string, i: nat, e: nat, x: nat, y: nat)
    requires i <= e <= |s| && x <= y <= e - i
    ensures s[i..e][x..y] == s[i + x..i + y]
  {
    assert forall k :: 0 <= k < y - x ==> s[i..e][x..y][k] == s[i + x + k];
  }

  /** Two strings that agree from `off` on have the same suffix there. */
  lemma SameFrom(a: string, b: string, off: nat)
    requires |a| == |b| && off <= |a|
    requires forall k :: off <= k < |a| ==> a[k] == b[k]
    ensures a[off..] == b[off..]
  {
  }

  /** Both cut the string exactly when it holds the separator, and the result never holds it. */
  lemma CutAtChar(s: string, c: char)
    ensures c !in BeforeFirst(s, c) && c !in AfterLast(s, c)
    ensures c in s <==> |BeforeFirst(s, c)| < |s|
    ensures c in s <==> |AfterLast(s, c)| < |s|
  {
    var b, a := BeforeFirst(s, c), AfterLast(s, c);
    assert forall j :: 0 <= j < |b| ==> s[j] == b[j];
    assert forall j :: 0 <= j < |a| ==> s[|s| - |a| + j] == a[j];
  }

  /** `parts.join(sep)` (JavaScript) and `String.join(sep, parts)` (Java). */
  function Join(parts: seq<string>, sep: string): string
  {
    if |parts| == 0 then ""
    else if |parts| == 1 then parts[0]
    else parts[0] + sep + Join(parts[1..], sep)
  }

  lemma {:induction false} IndexOfCharAfter(a: string, c: char, b: string)
    requires c !in a
    ensures IndexOfChar(a + [c] + b, c) == |a|
  {
    if |a| > 0 {
      assert (a + [c] + b)[1..] == a[1..] + [c] + b;
      IndexOfCharAfter(a[1..], c, b);
    }
  }

  /** Appending a separator and a word without it adds that word to the split. */
  lemma {:induction false} SplitAppendWord(s: string, c: char, w: string)
    requires c !in w
    ensures Split(s + [c] + w, c) == Split(s, c) + [w]
    decreases |s|
  {
    var i := IndexOfChar(s, c);
    var t := s + [c] + w;
    if i < 0 {
      IndexOfCharFound(s, c);
      SplitTwoWords(s, c, w);
    } else {
      SplitAppendWord(s[i + 1..], c, w);
      SplitAppendStep(s, c, w, i);
    }
  }

  /** The inductive step of `SplitAppendWord`: the first separator of `s` stays the first one. */
  lemma SplitAppendStep(s: string, c: char, w: string, i: int)
    requires 0 <= i && IndexOfChar(s, c) == i
    requires Split(s[i + 1..] + [c] + w, c) == Split(s[i + 1..], c) + [w]
    ensures Split(s + [c] + w, c) == Split(s, c) + [w]
  {
    var t := s + [c] + w;
    AppendSlices(s, c, w, i);
    SplitAt(t, c, i);
    SplitAt(s, c, i);
    assert [s[..i]] + (Split(s[i + 1..], c) + [w]) == ([s[..i]] + Split(s[i + 1..], c)) + [w];
  }

  /** Slicing `s + [c] + w` around a first separator `i` of `s`. */
  lemma AppendSlices(s: string, c: char, w: string, i: int)
    requires 0 <= i && IndexOfChar(s, c) == i
    ensures IndexOfChar(s + [c] + w, c) == i
    ensures (s + [c] + w)[i + 1..] == s[i + 1..] + [c] + w && (s + [c] + w)[..i] == s[..i]
  {
    IndexOfCharExtend(s, c, [c] + w);
    assert s + [c] + w == s + ([c] + w);
  }

  /** Text appended after the first `c` does not move it. */
  lemma IndexOfCharExtend(s: string, c: char, tail: string)
    requires IndexOfChar(s, c) >= 0
    ensures IndexOfChar(s + tail, c) == IndexOfChar(s, c)
  {
    var i := IndexOfChar(s, c);
    assert forall k :: 0 <= k <= i ==> (s + tail)[k] == s[k];
    IndexOfCharUnique(s + tail, c, i);
  }

  /** The first `c` of `s` is at `i` when `s[i]` is `c` and nothing before it is. */
  lemma IndexOfCharUnique(s: string, c: char, i: int)
    requires 0 <= i < |s| && s[i] == c && forall k :: 0 <= k < i ==> s[k] != c
    ensures IndexOfChar(s, c) == i
  {
  }

  /** Two words joined by the separator split back into the two. */
  lemma SplitTwoWords(s: string, c: char, w: string)
    requires c !in s && c !in w
    ensures Split(s + [c] + w, c) == [s, w]
    ensures Split(s, c) == [s]
  {
    var t := s + [c] + w;
    IndexOfCharAfter(s, c, w);
    assert t[..|s|] == s && t[|s| + 1..] == w;
    SplitWithout(w, c);
    SplitAt(t, c, |s|);
    SplitWithout(s, c);
  }

  /** One step of a split: the text before the first separator, then the split of the rest. */
  lemma SplitAt(s: string, c: char, i: int)
    requires 0 <= i && IndexOfChar(s, c) == i
    ensures Split(s, c) == [s[..i]] + Split(s[i + 1..], c)
  {
  }

  /** Joining the parts of a split with the separator gives the string back. */
  lemma {:induction false} JoinSplit(s: string, c: char)
    ensures Join(Split(s, c), [c]) == s
    decreases |s|
  {
    var i := IndexOfChar(s, c);
    if i >= 0 {
      JoinSplit(s[i + 1..], c);
      SplitAt(s, c, i);
      var rest := Split(s[i + 1..], c);
      assert Join([s[..i]] + rest, [c]) == s[..i] + [c] + Join(rest, [c]) by {
        assert ([s[..i]] + rest)[1..] == rest;
      }
      assert s == s[..i] + [c] + s[i + 1..];
    } else {
      IndexOfCharFound(s, c);
      SplitWithout(s, c);
    }
  }

  /** Splitting a joined list gives the list back when no part holds the separator. */
  lemma {:induction false} SplitJoin(parts: seq<string>, c: char)
    requires |parts| >= 1
    requires forall i :: 0 <= i < |parts| ==> c !in parts[i]
    ensures Split(Join(parts, [c]), c) == parts
  {
    if |parts| > 1 {
      var rest := Join(parts[1..], [c]);
      var s := parts[0] + [c] + rest;
      assert Join(parts, [c]) == s;
      IndexOfCharAfter(parts[0], c, rest);
      assert s[..|parts[0]|] == parts[0];
      assert s[|parts[0]| + 1..] == rest;
      assert Split(s, c) == [parts[0]] + Split(rest, c);
      SplitJoin(parts[1..], c);
      assert parts == [parts[0]] + parts[1..];
    } else {
      assert Join(parts, [c]) == parts[0];
      IndexOfCharFound(parts[0], c);
    }
  }

  /** JavaScript's `\s` class, which is also the set that `trim` removes. */
  predicate IsSpace(c: char) {
    c == '\t' || c == '\n' || c == '\U{B}' || c == '\U{C}' || c == '\r' || c == ' '
    || c == '\U{A0}' || c == '\U{1680}' || ('\U{2000}' <= c <= '\U{200A}')
    || c == '\U{2028}' || c == '\U{2029}' || c == '\U{202F}' || c == '\U{205F}'
    || c == '\U{3000}' || c == '\U{FEFF}'
  }

  function TrimStart(s: string): string {
    if |s| > 0 && IsSpace(s[0]) then TrimStart(s[1..]) else s
  }

  function TrimEnd(s: string): string {
    if |s| > 0 && IsSpace(s[|s| - 1]) then TrimEnd(s[..|s| - 1]) else s
  }

  /** `s.trim()` */
  function Trim(s: string): string {
    TrimEnd(TrimStart(s))
  }

  /** `s.toLowerCase()`, restricted to ASCII letters. */
  function ToLowerAscii(s: string): (r: string)
    ensures |r| == |s|
    ensures forall i :: 0 <= i < |s| ==> r[i] == (if 'A' <= s[i] <= 'Z' then (s[i] as int + 32) as char else s[i])
  {
    seq(|s|, i requires 0 <= i < |s| => if 'A' <= s[i] <= 'Z' then (s[i] as int + 32) as char else s[i])
  }

  /** The order of `Array.prototype.sort()` without a comparator: code unit by code unit, a prefix first. */
  predicate LexLe(a: string, b: string)
    decreases |a|
  {
    if |a| == 0 then true
    else if |b| == 0 then false
    else if a[0] != b[0] then a[0] < b[0]
    else LexLe(a[1..], b[1..])
  }

  lemma {:induction false} LexLeTotal(a: string, b: string)
    ensures LexLe(a, b) || LexLe(b, a)
    decreases |a|
  {
    if |a| > 0 && |b| > 0 && a[0] == b[0] {
      LexLeTotal(a[1..], b[1..]);
    }
  }

  lemma {:induction false} LexLeTransitive(a: string, b: string, c: string)
    requires LexLe(a, b) && LexLe(b, c)
    ensures LexLe(a, c)
    decreases |a|
  {
    if |a| > 0 && |b| > 0 && |c| > 0 && a[0] == b[0] && b[0] == c[0] {
      LexLeTransitive(a[1..], b[1..], c[1..]);
    }
  }

  function DigitChar(d: nat): char
    requires d < 10
  {
    ('0' as int + d) as char
  }

  function NatToString(n: nat): (r: string)
    ensures |r| >= 1
    ensures forall i :: 0 <= i < |r| ==> '0' <= r[i] <= '9'
  {
    if n < 10 then [DigitChar(n)] else NatToString(n / 10) + [DigitChar(n % 10)]
  }

  /** Java's `String.valueOf(int)` / JavaScript's `String(n)` for an integer: decimal, '-' when negative. */
  function IntToString(n: int): (r: string)
    ensures |r| >= 1
    ensures forall i :: 0 <= i < |r| ==> r[i] == '-' || '0' <= r[i] <= '9'
  {
    if n < 0 then "-" + NatToString(-n) else NatToString(n)
  }
}
