/**
 * The editor tabs (src/logic/Tabs.ts): the open tabs in display order, the active tab's key and a
 * history of activated keys capped at 50 entries. `setSelectedFile` is modelled as the `selectedFile`
 * field; whether tabs are enabled is the `enable_tabs` setting's current value, passed in.
 */
module Tabs {
  import opened Wrappers
  import opened InsertionOrder
  import opened TaskQueue

  const HISTORY_LIMIT := 50

  /** An open tab: the file it shows and its scroll position. */
  datatype Tab = Tab(key: string, scroll: int)

  /** The keys of `tabs`, in display order. */
  function Keys(tabs: seq<Tab>): (r: seq<string>)
    ensures |r| == |tabs| && forall i :: 0 <= i < |tabs| ==> r[i] == tabs[i].key
  {
    seq(|tabs|, i requires 0 <= i < |tabs| => tabs[i].key)
  }

  /** `tabs.findIndex(tab => tab.key === key)`: the first position showing `key`, or -1. */
  function FindIndex(tabs: seq<Tab>, key: string): (r: int)
    ensures -1 <= r < |tabs|
    ensures r >= 0 ==> tabs[r].key == key && forall j :: 0 <= j < r ==> tabs[j].key != key
    ensures r == -1 <==> key !in Keys(tabs)
  {
    if tabs == [] then -1
    else if tabs[0].key == key then 0
    else
      var rest := FindIndex(tabs[1..], key);
      if rest == -1 then -1 else rest + 1
  }

  /** `s.splice(i, 0, x)` for a position within the array. */
  function InsertAt<T>(s: seq<T>, i: nat, x: T): (r: seq<T>)
    requires i <= |s|
    ensures |r| == |s| + 1 && r[i] == x
    ensures forall j :: 0 <= j < i ==> r[j] == s[j]
    ensures forall j :: i < j <= |s| ==> r[j] == s[j - 1]
  {
    s[..i] + [x] + s[i..]
  }

  /** `s.splice(i, 1)` for a position within the array. */
  function RemoveAt<T>(s: seq<T>, i: nat): (r: seq<T>)
    requires i < |s|
    ensures |r| == |s| - 1
    ensures forall j :: 0 <= j < i ==> r[j] == s[j]
    ensures forall j :: i <= j < |r| ==> r[j] == s[j + 1]
  {
    s[..i] + s[i + 1..]
  }

  /** Where `splice` starts for a start argument `start` on an array of `len` items. */
  function SpliceStart(len: nat, start: int): (r: nat)
    ensures r <= len
    ensures 0 <= start <= len ==> r == start
  {
    if start < 0 then (if len + start < 0 then 0 else len + start)
    else if start > len then len
    else start
  }

  /** `tabs.filter(v => v.key != key)`. */
  function WithoutKey(tabs: seq<Tab>, key: string): (r: seq<Tab>)
    ensures forall t :: t in r <==> t in tabs && t.key != key
  {
    if tabs == [] then []
    else
      var rest := WithoutKey(tabs[1..], key);
      if tabs[0].key == key then rest else [tabs[0]] + rest
  }

  /** The remaining keys are the old keys with `key` deleted, in the same order. */
  lemma {:induction false} WithoutKeyOrder(tabs: seq<Tab>, key: string)
    ensures Keys(WithoutKey(tabs, key)) == Without(Keys(tabs), key)
  {
    if tabs != [] {
      WithoutKeyOrder(tabs[1..], key);
      var rest := WithoutKey(tabs[1..], key);
      KeysCons(tabs);
      if tabs[0].key != key {
        KeysCons([tabs[0]] + rest);
        assert ([tabs[0]] + rest)[1..] == rest;
      }
    }
  }

  /** The keys of a non-empty list: the first tab's key, then the keys of the rest. */
  lemma KeysCons(tabs: seq<Tab>)
    requires tabs != []
    ensures Keys(tabs) == [tabs[0].key] + Keys(tabs[1..])
  {
    assert Keys(tabs)[1..] == Keys(tabs[1..]);
  }

  /**
   * The tabs after `openTab(key)` with tabs enabled: unchanged when `key` is open already, otherwise a new
   * tab right after the active one, or last when no tab is active.
   */
  function Opened(tabs: seq<Tab>, activeKey: string, key: string): (r: seq<Tab>) {
    if key in Keys(tabs) then tabs
    else
      var activeIndex := FindIndex(tabs, activeKey);
      InsertAt(tabs, if activeIndex >= 0 then activeIndex + 1 else |tabs|, Tab(key, 0))
  }

  /**
   * Opening never duplicates a tab and loses none: the keys become the old keys plus `key`. A new tab sits
   * right after the active one, or at the end when no tab is active; every other tab keeps its order.
   */
  lemma OpenedContents(tabs: seq<Tab>, activeKey: string, key: string)
    requires Distinct(Keys(tabs))
    ensures var r := Opened(tabs, activeKey, key);
            && Distinct(Keys(r))
            && (forall k :: k in Keys(r) <==> k in Keys(tabs) || k == key)
            && (key in Keys(tabs) ==> r == tabs)
            && (key !in Keys(tabs) ==>
                  var at := if activeKey in Keys(tabs) then FindIndex(tabs, activeKey) + 1 else |tabs|;
                  r == tabs[..at] + [Tab(key, 0)] + tabs[at..]
                  && (at > 0 && activeKey in Keys(tabs) ==> r[at - 1].key == activeKey))
  {
    if key !in Keys(tabs) {
      var at := if activeKey in Keys(tabs) then FindIndex(tabs, activeKey) + 1 else |tabs|;
      var r := Opened(tabs, activeKey, key);
      OpenedNew(tabs, activeKey, key);
      OpenedNewKeys(tabs, at, key);
      assert r == tabs[..at] + [Tab(key, 0)] + tabs[at..];
      assert at > 0 && activeKey in Keys(tabs) ==> r[at - 1] == tabs[at - 1];
    }
  }

  /** A key not yet open is inserted right after the active tab, or last when no tab is active. */
  lemma OpenedNew(tabs: seq<Tab>, activeKey: string, key: string)
    requires key !in Keys(tabs)
    ensures var at := if activeKey in Keys(tabs) then FindIndex(tabs, activeKey) + 1 else |tabs|;
            && at <= |tabs|
            && Opened(tabs, activeKey, key) == InsertAt(tabs, at, Tab(key, 0))
            && (at > 0 && activeKey in Keys(tabs) ==> tabs[at - 1].key == activeKey)
  {
  }

  /** Inserting a tab for a key not yet open keeps the keys repeat-free and adds just that key. */
  lemma OpenedNewKeys(tabs: seq<Tab>, at: nat, key: string)
    requires Distinct(Keys(tabs)) && key !in Keys(tabs) && at <= |tabs|
    ensures var r := InsertAt(tabs, at, Tab(key, 0));
            && Distinct(Keys(r))
            && (forall k :: k in Keys(r) <==> k in Keys(tabs) || k == key)
  {
    InsertKeys(tabs, at, Tab(key, 0));
    InsertDistinct(Keys(tabs), at, key);
  }

  /** The keys after an insertion are the keys with the new tab's key inserted at the same place. */
  lemma {:induction false} InsertKeys(tabs: seq<Tab>, at: nat, tab: Tab)
    requires at <= |tabs|
    ensures Keys(InsertAt(tabs, at, tab)) == InsertAt(Keys(tabs), at, tab.key)
  {
    var inserted := InsertAt(tabs, at, tab);
    var l, r := Keys(inserted), InsertAt(Keys(tabs), at, tab.key);
    forall i | 0 <= i < |l|
      ensures l[i] == r[i]
    {
      assert l[i] == inserted[i].key;
    }
  }

  /** Inserting a fresh key into repeat-free keys keeps them repeat-free and adds just that key. */
  lemma InsertDistinct(keys: seq<string>, at: nat, key: string)
    requires at <= |keys| && Distinct(keys) && key !in keys
    ensures Distinct(InsertAt(keys, at, key))
    ensures forall k :: k in InsertAt(keys, at, key) <==> k in keys || k == key
  {
    var r := InsertAt(keys, at, key);
    assert keys == keys[..at] + keys[at..];
    forall i, j | 0 <= i < j < |r|
      ensures r[i] != r[j]
    {
      if j == at {
        assert r[i] == keys[i];
      } else if i == at {
        assert r[j] == keys[j - 1];
      }
    }
  }

  /**
   * The key activated when the active tab `key` is closed: the last entry of the (already filtered)
   * history, unless there is none or it is "", then the tab left of the closed one, clamped to the
   * remaining tabs.
   */
  function NextActive(tabs: seq<Tab>, history: seq<string>, key: string): (r: string)
    requires |WithoutKey(tabs, key)| > 0
  {
    if history != [] && history[|history| - 1] != "" then history[|history| - 1]
    else
      var remaining := WithoutKey(tabs, key);
      var i := FindIndex(tabs, key) - 1;
      var i := if i < 0 then 0 else i;
      var i := if i > |remaining| - 1 then |remaining| - 1 else i;
      remaining[i].key
  }

  lemma WithoutKeyKeys(tabs: seq<Tab>, key: string, k: string)
    ensures k in Keys(WithoutKey(tabs, key)) <==> k in Keys(tabs) && k != key
    ensures Distinct(Keys(tabs)) ==> Distinct(Keys(WithoutKey(tabs, key)))
  {
    WithoutKeyOrder(tabs, key);
  }

  /** Removing a key present once from repeat-free keys removes exactly one tab. */
  lemma WithoutKeyCount(tabs: seq<Tab>, key: string)
    requires Distinct(Keys(tabs))
    ensures |WithoutKey(tabs, key)| >= |tabs| - 1
  {
    WithoutKeyOrder(tabs, key);
  }

  /** The keys after a removal are the keys with that position removed. */
  lemma {:induction false} RemoveKeys(tabs: seq<Tab>, at: nat)
    requires at < |tabs|
    ensures Keys(RemoveAt(tabs, at)) == RemoveAt(Keys(tabs), at)
  {
    var removed := RemoveAt(tabs, at);
    var l, r := Keys(removed), RemoveAt(Keys(tabs), at);
    forall i | 0 <= i < |l|
      ensures l[i] == r[i]
    {
      assert l[i] == removed[i].key;
    }
  }

  /** Removing a position from repeat-free keys leaves them repeat-free and without the removed key. */
  lemma RemoveDistinct(keys: seq<string>, at: nat)
    requires at < |keys| && Distinct(keys)
    ensures Distinct(RemoveAt(keys, at))
    ensures forall k :: k in RemoveAt(keys, at) <==> k in keys && k != keys[at]
  {
    var r := RemoveAt(keys, at);
    forall k | k in keys && k != keys[at]
      ensures k in r
    {
      var i :| 0 <= i < |keys| && keys[i] == k;
      if i < at {
        assert r[i] == k;
      } else {
        assert r[i - 1] == k;
      }
    }
  }

  /**
   * The tabs after `setTabPosition(key, placeIndex)`: an unknown key changes nothing; otherwise the tab
   * is taken out and put back at `placeIndex`, or one earlier when it moves right, past its own old slot.
   */
  function Moved(tabs: seq<Tab>, key: string, placeIndex: int): (r: seq<Tab>) {
    var currentIndex := FindIndex(tabs, key);
    if currentIndex == -1 then tabs
    else
      var rest := RemoveAt(tabs, currentIndex);
      var index := if placeIndex > currentIndex then placeIndex - 1 else placeIndex;
      InsertAt(rest, SpliceStart(|rest|, index), tabs[currentIndex])
  }

  /** Moving keeps the same tabs: the same multiset, the same keys, still repeat-free. */
  lemma MovedContents(tabs: seq<Tab>, key: string, placeIndex: int)
    requires Distinct(Keys(tabs))
    ensures var r := Moved(tabs, key, placeIndex);
            && multiset(r) == multiset(tabs)
            && Distinct(Keys(r))
            && (forall k :: k in Keys(r) <==> k in Keys(tabs))
            && (key !in Keys(tabs) ==> r == tabs)
  {
    var c := FindIndex(tabs, key);
    if c != -1 {
      var rest := RemoveAt(tabs, c);
      var dest := SpliceStart(|rest|, if placeIndex > c then placeIndex - 1 else placeIndex);
      RemoveKeys(tabs, c);
      RemoveDistinct(Keys(tabs), c);
      InsertKeys(rest, dest, tabs[c]);
      InsertDistinct(Keys(rest), dest, key);
      MoveSameItems(tabs, c, dest);
    }
  }

  /**
   * The moved tab lands at `placeIndex`, one less when it moves right, clamped as `splice` clamps; taking
   * it out of the result leaves the other tabs in their old order.
   */
  lemma MovedPlace(tabs: seq<Tab>, key: string, placeIndex: int)
    requires key in Keys(tabs)
    ensures var c := FindIndex(tabs, key);
            var dest := SpliceStart(|tabs| - 1, if placeIndex > c then placeIndex - 1 else placeIndex);
            var r := Moved(tabs, key, placeIndex);
            && r[dest] == tabs[c]
            && RemoveAt(r, dest) == RemoveAt(tabs, c)
            && (0 <= placeIndex <= |tabs| ==> dest == (if placeIndex > c then placeIndex - 1 else placeIndex))
  {
    var c := FindIndex(tabs, key);
    var rest := RemoveAt(tabs, c);
    var dest := SpliceStart(|rest|, if placeIndex > c then placeIndex - 1 else placeIndex);
    var r := InsertAt(rest, dest, tabs[c]);
    assert Moved(tabs, key, placeIndex) == r;
    InsertThenRemove(rest, dest, tabs[c]);
    assert r[dest] == tabs[c] && RemoveAt(r, dest) == rest;
  }

  /** Removing what was just inserted gives back the original. */
  lemma InsertThenRemove<T>(s: seq<T>, i: nat, x: T)
    requires i <= |s|
    ensures RemoveAt(InsertAt(s, i, x), i) == s
  {
    assert InsertAt(s, i, x)[..i] == s[..i];
    assert InsertAt(s, i, x)[i + 1..] == s[i..];
  }

  /** Taking an item out and putting it back anywhere keeps the same multiset of items. */
  lemma MoveSameItems<T>(s: seq<T>, c: nat, dest: nat)
    requires c < |s| && dest < |s|
    ensures multiset(InsertAt(RemoveAt(s, c), dest, s[c])) == multiset(s)
  {
    var x := s[c];
    var rest := RemoveAt(s, c);
    var r := InsertAt(rest, dest, x);
    SplitSameItems(s[..c], [x], s[c + 1..]);
    assert s == s[..c] + [x] + s[c + 1..];
    SplitSameItems(rest[..dest], [x], rest[dest..]);
    assert rest == rest[..dest] + rest[dest..];
    assert multiset(rest) == multiset(s[..c]) + multiset(s[c + 1..]);
    assert r == rest[..dest] + [x] + rest[dest..];
    assert multiset(r) == multiset(rest) + multiset([x]);
    assert multiset(s) == multiset(rest) + multiset([x]);
  }

  lemma SplitSameItems<T>(a: seq<T>, b: seq<T>, c: seq<T>)
    ensures multiset(a + b + c) == multiset(a) + multiset(b) + multiset(c)
    ensures multiset(a + c) == multiset(a) + multiset(c)
  {
  }

  /** The three subjects and the selected file, as one value. */
  datatype TabsState = TabsState(openTabs: seq<Tab>, activeTabKey: string, tabHistory: seq<string>, selectedFile: string)

  /**
   * Tab keys are distinct, at least one tab is open, and the history is within its cap and names only open
   * tabs.
   */
  ghost predicate Valid(s: TabsState) {
    Distinct(Keys(s.openTabs)) && |s.openTabs| >= 1 && |s.tabHistory| <= HISTORY_LIMIT
    && forall h :: h in s.tabHistory ==> h in Keys(s.openTabs)
  }

  /** One tab, active and in the history, for the file selected at start. */
  function Initial(file: string): (r: TabsState)
    ensures Valid(r)
  {
    assert Keys([Tab(file, 0)]) == [file];
    TabsState([Tab(file, 0)], file, [file], file)
  }

  /** The state after `openTab(key)`. */
  function OpenTabOf(s: TabsState, key: string, enableTabs: bool): (r: TabsState) {
    if !enableTabs then s.(selectedFile := key)
    else
      var tabs := Opened(s.openTabs, s.activeTabKey, key);
      if s.activeTabKey != key then
        TabsState(tabs, key, if |s.tabHistory| < HISTORY_LIMIT then s.tabHistory + [key] else s.tabHistory, key)
      else
        s.(openTabs := tabs)
  }

  /**
   * With tabs disabled only the selected file changes. Otherwise `key` ends up open and active, the tabs
   * gain at most that key, the history gains at most that key and never passes its cap, and the state
   * stays valid.
   */
  lemma OpenTabValid(s: TabsState, key: string, enableTabs: bool)
    requires Valid(s)
    ensures var r := OpenTabOf(s, key, enableTabs);
            && Valid(r)
            && (!enableTabs ==> r.openTabs == s.openTabs && r.activeTabKey == s.activeTabKey
                                && r.tabHistory == s.tabHistory && r.selectedFile == key)
            && (enableTabs ==>
                  && r.activeTabKey == key && key in Keys(r.openTabs)
                  && (forall k :: k in Keys(r.openTabs) <==> k in Keys(s.openTabs) || k == key)
                  && |s.tabHistory| <= |r.tabHistory| <= |s.tabHistory| + 1
                  && r.tabHistory[..|s.tabHistory|] == s.tabHistory
                  && (|r.tabHistory| > |s.tabHistory| ==> r.tabHistory[|s.tabHistory|] == key))
  {
    OpenedContents(s.openTabs, s.activeTabKey, key);
    if enableTabs {
      var r := OpenTabOf(s, key, enableTabs);
      assert r.tabHistory == s.tabHistory || r.tabHistory == s.tabHistory + [key];
    }
  }

  /** The state after `closeTab(key)`: the history is filtered, then popped when the active tab closes. */
  function CloseTabOf(s: TabsState, key: string, enableTabs: bool): (r: TabsState)
    requires Distinct(Keys(s.openTabs))
  {
    if |s.openTabs| <= 1 then s
    else
      WithoutKeyCount(s.openTabs, key);
      var history := Without(s.tabHistory, key);
      var modifiedOpenTabs := WithoutKey(s.openTabs, key);
      var after :=
        if key == s.activeTabKey then
          var popped := if history == [] then [] else history[..|history| - 1];
          OpenTabOf(s.(tabHistory := popped), NextActive(s.openTabs, history, key), enableTabs)
        else
          s.(tabHistory := history);
      after.(openTabs := modifiedOpenTabs)
  }

  /** An inactive close drops `key` from the tabs and the history and touches nothing else. */
  lemma CloseInactiveShape(s: TabsState, key: string, enableTabs: bool)
    requires Distinct(Keys(s.openTabs)) && |s.openTabs| > 1 && key != s.activeTabKey
    ensures CloseTabOf(s, key, enableTabs)
            == TabsState(WithoutKey(s.openTabs, key), s.activeTabKey, Without(s.tabHistory, key), s.selectedFile)
  {
  }

  /** Closing the active tab leaves the popped history, extended at most by the newly activated key. */
  lemma CloseActiveShape(s: TabsState, key: string, enableTabs: bool)
    requires Distinct(Keys(s.openTabs)) && |s.openTabs| > 1 && key == s.activeTabKey
    ensures var history := Without(s.tabHistory, key);
            var popped := if history == [] then [] else history[..|history| - 1];
            var r := CloseTabOf(s, key, enableTabs);
            && |WithoutKey(s.openTabs, key)| > 0
            && var next := NextActive(s.openTabs, history, key);
            && r.openTabs == WithoutKey(s.openTabs, key)
            && (r.tabHistory == popped || r.tabHistory == popped + [next])
            && (enableTabs ==> r.activeTabKey == next && r.selectedFile == next)
  {
    WithoutKeyCount(s.openTabs, key);
    CloseActiveHistory(s, key, enableTabs);
  }

  /** The history, active key and selected file after closing the active tab. */
  lemma CloseActiveHistory(s: TabsState, key: string, enableTabs: bool)
    requires Distinct(Keys(s.openTabs)) && |s.openTabs| > 1 && key == s.activeTabKey
    ensures var history := Without(s.tabHistory, key);
            var popped := if history == [] then [] else history[..|history| - 1];
            var next := NextActive(s.openTabs, history, key);
            var r := CloseTabOf(s, key, enableTabs);
            && r.openTabs == WithoutKey(s.openTabs, key)
            && (r.tabHistory == popped || r.tabHistory == popped + [next])
            && (enableTabs ==> r.activeTabKey == next && r.selectedFile == next)
  {
    var history := Without(s.tabHistory, key);
    var popped := if history == [] then [] else history[..|history| - 1];
    var next := NextActive(s.openTabs, history, key);
    var reopened := OpenTabOf(s.(tabHistory := popped), next, enableTabs);
    assert CloseTabOf(s, key, enableTabs) == reopened.(openTabs := WithoutKey(s.openTabs, key));
    OpenTabHistory(s.(tabHistory := popped), next, enableTabs);
    NextActiveNotClosed(s.openTabs, history, key);
  }

  /** What `openTab` does to the history, the active key and the selected file. */
  lemma OpenTabHistory(s: TabsState, key: string, enableTabs: bool)
    ensures var r := OpenTabOf(s, key, enableTabs);
            && (r.tabHistory == s.tabHistory || r.tabHistory == s.tabHistory + [key])
            && (enableTabs ==> r.activeTabKey == key && (s.activeTabKey != key ==> r.selectedFile == key))
  {
  }

  /** The key activated after a close is never the closed key. */
  lemma NextActiveNotClosed(tabs: seq<Tab>, history: seq<string>, key: string)
    requires |WithoutKey(tabs, key)| > 0 && key !in history
    ensures NextActive(tabs, history, key) != key
  {
    if !(history != [] && history[|history| - 1] != "") {
      var remaining := WithoutKey(tabs, key);
      var left := FindIndex(tabs, key) - 1;
      var clamped := if left < 0 then 0 else left;
      var i := if clamped > |remaining| - 1 then |remaining| - 1 else clamped;
      NextActiveFromLeft(tabs, history, key);
      assert remaining[i] in remaining;
    }
  }

  /** Closing keeps the state valid. */
  lemma CloseTabKeepsValid(s: TabsState, key: string, enableTabs: bool)
    requires Valid(s)
    ensures Valid(CloseTabOf(s, key, enableTabs))
  {
    if |s.openTabs| > 1 {
      if key == s.activeTabKey {
        CloseActiveValid(s, key, enableTabs);
      } else {
        CloseInactiveValid(s, key, enableTabs);
      }
    }
  }

  lemma CloseActiveValid(s: TabsState, key: string, enableTabs: bool)
    requires Valid(s) && |s.openTabs| > 1 && key == s.activeTabKey
    ensures Valid(CloseTabOf(s, key, enableTabs))
  {
    WithoutKeyCount(s.openTabs, key);
    WithoutKeyKeys(s.openTabs, key, key);
    var history := Without(s.tabHistory, key);
    var remaining := WithoutKey(s.openTabs, key);
    var r := CloseTabOf(s, key, enableTabs);
    var popped := if history == [] then [] else history[..|history| - 1];
    var next := NextActive(s.openTabs, history, key);
    CloseActiveShape(s, key, enableTabs);
    CloseActiveNext(s, key);
    PoppedWithin(s, key);
    forall h | h in r.tabHistory
      ensures h in Keys(remaining)
    {
      if h != next {
        assert h in popped;
      }
    }
  }

  lemma CloseInactiveValid(s: TabsState, key: string, enableTabs: bool)
    requires Valid(s) && |s.openTabs| > 1 && key != s.activeTabKey
    ensures Valid(CloseTabOf(s, key, enableTabs))
  {
    WithoutKeyCount(s.openTabs, key);
    WithoutKeyKeys(s.openTabs, key, key);
    var history := Without(s.tabHistory, key);
    var remaining := WithoutKey(s.openTabs, key);
    CloseInactiveShape(s, key, enableTabs);
    forall h | h in history
      ensures h in Keys(remaining)
    {
      WithoutKeyKeys(s.openTabs, key, h);
    }
  }

  /**
   * Closing is a no-op with one tab open. Otherwise `key` leaves the tabs and the history and every other
   * tab stays; an inactive close keeps the active tab, and closing the active tab with tabs enabled
   * activates and selects a tab that is still open.
   */
  lemma CloseTabEffect(s: TabsState, key: string, enableTabs: bool)
    requires Valid(s)
    ensures var r := CloseTabOf(s, key, enableTabs);
            && (|s.openTabs| <= 1 ==> r == s)
            && (|s.openTabs| > 1 ==>
                  && (forall k :: k in Keys(r.openTabs) <==> k in Keys(s.openTabs) && k != key)
                  && key !in r.tabHistory
                  && (key != s.activeTabKey ==> r.activeTabKey == s.activeTabKey && r.selectedFile == s.selectedFile)
                  && (key == s.activeTabKey && enableTabs ==>
                        r.activeTabKey in Keys(r.openTabs) && r.selectedFile == r.activeTabKey))
  {
    if |s.openTabs| > 1 {
      WithoutKeyCount(s.openTabs, key);
      var history := Without(s.tabHistory, key);
      var remaining := WithoutKey(s.openTabs, key);
      var r := CloseTabOf(s, key, enableTabs);
      forall k
        ensures k in Keys(remaining) <==> k in Keys(s.openTabs) && k != key
      {
        WithoutKeyKeys(s.openTabs, key, k);
      }
      if key == s.activeTabKey {
        var popped := if history == [] then [] else history[..|history| - 1];
        CloseActiveShape(s, key, enableTabs);
        CloseActiveNext(s, key);
        assert key !in popped;
      } else {
        CloseInactiveShape(s, key, enableTabs);
      }
    }
  }

  /** The key activated after closing the active tab is a remaining tab. */
  lemma CloseActiveNext(s: TabsState, key: string)
    requires Valid(s) && |s.openTabs| > 1
    ensures |WithoutKey(s.openTabs, key)| > 0
            && NextActive(s.openTabs, Without(s.tabHistory, key), key) in Keys(WithoutKey(s.openTabs, key))
  {
    WithoutKeyCount(s.openTabs, key);
    var history := Without(s.tabHistory, key);
    var remaining := WithoutKey(s.openTabs, key);
    if history != [] && history[|history| - 1] != "" {
      var last := history[|history| - 1];
      assert last in history;
      WithoutKeyKeys(s.openTabs, key, last);
      NextActiveFromHistory(s.openTabs, history, key);
    } else {
      var i := FindIndex(s.openTabs, key) - 1;
      i := if i < 0 then 0 else i;
      i := if i > |remaining| - 1 then |remaining| - 1 else i;
      NextActiveFromLeft(s.openTabs, history, key);
      assert remaining[i].key == Keys(remaining)[i];
    }
  }

  lemma NextActiveFromHistory(tabs: seq<Tab>, history: seq<string>, key: string)
    requires |WithoutKey(tabs, key)| > 0 && history != [] && history[|history| - 1] != ""
    ensures NextActive(tabs, history, key) == history[|history| - 1]
  {
  }

  lemma NextActiveFromLeft(tabs: seq<Tab>, history: seq<string>, key: string)
    requires |WithoutKey(tabs, key)| > 0 && !(history != [] && history[|history| - 1] != "")
    ensures var remaining := WithoutKey(tabs, key);
            var i := FindIndex(tabs, key) - 1;
            var i := if i < 0 then 0 else i;
            var i := if i > |remaining| - 1 then |remaining| - 1 else i;
            NextActive(tabs, history, key) == remaining[i].key
  {
    var remaining := WithoutKey(tabs, key);
    var left := FindIndex(tabs, key) - 1;
    var clamped := if left < 0 then 0 else left;
    var i := if clamped > |remaining| - 1 then |remaining| - 1 else clamped;
    assert NextActive(tabs, history, key) == remaining[i].key;
  }

  /** After the close filters and pops the history, what is left names remaining tabs only. */
  lemma PoppedWithin(s: TabsState, key: string)
    requires Valid(s)
    ensures var history := Without(s.tabHistory, key);
            var popped := if history == [] then [] else history[..|history| - 1];
            |popped| <= HISTORY_LIMIT && forall h :: h in popped ==> h in Keys(WithoutKey(s.openTabs, key))
  {
    var history := Without(s.tabHistory, key);
    var popped := if history == [] then [] else history[..|history| - 1];
    forall h | h in popped
      ensures h in Keys(WithoutKey(s.openTabs, key))
    {
      assert h in history;
      WithoutKeyKeys(s.openTabs, key, h);
    }
  }

  /** The state after `setTabPosition(key, placeIndex)`: only the order of the tabs changes. */
  function SetTabPositionOf(s: TabsState, key: string, placeIndex: int): (r: TabsState) {
    s.(openTabs := Moved(s.openTabs, key, placeIndex))
  }

  /** Reordering keeps the state valid and the same tabs open. */
  lemma SetTabPositionValid(s: TabsState, key: string, placeIndex: int)
    requires Valid(s)
    ensures var r := SetTabPositionOf(s, key, placeIndex);
            Valid(r) && multiset(r.openTabs) == multiset(s.openTabs)
  {
    MovedContents(s.openTabs, key, placeIndex);
  }

  class TabState {
    var openTabs: seq<Tab>
    var activeTabKey: string
    var tabHistory: seq<string>
    var selectedFile: string

    function State(): TabsState
      reads this
    {
      TabsState(openTabs, activeTabKey, tabHistory, selectedFile)
    }

    constructor(file: string)
      ensures State() == Initial(file)
    {
      openTabs := [Tab(file, 0)];
      activeTabKey := file;
      tabHistory := [file];
      selectedFile := file;
    }

    /** `openTab(key)`. */
    method OpenTab(key: string, enableTabs: bool)
      modifies this
      ensures State() == OpenTabOf(old(State()), key, enableTabs)
    {
      if !enableTabs {
        selectedFile := key;
        return;
      }
      var tabs := openTabs;
      var activeIndex := FindIndex(tabs, activeTabKey);
      if key !in Keys(tabs) {
        var insertIndex := if activeIndex >= 0 then activeIndex + 1 else |tabs|;
        tabs := InsertAt(tabs, insertIndex, Tab(key, 0));
        openTabs := tabs;
      }
      if activeTabKey != key {
        activeTabKey := key;
        selectedFile := key;
        if |tabHistory| < HISTORY_LIMIT {
          tabHistory := tabHistory + [key];
        }
      }
    }

    /** `closeTab(key)`; the tab keys being distinct is what lets a tab always remain. */
    method CloseTab(key: string, enableTabs: bool)
      requires Distinct(Keys(openTabs))
      modifies this
      ensures State() == CloseTabOf(old(State()), key, enableTabs)
    {
      if |openTabs| <= 1 {
        return;
      }
      ghost var s0 := State();
      WithoutKeyCount(openTabs, key);
      tabHistory := Without(tabHistory, key);
      var modifiedOpenTabs := WithoutKey(openTabs, key);
      if key == activeTabKey {
        ghost var history0 := tabHistory;
        var newKey, history := Pop(tabHistory);
        tabHistory := history;
        var next: string;
        if newKey.None? || newKey.value == "" {
          var i := FindIndex(openTabs, key) - 1;
          i := if i < 0 then 0 else i;
          i := if i > |modifiedOpenTabs| - 1 then |modifiedOpenTabs| - 1 else i;
          next := modifiedOpenTabs[i].key;
        } else {
          next := newKey.value;
        }
        assert next == NextActive(s0.openTabs, history0, key);
        ghost var mid := s0.(tabHistory := if history0 == [] then [] else history0[..|history0| - 1]);
        assert State() == mid;
        OpenTab(next, enableTabs);
        assert State() == OpenTabOf(mid, next, enableTabs);
      }
      openTabs := modifiedOpenTabs;
    }

    /** `setTabPosition(key, placeIndex)`. */
    method SetTabPosition(key: string, placeIndex: int)
      modifies this
      ensures State() == SetTabPositionOf(old(State()), key, placeIndex)
    {
      var tabs := openTabs;
      var currentIndex := FindIndex(tabs, key);
      if currentIndex == -1 {
        return;
      }
      var currentTab := tabs[currentIndex];
      var rest := RemoveAt(tabs, currentIndex);
      var index := placeIndex;
      if placeIndex > currentIndex {
        index := index - 1;
      }
      var moved := InsertAt(rest, SpliceStart(|rest|, index), currentTab);
      assert moved == Moved(tabs, key, placeIndex);
      openTabs := moved;
    }
  }
}
