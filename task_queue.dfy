/**
 * The shared work stack of the bulk jobs (src/workers/UsageIndex.ts and src/workers/Decompile.ts): a copy
 * of the work list popped from its end until empty, with a completed counter turned into a percentage.
 * The workers run in parallel but each `pop` is atomic in the single-threaded page, so a sequential loop
 * that lets any worker take the next item sees the same pops in the same order.
 */
module TaskQueue {
  import opened Wrappers
  import opened InsertionOrder
  import opened Archive

  /** `xs` back to front: the order in which a stack holding `xs` is popped. */
  function Reversed<T>(xs: seq<T>): (r: seq<T>)
    ensures |r| == |xs|
    ensures forall i :: 0 <= i < |xs| ==> r[i] == xs[|xs| - 1 - i]
  {
    if xs == [] then [] else [xs[|xs| - 1]] + Reversed(xs[..|xs| - 1])
  }

  /** `stack.pop()` on an array held by value: the last item and the rest, or `undefined` when empty. */
  method Pop<T>(stack: seq<T>) returns (top: Option<T>, rest: seq<T>)
    ensures stack == [] ==> top.None? && rest == []
    ensures stack != [] ==> top == Some(stack[|stack| - 1]) && rest == stack[..|stack| - 1]
  {
    if stack == [] {
      return None, [];
    }
    top, rest := Some(stack[|stack| - 1]), stack[..|stack| - 1];
  }

  /** Popping the stack in reverse takes every item once: no item is skipped or taken twice. */
  lemma {:induction false} ReversedSameItems<T>(xs: seq<T>)
    ensures multiset(Reversed(xs)) == multiset(xs)
  {
    if xs != [] {
      assert xs == xs[..|xs| - 1] + [xs[|xs| - 1]];
      assert Reversed(xs) == [xs[|xs| - 1]] + Reversed(xs[..|xs| - 1]);
      ReversedSameItems(xs[..|xs| - 1]);
    }
  }

  /** `Math.round(++completed / total * 100)` after each of the first `k` of `total` completions. */
  function DrainProgress(k: nat, total: nat): (r: seq<int>)
    requires k <= total
    ensures |r| == k
    ensures forall i :: 0 <= i < k ==> r[i] == RoundPercent(i + 1, total)
  {
    if k == 0 then [] else DrainProgress(k - 1, total) + [RoundPercent(k, total)]
  }

  /** The percentages stay within 0..100, never go down, and the last completion publishes 100. */
  lemma DrainProgressShape(k: nat, total: nat)
    requires k <= total
    ensures forall i, j :: 0 <= i <= j < k ==> 0 <= DrainProgress(k, total)[i] <= DrainProgress(k, total)[j] <= 100
    ensures 0 < k == total ==> DrainProgress(k, total)[k - 1] == 100
  {
    var r := DrainProgress(k, total);
    forall i, j | 0 <= i <= j < k
      ensures 0 <= r[i] <= r[j] <= 100
    {
      RoundPercentMonotone(i + 1, j + 1, total);
      RoundPercentBounds(j + 1, total);
    }
    if 0 < k == total {
      RoundPercentBounds(total, total);
    }
  }

  /** Both work lists are filters of the archive's distinct paths, so neither holds an entry twice. */
  lemma ClassFileNamesDistinct(jar: Jar)
    requires jar.Valid()
    ensures Distinct(ClassFileNames(jar))
  {
    FilterDistinct(jar.paths, IsClassFile);
  }

  /** Filtering a repeat-free list keeps it repeat-free, so a work list never holds an entry twice. */
  lemma {:induction false} FilterDistinct<T(!new)>(xs: seq<T>, p: T -> bool)
    requires Distinct(xs)
    ensures Distinct(Filter(xs, p))
  {
    if xs != [] {
      var init := xs[..|xs| - 1];
      FilterDistinct(init, p);
      assert xs[|xs| - 1] !in init;
    }
  }
}
