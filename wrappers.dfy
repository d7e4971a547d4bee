/** Option and Result, the two failure-carrying shapes every other module uses. */
module Wrappers {

  datatype Option<+T> = None | Some(value: T)

  /** The result of an operation that the source ends by returning or by throwing. */
  datatype Result<+T, +E> = Ok(value: T) | Err(error: E)

  /** The contents of an optional value: one element or none. */
  function OptionToSeq<T>(o: Option<T>): (r: seq<T>)
    ensures o.None? ==> r == []
    ensures o.Some? ==> r == [o.value]
  {
    if o.Some? then [o.value] else []
  }

  /** The values of the present elements, in order. */
  function Present<T>(os: seq<Option<T>>): (r: seq<T>)
    ensures |r| <= |os|
  {
    if os == [] then [] else OptionToSeq(os[0]) + Present(os[1..])
  }

  /** Every value kept is the value of one of the present elements. */
  lemma {:induction false} PresentFrom<T>(os: seq<Option<T>>, x: T)
    requires x in Present(os)
    ensures exists i :: 0 <= i < |os| && os[i] == Some(x)
  {
    if os[0] != Some(x) {
      PresentFrom(os[1..], x);
      var i :| 0 <= i < |os[1..]| && os[1..][i] == Some(x);
      assert os[i + 1] == Some(x);
    }
  }

  lemma {:induction false} PresentConcat<T>(a: seq<Option<T>>, b: seq<Option<T>>)
    ensures Present(a + b) == Present(a) + Present(b)
  {
    if a != [] {
      assert (a + b)[0] == a[0];
      assert (a + b)[1..] == a[1..] + b;
      PresentConcat(a[1..], b);
      assert Present(a + b) == OptionToSeq(a[0]) + (Present(a[1..]) + Present(b));
    } else {
      assert a + b == b;
    }
  }

  /** `xs.map(f)`. */
  function Map<A, B>(xs: seq<A>, f: A --> B): (r: seq<B>)
    requires forall i :: 0 <= i < |xs| ==> f.requires(xs[i])
    ensures |r| == |xs| && forall i :: 0 <= i < |xs| ==> r[i] == f(xs[i])
  {
    seq(|xs|, i requires 0 <= i < |xs| => f(xs[i]))
  }

  lemma MapCons<A, B>(x: A, xs: seq<A>, f: A --> B)
    requires f.requires(x) && forall i :: 0 <= i < |xs| ==> f.requires(xs[i])
    ensures forall i :: 0 <= i < |[x] + xs| ==> f.requires(([x] + xs)[i])
    ensures Map([x] + xs, f) == [f(x)] + Map(xs, f)
  {
    var ys := [x] + xs;
    assert forall i :: 0 < i < |ys| ==> ys[i] == xs[i - 1];
    var l := Map(ys, f);
    var r := [f(x)] + Map(xs, f);
    forall i | 0 <= i < |l|
      ensures l[i] == r[i]
    {
      if i > 0 {
        assert l[i] == f(xs[i - 1]);
      }
    }
  }

  /** `xs.filter(p)`. */
  function Filter<T(!new)>(xs: seq<T>, p: T -> bool): (r: seq<T>)
    ensures |r| <= |xs|
    ensures forall x :: x in r <==> x in xs && p(x)
  {
    if xs == [] then []
    else
      var rest := Filter(xs[..|xs| - 1], p);
      assert xs == xs[..|xs| - 1] + [xs[|xs| - 1]];
      if p(xs[|xs| - 1]) then rest + [xs[|xs| - 1]] else rest
  }

  /** Filtering one more element of a prefix appends it exactly when it passes. */
  lemma FilterStep<T(!new)>(xs: seq<T>, i: nat, p: T -> bool)
    requires i < |xs|
    ensures Filter(xs[..i + 1], p) == if p(xs[i]) then Filter(xs[..i], p) + [xs[i]] else Filter(xs[..i], p)
  {
    assert xs[..i + 1][..i] == xs[..i];
  }

  /** Filtering keeps relative order: it distributes over concatenation. */
  lemma {:induction false} FilterConcat<T(!new)>(a: seq<T>, b: seq<T>, p: T -> bool)
    ensures Filter(a + b, p) == Filter(a, p) + Filter(b, p)
    decreases |b|
  {
    if b == [] {
      assert a + b == a;
    } else {
      var init := b[..|b| - 1];
      assert (a + b)[..|a + b| - 1] == a + init;
      FilterConcat(a, init, p);
    }
  }
}
