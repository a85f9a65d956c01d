/** First-match search over a sequence, the shape of LINQ's `FirstOrDefault(pred)`
    and of every early-returning `foreach` loop in the pipeline. */
module Search {
  import opened Wrappers

  /** True when no element before position `k` satisfies `p`. */
  ghost predicate NoneBefore<T>(xs: seq<T>, p: T -> bool, k: int)
    requires k <= |xs|
  {
    forall i :: 0 <= i < k ==> !p(xs[i])
  }

  /** Index of the first element of `xs` satisfying `p`, or None. */
  function FirstIndex<T>(xs: seq<T>, p: T -> bool): (r: Option<nat>)
    ensures r.Some? ==> r.value < |xs| && p(xs[r.value]) && NoneBefore(xs, p, r.value)
    ensures r.None? ==> NoneBefore(xs, p, |xs|)
  {
    if xs == [] then None
    else if p(xs[0]) then Some(0)
    else
      match FirstIndex(xs[1..], p)
      case None => None
      case Some(k) => Some(k + 1)
  }

  /** The first element satisfying `p`, or None. */
  function FirstWhere<T>(xs: seq<T>, p: T -> bool): (r: Option<T>)
    ensures r.Some? <==> exists i :: 0 <= i < |xs| && p(xs[i])
    ensures r.Some? ==> r.value in xs && p(r.value)
  {
    match FirstIndex(xs, p)
    case None => None
    case Some(k) => Some(xs[k])
  }

  /** A satisfying position with none before it is the first index. */
  lemma FirstIndexAt<T>(xs: seq<T>, p: T -> bool, k: nat)
    requires k < |xs| && p(xs[k]) && NoneBefore(xs, p, k)
    ensures FirstIndex(xs, p) == Some(k)
  {
  }

  /** With no satisfying element there is no first index. */
  lemma FirstIndexNone<T>(xs: seq<T>, p: T -> bool)
    requires NoneBefore(xs, p, |xs|)
    ensures FirstIndex(xs, p) == None
  {
  }

  /** `FirstWhere` picks the element at the first satisfying position. */
  lemma FirstWhereAt<T>(xs: seq<T>, p: T -> bool, k: nat)
    requires k < |xs| && p(xs[k]) && NoneBefore(xs, p, k)
    ensures FirstWhere(xs, p) == Some(xs[k])
  {
  }

  /** Extending a prefix by one element changes the first match only if there was none. */
  lemma FirstIndexSnoc<T>(xs: seq<T>, p: T -> bool, i: nat)
    requires i < |xs|
    ensures FirstIndex(xs[..i+1], p) ==
              match FirstIndex(xs[..i], p)
              case Some(k) => Some(k)
              case None => if p(xs[i]) then Some(i) else None
  {
  }

  /** The elements of `xs` satisfying `p`, in their original order (LINQ's `Where`). */
  function Filter<T>(xs: seq<T>, p: T -> bool): (r: seq<T>)
    ensures |r| <= |xs|
  {
    if xs == [] then []
    else Filter(xs[..|xs| - 1], p) + (if p(xs[|xs| - 1]) then [xs[|xs| - 1]] else [])
  }

  /** The kept elements are exactly the elements of `xs` satisfying `p`. */
  lemma {:induction false} FilterMembers<T>(xs: seq<T>, p: T -> bool)
    ensures forall x :: x in Filter(xs, p) <==> x in xs && p(x)
  {
    if xs != [] {
      var n := |xs| - 1;
      FilterMembers(xs[..n], p);
      assert xs == xs[..n] + [xs[n]];
    }
  }

  /** Filtering distributes over concatenation. */
  lemma {:induction false} FilterAppend<T>(xs: seq<T>, ys: seq<T>, p: T -> bool)
    ensures Filter(xs + ys, p) == Filter(xs, p) + Filter(ys, p)
  {
    if ys == [] {
      assert xs + ys == xs;
    } else {
      var n := |ys| - 1;
      assert (xs + ys)[..|xs + ys| - 1] == xs + ys[..n];
      FilterAppend(xs, ys[..n], p);
    }
  }

  /** Filtering one more element of a slice. */
  lemma FilterSliceSnoc<T>(xs: seq<T>, p: T -> bool, a: nat, b: nat)
    requires a <= b < |xs|
    ensures Filter(xs[a..b + 1], p) == Filter(xs[a..b], p) + (if p(xs[b]) then [xs[b]] else [])
  {
    assert xs[a..b + 1][..b - a] == xs[a..b];
  }

  /** Filtering one more element of a prefix. */
  lemma FilterSnoc<T>(xs: seq<T>, p: T -> bool, i: nat)
    requires i < |xs|
    ensures Filter(xs[..i+1], p) == Filter(xs[..i], p) + (if p(xs[i]) then [xs[i]] else [])
  {
    assert xs[..i+1][..i] == xs[..i];
  }

  /** The values of the `Some`s in `xs`, in order: what a loop that skips null results collects. */
  function Somes<T>(xs: seq<Option<T>>): (r: seq<T>)
    ensures |r| <= |xs|
  {
    if xs == [] then []
    else Somes(xs[..|xs| - 1]) + match xs[|xs| - 1] case Some(v) => [v] case None => []
  }

  /** The positions of the `Some`s in `xs`, in order. */
  ghost function SomePositions<T>(xs: seq<Option<T>>): seq<nat> {
    if xs == [] then []
    else SomePositions(xs[..|xs| - 1]) + if xs[|xs| - 1].Some? then [|xs| - 1] else []
  }

  /** Each collected value comes from its own position, and the positions increase. */
  lemma {:induction false} SomesOrigin<T>(xs: seq<Option<T>>)
    ensures |SomePositions(xs)| == |Somes(xs)|
    ensures forall k :: 0 <= k < |Somes(xs)| ==>
              SomePositions(xs)[k] < |xs| && xs[SomePositions(xs)[k]] == Some(Somes(xs)[k])
    ensures forall k, l :: 0 <= k < l < |Somes(xs)| ==> SomePositions(xs)[k] < SomePositions(xs)[l]
  {
    if xs != [] {
      var n := |xs| - 1;
      SomesOrigin(xs[..n]);
      var vs, ps := Somes(xs[..n]), SomePositions(xs[..n]);
      assert forall k :: 0 <= k < |ps| ==> xs[..n][ps[k]] == xs[ps[k]];
      match xs[n] {
        case None =>
          assert Somes(xs) == vs && SomePositions(xs) == ps;
        case Some(v) =>
          assert Somes(xs) == vs + [v] && SomePositions(xs) == ps + [n];
      }
    }
  }

  /** Collecting from one more element of a prefix. */
  lemma SomesSnoc<T>(xs: seq<Option<T>>, i: nat)
    requires i < |xs|
    ensures Somes(xs[..i + 1]) == Somes(xs[..i]) + match xs[i] case Some(v) => [v] case None => []
  {
    assert xs[..i + 1][..i] == xs[..i];
  }

  /** The outputs of `f` on each element of `xs`, one after another (LINQ's `SelectMany`). */
  function Flatten<T, U>(xs: seq<T>, f: T -> seq<U>): seq<U> {
    if xs == [] then []
    else Flatten(xs[..|xs| - 1], f) + f(xs[|xs| - 1])
  }

  /** Flattening one more element of a prefix. */
  lemma FlattenSnoc<T, U>(xs: seq<T>, f: T -> seq<U>, i: nat)
    requires i < |xs|
    ensures Flatten(xs[..i + 1], f) == Flatten(xs[..i], f) + f(xs[i])
  {
    assert xs[..i + 1][..i] == xs[..i];
  }

  /** Flattening a concatenation flattens each part. */
  lemma {:induction false} FlattenAppend<T, U>(xs: seq<T>, ys: seq<T>, f: T -> seq<U>)
    ensures Flatten(xs + ys, f) == Flatten(xs, f) + Flatten(ys, f)
  {
    if ys == [] {
      assert xs + ys == xs;
    } else {
      var n := |ys| - 1;
      FlattenAppend(xs, ys[..n], f);
      assert (xs + ys)[..|xs + ys| - 1] == xs + ys[..n];
    }
  }

  /** `f` applied to each element of `xs`, in order (LINQ's `Select`), built from the back. */
  function Map<T, U>(xs: seq<T>, f: T -> U): (r: seq<U>)
    ensures |r| == |xs|
    ensures forall i :: 0 <= i < |xs| ==> r[i] == f(xs[i])
  {
    if xs == [] then []
    else Map(xs[..|xs| - 1], f) + [f(xs[|xs| - 1])]
  }

  /** Mapping one more element of a prefix. */
  lemma MapSnoc<T, U>(xs: seq<T>, f: T -> U, i: nat)
    requires i < |xs|
    ensures Map(xs[..i + 1], f) == Map(xs[..i], f) + [f(xs[i])]
  {
    assert xs[..i + 1][..i] == xs[..i];
  }

  /** The values `f` yields on the elements of `xs`, in order, skipping the elements it yields
      nothing for; built from the back. */
  function Collect<T, U>(xs: seq<T>, f: T -> Option<U>): (r: seq<U>)
    ensures |r| <= |xs|
  {
    if xs == [] then []
    else Collect(xs[..|xs| - 1], f) + (if f(xs[|xs| - 1]).Some? then [f(xs[|xs| - 1]).value] else [])
  }

  /** Collecting one more element of a prefix. */
  lemma CollectSnoc<T, U>(xs: seq<T>, f: T -> Option<U>, i: nat)
    requires i < |xs|
    ensures Collect(xs[..i + 1], f) == Collect(xs[..i], f) + (if f(xs[i]).Some? then [f(xs[i]).value] else [])
  {
    assert xs[..i + 1][..i] == xs[..i];
  }

  /** Collecting a concatenation collects each part, in order. */
  lemma {:induction false} CollectAppend<T, U>(xs: seq<T>, ys: seq<T>, f: T -> Option<U>)
    ensures Collect(xs + ys, f) == Collect(xs, f) + Collect(ys, f)
    decreases |ys|
  {
    if ys == [] {
      assert xs + ys == xs;
    } else {
      var zs, m := xs + ys, |ys| - 1;
      assert zs[..|zs| - 1] == xs + ys[..m];
      assert zs[|zs| - 1] == ys[m];
      CollectAppend(xs, ys[..m], f);
    }
  }

  /** One value per element `f` yields one for. */
  lemma {:induction false} CollectCount<T, U>(xs: seq<T>, f: T -> Option<U>, p: T -> bool)
    requires forall x :: p(x) == f(x).Some?
    ensures |Collect(xs, f)| == |Filter(xs, p)|
  {
    if xs != [] {
      CollectCount(xs[..|xs| - 1], f, p);
    }
  }

  /** Every collected value is what `f` yields for some element. */
  lemma {:induction false} CollectOrigin<T, U>(xs: seq<T>, f: T -> Option<U>)
    ensures forall y :: y in Collect(xs, f) ==> exists x :: x in xs && f(x) == Some(y)
  {
    if xs != [] {
      var init := xs[..|xs| - 1];
      CollectOrigin(init, f);
      forall y | y in Collect(xs, f)
        ensures exists x :: x in xs && f(x) == Some(y)
      {
        if y in Collect(init, f) {
          var x :| x in init && f(x) == Some(y);
          assert x in xs;
        } else {
          assert xs[|xs| - 1] in xs;
        }
      }
    }
  }
}
