/**
 * The two list shapes the parser is built from: `map` (one result per
 * element) and a `forEach` that pushes a result only for the elements a
 * match succeeds on. Both are defined from the last element, the way a
 * loop that appends builds them, and their lemmas hold for any element
 * function.
 */
module Sequences {
  datatype Option<T> = None | Some(value: T)

  /** `xs.map(f)`. */
  function Map<A, B>(f: A -> B, xs: seq<A>): (ys: seq<B>)
    ensures |ys| == |xs|
    decreases |xs|
  {
    if xs == [] then [] else Map(f, xs[..|xs| - 1]) + [f(xs[|xs| - 1])]
  }

  /** Element i of the result is f of element i. */
  lemma {:induction false} MapAt<A, B>(f: A -> B, xs: seq<A>, i: nat)
    requires i < |xs|
    ensures Map(f, xs)[i] == f(xs[i])
    decreases |xs|
  {
    var init := xs[..|xs| - 1];
    assert Map(f, xs) == Map(f, init) + [f(xs[|xs| - 1])];
    if i < |init| {
      MapAt(f, init, i);
      assert init[i] == xs[i];
    }
  }

  /** Mapping works element by element, so it keeps order. */
  lemma {:induction false} MapAppend<A, B>(f: A -> B, xs: seq<A>, ys: seq<A>)
    ensures Map(f, xs + ys) == Map(f, xs) + Map(f, ys)
    decreases |ys|
  {
    if ys == [] {
      assert xs + ys == xs;
    } else {
      var init := ys[..|ys| - 1];
      assert (xs + ys)[..|xs + ys| - 1] == xs + init;
      assert (xs + ys)[|xs + ys| - 1] == ys[|ys| - 1];
      MapAppend(f, xs, init);
    }
  }

  /** What one element contributes: its result when f succeeds on it. */
  function Found<A, B>(f: A -> Option<B>, x: A): (ys: seq<B>)
    ensures |ys| <= 1
    ensures ys == [] <==> f(x).None?
    ensures ys != [] ==> f(x) == Some(ys[0])
  {
    match f(x)
    case Some(y) => [y]
    case None => []
  }

  /** The results of f on the elements it succeeds on, in order. */
  function FilterMap<A, B>(f: A -> Option<B>, xs: seq<A>): (ys: seq<B>)
    ensures |ys| <= |xs|
    decreases |xs|
  {
    if xs == [] then [] else FilterMap(f, xs[..|xs| - 1]) + Found(f, xs[|xs| - 1])
  }

  /** The results keep the order of the elements. */
  lemma {:induction false} FilterMapAppend<A, B>(f: A -> Option<B>, xs: seq<A>, ys: seq<A>)
    ensures FilterMap(f, xs + ys) == FilterMap(f, xs) + FilterMap(f, ys)
    decreases |ys|
  {
    if ys == [] {
      assert xs + ys == xs;
    } else {
      var init := ys[..|ys| - 1];
      assert (xs + ys)[..|xs + ys| - 1] == xs + init;
      assert (xs + ys)[|xs + ys| - 1] == ys[|ys| - 1];
      FilterMapAppend(f, xs, init);
    }
  }

  /** Every result comes from an element f succeeds on, and every element
      f succeeds on contributes its result. */
  lemma {:induction false} FilterMapExact<A, B>(f: A -> Option<B>, xs: seq<A>)
    ensures forall y | y in FilterMap(f, xs) :: exists k | 0 <= k < |xs| :: f(xs[k]) == Some(y)
    ensures forall k | 0 <= k < |xs| && f(xs[k]).Some? :: f(xs[k]).value in FilterMap(f, xs)
    decreases |xs|
  {
    if xs != [] {
      var init := xs[..|xs| - 1];
      var last := xs[|xs| - 1];
      FilterMapExact(f, init);
      var rest := FilterMap(f, init);
      assert FilterMap(f, xs) == rest + Found(f, last);
      forall y | y in FilterMap(f, xs) ensures exists k | 0 <= k < |xs| :: f(xs[k]) == Some(y) {
        if y in rest {
          var k :| 0 <= k < |init| && f(init[k]) == Some(y);
          assert init[k] == xs[k];
        } else {
          assert f(xs[|xs| - 1]) == Some(y);
        }
      }
      forall k | 0 <= k < |xs| && f(xs[k]).Some? ensures f(xs[k]).value in FilterMap(f, xs) {
        if k < |init| {
          assert xs[k] == init[k];
        } else {
          assert Found(f, last)[0] in FilterMap(f, xs);
        }
      }
    }
  }
}
