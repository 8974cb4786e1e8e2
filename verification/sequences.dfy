/** Two list shapes the pipeline is built from: a concatenation of per-item
    results, and a per-item result kept only when present. */
module Sequences {
  import opened Optional

  /** `f` applied to each element, the results concatenated in order. */
  function FlatMap<A, B>(f: A -> seq<B>, xs: seq<A>): seq<B>
  {
    if xs == [] then [] else f(xs[0]) + FlatMap(f, xs[1..])
  }

  lemma {:induction false} FlatMapAppend<A, B>(f: A -> seq<B>, xs: seq<A>, ys: seq<A>)
    ensures FlatMap(f, xs + ys) == FlatMap(f, xs) + FlatMap(f, ys)
  {
    if xs == [] {
      assert xs + ys == ys;
    } else {
      FlatMapAppend(f, xs[1..], ys);
      assert (xs + ys)[1..] == xs[1..] + ys;
      assert (xs + ys)[0] == xs[0];
    }
  }

  /** A prefix of results followed by the results of `xs + ys`. */
  lemma FlatMapShift<A, B>(f: A -> seq<B>, pre: seq<B>, xs: seq<A>, ys: seq<A>, total: seq<B>)
    requires pre + FlatMap(f, xs + ys) == total
    ensures (pre + FlatMap(f, xs)) + FlatMap(f, ys) == total
  {
    FlatMapAppend(f, xs, ys);
  }

  lemma FlatMapOne<A, B>(f: A -> seq<B>, x: A)
    ensures FlatMap(f, [x]) == f(x)
  {
    assert [x][1..] == [];
  }

  /** A property of every item of every part holds of every item of the
      concatenation. */
  lemma {:induction false} FlatMapAll<A, B>(f: A -> seq<B>, xs: seq<A>, P: B -> bool)
    requires forall i | 0 <= i < |xs| :: forall k | 0 <= k < |f(xs[i])| :: P(f(xs[i])[k])
    ensures forall k | 0 <= k < |FlatMap(f, xs)| :: P(FlatMap(f, xs)[k])
  {
    if xs != [] {
      assert forall i | 0 <= i < |xs[1..]| :: xs[1..][i] == xs[i + 1];
      FlatMapAll(f, xs[1..], P);
      var a := f(xs[0]);
      var b := FlatMap(f, xs[1..]);
      assert forall k | 0 <= k < |a| :: P(a[k]);
      forall k | 0 <= k < |a + b|
        ensures P((a + b)[k])
      {
        if k < |a| {
          assert (a + b)[k] == a[k];
        } else {
          assert (a + b)[k] == b[k - |a|];
        }
      }
    }
  }

  /** The present results of `f` on each element, in order. */
  function FilterMap<A, B>(f: A -> Option<B>, xs: seq<A>): (r: seq<B>)
    ensures |r| <= |xs|
  {
    if xs == [] then []
    else
      var rest := FilterMap(f, xs[1..]);
      if f(xs[0]).Some? then [f(xs[0]).value] + rest else rest
  }

  /** Every present result is kept. */
  lemma {:induction false} FilterMapHas<A, B>(f: A -> Option<B>, xs: seq<A>, i: nat)
    requires i < |xs| && f(xs[i]).Some?
    ensures f(xs[i]).value in FilterMap(f, xs)
  {
    if i > 0 {
      assert xs[1..][i - 1] == xs[i];
      FilterMapHas(f, xs[1..], i - 1);
    }
  }

  /** A property of every present result holds of every item kept. */
  lemma {:induction false} FilterMapAll<A, B>(f: A -> Option<B>, xs: seq<A>, P: B -> bool)
    requires forall i | 0 <= i < |xs| :: f(xs[i]).Some? ==> P(f(xs[i]).value)
    ensures forall k | 0 <= k < |FilterMap(f, xs)| :: P(FilterMap(f, xs)[k])
  {
    if xs != [] {
      assert forall i | 0 <= i < |xs[1..]| :: xs[1..][i] == xs[i + 1];
      FilterMapAll(f, xs[1..], P);
      assert f(xs[0]).Some? ==> P(f(xs[0]).value);
    }
  }
}
