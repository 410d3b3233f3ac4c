/** Sequence helpers shared by the model: the `Array.prototype.filter`,
    `flatMap` and `find` of the source, stated once. */
module SeqUtil {
  import opened Wrappers

  /** `xs.filter(p)`: the elements satisfying `p`, in their original order. */
  function Filter<T(!new)>(xs: seq<T>, p: T -> bool): (r: seq<T>)
    ensures |r| <= |xs|
    ensures forall i :: 0 <= i < |r| ==> p(r[i])
    ensures forall x :: x in r <==> x in xs && p(x)
  {
    if xs == [] then []
    else
      var rest := Filter(xs[1..], p);
      assert forall x :: x in xs <==> x == xs[0] || x in xs[1..];
      if p(xs[0]) then [xs[0]] + rest else rest
  }

  /** Filtering a concatenation filters each part in turn: the filter keeps
      the relative order of what it keeps. */
  lemma {:induction false} FilterAppend<T(!new)>(xs: seq<T>, ys: seq<T>, p: T -> bool)
    ensures Filter(xs + ys, p) == Filter(xs, p) + Filter(ys, p)
    decreases |xs|
  {
    if xs != [] {
      var zs := xs + ys;
      assert zs[0] == xs[0] && zs[1..] == xs[1..] + ys;
      FilterAppend(xs[1..], ys, p);
      if p(xs[0]) {
        assert Filter(zs, p) == [xs[0]] + Filter(zs[1..], p);
        assert Filter(xs, p) == [xs[0]] + Filter(xs[1..], p);
      } else {
        assert Filter(zs, p) == Filter(zs[1..], p);
      }
    } else {
      assert xs + ys == ys;
    }
  }

  /** A filter drops nothing exactly when every element passes. */
  lemma {:induction false} FilterKeepsAll<T(!new)>(xs: seq<T>, p: T -> bool)
    ensures Filter(xs, p) == xs <==> forall i :: 0 <= i < |xs| ==> p(xs[i])
    decreases |xs|
  {
    if xs != [] {
      FilterKeepsAll(xs[1..], p);
      if !p(xs[0]) {
        assert |Filter(xs, p)| < |xs|;
      }
    }
  }

  /** The concatenation of a sequence of sequences (`flatMap` with the identity). */
  function Concat<T(!new)>(xss: seq<seq<T>>): (r: seq<T>)
    ensures forall x :: x in r <==> exists i :: 0 <= i < |xss| && x in xss[i]
  {
    if xss == [] then []
    else
      var rest := Concat(xss[1..]);
      assert forall i :: 0 <= i < |xss| - 1 ==> xss[1..][i] == xss[i + 1];
      assert forall x :: x in rest <==> exists i :: 1 <= i < |xss| && x in xss[i];
      xss[0] + rest
  }

  /** Appending one more sequence appends its elements at the end. */
  lemma {:induction false} ConcatSnoc<T(!new)>(xss: seq<seq<T>>, ys: seq<T>)
    ensures Concat(xss + [ys]) == Concat(xss) + ys
    decreases |xss|
  {
    if xss != [] {
      assert (xss + [ys])[1..] == xss[1..] + [ys];
      ConcatSnoc(xss[1..], ys);
    }
  }

  /** `xs.find(p)`: the first element satisfying `p`, or `undefined`. */
  function Find<T>(xs: seq<T>, p: T -> bool): (r: Option<T>)
    ensures r.None? <==> forall i :: 0 <= i < |xs| ==> !p(xs[i])
    ensures r.Some? ==> exists i :: 0 <= i < |xs| && xs[i] == r.value && p(xs[i])
                          && forall j :: 0 <= j < i ==> !p(xs[j])
  {
    if xs == [] then None
    else if p(xs[0]) then Some(xs[0])
    else
      var r := Find(xs[1..], p);
      assert forall i :: 0 <= i < |xs| - 1 ==> xs[1..][i] == xs[i + 1];
      r
  }
}
