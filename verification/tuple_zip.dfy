/** `zip(...sources)` and `filled(length, value)` from the tuple utilities.
    The generator's yields are collected into a sequence; its return value
    is the second result. */
module TupleZip {

  /** `Math.min(...sources.map(source => source.length))`. */
  function MinLength<T>(sources: seq<seq<T>>): (r: nat)
    requires sources != []
    ensures forall j :: 0 <= j < |sources| ==> r <= |sources[j]|
    ensures exists j :: 0 <= j < |sources| && |sources[j]| == r
  {
    if |sources| == 1 then |sources[0]|
    else
      var m := MinLength(sources[1..]);
      assert forall j :: 1 <= j < |sources| ==> sources[j] == sources[1..][j - 1];
      if |sources[0]| <= m then |sources[0]|
      else
        var j :| 0 <= j < |sources[1..]| && |sources[1..][j]| == m;
        assert |sources[j + 1]| == m;
        m
  }

  /** The `k`-th element of every source, in source order. */
  function Row<T>(sources: seq<seq<T>>, k: nat): (r: seq<T>)
    requires forall j :: 0 <= j < |sources| ==> k < |sources[j]|
    ensures |r| == |sources|
    ensures forall j :: 0 <= j < |sources| ==> r[j] == sources[j][k]
  {
    seq(|sources|, j requires 0 <= j < |sources| => sources[j][k])
  }

  /** The `j`-th entry of every tuple: one source as the tuples carry it. */
  function Column<T>(tuples: seq<seq<T>>, j: nat): (r: seq<T>)
    requires forall k :: 0 <= k < |tuples| ==> j < |tuples[k]|
    ensures |r| == |tuples|
    ensures forall k :: 0 <= k < |tuples| ==> r[k] == tuples[k][j]
  {
    seq(|tuples|, k requires 0 <= k < |tuples| => tuples[k][j])
  }

  /** What a `zip` generator does: finish with its yields and its return
      value, or, with no sources at all, yield the empty tuple forever. */
  datatype Zipped<T> = Finished(tuples: seq<seq<T>>, rest: seq<seq<T>>) | EmptyForever

  /** `zip(...sources)`: the yielded tuples and the returned remainders. With
      no sources `Math.min()` is `Infinity`, so the loop never stops and
      every yield maps over no sources. */
  method Zip<T>(sources: seq<seq<T>>) returns (z: Zipped<T>)
    ensures z.EmptyForever? <==> sources == []
    ensures z.Finished? ==> |z.tuples| == MinLength(sources)
    ensures z.Finished? ==> forall k :: 0 <= k < |z.tuples| ==> |z.tuples[k]| == |sources|
    ensures z.Finished? ==> forall k, j :: 0 <= k < |z.tuples| && 0 <= j < |sources| ==> z.tuples[k][j] == sources[j][k]
    ensures z.Finished? ==> |z.rest| == |sources|
    ensures z.Finished? ==> forall j :: 0 <= j < |sources| ==> z.rest[j] == sources[j][MinLength(sources)..]
  {
    if sources == [] {
      return EmptyForever;
    }
    var m := MinLength(sources);
    var tuples := [];
    var i := 0;
    while i < m
      invariant 0 <= i <= m
      invariant |tuples| == i
      invariant forall k :: 0 <= k < i ==> tuples[k] == Row(sources, k)
    {
      tuples := tuples + [Row(sources, i)];
      i := i + 1;
    }
    var rest := seq(|sources|, j requires 0 <= j < |sources| => sources[j][m..]);
    z := Finished(tuples, rest);
  }

  /** Each source is its column of the yielded tuples followed by its
      remainder, and some remainder is empty: the shortest source is used up. */
  lemma {:induction false} ZipRoundTrip<T>(sources: seq<seq<T>>, tuples: seq<seq<T>>, rest: seq<seq<T>>)
    requires sources != []
    requires |tuples| == MinLength(sources)
    requires forall k :: 0 <= k < |tuples| ==> |tuples[k]| == |sources|
    requires forall k, j :: 0 <= k < |tuples| && 0 <= j < |sources| ==> tuples[k][j] == sources[j][k]
    requires |rest| == |sources|
    requires forall j :: 0 <= j < |sources| ==> rest[j] == sources[j][MinLength(sources)..]
    ensures forall j :: 0 <= j < |sources| ==> Column(tuples, j) + rest[j] == sources[j]
    ensures exists j :: 0 <= j < |rest| && rest[j] == []
  {
    var m := MinLength(sources);
    forall j | 0 <= j < |sources|
      ensures Column(tuples, j) + rest[j] == sources[j]
    {
      assert Column(tuples, j) == sources[j][..m];
      assert sources[j][..m] + sources[j][m..] == sources[j];
    }
    var j :| 0 <= j < |sources| && |sources[j]| == m;
    assert rest[j] == [];
  }

  /** `filled(length, value)`: `length` copies of `value`. */
  function Filled<T>(length: nat, value: T): (r: seq<T>)
    ensures |r| == length
    ensures forall i :: 0 <= i < |r| ==> r[i] == value
  {
    seq(length, _ => value)
  }

  /** Zipping `n` copies of one array yields tuples that are `filled` with
      that array's elements and leaves nothing over. */
  lemma ZipFilled<T>(n: nat, xs: seq<T>, tuples: seq<seq<T>>, rest: seq<seq<T>>)
    requires n >= 1
    requires |tuples| == MinLength(Filled(n, xs))
    requires forall k :: 0 <= k < |tuples| ==> |tuples[k]| == n
    requires forall k, j :: 0 <= k < |tuples| && 0 <= j < n ==> tuples[k][j] == Filled(n, xs)[j][k]
    requires |rest| == n
    requires forall j :: 0 <= j < n ==> rest[j] == Filled(n, xs)[j][MinLength(Filled(n, xs))..]
    ensures |tuples| == |xs|
    ensures forall k :: 0 <= k < |xs| ==> tuples[k] == Filled(n, xs[k])
    ensures rest == Filled(n, [])
  {
    var srcs := Filled(n, xs);
    assert forall j :: 0 <= j < n ==> srcs[j] == xs;
    assert MinLength(srcs) == |xs|;
    forall k | 0 <= k < |xs|
      ensures tuples[k] == Filled(n, xs[k])
    {
      forall j | 0 <= j < n
        ensures tuples[k][j] == xs[k]
      {
        assert tuples[k][j] == srcs[j][k];
      }
    }
  }
}
