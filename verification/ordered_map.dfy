/** A JavaScript `Map` (and mobx `observable.map`) as a value: a finite map
    whose keys remember the order in which they were first inserted. Setting an
    existing key keeps its position; deleting a key drops it from the order. */
module OrderedMaps {
  import opened Wrappers

  /** No element occurs twice. */
  ghost predicate Distinct<T>(s: seq<T>) {
    forall i, j :: 0 <= i < j < |s| ==> s[i] != s[j]
  }

  datatype OrderedMap<K, V> = OrderedMap(keys: seq<K>, items: map<K, V>) {

    /** The key order lists every key of `items` exactly once. */
    ghost predicate Valid() {
      && Distinct(keys)
      && (forall k :: k in items ==> k in keys)
      && (forall i :: 0 <= i < |keys| ==> keys[i] in items)
    }
  }

  function Empty<K(==), V>(): (r: OrderedMap<K, V>)
    ensures r.Valid()
    ensures r.keys == [] && r.items == map[]
  {
    OrderedMap([], map[])
  }

  /** The first key of a valid map is one of its items, so a map with no
      items has no keys. */
  lemma NoItemsNoKeys<K, V>(om: OrderedMap<K, V>)
    requires om.Valid()
    ensures om.keys == [] || om.keys[0] in om.items
  {
  }

  /** `s` without the occurrences of `k`, order preserved. */
  function RemoveAll<K(==)>(s: seq<K>, k: K): (r: seq<K>)
    ensures forall x :: x in r ==> x in s && x != k
    ensures forall x :: x in s && x != k ==> x in r
    ensures Distinct(s) ==> Distinct(r)
  {
    if s == [] then []
    else
      var rest := RemoveAll(s[1..], k);
      assert Distinct(s) ==> s[0] !in s[1..];
      if s[0] == k then rest else [s[0]] + rest
  }

  /** `map.set(k, v)`: a new key goes to the end, an existing key keeps its place. */
  function Set<K(==), V>(om: OrderedMap<K, V>, k: K, v: V): (r: OrderedMap<K, V>)
    requires om.Valid()
    ensures r.Valid()
    ensures r.items == om.items[k := v]
    ensures k in om.items ==> r.keys == om.keys
    ensures k !in om.items ==> r.keys == om.keys + [k]
  {
    if k in om.items then OrderedMap(om.keys, om.items[k := v])
    else OrderedMap(om.keys + [k], om.items[k := v])
  }

  /** `map.delete(k)`: drops `k` and keeps the order of the other keys. */
  function Delete<K(==), V>(om: OrderedMap<K, V>, k: K): (r: OrderedMap<K, V>)
    requires om.Valid()
    ensures r.Valid()
    ensures r.items == om.items - {k}
    ensures k !in om.items ==> r == om
  {
    if k !in om.items then om
    else
      var ks := RemoveAll(om.keys, k);
      assert forall i :: 0 <= i < |ks| ==> ks[i] in ks;
      OrderedMap(ks, om.items - {k})
  }

  /** `map.values()` in insertion order. */
  function Values<K(==), V>(om: OrderedMap<K, V>): (r: seq<V>)
    requires om.Valid()
    ensures |r| == |om.keys|
    ensures forall i :: 0 <= i < |r| ==> r[i] == om.items[om.keys[i]]
  {
    seq(|om.keys|, i requires 0 <= i < |om.keys| => om.items[om.keys[i]])
  }

  /** `map.entries()` in insertion order. */
  function Entries<K(==), V>(om: OrderedMap<K, V>): (r: seq<(K, V)>)
    requires om.Valid()
    ensures |r| == |om.keys|
    ensures forall i :: 0 <= i < |r| ==> r[i] == (om.keys[i], om.items[om.keys[i]])
  {
    seq(|om.keys|, i requires 0 <= i < |om.keys| => (om.keys[i], om.items[om.keys[i]]))
  }

  /** The value the last entry for `k` in `es` carries, if any. */
  function LastValue<K(==), V>(es: seq<(K, V)>, k: K): (r: Option<V>)
    ensures r.None? <==> forall i :: 0 <= i < |es| ==> es[i].0 != k
    ensures r.Some? ==> exists i :: 0 <= i < |es| && es[i] == (k, r.value)
  {
    if es == [] then None
    else if es[|es| - 1].0 == k then Some(es[|es| - 1].1)
    else
      var r := LastValue(es[..|es| - 1], k);
      assert forall i :: 0 <= i < |es| - 1 ==> es[..|es| - 1][i] == es[i];
      r
  }

  /** `map.merge(entries)` (and a `forEach` of `set` calls): each entry is set
      in turn, so the last entry for a key wins and no key is ever removed. */
  function Merge<K(==), V>(om: OrderedMap<K, V>, es: seq<(K, V)>): (r: OrderedMap<K, V>)
    requires om.Valid()
    ensures r.Valid()
    decreases |es|
  {
    if es == [] then om
    else Merge(Set(om, es[0].0, es[0].1), es[1..])
  }

  /** A key is present after a merge iff it was present before or some entry
      names it; its value is the last entry's, or the old one when no entry
      names it. */
  lemma {:induction false} MergeContents<K, V>(om: OrderedMap<K, V>, es: seq<(K, V)>, k: K)
    requires om.Valid()
    ensures k in Merge(om, es).items <==> k in om.items || LastValue(es, k).Some?
    ensures LastValue(es, k).Some? ==> Merge(om, es).items[k] == LastValue(es, k).value
    ensures LastValue(es, k).None? && k in om.items ==> Merge(om, es).items[k] == om.items[k]
    decreases |es|
  {
    if es != [] {
      var om' := Set(om, es[0].0, es[0].1);
      MergeContents(om', es[1..], k);
      LastValueCons(es, k);
    }
  }

  /** The last entry of `es` for `k` is the last entry of its tail when the tail
      names `k`, and otherwise the head's when the head names `k`. */
  lemma {:induction false} LastValueCons<K, V>(es: seq<(K, V)>, k: K)
    requires es != []
    ensures LastValue(es[1..], k).Some? ==> LastValue(es, k) == LastValue(es[1..], k)
    ensures LastValue(es[1..], k).None? && es[0].0 == k ==> LastValue(es, k) == Some(es[0].1)
    ensures LastValue(es[1..], k).None? && es[0].0 != k ==> LastValue(es, k).None?
    decreases |es|
  {
    if |es| > 1 && es[|es| - 1].0 != k {
      var init := es[..|es| - 1];
      assert init[1..] == es[1..][..|es[1..]| - 1];
      LastValueCons(init, k);
    }
  }

  /** Merging never drops a key and never reorders the keys already present. */
  lemma {:induction false} MergeKeepsKeys<K, V>(om: OrderedMap<K, V>, es: seq<(K, V)>)
    requires om.Valid()
    ensures om.items.Keys <= Merge(om, es).items.Keys
    ensures |om.keys| <= |Merge(om, es).keys|
    ensures Merge(om, es).keys[..|om.keys|] == om.keys
    decreases |es|
  {
    if es != [] {
      var om' := Set(om, es[0].0, es[0].1);
      MergeKeepsKeys(om', es[1..]);
      assert Merge(om, es) == Merge(om', es[1..]);
      assert om'.keys[..|om.keys|] == om.keys;
      PrefixOfPrefix(om.keys, om'.keys, Merge(om', es[1..]).keys);
    }
  }

  /** A prefix of a prefix is a prefix. */
  lemma PrefixOfPrefix<T>(a: seq<T>, b: seq<T>, c: seq<T>)
    requires |a| <= |b| && b[..|a|] == a
    requires |b| <= |c| && c[..|b|] == b
    ensures |a| <= |c| && c[..|a|] == a
  {
    assert c[..|a|] == c[..|b|][..|a|];
  }

  /** Merging entries that agree with the map changes nothing: in particular
      `Merge(om, Entries(om)) == om`. */
  lemma {:induction false} MergeAgreeingIsIdentity<K, V>(om: OrderedMap<K, V>, es: seq<(K, V)>)
    requires om.Valid()
    requires forall i :: 0 <= i < |es| ==> es[i].0 in om.items && om.items[es[i].0] == es[i].1
    ensures Merge(om, es) == om
    decreases |es|
  {
    if es != [] {
      assert Set(om, es[0].0, es[0].1) == om;
      MergeAgreeingIsIdentity(om, es[1..]);
    }
  }

  /** Reading a map out as its entries and merging them back is the identity. */
  lemma MergeEntriesRoundTrip<K, V>(om: OrderedMap<K, V>)
    requires om.Valid()
    ensures Merge(om, Entries(om)) == om
  {
    MergeAgreeingIsIdentity(om, Entries(om));
  }

  /** Keys of `es` are pairwise distinct. */
  ghost predicate DistinctKeys<K, V>(es: seq<(K, V)>) {
    forall i, j :: 0 <= i < j < |es| ==> es[i].0 != es[j].0
  }

  /** Setting a fresh key appends exactly its entry. */
  lemma EntriesSetFresh<K, V>(om: OrderedMap<K, V>, k: K, v: V)
    requires om.Valid()
    requires k !in om.items
    ensures Entries(Set(om, k, v)) == Entries(om) + [(k, v)]
  {
    var r := Set(om, k, v);
    forall i | 0 <= i < |om.keys|
      ensures Entries(r)[i] == Entries(om)[i]
    {
      assert om.keys[i] in om.items;
    }
  }

  /** Merging entries with distinct fresh keys appends them in order: with
      `MergeEntriesRoundTrip`, reading entries out and merging them back is
      an identity in both directions. */
  lemma {:induction false} MergeFresh<K, V>(om: OrderedMap<K, V>, es: seq<(K, V)>)
    requires om.Valid()
    requires DistinctKeys(es)
    requires forall i :: 0 <= i < |es| ==> es[i].0 !in om.items
    ensures Entries(Merge(om, es)) == Entries(om) + es
    decreases |es|
  {
    if es == [] {
      assert Entries(om) + es == Entries(om);
    } else {
      var om' := Set(om, es[0].0, es[0].1);
      FreshTail(om, es);
      MergeFresh(om', es[1..]);
      EntriesSetFresh(om, es[0].0, es[0].1);
      var m := Merge(om', es[1..]);
      assert Merge(om, es) == m;
      AppendCons(Entries(om), es);
    }
  }

  /** `a + [x] + rest == a + ([x] + rest)`, for a non-empty second part. */
  lemma AppendCons<T>(a: seq<T>, es: seq<T>)
    requires es != []
    ensures a + [es[0]] + es[1..] == a + es
  {
    assert [es[0]] + es[1..] == es;
  }

  /** The tail of distinct fresh entries is distinct and fresh once the head is set. */
  lemma FreshTail<K, V>(om: OrderedMap<K, V>, es: seq<(K, V)>)
    requires om.Valid()
    requires es != [] && DistinctKeys(es)
    requires forall i :: 0 <= i < |es| ==> es[i].0 !in om.items
    ensures DistinctKeys(es[1..])
    ensures forall i :: 0 <= i < |es[1..]| ==> es[1..][i].0 !in Set(om, es[0].0, es[0].1).items
  {
    var tail := es[1..];
    forall i, j | 0 <= i < j < |tail|
      ensures tail[i].0 != tail[j].0
    {
      assert tail[i] == es[i + 1] && tail[j] == es[j + 1];
    }
    forall i | 0 <= i < |tail|
      ensures tail[i].0 !in Set(om, es[0].0, es[0].1).items
    {
      assert tail[i] == es[i + 1];
    }
  }

  /** From an empty map, merging distinct-keyed entries and reading them back
      gives the same entries. */
  lemma MergeIntoEmpty<K, V>(es: seq<(K, V)>)
    requires DistinctKeys(es)
    ensures Entries(Merge(OrderedMap([], map[]), es)) == es
  {
    MergeFresh(OrderedMap([], map[]), es);
  }

  /** A valid map lists each of its items exactly once. */
  lemma {:induction false} KeysCount<K, V>(om: OrderedMap<K, V>)
    requires om.Valid()
    ensures |om.keys| == |om.items|
    decreases |om.keys|
  {
    if om.keys == [] {
      assert om.items.Keys == {};
    } else {
      var rest := DropLast(om);
      var last := om.keys[|om.keys| - 1];
      KeysCount(rest);
      assert last !in rest.items.Keys;
      assert om.items.Keys == rest.items.Keys + {last};
      assert |om.items.Keys| == |rest.items.Keys| + 1;
    }
  }

  /** The map without its most recently inserted key. */
  function DropLast<K, V>(om: OrderedMap<K, V>): (r: OrderedMap<K, V>)
    requires om.Valid() && om.keys != []
    ensures r.Valid()
    ensures r.keys == om.keys[..|om.keys| - 1]
    ensures r.items == om.items - {om.keys[|om.keys| - 1]}
  {
    var n := |om.keys| - 1;
    var k := om.keys[n];
    var r := OrderedMap(om.keys[..n], om.items - {k});
    forall x | x in r.items
      ensures x in r.keys
    {
      var i :| 0 <= i < |om.keys| && om.keys[i] == x;
      assert r.keys[i] == x;
    }
    forall i | 0 <= i < n
      ensures r.keys[i] in r.items
    {
      assert om.keys[i] != k;
    }
    r
  }
}
