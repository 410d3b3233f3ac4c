/** The name index of live extension instances
    (`extensionInstancesByNameInjectable`): an `observe` callback keeps a
    name-keyed map in step with the id-keyed `instances` map, and the lookup
    answers `false` for extensions that have no instance on this side. */
module InstancesByName {
  import opened Wrappers
  import LE = LensExtensions

  type Id = string

  /** The id-keyed map of live instances. */
  type Instances = map<Id, LE.LensExtension>

  /** The name-keyed `observable.map` the callback maintains. */
  type NameIndex = map<string, LE.LensExtension>

  /** A change of `instances` as `observe` reports it. */
  datatype InstanceChange =
    | Add(id: Id, newValue: LE.LensExtension)
    | Delete(id: Id, oldValue: LE.LensExtension)
    | Update(id: Id, oldValue: LE.LensExtension, newValue: LE.LensExtension)

  /** What the callback throws: a `TypeError` for a duplicate name, an
      `Error` for any update. */
  datatype ObserveError = NamesMustBeUnique | InstancesNotUpdatable

  /** The lookup's three answers: `false`, the instance, or `undefined`. */
  datatype Lookup = NoInstanceForSide | Found(instance: LE.LensExtension) | NotFound

  function NameOf(e: LE.LensExtension): string {
    e.manifest.name
  }

  /** Every indexed instance sits under its own name. */
  ghost predicate KeyedByName(idx: NameIndex) {
    forall n :: n in idx ==> NameOf(idx[n]) == n
  }

  /** The `observe` callback. */
  function Observe(idx: NameIndex, change: InstanceChange): (r: Result<NameIndex, ObserveError>)
    ensures change.Add? ==> (r.Err? <==> NameOf(change.newValue) in idx)
    ensures change.Add? && r.Err? ==> r.error == NamesMustBeUnique
    ensures change.Add? && r.Ok? ==> && r.value.Keys == idx.Keys + {NameOf(change.newValue)}
                                     && r.value[NameOf(change.newValue)] == change.newValue
                                     && forall n :: n in idx ==> r.value[n] == idx[n]
    ensures change.Delete? ==> && r.Ok?
                               && r.value.Keys == idx.Keys - {NameOf(change.oldValue)}
                               && forall n :: n in r.value ==> r.value[n] == idx[n]
    ensures change.Update? ==> r == Err(InstancesNotUpdatable)
    ensures KeyedByName(idx) && r.Ok? ==> KeyedByName(r.value)
  {
    match change
    case Add(_, v) =>
      if NameOf(v) in idx then Err(NamesMustBeUnique) else Ok(idx[NameOf(v) := v])
    case Delete(_, v) => Ok(idx - {NameOf(v)})
    case Update(_, _, _) => Err(InstancesNotUpdatable)
  }

  /** The function the injectable returns. */
  function GetInstanceByName(idx: NameIndex, nonInstanceNames: set<string>, name: string): (r: Lookup)
    ensures name in nonInstanceNames ==> r == NoInstanceForSide
    ensures name !in nonInstanceNames ==> (r.Found? <==> name in idx)
    ensures r.Found? ==> r.instance == idx[name]
  {
    if name in nonInstanceNames then NoInstanceForSide
    else if name in idx then Found(idx[name])
    else NotFound
  }

  /** No two live instances share a manifest name. */
  ghost predicate UniqueNames(instances: Instances) {
    forall a, b :: a in instances && b in instances && a != b ==> NameOf(instances[a]) != NameOf(instances[b])
  }

  /** The index holds exactly the live instances, each under its name. */
  ghost predicate Mirrors(instances: Instances, idx: NameIndex) {
    && KeyedByName(idx)
    && (forall id :: id in instances ==> NameOf(instances[id]) in idx && idx[NameOf(instances[id])] == instances[id])
    && (forall n :: n in idx ==> exists id :: id in instances && instances[id] == idx[n])
  }

  /** The callback keeps the index in step with the instances on an add: an
      add of a fresh id fails exactly when another live instance has the same
      name, and otherwise both maps gain the instance. */
  lemma ObserveAddTracks(instances: Instances, idx: NameIndex, id: Id, v: LE.LensExtension)
    requires Mirrors(instances, idx) && UniqueNames(instances)
    requires id !in instances
    ensures Observe(idx, Add(id, v)).Err? <==> exists other :: other in instances && NameOf(instances[other]) == NameOf(v)
    ensures Observe(idx, Add(id, v)).Ok? ==> && Mirrors(instances[id := v], Observe(idx, Add(id, v)).value)
                                             && UniqueNames(instances[id := v])
  {
    if NameOf(v) in idx {
      var other :| other in instances && instances[other] == idx[NameOf(v)];
      assert NameOf(instances[other]) == NameOf(v);
    } else {
      forall other | other in instances
        ensures NameOf(instances[other]) != NameOf(v)
      {
        assert NameOf(instances[other]) in idx;
      }
      assert Observe(idx, Add(id, v)) == Ok(idx[NameOf(v) := v]);
      AddFreshName(instances, idx, id, v);
    }
  }

  /** Adding an instance whose name is not indexed keeps the two maps in
      step and the names unique. */
  lemma AddFreshName(instances: Instances, idx: NameIndex, id: Id, v: LE.LensExtension)
    requires Mirrors(instances, idx) && UniqueNames(instances)
    requires id !in instances && NameOf(v) !in idx
    ensures Mirrors(instances[id := v], idx[NameOf(v) := v])
    ensures UniqueNames(instances[id := v])
  {
    var inst' := instances[id := v];
    var idx' := idx[NameOf(v) := v];
    forall n | n in idx'
      ensures exists i :: i in inst' && inst'[i] == idx'[n]
    {
      if n == NameOf(v) {
        assert inst'[id] == idx'[n];
      } else {
        var i :| i in instances && instances[i] == idx[n];
        assert inst'[i] == idx'[n];
      }
    }
    forall i | i in inst'
      ensures NameOf(inst'[i]) in idx' && idx'[NameOf(inst'[i])] == inst'[i]
    {
      if i != id {
        assert NameOf(instances[i]) in idx;
      }
    }
    forall a, b | a in inst' && b in inst' && a != b
      ensures NameOf(inst'[a]) != NameOf(inst'[b])
    {
      if a != id && b != id {
      } else if a == id {
        assert NameOf(instances[b]) in idx;
      } else {
        assert NameOf(instances[a]) in idx;
      }
    }
  }

  /** On a delete of a live instance, both maps drop it. */
  lemma ObserveDeleteTracks(instances: Instances, idx: NameIndex, id: Id)
    requires Mirrors(instances, idx) && UniqueNames(instances)
    requires id in instances
    ensures var r := Observe(idx, Delete(id, instances[id]));
            && r.Ok?
            && Mirrors(instances - {id}, r.value)
            && UniqueNames(instances - {id})
  {
    var v := instances[id];
    var inst' := instances - {id};
    var idx' := idx - {NameOf(v)};
    assert Observe(idx, Delete(id, v)) == Ok(idx');
    forall n | n in idx'
      ensures exists i :: i in inst' && inst'[i] == idx'[n]
    {
      var i :| i in instances && instances[i] == idx[n];
      assert NameOf(instances[i]) == n;
      assert inst'[i] == idx'[n];
    }
    forall i | i in inst'
      ensures NameOf(inst'[i]) in idx' && idx'[NameOf(inst'[i])] == inst'[i]
    {
      assert NameOf(instances[i]) != NameOf(v);
    }
  }

  /** Read through the mirror, the lookup finds an instance exactly when a
      live instance has that name, and then it is that instance. */
  lemma LookupFindsLiveInstance(instances: Instances, idx: NameIndex, nonInstanceNames: set<string>, name: string)
    requires Mirrors(instances, idx)
    requires name !in nonInstanceNames
    ensures GetInstanceByName(idx, nonInstanceNames, name).Found? <==>
              exists id :: id in instances && NameOf(instances[id]) == name
    ensures GetInstanceByName(idx, nonInstanceNames, name).Found? ==>
              exists id :: id in instances && instances[id] == GetInstanceByName(idx, nonInstanceNames, name).instance
                           && NameOf(instances[id]) == name
  {
    if name in idx {
      var id :| id in instances && instances[id] == idx[name];
      assert NameOf(instances[id]) == name;
    }
  }
}
