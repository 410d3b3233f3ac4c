/** The main-process catalog entity registry (`CatalogEntityRegistry`): an
    insertion-ordered set of computed entity sources, and the entity list it
    publishes from them. A source is identified by a `SourceId`; what it
    currently computes is given by a `contents` function, and the category
    registry's verdict by `hasCategory`. */
module CatalogEntityRegistry {
  import opened Wrappers
  import opened SeqUtil
  import OrderedMaps

  /** The fields of a catalog entity the registry reads. `entityClass` names
      the JavaScript class of the entity object. */
  datatype Entity = Entity(id: string, apiVersion: string, kind: string, entityClass: string)

  /** The identity of one `IComputedValue<CatalogEntity[]>` source object. */
  type SourceId = nat

  /** `sources` is a mobx `observable.set`, which iterates in insertion order. */
  datatype Registry = Registry(sources: seq<SourceId>) {
    ghost predicate Valid() {
      OrderedMaps.Distinct(sources)
    }
  }

  function Empty(): (r: Registry)
    ensures r.Valid() && r.sources == []
  {
    Registry([])
  }

  /** `addComputedSource(source)`: a set insertion, so adding a source that is
      already registered changes nothing. */
  function AddComputedSource(reg: Registry, src: SourceId): (r: Registry)
    requires reg.Valid()
    ensures r.Valid()
    ensures src in r.sources
    ensures forall s :: s in r.sources <==> s in reg.sources || s == src
    ensures src in reg.sources ==> r == reg
    ensures src !in reg.sources ==> r.sources == reg.sources + [src]
  {
    if src in reg.sources then reg else Registry(reg.sources + [src])
  }

  /** The disposer `addComputedSource` returns: `sources.delete(source)`. */
  function RemoveSource(reg: Registry, src: SourceId): (r: Registry)
    requires reg.Valid()
    ensures r.Valid()
    ensures src !in r.sources
    ensures forall s :: s != src ==> (s in r.sources <==> s in reg.sources)
  {
    Registry(OrderedMaps.RemoveAll(reg.sources, src))
  }

  /** The disposer removes the source it was made for and nothing else:
      adding a fresh source and disposing it restores the registry, and
      disposing twice is the same as disposing once. */
  lemma {:induction false} DisposerUndoesAdd(reg: Registry, src: SourceId)
    requires reg.Valid()
    ensures src !in reg.sources ==> RemoveSource(AddComputedSource(reg, src), src) == reg
    ensures RemoveSource(RemoveSource(reg, src), src) == RemoveSource(reg, src)
  {
    if src !in reg.sources {
      RemoveAllAppend(reg.sources, src);
    }
    RemoveAllAbsent(RemoveSource(reg, src).sources, src);
  }

  lemma {:induction false} RemoveAllAbsent(s: seq<SourceId>, k: SourceId)
    requires k !in s
    ensures OrderedMaps.RemoveAll(s, k) == s
    decreases |s|
  {
    if s != [] {
      RemoveAllAbsent(s[1..], k);
    }
  }

  lemma {:induction false} RemoveAllAppend(s: seq<SourceId>, k: SourceId)
    requires k !in s
    ensures OrderedMaps.RemoveAll(s + [k], k) == s
    decreases |s|
  {
    if s == [] {
      assert OrderedMaps.RemoveAll([k], k) == OrderedMaps.RemoveAll([], k);
    } else {
      assert (s + [k])[1..] == s[1..] + [k];
      RemoveAllAppend(s[1..], k);
    }
  }

  /** What every registered source computes, concatenated in registration order. */
  function AllSourceEntities(sources: seq<SourceId>, contents: SourceId -> seq<Entity>): (r: seq<Entity>)
    ensures forall e :: e in r <==> exists i :: 0 <= i < |sources| && e in contents(sources[i])
  {
    if sources == [] then []
    else
      var rest := AllSourceEntities(sources[1..], contents);
      assert forall i :: 0 <= i < |sources| - 1 ==> sources[1..][i] == sources[i + 1];
      contents(sources[0]) + rest
  }

  /** The `entities` computed value: the flat-map of every source, keeping
      only entities the category registry knows a category for. */
  function Entities(reg: Registry, contents: SourceId -> seq<Entity>, hasCategory: Entity -> bool): (r: seq<Entity>)
    ensures forall e :: e in r <==> hasCategory(e) && exists s :: s in reg.sources && e in contents(s)
  {
    Filter(AllSourceEntities(reg.sources, contents), hasCategory)
  }

  /** Entities of a later source follow those of an earlier one: registering a
      fresh source appends what it computes (those with a category) at the end. */
  lemma EntitiesOfAddedSource(reg: Registry, src: SourceId, contents: SourceId -> seq<Entity>, hasCategory: Entity -> bool)
    requires reg.Valid()
    requires src !in reg.sources
    ensures Entities(AddComputedSource(reg, src), contents, hasCategory)
            == Entities(reg, contents, hasCategory) + Filter(contents(src), hasCategory)
  {
    AllSourceEntitiesSnoc(reg.sources, src, contents);
    FilterAppend(AllSourceEntities(reg.sources, contents), contents(src), hasCategory);
  }

  lemma {:induction false} AllSourceEntitiesSnoc(sources: seq<SourceId>, src: SourceId, contents: SourceId -> seq<Entity>)
    ensures AllSourceEntities(sources + [src], contents) == AllSourceEntities(sources, contents) + contents(src)
    decreases |sources|
  {
    if sources == [] {
      assert AllSourceEntities([src], contents) == contents(src) + AllSourceEntities([], contents);
    } else {
      assert (sources + [src])[1..] == sources[1..] + [src];
      AllSourceEntitiesSnoc(sources[1..], src, contents);
    }
  }

  /** `getById(id)`: the first entity whose id matches, or `undefined`. */
  function GetById(items: seq<Entity>, id: string): (r: Option<Entity>)
    ensures r.None? <==> forall i :: 0 <= i < |items| ==> items[i].id != id
    ensures r.Some? ==> exists i :: 0 <= i < |items| && items[i] == r.value && r.value.id == id
                                    && forall j :: 0 <= j < i ==> items[j].id != id
  {
    Find(items, (e: Entity) => e.id == id)
  }

  /** `getItemsForApiKind(apiVersion, kind)`: exactly the items with both that
      apiVersion and that kind, order preserved. */
  function GetItemsForApiKind(items: seq<Entity>, apiVersion: string, kind: string): (r: seq<Entity>)
    ensures forall e :: e in r <==> e in items && e.apiVersion == apiVersion && e.kind == kind
    ensures forall i :: 0 <= i < |r| ==> r[i].apiVersion == apiVersion && r[i].kind == kind
  {
    Filter(items, (e: Entity) => e.apiVersion == apiVersion && e.kind == kind)
  }

  /** `getItemsByEntityClass(constructor)`: the items that are instances of the
      class, order preserved; `isInstance` stands for `instanceof`. */
  function GetItemsByEntityClass(items: seq<Entity>, isInstance: Entity -> bool): (r: seq<Entity>)
    ensures forall e :: e in r <==> e in items && isInstance(e)
    ensures |r| <= |items|
  {
    Filter(items, isInstance)
  }

  /** Both item queries keep order: querying a concatenation queries each part. */
  lemma QueriesKeepOrder(xs: seq<Entity>, ys: seq<Entity>, apiVersion: string, kind: string, isInstance: Entity -> bool)
    ensures GetItemsForApiKind(xs + ys, apiVersion, kind)
            == GetItemsForApiKind(xs, apiVersion, kind) + GetItemsForApiKind(ys, apiVersion, kind)
    ensures GetItemsByEntityClass(xs + ys, isInstance)
            == GetItemsByEntityClass(xs, isInstance) + GetItemsByEntityClass(ys, isInstance)
  {
    FilterAppend(xs, ys, (e: Entity) => e.apiVersion == apiVersion && e.kind == kind);
    FilterAppend(xs, ys, isInstance);
  }
}
