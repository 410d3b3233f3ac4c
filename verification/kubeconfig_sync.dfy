/** `KubeconfigSyncManager`: the registry of kubeconfig sync targets. It maps
    each watched file or folder to what `watchFileChanges` returned for it (the
    path's computed entity list and a disposer), and while syncing it publishes
    one aggregate source, the concatenation of every path's entities, into the
    catalog entity registry.

    The per-file watch/read/parse pipeline is not part of this model: it is the
    opaque `watch` parameter, and a path's entities are the snapshot its
    `Watch` holds. */
module KubeconfigSync {
  import opened Wrappers
  import OM = OrderedMaps
  import Catalog = CatalogEntityRegistry
  import SeqUtil

  type Path = string
  type Entity = Catalog.Entity

  /** What `watchFileChanges(filePath)` returns: the path's entities and the
      disposer that would stop watching it (an opaque token). */
  datatype Watch = Watch(entities: seq<Entity>, disposer: nat)

  /** The identity of the manager's aggregate computed source in the catalog. */
  const AggregateSource: Catalog.SourceId := 0

  /** A change of the user's `kubeconfigSyncs` map, as `observe` reports it. */
  datatype SyncChange = Added(name: Path) | Deleted(name: Path) | Updated(name: Path)

  /** `sources` is the `observable.map` of watched paths; `listening` is true
      while the `observe` subscription on the sync list is live. */
  datatype Manager = Manager(
    sources: OM.OrderedMap<Path, Watch>,
    syncing: bool,
    listening: bool,
    catalog: Catalog.Registry)
  {
    ghost predicate Valid() {
      sources.Valid() && catalog.Valid()
    }

    /** The lifecycle invariant: a syncing manager listens to the sync list and
        has its aggregate source registered; a stopped one watches nothing,
        listens to nothing and has no source registered. */
    ghost predicate Consistent() {
      && Valid()
      && (syncing <==> listening)
      && (syncing <==> AggregateSource in catalog.sources)
      && (!syncing ==> sources.keys == [])
    }
  }

  /** A freshly constructed manager over a catalog that does not hold its source. */
  function Init(catalog: Catalog.Registry): (r: Manager)
    requires catalog.Valid() && AggregateSource !in catalog.sources
    ensures r.Consistent() && !r.syncing
  {
    Manager(OM.Empty(), false, false, catalog)
  }

  /** `startNewSync(filePath)`: a path that is already watched is left alone;
      otherwise its watch is stored under it, after every other path. */
  function StartNewSync(m: Manager, path: Path, watch: Path -> Watch): (r: Manager)
    requires m.Valid()
    ensures r.Valid()
    ensures path in m.sources.items ==> r == m
    ensures path !in m.sources.items ==> r.sources.keys == m.sources.keys + [path]
    ensures r.sources.items == if path in m.sources.items then m.sources.items
                               else m.sources.items[path := watch(path)]
    ensures r.syncing == m.syncing && r.listening == m.listening && r.catalog == m.catalog
  {
    if path in m.sources.items then m
    else m.(sources := OM.Set(m.sources, path, watch(path)))
  }

  /** `stopOldSync(filePath)`: an unwatched path is a no-op; a watched one loses
      exactly its entry. The stored disposer is not called: the pair is dropped. */
  function StopOldSync(m: Manager, path: Path): (r: Manager)
    requires m.Valid()
    ensures r.Valid()
    ensures path !in m.sources.items ==> r == m
    ensures r.sources.items == m.sources.items - {path}
    ensures r.syncing == m.syncing && r.listening == m.listening && r.catalog == m.catalog
  {
    m.(sources := OM.Delete(m.sources, path))
  }

  /** `startNewSync` for each path in turn. */
  function StartEach(m: Manager, paths: seq<Path>, watch: Path -> Watch): (r: Manager)
    requires m.Valid()
    ensures r.Valid()
    ensures r.syncing == m.syncing && r.listening == m.listening && r.catalog == m.catalog
    decreases |paths|
  {
    if paths == [] then m else StartEach(StartNewSync(m, paths[0], watch), paths[1..], watch)
  }

  /** After the loop a path is watched iff it was before or is listed; earlier
      watches are kept, in their order, and new ones hold their own watch. */
  lemma {:induction false} StartEachWatches(m: Manager, paths: seq<Path>, watch: Path -> Watch)
    requires m.Valid()
    ensures var r := StartEach(m, paths, watch);
            && (forall p :: p in r.sources.items <==> p in m.sources.items || p in paths)
            && (forall p :: p in m.sources.items ==> r.sources.items[p] == m.sources.items[p])
            && (forall p :: p in r.sources.items && p !in m.sources.items ==> r.sources.items[p] == watch(p))
            && |m.sources.keys| <= |r.sources.keys| && r.sources.keys[..|m.sources.keys|] == m.sources.keys
    decreases |paths|
  {
    if paths != [] {
      var m' := StartNewSync(m, paths[0], watch);
      StartEachWatches(m', paths[1..], watch);
      var r := StartEach(m, paths, watch);
      assert r == StartEach(m', paths[1..], watch);
      assert forall p :: p in paths <==> p == paths[0] || p in paths[1..];
      OM.PrefixOfPrefix(m.sources.keys, m'.sources.keys, r.sources.keys);
    }
  }

  /** `startSync()`. Idempotent while syncing; otherwise it registers the
      aggregate source, watches the default kubeconfig folder and then every
      configured path, and subscribes to changes of the configured set. */
  function StartSync(m: Manager, defaultDir: Path, configured: seq<Path>, watch: Path -> Watch): (r: Manager)
    requires m.Valid()
    ensures r.Valid()
    ensures m.syncing ==> r == m
    ensures !m.syncing ==> r.syncing && r.listening
    ensures !m.syncing ==> r.catalog == Catalog.AddComputedSource(m.catalog, AggregateSource)
  {
    if m.syncing then m
    else
      var m1 := m.(syncing := true, catalog := Catalog.AddComputedSource(m.catalog, AggregateSource));
      var m2 := StartNewSync(m1, defaultDir, watch);
      StartEach(m2, configured, watch).(listening := true)
  }

  /** Started from a stopped, consistent manager, `startSync` ends syncing and
      consistent, watching exactly the default folder and the configured paths,
      each once, the default folder first, each with its own watch. */
  lemma StartSyncWatchesTargets(m: Manager, defaultDir: Path, configured: seq<Path>, watch: Path -> Watch)
    requires m.Consistent() && !m.syncing
    ensures StartSync(m, defaultDir, configured, watch).Consistent()
    ensures var r := StartSync(m, defaultDir, configured, watch);
            && (forall p :: p in r.sources.items <==> p == defaultDir || p in configured)
            && (forall p :: p in r.sources.items ==> r.sources.items[p] == watch(p))
            && r.sources.keys[0] == defaultDir
            && OM.Distinct(r.sources.keys)
  {
    var m1 := m.(syncing := true, catalog := Catalog.AddComputedSource(m.catalog, AggregateSource));
    var m2 := StartNewSync(m1, defaultDir, watch);
    assert m2.sources.keys == [defaultDir];
    StartEachWatches(m2, configured, watch);
    var r := StartSync(m, defaultDir, configured, watch);
    assert r.sources.keys[..1] == [defaultDir];
  }

  /** A change of the configured set while subscribed: "add" starts and
      "delete" stops exactly the named path; "update" is ignored, and so is
      every change after the subscription was disposed. */
  function OnSyncListChange(m: Manager, change: SyncChange, watch: Path -> Watch): (r: Manager)
    requires m.Valid()
    ensures r.Valid()
    ensures !m.listening || change.Updated? ==> r == m
    ensures r.syncing == m.syncing && r.listening == m.listening && r.catalog == m.catalog
    ensures m.listening && change.Added? ==> r.sources.items.Keys == m.sources.items.Keys + {change.name}
    ensures m.listening && change.Deleted? ==> r.sources.items.Keys == m.sources.items.Keys - {change.name}
    ensures forall p :: p in r.sources.items && p != change.name ==> p in m.sources.items && r.sources.items[p] == m.sources.items[p]
  {
    if !m.listening then m
    else
      match change
      case Added(p) => StartNewSync(m, p, watch)
      case Deleted(p) => StopOldSync(m, p)
      case Updated(_) => m
  }

  /** `stopOldSync` for each key in turn, as `stopSync`'s loop over `sources.keys()`. */
  function StopEach(m: Manager, paths: seq<Path>): (r: Manager)
    requires m.Valid()
    ensures r.Valid()
    ensures forall p :: p in r.sources.items <==> p in m.sources.items && p !in paths
    ensures r.syncing == m.syncing && r.listening == m.listening && r.catalog == m.catalog
    decreases |paths|
  {
    if paths == [] then m else StopEach(StopOldSync(m, paths[0]), paths[1..])
  }

  /** `stopSync()`: dispose the subscription, stop every watched path,
      unregister the aggregate source and clear `syncing`. */
  function StopSync(m: Manager): (r: Manager)
    requires m.Valid()
    ensures r.Valid()
    ensures r.sources.items == map[] && r.sources.keys == []
    ensures !r.syncing && !r.listening
    ensures AggregateSource !in r.catalog.sources
    ensures forall s :: s != AggregateSource ==> (s in r.catalog.sources <==> s in m.catalog.sources)
    ensures r.Consistent()
  {
    var m1 := StopEach(m.(listening := false), m.sources.keys);
    assert m1.sources.items == map[];
    OM.NoItemsNoKeys(m1.sources);
    m1.(catalog := Catalog.RemoveSource(m1.catalog, AggregateSource), syncing := false)
  }

  /** What the aggregate computed source yields: every watched path's
      entities, concatenated in the map's order. */
  function Aggregate(m: Manager): (r: seq<Entity>)
    requires m.Valid()
    ensures forall e :: e in r <==> exists p :: p in m.sources.items && e in m.sources.items[p].entities
  {
    var ws := OM.Values(m.sources);
    var cols := seq(|ws|, i requires 0 <= i < |ws| => ws[i].entities);
    var r := SeqUtil.Concat(cols);
    forall e | e in r
      ensures exists p :: p in m.sources.items && e in m.sources.items[p].entities
    {
      var i :| 0 <= i < |cols| && e in cols[i];
      assert e in m.sources.items[m.sources.keys[i]].entities;
    }
    forall p, e | p in m.sources.items && e in m.sources.items[p].entities
      ensures e in r
    {
      var i :| 0 <= i < |m.sources.keys| && m.sources.keys[i] == p;
      assert e in cols[i];
    }
    r
  }

  /** Watching a new path appends its entities to the aggregate, after those of
      every path watched before it. */
  lemma AggregateOfNewSync(m: Manager, path: Path, watch: Path -> Watch)
    requires m.Valid()
    requires path !in m.sources.items
    ensures Aggregate(StartNewSync(m, path, watch)) == Aggregate(m) + watch(path).entities
  {
    var r := StartNewSync(m, path, watch);
    var ws := OM.Values(m.sources);
    var ws' := OM.Values(r.sources);
    var cols := seq(|ws|, i requires 0 <= i < |ws| => ws[i].entities);
    var cols' := seq(|ws'|, i requires 0 <= i < |ws'| => ws'[i].entities);
    assert cols' == cols + [watch(path).entities];
    SeqUtil.ConcatSnoc(cols, watch(path).entities);
  }

  /** The entities the catalog publishes: the aggregate source yields
      `Aggregate(m)`, every other registered source what `others` says. */
  function Published(m: Manager, others: Catalog.SourceId -> seq<Entity>, hasCategory: Entity -> bool): seq<Entity>
    requires m.Valid()
  {
    var agg := Aggregate(m);
    Catalog.Entities(m.catalog, (s: Catalog.SourceId) => if s == AggregateSource then agg else others(s), hasCategory)
  }

  /** While syncing, every watched entity with a category is published; after
      `stopSync` only the other sources' entities are: stopping retracts what
      the manager published. */
  lemma PublishedAcrossStop(m: Manager, others: Catalog.SourceId -> seq<Entity>, hasCategory: Entity -> bool)
    requires m.Consistent()
    ensures m.syncing ==> forall p, e :: p in m.sources.items && e in m.sources.items[p].entities && hasCategory(e)
                                         ==> e in Published(m, others, hasCategory)
    ensures var r := StopSync(m);
            forall e :: e in Published(r, others, hasCategory) <==>
                          hasCategory(e) && exists s :: s in r.catalog.sources && s != AggregateSource && e in others(s)
  {
    var agg := Aggregate(m);
    var contents := (s: Catalog.SourceId) => if s == AggregateSource then agg else others(s);
    if m.syncing {
      forall p, e | p in m.sources.items && e in m.sources.items[p].entities && hasCategory(e)
        ensures e in Published(m, others, hasCategory)
      {
        assert e in contents(AggregateSource);
      }
    }
  }

  /** The lifecycle invariant holds in every reachable state: each operation
      preserves it, and after `stopSync` a later `startSync` runs again. */
  lemma LifecyclePreservesConsistency(m: Manager, defaultDir: Path, configured: seq<Path>, change: SyncChange, watch: Path -> Watch)
    requires m.Consistent()
    ensures StartSync(m, defaultDir, configured, watch).Consistent()
    ensures StopSync(m).Consistent()
    ensures OnSyncListChange(m, change, watch).Consistent()
    ensures StartSync(StopSync(m), defaultDir, configured, watch).syncing
  {
    if !m.syncing {
      StartSyncWatchesTargets(m, defaultDir, configured, watch);
    }
    StartSyncWatchesTargets(StopSync(m), defaultDir, configured, watch);
  }
}
