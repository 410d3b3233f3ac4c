/** `ExtensionLoader`: the map of installed extensions, the map of live
    instances and the set of names of extensions that have no instance on
    this side; the operations that edit them, the renderer's list handler and
    the per-extension decision `loadExtensions` makes.

    The name index of live instances observes the `instances` map, so an
    instance added or deleted there goes through its callback as well.

    `require`, instance construction, the `remove` event's listeners and
    `register` are opaque: their outcomes are parameters. */
module ExtensionLoader {
  import opened Wrappers
  import OM = OrderedMaps
  import LE = LensExtensions
  import IBN = InstancesByName

  type Id = string

  /** Which process the loader runs in: `ipcRenderer` is set in the renderer. */
  datatype Side = Main | Renderer

  datatype Loader = Loader(
    extensions: OM.OrderedMap<Id, LE.InstalledExtension>,
    instances: map<Id, LE.LensExtension>,
    nonInstancesByName: set<string>,
    byName: IBN.NameIndex)
  {
    ghost predicate Valid() {
      extensions.Valid()
    }
  }

  /** What the loader throws. */
  datatype LoaderError =
    | CantRemoveMissing(id: Id)   // `Error("Can't remove extension …, doesn't exist.")`
    | MissingExtension(id: Id)    // `TypeError` from reading a property of `undefined`

  /** `removeInstance(id)`. Without an instance nothing happens. Otherwise the
      instance is disabled (the synchronous part of `disable`: the flag is
      cleared), the `remove` event is emitted, and only if no listener throws
      are the instance and its name dropped (the map delete also drops the
      name from the name index); a throw is logged and swallowed. */
  function RemoveInstance(l: Loader, id: Id, emitThrows: bool): (r: Loader)
    requires l.Valid()
    ensures r.Valid() && r.extensions == l.extensions
    ensures id !in l.instances ==> r == l
    ensures id in l.instances && !emitThrows ==>
              && r.instances == l.instances - {id}
              && r.nonInstancesByName == l.nonInstancesByName - {l.instances[id].manifest.name}
              && r.byName.Keys == l.byName.Keys - {l.instances[id].manifest.name}
    ensures id in l.instances && emitThrows ==>
              && r.instances.Keys == l.instances.Keys
              && !r.instances[id].isEnabled
              && r.nonInstancesByName == l.nonInstancesByName
              && r.byName == l.byName
    ensures forall other :: other != id && other in l.instances ==> other in r.instances && r.instances[other] == l.instances[other]
    ensures r.instances.Keys <= l.instances.Keys
    ensures r.nonInstancesByName <= l.nonInstancesByName && r.byName.Keys <= l.byName.Keys
  {
    if id !in l.instances then l
    else
      var instance := l.instances[id];
      var disabled := instance.(isEnabled := false);
      if emitThrows then l.(instances := l.instances[id := disabled])
      else
        var byName := IBN.Observe(l.byName, IBN.Delete(id, disabled)).value;
        l.(instances := l.instances - {id}, nonInstancesByName := l.nonInstancesByName - {instance.manifest.name},
           byName := byName)
  }

  /** `removeExtension(id)`: `removeInstance` first, then the map delete,
      which throws when the id was not there, after `removeInstance` ran. */
  function RemoveExtension(l: Loader, id: Id, emitThrows: bool): (r: (Loader, Option<LoaderError>))
    requires l.Valid()
    ensures r.0.Valid()
    ensures r.1.Some? <==> id !in l.extensions.items
    ensures r.1.Some? ==> r.1.value == CantRemoveMissing(id)
    ensures r.0.extensions.items == l.extensions.items - {id}
    ensures r.0.extensions == OM.Delete(l.extensions, id)
    ensures r.0.instances == RemoveInstance(l, id, emitThrows).instances
    ensures r.0.nonInstancesByName == RemoveInstance(l, id, emitThrows).nonInstancesByName
  {
    var l1 := RemoveInstance(l, id, emitThrows);
    if id !in l1.extensions.items then (l1, Some(CantRemoveMissing(id)))
    else (l1.(extensions := OM.Delete(l1.extensions, id)), None)
  }

  /** `setIsEnabled(id, isEnabled)`: writes the flag of a known extension;
      an unknown id makes `extensions.get(id)` undefined and the write throws. */
  function SetIsEnabled(l: Loader, id: Id, isEnabled: bool): (r: Result<Loader, LoaderError>)
    requires l.Valid()
    ensures r.Err? <==> id !in l.extensions.items
    ensures r.Err? ==> r.error == MissingExtension(id)
    ensures r.Ok? ==> && r.value.Valid()
                      && r.value.extensions.keys == l.extensions.keys
                      && r.value.extensions.items.Keys == l.extensions.items.Keys
                      && r.value.extensions.items[id] == l.extensions.items[id].(isEnabled := isEnabled)
                      && (forall other :: other in l.extensions.items && other != id ==>
                            r.value.extensions.items[other] == l.extensions.items[other])
                      && r.value.instances == l.instances && r.value.nonInstancesByName == l.nonInstancesByName
  {
    if id !in l.extensions.items then Err(MissingExtension(id))
    else
      var ext := l.extensions.items[id];
      Ok(l.(extensions := OM.Set(l.extensions, id, ext.(isEnabled := isEnabled))))
  }

  /** `syncExtensions(entries)`: each received entry is written only when it
      differs (`isEqual`) from the stored one. Nothing is removed. */
  function SyncExtensions(exts: OM.OrderedMap<Id, LE.InstalledExtension>, entries: seq<(Id, LE.InstalledExtension)>): (r: OM.OrderedMap<Id, LE.InstalledExtension>)
    requires exts.Valid()
    ensures r.Valid()
    decreases |entries|
  {
    if entries == [] then exts
    else
      var (id, ext) := entries[0];
      var exts' := if id in exts.items && exts.items[id] == ext then exts else OM.Set(exts, id, ext);
      SyncExtensions(exts', entries[1..])
  }

  /** Skipping equal entries is unobservable: syncing is the plain merge, so
      the last received entry for an id wins, other ids keep their entries,
      no key is removed and known keys keep their order. */
  lemma {:induction false} SyncIsMerge(exts: OM.OrderedMap<Id, LE.InstalledExtension>, entries: seq<(Id, LE.InstalledExtension)>)
    requires exts.Valid()
    ensures SyncExtensions(exts, entries) == OM.Merge(exts, entries)
    decreases |entries|
  {
    if entries != [] {
      var (id, ext) := entries[0];
      if id in exts.items && exts.items[id] == ext {
        assert OM.Set(exts, id, ext) == exts;
      }
      SyncIsMerge(if id in exts.items && exts.items[id] == ext then exts else OM.Set(exts, id, ext), entries[1..]);
    }
  }

  /** `removeExtension` for each listed id that was not received, as the
      handler's `forEach` over the map: the visited keys are the map's own,
      so none of these calls throws. */
  function RemoveUnreceived(l: Loader, ids: seq<Id>, received: set<Id>, emitThrows: Id -> bool): (r: Loader)
    requires l.Valid()
    requires forall i :: 0 <= i < |ids| ==> ids[i] in l.extensions.items
    requires OM.Distinct(ids)
    ensures r.Valid()
    decreases |ids|
  {
    if ids == [] then l
    else
      var id := ids[0];
      var rest := ids[1..];
      var l1 := RemoveIfUnreceived(l, id, received, emitThrows(id));
      assert forall i :: 0 <= i < |rest| ==> rest[i] == ids[i + 1] && rest[i] != id;
      RemoveUnreceived(l1, rest, received, emitThrows)
  }

  /** What the handler's removals do to the extension map: exactly the
      visited ids that were not received are dropped, and the rest keep their
      entries. */
  lemma {:induction false} RemoveUnreceivedExtensions(l: Loader, ids: seq<Id>, received: set<Id>, emitThrows: Id -> bool)
    requires l.Valid()
    requires forall i :: 0 <= i < |ids| ==> ids[i] in l.extensions.items
    requires OM.Distinct(ids)
    ensures var r := RemoveUnreceived(l, ids, received, emitThrows);
            && (forall id :: id in r.extensions.items <==> id in l.extensions.items && (id in received || id !in ids))
            && (forall id :: id in r.extensions.items ==> r.extensions.items[id] == l.extensions.items[id])
    decreases |ids|
  {
    if ids != [] {
      var id := ids[0];
      var rest := ids[1..];
      var l1 := RemoveIfUnreceived(l, id, received, emitThrows(id));
      assert forall i :: 0 <= i < |rest| ==> rest[i] == ids[i + 1] && rest[i] != id;
      RemoveUnreceivedExtensions(l1, rest, received, emitThrows);
      var r := RemoveUnreceived(l1, rest, received, emitThrows);
      assert RemoveUnreceived(l, ids, received, emitThrows) == r;
      forall x
        ensures x in r.extensions.items <==> x in l.extensions.items && (x in received || x !in ids)
      {
        assert x in ids <==> x == id || x in rest;
      }
    }
  }

  /** What the handler's removals do to the instances: every dropped id loses
      its instance unless a `remove` listener threw, no other instance
      changes, and none is added. */
  lemma {:induction false} RemoveUnreceivedInstances(l: Loader, ids: seq<Id>, received: set<Id>, emitThrows: Id -> bool)
    requires l.Valid()
    requires forall i :: 0 <= i < |ids| ==> ids[i] in l.extensions.items
    requires OM.Distinct(ids)
    ensures var r := RemoveUnreceived(l, ids, received, emitThrows);
            && (forall id :: id in ids && id !in received && !emitThrows(id) ==> id !in r.instances)
            && (forall id :: id in l.instances && id !in ids ==> id in r.instances && r.instances[id] == l.instances[id])
            && r.instances.Keys <= l.instances.Keys
    decreases |ids|
  {
    if ids != [] {
      var id := ids[0];
      var rest := ids[1..];
      var l1 := RemoveIfUnreceived(l, id, received, emitThrows(id));
      assert forall i :: 0 <= i < |rest| ==> rest[i] == ids[i + 1] && rest[i] != id;
      RemoveUnreceivedInstances(l1, rest, received, emitThrows);
    }
  }

  /** One visit of the handler's `forEach`. */
  function RemoveIfUnreceived(l: Loader, id: Id, received: set<Id>, emitThrows: bool): (r: Loader)
    requires l.Valid()
    requires id in l.extensions.items
    ensures r.Valid()
    ensures r.extensions.items == if id in received then l.extensions.items else l.extensions.items - {id}
    ensures id !in received && !emitThrows ==> id !in r.instances
    ensures forall other :: other != id && other in l.instances ==> other in r.instances && r.instances[other] == l.instances[other]
    ensures r.instances.Keys <= l.instances.Keys
  {
    if id in received then l else RemoveExtension(l, id, emitThrows).0
  }

  /** The ids of a received list. */
  function ReceivedIds(entries: seq<(Id, LE.InstalledExtension)>): (r: set<Id>)
    ensures forall id :: id in r <==> exists i :: 0 <= i < |entries| && entries[i].0 == id
  {
    set i | 0 <= i < |entries| :: entries[i].0
  }

  /** The renderer's `extensionListHandler(entries)`: sync, then remove every
      locally known extension whose id was not received. */
  function ExtensionListHandler(l: Loader, entries: seq<(Id, LE.InstalledExtension)>, emitThrows: Id -> bool): (r: Loader)
    requires l.Valid()
    ensures r.Valid()
  {
    var l1 := l.(extensions := SyncExtensions(l.extensions, entries));
    var received := ReceivedIds(entries);
    var ids := l1.extensions.keys;
    assert forall i :: 0 <= i < |ids| ==> ids[i] in l1.extensions.items;
    RemoveUnreceived(l1, ids, received, emitThrows)
  }

  /** After the handler the extension map holds exactly the received ids,
      each with the last entry received for it, and every dropped id has lost
      its instance (unless a `remove` listener threw). */
  lemma ListHandlerMirrorsReceived(l: Loader, entries: seq<(Id, LE.InstalledExtension)>, emitThrows: Id -> bool)
    requires l.Valid()
    ensures var r := ExtensionListHandler(l, entries, emitThrows);
            && (forall id :: id in r.extensions.items <==> exists i :: 0 <= i < |entries| && entries[i].0 == id)
            && (forall id :: id in r.extensions.items ==> r.extensions.items[id] == OM.LastValue(entries, id).value)
            && (forall id :: id in l.extensions.items && id !in r.extensions.items && !emitThrows(id) ==> id !in r.instances)
  {
    SyncIsMerge(l.extensions, entries);
    var synced := SyncExtensions(l.extensions, entries);
    var l1 := l.(extensions := synced);
    var received := ReceivedIds(entries);
    assert forall i :: 0 <= i < |synced.keys| ==> synced.keys[i] in synced.items;
    var r := RemoveUnreceived(l1, synced.keys, received, emitThrows);
    assert r == ExtensionListHandler(l, entries, emitThrows);
    RemoveUnreceivedInstances(l1, synced.keys, received, emitThrows);
    RemoveUnreceivedExtensions(l1, synced.keys, received, emitThrows);
    forall id
      ensures id in r.extensions.items <==> exists i :: 0 <= i < |entries| && entries[i].0 == id
      ensures id in r.extensions.items ==> r.extensions.items[id] == OM.LastValue(entries, id).value
      ensures id in l.extensions.items && id !in r.extensions.items && !emitThrows(id) ==> id !in r.instances
    {
      OM.MergeContents(l.extensions, entries, id);
      assert id in received <==> OM.LastValue(entries, id).Some?;
      assert id in synced.items ==> id in synced.keys;
    }
  }

  /** The entry point `requireExtension` reads on this side. */
  function EntryPoint(m: LE.Manifest, side: Side): Option<string> {
    match side
    case Main => m.main
    case Renderer => m.renderer
  }

  /** `requireExtension(ext)`: no class when the side's entry point is absent
      or empty (falsy), or when `require` throws or has no default export
      (`requireGivesClass` is false). */
  function RequireExtension(ext: LE.InstalledExtension, side: Side, requireGivesClass: bool): (r: bool)
    ensures r <==> EntryPoint(ext.manifest, side).Some? && EntryPoint(ext.manifest, side).value != "" && requireGivesClass
    ensures side == Main && ext.manifest.main.None? ==> !r
    ensures side == Renderer && ext.manifest.renderer.None? ==> !r
  {
    match EntryPoint(ext.manifest, side)
    case None => false
    case Some(p) => p != "" && requireGivesClass
  }

  /** What the opaque collaborators do for one extension: whether `require`
      gives a class, whether constructing the instance succeeds, and whether
      a `remove` listener throws. */
  datatype Env = Env(side: Side, requireGivesClass: Id -> bool, constructs: Id -> bool, emitThrows: Id -> bool)

  predicate AlreadyInit(l: Loader, id: Id, ext: LE.InstalledExtension) {
    id in l.instances || ext.manifest.name in l.nonInstancesByName
  }

  /** One step of `loadExtensions`' `map`: the new loader and whether an
      instance was created and activated for this entry. A new instance is
      stored before the name index sees it; when another live instance
      already has its name the index's callback throws, the step's `catch`
      logs it, and the stored instance stays without being activated. */
  function LoadStep(l: Loader, id: Id, ext: LE.InstalledExtension, env: Env): (r: (Loader, bool))
    requires l.Valid()
    ensures r.0.Valid() && r.0.extensions == l.extensions
    // activated only if compatible, enabled, not yet initialised, with a class, a successful construction and a fresh name
    ensures r.1 <==> && ext.isCompatible && ext.isEnabled && !AlreadyInit(l, id, ext)
                     && RequireExtension(ext, env.side, env.requireGivesClass(id)) && env.constructs(id)
                     && ext.manifest.name !in l.byName
    ensures r.1 ==> && r.0.instances == l.instances[id := LE.New(ext)] && r.0.nonInstancesByName == l.nonInstancesByName
                    && r.0.byName == l.byName[ext.manifest.name := LE.New(ext)]
    // an existing instance of another id is never replaced
    ensures forall other :: other != id && other in l.instances ==> other in r.0.instances && r.0.instances[other] == l.instances[other]
  {
    if ext.isCompatible && ext.isEnabled && !AlreadyInit(l, id, ext) then
      if !RequireExtension(ext, env.side, env.requireGivesClass(id)) then
        (l.(nonInstancesByName := l.nonInstancesByName + {ext.manifest.name}), false)
      else if !env.constructs(id) then (l, false)
      else
        var instance := LE.New(ext);
        var stored := l.(instances := l.instances[id := instance]);
        match IBN.Observe(l.byName, IBN.Add(id, instance))
        case Ok(byName) => (stored.(byName := byName), true)
        case Err(_) => (stored, false)
    else if !ext.isEnabled && AlreadyInit(l, id, ext) then
      (RemoveInstance(l, id, env.emitThrows(id)), false)
    else (l, false)
  }

  /** What one step does when it does not activate an instance, and what it
      can add at all. */
  lemma LoadStepCases(l: Loader, id: Id, ext: LE.InstalledExtension, env: Env)
    requires l.Valid()
    ensures var r := LoadStep(l, id, ext, env);
            // constructed under a name the index already holds: stored, but not activated
            && ext.isCompatible && ext.isEnabled && !AlreadyInit(l, id, ext)
            && RequireExtension(ext, env.side, env.requireGivesClass(id)) && env.constructs(id)
            && ext.manifest.name in l.byName
            ==> && !r.1 && r.0.instances == l.instances[id := LE.New(ext)]
                && r.0.nonInstancesByName == l.nonInstancesByName && r.0.byName == l.byName
    // no class for this side: the name is recorded as having no instance
    ensures var r := LoadStep(l, id, ext, env);
            ext.isCompatible && ext.isEnabled && !AlreadyInit(l, id, ext) && !RequireExtension(ext, env.side, env.requireGivesClass(id))
            ==> r.0 == l.(nonInstancesByName := l.nonInstancesByName + {ext.manifest.name})
    // disabled but initialised: the instance is removed
    ensures !ext.isEnabled && AlreadyInit(l, id, ext) ==> LoadStep(l, id, ext, env).0 == RemoveInstance(l, id, env.emitThrows(id))
    // this entry's existing instance is never replaced: at most its flag is cleared
    ensures var r := LoadStep(l, id, ext, env);
            id in l.instances && id in r.0.instances ==>
              (r.0.instances[id] == l.instances[id] || r.0.instances[id] == l.instances[id].(isEnabled := false))
    // only this entry's id and name can be added
    ensures LoadStep(l, id, ext, env).0.instances.Keys <= l.instances.Keys + {id}
    ensures LoadStep(l, id, ext, env).0.nonInstancesByName <= l.nonInstancesByName + {ext.manifest.name}
    ensures LoadStep(l, id, ext, env).0.byName.Keys <= l.byName.Keys + {ext.manifest.name}
  {
  }

  /** The `map` over the installed entries (a `Map`'s entries, so the ids
      are distinct); returns the ids activated, in order. */
  function LoadEach(l: Loader, entries: seq<(Id, LE.InstalledExtension)>, env: Env): (r: (Loader, seq<Id>))
    requires l.Valid()
    requires OM.DistinctKeys(entries)
    ensures r.0.Valid() && r.0.extensions == l.extensions
    ensures forall id :: id in l.instances && (forall j :: 0 <= j < |entries| ==> entries[j].0 != id)
                         ==> id in r.0.instances && r.0.instances[id] == l.instances[id]
    decreases |entries|
  {
    if entries == [] then (l, [])
    else
      var (l1, created) := LoadStep(l, entries[0].0, entries[0].1, env);
      assert forall j :: 0 <= j < |entries| - 1 ==> entries[1..][j] == entries[j + 1];
      var (l2, ids) := LoadEach(l1, entries[1..], env);
      if created then (l2, [entries[0].0] + ids) else (l2, ids)
  }

  /** One unfolding of the `map`: the head's step, then the rest. */
  lemma LoadEachUnfold(l: Loader, entries: seq<(Id, LE.InstalledExtension)>, env: Env)
    requires l.Valid() && OM.DistinctKeys(entries) && entries != []
    ensures var step := LoadStep(l, entries[0].0, entries[0].1, env);
            OM.DistinctKeys(entries[1..]) &&
            var rest := LoadEach(step.0, entries[1..], env);
            LoadEach(l, entries, env) == if step.1 then (rest.0, [entries[0].0] + rest.1) else rest
  {
    assert forall j :: 0 <= j < |entries| - 1 ==> entries[1..][j] == entries[j + 1];
  }

  /** Soundness of the `map`: every id it returns comes from a compatible,
      enabled entry and holds a fresh instance made from that entry. */
  lemma {:induction false} LoadEachActivated(l: Loader, entries: seq<(Id, LE.InstalledExtension)>, env: Env)
    requires l.Valid() && OM.DistinctKeys(entries)
    ensures var r := LoadEach(l, entries, env);
            forall i :: 0 <= i < |r.1| ==>
              HasEnabledEntry(entries, r.1[i]) && r.1[i] in r.0.instances && r.0.instances[r.1[i]] == LE.New(ExtOf(entries, r.1[i]))
    decreases |entries|
  {
    if entries != [] {
      var id := entries[0].0;
      var step := LoadStep(l, id, entries[0].1, env);
      LoadEachUnfold(l, entries, env);
      LoadEachActivated(step.0, entries[1..], env);
      var rest := LoadEach(step.0, entries[1..], env);
      assert rest == LoadEach(step.0, entries[1..], env);
      TailIdsKeepExt(entries, rest.1);
      if step.1 {
        // the head's fresh instance survives the tail, whose ids differ
        assert forall j :: 0 <= j < |entries[1..]| ==> entries[1..][j].0 != id;
        assert rest.0.instances[id] == LE.New(entries[0].1);
        ExtOfAt(entries, 0);
      }
    }
  }

  /** The `map` only stores instances under the ids it visits. */
  lemma {:induction false} LoadEachAddsOnlyListed(l: Loader, entries: seq<(Id, LE.InstalledExtension)>, env: Env)
    requires l.Valid() && OM.DistinctKeys(entries)
    ensures forall id :: id in LoadEach(l, entries, env).0.instances ==>
              id in l.instances || exists j :: 0 <= j < |entries| && entries[j].0 == id
    decreases |entries|
  {
    if entries != [] {
      var l1 := LoadStep(l, entries[0].0, entries[0].1, env).0;
      LoadStepCases(l, entries[0].0, entries[0].1, env);
      assert forall j :: 0 <= j < |entries| - 1 ==> entries[1..][j] == entries[j + 1];
      LoadEachAddsOnlyListed(l1, entries[1..], env);
    }
  }

  /** Ids found in the tail of a list with distinct ids are not the head's,
      and the tail gives them the same extension. */
  lemma TailIdsKeepExt(entries: seq<(Id, LE.InstalledExtension)>, ids: seq<Id>)
    requires entries != [] && OM.DistinctKeys(entries)
    requires forall i :: 0 <= i < |ids| ==> HasEnabledEntry(entries[1..], ids[i])
    ensures forall i :: 0 <= i < |ids| ==> HasEnabledEntry(entries, ids[i])
    ensures forall i :: 0 <= i < |ids| ==> ids[i] != entries[0].0 && ExtOf(entries, ids[i]) == ExtOf(entries[1..], ids[i])
  {
    forall i | 0 <= i < |ids|
      ensures HasEnabledEntry(entries, ids[i])
      ensures ids[i] != entries[0].0 && ExtOf(entries, ids[i]) == ExtOf(entries[1..], ids[i])
    {
      var j :| 0 <= j < |entries[1..]| && entries[1..][j].0 == ids[i]
               && entries[1..][j].1.isCompatible && entries[1..][j].1.isEnabled;
      var e := entries[j + 1];
      assert entries[1..][j] == e;
      assert e.0 != entries[0].0;
      assert e.0 == ids[i] && e.1.isCompatible && e.1.isEnabled;
    }
  }

  /** Some entry for `id` is compatible and enabled. */
  predicate HasEnabledEntry(entries: seq<(Id, LE.InstalledExtension)>, id: Id) {
    exists j :: 0 <= j < |entries| && entries[j].0 == id && entries[j].1.isCompatible && entries[j].1.isEnabled
  }

  /** The extension an entry list gives for an id (its first entry). */
  function ExtOf(entries: seq<(Id, LE.InstalledExtension)>, id: Id): LE.InstalledExtension
    requires HasEnabledEntry(entries, id)
  {
    if entries[0].0 == id then entries[0].1
    else
      assert forall j :: 1 <= j < |entries| ==> entries[1..][j - 1] == entries[j];
      ExtOf(entries[1..], id)
  }

  /** Entry `k` is sure to be activated: it is compatible and enabled, its
      id has no instance, its name is neither recorded as having none nor
      indexed, no earlier entry shares its name, `require` gives a class and
      construction succeeds. */
  predicate Eligible(l: Loader, entries: seq<(Id, LE.InstalledExtension)>, k: int, env: Env) {
    && 0 <= k < |entries|
    && var (id, ext) := entries[k];
       && ext.isCompatible && ext.isEnabled
       && id !in l.instances && ext.manifest.name !in l.nonInstancesByName && ext.manifest.name !in l.byName
       && RequireExtension(ext, env.side, env.requireGivesClass(id)) && env.constructs(id)
       && forall j :: 0 <= j < k ==> entries[j].1.manifest.name != ext.manifest.name
  }

  /** A step for another entry, with another name, leaves an entry eligible. */
  lemma EligibleAfterStep(l: Loader, entries: seq<(Id, LE.InstalledExtension)>, k: int, env: Env)
    requires l.Valid() && OM.DistinctKeys(entries)
    requires 0 < k && Eligible(l, entries, k, env)
    ensures Eligible(LoadStep(l, entries[0].0, entries[0].1, env).0, entries[1..], k - 1, env)
  {
    LoadStepCases(l, entries[0].0, entries[0].1, env);
    assert entries[0].0 != entries[k].0;
    assert entries[0].1.manifest.name != entries[k].1.manifest.name;
    assert forall j :: 0 <= j < k - 1 ==> entries[1..][j] == entries[j + 1];
  }

  /** Completeness of the `map`: every eligible entry is activated. */
  lemma {:induction false} LoadEachLoadsEligible(l: Loader, entries: seq<(Id, LE.InstalledExtension)>, env: Env, k: int)
    requires l.Valid() && OM.DistinctKeys(entries)
    requires Eligible(l, entries, k, env)
    ensures entries[k].0 in LoadEach(l, entries, env).1
    decreases k
  {
    var l1 := LoadStep(l, entries[0].0, entries[0].1, env).0;
    assert forall j :: 0 <= j < |entries| - 1 ==> entries[1..][j] == entries[j + 1];
    if k > 0 {
      EligibleAfterStep(l, entries, k, env);
      LoadEachLoadsEligible(l1, entries[1..], env, k - 1);
      assert entries[1..][k - 1] == entries[k];
    }
  }

  /** Entry `k` is disabled and its id has an instance whose `remove`
      listeners do not throw. */
  predicate DisabledLive(l: Loader, entries: seq<(Id, LE.InstalledExtension)>, k: int, env: Env) {
    && 0 <= k < |entries|
    && !entries[k].1.isEnabled && entries[k].0 in l.instances && !env.emitThrows(entries[k].0)
  }

  /** A disabled entry whose id has an instance loses it: the steps before
      it keep the instance, its own step removes it, and no later step can
      bring it back. */
  lemma {:induction false} LoadEachRemovesDisabled(l: Loader, entries: seq<(Id, LE.InstalledExtension)>, env: Env, k: int)
    requires l.Valid() && OM.DistinctKeys(entries)
    requires DisabledLive(l, entries, k, env)
    ensures entries[k].0 !in LoadEach(l, entries, env).0.instances
    decreases k
  {
    var id := entries[k].0;
    var l1 := LoadStep(l, entries[0].0, entries[0].1, env).0;
    assert forall j :: 0 <= j < |entries| - 1 ==> entries[1..][j] == entries[j + 1];
    var r := LoadEach(l1, entries[1..], env).0;
    assert LoadEach(l, entries, env).0 == r;
    if k > 0 {
      assert entries[0].0 != id;
      assert entries[1..][k - 1] == entries[k];
      LoadEachRemovesDisabled(l1, entries[1..], env, k - 1);
    } else {
      LoadStepCases(l, entries[0].0, entries[0].1, env);
      assert id !in l1.instances;
      LoadEachAddsOnlyListed(l1, entries[1..], env);
      forall j | 0 <= j < |entries[1..]|
        ensures entries[1..][j].0 != id
      {
        assert entries[1..][j] == entries[j + 1];
      }
    }
  }

  /** Step 3 of `loadExtensions`: `enable(register)` on each new instance, in
      order. `registered(id)` is what that instance's `register` gives. */
  function EnableEach(instances: map<Id, LE.LensExtension>, ids: seq<Id>, registered: Id -> Option<seq<LE.Disposer>>): (r: map<Id, LE.LensExtension>)
    requires forall i :: 0 <= i < |ids| ==> ids[i] in instances
    ensures r.Keys == instances.Keys
    ensures forall id :: id in instances && instances[id].isEnabled ==> r[id] == instances[id]
    ensures forall id :: id in instances && id !in ids ==> r[id] == instances[id]
    decreases |ids|
  {
    if ids == [] then instances
    else
      var id := ids[0];
      var inst' := instances[id := LE.Enable(instances[id], registered(id))];
      assert forall i :: 0 <= i < |ids| - 1 ==> ids[1..][i] == ids[i + 1];
      EnableEach(inst', ids[1..], registered)
  }

  /** Every listed instance ends up as `enable` leaves it; enabling twice is
      enabling once, so a repeated id is no exception. */
  lemma {:induction false} EnableEachEnables(instances: map<Id, LE.LensExtension>, ids: seq<Id>, registered: Id -> Option<seq<LE.Disposer>>)
    requires forall i :: 0 <= i < |ids| ==> ids[i] in instances
    ensures forall i :: 0 <= i < |ids| ==> EnableEach(instances, ids, registered)[ids[i]] == LE.Enable(instances[ids[i]], registered(ids[i]))
    decreases |ids|
  {
    if ids != [] {
      var id := ids[0];
      var inst' := instances[id := LE.Enable(instances[id], registered(id))];
      assert forall i :: 0 <= i < |ids| - 1 ==> ids[1..][i] == ids[i + 1];
      EnableEachEnables(inst', ids[1..], registered);
      assert EnableEach(instances, ids, registered) == EnableEach(inst', ids[1..], registered);
    }
  }

  /** `loadExtensions(installedExtensions, register)`: decide per entry, then
      enable every activated instance. Returns the loader and the ids
      activated. */
  function LoadExtensions(l: Loader, entries: seq<(Id, LE.InstalledExtension)>, env: Env, registered: Id -> Option<seq<LE.Disposer>>): (r: (Loader, seq<Id>))
    requires l.Valid()
    requires OM.DistinctKeys(entries)
    ensures r.0.Valid() && r.0.extensions == l.extensions
    ensures forall i :: 0 <= i < |r.1| ==> HasEnabledEntry(entries, r.1[i])
    ensures forall i :: 0 <= i < |r.1| ==>
              && r.1[i] in r.0.instances
              && r.0.instances[r.1[i]] == LE.Enable(LE.New(ExtOf(entries, r.1[i])), registered(r.1[i]))
    ensures forall id :: id in l.instances && (forall j :: 0 <= j < |entries| ==> entries[j].0 != id)
                         ==> id in r.0.instances && r.0.instances[id] == l.instances[id]
    ensures r.0.instances.Keys == LoadEach(l, entries, env).0.instances.Keys
  {
    var loaded := LoadEach(l, entries, env);
    LoadEachActivated(l, entries, env);
    assert loaded == LoadEach(l, entries, env);
    EnableEachEnables(loaded.0.instances, loaded.1, registered);
    (loaded.0.(instances := EnableEach(loaded.0.instances, loaded.1, registered)), loaded.1)
  }

  /** Completeness and removal lifted to `loadExtensions`: an eligible entry
      ends up an enabled instance made from it, and a disabled entry whose
      id had an instance (and whose `remove` listeners do not throw) ends up
      without one. */
  lemma LoadExtensionsOutcome(l: Loader, entries: seq<(Id, LE.InstalledExtension)>, env: Env,
                              registered: Id -> Option<seq<LE.Disposer>>, k: int)
    requires l.Valid() && OM.DistinctKeys(entries) && 0 <= k < |entries|
    ensures var r := LoadExtensions(l, entries, env, registered);
            Eligible(l, entries, k, env) ==>
              && entries[k].0 in r.1
              && entries[k].0 in r.0.instances
              && r.0.instances[entries[k].0] == LE.Enable(LE.New(entries[k].1), registered(entries[k].0))
    ensures DisabledLive(l, entries, k, env) ==> entries[k].0 !in LoadExtensions(l, entries, env, registered).0.instances
  {
    var r := LoadExtensions(l, entries, env, registered);
    if Eligible(l, entries, k, env) {
      LoadEachLoadsEligible(l, entries, env, k);
      var i :| 0 <= i < |r.1| && r.1[i] == entries[k].0;
      ExtOfAt(entries, k);
    }
    if DisabledLive(l, entries, k, env) {
      LoadEachRemovesDisabled(l, entries, env, k);
    }
  }

  /** In a list with distinct ids, the extension for the id of a compatible,
      enabled entry is that entry's. */
  lemma {:induction false} ExtOfAt(entries: seq<(Id, LE.InstalledExtension)>, k: int)
    requires OM.DistinctKeys(entries) && 0 <= k < |entries|
    requires entries[k].1.isCompatible && entries[k].1.isEnabled
    ensures HasEnabledEntry(entries, entries[k].0)
    ensures ExtOf(entries, entries[k].0) == entries[k].1
    decreases k
  {
    assert forall j :: 0 <= j < |entries| - 1 ==> entries[1..][j] == entries[j + 1];
    if k > 0 {
      assert entries[0].0 != entries[k].0;
      assert entries[1..][k - 1] == entries[k];
      ExtOfAt(entries[1..], k - 1);
    }
  }
}
