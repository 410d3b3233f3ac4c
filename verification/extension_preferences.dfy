/** `ExtensionsPreferencesStore`: the persisted enabled flags of installed
    extensions, an `observable.map` from extension id to `{ enabled?, name }`.
    It is merge-only: loading and `mergeState` both merge, and nothing
    deletes an entry. */
module ExtensionPreferences {
  import opened Wrappers
  import OM = OrderedMaps

  type Id = string

  /** `LensExtensionState`; `enabled` is optional in the stored JSON. */
  datatype ExtState = ExtState(enabled: Option<bool>, name: string)

  type Store = OM.OrderedMap<Id, ExtState>

  /** `Boolean(enabled)` for an optional boolean. */
  predicate Truthy(enabled: Option<bool>) {
    enabled == Some(true)
  }

  /** `isEnabled({ isBundled, id })`: bundled extensions are always enabled;
      any other is enabled only when its stored flag is truthy, so an id the
      store has never seen is disabled. */
  function IsEnabled(store: Store, isBundled: bool, id: Id): (r: bool)
    requires store.Valid()
    ensures isBundled ==> r
    ensures !isBundled && id !in store.items ==> !r
    ensures !isBundled && id in store.items ==> (r <==> Truthy(store.items[id].enabled))
  {
    isBundled || (id in store.items && Truthy(store.items[id].enabled))
  }

  /** The names of the entries with a truthy flag, in order. */
  function EnabledNames(states: seq<ExtState>): (r: seq<string>)
    ensures |r| <= |states|
    ensures forall n :: n in r <==> exists i :: 0 <= i < |states| && Truthy(states[i].enabled) && states[i].name == n
  {
    if states == [] then []
    else
      var rest := EnabledNames(states[1..]);
      assert forall i :: 0 <= i < |states| - 1 ==> states[1..][i] == states[i + 1];
      (if Truthy(states[0].enabled) then [states[0].name] else []) + rest
  }

  /** The `enabledExtensions` computed value: the names of exactly the
      stored entries whose flag is truthy, in the map's order. */
  function EnabledExtensions(store: Store): (r: seq<string>)
    requires store.Valid()
    ensures forall n :: n in r <==> exists id :: id in store.items && Truthy(store.items[id].enabled) && store.items[id].name == n
  {
    var vs := OM.Values(store);
    var r := EnabledNames(vs);
    forall n | n in r
      ensures exists id :: id in store.items && Truthy(store.items[id].enabled) && store.items[id].name == n
    {
      var i :| 0 <= i < |vs| && Truthy(vs[i].enabled) && vs[i].name == n;
      assert store.keys[i] in store.items;
    }
    forall id | id in store.items && Truthy(store.items[id].enabled)
      ensures store.items[id].name in r
    {
      var i :| 0 <= i < |store.keys| && store.keys[i] == id;
      assert vs[i] == store.items[id];
    }
    r
  }

  /** `mergeState(extensionsState)` (and the load path `fromStore`, which
      merges the persisted record the same way). */
  function MergeState(store: Store, entries: seq<(Id, ExtState)>): (r: Store)
    requires store.Valid()
    ensures r.Valid()
    ensures store.items.Keys <= r.items.Keys
  {
    OM.MergeKeepsKeys(store, entries);
    OM.Merge(store, entries)
  }

  function FromStore(store: Store, extensions: seq<(Id, ExtState)>): (r: Store)
    requires store.Valid()
    ensures r.Valid()
    ensures store.items.Keys <= r.items.Keys
  {
    MergeState(store, extensions)
  }

  /** `toJSON()`: the entries of the map, in order, as the `extensions` record. */
  function ToJSON(store: Store): (r: seq<(Id, ExtState)>)
    requires store.Valid()
    ensures |r| == |store.items|
    ensures OM.DistinctKeys(r)
    ensures forall id :: id in store.items <==> exists i :: 0 <= i < |r| && r[i].0 == id
  {
    var r := OM.Entries(store);
    assert forall i :: 0 <= i < |r| ==> r[i].0 == store.keys[i];
    OM.KeysCount(store);
    forall id | id in store.items
      ensures exists i :: 0 <= i < |r| && r[i].0 == id
    {
      var i :| 0 <= i < |store.keys| && store.keys[i] == id;
      assert r[i].0 == id;
    }
    r
  }

  /** `mergeState` overwrites the ids it is given (the last entry for an id
      wins) and leaves every other entry as it was. */
  lemma MergeStateOverwrites(store: Store, entries: seq<(Id, ExtState)>, id: Id)
    requires store.Valid()
    ensures OM.LastValue(entries, id).Some? ==>
              id in MergeState(store, entries).items && MergeState(store, entries).items[id] == OM.LastValue(entries, id).value
    ensures OM.LastValue(entries, id).None? ==>
              (id in MergeState(store, entries).items <==> id in store.items)
              && (id in store.items ==> MergeState(store, entries).items[id] == store.items[id])
  {
    OM.MergeContents(store, entries, id);
  }

  /** Saving and loading back into the same store changes nothing; loading a
      saved record into an empty store and saving it again gives the record. */
  lemma JSONRoundTrip(store: Store, json: seq<(Id, ExtState)>)
    requires store.Valid()
    requires OM.DistinctKeys(json)
    ensures FromStore(store, ToJSON(store)) == store
    ensures ToJSON(FromStore(OM.OrderedMap([], map[]), json)) == json
  {
    OM.MergeEntriesRoundTrip(store);
    OM.MergeIntoEmpty(json);
  }

  /** Enabling an id through `mergeState` makes it enabled, and merging other
      ids does not change whether it is. */
  lemma MergeStateAndIsEnabled(store: Store, entries: seq<(Id, ExtState)>, isBundled: bool, id: Id)
    requires store.Valid()
    ensures OM.LastValue(entries, id).Some? ==>
              (IsEnabled(MergeState(store, entries), isBundled, id) <==> isBundled || Truthy(OM.LastValue(entries, id).value.enabled))
    ensures OM.LastValue(entries, id).None? ==>
              IsEnabled(MergeState(store, entries), isBundled, id) == IsEnabled(store, isBundled, id)
  {
    OM.MergeContents(store, entries, id);
  }
}
