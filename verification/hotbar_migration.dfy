/** The hotbar store's 5.0.0-beta.5 migration: every hotbar item whose entity
    the catalog no longer knows is cleared, and every other item records the
    entity's name and source next to its uid. The catalog lookup
    (`getEntityById`) is a parameter; it receives `item?.entity.uid`, so an
    empty slot asks for `undefined`, written `None`. */
module HotbarMigration {
  import opened Wrappers

  /** The entity reference an item stores. `name` and `source` are what the
      migration adds. */
  datatype ItemEntity = ItemEntity(uid: string, name: Option<string>, source: Option<string>)

  /** A hotbar item; `params` is carried along untouched. */
  datatype HotbarItem = HotbarItem(entity: ItemEntity, params: seq<(string, string)>)

  /** A hotbar before the migration; an empty slot is `null`, written `None`. */
  datatype Hotbar = Hotbar(id: string, name: string, items: seq<Option<HotbarItem>>)

  /** The stored `hotbars` value: an array of hotbars, or anything else. */
  datatype Stored = HotbarArray(hotbars: seq<Hotbar>) | NotAnArray

  /** The metadata of a catalog entity the migration reads. */
  datatype EntityMeta = EntityMeta(name: string, source: Option<string>)

  /** An empty slot for which the lookup of `undefined` finds an entity makes
      the assignment to `hotbar.items[i].entity` throw a `TypeError`. */
  datatype MigrationError = NullItemTypeError

  type Lookup = Option<string> -> Option<EntityMeta>

  function UidOf(item: Option<HotbarItem>): Option<string> {
    if item.Some? then Some(item.value.entity.uid) else None
  }

  /** One iteration of the inner loop. */
  function MigrateItem(lookup: Lookup, item: Option<HotbarItem>): (r: Result<Option<HotbarItem>, MigrationError>)
    ensures lookup(UidOf(item)).None? ==> r == Ok(None)
    ensures r.Err? <==> item.None? && lookup(None).Some?
    ensures item.Some? && lookup(UidOf(item)).Some? ==>
              var meta := lookup(UidOf(item)).value;
              && r.Ok? && r.value.Some?
              && r.value.value.entity.uid == item.value.entity.uid
              && r.value.value.entity.name == Some(meta.name)
              && r.value.value.entity.source == meta.source
              && r.value.value.params == item.value.params
  {
    match lookup(UidOf(item))
    case None => Ok(None)
    case Some(meta) =>
      if item.None? then Err(NullItemTypeError)
      else
        var it := item.value;
        Ok(Some(it.(entity := it.entity.(name := Some(meta.name), source := meta.source))))
  }

  /** The inner loop over one hotbar's items. */
  function MigrateItems(lookup: Lookup, items: seq<Option<HotbarItem>>): (r: Result<seq<Option<HotbarItem>>, MigrationError>)
    ensures r.Err? <==> exists i :: 0 <= i < |items| && MigrateItem(lookup, items[i]).Err?
    ensures r.Ok? ==> |r.value| == |items| && forall i :: 0 <= i < |items| ==> MigrateItem(lookup, items[i]) == Ok(r.value[i])
    decreases |items|
  {
    if items == [] then Ok([])
    else
      var rest := items[1..];
      assert forall i :: 0 <= i < |rest| ==> rest[i] == items[i + 1];
      match MigrateItem(lookup, items[0])
      case Err(e) => Err(e)
      case Ok(it) =>
        match MigrateItems(lookup, rest)
        case Err(e) =>
          var i :| 0 <= i < |rest| && MigrateItem(lookup, rest[i]).Err?;
          assert MigrateItem(lookup, items[i + 1]).Err?;
          Err(e)
        case Ok(its) => Ok([it] + its)
  }

  /** The outer loop over the hotbars. */
  function MigrateHotbars(lookup: Lookup, hotbars: seq<Hotbar>): (r: Result<seq<Hotbar>, MigrationError>)
    ensures r.Ok? ==> && |r.value| == |hotbars|
                      && forall k :: 0 <= k < |hotbars| ==>
                           && r.value[k].id == hotbars[k].id && r.value[k].name == hotbars[k].name
                           && MigrateItems(lookup, hotbars[k].items) == Ok(r.value[k].items)
    ensures r.Err? ==> exists k :: 0 <= k < |hotbars| && MigrateItems(lookup, hotbars[k].items).Err?
    decreases |hotbars|
  {
    if hotbars == [] then Ok([])
    else
      var rest := hotbars[1..];
      assert forall k :: 0 <= k < |rest| ==> rest[k] == hotbars[k + 1];
      match MigrateItems(lookup, hotbars[0].items)
      case Err(e) => Err(e)
      case Ok(items) =>
        match MigrateHotbars(lookup, rest)
        case Err(e) => Err(e)
        case Ok(hs) => Ok([hotbars[0].(items := items)] + hs)
  }

  /** `run(log, store)`: the value written back to `hotbars`. */
  function Run(lookup: Lookup, stored: Stored): (r: Result<seq<Hotbar>, MigrationError>)
    ensures stored.NotAnArray? ==> r == Ok([])
    ensures lookup(None).None? ==> r.Ok?
    ensures stored.HotbarArray? && r.Ok? ==>
              && |r.value| == |stored.hotbars|
              && forall k :: 0 <= k < |r.value| ==> |r.value[k].items| == |stored.hotbars[k].items|
  {
    match stored
    case NotAnArray => Ok([])
    case HotbarArray(hs) => MigrateHotbars(lookup, hs)
  }

  /** Migrating an already migrated item again changes nothing. */
  lemma MigrateItemIdempotent(lookup: Lookup, item: Option<HotbarItem>)
    requires lookup(None).None?
    ensures MigrateItem(lookup, item).Ok?
    ensures MigrateItem(lookup, MigrateItem(lookup, item).value) == MigrateItem(lookup, item)
  {
  }

  /** Running the migration a second time with the same catalog changes
      nothing. */
  lemma {:induction false} RunIdempotent(lookup: Lookup, stored: Stored)
    requires lookup(None).None?
    ensures Run(lookup, stored).Ok?
    ensures Run(lookup, HotbarArray(Run(lookup, stored).value)) == Run(lookup, stored)
  {
    if stored.HotbarArray? {
      var orig := stored.hotbars;
      var hs := Run(lookup, stored).value;
      var hs2 := Run(lookup, HotbarArray(hs)).value;
      forall k | 0 <= k < |hs|
        ensures hs2[k] == hs[k]
      {
        var items := hs[k].items;
        var items2 := hs2[k].items;
        forall i | 0 <= i < |items|
          ensures items2[i] == items[i]
        {
          MigrateItemIdempotent(lookup, orig[k].items[i]);
        }
        assert items2 == items;
      }
      assert hs2 == hs;
    }
  }
}
