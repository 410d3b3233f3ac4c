/** `registeredCommandsInjectable`: the command palette's commands, merged
    from the internal commands, the enabled renderer extensions' commands and
    one "view" command per custom resource definition, keyed by id with the
    first registration of an id winning. */
module RegisteredCommands {
  import opened Wrappers
  import OM = OrderedMaps
  import SeqUtil

  /** `isActive` predicates, as the ones the model can tell apart. */
  datatype ActiveCheck =
    | Always                    // the default `() => true`
    | KubernetesClusterActive   // `isKubernetesClusterActive`
    | Custom(token: nat)        // a predicate an extension or the app supplies

  /** Command actions, as the ones the model can tell apart. */
  datatype Action = NavigateTo(url: string) | Run(token: nat)

  /** `CommandRegistration`: `scope` and `isActive` are optional. */
  datatype CommandRegistration = CommandRegistration(
    id: string, title: string, scope: Option<string>, isActive: Option<ActiveCheck>, action: Action)

  /** `RegisteredCommand`: no `scope`, and `isActive` is always present. */
  datatype RegisteredCommand = RegisteredCommand(id: string, title: string, isActive: ActiveCheck, action: Action)

  /** The two facts read from a `CustomResourceDefinition`. */
  datatype Crd = Crd(resourceKind: string, resourceUrl: string)

  type Registry = OM.OrderedMap<string, RegisteredCommand>

  /** The destructuring `{ scope, isActive = () => true, ...command }` and
      the spread back into a registered command. */
  function ToRegistered(c: CommandRegistration): (r: RegisteredCommand)
    ensures r.id == c.id && r.title == c.title && r.action == c.action
    ensures c.isActive.None? ==> r.isActive == Always
    ensures c.isActive.Some? ==> r.isActive == c.isActive.value
  {
    RegisteredCommand(c.id, c.title, c.isActive.GetOr(Always), c.action)
  }

  /** The command a custom resource definition contributes. */
  function CrdCommand(crd: Crd): (r: CommandRegistration)
    ensures r.id == "cluster.view." + crd.resourceKind
    ensures r.title == "Cluster: View " + crd.resourceKind
    ensures r.isActive == Some(KubernetesClusterActive) && r.scope.None?
    ensures r.action == NavigateTo(crd.resourceUrl)
  {
    CommandRegistration("cluster.view." + crd.resourceKind, "Cluster: View " + crd.resourceKind,
                        None, Some(KubernetesClusterActive), NavigateTo(crd.resourceUrl))
  }

  function CrdCommands(crds: seq<Crd>): (r: seq<CommandRegistration>)
    ensures |r| == |crds|
    ensures forall i :: 0 <= i < |crds| ==> r[i] == CrdCommand(crds[i])
  {
    seq(|crds|, i requires 0 <= i < |crds| => CrdCommand(crds[i]))
  }

  /** The `commands` array: internal, then extensions' in extension order,
      then the custom resource definitions'. */
  function AllCommands(internal: seq<CommandRegistration>, extensions: seq<seq<CommandRegistration>>, crds: seq<Crd>): (r: seq<CommandRegistration>)
    ensures |r| == |internal| + |SeqUtil.Concat(extensions)| + |crds|
    ensures r[..|internal|] == internal
    ensures r[|internal|..|internal| + |SeqUtil.Concat(extensions)|] == SeqUtil.Concat(extensions)
    ensures r[|internal| + |SeqUtil.Concat(extensions)|..] == CrdCommands(crds)
  {
    internal + SeqUtil.Concat(extensions) + CrdCommands(crds)
  }

  /** `i` is the first position of a command with id `id`. */
  predicate FirstWithId(cmds: seq<CommandRegistration>, i: int, id: string) {
    && 0 <= i < |cmds|
    && cmds[i].id == id
    && forall j :: 0 <= j < i ==> cmds[j].id != id
  }

  /** A first position stays first when commands are appended. */
  lemma FirstExtends(init: seq<CommandRegistration>, c: CommandRegistration, i: int, id: string)
    requires FirstWithId(init, i, id)
    ensures FirstWithId(init + [c], i, id)
  {
    assert forall j :: 0 <= j < |init| ==> (init + [c])[j] == init[j];
  }

  /** An id has one first position. */
  lemma FirstUnique(cmds: seq<CommandRegistration>, i: int, j: int, id: string)
    requires FirstWithId(cmds, i, id) && FirstWithId(cmds, j, id)
    ensures i == j
  {
  }

  /** The registry holds an entry for every command's id, and each entry is
      the command first registered under its id. */
  ghost predicate Tracks(cmds: seq<CommandRegistration>, r: Registry) {
    && (forall i :: 0 <= i < |cmds| ==> cmds[i].id in r.items)
    && (forall id :: id in r.items ==> exists i :: FirstWithId(cmds, i, id) && r.items[id] == ToRegistered(cmds[i]))
  }

  /** One pass of the loop body: `if (!result.has(command.id)) result.set(...)`. */
  function Step(om: Registry, c: CommandRegistration): (r: Registry)
    requires om.Valid()
    ensures r.Valid()
    ensures c.id in om.items ==> r == om
    ensures c.id !in om.items ==> r.items == om.items[c.id := ToRegistered(c)] && r.keys == om.keys + [c.id]
  {
    if c.id in om.items then om else OM.Set(om, c.id, ToRegistered(c))
  }

  /** The loop body keeps `Tracks`. */
  lemma StepTracks(init: seq<CommandRegistration>, c: CommandRegistration, om: Registry)
    requires om.Valid() && Tracks(init, om)
    ensures Tracks(init + [c], Step(om, c))
  {
    var cmds := init + [c];
    var r := Step(om, c);
    assert forall i :: 0 <= i < |init| ==> cmds[i] == init[i];
    forall id | id in r.items
      ensures exists i :: FirstWithId(cmds, i, id) && r.items[id] == ToRegistered(cmds[i])
    {
      if id in om.items {
        var i :| FirstWithId(init, i, id) && om.items[id] == ToRegistered(init[i]);
        FirstExtends(init, c, i, id);
        assert r.items[id] == om.items[id];
      } else {
        assert FirstWithId(cmds, |cmds| - 1, id);
      }
    }
  }

  /** The `for` loop: each command is stored unless its id already is. */
  function Register(cmds: seq<CommandRegistration>): (r: Registry)
    ensures r.Valid()
    ensures Tracks(cmds, r)
    decreases |cmds|
  {
    if cmds == [] then OM.Empty()
    else
      var init := cmds[..|cmds| - 1];
      assert cmds == init + [cmds[|cmds| - 1]];
      var om := Register(init);
      StepTracks(init, cmds[|cmds| - 1], om);
      Step(om, cmds[|cmds| - 1])
  }

  /** `instantiateRegisteredCommands`. */
  function RegisteredCommandsOf(internal: seq<CommandRegistration>, extensions: seq<seq<CommandRegistration>>, crds: seq<Crd>): (r: Registry)
    ensures r.Valid()
    ensures forall c :: c in AllCommands(internal, extensions, crds) ==> c.id in r.items
    ensures forall id :: id in r.items ==> exists c :: c in AllCommands(internal, extensions, crds) && c.id == id
  {
    Register(AllCommands(internal, extensions, crds))
  }

  /** The stored command for an id is the first registration of that id,
      with `scope` dropped and `isActive` defaulted to always-true. */
  lemma FirstRegistrationWins(cmds: seq<CommandRegistration>, i: int)
    requires 0 <= i < |cmds| && FirstWithId(cmds, i, cmds[i].id)
    ensures cmds[i].id in Register(cmds).items
    ensures Register(cmds).items[cmds[i].id] == ToRegistered(cmds[i])
  {
    var id := cmds[i].id;
    var j :| FirstWithId(cmds, j, id) && Register(cmds).items[id] == ToRegistered(cmds[j]);
    FirstUnique(cmds, i, j, id);
  }

  /** An internal command shadows any extension or custom resource command
      with the same id. */
  lemma InternalShadowsOthers(internal: seq<CommandRegistration>, extensions: seq<seq<CommandRegistration>>, crds: seq<Crd>, i: int)
    requires 0 <= i < |internal| && FirstWithId(internal, i, internal[i].id)
    ensures var r := RegisteredCommandsOf(internal, extensions, crds);
            internal[i].id in r.items && r.items[internal[i].id] == ToRegistered(internal[i])
  {
    var all := AllCommands(internal, extensions, crds);
    assert all[i] == internal[i];
    assert FirstWithId(all, i, internal[i].id);
    FirstRegistrationWins(all, i);
  }

  /** An extension command whose id no internal command and no earlier
      extension command takes is the one stored, even when a custom resource
      definition yields a command with the same id. */
  lemma ExtensionShadowsCrds(internal: seq<CommandRegistration>, extensions: seq<seq<CommandRegistration>>, crds: seq<Crd>, k: int)
    requires 0 <= k < |SeqUtil.Concat(extensions)|
    requires forall c :: c in internal ==> c.id != SeqUtil.Concat(extensions)[k].id
    requires forall j :: 0 <= j < k ==> SeqUtil.Concat(extensions)[j].id != SeqUtil.Concat(extensions)[k].id
    ensures var r := RegisteredCommandsOf(internal, extensions, crds);
            var c := SeqUtil.Concat(extensions)[k];
            c.id in r.items && r.items[c.id] == ToRegistered(c)
  {
    var ext := SeqUtil.Concat(extensions);
    var all := AllCommands(internal, extensions, crds);
    var n := |internal|;
    var id := ext[k].id;
    forall j | 0 <= j < n + k
      ensures all[j].id != id
    {
      if j < n {
        assert all[j] == internal[j];
        assert internal[j] in internal;
      } else {
        assert all[j] == ext[j - n];
      }
    }
    assert all[n + k] == ext[k];
    assert FirstWithId(all, n + k, id);
    FirstRegistrationWins(all, n + k);
  }

  /** Different resource kinds give different command ids. */
  lemma CrdIdsDiffer(a: Crd, b: Crd)
    requires a.resourceKind != b.resourceKind
    ensures CrdCommand(a).id != CrdCommand(b).id
  {
    var p := "cluster.view.";
    assert (p + a.resourceKind)[|p|..] == a.resourceKind;
    assert (p + b.resourceKind)[|p|..] == b.resourceKind;
  }

  /** A custom resource definition's command is registered under its
      `cluster.view.<kind>` id, and it is the one stored when no earlier
      command took that id. */
  lemma CrdCommandRegistered(internal: seq<CommandRegistration>, extensions: seq<seq<CommandRegistration>>, crds: seq<Crd>, k: int)
    requires 0 <= k < |crds|
    requires forall c :: c in internal + SeqUtil.Concat(extensions) ==> c.id != "cluster.view." + crds[k].resourceKind
    requires forall j :: 0 <= j < k ==> crds[j].resourceKind != crds[k].resourceKind
    ensures var r := RegisteredCommandsOf(internal, extensions, crds);
            && "cluster.view." + crds[k].resourceKind in r.items
            && r.items["cluster.view." + crds[k].resourceKind]
               == RegisteredCommand("cluster.view." + crds[k].resourceKind, "Cluster: View " + crds[k].resourceKind,
                                    KubernetesClusterActive, NavigateTo(crds[k].resourceUrl))
  {
    var pre := internal + SeqUtil.Concat(extensions);
    var tail := CrdCommands(crds);
    var all := pre + tail;
    assert all == AllCommands(internal, extensions, crds);
    var n := |pre|;
    var id := CrdCommand(crds[k]).id;
    forall j | 0 <= j < n
      ensures all[j].id != id
    {
      assert all[j] == pre[j];
      assert pre[j] in pre;
    }
    forall j | n <= j < n + k
      ensures all[j].id != id
    {
      assert all[j] == tail[j - n] == CrdCommand(crds[j - n]);
      CrdIdsDiffer(crds[j - n], crds[k]);
    }
    assert all[n + k] == CrdCommand(crds[k]);
    assert FirstWithId(all, n + k, id);
    FirstRegistrationWins(all, n + k);
  }
}
