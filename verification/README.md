# Lens core registries and state machines, in Dafny

This project models a set of small registries, state machines and pure
transformations from the Lens (OpenLens) desktop application, and proves
properties about them:

- the **kubeconfig sync manager**, which maps each watched kubeconfig file or
  folder to its entity source and publishes one aggregate source;
- the **catalog entity registry** that the aggregate source feeds;
- the **extension installation-state manager** (idle, installing, uninstalling,
  plus anonymous pre-install phases) and its two clients,
  `checkedUninstallExtension` and `unpackExtension`;
- **extension bookkeeping**, which covers:
  - the name index of live instances;
  - the enabled-preferences store;
  - the loader's map operations and its load/unload decision;
  - `LensExtension` enable/disable and `sanitizeExtensionName`;
  - tarball manifest validation;
- **small pure functions and registries**, which cover:
  - command-palette de-duplication;
  - the Prometheus provider registry and service search;
  - the hotbar 5.0.0-beta.5 migration;
  - `zip`;
  - the resource stack's kubectl arguments and labelling;
  - `helm env` parsing and `helm repo add` arguments;
  - the shell-environment modifier fold;
  - the theme store's fallbacks;
  - the `ClusterRoleBinding` subject helpers.

The model is purely functional. A class with mutable fields becomes a
datatype, and each method becomes a function from the old value to the new
one. A thrown error becomes a `Result` error or an explicit outcome
constructor. Some parts of the source are computed values or observers:
mobx `computed` values are plain functions of the state, and `observe`
callbacks take an explicit change event. Collaborators the model cannot see
are parameters:

- file watching;
- `require`;
- kubectl;
- helm;
- the Kubernetes client;
- YAML;
- handlebars;
- tar reading;
- catalog lookups.

A JavaScript `Map` keeps insertion order, so it is modelled as an ordered map
(`OrderedMaps`): a key sequence plus a Dafny `map`.

Shared helper modules:

- `Wrappers`: `Option` and `Result`.
- `OrderedMaps`: `Set`, `Delete`, `Merge`, `Values` and `Entries`, with their lemmas.
- `SeqUtil`: `Filter`, `Concat` and `Find`.
- `Text`: first-index, replace-first, split/join, prefix and trim.

## Model

| member | source | states |
|---|---|---|
| CatalogEntityRegistry.AddComputedSource | src/main/catalog/entity/registry.ts:24-25 | adding a source is a set insertion: a source already present leaves the registry unchanged, a new one is appended after the others |
| CatalogEntityRegistry.RemoveSource | src/main/catalog/entity/registry.ts:27-29 | the disposer removes that source and keeps every other source |
| CatalogEntityRegistry.DisposerUndoesAdd | src/main/catalog/entity/registry.ts:24-29 | adding a fresh source and running its disposer restores the registry; running the disposer twice equals running it once |
| CatalogEntityRegistry.Entities | src/main/catalog/entity/registry.ts:32-37 | an entity is published iff some registered source computes it and the category registry knows a category for it |
| CatalogEntityRegistry.EntitiesOfAddedSource | src/main/catalog/entity/registry.ts:32-37 | registering a new source appends its categorised entities after those of all earlier sources |
| CatalogEntityRegistry.GetById | src/main/catalog/entity/registry.ts:43-45 | the first entity with that id, or none exactly when no entity has it |
| CatalogEntityRegistry.GetItemsForApiKind | src/main/catalog/entity/registry.ts:47-49 | exactly the items matching both apiVersion and kind |
| CatalogEntityRegistry.GetItemsByEntityClass | src/main/catalog/entity/registry.ts:51-53 | exactly the items that are instances of the class, never more than the items |
| CatalogEntityRegistry.QueriesKeepOrder | src/main/catalog/entity/registry.ts:47-53 | both item queries distribute over concatenation, so the order of the items is kept |
| KubeconfigSync.Init | src/main/catalog/local-sources/kubeconfigs/manager.ts:22-30 | a new manager is stopped and satisfies the lifecycle invariant |
| KubeconfigSync.StartNewSync | src/main/catalog/local-sources/kubeconfigs/manager.ts:81-90 | an already watched path leaves the manager unchanged; a new path gets its watch appended after all others |
| KubeconfigSync.StopOldSync | src/main/catalog/local-sources/kubeconfigs/manager.ts:93-101 | an unwatched path is a no-op; a watched one loses exactly its entry, and nothing else changes (no disposer is called) |
| KubeconfigSync.StartEachWatches | src/main/catalog/local-sources/kubeconfigs/manager.ts:52-54 | after the loop, a path is watched iff it was before or is listed; earlier watches are kept and keep their order |
| KubeconfigSync.StartSync | src/main/catalog/local-sources/kubeconfigs/manager.ts:33-66 | idempotent while syncing; otherwise it ends syncing and listening with the aggregate source registered |
| KubeconfigSync.StartSyncWatchesTargets | src/main/catalog/local-sources/kubeconfigs/manager.ts:49-54 | from a stopped manager, the watched set is exactly the default folder plus the configured paths, each once, with the default folder first |
| KubeconfigSync.OnSyncListChange | src/main/catalog/local-sources/kubeconfigs/manager.ts:56-65 | "add" starts and "delete" stops exactly the named path; "update" and changes after unsubscription are ignored |
| KubeconfigSync.StopEach | src/main/catalog/local-sources/kubeconfigs/manager.ts:72-74 | a path stays watched iff it was watched and is not in the list |
| KubeconfigSync.StopSync | src/main/catalog/local-sources/kubeconfigs/manager.ts:69-78 | afterwards nothing is watched, syncing and listening are off, and only the aggregate source has left the catalog |
| KubeconfigSync.Aggregate | src/main/catalog/local-sources/kubeconfigs/manager.ts:42-47 | the aggregate holds exactly the entities of the watched paths |
| KubeconfigSync.AggregateOfNewSync | src/main/catalog/local-sources/kubeconfigs/manager.ts:42-47 | watching a new path appends its entities at the end of the aggregate |
| KubeconfigSync.PublishedAcrossStop | src/main/catalog/local-sources/kubeconfigs/manager.ts:69-78 | while syncing, every watched entity with a category is published; after stopSync only other sources' entities are |
| KubeconfigSync.LifecyclePreservesConsistency | src/main/catalog/local-sources/kubeconfigs/manager.ts:33-78 | start, stop and change events preserve the lifecycle invariant, and a start after a stop runs again |
| InstallationState.Init | src/common/extensions/installation-state/manager.ts:21-26 | a new manager has every extension idle and nothing in progress |
| InstallationState.GetInstallationState | src/common/extensions/installation-state/manager.ts:120-130 | installing iff in the installing set; uninstalling iff only in the uninstalling set; idle otherwise |
| InstallationState.SetInstalling | src/common/extensions/installation-state/manager.ts:33-43 | succeeds iff the extension is idle, and then only it becomes installing; otherwise the error names the current state |
| InstallationState.SetUninstalling | src/common/extensions/installation-state/manager.ts:68-78 | succeeds iff idle, and then only it becomes uninstalling; both sets stay disjoint |
| InstallationState.ClearInstalling | src/common/extensions/installation-state/manager.ts:85-96 | succeeds iff installing and returns that extension alone to idle |
| InstallationState.ClearUninstalling | src/common/extensions/installation-state/manager.ts:103-114 | succeeds iff uninstalling and returns that extension alone to idle |
| InstallationState.SetThenClearRestores | src/common/extensions/installation-state/manager.ts:33-114 | from idle, each set is undone exactly by its clear, and clearing an idle extension fails |
| InstallationState.StartPreInstall | src/common/extensions/installation-state/manager.ts:51-55 | a fresh phase id is added and the extension states are untouched |
| InstallationState.EndPreInstall | src/common/extensions/installation-state/manager.ts:57-60 | the disposer removes exactly its phase id |
| InstallationState.PreInstallDisposer | src/common/extensions/installation-state/manager.ts:51-61 | starting a phase and running its disposer restores the live phases; a second run changes nothing |
| InstallationState.AnyMeansSomeone | src/common/extensions/installation-state/manager.ts:157-201 | each anyX flag holds iff some extension is in state X (or some phase is live); the combined flag is the disjunction |
| InstallationState.SetInstallingCounts | src/common/extensions/installation-state/manager.ts:33-43 | a successful setInstalling raises the installing count by one and keeps the other counts |
| CheckedUninstall.CheckedUninstallExtension | src/renderer/components/+extensions/checked-uninstall-extension.injectable.tsx:42-77 | an unknown extension rejects before any state change; the request is sent only after the extension is marked uninstalling; true only once the loader dropped it; failures give false with an error notification |
| CheckedUninstall.Finally | src/renderer/components/+extensions/checked-uninstall-extension.injectable.tsx:73-76 | the finally block resolves iff the extension is uninstalling, leaving it idle; otherwise its throw replaces the result |
| CheckedUninstall.IdleEntryEndsIdle | src/renderer/components/+extensions/checked-uninstall-extension.injectable.tsx:46-76 | entered from idle, a settled call resolves and leaves the state manager as it found it; true iff the loader dropped the extension |
| CheckedUninstall.UninstallingEntryClearsState | src/renderer/components/+extensions/checked-uninstall-extension.injectable.tsx:46-76 | entered while uninstalling, no request is sent and the call returns false, yet still clears the state |
| CheckedUninstall.InstallingEntryRejects | src/renderer/components/+extensions/checked-uninstall-extension.injectable.tsx:48-75 | entered while installing, the finally's clearUninstalling throws, so the call rejects after showing an error |
| UnpackExtension.UnpackExtension | src/renderer/components/+extensions/attempt-install/unpack-extension.injectable.tsx:45-111 | a busy extension rejects with no other effect; the single top folder is the one moved; the extension is enabled iff all steps succeed and the loader picks it up; failures are reported and never rethrown; a settled call ends idle |
| UnpackExtension.Finally | src/renderer/components/+extensions/attempt-install/unpack-extension.injectable.tsx:104-107 | the finally block returns an installing extension to idle and keeps every other state |
| UnpackExtension.HandoffKeepsBusy | src/renderer/components/+extensions/attempt-install/unpack-extension.injectable.tsx:53-54 | "pre-installing or installing" holds at every step of the handoff from the caller's phase to installing |
| UnpackExtension.DisposeFirstWouldGap | src/renderer/components/+extensions/attempt-install/unpack-extension.injectable.tsx:53-54 | the opposite order would pass through a state with nothing in progress |
| UnpackExtension.RejectKeepsPhase | src/renderer/components/+extensions/attempt-install/unpack-extension.injectable.tsx:53-54 | a call that rejects because the extension is busy never ends the caller's pre-install phase |
| LensExtensions.New | src/extensions/lens-extension.ts:87-93 | the instance copies the identity, is bundled only for a true flag, and starts disabled |
| LensExtensions.Enable | src/extensions/lens-extension.ts:124-137 | the instance ends enabled even if register throws; an enabled instance is unchanged; otherwise register's disposers are collected |
| LensExtensions.Disable | src/extensions/lens-extension.ts:140-154 | the instance ends disabled even if onDeactivate throws; the disposers run only after a clean deactivation; a disabled instance is unchanged |
| LensExtensions.EnableDisableIdempotent | src/extensions/lens-extension.ts:124-143 | enabling twice is enabling once; disabling twice is disabling once |
| LensExtensions.EnableThenDisable | src/extensions/lens-extension.ts:124-154 | enable followed by a clean disable runs exactly the registered disposers and restores the fresh instance |
| LensExtensions.SanitizeExtensionName | src/extensions/lens-extension.ts:169-171 | a name without "@" or "/" is unchanged |
| LensExtensions.SanitizeScopedName | src/extensions/lens-extension.ts:169-171 | "@scope/name" becomes "scope--name"; only the first "@" and the first "/" are touched, so later ones in the scope or name survive |
| InstancesByName.Observe | src/common/extensions/get-instance-by-name.injectable.ts:25-40 | adding a taken name fails and otherwise maps the name to the instance; a delete removes exactly that name; an update fails; the index stays keyed by name |
| InstancesByName.GetInstanceByName | src/common/extensions/get-instance-by-name.injectable.ts:42-48 | a name without an instance on this side gives false; otherwise the indexed instance, found iff indexed |
| InstancesByName.ObserveAddTracks | src/common/extensions/get-instance-by-name.injectable.ts:27-32 | an add fails iff a live instance already has that name; otherwise the index still mirrors the live instances |
| InstancesByName.ObserveDeleteTracks | src/common/extensions/get-instance-by-name.injectable.ts:34-36 | after deleting a live instance, the index still mirrors the live instances |
| InstancesByName.LookupFindsLiveInstance | src/common/extensions/get-instance-by-name.injectable.ts:42-48 | through the mirror, a lookup finds an instance iff a live instance has that name, and it returns that instance |
| ExtensionPreferences.IsEnabled | src/common/extensions/preferences/store.ts:41-45 | bundled means enabled; otherwise enabled iff the stored flag is true, so unknown ids are disabled |
| ExtensionPreferences.EnabledExtensions | src/common/extensions/preferences/store.ts:33-37 | a name is listed iff some stored entry with a true flag has that name |
| ExtensionPreferences.MergeState | src/common/extensions/preferences/store.ts:47-49 | merging never removes an entry |
| ExtensionPreferences.FromStore | src/common/extensions/preferences/store.ts:52-54 | loading merges and never removes an entry |
| ExtensionPreferences.ToJSON | src/common/extensions/preferences/store.ts:56-60 | one record entry per stored id, with no id repeated |
| ExtensionPreferences.MergeStateOverwrites | src/common/extensions/preferences/store.ts:47-49 | the last given state for an id wins, and every other entry is unchanged |
| ExtensionPreferences.JSONRoundTrip | src/common/extensions/preferences/store.ts:52-60 | loading what was saved leaves the store unchanged, and saving a freshly loaded record gives that record |
| ExtensionPreferences.MergeStateAndIsEnabled | src/common/extensions/preferences/store.ts:41-49 | after a merge, an id is enabled iff bundled or its last merged flag is true; merging other ids keeps its status |
| ExtensionLoader.RemoveInstance | src/common/extensions/loader/loader.ts:76-92 | no instance means no change; otherwise the instance, its name record and its name-index entry are dropped, or it stays (disabled) with the index untouched when a remove listener throws; other instances are untouched and nothing is added |
| ExtensionLoader.RemoveExtension | src/common/extensions/loader/loader.ts:94-100 | removeInstance runs first, then the id is deleted; the error occurs iff the id was unknown |
| ExtensionLoader.SetIsEnabled | src/common/extensions/loader/loader.ts:102-104 | an unknown id fails; a known id gets only its flag written, and nothing else changes |
| ExtensionLoader.SyncIsMerge | src/common/extensions/loader/loader.ts:148-154 | skipping equal entries makes no difference: syncing is the plain ordered merge, which never removes a key |
| ExtensionLoader.RemoveIfUnreceived | src/common/extensions/loader/loader.ts:127-131 | one forEach visit drops the id iff it was not received, and touches no other instance |
| ExtensionLoader.RemoveUnreceivedExtensions | src/common/extensions/loader/loader.ts:124-131 | exactly the visited ids that were not received leave the extension map; the rest keep their entries |
| ExtensionLoader.RemoveUnreceivedInstances | src/common/extensions/loader/loader.ts:124-131 | every dropped id loses its instance unless a listener threw; unvisited instances are unchanged and none is added |
| ExtensionLoader.ListHandlerMirrorsReceived | src/common/extensions/loader/loader.ts:120-132 | after the handler, the extension map holds exactly the received ids, each with its last received entry |
| ExtensionLoader.RequireExtension | src/common/extensions/loader/loader.ts:288-309 | a class is obtained iff this side's entry point is present and non-empty and require gives a default export |
| ExtensionLoader.LoadStep | src/common/extensions/loader/loader.ts:219-252 | activated iff compatible, enabled, not yet initialised by id or name, a class exists, construction succeeds and the name index has no live instance of that name; then exactly the new instance is stored and indexed; instances of other ids are never replaced |
| ExtensionLoader.LoadStepCases | src/common/extensions/loader/loader.ts:219-252 | a constructed instance whose name is already indexed is stored but not activated; no class records the name; a disabled, initialised entry removes the instance; its own instance is at most disabled; only its id and name can be added |
| ExtensionLoader.LoadEach | src/common/extensions/loader/loader.ts:218-254 | instances of ids the entries do not list are kept unchanged, and the extension map is not touched |
| ExtensionLoader.LoadEachActivated | src/common/extensions/loader/loader.ts:218-254 | every returned id has a compatible, enabled entry and holds the fresh instance of that entry |
| ExtensionLoader.LoadEachAddsOnlyListed | src/common/extensions/loader/loader.ts:218-254 | instances appear only under ids that already had one or that the entries list |
| ExtensionLoader.LoadEachLoadsEligible | src/common/extensions/loader/loader.ts:218-254 | an entry that is compatible, enabled, not initialised by id or name, not indexed by name, first with its name, and whose class loads and constructs, is activated |
| ExtensionLoader.LoadEachRemovesDisabled | src/common/extensions/loader/loader.ts:247-249 | a disabled entry whose id had an instance loses it, unless a remove listener throws |
| ExtensionLoader.EnableEach | src/common/extensions/loader/loader.ts:268-277 | the instance map keeps its keys; instances already enabled and instances not listed stay exactly as they were |
| ExtensionLoader.EnableEachEnables | src/common/extensions/loader/loader.ts:268-277 | every listed instance ends as enable leaves it, a repeated id included |
| ExtensionLoader.LoadExtensions | src/common/extensions/loader/loader.ts:211-278 | each returned id has a compatible, enabled entry and its instance is that entry's fresh instance after enable; the extension map and unlisted instances are unchanged; the id set equals the one the map produced |
| ExtensionLoader.LoadExtensionsOutcome | src/common/extensions/loader/loader.ts:211-278 | an eligible entry ends as an enabled fresh instance of that entry and its id is returned; a disabled entry with a live instance ends without one |
| ExtensionLoader.ExtOfAt | src/common/extensions/loader/loader.ts:218-219 | with distinct ids, the extension found for a compatible, enabled entry's id is that entry's |
| ValidatePackage.FirstComponent | src/renderer/components/+extensions/attempt-install/validate-package.injectable.tsx:30 | the root folder is a slash-free prefix of the path, followed by a slash when shorter than the path |
| ValidatePackage.Validate | src/renderer/components/+extensions/attempt-install/validate-package.injectable.tsx:20-55 | an empty list or empty first entry fails with not found; otherwise the manifest location decides: not listed gives not found, unreadable gives unreadable, no main or renderer gives the entry-point error, and otherwise the manifest read there is returned |
| ValidatePackage.ManifestLocation | src/renderer/components/+extensions/attempt-install/validate-package.injectable.tsx:30-36 | the location is either the bare manifest name or root folder "/" manifest name, the folder form exactly when the entries count as packed in a root folder that is neither "" nor "."; the only slash is the one before the manifest name |
| ValidatePackage.ValidatePackageAsWritten | src/renderer/components/+extensions/attempt-install/validate-package.injectable.tsx:20-55 | with the prefix test of line 31-33: an empty list fails with not found, and otherwise the manifest location settles the outcome as in Validate |
| ValidatePackage.ValidatePackageCorrected | src/renderer/components/+extensions/attempt-install/validate-package.injectable.tsx:20-55 | with a path-component test: the same outcomes, settled at the location that test chooses |
| ValidatePackage.TopLevel | src/renderer/components/+extensions/attempt-install/unpack-extension.injectable.tsx:72 | the names extraction lists are exactly the first components of the entries |
| ValidatePackage.CorrectedPackedMeansSingleFolder | src/renderer/components/+extensions/attempt-install/validate-package.injectable.tsx:31-36 | under the component test, a packed tarball extracts to a single top folder, which is the layout unpacking treats as one root |
| ValidatePackage.SplitLayoutShape | src/renderer/components/+extensions/attempt-install/validate-package.injectable.tsx:31-33 | a root folder next to a sibling whose name extends it passes the prefix test and fails the component test |
| ValidatePackage.PrefixTestAcceptsSplitLayout | src/renderer/components/+extensions/attempt-install/validate-package.injectable.tsx:31-36 | as written, such a layout is accepted although it extracts to two top-level folders |
| ValidatePackage.CorrectedTestRejectsSplitLayout | src/renderer/components/+extensions/attempt-install/validate-package.injectable.tsx:31-40 | the component test rejects that layout with manifest not found |
| ValidatePackage.ExtAssetsLayout | src/renderer/components/+extensions/attempt-install/validate-package.injectable.tsx:31-40 | ["ext/package.json", "ext-assets/logo.png"] is accepted as written and rejected when corrected |
| RegisteredCommands.ToRegistered | src/renderer/components/command-palette/registered-commands/registered-commands.injectable.ts:34-36 | scope is dropped, a missing isActive becomes always-active, and a supplied one is kept |
| RegisteredCommands.CrdCommand | src/renderer/components/command-palette/registered-commands/registered-commands.injectable.ts:26-31 | a CRD gives id "cluster.view.<kind>", title "Cluster: View <kind>", the cluster-active check and navigation to its URL |
| RegisteredCommands.AllCommands | src/renderer/components/command-palette/registered-commands/registered-commands.injectable.ts:23-32 | the sequence is the internal commands, then the extension commands flattened in order, then one command per CRD, each part exactly in its slice |
| RegisteredCommands.Register | src/renderer/components/command-palette/registered-commands/registered-commands.injectable.ts:34-38 | the result maps each id to its first occurrence, and holds no other key |
| RegisteredCommands.RegisteredCommandsOf | src/renderer/components/command-palette/registered-commands/registered-commands.injectable.ts:21-41 | the key set is exactly the set of ids over all three sources |
| RegisteredCommands.FirstRegistrationWins | src/renderer/components/command-palette/registered-commands/registered-commands.injectable.ts:34-38 | the first command with an id is the one stored for it |
| RegisteredCommands.InternalShadowsOthers | src/renderer/components/command-palette/registered-commands/registered-commands.injectable.ts:22-38 | the first internal command with an id is the one stored for it, whatever extension or CRD commands share the id |
| RegisteredCommands.ExtensionShadowsCrds | src/renderer/components/command-palette/registered-commands/registered-commands.injectable.ts:22-38 | an extension command whose id no internal command and no earlier extension command takes is the one stored, whatever CRD commands share the id |
| RegisteredCommands.CrdCommandRegistered | src/renderer/components/command-palette/registered-commands/registered-commands.injectable.ts:26-38 | a CRD whose id no internal or extension command takes is registered with its own command |
| PrometheusRegistry.RegisterProvider | src/main/prometheus/provider-registry.ts:81-89 | a taken id is refused and leaves the registry as it was; a fresh id adds exactly that mapping |
| PrometheusRegistry.GetByKind | src/main/prometheus/provider-registry.ts:71-78 | the provider registered under the kind, or "unknown provider" iff none is |
| PrometheusRegistry.RegisterThenGet | src/main/prometheus/provider-registry.ts:71-89 | a registered provider is what getByKind returns for its id, and other kinds are unaffected |
| PrometheusRegistry.NeverReplaced | src/main/prometheus/provider-registry.ts:69-89 | after any further registrations, a registered provider is still returned for its id |
| PrometheusRegistry.GetFirstNamespacedService | src/main/prometheus/provider-registry.ts:30-49 | a found service comes from a selector all of whose predecessors listed nothing, is that listing's first service with its first port, and carries the provider id; "no service found" iff every selector lists nothing |
| PrometheusRegistry.SelectorDecides | src/main/prometheus/provider-registry.ts:30-49 | when every earlier selector listed nothing: a list failure gives the "Failed to list services" error with its message, a first service without ports fails, a first service with a port is returned, and an empty listing moves on to the next selector |
| PrometheusRegistry.SearchStopsAtFirstHit | src/main/prometheus/provider-registry.ts:32-42 | selectors after the first hit are never consulted |
| HotbarMigration.MigrateItem | src/main/hotbars/migrations/5.0.0-beta.5.injectable.ts:30-43 | an item whose entity is unknown becomes null; a found item keeps its uid and params and gains the entity's name and source |
| HotbarMigration.MigrateItems | src/main/hotbars/migrations/5.0.0-beta.5.injectable.ts:29-44 | the inner loop fails iff some item fails, and otherwise migrates each item in place |
| HotbarMigration.MigrateHotbars | src/main/hotbars/migrations/5.0.0-beta.5.injectable.ts:28-45 | each hotbar keeps its id and name and has its items migrated |
| HotbarMigration.Run | src/main/hotbars/migrations/5.0.0-beta.5.injectable.ts:24-48 | a non-array value is written back as []; the hotbar count and each item count are preserved |
| HotbarMigration.RunIdempotent | src/main/hotbars/migrations/5.0.0-beta.5.injectable.ts:28-45 | running the migration again with the same catalog changes nothing |
| TupleZip.MinLength | src/common/utils/tuple.ts:22 | the minimum of the source lengths: no source is shorter and some source has it |
| TupleZip.Zip | src/common/utils/tuple.ts:21-29 | no sources is reported as the unbounded case; otherwise min-length many tuples are yielded, the k-th holding each source's k-th element, and the return value holds each source's remainder |
| TupleZip.ZipRoundTrip | src/common/utils/tuple.ts:22-28 | each source is its column of the tuples followed by its remainder, and some remainder is empty |
| TupleZip.Filled | src/common/utils/tuple.ts:36-38 | length copies of the value |
| TupleZip.ZipFilled | src/common/utils/tuple.ts:21-38 | zipping n copies of one array yields filled tuples of its elements and leaves nothing over |
| ResourceStack.AppendKubectlArgs | src/common/k8s/resource-stack.ts:73-77 | the name label is appended iff neither "-l" nor "--label" is present; the arguments are always kept as a prefix |
| ResourceStack.AppendKubectlArgsIdempotent | src/common/k8s/resource-stack.ts:73-77 | appending twice equals appending once |
| ResourceStack.Settle | src/common/k8s/resource-stack.ts:54-58 | stdout iff stderr is empty, otherwise an error carrying stderr |
| ResourceStack.Run | src/common/k8s/resource-stack.ts:50-58 | the chosen helper gets the labelled arguments; the call resolves with stdout iff stderr is empty, and otherwise fails with stderr |
| ResourceStack.ApplyResources | src/common/k8s/resource-stack.ts:49-59 | the apply helper gets exactly the caller's arguments (or none) with the name label appended unless a label flag is present; the result is stdout when stderr is empty and an error carrying stderr otherwise |
| ResourceStack.DeleteResourcesAsWritten | src/common/k8s/resource-stack.ts:61-71 | without extra arguments the call fails before kubectl runs; with them the delete helper gets them labelled exactly as apply would, and the result is stdout when stderr is empty and an error carrying stderr otherwise |
| ResourceStack.DeleteResources | src/common/k8s/resource-stack.ts:61-71 | with a default of no arguments the delete helper gets the labelled arguments, just the name label when none are given; the result is stdout when stderr is empty and an error carrying stderr otherwise |
| ResourceStack.DeleteWithoutArgsFails | src/common/k8s/resource-stack.ts:61-62 | as written, a delete without arguments fails whatever kubectl would answer; corrected, it passes the same label as apply and succeeds when kubectl does |
| ResourceStack.DeleteCorrectedAgrees | src/common/k8s/resource-stack.ts:61-71 | the correction changes nothing when arguments are given, and delete then passes the same arguments apply would |
| ResourceStack.StackLabels | src/common/k8s/resource-stack.ts:110-113 | the three app.kubernetes.io labels are set and every other label is kept |
| ResourceStack.Label | src/common/k8s/resource-stack.ts:107-114 | object metadata gains the stack labels; other metadata stays as it is; null metadata fails |
| ResourceStack.LabelIdempotent | src/common/k8s/resource-stack.ts:109-114 | labelling twice equals labelling once |
| ResourceStack.LabelAll | src/common/k8s/resource-stack.ts:102-117 | non-object documents are skipped; the call fails with null metadata iff some resource has null metadata; otherwise one resource per object document |
| ResourceStack.LabelAllLabelsObjects | src/common/k8s/resource-stack.ts:102-116 | the result holds, in order, each object document labelled as Label labels it |
| ResourceStack.EntryDocs | src/common/k8s/resource-stack.ts:85-102 | a non-file gives nothing; a file whose raw or rendered text is all white space gives nothing; any other file gives the documents loaded from its trimmed text |
| ResourceStack.FileData | src/common/k8s/resource-stack.ts:90-96 | the data is the raw or rendered text with white space cut off both ends: it is a slice of that text with only white space around it, it neither starts nor ends with white space, and it is empty iff the text is all white space |
| ResourceStack.RenderTemplates | src/common/k8s/resource-stack.ts:79-121 | only object documents are kept, and an empty folder renders nothing |
| ResourceStack.RenderTemplatesConcat | src/common/k8s/resource-stack.ts:79-121 | rendering fails iff some entry's documents fail to label, and otherwise yields every entry's labelled documents concatenated in directory order |
| ResourceStack.LabelAllLabels | src/common/k8s/resource-stack.ts:109-116 | every kept document with object metadata carries the stack labels |
| ResourceStack.RenderedResourcesLabelled | src/common/k8s/resource-stack.ts:79-121 | every rendered resource with object metadata carries the stack labels |
| HelmRepos.Lines | src/main/helm/helm-repo-manager.ts:88 | one line per line-feed piece; no line holds a line feed; every line but the last is its piece with one trailing carriage return removed, and the last is its piece unchanged |
| HelmRepos.DropCR | src/main/helm/helm-repo-manager.ts:88 | one trailing carriage return is removed, and only that; any other text is unchanged |
| HelmRepos.KeyValue | src/main/helm/helm-repo-manager.ts:92 | key and value contain no "="; the line starts with key "=" value; there is no value iff the line has no "=" |
| HelmRepos.LineEntry | src/main/helm/helm-repo-manager.ts:92-96 | a line counts iff key and value are non-empty; the stored value has every quote removed |
| HelmRepos.Entries | src/main/helm/helm-repo-manager.ts:91-97 | at most one entry per line |
| HelmRepos.EntriesMembers | src/main/helm/helm-repo-manager.ts:91-97 | an entry is produced iff some line counts and gives it |
| HelmRepos.EntriesAppend | src/main/helm/helm-repo-manager.ts:91-97 | the entries of two runs of lines are those of the first followed by those of the second, so the order of lines is kept |
| HelmRepos.EntriesLastLine | src/main/helm/helm-repo-manager.ts:91-97 | the last entry for a key comes from the last line that defines the key |
| HelmRepos.StoreLastWins | src/main/helm/helm-repo-manager.ts:91-97 | for a repeated key the last entry wins; other keys are unchanged |
| HelmRepos.ParseHelmEnvLastLineWins | src/main/helm/helm-repo-manager.ts:86-100 | a key is set iff some line defines it, and it holds the value of the last such line, with no quote left in it |
| HelmRepos.ParseHelmEnvLastLine | src/main/helm/helm-repo-manager.ts:86-100 | a stored key holds the value of the last output line that defines it |
| HelmRepos.LineEntryDropsAfterSecondEquals | src/main/helm/helm-repo-manager.ts:92-95 | text after a second "=" is dropped |
| HelmRepos.LineEntryOfPair | src/main/helm/helm-repo-manager.ts:92-96 | "key=value" gives that key with the unquoted value |
| HelmRepos.LineEntryIgnored | src/main/helm/helm-repo-manager.ts:94 | a line without "=", with an empty value or with an empty key is ignored |
| HelmRepos.OptionArg | src/main/helm/helm-repo-manager.ts:160-178 | a flag and its value are appended iff the value is truthy |
| HelmRepos.AddRepoFlags | src/main/helm/helm-repo-manager.ts:156-178 | the insecure flag comes first iff set, then the credential flags in fixed order |
| HelmRepos.AddRepoArgs | src/main/helm/helm-repo-manager.ts:149-178 | the arguments start with repo, add, name, url, followed by the flags |
| HelmRepos.CredentialsRoundTrip | src/main/helm/helm-repo-manager.ts:160-178 | reading the credential arguments back recovers exactly the truthy values, in order |
| HelmRepos.AddRepoArgsRoundTrip | src/main/helm/helm-repo-manager.ts:147-181 | reading the repo add arguments back recovers name, url, the insecure flag and every truthy credential |
| HelmRepos.List | src/main/helm/helm-repo-manager.ts:108-121 | an unreadable or non-object config lists no repositories |
| HelmRepos.CacheFilePath | src/main/helm/helm-repo-manager.ts:131 | cache folder / name-index.yaml, where an unset cache variable prints as "undefined" |
| HelmRepos.Repositories | src/main/helm/helm-repo-manager.ts:123-138 | every listed repository, in order, with its cache path; empty on any failure |
| HelmRepos.FindByName | src/main/helm/helm-repo-manager.ts:105 | the first repository with that name, or none iff no repository has it |
| HelmRepos.Repo | src/main/helm/helm-repo-manager.ts:102-106 | a repository is found iff the manager is initialised, the config lists one and some listed repository has the name; it is then the first listed repository with that name, with its cache path set |
| ShellEnv.Fold | src/main/shell-session/shell-env-modifier/modifier.injectable.ts:31 | with no modifiers the environment is unchanged |
| ShellEnv.TerminalShellEnvModify | src/main/shell-session/shell-env-modifier/modifier.injectable.ts:21-36 | without an entity the input is returned; with one the modifiers are folded over a copy; with no modifiers the result equals the input |
| ShellEnv.FoldAppend | src/main/shell-session/shell-env-modifier/modifier.injectable.ts:31 | folding a concatenation folds the second part over the result of the first: the modifiers run left to right |
| ShellEnv.LastModifierWins | src/main/shell-session/shell-env-modifier/modifier.injectable.ts:31 | the last modifier sees what all earlier ones produced |
| ThemeStore.Init | src/renderer/themes/store.ts:34-37 | the bundled theme map is exactly lens-dark then lens-light, and it holds the default theme |
| ThemeStore.ActiveTheme | src/renderer/themes/store.ts:39-41 | the active id's theme if known, else the default theme; undefined only when both are missing |
| ThemeStore.TerminalColors | src/renderer/themes/store.ts:43-45 | the terminal theme's colours if that id is known, else the active theme's; fails only when neither exists |
| ThemeStore.ThemeOptions | src/renderer/themes/store.ts:47-53 | one option per theme in map order, labelled with the theme's name, its value the theme id |
| ThemeStore.AlwaysDefined | src/renderer/themes/store.ts:34-45 | with the bundled themes, the active theme and the terminal colours are defined whatever ids the settings hold |
| ThemeStore.ThemeOptionsMatchThemes | src/renderer/themes/store.ts:39-53 | an id is offered iff it is a known theme, no id is offered twice, and choosing it makes it active |
| ClusterRoleBindings.GetSubjects | src/common/k8s-api/endpoints/cluster-role-binding.api.ts:32-34 | absent subjects give [], present ones are returned unchanged |
| ClusterRoleBindings.GetSubjectNames | src/common/k8s-api/endpoints/cluster-role-binding.api.ts:36-38 | no subjects give "", and one subject gives its name |
| ClusterRoleBindings.SubjectNamesInOrder | src/common/k8s-api/endpoints/cluster-role-binding.api.ts:36-38 | the names appear in subject order: another subject appends ", " and its name |

## Left out

- **File and process work.** Kubeconfig watching, reading and parsing (`watch-file-changes.injectable` is not part of this model) are the opaque `watch` parameter. The same holds for:
  - file-system steps in unpacking;
  - `require` of extension entry points;
  - kubectl apply and delete;
  - helm execution;
  - the Kubernetes client;
  - YAML loading and dumping;
  - handlebars;
  - tar listing and reading;
  - `path.normalize`.
- **mobx reactivity.** Computed values are functions of the state. Observers take explicit change events. `reaction` re-runs and asynchronous interleavings of concurrent calls are not modelled: each call is modelled on its own.
- **Pre-install phase ids.** These are `uuid.v4()` strings in the source and are drawn from a counter here. Only their freshness matters.
- **The `disposer()` utility.** It is not part of this model. The disposers an extension collects are opaque tokens, and running them is reported, not modelled.
- **Loader fields not declared in the modelled file.** The name of an instance is read from its manifest. Extension instance classes and their activation are opaque. `ExtensionLoader.LoadExtensions` does not model the `activate()` promises, whose rejection is only logged.
- **The preference setter.** `src/common/extensions/preferences/is-enabled.injectable.ts:16` passes two positional arguments where the store's `isEnabled` takes one object. The model follows the store's own signature.
- **JavaScript object key ordering.** Keys that look like integers are enumerated first in `toJSON`'s record. The model keeps map order throughout.
- **Stopping the sync manager retracts entities.** `stopSync` runs the aggregate source's disposer (`manager.ts:76`), so entities disappear from the catalog on stop. This is modelled as written. `stopOldSync` drops a path's disposer without calling it, also as written.
- **`getNamespacedService`** (provider-registry.ts:51-65) is used only by concrete providers, which are not part of this model.
- **`ensureInitialized`, `update`, `removeRepo` and `loadAvailableRepos` of the helm repository manager.** These run helm or fetch over the network. They are abstracted into the `initialized` flag of `HelmRepos.Repositories`, and helm execution errors are not modelled.
- **Labels that are a non-object primitive.** A label value that is a non-object primitive (for example a string) would make the label writes fail silently or throw, depending on strict mode. Labels are modelled as a map or absent.
- TupleZip.Zip: with no sources, `Math.min()` is `Infinity` and the generator yields empty tuples forever. The model reports this case as `EmptyForever` instead of producing an unbounded run.
- ResourceStack.AppendKubectlArgs: the source pushes the label into the caller's array, so a caller that keeps that array sees it grow. The model returns a new sequence, and that aliasing is not modelled.
- ExtensionLoader.RemoveInstance: the name index holds the instance as a value. When a remove listener throws, the instance stays in the loader disabled, while the index still holds the copy taken before `disable()`. In the source both are the same object.
- ExtensionLoader.LoadEachLoadsEligible: gives a sufficient condition for activation, not a necessary one. It asks that no earlier entry shares the name, because an earlier entry with that name may or may not have taken the name first.
- **`applyTheme`.** It writes CSS variables into the document, and the theme JSON files' contents are parameters.
- HotbarMigration.RunIdempotent: assumes the catalog lookup of an empty slot (`undefined`) finds nothing. The catalog's get-by-id is not part of this model.
- ThemeStore.AlwaysDefined: holds for every store whose map contains the default theme. The store never changes its map after construction, so that includes every store `ThemeStore.Init` builds.
- **The shell-session callers of the modifier and the extension side of `env-modifiers.injectable.ts`.** Modifiers are given as a sequence of functions, and the JSON clone is a value copy because environments are values.

## Findings

| source | as written | input that shows it | evidently intended | confidence | as-written member | corrected member |
|---|---|---|---|---|---|---|
| src/renderer/components/+extensions/attempt-install/validate-package.injectable.tsx:31-33 | the entries count as packed in the root folder when every entry string-starts-with the folder name | tarball entries ["ext/package.json", "ext-assets/logo.png"]: accepted, with the manifest read from ext/package.json, yet the tarball extracts to two top-level folders, so unpacking installs the temporary folder and the manifest sits one level too deep | every entry is the root folder or lies inside it (a path-component test) | not executed | ValidatePackage.PrefixTestAcceptsSplitLayout | ValidatePackage.ValidatePackageCorrected |
| src/common/k8s/resource-stack.ts:61-62 | `deleteResources` has no default for `extraArgs` and passes it to `appendKubectlArgs`, which calls `includes` on it | `kubectlDeleteFolder(folder)` with no extra arguments: `undefined.includes` throws a TypeError before kubectl runs | the same default of [] that `applyResources` has at line 49 | not executed | ResourceStack.DeleteResourcesAsWritten | ResourceStack.DeleteResources |
