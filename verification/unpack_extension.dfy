/** `unpackExtension(request, disposeDownloading)` as a client of the
    installation state manager. File-system work (removing, creating,
    extracting into and listing the temporary folder, moving the root into the
    extensions folder) and the wait for the loader are parameters: whether
    each step succeeds and what the temporary folder lists. */
module UnpackExtension {
  import opened Wrappers
  import IS = InstallationState

  /** How the awaited steps of the `try` block turn out. `extracted` covers
      `fse.remove`/`ensureDir`/`extractTar`/`readdir`; `unpackedFiles` is what
      `readdir` listed; `moved` covers `ensureDir` and `move`; `loaderPicksUp`
      says whether `userExtensions` ever gains the id. */
  datatype Steps = Steps(extracted: bool, unpackedFiles: seq<string>, moved: bool, loaderPicksUp: bool)

  datatype Outcome = Resolved | Rejected(error: IS.TransitionError) | Pending

  datatype Notification = InstalledOk | InstallFailed

  /** One call's observable effect. `handoff` holds the state manager after
      each step before the `try` (after `setInstalling`, then after the
      pre-install disposer); `movedFrom` is the folder moved into place;
      `enabled` says whether `setIsEnabled(id, true)` was called. */
  datatype Run = Run(
    outcome: Outcome,
    manager: IS.Manager,
    handoff: seq<IS.Manager>,
    movedFrom: Option<string>,
    enabled: bool,
    notes: seq<Notification>)

  /** The folder moved into place: the only entry of the temporary folder
      when it lists exactly one (a tarball packed with a single top folder,
      such as `npm pack`'s `package`), and the temporary folder otherwise. */
  function UnpackedRoot(tempFolder: string, unpackedFiles: seq<string>): (r: string)
    ensures |unpackedFiles| == 1 ==> r == tempFolder + "/" + unpackedFiles[0]
    ensures |unpackedFiles| != 1 ==> r == tempFolder
  {
    if |unpackedFiles| == 1 then tempFolder + "/" + unpackedFiles[0] else tempFolder
  }

  /** The pre-install disposer, if the caller passed one. */
  function DisposeDownloading(m: IS.Manager, token: Option<nat>): (r: IS.Manager)
    requires m.Valid()
    ensures r.Valid()
    ensures token.None? ==> r == m
    ensures token.Some? ==> r == IS.EndPreInstall(m, token.value)
  {
    if token.Some? then IS.EndPreInstall(m, token.value) else m
  }

  function UnpackExtension(m: IS.Manager, extId: IS.ExtId, token: Option<nat>, tempFolder: string, steps: Steps): (r: Run)
    requires m.Valid()
    ensures r.manager.Valid()
    // `setInstalling` runs first: a busy extension rejects before any other work
    ensures r.outcome.Rejected? <==> IS.GetInstallationState(m, extId) != IS.Idle
    ensures r.outcome.Rejected? ==> r == Run(Rejected(IS.TransitionError(extId, IS.GetInstallationState(m, extId))), m, [], None, false, [])
    // the disposer runs only once the id is installing
    ensures !r.outcome.Rejected? ==> |r.handoff| == 2 && forall i :: 0 <= i < 2 ==> IS.IsExtensionInstalling(r.handoff[i], extId)
    // the folder moved is the single top folder when there is one
    ensures r.movedFrom.Some? ==> steps.extracted && r.movedFrom.value == UnpackedRoot(tempFolder, steps.unpackedFiles)
    // the extension is enabled only after the loader picked it up
    ensures r.enabled <==> !r.outcome.Rejected? && steps.extracted && steps.moved && steps.loaderPicksUp
    ensures r.enabled ==> r.outcome.Resolved? && r.notes == [InstalledOk]
    // failures are reported, never rethrown
    ensures !r.outcome.Rejected? && !(steps.extracted && steps.moved) ==> r.outcome.Resolved? && r.notes == [InstallFailed]
    // the `finally` clears installing: the id ends idle and the phase is over
    ensures r.outcome.Resolved? ==> && IS.IsExtensionIdle(r.manager, extId)
                                    && IS.OthersUnchanged(m, r.manager, extId)
                                    && r.manager.preInstallIds == DisposeDownloading(m, token).preInstallIds
    ensures r.outcome.Pending? ==> IS.IsExtensionInstalling(r.manager, extId)
  {
    var marked := IS.SetInstalling(m, extId);
    if marked.Err? then Run(Rejected(marked.error), m, [], None, false, [])
    else
      var m1 := marked.value;
      var m2 := DisposeDownloading(m1, token);
      var handoff := [m1, m2];
      if !steps.extracted then
        Finally(m2, extId, handoff, None, false, [InstallFailed])
      else
        var root := UnpackedRoot(tempFolder, steps.unpackedFiles);
        if !steps.moved then
          Finally(m2, extId, handoff, Some(root), false, [InstallFailed])
        else if !steps.loaderPicksUp then
          Run(Pending, m2, handoff, Some(root), false, [])
        else
          Finally(m2, extId, handoff, Some(root), true, [InstalledOk])
  }

  /** The `finally` block: `clearInstalling(id)`; the clean-up of the temporary
      files is fire-and-forget and has no effect on the result. */
  function Finally(m: IS.Manager, extId: IS.ExtId, handoff: seq<IS.Manager>, movedFrom: Option<string>, enabled: bool, notes: seq<Notification>): (r: Run)
    requires m.Valid()
    requires IS.IsExtensionInstalling(m, extId)
    ensures r.manager.Valid() && r.outcome.Resolved?
    ensures r.handoff == handoff && r.movedFrom == movedFrom && r.enabled == enabled && r.notes == notes
    ensures IS.IsExtensionIdle(r.manager, extId) && IS.OthersUnchanged(m, r.manager, extId)
    ensures r.manager.preInstallIds == m.preInstallIds
  {
    var c := IS.ClearInstalling(m, extId);
    Run(Resolved, c.value, handoff, movedFrom, enabled, notes)
  }

  /** Across the handoff from downloading to installing, "pre-installing or
      installing" never drops: with the caller's phase live before the call,
      it holds after `setInstalling` and still after the disposer. */
  lemma HandoffKeepsBusy(m: IS.Manager, extId: IS.ExtId, token: nat, tempFolder: string, steps: Steps)
    requires m.Valid()
    requires token in m.preInstallIds
    requires IS.IsExtensionIdle(m, extId)
    ensures IS.AnyPreInstallingOrInstalling(m)
    ensures var r := UnpackExtension(m, extId, Some(token), tempFolder, steps);
            forall i :: 0 <= i < |r.handoff| ==> IS.AnyPreInstallingOrInstalling(r.handoff[i])
  {
    IS.AnyMeansSomeone(m);
    var r := UnpackExtension(m, extId, Some(token), tempFolder, steps);
    forall i | 0 <= i < |r.handoff|
      ensures IS.AnyPreInstallingOrInstalling(r.handoff[i])
    {
      IS.AnyMeansSomeone(r.handoff[i]);
    }
  }

  /** The order matters: running the disposer before `setInstalling` would
      pass through a state that is neither pre-installing nor installing,
      when the caller's phase was the only activity. */
  lemma DisposeFirstWouldGap(m: IS.Manager, extId: IS.ExtId, token: nat)
    requires m.Valid()
    requires m.preInstallIds == {token} && m.installing == {}
    ensures !IS.AnyPreInstallingOrInstalling(IS.EndPreInstall(m, token))
  {
    assert IS.EndPreInstall(m, token).preInstallIds == {};
  }

  /** A call that rejects because the extension is busy leaves the caller's
      pre-install phase running: the disposer is never reached. */
  lemma RejectKeepsPhase(m: IS.Manager, extId: IS.ExtId, token: nat, tempFolder: string, steps: Steps)
    requires m.Valid()
    requires token in m.preInstallIds
    requires !IS.IsExtensionIdle(m, extId)
    ensures token in UnpackExtension(m, extId, Some(token), tempFolder, steps).manager.preInstallIds
  {
  }
}
