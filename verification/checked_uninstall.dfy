/** `checkedUninstallExtension(extensionId)` as a client of the installation
    state manager. The asynchronous steps are parameters: whether the loader
    knows the extension, and how the uninstall request and the wait for the
    loader to drop the extension turn out. One call is modelled on its own,
    without concurrent callers. */
module CheckedUninstall {
  import opened Wrappers
  import IS = InstallationState

  /** How `await uninstallExtension(id)` and the following
      `await when(() => !userExtensions.has(id))` end: the request rejects, or
      it resolves and the loader then does or does not drop the extension
      (if it never does, the `when` never settles). */
  datatype Request = RequestRejects | RequestResolves(loaderDropsExtension: bool)

  /** Why the returned promise rejects: `getExtension` gave `undefined`, so
      reading its `manifest` throws; or the `finally`'s `clearUninstalling`
      threw, which replaces whatever the `try`/`catch` returned. */
  datatype RejectReason = UnknownExtension | FinallyThrew(error: IS.TransitionError)

  datatype Outcome = Resolved(value: bool) | Rejected(reason: RejectReason) | Pending

  datatype Notification = UninstalledOk | UninstallFailed

  /** One call's observable effect: how it settles, the state manager after
      it (while `Pending`: the state it waits in), the notifications shown,
      and the extension's state at the moment the uninstall request was sent
      (`None` when no request was sent). */
  datatype Run = Run(outcome: Outcome, manager: IS.Manager, notes: seq<Notification>, stateAtRequest: Option<IS.State>)

  function CheckedUninstallExtension(m: IS.Manager, extId: IS.ExtId, known: bool, request: Request): (r: Run)
    requires m.Valid()
    ensures r.manager.Valid()
    // the manifest is read before the `try`
    ensures !known ==> r == Run(Rejected(UnknownExtension), m, [], None)
    // the extension is marked uninstalling before the request goes out
    ensures r.stateAtRequest.Some? ==> r.stateAtRequest.value == IS.Uninstalling
    ensures r.stateAtRequest.Some? <==> known && IS.GetInstallationState(m, extId) == IS.Idle
    // true only once the loader has dropped the extension
    ensures r.outcome == Resolved(true) ==> r.stateAtRequest.Some? && request == RequestResolves(true)
    ensures r.outcome == Resolved(true) ==> r.notes == [UninstalledOk]
    // any failure inside the `try` yields false and an error notification
    ensures r.outcome == Resolved(false) ==> r.notes == [UninstallFailed]
    ensures r.outcome.Pending? ==> IS.GetInstallationState(r.manager, extId) == IS.Uninstalling
  {
    if !known then Run(Rejected(UnknownExtension), m, [], None)
    else
      var marked := IS.SetUninstalling(m, extId);
      if marked.Err? then
        // the `catch` reports and returns false; then the `finally` runs
        Finally(m, extId, false, [UninstallFailed], None)
      else
        var m1 := marked.value;
        // `uninstallExtension(id)` is sent now
        var atRequest := Some(IS.GetInstallationState(m1, extId));
        match request
        case RequestRejects => Finally(m1, extId, false, [UninstallFailed], atRequest)
        case RequestResolves(drops) =>
          if drops then Finally(m1, extId, true, [UninstalledOk], atRequest)
          else Run(Pending, m1, [], atRequest)
  }

  /** The `finally` block: `clearUninstalling(id)`, whose throw overrides the
      value the `try` or `catch` returned. */
  function Finally(m: IS.Manager, extId: IS.ExtId, value: bool, notes: seq<Notification>, atRequest: Option<IS.State>): (r: Run)
    requires m.Valid()
    ensures r.manager.Valid()
    ensures r.notes == notes && r.stateAtRequest == atRequest
    ensures r.outcome == Resolved(value) <==> IS.GetInstallationState(m, extId) == IS.Uninstalling
    ensures r.outcome.Resolved? ==> (IS.GetInstallationState(r.manager, extId) == IS.Idle
                                     && IS.OthersUnchanged(m, r.manager, extId))
    ensures r.outcome.Rejected? ==> (r.manager == m
                                     && r.outcome.reason == FinallyThrew(IS.TransitionError(extId, IS.GetInstallationState(m, extId))))
  {
    var c := IS.ClearUninstalling(m, extId);
    if c.Err? then Run(Rejected(FinallyThrew(c.error)), m, notes, atRequest)
    else Run(Resolved(value), c.value, notes, atRequest)
  }

  /** Entered from idle, a call that settles resolves and leaves the state
      manager exactly as it found it: the `finally` undoes `setUninstalling`. */
  lemma IdleEntryEndsIdle(m: IS.Manager, extId: IS.ExtId, request: Request)
    requires m.Valid()
    requires IS.GetInstallationState(m, extId) == IS.Idle
    ensures var r := CheckedUninstallExtension(m, extId, true, request);
            r.outcome != Pending ==> r.outcome.Resolved? && r.manager == m
    ensures CheckedUninstallExtension(m, extId, true, request).outcome == Resolved(true)
            <==> request == RequestResolves(true)
  {
    IS.SetThenClearRestores(m, extId);
  }

  /** Entered while another uninstall of the same id is under way, the call
      sends no request, resolves to false with an error notification, and
      still clears the other call's uninstalling state. */
  lemma UninstallingEntryClearsState(m: IS.Manager, extId: IS.ExtId, request: Request)
    requires m.Valid()
    requires IS.GetInstallationState(m, extId) == IS.Uninstalling
    ensures var r := CheckedUninstallExtension(m, extId, true, request);
            && r.outcome == Resolved(false)
            && r.notes == [UninstallFailed]
            && r.stateAtRequest.None?
            && IS.GetInstallationState(r.manager, extId) == IS.Idle
  {
  }

  /** Entered while the id is installing, `setUninstalling` throws and the
      `catch` shows an error, but then `clearUninstalling` in the `finally`
      throws too, so the call rejects instead of returning false. */
  lemma InstallingEntryRejects(m: IS.Manager, extId: IS.ExtId, request: Request)
    requires m.Valid()
    requires IS.GetInstallationState(m, extId) == IS.Installing
    ensures var r := CheckedUninstallExtension(m, extId, true, request);
            && r.outcome == Rejected(FinallyThrew(IS.TransitionError(extId, IS.Installing)))
            && r.notes == [UninstallFailed]
            && r.manager == m
  {
  }
}
