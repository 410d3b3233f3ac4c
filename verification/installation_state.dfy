/** `ExtensionInstallationStateManager`: per-extension installation state
    (installing, uninstalling or idle) kept as two sets of ids, plus a set of
    anonymous pre-install phases. Transitions are strict: each throws unless
    the extension is in the one state it leaves from.

    Pre-install phase ids are `uuid.v4()` strings in the source; here they are
    drawn from a counter, which gives the same freshness guarantee. */
module InstallationState {
  import opened Wrappers

  type ExtId = string

  datatype State = Installing | Uninstalling | Idle

  /** The `Error` a strict transition throws: which extension, and the state
      it was found in. */
  datatype TransitionError = TransitionError(extId: ExtId, current: State)

  datatype Manager = Manager(
    installing: set<ExtId>,
    uninstalling: set<ExtId>,
    preInstallIds: set<nat>,
    nextToken: nat)
  {
    /** No extension is both installing and uninstalling, and every live
        pre-install id was handed out before. */
    ghost predicate Valid() {
      && installing !! uninstalling
      && forall t :: t in preInstallIds ==> t < nextToken
    }
  }

  function Init(): (r: Manager)
    ensures r.Valid()
    ensures forall id :: GetInstallationState(r, id) == Idle
    ensures !AnyPreInstallingOrInstalling(r) && !AnyUninstalling(r)
  {
    Manager({}, {}, {}, 0)
  }

  /** `getInstallationState(extId)`: installing wins over uninstalling, and
      idle is the default. */
  function GetInstallationState(m: Manager, extId: ExtId): (r: State)
    ensures r == Installing <==> extId in m.installing
    ensures r == Uninstalling <==> extId !in m.installing && extId in m.uninstalling
    ensures r == Idle <==> extId !in m.installing && extId !in m.uninstalling
  {
    if extId in m.installing then Installing
    else if extId in m.uninstalling then Uninstalling
    else Idle
  }

  predicate IsExtensionInstalling(m: Manager, extId: ExtId) {
    GetInstallationState(m, extId) == Installing
  }

  predicate IsExtensionUninstalling(m: Manager, extId: ExtId) {
    GetInstallationState(m, extId) == Uninstalling
  }

  predicate IsExtensionIdle(m: Manager, extId: ExtId) {
    GetInstallationState(m, extId) == Idle
  }

  /** Every other extension keeps its state. */
  ghost predicate OthersUnchanged(m: Manager, m': Manager, extId: ExtId) {
    forall other :: other != extId ==> GetInstallationState(m', other) == GetInstallationState(m, other)
  }

  /** `setInstalling(extId)`: only an idle extension can start installing. */
  function SetInstalling(m: Manager, extId: ExtId): (r: Result<Manager, TransitionError>)
    requires m.Valid()
    ensures r.Ok? <==> GetInstallationState(m, extId) == Idle
    ensures r.Err? ==> r.error == TransitionError(extId, GetInstallationState(m, extId))
    ensures r.Ok? ==> && r.value.Valid()
                      && GetInstallationState(r.value, extId) == Installing
                      && OthersUnchanged(m, r.value, extId)
                      && r.value.preInstallIds == m.preInstallIds
  {
    var cur := GetInstallationState(m, extId);
    if cur != Idle then Err(TransitionError(extId, cur))
    else Ok(m.(installing := m.installing + {extId}))
  }

  /** `setUninstalling(extId)`: only an idle extension can start uninstalling. */
  function SetUninstalling(m: Manager, extId: ExtId): (r: Result<Manager, TransitionError>)
    requires m.Valid()
    ensures r.Ok? <==> GetInstallationState(m, extId) == Idle
    ensures r.Err? ==> r.error == TransitionError(extId, GetInstallationState(m, extId))
    ensures r.Ok? ==> && r.value.Valid()
                      && GetInstallationState(r.value, extId) == Uninstalling
                      && OthersUnchanged(m, r.value, extId)
                      && r.value.preInstallIds == m.preInstallIds
  {
    var cur := GetInstallationState(m, extId);
    if cur != Idle then Err(TransitionError(extId, cur))
    else Ok(m.(uninstalling := m.uninstalling + {extId}))
  }

  /** `clearInstalling(extId)`: only an installing extension can go back to idle. */
  function ClearInstalling(m: Manager, extId: ExtId): (r: Result<Manager, TransitionError>)
    requires m.Valid()
    ensures r.Ok? <==> GetInstallationState(m, extId) == Installing
    ensures r.Err? ==> r.error == TransitionError(extId, GetInstallationState(m, extId))
    ensures r.Ok? ==> && r.value.Valid()
                      && GetInstallationState(r.value, extId) == Idle
                      && OthersUnchanged(m, r.value, extId)
                      && r.value.preInstallIds == m.preInstallIds
  {
    var cur := GetInstallationState(m, extId);
    if cur == Installing then Ok(m.(installing := m.installing - {extId}))
    else Err(TransitionError(extId, cur))
  }

  /** `clearUninstalling(extId)`: only an uninstalling extension can go back to idle. */
  function ClearUninstalling(m: Manager, extId: ExtId): (r: Result<Manager, TransitionError>)
    requires m.Valid()
    ensures r.Ok? <==> GetInstallationState(m, extId) == Uninstalling
    ensures r.Err? ==> r.error == TransitionError(extId, GetInstallationState(m, extId))
    ensures r.Ok? ==> && r.value.Valid()
                      && GetInstallationState(r.value, extId) == Idle
                      && OthersUnchanged(m, r.value, extId)
                      && r.value.preInstallIds == m.preInstallIds
  {
    var cur := GetInstallationState(m, extId);
    if cur == Uninstalling then Ok(m.(uninstalling := m.uninstalling - {extId}))
    else Err(TransitionError(extId, cur))
  }

  /** A set followed by its clear is a round trip: from idle, `setInstalling`
      then `clearInstalling` (and likewise for uninstalling) restores the
      extension states, and the reverse order from idle fails. */
  lemma SetThenClearRestores(m: Manager, extId: ExtId)
    requires m.Valid()
    requires GetInstallationState(m, extId) == Idle
    ensures SetInstalling(m, extId).Ok?
    ensures ClearInstalling(SetInstalling(m, extId).value, extId) == Ok(m)
    ensures SetUninstalling(m, extId).Ok?
    ensures ClearUninstalling(SetUninstalling(m, extId).value, extId) == Ok(m)
    ensures ClearInstalling(m, extId).Err? && ClearUninstalling(m, extId).Err?
  {
    assert m.installing + {extId} - {extId} == m.installing;
    assert m.uninstalling + {extId} - {extId} == m.uninstalling;
  }

  /** `startPreInstall()`: a fresh phase id is added; the result carries it so
      the disposer can end exactly that phase. */
  function StartPreInstall(m: Manager): (r: (Manager, nat))
    requires m.Valid()
    ensures r.0.Valid()
    ensures r.1 !in m.preInstallIds
    ensures r.0.preInstallIds == m.preInstallIds + {r.1}
    ensures r.0.installing == m.installing && r.0.uninstalling == m.uninstalling
  {
    (m.(preInstallIds := m.preInstallIds + {m.nextToken}, nextToken := m.nextToken + 1), m.nextToken)
  }

  /** The disposer `startPreInstall` returns: deletes its phase id; calling it
      again deletes nothing. */
  function EndPreInstall(m: Manager, token: nat): (r: Manager)
    requires m.Valid()
    ensures r.Valid()
    ensures r.preInstallIds == m.preInstallIds - {token}
    ensures r.installing == m.installing && r.uninstalling == m.uninstalling
  {
    m.(preInstallIds := m.preInstallIds - {token})
  }

  /** Starting a pre-install phase and running its disposer leaves the live
      phases as they were; a second call of the disposer changes nothing. */
  lemma PreInstallDisposer(m: Manager)
    requires m.Valid()
    ensures var (m1, t) := StartPreInstall(m);
            && EndPreInstall(m1, t).preInstallIds == m.preInstallIds
            && EndPreInstall(EndPreInstall(m1, t), t) == EndPreInstall(m1, t)
  {
    var (m1, t) := StartPreInstall(m);
    assert m.preInstallIds + {t} - {t} == m.preInstallIds;
  }

  /** The counters are the set sizes. */
  function InstallingCount(m: Manager): (r: nat)
    ensures r == 0 <==> m.installing == {}
  {
    |m.installing|
  }

  function UninstallingCount(m: Manager): (r: nat)
    ensures r == 0 <==> m.uninstalling == {}
  {
    |m.uninstalling|
  }

  function PreinstallingCount(m: Manager): (r: nat)
    ensures r == 0 <==> m.preInstallIds == {}
  {
    |m.preInstallIds|
  }

  /** `anyInstalling`: the count is positive, i.e. some extension is installing. */
  predicate AnyInstalling(m: Manager)
  {
    InstallingCount(m) > 0
  }

  predicate AnyUninstalling(m: Manager)
  {
    UninstallingCount(m) > 0
  }

  predicate AnyPreinstalling(m: Manager)
  {
    PreinstallingCount(m) > 0
  }

  predicate AnyPreInstallingOrInstalling(m: Manager)
  {
    AnyInstalling(m) || AnyPreinstalling(m)
  }

  /** Each `anyX` holds exactly when some extension is in state X (or some
      pre-install phase is live). */
  lemma AnyMeansSomeone(m: Manager)
    requires m.Valid()
    ensures AnyInstalling(m) <==> exists id :: GetInstallationState(m, id) == Installing
    ensures AnyUninstalling(m) <==> exists id :: GetInstallationState(m, id) == Uninstalling
    ensures AnyPreinstalling(m) <==> exists t :: t in m.preInstallIds
    ensures AnyPreInstallingOrInstalling(m) <==> AnyInstalling(m) || AnyPreinstalling(m)
  {
    if AnyInstalling(m) {
      var id :| id in m.installing;
      assert GetInstallationState(m, id) == Installing;
    }
    if AnyUninstalling(m) {
      var id :| id in m.uninstalling;
      assert GetInstallationState(m, id) == Uninstalling;
    }
    if AnyPreinstalling(m) {
      var t :| t in m.preInstallIds;
    }
  }

  /** A transition moves one extension by one step and changes each count by
      at most one: `setInstalling` raises `installing` by exactly one and leaves the
      other counts alone. */
  lemma SetInstallingCounts(m: Manager, extId: ExtId)
    requires m.Valid()
    requires SetInstalling(m, extId).Ok?
    ensures InstallingCount(SetInstalling(m, extId).value) == InstallingCount(m) + 1
    ensures UninstallingCount(SetInstalling(m, extId).value) == UninstallingCount(m)
    ensures PreinstallingCount(SetInstalling(m, extId).value) == PreinstallingCount(m)
  {
  }
}
