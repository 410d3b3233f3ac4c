/** `LensExtension`: the base class every extension instance derives from,
    reduced to what the loader relies on: identity, the bundled flag, the
    enabled flag and the list of disposers collected by `enable`. Also the
    `sanitizeExtensionName` helper. */
module LensExtensions {
  import opened Wrappers
  import Text

  /** The manifest fields the model reads. `main` and `renderer` are the
      optional entry points of the two sides. */
  datatype Manifest = Manifest(name: string, version: string, main: Option<string>, renderer: Option<string>)

  /** What discovery reports for an installed extension. `isBundled` is an
      optional boolean in the source. */
  datatype InstalledExtension = InstalledExtension(
    id: string,
    manifest: Manifest,
    manifestPath: string,
    isBundled: Option<bool>,
    isEnabled: bool,
    isCompatible: bool)

  /** A disposer registered by `enable`, as an opaque token. */
  type Disposer = nat

  datatype LensExtension = LensExtension(
    id: string,
    manifest: Manifest,
    manifestPath: string,
    isBundled: bool,
    isEnabled: bool,
    disposers: seq<Disposer>)

  /** The constructor: copies the identity and normalises `isBundled` with
      `!!`, so an absent flag reads as false; a new instance is disabled. */
  function New(ie: InstalledExtension): (r: LensExtension)
    ensures r.id == ie.id && r.manifest == ie.manifest && r.manifestPath == ie.manifestPath
    ensures r.isBundled <==> ie.isBundled == Some(true)
    ensures !r.isEnabled && r.disposers == []
  {
    LensExtension(ie.id, ie.manifest, ie.manifestPath, ie.isBundled == Some(true), false, [])
  }

  /** `enable(register)`. `registered` is what `await register(this)` gives:
      the disposers it returns, or `None` when it throws (the error is logged
      and swallowed). The flag is set before `register` runs. */
  function Enable(e: LensExtension, registered: Option<seq<Disposer>>): (r: LensExtension)
    ensures r.isEnabled
    ensures e.isEnabled ==> r == e
    ensures !e.isEnabled ==> r.disposers == e.disposers + (if registered.Some? then registered.value else [])
    ensures r.id == e.id && r.manifest == e.manifest && r.manifestPath == e.manifestPath && r.isBundled == e.isBundled
  {
    if e.isEnabled then e
    else
      var e1 := e.(isEnabled := true);
      match registered
      case Some(ds) => e1.(disposers := e1.disposers + ds)
      case None => e1
  }

  /** `disable()`. `deactivated` says whether `await onDeactivate()` returns
      normally; only then are the collected disposers run. The flag is cleared
      first. The result pairs the new instance with the disposers that ran. */
  function Disable(e: LensExtension, deactivated: bool): (r: (LensExtension, seq<Disposer>))
    ensures !r.0.isEnabled
    ensures !e.isEnabled ==> r == (e, [])
    ensures e.isEnabled && deactivated ==> r.1 == e.disposers && r.0.disposers == []
    ensures e.isEnabled && !deactivated ==> r.1 == [] && r.0.disposers == e.disposers
    ensures r.0.id == e.id && r.0.manifest == e.manifest && r.0.manifestPath == e.manifestPath && r.0.isBundled == e.isBundled
  {
    if !e.isEnabled then (e, [])
    else
      var e1 := e.(isEnabled := false);
      if deactivated then (e1.(disposers := []), e.disposers) else (e1, [])
  }

  /** Enabling twice is enabling once, whatever the second `register` would do;
      disabling twice is disabling once. */
  lemma EnableDisableIdempotent(e: LensExtension, reg1: Option<seq<Disposer>>, reg2: Option<seq<Disposer>>, d1: bool, d2: bool)
    ensures Enable(Enable(e, reg1), reg2) == Enable(e, reg1)
    ensures Disable(Disable(e, d1).0, d2) == (Disable(e, d1).0, [])
  {
  }

  /** Enabling a fresh instance and disabling it cleanly runs exactly the
      disposers `register` returned and leaves the instance as constructed. */
  lemma EnableThenDisable(ie: InstalledExtension, ds: seq<Disposer>)
    ensures var (e, ran) := Disable(Enable(New(ie), Some(ds)), true);
            ran == ds && e == New(ie)
  {
  }

  /** `sanitizeExtensionName(name)`: `replace` with string patterns, so only
      the first "@" is removed and only the first "/" becomes "--". */
  function SanitizeExtensionName(name: string): (r: string)
    ensures '@' !in name && '/' !in name ==> r == name
  {
    Text.ReplaceFirst(Text.ReplaceFirst(name, '@', ""), '/', "--")
  }

  /** A scoped package name "@scope/name" becomes "scope--name". Only the
      first "@" and the first "/" are touched: any later "@" in the scope and
      any "/" in the name survive, so "@a@b/c/d" becomes "a@b--c/d". */
  lemma SanitizeScopedName(scope: string, name: string)
    requires '/' !in scope
    ensures SanitizeExtensionName("@" + scope + "/" + name) == scope + "--" + name
  {
    var s := "@" + scope + "/" + name;
    assert s[0] == '@';
    Text.FirstIndexAbsent(s, '@');
    var t := Text.ReplaceFirst(s, '@', "");
    assert t == scope + "/" + name by {
      assert s[..0] == [];
      assert s[1..] == scope + "/" + name;
    }
    Text.FirstIndexAfter(scope, '/', name);
    assert t[..|scope|] == scope;
    assert t[|scope| + 1..] == name;
  }
}
