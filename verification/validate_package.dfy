/** `validatePackage(filePath)`: decides where an extension tarball keeps its
    manifest from the list of its entry names, and checks the manifest names
    at least one entry point. Listing the tarball and reading a file out of it
    are parameters; so is `path.normalize`, applied to the first entry. */
module ValidatePackage {
  import opened Wrappers
  import Text
  import LE = LensExtensions

  /** The manifest file name the application injects. */
  const ManifestFilename: string := "package.json"

  datatype PackageError =
    | ManifestNotFound       // "invalid extension bundle, package.json not found"
    | ManifestUnreadable     // `readFileFromTar` rejects (missing or not JSON)
    | NoEntryPoint           // "package.json must specify at least one of "main" and "renderer" fields"

  /** A JavaScript truthiness test for an optional string. */
  predicate Truthy(s: Option<string>) {
    s.Some? && s.value != ""
  }

  /** The first `/`-separated component of a path. */
  function FirstComponent(p: string): (r: string)
    ensures '/' !in r
    ensures Text.StartsWith(p, r)
    ensures |r| < |p| ==> p[|r|] == '/'
  {
    Text.SplitHead(p, '/');
    Text.Split(p, '/')[0]
  }

  /** `path.join(root, name)` for a root without separators: the empty root
      and `.` vanish, any other root becomes the parent folder. */
  function JoinPath(root: string, name: string): (r: string)
    requires '/' !in root
    ensures root == "" || root == "." ==> r == name
    ensures root != "" && root != "." ==> Text.StartsWith(r, root + "/") && r[|root| + 1..] == name
  {
    if root == "" || root == "." then name else root + "/" + name
  }

  /** `entry.startsWith(rootFolder)` for every entry. */
  predicate AllStartWith(entries: seq<string>, root: string) {
    forall i :: 0 <= i < |entries| ==> Text.StartsWith(entries[i], root)
  }

  /** The manifest names a `main` or a `renderer` entry point. */
  predicate HasEntryPoint(m: LE.Manifest) {
    Truthy(m.main) || Truthy(m.renderer)
  }

  /** How the check settles once it knows where the manifest should be:
      not listed, unreadable, without an entry point, or the manifest. */
  predicate SettledAt(entries: seq<string>, loc: string, read: string -> Option<LE.Manifest>, r: Result<LE.Manifest, PackageError>) {
    && (loc !in entries ==> r == Err(ManifestNotFound))
    && (loc in entries && read(loc).None? ==> r == Err(ManifestUnreadable))
    && (loc in entries && read(loc).Some? && !HasEntryPoint(read(loc).value) ==> r == Err(NoEntryPoint))
    && (loc in entries && read(loc).Some? && HasEntryPoint(read(loc).value) ==> r == Ok(read(loc).value))
  }

  /** The check with the packing test as a parameter, so that the code as
      written and the corrected code share everything else. */
  function Validate(entries: seq<string>, normalize: string -> string, read: string -> Option<LE.Manifest>,
                    packed: (seq<string>, string) -> bool): (r: Result<LE.Manifest, PackageError>)
    ensures entries == [] || entries[0] == "" ==> r == Err(ManifestNotFound)
    ensures entries != [] && entries[0] != "" ==> SettledAt(entries, ManifestLocation(entries, normalize, packed), read, r)
    ensures r.Ok? ==> && entries != []
                      && var loc := ManifestLocation(entries, normalize, packed);
                         && loc in entries
                         && read(loc) == Some(r.value)
                         && (Truthy(r.value.main) || Truthy(r.value.renderer))
    ensures r == Err(NoEntryPoint) ==> && entries != []
                                       && var loc := ManifestLocation(entries, normalize, packed);
                                          && loc in entries
                                          && read(loc).Some?
                                          && !Truthy(read(loc).value.main) && !Truthy(read(loc).value.renderer)
  {
    if entries == [] || entries[0] == "" then Err(ManifestNotFound)
    else
      var loc := ManifestLocation(entries, normalize, packed);
      if loc !in entries then Err(ManifestNotFound)
      else match read(loc)
        case None => Err(ManifestUnreadable)
        case Some(m) =>
          if !Truthy(m.main) && !Truthy(m.renderer) then Err(NoEntryPoint) else Ok(m)
  }

  /** Where the manifest is looked for: inside the top folder of the first
      entry when the entries count as packed in it and that folder has a
      real name, at the top level otherwise; the location never lies more
      than one folder deep. */
  function ManifestLocation(entries: seq<string>, normalize: string -> string, packed: (seq<string>, string) -> bool): (r: string)
    requires entries != []
    ensures var root := FirstComponent(normalize(entries[0]));
            r == ManifestFilename || r == root + "/" + ManifestFilename
    ensures var root := FirstComponent(normalize(entries[0]));
            r != ManifestFilename <==> packed(entries, root) && root != "" && root != "."
    ensures forall i :: 0 <= i < |r| && r[i] == '/' ==> i == |r| - |ManifestFilename| - 1
  {
    var root := FirstComponent(normalize(entries[0]));
    if packed(entries, root) then JoinPath(root, ManifestFilename) else ManifestFilename
  }

  /** The packing test as written: a string prefix test. */
  predicate PrefixPacked(entries: seq<string>, root: string) {
    AllStartWith(entries, root)
  }

  /** The packing test as intended: every entry is the root folder itself or
      lies inside it. */
  predicate ComponentPacked(entries: seq<string>, root: string) {
    forall i :: 0 <= i < |entries| ==> entries[i] == root || Text.StartsWith(entries[i], root + "/")
  }

  /** `validatePackage` as written. */
  function ValidatePackageAsWritten(entries: seq<string>, normalize: string -> string, read: string -> Option<LE.Manifest>): (r: Result<LE.Manifest, PackageError>)
    ensures entries == [] || entries[0] == "" ==> r == Err(ManifestNotFound)
    ensures entries != [] && entries[0] != "" ==> SettledAt(entries, ManifestLocation(entries, normalize, PrefixPacked), read, r)
  {
    Validate(entries, normalize, read, PrefixPacked)
  }

  /** `validatePackage` with the packing test done per path component. */
  function ValidatePackageCorrected(entries: seq<string>, normalize: string -> string, read: string -> Option<LE.Manifest>): (r: Result<LE.Manifest, PackageError>)
    ensures entries == [] || entries[0] == "" ==> r == Err(ManifestNotFound)
    ensures entries != [] && entries[0] != "" ==> SettledAt(entries, ManifestLocation(entries, normalize, ComponentPacked), read, r)
  {
    Validate(entries, normalize, read, ComponentPacked)
  }

  /** The names `readdir` lists after extracting the entries: their first
      path components. */
  function TopLevel(entries: seq<string>): (r: set<string>)
    ensures forall i :: 0 <= i < |entries| ==> FirstComponent(entries[i]) in r
    ensures forall n :: n in r ==> exists i :: 0 <= i < |entries| && FirstComponent(entries[i]) == n
  {
    set i | 0 <= i < |entries| :: FirstComponent(entries[i])
  }

  /** The first component of `root/rest`, or of `root` alone, is `root`. */
  lemma FirstComponentOfChild(root: string, rest: string)
    requires '/' !in root
    ensures FirstComponent(root) == root
    ensures FirstComponent(root + "/" + rest) == root
  {
    Text.FirstIndexAbsent(root, '/');
    Text.SplitHead(root, '/');
    Text.FirstIndexAfter(root, '/', rest);
    Text.SplitHead(root + "/" + rest, '/');
    assert (root + "/" + rest)[..|root|] == root;
  }

  /** With the corrected test, entries that count as packed in a root folder
      extract to that one folder, which is exactly the layout `unpackExtension`
      treats as a single root. */
  lemma CorrectedPackedMeansSingleFolder(entries: seq<string>, root: string)
    requires entries != []
    requires '/' !in root
    requires ComponentPacked(entries, root)
    ensures TopLevel(entries) == {root}
  {
    forall i | 0 <= i < |entries|
      ensures FirstComponent(entries[i]) == root
    {
      FirstComponentOfChild(root, "");
      if entries[i] != root {
        var rest := entries[i][|root| + 1..];
        assert entries[i] == root + "/" + rest;
        FirstComponentOfChild(root, rest);
      }
    }
    assert FirstComponent(entries[0]) in TopLevel(entries);
  }

  /** `path.normalize` on paths already in normal form. */
  function Normalized(p: string): string {
    p
  }

  /** A layout whose manifest sits in folder `root` next to a sibling
      folder whose name merely starts with `root`, such as `ext/package.json`
      next to `ext-assets/logo.png`. */
  function SplitLayout(root: string, suffix: string, file: string): (r: seq<string>)
    ensures |r| == 2
  {
    [root + "/" + ManifestFilename, (root + suffix) + "/" + file]
  }

  /** The split layout extracts to two top-level folders, `root` and the
      sibling, and counts as packed in `root` only for the prefix test. */
  lemma SplitLayoutShape(root: string, suffix: string, file: string)
    requires '/' !in root && '/' !in suffix
    requires suffix != []
    ensures var entries := SplitLayout(root, suffix, file);
            && FirstComponent(entries[0]) == root
            && FirstComponent(entries[1]) == root + suffix
            && root != root + suffix
            && PrefixPacked(entries, root)
            && !ComponentPacked(entries, root)
  {
    var entries := SplitLayout(root, suffix, file);
    FirstComponentOfChild(root, ManifestFilename);
    assert '/' !in root + suffix;
    FirstComponentOfChild(root + suffix, file);
    assert entries[1][..|root|] == root;
    assert entries[1][|root|] == suffix[0];
  }

  /** The prefix test accepts the split layout: the manifest is read from
      inside `root`, yet the tarball extracts to two top-level folders, so
      `unpackExtension` installs the temporary folder itself and the manifest
      ends up one level deeper than the loader looks. */
  lemma PrefixTestAcceptsSplitLayout(root: string, suffix: string, file: string, read: string -> Option<LE.Manifest>)
    requires '/' !in root && '/' !in suffix
    requires suffix != []
    requires root != "" && root != "."
    requires read(root + "/" + ManifestFilename).Some?
    requires Truthy(read(root + "/" + ManifestFilename).value.main)
    ensures var entries := SplitLayout(root, suffix, file);
            && ValidatePackageAsWritten(entries, Normalized, read) == Ok(read(root + "/" + ManifestFilename).value)
            && root in TopLevel(entries) && root + suffix in TopLevel(entries) && root != root + suffix
  {
    SplitLayoutShape(root, suffix, file);
    var entries := SplitLayout(root, suffix, file);
    assert ManifestLocation(entries, Normalized, PrefixPacked) == entries[0];
  }

  /** The corrected test refuses the split layout, which has no top-level
      manifest. */
  lemma CorrectedTestRejectsSplitLayout(root: string, suffix: string, file: string, read: string -> Option<LE.Manifest>)
    requires '/' !in root && '/' !in suffix
    requires suffix != []
    ensures ValidatePackageCorrected(SplitLayout(root, suffix, file), Normalized, read) == Err(ManifestNotFound)
  {
    SplitLayoutShape(root, suffix, file);
    var entries := SplitLayout(root, suffix, file);
    assert ManifestLocation(entries, Normalized, ComponentPacked) == ManifestFilename;
    assert entries[0] != ManifestFilename by {
      assert |entries[0]| > |ManifestFilename|;
    }
    assert entries[1] != ManifestFilename by {
      assert entries[1][|root + suffix|] == '/';
      assert '/' !in ManifestFilename;
    }
  }

  /** The instance named in the findings: `ext/package.json` next to
      `ext-assets/logo.png`. */
  lemma ExtAssetsLayout(read: string -> Option<LE.Manifest>)
    requires read("ext/package.json").Some? && Truthy(read("ext/package.json").value.main)
    ensures SplitLayout("ext", "-assets", "logo.png") == ["ext/package.json", "ext-assets/logo.png"]
    ensures ValidatePackageAsWritten(["ext/package.json", "ext-assets/logo.png"], Normalized, read).Ok?
    ensures ValidatePackageCorrected(["ext/package.json", "ext-assets/logo.png"], Normalized, read) == Err(ManifestNotFound)
  {
    assert "ext" + "/" + ManifestFilename == "ext/package.json";
    assert ("ext" + "-assets") + "/" + "logo.png" == "ext-assets/logo.png";
    PrefixTestAcceptsSplitLayout("ext", "-assets", "logo.png", read);
    CorrectedTestRejectsSplitLayout("ext", "-assets", "logo.png", read);
  }
}
