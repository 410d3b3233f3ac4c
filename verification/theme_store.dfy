/** `ThemeStore`: the bundled themes and the computed values derived from the
    active theme ids. The theme files' contents are parameters; applying a
    theme to the document is left out. */
module ThemeStore {
  import opened Wrappers
  import OM = OrderedMaps

  type ThemeId = string

  datatype ThemeType = Dark | Light

  datatype Theme = Theme(
    name: string,
    themeType: ThemeType,
    colors: map<string, string>,
    terminalColors: map<string, string>,
    description: string,
    author: string)

  /** The theme used when the active id is unknown. */
  const DefaultTheme: ThemeId := "lens-dark"

  /** The private `themes` map: nothing in the store adds or removes a
      theme after construction. */
  datatype Store = Store(themes: OM.OrderedMap<ThemeId, Theme>) {
    ghost predicate Valid() {
      themes.Valid() && DefaultTheme in themes.items
    }
  }

  /** The store as constructed, from the two bundled theme files. */
  function Init(lensDark: Theme, lensLight: Theme): (r: Store)
    ensures r.Valid()
    ensures r.themes.keys == ["lens-dark", "lens-light"]
    ensures r.themes.items == map["lens-dark" := lensDark, "lens-light" := lensLight]
  {
    Store(OM.Set(OM.Set(OM.Empty(), "lens-dark", lensDark), "lens-light", lensLight))
  }

  /** `activeTheme`: the active id's theme, falling back to the default
      theme; `undefined` only when both are missing. */
  function ActiveTheme(s: Store, activeThemeId: ThemeId): (r: Option<Theme>)
    ensures activeThemeId in s.themes.items ==> r == Some(s.themes.items[activeThemeId])
    ensures activeThemeId !in s.themes.items && DefaultTheme in s.themes.items ==> r == Some(s.themes.items[DefaultTheme])
    ensures r.None? <==> activeThemeId !in s.themes.items && DefaultTheme !in s.themes.items
  {
    if activeThemeId in s.themes.items then Some(s.themes.items[activeThemeId])
    else if DefaultTheme in s.themes.items then Some(s.themes.items[DefaultTheme])
    else None
  }

  /** `terminalColors`: the terminal theme's colours if that id is known,
      else the active theme's; `None` where reading `.terminalColors` of
      `undefined` would throw. */
  function TerminalColors(s: Store, activeThemeId: ThemeId, terminalThemeId: ThemeId): (r: Option<map<string, string>>)
    ensures terminalThemeId in s.themes.items ==> r == Some(s.themes.items[terminalThemeId].terminalColors)
    ensures terminalThemeId !in s.themes.items && ActiveTheme(s, activeThemeId).Some? ==>
              r == Some(ActiveTheme(s, activeThemeId).value.terminalColors)
    ensures r.None? <==> terminalThemeId !in s.themes.items && ActiveTheme(s, activeThemeId).None?
  {
    if terminalThemeId in s.themes.items then Some(s.themes.items[terminalThemeId].terminalColors)
    else match ActiveTheme(s, activeThemeId)
      case Some(t) => Some(t.terminalColors)
      case None => None
  }

  /** A `{ label, value }` option of the theme picker (`label` is a keyword
      here). */
  datatype ThemeOption = ThemeOption(labelText: string, value: ThemeId)

  /** `themeOptions`: one option per theme, in the map's order. */
  function ThemeOptions(s: Store): (r: seq<ThemeOption>)
    requires s.themes.Valid()
    ensures |r| == |s.themes.keys|
    ensures forall i :: 0 <= i < |r| ==> r[i].value == s.themes.keys[i] && r[i].labelText == s.themes.items[s.themes.keys[i]].name
  {
    var ks := s.themes.keys;
    seq(|ks|, i requires 0 <= i < |ks| => ThemeOption(s.themes.items[ks[i]].name, ks[i]))
  }

  /** In a store as constructed, the active theme and the terminal colours
      are always defined, whatever ids the settings hold. */
  lemma AlwaysDefined(s: Store, activeThemeId: ThemeId, terminalThemeId: ThemeId)
    requires s.Valid()
    ensures ActiveTheme(s, activeThemeId).Some?
    ensures TerminalColors(s, activeThemeId, terminalThemeId).Some?
  {
  }

  /** The picker offers exactly the known themes, each once, labelled with
      its name; and an id the picker offers is shown as itself. */
  lemma {:induction false} ThemeOptionsMatchThemes(s: Store, id: ThemeId)
    requires s.themes.Valid()
    ensures (exists i :: 0 <= i < |ThemeOptions(s)| && ThemeOptions(s)[i].value == id) <==> id in s.themes.items
    ensures forall i, j :: 0 <= i < j < |ThemeOptions(s)| ==> ThemeOptions(s)[i].value != ThemeOptions(s)[j].value
    ensures id in s.themes.items ==> ActiveTheme(s, id) == Some(s.themes.items[id])
  {
    var opts := ThemeOptions(s);
    if id in s.themes.items {
      var i :| 0 <= i < |s.themes.keys| && s.themes.keys[i] == id;
      assert opts[i].value == id;
    }
  }
}
