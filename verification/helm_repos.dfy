/** The pure parts of `HelmRepoManager`: parsing `helm env` output, building
    the `helm repo add` arguments, reading the repository config, and the
    derived repository list. Running `helm`, reading files and parsing YAML
    are parameters or left out. */
module HelmRepos {
  import opened Wrappers
  import Text
  import OM = OrderedMaps

  /** `HelmRepo`; every field but `name` and `url` is optional. */
  datatype HelmRepo = HelmRepo(
    name: string,
    url: string,
    cacheFilePath: Option<string>,
    caFile: Option<string>,
    certFile: Option<string>,
    insecureSkipTlsVerify: Option<bool>,
    keyFile: Option<string>,
    username: Option<string>,
    password: Option<string>)

  /** JavaScript truthiness of an optional string. */
  predicate Truthy(s: Option<string>) {
    s.Some? && s.value != ""
  }

  // ---------------------------------------------------------------- helm env

  /** `output.split(/\r?\n/)`: split at line feeds, dropping a carriage return
      just before a line feed (so not at the end of the output). */
  function Lines(output: string): (r: seq<string>)
    ensures |r| == |Text.Split(output, '\n')|
    ensures forall i :: 0 <= i < |r| ==> '\n' !in r[i]
    ensures var pieces := Text.Split(output, '\n');
            forall i :: 0 <= i < |r| - 1 ==> r[i] == DropCR(pieces[i])
    ensures r[|r| - 1] == Text.Split(output, '\n')[|r| - 1]
  {
    var pieces := Text.Split(output, '\n');
    seq(|pieces|, i requires 0 <= i < |pieces| => if i < |pieces| - 1 then DropCR(pieces[i]) else pieces[i])
  }

  /** A piece before a line feed without the carriage return that ends it,
      if one does. */
  function DropCR(piece: string): (r: string)
    ensures r + "\r" == piece || (r == piece && (piece == [] || piece[|piece| - 1] != '\r'))
    ensures r == piece[..|r|]
  {
    if piece != [] && piece[|piece| - 1] == '\r' then piece[..|piece| - 1] else piece
  }

  /** `const [key, value] = line.split("=")`: the first two pieces; a line
      without "=" has no value. */
  function KeyValue(line: string): (r: (string, Option<string>))
    ensures '=' !in r.0
    ensures r.1.Some? ==> '=' !in r.1.value
    ensures r.1.None? <==> '=' !in line
    ensures r.1.Some? ==> Text.StartsWith(line, r.0 + "=" + r.1.value)
  {
    var parts := Text.Split(line, '=');
    Text.SplitHead(line, '=');
    Text.FirstIndexAbsent(line, '=');
    if |parts| == 1 then
      (parts[0], None)
    else
      SplitSecond(line);
      (parts[0], Some(parts[1]))
  }

  /** The first two pieces of a split are the text up to the second
      separator. */
  lemma SplitSecond(line: string)
    requires |Text.Split(line, '=')| > 1
    ensures var parts := Text.Split(line, '=');
            Text.StartsWith(line, parts[0] + "=" + parts[1])
  {
    var parts := Text.Split(line, '=');
    Text.SplitHead(line, '=');
    var i := Text.FirstIndex(line, '=');
    Text.FirstIndexAbsent(line, '=');
    assert i < |line|;
    var tail := line[i + 1..];
    assert line == parts[0] + "=" + tail;
    Text.FirstIndexAfter(parts[0], '=', tail);
    assert Text.Split(line, '=')[1..] == Text.Split(tail, '=');
    Text.SplitHead(tail, '=');
    assert parts[1] == tail[..Text.FirstIndex(tail, '=')];
  }

  /** The entry a line stores, if `key && value`: the value with every `"`
      removed. */
  function LineEntry(line: string): (r: Option<(string, string)>)
    ensures r.Some? <==> KeyValue(line).0 != "" && KeyValue(line).1.Some? && KeyValue(line).1.value != ""
    ensures r.Some? ==> r.value == (KeyValue(line).0, Text.RemoveChar(KeyValue(line).1.value, '"'))
    ensures r.Some? ==> '"' !in r.value.1 && '=' !in r.value.0
  {
    var (key, value) := KeyValue(line);
    if key != "" && value.Some? && value.value != "" then Some((key, Text.RemoveChar(value.value, '"'))) else None
  }

  /** The entries of all lines, in order. */
  function Entries(lines: seq<string>): (r: seq<(string, string)>)
    ensures |r| <= |lines|
    decreases |lines|
  {
    if lines == [] then []
    else (if LineEntry(lines[0]).Some? then [LineEntry(lines[0]).value] else []) + Entries(lines[1..])
  }

  /** The entries are exactly those of the lines that store one. */
  lemma {:induction false} EntriesMembers(lines: seq<string>)
    ensures forall e :: e in Entries(lines) <==> exists i :: 0 <= i < |lines| && LineEntry(lines[i]) == Some(e)
    decreases |lines|
  {
    if lines != [] {
      EntriesMembers(lines[1..]);
      assert forall i :: 0 <= i < |lines| - 1 ==> lines[1..][i] == lines[i + 1];
    }
  }

  /** The entries of consecutive stretches of lines follow each other. */
  lemma {:induction false} EntriesAppend(a: seq<string>, b: seq<string>)
    ensures Entries(a + b) == Entries(a) + Entries(b)
    decreases |a|
  {
    if a != [] {
      var x := a[0];
      var rest := a[1..];
      assert a == [x] + rest;
      assert a + b == [x] + (rest + b);
      EntriesCons(x, rest + b);
      EntriesCons(x, rest);
      EntriesAppend(rest, b);
    } else {
      assert a + b == b;
    }
  }

  /** The entries of a line followed by more lines. */
  lemma EntriesCons(x: string, rest: seq<string>)
    ensures Entries([x] + rest) == (if LineEntry(x).Some? then [LineEntry(x).value] else []) + Entries(rest)
  {
    assert ([x] + rest)[0] == x;
    assert ([x] + rest)[1..] == rest;
  }

  /** Line `i` stores key `k`, and no later line does. */
  predicate LastLineFor(lines: seq<string>, i: int, k: string) {
    && 0 <= i < |lines| && LineEntry(lines[i]).Some? && LineEntry(lines[i]).value.0 == k
    && forall j :: i < j < |lines| ==> LineEntry(lines[j]).None? || LineEntry(lines[j]).value.0 != k
  }

  /** The last entry for a key comes from the last line that stores it. */
  lemma {:induction false} EntriesLastLine(lines: seq<string>, k: string)
    ensures var last := OM.LastValue(Entries(lines), k);
            last.Some? ==> exists i :: LastLineFor(lines, i, k) && LineEntry(lines[i]).value.1 == last.value
    decreases |lines|
  {
    if lines != [] {
      var init := lines[..|lines| - 1];
      var x := lines[|lines| - 1];
      assert lines == init + [x];
      var tail := if LineEntry(x).Some? then [LineEntry(x).value] else [];
      EntriesAppend(init, [x]);
      assert Entries([x]) == tail;
      if LineEntry(x).Some? && LineEntry(x).value.0 == k {
        assert LastLineFor(lines, |lines| - 1, k);
      } else {
        LastValueOther(Entries(init), tail, k);
        EntriesLastLine(init, k);
        var last := OM.LastValue(Entries(init), k);
        if last.Some? {
          var i :| LastLineFor(init, i, k) && LineEntry(init[i]).value.1 == last.value;
          LastLineExtends(init, x, i, k);
        }
      }
    }
  }

  /** A line that does not store `k` keeps the last line for `k` last. */
  lemma LastLineExtends(init: seq<string>, x: string, i: int, k: string)
    requires LastLineFor(init, i, k)
    requires LineEntry(x).None? || LineEntry(x).value.0 != k
    ensures LastLineFor(init + [x], i, k)
  {
    assert forall j :: 0 <= j < |init| ==> (init + [x])[j] == init[j];
  }

  /** Appending at most one entry for another key keeps the last value. */
  lemma LastValueOther(es: seq<(string, string)>, tail: seq<(string, string)>, k: string)
    requires |tail| <= 1 && forall j :: 0 <= j < |tail| ==> tail[j].0 != k
    ensures OM.LastValue(es + tail, k) == OM.LastValue(es, k)
  {
    if tail != [] {
      assert (es + tail)[..|es|] == es;
    } else {
      assert es + tail == es;
    }
  }

  /** A set key holds the value of the last line that stores it. */
  lemma ParseHelmEnvLastLine(output: string, k: string)
    ensures k in ParseHelmEnv(output) ==>
              exists i :: LastLineFor(Lines(output), i, k) && ParseHelmEnv(output)[k] == LineEntry(Lines(output)[i]).value.1
  {
    ParseHelmEnvLastLineWins(output, k);
    EntriesLastLine(Lines(output), k);
  }

  /** `lines.forEach(line => { ... env[key] = value ... })`: later lines
      overwrite earlier ones. */
  function Store(env: map<string, string>, es: seq<(string, string)>): (r: map<string, string>)
    decreases |es|
  {
    if es == [] then env else Store(env[es[0].0 := es[0].1], es[1..])
  }

  /** `parseHelmEnv()` on the output of `helm env`. */
  function ParseHelmEnv(output: string): (r: map<string, string>)
  {
    Store(map[], Entries(Lines(output)))
  }

  /** Storing entries gives every key its last value and keeps the other
      keys. */
  lemma {:induction false} StoreLastWins(env: map<string, string>, es: seq<(string, string)>, k: string)
    ensures OM.LastValue(es, k).Some? ==> k in Store(env, es) && Store(env, es)[k] == OM.LastValue(es, k).value
    ensures OM.LastValue(es, k).None? ==> (k in Store(env, es) <==> k in env)
    ensures OM.LastValue(es, k).None? && k in env ==> Store(env, es)[k] == env[k]
    decreases |es|
  {
    if es != [] {
      StoreLastWins(env[es[0].0 := es[0].1], es[1..], k);
      OM.LastValueCons(es, k);
    }
  }

  /** A key is set exactly when some line stores it, and then to the value of
      the last such line, with its quotes removed. */
  lemma ParseHelmEnvLastLineWins(output: string, k: string)
    ensures k in ParseHelmEnv(output) <==> exists i :: 0 <= i < |Lines(output)| && LineEntry(Lines(output)[i]).Some?
                                                       && LineEntry(Lines(output)[i]).value.0 == k
    ensures var last := OM.LastValue(Entries(Lines(output)), k);
            last.Some? ==> k in ParseHelmEnv(output) && ParseHelmEnv(output)[k] == last.value && '"' !in last.value
    ensures OM.LastValue(Entries(Lines(output)), k).None? ==> k !in ParseHelmEnv(output)
  {
    var lines := Lines(output);
    var es := Entries(lines);
    EntriesMembers(lines);
    StoreLastWins(map[], es, k);
    if OM.LastValue(es, k).Some? {
      var j :| 0 <= j < |es| && es[j] == (k, OM.LastValue(es, k).value);
      assert es[j] in es;
      var i :| 0 <= i < |lines| && LineEntry(lines[i]) == Some(es[j]);
    } else {
      forall i | 0 <= i < |lines| && LineEntry(lines[i]).Some?
        ensures LineEntry(lines[i]).value.0 != k
      {
        var e := LineEntry(lines[i]).value;
        assert e in es;
        var j :| 0 <= j < |es| && es[j] == e;
      }
    }
  }

  /** The pieces of `a=b` split at "=" are `a` followed by the pieces of `b`,
      when `a` has no "=". */
  lemma SplitAtFirst(a: string, b: string)
    requires '=' !in a
    ensures Text.Split(a + "=" + b, '=') == [a] + Text.Split(b, '=')
  {
    var s := a + "=" + b;
    Text.FirstIndexAfter(a, '=', b);
    assert s[..|a|] == a;
    assert s[|a| + 1..] == b;
  }

  /** A line `key=value=more` stores `key` with the quote-free `value`: the
      text after the second "=" is dropped. */
  lemma LineEntryDropsAfterSecondEquals(key: string, value: string, more: string)
    requires '=' !in key && '=' !in value
    requires key != "" && value != ""
    ensures LineEntry(key + "=" + value + "=" + more) == Some((key, Text.RemoveChar(value, '"')))
  {
    var line := key + "=" + value + "=" + more;
    KeyValueOfTwo(key, value, more);
    assert KeyValue(line) == (key, Some(value));
  }

  lemma KeyValueOfTwo(key: string, value: string, more: string)
    requires '=' !in key && '=' !in value
    ensures KeyValue(key + "=" + value + "=" + more) == (key, Some(value))
  {
    var line := key + "=" + (value + "=" + more);
    assert line == key + "=" + value + "=" + more;
    SplitAtFirst(key, value + "=" + more);
    SplitAtFirst(value, more);
    var parts := Text.Split(line, '=');
    assert parts == [key] + ([value] + Text.Split(more, '='));
    assert |parts| > 1 && parts[0] == key && parts[1] == value;
  }

  /** A line `key=value` without a second "=" stores the quote-free value. */
  lemma LineEntryOfPair(key: string, value: string)
    requires '=' !in key && '=' !in value
    requires key != "" && value != ""
    ensures LineEntry(key + "=" + value) == Some((key, Text.RemoveChar(value, '"')))
  {
    SplitAtFirst(key, value);
    Text.FirstIndexAbsent(value, '=');
    Text.SplitHead(value, '=');
  }

  /** Lines with an empty key or an empty value, or without "=", store
      nothing. */
  lemma LineEntryIgnored(key: string, more: string)
    requires '=' !in key
    ensures LineEntry(key).None?
    ensures LineEntry(key + "=").None?
    ensures LineEntry("=" + more).None?
  {
    Text.FirstIndexAbsent(key, '=');
    SplitAtFirst(key, "");
    Text.FirstIndexAbsent("", '=');
    SplitAtFirst("", more);
    assert "" + "=" + more == "=" + more;
  }

  // ---------------------------------------------------------------- repo add

  function FlagIf(present: bool, flag: string): (r: seq<string>)
    ensures present ==> r == [flag]
    ensures !present ==> r == []
  {
    if present then [flag] else []
  }

  function OptionArg(flag: string, value: Option<string>): (r: seq<string>)
    ensures Truthy(value) ==> r == [flag, value.value]
    ensures !Truthy(value) ==> r == []
  {
    if Truthy(value) then [flag, value.value] else []
  }

  /** The options `addRepo` passes as `flag value` pairs, in the order it
      checks them. */
  const CredentialFlags: seq<string> := ["--username", "--password", "--ca-file", "--key-file", "--cert-file"]

  function CredentialValues(repo: HelmRepo): (r: seq<Option<string>>)
    ensures |r| == |CredentialFlags|
  {
    [repo.username, repo.password, repo.caFile, repo.keyFile, repo.certFile]
  }

  /** The `flag value` pairs of the truthy values, in order. */
  function CredentialArgs(flags: seq<string>, values: seq<Option<string>>): (r: seq<string>)
    requires |flags| == |values|
    ensures r == [] || r[0] in flags
    decreases |flags|
  {
    if flags == [] then []
    else
      var rest := CredentialArgs(flags[1..], values[1..]);
      assert rest == [] || rest[0] in flags;
      OptionArg(flags[0], values[0]) + rest
  }

  /** The flags after `repo add <name> <url>`: the insecure switch, then
      the credential pairs. */
  function AddRepoFlags(repo: HelmRepo): (r: seq<string>)
    ensures (repo.insecureSkipTlsVerify == Some(true)) <==> r != [] && r[0] == "--insecure-skip-tls-verify"
    ensures repo.insecureSkipTlsVerify == Some(true) ==> r[1..] == CredentialArgs(CredentialFlags, CredentialValues(repo))
    ensures repo.insecureSkipTlsVerify != Some(true) ==> r == CredentialArgs(CredentialFlags, CredentialValues(repo))
  {
    var creds := CredentialArgs(CredentialFlags, CredentialValues(repo));
    InsecureIsNoCredentialFlag();
    FlagIf(repo.insecureSkipTlsVerify == Some(true), "--insecure-skip-tls-verify") + creds
  }

  lemma InsecureIsNoCredentialFlag()
    ensures "--insecure-skip-tls-verify" !in CredentialFlags
  {
  }

  /** The arguments `addRepo(repo)` passes to `helm`. */
  function AddRepoArgs(repo: HelmRepo): (r: seq<string>)
    ensures |r| >= 4 && r[..4] == ["repo", "add", repo.name, repo.url]
    ensures r[4..] == AddRepoFlags(repo)
  {
    ["repo", "add", repo.name, repo.url] + AddRepoFlags(repo)
  }

  /** What `helm repo add` learns from the arguments: falsy options are not
      passed at all. */
  datatype AddOptions = AddOptions(name: string, url: string, insecure: bool, credentials: seq<Option<string>>)

  function Passed(value: Option<string>): Option<string> {
    if Truthy(value) then value else None
  }

  function AllPassed(values: seq<Option<string>>): (r: seq<Option<string>>)
    ensures |r| == |values|
    ensures forall i :: 0 <= i < |values| ==> r[i] == Passed(values[i])
  {
    seq(|values|, i requires 0 <= i < |values| => Passed(values[i]))
  }

  function OptionsOf(repo: HelmRepo): AddOptions {
    AddOptions(repo.name, repo.url, repo.insecureSkipTlsVerify == Some(true), AllPassed(CredentialValues(repo)))
  }

  /** Reads an optional `flag value` pair at the front of `args`. */
  function TakeOption(args: seq<string>, flag: string): (r: (Option<string>, seq<string>))
    ensures |r.1| <= |args|
  {
    if |args| >= 2 && args[0] == flag then (Some(args[1]), args[2..]) else (None, args)
  }

  /** Reads the optional pairs back, one flag after another. */
  function ParseCredentials(args: seq<string>, flags: seq<string>): (r: Option<seq<Option<string>>>)
    ensures r.Some? ==> |r.value| == |flags|
    decreases |flags|
  {
    if flags == [] then (if args == [] then Some([]) else None)
    else
      var (v, rest) := TakeOption(args, flags[0]);
      match ParseCredentials(rest, flags[1..])
      case None => None
      case Some(vs) => Some([v] + vs)
  }

  /** Reads the arguments back in the order `addRepo` writes them. */
  function ParseAddRepoArgs(args: seq<string>): (r: Option<AddOptions>)
  {
    ParseAddRepoArgsWith(args, CredentialFlags)
  }

  /** The same, for any list of credential flags. */
  function ParseAddRepoArgsWith(args: seq<string>, flags: seq<string>): (r: Option<AddOptions>)
  {
    if |args| < 4 || args[0] != "repo" || args[1] != "add" then None
    else
      var rest := args[4..];
      var insecure := rest != [] && rest[0] == "--insecure-skip-tls-verify";
      match ParseCredentials(if insecure then rest[1..] else rest, flags)
      case None => None
      case Some(creds) => Some(AddOptions(args[2], args[3], insecure, creds))
  }

  /** Reading one optional pair back off arguments that start with it. */
  lemma TakeOptionArg(flag: string, value: Option<string>, more: seq<string>)
    requires more == [] || more[0] != flag
    ensures TakeOption(OptionArg(flag, value) + more, flag) == (Passed(value), more)
  {
    var args := OptionArg(flag, value) + more;
    if Truthy(value) {
      assert args[0] == flag && args[1] == value.value;
      assert args[2..] == more;
    } else {
      assert args == more;
    }
  }

  /** Reading the pairs back gives each truthy value in its own slot and
      nothing for falsy ones, as long as the flags differ. */
  lemma {:induction false} CredentialsRoundTrip(flags: seq<string>, values: seq<Option<string>>)
    requires |flags| == |values|
    requires forall i, j :: 0 <= i < j < |flags| ==> flags[i] != flags[j]
    ensures ParseCredentials(CredentialArgs(flags, values), flags) == Some(AllPassed(values))
    decreases |flags|
  {
    if flags != [] {
      var rest := CredentialArgs(flags[1..], values[1..]);
      assert flags[0] !in flags[1..];
      TakeOptionArg(flags[0], values[0], rest);
      CredentialsRoundTrip(flags[1..], values[1..]);
      assert [Passed(values[0])] + AllPassed(values[1..]) == AllPassed(values);
    }
  }

  /** Reading the arguments back gives exactly the options that were passed:
      every truthy option, in its own slot, and nothing for falsy ones. */
  lemma AddRepoArgsRoundTrip(repo: HelmRepo)
    ensures ParseAddRepoArgs(AddRepoArgs(repo)) == Some(OptionsOf(repo))
  {
    var insecure := repo.insecureSkipTlsVerify == Some(true);
    var creds := CredentialArgs(CredentialFlags, CredentialValues(repo));
    var passed := AllPassed(CredentialValues(repo));
    CredentialFlagsDistinct();
    CredentialsRoundTrip(CredentialFlags, CredentialValues(repo));
    InsecureIsNoCredentialFlag();
    assert AddRepoFlags(repo) == FlagIf(insecure, "--insecure-skip-tls-verify") + creds;
    ParseAddRepoArgsOf(repo.name, repo.url, insecure, creds, CredentialFlags, passed);
  }

  /** Reading back `repo add <name> <url>`, the optional insecure switch and
      credential pairs that parse to `passed`. */
  lemma ParseAddRepoArgsOf(name: string, url: string, insecure: bool, creds: seq<string>, flags: seq<string>, passed: seq<Option<string>>)
    requires creds == [] || creds[0] != "--insecure-skip-tls-verify"
    requires ParseCredentials(creds, flags) == Some(passed)
    ensures ParseAddRepoArgsWith(["repo", "add", name, url] + (FlagIf(insecure, "--insecure-skip-tls-verify") + creds), flags)
            == Some(AddOptions(name, url, insecure, passed))
  {
    var args := ["repo", "add", name, url] + (FlagIf(insecure, "--insecure-skip-tls-verify") + creds);
    var rest := args[4..];
    assert rest == FlagIf(insecure, "--insecure-skip-tls-verify") + creds;
    assert args[2] == name && args[3] == url;
    if insecure {
      assert rest[0] == "--insecure-skip-tls-verify" && rest[1..] == creds;
    } else {
      assert rest == creds;
      assert !(rest != [] && rest[0] == "--insecure-skip-tls-verify");
    }
  }

  lemma CredentialFlagsDistinct()
    ensures forall i, j :: 0 <= i < j < |CredentialFlags| ==> CredentialFlags[i] != CredentialFlags[j]
  {
  }

  // ---------------------------------------------------------- repositories

  /** The outcome of `readFile` and `yaml.load` on the repository config. */
  datatype Config =
    | Unreadable                                        // `readFile` or `yaml.load` throws
    | ConfigObject(repositories: Option<seq<HelmRepo>>) // an object; its `repositories` may be missing
    | NotAnObject                                       // `null` or a scalar

  /** `list()`: the `repositories` of the config, `undefined` (written
      `None`) when the object has none, and `[]` when the config cannot be
      read or is not an object. */
  function List(config: Config): (r: Option<seq<HelmRepo>>)
    ensures !config.ConfigObject? ==> r == Some([])
    ensures config.ConfigObject? ==> r == config.repositories
  {
    match config
    case ConfigObject(repos) => repos
    case _ => Some([])
  }

  /** `${this.helmEnv.HELM_REPOSITORY_CACHE}/${repo.name}-index.yaml`; an
      unset variable prints as "undefined". */
  function CacheFilePath(env: map<string, string>, name: string): (r: string)
    ensures "HELM_REPOSITORY_CACHE" in env ==> r == env["HELM_REPOSITORY_CACHE"] + "/" + name + "-index.yaml"
    ensures "HELM_REPOSITORY_CACHE" !in env ==> r == "undefined/" + name + "-index.yaml"
  {
    var cache := if "HELM_REPOSITORY_CACHE" in env then env["HELM_REPOSITORY_CACHE"] else "undefined";
    cache + "/" + name + "-index.yaml"
  }

  /** `repositories()`: after initialisation, the listed repositories with
      their cache paths; any failure (initialisation, or a list that is
      `undefined`) is logged and gives `[]`. */
  function Repositories(initialized: bool, env: map<string, string>, config: Config): (r: seq<HelmRepo>)
    ensures !initialized || List(config).None? ==> r == []
    ensures initialized && List(config).Some? ==>
              && |r| == |List(config).value|
              && forall i :: 0 <= i < |r| ==> r[i] == List(config).value[i].(cacheFilePath := Some(CacheFilePath(env, r[i].name)))
  {
    if !initialized then []
    else match List(config)
      case None => []
      case Some(repos) =>
        seq(|repos|, i requires 0 <= i < |repos| => repos[i].(cacheFilePath := Some(CacheFilePath(env, repos[i].name))))
  }

  /** `repos.find(repo => repo.name === name)`. */
  function FindByName(repos: seq<HelmRepo>, name: string): (r: Option<HelmRepo>)
    ensures r.None? <==> forall i :: 0 <= i < |repos| ==> repos[i].name != name
    ensures r.Some? ==> exists i :: && 0 <= i < |repos| && repos[i] == r.value && repos[i].name == name
                                    && forall j :: 0 <= j < i ==> repos[j].name != name
    decreases |repos|
  {
    if repos == [] then None
    else if repos[0].name == name then Some(repos[0])
    else
      var r := FindByName(repos[1..], name);
      assert forall i :: 1 <= i < |repos| ==> repos[i] == repos[1..][i - 1];
      if r.Some? then
        var i :| && 0 <= i < |repos[1..]| && repos[1..][i] == r.value && repos[1..][i].name == name
                 && forall j :: 0 <= j < i ==> repos[1..][j].name != name;
        assert repos[i + 1] == r.value;
        r
      else r
  }

  /** `repo(name)`: the first repository of `repositories()` with that name.
      There is one exactly when the manager is initialised and the listed
      configuration holds a repository of that name; it is the first such
      listed repository, carrying its cache path. */
  function Repo(initialized: bool, env: map<string, string>, config: Config, name: string): (r: Option<HelmRepo>)
    ensures r.Some? ==> r.value.name == name && r.value.cacheFilePath == Some(CacheFilePath(env, name))
    ensures !initialized ==> r.None?
    ensures r.Some? <==> initialized && List(config).Some? && Listed(List(config).value, name)
    ensures r.Some? ==> exists i :: && 0 <= i < |List(config).value| && List(config).value[i].name == name
                                    && r.value == List(config).value[i].(cacheFilePath := Some(CacheFilePath(env, name)))
                                    && forall j :: 0 <= j < i ==> List(config).value[j].name != name
  {
    var rs := Repositories(initialized, env, config);
    var r := FindByName(rs, name);
    if initialized && List(config).Some? then
      var repos := List(config).value;
      assert forall i :: 0 <= i < |rs| ==> rs[i].name == repos[i].name;
      if r.Some? then
        var i :| && 0 <= i < |rs| && rs[i] == r.value && rs[i].name == name
                 && forall j :: 0 <= j < i ==> rs[j].name != name;
        assert repos[i].name == name;
        r
      else r
    else r
  }

  /** Some repository in `repos` is named `name`. */
  predicate Listed(repos: seq<HelmRepo>, name: string)
  {
    exists i :: 0 <= i < |repos| && repos[i].name == name
  }
}
