/** `ResourceStack`: applies or deletes the Kubernetes resources rendered
    from a folder of (optionally Handlebars) YAML files, labelling every
    resource with the stack's name. The directory listing, file reading,
    Handlebars, the YAML loader and `kubectl` are parameters. */
module ResourceStack {
  import opened Wrappers
  import Text
  import SeqUtil

  /** What `kubectl apply`/`delete` answers. */
  datatype Response = Response(stdout: string, stderr: string)

  datatype StackError =
    | KubectlFailed(stderr: string)   // `new Error(response.stderr)`
    | ArgsUndefined                   // `undefined.includes(...)`: a `TypeError`
    | MetadataNull                    // `null.labels`: a `TypeError`

  /** Which helper the stack hands its resources to: `kubectlApplyAll` or
      `kubectlDeleteAll`. */
  datatype Verb = ApplyAll | DeleteAll

  /** What a call hands to `kubectl` and what it resolves or rejects with. */
  datatype Call = Call(verb: Verb, args: seq<string>, result: Result<string, StackError>)

  /** What the `kubectl` helpers answer for a verb and its arguments. */
  type Kubectl = (Verb, seq<string>) -> Response

  /** `appendKubectlArgs(args)`: select the stack's resources by label unless
      the caller already passes a label selector. */
  function AppendKubectlArgs(args: seq<string>, name: string): (r: seq<string>)
    ensures ("-l" in args || "--label" in args) ==> r == args
    ensures !("-l" in args || "--label" in args) ==> r == args + ["-l", "app.kubernetes.io/name=" + name]
    ensures r[..|args|] == args
    ensures "-l" in r || "--label" in r
  {
    if "-l" !in args && "--label" !in args then args + ["-l", "app.kubernetes.io/name=" + name] else args
  }

  /** Appending twice is appending once. */
  lemma AppendKubectlArgsIdempotent(args: seq<string>, name: string)
    ensures AppendKubectlArgs(AppendKubectlArgs(args, name), name) == AppendKubectlArgs(args, name)
  {
  }

  /** `if (response.stderr) throw new Error(response.stderr); return response.stdout`. */
  function Settle(response: Response): (r: Result<string, StackError>)
    ensures r.Ok? <==> response.stderr == ""
    ensures r.Ok? ==> r.value == response.stdout
    ensures r.Err? ==> r.error == KubectlFailed(response.stderr)
  {
    if response.stderr != "" then Err(KubectlFailed(response.stderr)) else Ok(response.stdout)
  }

  /** The shared part of `applyResources` and `deleteResources` once the
      arguments are defined: label them, hand them over, settle the answer. */
  function Run(verb: Verb, name: string, args: seq<string>, kubectl: Kubectl): (r: Call)
    ensures r.verb == verb
    ensures r.args == AppendKubectlArgs(args, name)
    ensures r.result.Ok? <==> kubectl(verb, r.args).stderr == ""
    ensures r.result.Ok? ==> r.result.value == kubectl(verb, r.args).stdout
    ensures r.result.Err? ==> r.result.error == KubectlFailed(kubectl(verb, r.args).stderr)
  {
    var args' := AppendKubectlArgs(args, name);
    Call(verb, args', Settle(kubectl(verb, args')))
  }

  /** `applyResources(resources, extraArgs = [])`. */
  function ApplyResources(name: string, extraArgs: Option<seq<string>>, kubectl: Kubectl): (r: Call)
    ensures r.verb == ApplyAll
    ensures extraArgs.None? ==> r.args == ["-l", "app.kubernetes.io/name=" + name]
    ensures extraArgs.Some? ==> |extraArgs.value| <= |r.args| && r.args[..|extraArgs.value|] == extraArgs.value
    ensures "-l" in r.args || "--label" in r.args
    ensures r.args == AppendKubectlArgs(extraArgs.GetOr([]), name)
    ensures r.result.Ok? <==> kubectl(ApplyAll, r.args).stderr == ""
    ensures r.result.Ok? ==> r.result.value == kubectl(ApplyAll, r.args).stdout
    ensures r.result.Err? ==> r.result.error == KubectlFailed(kubectl(ApplyAll, r.args).stderr)
  {
    Run(ApplyAll, name, extraArgs.GetOr([]), kubectl)
  }

  /** `deleteResources(resources, extraArgs?)` as written: without a default,
      an omitted `extraArgs` reaches `kubectlArgs.includes` as `undefined` and
      the call throws before `kubectl` runs. */
  function DeleteResourcesAsWritten(name: string, extraArgs: Option<seq<string>>, kubectl: Kubectl): (r: Call)
    ensures r.verb == DeleteAll
    ensures extraArgs.None? ==> r.args == [] && r.result == Err(ArgsUndefined)
    ensures extraArgs.Some? ==> && |extraArgs.value| <= |r.args| && r.args[..|extraArgs.value|] == extraArgs.value
                                && ("-l" in r.args || "--label" in r.args)
                                && (r.result.Ok? <==> kubectl(DeleteAll, r.args).stderr == "")
    ensures extraArgs.Some? ==> r.args == AppendKubectlArgs(extraArgs.value, name)
    ensures extraArgs.Some? && r.result.Ok? ==> r.result.value == kubectl(DeleteAll, r.args).stdout
    ensures extraArgs.Some? && r.result.Err? ==> r.result.error == KubectlFailed(kubectl(DeleteAll, r.args).stderr)
  {
    match extraArgs
    case None => Call(DeleteAll, [], Err(ArgsUndefined))
    case Some(args) => Run(DeleteAll, name, args, kubectl)
  }

  /** `deleteResources` with the same `[]` default as `applyResources`. */
  function DeleteResources(name: string, extraArgs: Option<seq<string>>, kubectl: Kubectl): (r: Call)
    ensures r.verb == DeleteAll
    ensures extraArgs.None? ==> r.args == ["-l", "app.kubernetes.io/name=" + name]
    ensures extraArgs.Some? ==> |extraArgs.value| <= |r.args| && r.args[..|extraArgs.value|] == extraArgs.value
    ensures "-l" in r.args || "--label" in r.args
    ensures r.args == AppendKubectlArgs(extraArgs.GetOr([]), name)
    ensures r.result.Ok? <==> kubectl(DeleteAll, r.args).stderr == ""
    ensures r.result.Ok? ==> r.result.value == kubectl(DeleteAll, r.args).stdout
    ensures r.result.Err? ==> r.result.error == KubectlFailed(kubectl(DeleteAll, r.args).stderr)
  {
    Run(DeleteAll, name, extraArgs.GetOr([]), kubectl)
  }

  /** `kubectlDeleteFolder(folder)` without `extraArgs` always fails as
      written, whatever `kubectl` would answer, while the corrected delete,
      like `kubectlApplyFolder`, selects the stack's resources by label. */
  lemma DeleteWithoutArgsFails(name: string, kubectl: Kubectl)
    ensures DeleteResourcesAsWritten(name, None, kubectl).result == Err(ArgsUndefined)
    ensures DeleteResources(name, None, kubectl).args == ApplyResources(name, None, kubectl).args
    ensures kubectl(DeleteAll, ["-l", "app.kubernetes.io/name=" + name]).stderr == "" ==>
              DeleteResources(name, None, kubectl).result.Ok?
  {
  }

  /** The corrected delete agrees with the code as written wherever the
      written code does not throw, and both hand `kubectl` the same
      arguments `applyResources` would. */
  lemma DeleteCorrectedAgrees(name: string, extraArgs: Option<seq<string>>, kubectl: Kubectl)
    requires extraArgs.Some?
    ensures DeleteResources(name, extraArgs, kubectl) == DeleteResourcesAsWritten(name, extraArgs, kubectl)
    ensures DeleteResources(name, extraArgs, kubectl).args == ApplyResources(name, extraArgs, kubectl).args
  {
  }

  /** The `metadata` of a loaded document. `typeof null` is "object", so a
      null `metadata` passes the test and then fails on `.labels`. */
  datatype Metadata =
    | MetaObject(labels: Option<map<string, string>>, fields: map<string, string>)
    | MetaNull
    | MetaNotObject

  /** A document `yaml.loadAll` yields. */
  datatype Doc =
    | Resource(metadata: Metadata, fields: map<string, string>)
    | NullDoc
    | Scalar(text: string)

  /** A directory entry. */
  datatype DirEntry = DirEntry(name: string, isFile: bool)

  /** The three labels a stack puts on its resources. */
  function StackLabels(labels: map<string, string>, name: string, productName: string): (r: map<string, string>)
    ensures r.Keys == labels.Keys + {"app.kubernetes.io/name", "app.kubernetes.io/managed-by", "app.kubernetes.io/created-by"}
    ensures r["app.kubernetes.io/name"] == name
    ensures r["app.kubernetes.io/managed-by"] == productName
    ensures r["app.kubernetes.io/created-by"] == "resource-stack"
    ensures forall k :: k in labels && k !in {"app.kubernetes.io/name", "app.kubernetes.io/managed-by", "app.kubernetes.io/created-by"} ==> r[k] == labels[k]
  {
    labels["app.kubernetes.io/name" := name]["app.kubernetes.io/managed-by" := productName]["app.kubernetes.io/created-by" := "resource-stack"]
  }

  /** The body of the inner loop for one document that is an object. */
  function Label(doc: Doc, name: string, productName: string): (r: Result<Doc, StackError>)
    requires doc.Resource?
    ensures doc.metadata.MetaNull? <==> r.Err?
    ensures r.Err? ==> r.error == MetadataNull
    ensures doc.metadata.MetaNotObject? ==> r == Ok(doc)
    ensures doc.metadata.MetaObject? ==>
              && r.Ok? && r.value.Resource? && r.value.fields == doc.fields
              && r.value.metadata.MetaObject?
              && r.value.metadata.fields == doc.metadata.fields
              && r.value.metadata.labels == Some(StackLabels(doc.metadata.labels.GetOr(map[]), name, productName))
  {
    match doc.metadata
    case MetaNull => Err(MetadataNull)
    case MetaNotObject => Ok(doc)
    case MetaObject(labels, fields) =>
      Ok(doc.(metadata := MetaObject(Some(StackLabels(labels.GetOr(map[]), name, productName)), fields)))
  }

  /** Labelling an already labelled document changes nothing. */
  lemma LabelIdempotent(doc: Doc, name: string, productName: string)
    requires doc.Resource? && Label(doc, name, productName).Ok?
    ensures Label(Label(doc, name, productName).value, name, productName) == Label(doc, name, productName)
  {
    if doc.metadata.MetaObject? {
      var ls := StackLabels(doc.metadata.labels.GetOr(map[]), name, productName);
      assert StackLabels(ls, name, productName) == ls;
    }
  }

  /** The inner loop over the documents of one file: documents that are not
      objects are skipped, and the i-th output is the i-th object labelled. */
  function LabelAll(docs: seq<Doc>, name: string, productName: string): (r: Result<seq<Doc>, StackError>)
    ensures r.Err? <==> exists i :: 0 <= i < |docs| && docs[i].Resource? && docs[i].metadata.MetaNull?
    ensures r.Err? ==> r.error == MetadataNull
    ensures r.Ok? ==> |r.value| == |SeqUtil.Filter(docs, (d: Doc) => d.Resource?)|
    ensures r.Ok? ==> forall i :: 0 <= i < |r.value| ==> r.value[i].Resource?
    decreases |docs|
  {
    if docs == [] then Ok([])
    else
      var rest := docs[1..];
      assert docs == [docs[0]] + rest;
      assert forall i :: 0 <= i < |rest| ==> rest[i] == docs[i + 1];
      SeqUtil.FilterAppend([docs[0]], rest, (d: Doc) => d.Resource?);
      var tail := LabelAll(rest, name, productName);
      if !docs[0].Resource? then tail
      else
        match Label(docs[0], name, productName)
        case Err(e) => Err(e)
        case Ok(d) =>
          match tail
          case Err(e) =>
            var i :| 0 <= i < |rest| && rest[i].Resource? && rest[i].metadata.MetaNull?;
            assert docs[i + 1] == rest[i];
            Err(e)
          case Ok(ds) => Ok([d] + ds)
  }

  /** The documents of one file that are objects. */
  function Objects(docs: seq<Doc>): (r: seq<Doc>)
    ensures forall i :: 0 <= i < |r| ==> r[i].Resource?
  {
    SeqUtil.Filter(docs, (d: Doc) => d.Resource?)
  }

  /** The i-th document `LabelAll` gives is the i-th object of the file,
      labelled. */
  lemma {:induction false} LabelAllLabelsObjects(docs: seq<Doc>, name: string, productName: string)
    requires LabelAll(docs, name, productName).Ok?
    ensures var r := LabelAll(docs, name, productName).value;
            |r| == |Objects(docs)| && forall i :: 0 <= i < |r| ==> Label(Objects(docs)[i], name, productName) == Ok(r[i])
    decreases |docs|
  {
    if docs != [] {
      var rest := docs[1..];
      LabelAllLabelsObjects(rest, name, productName);
      var r := LabelAll(docs, name, productName).value;
      var rt := LabelAll(rest, name, productName).value;
      if docs[0].Resource? {
        assert Objects(docs) == [docs[0]] + Objects(rest);
        var d := Label(docs[0], name, productName).value;
        assert r == [d] + rt;
        forall i | 0 <= i < |r|
          ensures Label(Objects(docs)[i], name, productName) == Ok(r[i])
        {
          if i > 0 {
            assert Objects(docs)[i] == Objects(rest)[i - 1] && r[i] == rt[i - 1];
          }
        }
      } else {
        assert Objects(docs) == Objects(rest);
        assert r == rt;
      }
    }
  }

  /** `entry.name.endsWith(".hb")`. */
  predicate IsTemplate(fileName: string) {
    |fileName| >= 3 && fileName[|fileName| - 3..] == ".hb"
  }

  /** The text of one file: the Handlebars output for a `.hb` file, the
      raw contents otherwise. */
  function RawText(folder: string, e: DirEntry, read: string -> string, compile: string -> string): string
  {
    var raw := read(folder + "/" + e.name);
    if IsTemplate(e.name) then compile(raw) else raw
  }

  /** The text of one file after `trim()`: the piece of the raw text left
      once leading and trailing whitespace is cut off, empty exactly when
      the raw text is all whitespace. */
  function FileData(folder: string, e: DirEntry, read: string -> string, compile: string -> string): (r: string)
    ensures var raw := RawText(folder, e, read, compile);
            && (r == [] || (!Text.IsSpace(r[0]) && !Text.IsSpace(r[|r| - 1])))
            && (r == [] <==> forall i :: 0 <= i < |raw| ==> Text.IsSpace(raw[i]))
            && exists a :: Text.CutFrom(raw, a, r)
  {
    Text.TrimSpec(RawText(folder, e, read, compile));
    Text.Trim(RawText(folder, e, read, compile))
  }

  /** The documents one entry contributes before labelling: none for a
      directory or a file that is all whitespace, otherwise what the loader
      makes of the trimmed text. */
  function EntryDocs(folder: string, e: DirEntry, read: string -> string, compile: string -> string, load: string -> seq<Doc>): (r: seq<Doc>)
    ensures !e.isFile ==> r == []
    ensures var raw := RawText(folder, e, read, compile);
            e.isFile && (forall i :: 0 <= i < |raw| ==> Text.IsSpace(raw[i])) ==> r == []
    ensures var raw := RawText(folder, e, read, compile);
            e.isFile && (exists i :: 0 <= i < |raw| && !Text.IsSpace(raw[i])) ==> r == load(FileData(folder, e, read, compile))
  {
    if !e.isFile then []
    else
      var data := FileData(folder, e, read, compile);
      if data == "" then [] else load(data)
  }

  /** What labelling one entry's documents gives. */
  function EntryResult(folder: string, e: DirEntry, read: string -> string, compile: string -> string,
                       load: string -> seq<Doc>, name: string, productName: string): Result<seq<Doc>, StackError>
  {
    LabelAll(EntryDocs(folder, e, read, compile, load), name, productName)
  }

  /** The labelled documents of each entry, `[]` for an entry that fails. */
  function EntryValues(folder: string, entries: seq<DirEntry>, read: string -> string, compile: string -> string,
                       load: string -> seq<Doc>, name: string, productName: string): (r: seq<seq<Doc>>)
    ensures |r| == |entries|
    decreases |entries|
  {
    if entries == [] then []
    else
      var first := EntryResult(folder, entries[0], read, compile, load, name, productName);
      [if first.Ok? then first.value else []] + EntryValues(folder, entries[1..], read, compile, load, name, productName)
  }

  /** `renderTemplates(folderPath, templateContext)`: the labelled resources
      of every file, in directory order; it fails exactly when labelling
      some entry's documents fails. */
  function RenderTemplates(folder: string, entries: seq<DirEntry>, read: string -> string, compile: string -> string,
                           load: string -> seq<Doc>, name: string, productName: string): (r: Result<seq<Doc>, StackError>)
    ensures r.Ok? ==> forall i :: 0 <= i < |r.value| ==> r.value[i].Resource?
    ensures entries == [] ==> r == Ok([])
    decreases |entries|
  {
    if entries == [] then Ok([])
    else
      match EntryResult(folder, entries[0], read, compile, load, name, productName)
      case Err(e) => Err(e)
      case Ok(ds) =>
        match RenderTemplates(folder, entries[1..], read, compile, load, name, productName)
        case Err(e) => Err(e)
        case Ok(rest) => Ok(ds + rest)
  }

  /** Rendering fails exactly when labelling some entry's documents fails,
      and otherwise gives each entry's labelled documents in directory
      order, one entry after the other. */
  lemma {:induction false} RenderTemplatesConcat(folder: string, entries: seq<DirEntry>, read: string -> string,
                                                 compile: string -> string, load: string -> seq<Doc>, name: string, productName: string)
    ensures var r := RenderTemplates(folder, entries, read, compile, load, name, productName);
            r.Err? <==> exists i :: 0 <= i < |entries| && EntryResult(folder, entries[i], read, compile, load, name, productName).Err?
    ensures var r := RenderTemplates(folder, entries, read, compile, load, name, productName);
            r.Ok? ==> r.value == SeqUtil.Concat(EntryValues(folder, entries, read, compile, load, name, productName))
    decreases |entries|
  {
    if entries != [] {
      var tail := entries[1..];
      RenderTemplatesConcat(folder, tail, read, compile, load, name, productName);
      var values := EntryValues(folder, entries, read, compile, load, name, productName);
      assert values[1..] == EntryValues(folder, tail, read, compile, load, name, productName);
      var first := EntryResult(folder, entries[0], read, compile, load, name, productName);
      var rest := RenderTemplates(folder, tail, read, compile, load, name, productName);
      if first.Ok? && rest.Err? {
        var i :| 0 <= i < |tail| && EntryResult(folder, tail[i], read, compile, load, name, productName).Err?;
        assert tail[i] == entries[i + 1];
      }
      if first.Ok? && rest.Ok? {
        forall i | 0 <= i < |entries|
          ensures EntryResult(folder, entries[i], read, compile, load, name, productName).Ok?
        {
          if i > 0 {
            assert entries[i] == tail[i - 1];
          }
        }
      }
    }
  }

  /** A rendered resource whose metadata is an object carries the stack's
      three labels. */
  ghost predicate Labelled(d: Doc, name: string, productName: string) {
    d.Resource? && d.metadata.MetaObject? ==>
      && d.metadata.labels.Some?
      && "app.kubernetes.io/name" in d.metadata.labels.value
      && d.metadata.labels.value["app.kubernetes.io/name"] == name
      && "app.kubernetes.io/managed-by" in d.metadata.labels.value
      && d.metadata.labels.value["app.kubernetes.io/managed-by"] == productName
      && "app.kubernetes.io/created-by" in d.metadata.labels.value
      && d.metadata.labels.value["app.kubernetes.io/created-by"] == "resource-stack"
  }

  /** Every document of one file comes out labelled. */
  lemma {:induction false} LabelAllLabels(docs: seq<Doc>, name: string, productName: string)
    requires LabelAll(docs, name, productName).Ok?
    ensures forall i :: 0 <= i < |LabelAll(docs, name, productName).value| ==>
              Labelled(LabelAll(docs, name, productName).value[i], name, productName)
    decreases |docs|
  {
    if docs != [] {
      LabelAllLabels(docs[1..], name, productName);
    }
  }

  /** Every resource the folder renders to carries the stack's labels. */
  lemma {:induction false} RenderedResourcesLabelled(folder: string, entries: seq<DirEntry>, read: string -> string,
                                                     compile: string -> string, load: string -> seq<Doc>, name: string, productName: string)
    requires RenderTemplates(folder, entries, read, compile, load, name, productName).Ok?
    ensures var r := RenderTemplates(folder, entries, read, compile, load, name, productName).value;
            forall i :: 0 <= i < |r| ==> Labelled(r[i], name, productName)
    decreases |entries|
  {
    if entries != [] {
      LabelAllLabels(EntryDocs(folder, entries[0], read, compile, load), name, productName);
      assert EntryResult(folder, entries[0], read, compile, load, name, productName).Ok?;
      RenderedResourcesLabelled(folder, entries[1..], read, compile, load, name, productName);
    }
  }
}
