/**
 * The model registry side of guild/model.py: model definitions contributed
 * by installed packages (found through their RECORD manifest) or by a
 * modelfile found on the search path, first-match lookup of a definition by
 * name, the entry map of a modelfile distribution, the lazily named `Model`
 * wrapper, the public-model filter and the search-path update.
 */
module GuildModel {
  import opened Wrappers
  import opened Strings
  import Paths
  import Utf8
  import ModelNames

  datatype ResourceDef = ResourceDef(name: string)

  datatype ModelDef = ModelDef(name: string, private: bool, resources: seq<ResourceDef>)

  /** A parsed modelfile: its source path and its definitions in declaration order. */
  datatype Modelfile = Modelfile(src: string, models: seq<ModelDef>)

  /**
   * The collaborators the module calls but does not define. Each is a
   * plain function of its inputs; `None` stands for the exception the
   * collaborator raises.
   */
  datatype Env = Env(
    modelfileNames: seq<string>,                  // modelfile.NAMES
    loadFile: string -> Option<seq<ModelDef>>,    // modelfile.from_file
    relDirOf: string -> string,                   // os.path.relpath(os.path.dirname(src))
    absPath: string -> string,                    // os.path.abspath
    readFile: string -> Option<seq<Utf8.byte>>,   // open(path, "rb").read()
    md5Hex: seq<Utf8.byte> -> string)             // hashlib.md5(bytes).hexdigest()

  datatype ModelError =
    | ValueError(message: string)
    | TypeError(message: string)

  /** A log record the source writes with `logging.warning`. */
  datatype Warning =
    | MissingRecord(location: string)
    | LoadFailed(path: string)

  // ---------------------------------------------------------------------
  // Distributions

  /** A distribution known to pkg_resources. Only `_modeldefs` is ever assigned. */
  class PackageDist {
    const projectName: string
    const location: string
    const record: Option<seq<string>>   // get_metadata_lines("RECORD"); None when it raises IOError
    const display: string               // str(dist)
    var modeldefs: Option<seq<ModelDef>>

    constructor (projectName: string, location: string, record: Option<seq<string>>, display: string)
      ensures this.projectName == projectName && this.location == location
      ensures this.record == record && this.display == display
      ensures modeldefs == None
    {
      this.projectName := projectName;
      this.location := location;
      this.record := record;
      this.display := display;
      modeldefs := None;
    }
  }

  datatype EntryPoint = EntryPoint(name: string, moduleName: string, attr: string, distName: string)

  /** Entry-point group name to the entry points of that group, keyed by name. */
  type EntryMap = map<string, map<string, EntryPoint>>

  /** `ModelfileDistribution`: a distribution made from one modelfile. */
  datatype ModelfileDist = ModelfileDist(modelfile: Modelfile, projectName: string, location: string, entryMap: EntryMap)

  datatype Dist =
    | Package(pkg: PackageDist)
    | File(file: ModelfileDist)

  function ProjectName(dist: Dist): string
  {
    match dist
    case Package(p) => p.projectName
    case File(f) => f.projectName
  }

  // ---------------------------------------------------------------------
  // First-match lookup

  /** Index of the first definition named `name`, or `|defs|` when none is. */
  function FirstNamed(defs: seq<ModelDef>, name: string): (i: nat)
    ensures i <= |defs|
    ensures i < |defs| ==> defs[i].name == name
    ensures forall j :: 0 <= j < i ==> defs[j].name != name
  {
    if defs == [] then 0
    else if defs[0].name == name then 0
    else 1 + FirstNamed(defs[1..], name)
  }

  /** The index that the scan of `_modeldef_for_dist` stops at is `FirstNamed`. */
  lemma FirstNamedIs(defs: seq<ModelDef>, name: string, i: nat)
    requires i <= |defs|
    requires i < |defs| ==> defs[i].name == name
    requires forall j :: 0 <= j < i ==> defs[j].name != name
    ensures FirstNamed(defs, name) == i
  {
  }

  /** `ModelfileDistribution.get_model`. */
  function GetModel(dist: ModelfileDist, name: string): (r: Result<ModelDef, ModelError>)
    ensures r.Ok? ==> r.value in dist.modelfile.models && r.value.name == name
    ensures r.Ok? ==> r.value == dist.modelfile.models[FirstNamed(dist.modelfile.models, name)]
    ensures r.Err? <==> forall d :: d in dist.modelfile.models ==> d.name != name
    ensures r.Err? ==> r.error == ValueError(name)
  {
    var models := dist.modelfile.models;
    var i := FirstNamed(models, name);
    if i < |models| then Ok(models[i]) else Err(ValueError(name))
  }

  // ---------------------------------------------------------------------
  // Definitions of a package distribution

  /** The path field of a RECORD line: `line.split(",", 1)[0]`. */
  function ManifestPath(line: string): string
  {
    line[..IndexOfChar(line, ',')]
  }

  predicate IsModelfileLine(env: Env, line: string)
  {
    Paths.Basename(ManifestPath(line)) in env.modelfileNames
  }

  /** What `_try_acc_modeldefs` adds for `path`: the file's definitions, or nothing when loading fails. */
  function LoadedModeldefs(env: Env, path: string): seq<ModelDef>
  {
    match env.loadFile(path)
    case None => []
    case Some(models) => models
  }

  function LineModeldefs(env: Env, location: string, line: string): seq<ModelDef>
  {
    if IsModelfileLine(env, line) then LoadedModeldefs(env, Paths.Join(location, ManifestPath(line))) else []
  }

  function RecordModeldefs(env: Env, location: string, lines: seq<string>): seq<ModelDef>
  {
    if lines == [] then []
    else RecordModeldefs(env, location, lines[..|lines| - 1]) + LineModeldefs(env, location, lines[|lines| - 1])
  }

  function LineWarnings(env: Env, location: string, line: string): seq<Warning>
  {
    var path := Paths.Join(location, ManifestPath(line));
    if IsModelfileLine(env, line) && env.loadFile(path).None? then [LoadFailed(path)] else []
  }

  function RecordWarnings(env: Env, location: string, lines: seq<string>): seq<Warning>
  {
    if lines == [] then []
    else RecordWarnings(env, location, lines[..|lines| - 1]) + LineWarnings(env, location, lines[|lines| - 1])
  }

  /** The definitions `_load_dist_modeldefs` returns for a distribution. */
  function DistModeldefs(env: Env, location: string, record: Option<seq<string>>): seq<ModelDef>
  {
    match record
    case None => []
    case Some(lines) => RecordModeldefs(env, location, lines)
  }

  /** `_try_acc_modeldefs`: appends the definitions loaded from `path` to the accumulator. */
  method TryAccModeldefs(env: Env, path: string, acc: seq<ModelDef>) returns (acc': seq<ModelDef>, warnings: seq<Warning>)
    ensures acc' == acc + LoadedModeldefs(env, path)
    ensures warnings == if env.loadFile(path).None? then [LoadFailed(path)] else []
  {
    acc' := acc;
    match env.loadFile(path)
    case None =>
      warnings := [LoadFailed(path)];
    case Some(models) =>
      for i := 0 to |models|
        invariant acc' == acc + models[..i]
      {
        acc' := acc' + [models[i]];
      }
      warnings := [];
  }

  /** `_load_dist_modeldefs`: scans RECORD in order and accumulates the definitions of every modelfile it lists. */
  method LoadDistModeldefs(env: Env, dist: PackageDist) returns (defs: seq<ModelDef>, warnings: seq<Warning>)
    ensures defs == DistModeldefs(env, dist.location, dist.record)
    ensures dist.record.None? ==> warnings == [MissingRecord(dist.location)]
    ensures dist.record.Some? ==> warnings == RecordWarnings(env, dist.location, dist.record.value)
  {
    defs := [];
    match dist.record
    case None =>
      warnings := [MissingRecord(dist.location)];
    case Some(lines) =>
      warnings := [];
      for i := 0 to |lines|
        invariant defs == RecordModeldefs(env, dist.location, lines[..i])
        invariant warnings == RecordWarnings(env, dist.location, lines[..i])
      {
        var line := lines[i];
        var path := ManifestPath(line);
        assert lines[..i + 1][..i] == lines[..i];
        if Paths.Basename(path) in env.modelfileNames {
          var more;
          defs, more := TryAccModeldefs(env, Paths.Join(dist.location, path), defs);
          warnings := warnings + more;
        }
      }
      assert lines[..|lines|] == lines;
  }

  /** The scan is a concatenation over the manifest: definitions come out in record order. */
  lemma {:induction false} RecordModeldefsAppend(env: Env, location: string, a: seq<string>, b: seq<string>)
    ensures RecordModeldefs(env, location, a + b) == RecordModeldefs(env, location, a) + RecordModeldefs(env, location, b)
    decreases |b|
  {
    if b == [] {
      assert a + b == a;
    } else {
      var b', last := b[..|b| - 1], b[|b| - 1];
      assert b == b' + [last];
      assert a + b == (a + b') + [last];
      RecordModeldefsSnoc(env, location, a + b', last);
      RecordModeldefsSnoc(env, location, b', last);
      RecordModeldefsAppend(env, location, a, b');
      ConcatAssoc(RecordModeldefs(env, location, a), RecordModeldefs(env, location, b'), LineModeldefs(env, location, last));
    }
  }

  /** One more manifest line adds its own definitions at the end. */
  lemma RecordModeldefsSnoc(env: Env, location: string, lines: seq<string>, line: string)
    ensures RecordModeldefs(env, location, lines + [line]) ==
      RecordModeldefs(env, location, lines) + LineModeldefs(env, location, line)
  {
    assert (lines + [line])[..|lines|] == lines;
  }

  lemma RecordModeldefsSingle(env: Env, location: string, line: string)
    ensures RecordModeldefs(env, location, [line]) == LineModeldefs(env, location, line)
  {
    assert [line][..0] == [];
  }

  /**
   * Line `i` of the manifest contributes exactly its own definitions at its
   * own place: all of the file's definitions when the line names a modelfile
   * that loads, nothing when its basename is not a modelfile name or the file
   * fails to load; the lines after it are scanned all the same.
   */
  lemma RecordModeldefsAt(env: Env, location: string, lines: seq<string>, i: nat)
    requires i < |lines|
    ensures RecordModeldefs(env, location, lines)
         == RecordModeldefs(env, location, lines[..i]) + LineModeldefs(env, location, lines[i]) + RecordModeldefs(env, location, lines[i + 1..])
  {
    var before, line, after := lines[..i], lines[i], lines[i + 1..];
    assert lines == (before + [line]) + after;
    RecordModeldefsAppend(env, location, before + [line], after);
    RecordModeldefsAppend(env, location, before, [line]);
    RecordModeldefsSingle(env, location, line);
    RecordModeldefsAppend(env, location, before, after);
  }

  /** A line that is not a modelfile, or whose modelfile fails to load, can be dropped without changing the result. */
  lemma RecordModeldefsSkip(env: Env, location: string, lines: seq<string>, i: nat)
    requires i < |lines|
    requires !IsModelfileLine(env, lines[i]) || env.loadFile(Paths.Join(location, ManifestPath(lines[i]))).None?
    ensures RecordModeldefs(env, location, lines) == RecordModeldefs(env, location, lines[..i] + lines[i + 1..])
  {
    var before, line, after := lines[..i], lines[i], lines[i + 1..];
    assert LineModeldefs(env, location, line) == [] by {
      if IsModelfileLine(env, line) {
        assert LoadedModeldefs(env, Paths.Join(location, ManifestPath(line))) == [];
      }
    }
    RecordModeldefsAt(env, location, lines, i);
    RecordModeldefsAppend(env, location, before, after);
  }

  /** Every definition found comes from a manifest line whose basename is a modelfile name and whose file loaded. */
  lemma {:induction false} RecordModeldefsOrigin(env: Env, location: string, lines: seq<string>, d: ModelDef)
    requires d in RecordModeldefs(env, location, lines)
    ensures exists i :: (0 <= i < |lines| && IsModelfileLine(env, lines[i])
                         && d in LoadedModeldefs(env, Paths.Join(location, ManifestPath(lines[i]))))
    decreases |lines|
  {
    var n := |lines| - 1;
    var front := lines[..n];
    assert lines == front + [lines[n]];
    RecordModeldefsSnoc(env, location, front, lines[n]);
    if d in RecordModeldefs(env, location, front) {
      RecordModeldefsOrigin(env, location, front, d);
      var i :| 0 <= i < |front| && IsModelfileLine(env, front[i])
        && d in LoadedModeldefs(env, Paths.Join(location, ManifestPath(front[i])));
      assert front[i] == lines[i];
      assert IsModelfileLine(env, lines[i]) && d in LoadedModeldefs(env, Paths.Join(location, ManifestPath(lines[i])));
    } else {
      assert d in LineModeldefs(env, location, lines[n]);
      assert IsModelfileLine(env, lines[n]) && d in LoadedModeldefs(env, Paths.Join(location, ManifestPath(lines[n])));
    }
  }

  /**
   * `_ensure_dist_modeldefs`. The source tests for an attribute named
   * `_modelefs` but stores `_modeldefs`, so the test never succeeds: the
   * definitions are loaded again on every call, whatever was stored before.
   */
  method EnsureDistModeldefs(env: Env, dist: PackageDist) returns (defs: seq<ModelDef>)
    modifies dist
    ensures defs == DistModeldefs(env, dist.location, dist.record)
    ensures dist.modeldefs == Some(defs)
  {
    var warnings;
    defs, warnings := LoadDistModeldefs(env, dist);
    dist.modeldefs := Some(defs);
  }

  /** `_modeldef_for_dist`: the first definition named `name` in the distribution. */
  method ModeldefForDist(env: Env, name: string, dist: Dist) returns (r: Result<ModelDef, ModelError>)
    modifies if dist.Package? then {dist.pkg} else {}
    ensures dist.File? ==> r == GetModel(dist.file, name)
    ensures dist.Package? ==>
      var defs := DistModeldefs(env, dist.pkg.location, dist.pkg.record);
      var i := FirstNamed(defs, name);
      r == if i < |defs| then Ok(defs[i]) else Err(ValueError("undefined model '" + name + "'"))
    ensures dist.Package? ==> dist.pkg.modeldefs == Some(DistModeldefs(env, dist.pkg.location, dist.pkg.record))
  {
    match dist
    case File(f) =>
      r := GetModel(f, name);
    case Package(p) =>
      var defs := EnsureDistModeldefs(env, p);
      for i := 0 to |defs|
        invariant forall j :: 0 <= j < i ==> defs[j].name != name
      {
        if defs[i].name == name {
          FirstNamedIs(defs, name, i);
          r := Ok(defs[i]);
          return;
        }
      }
      FirstNamedIs(defs, name, |defs|);
      r := Err(ValueError("undefined model '" + name + "'"));
  }

  // ---------------------------------------------------------------------
  // Modelfile distributions

  function ModelEntryPoint(name: string, distName: string): EntryPoint
  {
    EntryPoint(name, "guild.model", "Model", distName)
  }

  function ResourceEntryPoint(name: string, distName: string): EntryPoint
  {
    EntryPoint(name, "guild.resource", "Resource", distName)
  }

  /** The "guild.models" comprehension: one entry per model, a later duplicate replacing an earlier one. */
  function ModelEntries(models: seq<ModelDef>, distName: string): map<string, EntryPoint>
  {
    if models == [] then map[]
    else
      var last := models[|models| - 1];
      ModelEntries(models[..|models| - 1], distName)[last.name := ModelEntryPoint(last.name, distName)]
  }

  /** `_iter_resources`: the resources of every model, model by model. */
  function IterResources(models: seq<ModelDef>): (r: seq<ResourceDef>)
    ensures forall x :: x in r ==> exists m :: m in models && x in m.resources
    ensures forall m, x :: m in models && x in m.resources ==> x in r
  {
    if models == [] then [] else models[0].resources + IterResources(models[1..])
  }

  function ResourceEntries(resources: seq<ResourceDef>, distName: string): map<string, EntryPoint>
  {
    if resources == [] then map[]
    else
      var last := resources[|resources| - 1];
      ResourceEntries(resources[..|resources| - 1], distName)[last.name := ResourceEntryPoint(last.name, distName)]
  }

  /**
   * `_modelfile_entry_map`: two groups, "guild.models" keyed by the model
   * names and "guild.resources" keyed by the names of all their resources.
   */
  function ModelfileEntryMap(modelfile: Modelfile, distName: string): (r: EntryMap)
    ensures r.Keys == {"guild.models", "guild.resources"}
    ensures r["guild.models"].Keys == set m | m in modelfile.models :: m.name
    ensures forall k :: k in r["guild.models"] ==> r["guild.models"][k] == ModelEntryPoint(k, distName)
    ensures r["guild.resources"].Keys == set m, x | m in modelfile.models && x in m.resources :: x.name
    ensures forall k :: k in r["guild.resources"] ==> r["guild.resources"][k] == ResourceEntryPoint(k, distName)
  {
    ModelEntriesKeys(modelfile.models, distName);
    ResourceEntriesKeys(IterResources(modelfile.models), distName);
    IterResourceNames(modelfile.models);
    map[
      "guild.models" := ModelEntries(modelfile.models, distName),
      "guild.resources" := ResourceEntries(IterResources(modelfile.models), distName)]
  }

  /** The "guild.models" group has one entry per model name, each an entry point for that name. */
  lemma {:induction false} ModelEntriesKeys(models: seq<ModelDef>, distName: string)
    ensures ModelEntries(models, distName).Keys == set m | m in models :: m.name
    ensures forall k :: k in ModelEntries(models, distName) ==> ModelEntries(models, distName)[k] == ModelEntryPoint(k, distName)
    decreases |models|
  {
    if models != [] {
      var front := models[..|models| - 1];
      ModelEntriesKeys(front, distName);
      var last := models[|models| - 1];
      assert models == front + [last];
      assert forall m :: m in models <==> m in front || m == last;
      assert (set m | m in models :: m.name) == (set m | m in front :: m.name) + {last.name};
    }
  }

  /** The "guild.resources" group has one entry per resource name, each an entry point for that name. */
  lemma {:induction false} ResourceEntriesKeys(resources: seq<ResourceDef>, distName: string)
    ensures ResourceEntries(resources, distName).Keys == set r | r in resources :: r.name
    ensures forall k :: k in ResourceEntries(resources, distName) ==> ResourceEntries(resources, distName)[k] == ResourceEntryPoint(k, distName)
    decreases |resources|
  {
    if resources != [] {
      var front := resources[..|resources| - 1];
      ResourceEntriesKeys(front, distName);
      var last := resources[|resources| - 1];
      assert resources == front + [last];
      assert forall r :: r in resources <==> r in front || r == last;
      assert (set r | r in resources :: r.name) == (set r | r in front :: r.name) + {last.name};
    }
  }

  /**
   * The entry map of a modelfile distribution: `get_entry_map(None)` is the
   * whole map, "guild.models" holds exactly the model names, "guild.resources"
   * exactly the resource names of all models, and any other group is `{}`.
   */
  lemma EntryMapGroups(dist: ModelfileDist, group: string)
    requires ValidModelfileDist(dist)
    ensures GetEntryMap(dist, None) == WholeMap(ModelfileEntryMap(dist.modelfile, dist.projectName))
    ensures GetEntryMap(dist, Some("guild.models")).entries.Keys == set m | m in dist.modelfile.models :: m.name
    ensures GetEntryMap(dist, Some("guild.resources")).entries.Keys
         == set m, r | m in dist.modelfile.models && r in m.resources :: r.name
    ensures group != "guild.models" && group != "guild.resources" ==> GetEntryMap(dist, Some(group)) == GroupMap(map[])
  {
    var models := dist.modelfile.models;
    ModelEntriesKeys(models, dist.projectName);
    ResourceEntriesKeys(IterResources(models), dist.projectName);
    IterResourceNames(models);
  }

  /** The names `_iter_resources` yields are the names of the resources of the models. */
  lemma IterResourceNames(models: seq<ModelDef>)
    ensures (set r | r in IterResources(models) :: r.name) == set m, r | m in models && r in m.resources :: r.name
  {
  }

  /** `ModelfileDistribution.__init__`: located at the modelfile, named by its directory. */
  function NewModelfileDist(env: Env, modelfile: Modelfile): (dist: ModelfileDist)
    requires env.relDirOf(modelfile.src) != ""
    ensures ValidModelfileDist(dist)
    ensures dist.modelfile == modelfile && dist.location == modelfile.src
    ensures ModelNames.IsProjectNameMember(dist.projectName)
         == Ok((ModelNames.Yes, Some(ModelNames.PackagePath(env.relDirOf(modelfile.src)))))
  {
    var projectName := ModelNames.ModelfileProjectName(env.relDirOf(modelfile.src));
    ModelNames.MemberOfModelfileProjectName(env.relDirOf(modelfile.src));
    ModelfileDist(modelfile, projectName, modelfile.src, ModelfileEntryMap(modelfile, projectName))
  }

  ghost predicate ValidModelfileDist(dist: ModelfileDist)
  {
    dist.entryMap == ModelfileEntryMap(dist.modelfile, dist.projectName)
  }

  datatype EntryMapView =
    | WholeMap(groups: EntryMap)
    | GroupMap(entries: map<string, EntryPoint>)

  /** `ModelfileDistribution.get_entry_map`: the whole map, or one group with `{}` for an unknown group. */
  function GetEntryMap(dist: ModelfileDist, group: Option<string>): (r: EntryMapView)
    ensures group.None? ==> r == WholeMap(dist.entryMap)
    ensures group.Some? && group.value in dist.entryMap ==> r == GroupMap(dist.entryMap[group.value])
    ensures group.Some? && group.value !in dist.entryMap ==> r == GroupMap(map[])
  {
    match group
    case None => WholeMap(dist.entryMap)
    case Some(g) => GroupMap(if g in dist.entryMap then dist.entryMap[g] else map[])
  }

  // ---------------------------------------------------------------------
  // The Model wrapper

  class Model {
    const name: string
    const dist: Dist
    const modeldef: ModelDef
    var fullnameCache: Option<string>   // `_fullname`, None until first asked for

    constructor (name: string, dist: Dist, modeldef: ModelDef)
      ensures this.name == name && this.dist == dist && this.modeldef == modeldef
      ensures fullnameCache == None
    {
      this.name := name;
      this.dist := dist;
      this.modeldef := modeldef;
      fullnameCache := None;
    }

    /**
     * `Model.fullname`: the namespaced project name, '/', and the model
     * name, computed on first access and returned unchanged afterwards.
     * `applyNamespace` is `namespace.apply_namespace` as it is at the call.
     */
    method Fullname(applyNamespace: string -> string) returns (r: string)
      modifies this
      ensures old(fullnameCache).Some? ==> r == old(fullnameCache).value
      ensures old(fullnameCache).None? ==> r == applyNamespace(ProjectName(dist)) + "/" + name
      ensures fullnameCache == Some(r)
    {
      if fullnameCache.None? {
        fullnameCache := Some(applyNamespace(ProjectName(dist)) + "/" + name);
      }
      r := fullnameCache.value;
    }

    /** `Model.reference`: where the model comes from, with a digest of its modelfile. */
    function Reference(env: Env): (r: string)
      ensures dist.Package? ==> r == "dist:" + dist.pkg.display + " " + name
      ensures dist.File? ==> StartsWith(r, "file:" + env.absPath(dist.file.modelfile.src) + " ")
      ensures dist.File? ==>
        var path := env.absPath(dist.file.modelfile.src);
        r == "file:" + path + " " + ModelfileHash(env, path) + " " + name
      ensures EndsWith(r, " " + name)
    {
      match dist
      case Package(p) => "dist:" + p.display + " " + name
      case File(f) => "file:" + ModelfileDistRef(env, f.modelfile) + " " + name
    }
  }

  /** `Model.__init__`: fails when the distribution has no definition of that name. */
  method NewModel(env: Env, name: string, dist: Dist) returns (r: Result<Model, ModelError>)
    modifies if dist.Package? then {dist.pkg} else {}
    ensures r.Ok? ==> fresh(r.value) && r.value.name == name && r.value.dist == dist
    ensures r.Ok? ==> r.value.modeldef.name == name && r.value.fullnameCache == None
    ensures dist.File? ==> (r.Err? <==> GetModel(dist.file, name).Err?)
    ensures dist.File? && r.Ok? ==> r.value.modeldef == GetModel(dist.file, name).value
    ensures dist.File? && r.Err? ==> r.error == ValueError(name)
    ensures dist.Package? ==>
      var defs := DistModeldefs(env, dist.pkg.location, dist.pkg.record);
      && (r.Err? <==> FirstNamed(defs, name) == |defs|)
      && (r.Ok? ==> r.value.modeldef == defs[FirstNamed(defs, name)])
      && (r.Err? ==> r.error == ValueError("undefined model '" + name + "'"))
      && dist.pkg.modeldefs == Some(defs)
  {
    var def := ModeldefForDist(env, name, dist);
    match def
    case Err(e) =>
      r := Err(e);
    case Ok(d) =>
      var m := new Model(name, dist, d);
      r := Ok(m);
  }

  /** `_modelfile_hash`: the MD5 digest of the file, or "-" when it cannot be read. */
  function ModelfileHash(env: Env, path: string): (r: string)
    ensures env.readFile(path).None? ==> r == "-"
    ensures env.readFile(path).Some? ==> r == env.md5Hex(env.readFile(path).value)
  {
    match env.readFile(path)
    case None => "-"
    case Some(bytes) => env.md5Hex(bytes)
  }

  /** `_modelfile_dist_ref`: the absolute path of the modelfile, a space, and its digest. */
  function ModelfileDistRef(env: Env, modelfile: Modelfile): (r: string)
    ensures var path := env.absPath(modelfile.src);
      StartsWith(r, path + " ") && r[|path| + 1..] == ModelfileHash(env, path)
  {
    var path := env.absPath(modelfile.src);
    var r := path + " " + ModelfileHash(env, path);
    assert r[..|path| + 1] == path + " ";
    r
  }

  // ---------------------------------------------------------------------
  // Iteration and the search path

  predicate IsSubsequence<T(==)>(a: seq<T>, b: seq<T>)
  {
    a == [] || (b != [] && if a[0] == b[0] then IsSubsequence(a[1..], b[1..]) else IsSubsequence(a, b[1..]))
  }

  /** `iter_models` (and its twin `iter_`): the registry's models whose definitions are not private, in order. */
  function IterModels(entries: seq<(string, Model)>): (r: seq<Model>)
    ensures forall m :: m in r ==> !m.modeldef.private
    ensures forall i :: 0 <= i < |entries| && !entries[i].1.modeldef.private ==> entries[i].1 in r
    ensures IsSubsequence(r, seq(|entries|, i requires 0 <= i < |entries| => entries[i].1))
  {
    if entries == [] then []
    else
      var rest := IterModels(entries[1..]);
      var m := entries[0].1;
      assert seq(|entries| - 1, i requires 0 <= i < |entries| - 1 => entries[1..][i].1)
          == seq(|entries|, i requires 0 <= i < |entries| => entries[i].1)[1..];
      if m.modeldef.private then rest else [m] + rest
  }

  /** The filter works entry by entry: a split registry filters to the two filtered halves. */
  lemma {:induction false} IterModelsAppend(a: seq<(string, Model)>, b: seq<(string, Model)>)
    ensures IterModels(a + b) == IterModels(a) + IterModels(b)
  {
    if a == [] {
      assert a + b == b;
    } else {
      assert (a + b)[1..] == a[1..] + b;
      IterModelsAppend(a[1..], b);
    }
  }

  /**
   * One entry gives its model when the definition is public and nothing
   * otherwise; with IterModelsAppend this makes the result exactly the
   * public entries' models in registry order, each as often as it is listed.
   */
  lemma IterModelsSingle(e: (string, Model))
    ensures IterModels([e]) == if e.1.modeldef.private then [] else [e.1]
  {
    assert [e][1..] == [];
  }

  /** The search path of the `_models` registry, the only part of it this module updates. */
  class ModelRegistry {
    var path: seq<string>

    constructor (path: seq<string>)
      ensures this.path == path
    {
      this.path := path;
    }

    /** `set_path`. */
    method SetPath(path: seq<string>)
      modifies this
      ensures this.path == path
    {
      this.path := path;
    }

    /** `add_model_path`: removes the first occurrence of `modelPath`, if any, and puts it in front. */
    method AddModelPath(modelPath: string)
      modifies this
      ensures path == [modelPath] + RemoveFirst(old(path), modelPath)
    {
      var p := path;
      var i := IndexOf(p, modelPath);
      if i < |p| {
        RemoveFirstAt(p, modelPath, i);
        p := p[..i] + p[i + 1..];
      } else {
        RemoveFirstAbsent(p, modelPath);
      }
      p := [modelPath] + p;
      SetPath(p);
    }
  }

  /** The index of the first `x` in `s`, or `|s|`. */
  function Find<T(==)>(s: seq<T>, x: T): (i: nat)
    ensures i <= |s|
    ensures i < |s| ==> s[i] == x
    ensures x !in s[..i]
  {
    if s == [] then 0
    else if s[0] == x then 0
    else
      var i := Find(s[1..], x);
      assert s[..i + 1] == [s[0]] + s[1..][..i];
      1 + i
  }

  /** The scan of `list.remove`. */
  method IndexOf<T(==)>(s: seq<T>, x: T) returns (i: nat)
    ensures i == Find(s, x)
  {
    i := 0;
    while i < |s| && s[i] != x
      invariant i <= |s|
      invariant x !in s[..i]
    {
      i := i + 1;
    }
  }

  /** `list.remove(x)` that ignores the `ValueError` of a missing `x`. */
  function RemoveFirst<T(==)>(s: seq<T>, x: T): seq<T>
  {
    if s == [] then []
    else if s[0] == x then s[1..]
    else [s[0]] + RemoveFirst(s[1..], x)
  }

  lemma {:induction false} RemoveFirstAbsent<T>(s: seq<T>, x: T)
    requires x !in s
    ensures RemoveFirst(s, x) == s
  {
    if s != [] {
      RemoveFirstAbsent(s[1..], x);
    }
  }

  /** Only the first occurrence goes; everything before and after it stays, in order. */
  lemma {:induction false} RemoveFirstAt<T>(s: seq<T>, x: T, i: nat)
    requires i < |s| && s[i] == x && x !in s[..i]
    ensures RemoveFirst(s, x) == s[..i] + s[i + 1..]
  {
    if i > 0 {
      assert s[0] in s[..i];
      assert s[1..][..i - 1] == s[1..i];
      RemoveFirstAt(s[1..], x, i - 1);
      assert s[..i] == [s[0]] + s[1..i];
    }
  }

  /**
   * After `add_model_path(m)`: `m` leads the path; when `m` was present its
   * first occurrence has moved to the front and every other entry keeps its
   * place relative to the others; when it was absent the old path follows it.
   */
  lemma {:induction false} AddModelPathEffect(old_path: seq<string>, m: string)
    ensures var p := [m] + RemoveFirst(old_path, m);
      && p[0] == m
      && (m !in old_path ==> p == [m] + old_path)
      && (m in old_path ==> multiset(p) == multiset(old_path))
      && (m in old_path ==> exists i :: 0 <= i < |old_path| && old_path[i] == m && m !in old_path[..i]
                                 && p == [m] + old_path[..i] + old_path[i + 1..])
  {
    if m !in old_path {
      RemoveFirstAbsent(old_path, m);
    } else {
      var i := Find(old_path, m);
      RemoveFirstAt(old_path, m, i);
      var before, after := old_path[..i], old_path[i + 1..];
      var p := [m] + RemoveFirst(old_path, m);
      assert p == [m] + before + after;
      assert old_path == before + [m] + after;
      calc {
        multiset(p);
        multiset([m]) + multiset(before) + multiset(after);
        multiset(before) + multiset([m]) + multiset(after);
        multiset(old_path);
      }
      assert 0 <= i < |old_path| && old_path[i] == m && m !in old_path[..i] && p == [m] + before + after;
    }
  }

  /** `ModelImporter.__init__` accepts a directory whose listing holds one of the modelfile names. */
  function ImporterAccepts(names: seq<string>, isDir: bool, listing: seq<string>): (ok: bool)
    ensures ok <==> isDir && exists n :: n in names && n in listing
  {
    isDir && HasListedName(names, listing)
  }

  function HasListedName(names: seq<string>, listing: seq<string>): (found: bool)
    ensures found <==> exists n :: n in names && n in listing
  {
    if names == [] then false
    else if names[0] in listing then true
    else
      assert forall n :: n in names[1..] ==> n in names;
      HasListedName(names[1..], listing)
  }

  /** `ModelfileNamespace.pip_install_info`: modelfiles cannot be installed. */
  function PipInstallInfo(name: string): (r: Result<(), ModelError>)
    ensures r.Err? && r.error.TypeError?
  {
    Err(TypeError("modelfiles cannot be installed using pip"))
  }
}
