/**
  The manifest `lolamod.yml` in the modules directory and the module
  descriptors it lists (`load_modules`), and finding a descriptor by name.
  YAML parsing itself is a parameter: `parse` turns the file's text into
  the shape of document `yaml.safe_load` returns.
*/
module Manifest {

  import opened Wrappers
  import opened Paths
  import opened FileTree

  const ManifestFile: string := "lolamod.yml"

  /** One entry under `lolas`; each field is absent or holds a value of its type. */
  datatype Descriptor = Descriptor(
    name: Option<string>,
    desc: Option<string>,
    description: Option<string>,
    path: Option<string>,
    assets: Option<seq<string>>,
    main: Option<string>)

  /**
    What `yaml.safe_load(f) or {}` gives: a falsy document (empty file,
    `null`, an empty mapping or list, ...), a mapping with or without the
    `lolas` key, or some other truthy value.
  */
  datatype Document = Falsy | Mapping(lolas: Option<seq<Descriptor>>) | NonMapping

  /** Exceptions `load_modules` lets through. */
  datatype LoadFault = ManifestIsDirectory | NotAMapping

  function ManifestPath(modulesDir: Path): Path {
    modulesDir + [ManifestFile]
  }

  /**
    `load_modules`: no manifest file, an empty document or a mapping without
    `lolas` all give no descriptors; otherwise the `lolas` sequence is
    returned unchanged, in manifest order.
  */
  function LoadModules(t: Tree, modulesDir: Path, parse: string -> Document): (r: Result<seq<Descriptor>, LoadFault>)
    ensures ManifestPath(modulesDir) !in t ==> r == Ok([])
    ensures r == Ok([]) <==>
      || ManifestPath(modulesDir) !in t
      || (IsFile(t, ManifestPath(modulesDir)) && parse(t[ManifestPath(modulesDir)].content) in {Falsy, Mapping(None), Mapping(Some([]))})
    ensures r.Ok? && r.value != [] ==>
      IsFile(t, ManifestPath(modulesDir)) && parse(t[ManifestPath(modulesDir)].content) == Mapping(Some(r.value))
    ensures r.Err? <==>
      || IsDir(t, ManifestPath(modulesDir))
      || (IsFile(t, ManifestPath(modulesDir)) && parse(t[ManifestPath(modulesDir)].content) == NonMapping)
  {
    var file := ManifestPath(modulesDir);
    if file !in t then Ok([])
    else match t[file]
      case Dir => Err(ManifestIsDirectory)
      case File(text) =>
        match parse(text)
        case Falsy => Ok([])
        case Mapping(lolas) => Ok(lolas.GetOr([]))
        case NonMapping => Err(NotAMapping)
  }

  /** The index of the first descriptor called `name`, if any. */
  function FirstMatch(modules: seq<Descriptor>, name: string): (r: Option<nat>)
    ensures r.Some? ==> r.value < |modules| && modules[r.value].name == Some(name)
    ensures r.Some? ==> forall j :: 0 <= j < r.value ==> modules[j].name != Some(name)
    ensures r.None? ==> forall j :: 0 <= j < |modules| ==> modules[j].name != Some(name)
  {
    if modules == [] then None
    else if modules[0].name == Some(name) then Some(0)
    else match FirstMatch(modules[1..], name)
      case Some(i) => Some(i + 1)
      case None => None
  }

  /** The descriptor installation resolves `name` to: the first one with that name. */
  function Lookup(modules: seq<Descriptor>, name: string): (r: Option<Descriptor>)
    ensures r.Some? <==> exists i :: 0 <= i < |modules| && modules[i].name == Some(name)
    ensures r.Some? ==> r.value.name == Some(name)
  {
    match FirstMatch(modules, name)
    case Some(i) => Some(modules[i])
    case None => None
  }

  /** Descriptors after the first match never matter: later duplicates are not used. */
  lemma LookupIgnoresLater(modules: seq<Descriptor>, more: seq<Descriptor>, name: string)
    requires Lookup(modules, name).Some?
    ensures Lookup(modules + more, name) == Lookup(modules, name)
  {
    var i := FirstMatch(modules, name).value;
    assert (modules + more)[i] == modules[i];
    var j := FirstMatch(modules + more, name).value;
  }
}
