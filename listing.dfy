/** `lola mod ls`: what is reported for each module in the manifest. */
module Listing {

  import opened Wrappers
  import opened Paths
  import opened FileTree
  import opened Manifest

  /** The lines printed for one module: index, name, description, optional path, asset count. */
  datatype Entry = Entry(index: nat, name: string, description: string, path: Option<string>, assetCount: nat)

  /** The four things `ls` can report. */
  datatype Report =
    | DirectoryMissing
    | LoadFailed(fault: LoadFault)
    | NoModules
    | Found(count: nat, entries: seq<Entry>)

  /**
    The entry for the descriptor shown at `index`, with the defaults filled
    in: the name defaults to "Unnamed"; the description is `desc` when it is
    a non-empty string, else `description`, else "No description"; the path
    is shown only when non-empty; a missing asset list counts as empty.
  */
  function Summary(index: nat, d: Descriptor): (e: Entry)
    ensures e.index == index
    ensures d.name.None? ==> e.name == "Unnamed"
    ensures d.name.Some? ==> e.name == d.name.value
    ensures d.desc.Some? && d.desc.value != "" ==> e.description == d.desc.value
    ensures (d.desc.None? || d.desc == Some("")) && d.description.None? ==> e.description == "No description"
    ensures (d.desc.None? || d.desc == Some("")) && d.description.Some? ==> e.description == d.description.value
    ensures e.path.Some? <==> d.path.Some? && d.path.value != ""
    ensures e.path.Some? ==> e.path == d.path
    ensures d.assets.None? ==> e.assetCount == 0
    ensures d.assets.Some? ==> e.assetCount == |d.assets.value|
  {
    var description :=
      if d.desc.Some? && d.desc.value != "" then d.desc.value
      else d.description.GetOr("No description");
    var path := if d.path.Some? && d.path.value != "" then d.path else None;
    Entry(index, d.name.GetOr("Unnamed"), description, path, |d.assets.GetOr([])|)
  }

  /**
    `list_modules`: a missing modules directory and an empty manifest are
    reported as such; otherwise the count of descriptors is reported and one
    entry per descriptor, numbered from 1, in manifest order.
  */
  method ListModules(t: Tree, modulesDir: Path, parse: string -> Document) returns (report: Report)
    ensures modulesDir !in t ==> report == DirectoryMissing
    ensures modulesDir in t && LoadModules(t, modulesDir, parse).Err? ==>
      report == LoadFailed(LoadModules(t, modulesDir, parse).error)
    ensures modulesDir in t && LoadModules(t, modulesDir, parse) == Ok([]) ==> report == NoModules
    ensures report.Found? ==> modulesDir in t && LoadModules(t, modulesDir, parse).Ok?
    ensures report.Found? ==>
      var modules := LoadModules(t, modulesDir, parse).value;
      && modules != []
      && report.count == |modules| == |report.entries|
      && forall i :: 0 <= i < |modules| ==> report.entries[i] == Summary(i + 1, modules[i])
    ensures modulesDir in t && LoadModules(t, modulesDir, parse).Ok? && LoadModules(t, modulesDir, parse).value != [] ==>
      report.Found?
  {
    if modulesDir !in t {
      return DirectoryMissing;
    }
    var loaded := LoadModules(t, modulesDir, parse);
    if loaded.Err? {
      return LoadFailed(loaded.error);
    }
    var modules := loaded.value;
    if modules == [] {
      return NoModules;
    }
    var entries: seq<Entry> := [];
    var i := 0;
    while i < |modules|
      invariant 0 <= i <= |modules| && |entries| == i
      invariant forall k :: 0 <= k < i ==> entries[k] == Summary(k + 1, modules[k])
    {
      entries := entries + [Summary(i + 1, modules[i])];
      i := i + 1;
    }
    report := Found(|modules|, entries);
  }
}
