/**
  `install_module` as it runs: a workspace holds the directory tree and
  the console output, and the run updates them step by step.
*/
module Workspace {

  import opened Wrappers
  import opened Paths
  import opened FileTree
  import opened Manifest
  import opened Backup
  import opened Install

  /** The search loop: the first descriptor whose name is `name`, if any. */
  method FindModule(modules: seq<Descriptor>, name: string) returns (found: Option<Descriptor>)
    ensures found == Lookup(modules, name)
    ensures found.Some? ==> exists i :: (0 <= i < |modules| && found.value == modules[i]
      && modules[i].name == Some(name) && forall j :: 0 <= j < i ==> modules[j].name != Some(name))
  {
    found := None;
    for i := 0 to |modules|
      invariant found == None
      invariant forall j :: 0 <= j < i ==> modules[j].name != Some(name)
    {
      if modules[i].name == Some(name) {
        found := Some(modules[i]);
        break;
      }
    }
  }

  /** The filesystem and the console seen by one command. */
  class Workspace {
    var tree: Tree
    var log: seq<Event>

    constructor (t: Tree)
      requires Valid(t)
      ensures tree == t && log == []
    {
      tree := t;
      log := [];
    }

    /**
      `install_module`: the tree and the messages end up exactly as the run
      `Installation` describes, so the lemmas about it hold of this method.
    */
    method Install(modulesDir: Path, parse: string -> Document, name: string, dest: Path, date: Date) returns (outcome: Outcome)
      requires InstallRequires(tree, modulesDir, parse, name, dest, date)
      modifies this
      ensures var r := Installation(old(tree), modulesDir, parse, name, dest, date);
        outcome == r.outcome && tree == r.tree && log == old(log) + r.log
      ensures Valid(tree)
    {
      if modulesDir !in tree {
        log := log + [NoModulesDir(modulesDir)];
        return Aborted(ModulesDirMissing);
      }
      var loaded := LoadModules(tree, modulesDir, parse);
      if loaded.Err? {
        return Crashed(ManifestUnreadable(loaded.error));
      }
      var found := FindModule(loaded.value, name);
      if found.None? {
        log := log + [NoSuchModule(name)];
        return Aborted(ModuleNotFound);
      }
      var descriptor := found.value;
      var src := SourceDir(modulesDir, descriptor, name);
      if src !in tree {
        log := log + [NoSourceDir(src)];
        return Aborted(SourceDirMissing);
      }
      if dest in tree && tree[dest] != Dir {
        log := log + [DestinationIsNotDir(dest)];
        return Aborted(DestinationNotADirectory);
      }

      outcome := Deploy(src, dest, name, descriptor, date);
    }

    /** Everything after the checks: the directories, the assets, the main file. */
    method Deploy(src: Path, dest: Path, name: string, descriptor: Descriptor, date: Date) returns (outcome: Outcome)
      requires Valid(tree) && ValidDate(date)
      modifies this
      ensures var r := Deployment(old(tree), src, dest, name, descriptor, date);
        outcome == r.outcome && tree == r.tree && log == old(log) + r.log
    {
      var prepared := Prepare(tree, dest, name);
      if prepared.Err? {
        tree := prepared.error.1;
        return Crashed(prepared.error.0);
      }
      tree := prepared.value;
      log := log + [Installing(name)];
      ghost var logMid := log;
      outcome := TransferInPlace(src, dest, ModuleDir(dest, name), descriptor, date);
      ghost var r := Transfer(prepared.value, src, dest, ModuleDir(dest, name), descriptor, date);
      AppendAssociative(old(log), [Installing(name)], r.log);
    }

    /** The assets, then the main file, then the closing message. */
    method TransferInPlace(src: Path, dest: Path, moduleDir: Path, descriptor: Descriptor, date: Date) returns (outcome: Outcome)
      requires Valid(tree) && ValidDate(date)
      modifies this
      ensures var r := Transfer(old(tree), src, dest, moduleDir, descriptor, date);
        outcome == r.outcome && tree == r.tree && log == old(log) + r.log
    {
      outcome := CopyAssetsInPlace(src, moduleDir, AssetList(descriptor));
      if outcome.Crashed? {
        return;
      }
      ghost var assetsRun := CopyAssets(old(tree), src, moduleDir, AssetList(descriptor));
      outcome := InstallMainInPlace(src, dest, descriptor, date);
      ghost var mainRun := InstallMain(assetsRun.tree, src, dest, descriptor, date);
      AppendAssociative(old(log), assetsRun.log, mainRun.log);
      if outcome.Crashed? {
        return;
      }
      log := log + [Done];
      AppendAssociative(old(log), assetsRun.log + mainRun.log, [Done]);
    }

    /** The asset loop, over the processed prefix of `assets`. */
    method CopyAssetsInPlace(src: Path, moduleDir: Path, assets: seq<string>) returns (outcome: Outcome)
      requires Valid(tree)
      modifies this
      ensures var r := CopyAssets(old(tree), src, moduleDir, assets);
        outcome == r.outcome && tree == r.tree && log == old(log) + r.log
    {
      ghost var start, logStart := tree, log;
      var i := 0;
      while i < |assets|
        invariant 0 <= i <= |assets|
        invariant var done := CopyAssets(start, src, moduleDir, assets[..i]);
          done.outcome.Completed? && tree == done.tree && log == logStart + done.log
      {
        CopyAssetsNext(start, src, moduleDir, assets, i);
        ghost var before := CopyAssets(start, src, moduleDir, assets[..i]);
        AppendAssociative(logStart, before.log, CopyAsset(tree, src, moduleDir, assets[i]).log);
        var stepOutcome := CopyAssetInPlace(src, moduleDir, assets[i]);
        if stepOutcome.Crashed? {
          CopyAssetsStopsAtCrash(start, src, moduleDir, assets, i + 1);
          return stepOutcome;
        }
        i := i + 1;
      }
      assert assets[..i] == assets;
      return Completed;
    }

    /** One turn of the asset loop: skip a missing asset, else copy its tree. */
    method CopyAssetInPlace(src: Path, moduleDir: Path, asset: string) returns (outcome: Outcome)
      requires Valid(tree)
      modifies this
      ensures var r := CopyAsset(old(tree), src, moduleDir, asset);
        outcome == r.outcome && tree == r.tree && log == old(log) + r.log
    {
      var from := src + Parse(asset);
      if from !in tree {
        log := log + [AssetMissing(asset)];
        return Completed;
      }
      var copied := CopyTree(tree, from, moduleDir + Parse(asset));
      if copied.Err? {
        return Crashed(CopyingAsset(asset, copied.error));
      }
      tree := copied.value;
      log := log + [AssetCopied(asset)];
      return Completed;
    }

    /** The main file: the backup of an existing target, then the copy. */
    method InstallMainInPlace(src: Path, dest: Path, m: Descriptor, date: Date) returns (outcome: Outcome)
      requires Valid(tree) && ValidDate(date)
      modifies this
      ensures var r := InstallMain(old(tree), src, dest, m, date);
        outcome == r.outcome && tree == r.tree && log == old(log) + r.log
    {
      var main := MainFile(m);
      if main.Some? {
        var from, to := src + Parse(main.value), dest + Parse(main.value);
        if from in tree {
          if to in tree {
            var saved := Copy2(tree, to, BackupPath(dest, to, date));
            if saved.Err? {
              return Crashed(WritingBackup(saved.error));
            }
            tree := saved.value;
            log := log + [BackedUp(BackupName(Name(to), date))];
          }
          ghost var savedLog := if to in old(tree) then [BackedUp(BackupName(Name(to), date))] else [];
          assert log == old(log) + savedLog;
          var copied := Copy2(tree, from, to);
          if copied.Err? {
            return Crashed(CopyingMain(copied.error));
          }
          tree := copied.value;
          log := log + [MainCopied(main.value)];
          AppendAssociative(old(log), savedLog, [MainCopied(main.value)]);
        }
      }
      return Completed;
    }
  }
}
