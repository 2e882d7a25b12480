/**
  `lola mod install <name> -d <dest>`, as a function of the tree before the
  run: the four checks that abort before any write, the creation of
  `dest` and `dest/.lolas/<name>`, the best-effort copy of the assets, and
  the main file with its dated backup. The `Workspace` class runs the same
  steps in place; the lemmas here state what a run does.
*/
module Install {

  import opened Wrappers
  import opened Paths
  import opened FileTree
  import opened Manifest
  import opened Backup

  const LolasDirName: string := ".lolas"

  /** Why a run stops, with a message, before writing anything. */
  datatype Abort = ModulesDirMissing | ModuleNotFound | SourceDirMissing | DestinationNotADirectory

  /** The step whose uncaught exception ends a run. */
  datatype Failure =
    | ManifestUnreadable(loadFault: LoadFault)
    | CreatingDestination(fault: Fault)
    | CreatingModuleDir(fault: Fault)
    | CopyingAsset(asset: string, fault: Fault)
    | WritingBackup(fault: Fault)
    | CopyingMain(fault: Fault)

  datatype Outcome = Aborted(reason: Abort) | Crashed(failure: Failure) | Completed

  /** The console messages of a run, without their wording and markup. */
  datatype Event =
    | NoModulesDir(modulesDir: Path)
    | NoSuchModule(name: string)
    | NoSourceDir(src: Path)
    | DestinationIsNotDir(dest: Path)
    | Installing(name: string)
    | AssetMissing(asset: string)
    | AssetCopied(asset: string)
    | BackedUp(backupName: string)
    | MainCopied(main: string)
    | Done

  /** The tree and the messages at the end of a run (or of one part of it). */
  datatype Run = Run(outcome: Outcome, tree: Tree, log: seq<Event>)

  /**
    The descriptor's `path`, by default "./<name>", with every "./" removed.
    Without a `path` the result is the name itself with its own "./"s removed.
  */
  function ModulePathText(m: Descriptor, name: string): (r: string)
    ensures m.path.None? ==> r == RemoveDotSlash(name)
    ensures m.path.Some? ==> |r| <= |m.path.value|
  {
    var text := m.path.GetOr("./" + name);
    assert m.path.None? ==> text[2..] == name;
    if m.path.None? then RemoveDotSlashSkips(text); RemoveDotSlash(text)
    else RemoveDotSlash(text)
  }

  /** The module's source directory: the modules directory joined with its path. */
  function SourceDir(modulesDir: Path, m: Descriptor, name: string): (r: Path)
    ensures modulesDir <= r
  {
    modulesDir + Parse(ModulePathText(m, name))
  }

  /**
    A descriptor without `path` is looked for in `modulesDir/<name>`, as
    long as the name holds no "./"; a name that does loses those too.
  */
  lemma DefaultSourceDir(modulesDir: Path, m: Descriptor, name: string)
    requires m.path.None?
    ensures !HasDotSlash(name) ==> SourceDir(modulesDir, m, name) == modulesDir + Parse(name)
    ensures SourceDir(modulesDir, m, name) == modulesDir + Parse(RemoveDotSlash(name))
  {
    if !HasDotSlash(name) {
      RemoveDotSlashNone(name);
    }
  }

  /** `dest/.lolas/<name>`, where the assets go. */
  function ModuleDir(dest: Path, name: string): (p: Path)
    ensures dest <= p && |p| > |dest|
  {
    dest + [LolasDirName] + Parse(name)
  }

  function AssetList(m: Descriptor): seq<string> {
    m.assets.GetOr([])
  }

  /** The main file, when the descriptor names one (a non-empty string). */
  function MainFile(m: Descriptor): (r: Option<string>)
  {
    if m.main.Some? && m.main.value != "" then m.main else None
  }

  /** `dest/<stem>-<YYYYMMDD>.bkp` for the main file at `mainTarget`. */
  function BackupPath(dest: Path, mainTarget: Path, date: Date): (p: Path)
    requires ValidDate(date)
    ensures dest <= p && |p| == |dest| + 1
    ensures p != mainTarget
  {
    BackupNameIsNew(Name(mainTarget), date);
    dest + [BackupName(Name(mainTarget), date)]
  }

  /** The module's strings name places below the directories they are joined to. */
  predicate Resolvable(m: Descriptor, name: string) {
    && Relative(name)
    && Relative(ModulePathText(m, name))
    && (forall a :: a in AssetList(m) ==> Relative(a))
    && (m.main.Some? ==> Relative(m.main.value))
  }

  /**
    What a run needs of its inputs: a consistent tree, plain directory
    paths, a calendar date, and relative paths in the module it installs.
  */
  predicate InstallRequires(t: Tree, modulesDir: Path, parse: string -> Document, name: string, dest: Path, date: Date) {
    && Valid(t) && Plain(modulesDir) && Plain(dest) && ValidDate(date)
    && (LoadModules(t, modulesDir, parse).Ok? && Lookup(LoadModules(t, modulesDir, parse).value, name).Some? ==>
          Resolvable(Lookup(LoadModules(t, modulesDir, parse).value, name).value, name))
  }

  /**
    One turn of the asset loop. A missing source is reported and skipped;
    a directory is merged into `moduleDir/<asset>`; a file makes copytree
    raise, which ends the run.
  */
  function CopyAsset(t: Tree, src: Path, moduleDir: Path, asset: string): (r: Run)
    requires Valid(t)
    ensures Valid(r.tree) && Grows(t, r.tree)
    ensures r.outcome.Completed? || r.outcome.Crashed?
    ensures src + Parse(asset) !in t ==> r.outcome.Completed? && r.tree == t && r.log == [AssetMissing(asset)]
    ensures IsFile(t, src + Parse(asset)) ==> r.outcome == Crashed(CopyingAsset(asset, NotADirectory)) && r.tree == t
    ensures r.outcome.Completed? && src + Parse(asset) in t ==> r.log == [AssetCopied(asset)]
  {
    var from := src + Parse(asset);
    if from !in t then Run(Completed, t, [AssetMissing(asset)])
    else match CopyTree(t, from, moduleDir + Parse(asset))
      case Err(e) => Run(Crashed(CopyingAsset(asset, e)), t, [])
      case Ok(u) => Run(Completed, u, [AssetCopied(asset)])
  }

  /**
    A directory asset is merged into `moduleDir/<asset>`: everything below
    the source asset appears there, and what was already there and has no
    counterpart in the source is left intact.
  */
  lemma CopyAssetMerges(t: Tree, src: Path, moduleDir: Path, asset: string)
    requires Valid(t)
    requires src + Parse(asset) in t && CopyAsset(t, src, moduleDir, asset).outcome.Completed?
    ensures var from, to := src + Parse(asset), moduleDir + Parse(asset);
      var u := CopyAsset(t, src, moduleDir, asset).tree;
      && IsDir(t, from)
      && (forall q :: q in t && from <= q ==> to + q[|from|..] in u && u[to + q[|from|..]] == t[q])
      && (forall q :: q in t && !(to <= q && from + q[|to|..] in t) ==> q in u && u[q] == t[q])
  {
    CopyTreeContents(t, src + Parse(asset), moduleDir + Parse(asset));
  }

  /** `log` has one message per asset, in order: skipped as missing, or copied. */
  predicate Reports(log: seq<Event>, assets: seq<string>) {
    && |log| == |assets|
    && forall i :: 0 <= i < |assets| ==> log[i] == AssetMissing(assets[i]) || log[i] == AssetCopied(assets[i])
  }

  /** A completed turn for the last asset extends the report of the ones before it. */
  lemma ReportsExtend(log: seq<Event>, assets: seq<string>, step: Run)
    requires assets != [] && Reports(log, assets[..|assets| - 1])
    requires step.outcome.Completed? ==>
      step.log == [AssetMissing(assets[|assets| - 1])] || step.log == [AssetCopied(assets[|assets| - 1])]
    ensures step.outcome.Completed? ==> Reports(log + step.log, assets)
  {
    if step.outcome.Completed? {
      var n := |assets| - 1;
      forall i | 0 <= i < |assets|
        ensures (log + step.log)[i] == AssetMissing(assets[i]) || (log + step.log)[i] == AssetCopied(assets[i])
      {
        if i < n {
          assert (log + step.log)[i] == log[i] && assets[..n][i] == assets[i];
        } else {
          assert (log + step.log)[i] == step.log[0];
        }
      }
    }
  }

  /** The asset loop over `assets`, in order, stopping at the first exception. */
  function CopyAssets(t: Tree, src: Path, moduleDir: Path, assets: seq<string>): (r: Run)
    requires Valid(t)
    ensures Valid(r.tree) && Grows(t, r.tree)
    ensures r.outcome.Completed? || r.outcome.Crashed?
    ensures r.outcome.Completed? ==> Reports(r.log, assets)
    decreases |assets|
  {
    if assets == [] then Run(Completed, t, [])
    else
      var before := CopyAssets(t, src, moduleDir, assets[..|assets| - 1]);
      if before.outcome.Crashed? then before
      else
        var step := CopyAsset(before.tree, src, moduleDir, assets[|assets| - 1]);
        ReportsExtend(before.log, assets, step);
        Run(step.outcome, step.tree, before.log + step.log)
  }

  /**
    The main file: when the descriptor names one and its source exists, an
    existing `dest/<main>` is first copied to the backup, then the source is
    copied over it. A missing source is skipped without a message.
  */
  function InstallMain(t: Tree, src: Path, dest: Path, m: Descriptor, date: Date): (r: Run)
    requires Valid(t) && ValidDate(date)
    ensures Valid(r.tree) && Grows(t, r.tree)
    ensures r.outcome.Completed? || r.outcome.Crashed?
  {
    match MainFile(m)
    case None => Run(Completed, t, [])
    case Some(main) =>
      var from, to := src + Parse(main), dest + Parse(main);
      if from !in t then Run(Completed, t, [])
      else
        var saved := if to in t then Copy2(t, to, BackupPath(dest, to, date)) else Ok(t);
        var savedLog := if to in t then [BackedUp(BackupName(Name(to), date))] else [];
        match saved
        case Err(e) => Run(Crashed(WritingBackup(e)), t, [])
        case Ok(t1) =>
          match Copy2(t1, from, to)
          case Err(e) => Run(Crashed(CopyingMain(e)), t1, savedLog)
          case Ok(t2) => Run(Completed, t2, savedLog + [MainCopied(main)])
  }

  /** A whole run of `install_module` on the tree `t`. */
  function Installation(t: Tree, modulesDir: Path, parse: string -> Document, name: string, dest: Path, date: Date): (r: Run)
    requires InstallRequires(t, modulesDir, parse, name, dest, date)
    ensures Valid(r.tree) && Grows(t, r.tree)
  {
    if modulesDir !in t then Run(Aborted(ModulesDirMissing), t, [NoModulesDir(modulesDir)])
    else match LoadModules(t, modulesDir, parse)
      case Err(e) => Run(Crashed(ManifestUnreadable(e)), t, [])
      case Ok(modules) =>
        match Lookup(modules, name)
        case None => Run(Aborted(ModuleNotFound), t, [NoSuchModule(name)])
        case Some(m) =>
          var src := SourceDir(modulesDir, m, name);
          if src !in t then Run(Aborted(SourceDirMissing), t, [NoSourceDir(src)])
          else if dest in t && t[dest] != Dir then Run(Aborted(DestinationNotADirectory), t, [DestinationIsNotDir(dest)])
          else Deployment(t, src, dest, name, m, date)
  }

  /**
    The part of a run after the four checks passed: create the destination
    and the module directory, copy the assets, then the main file.
  */
  function Deployment(t: Tree, src: Path, dest: Path, name: string, m: Descriptor, date: Date): (r: Run)
    requires Valid(t) && ValidDate(date)
    ensures Valid(r.tree) && Grows(t, r.tree)
    ensures r.outcome.Completed? || r.outcome.Crashed?
    ensures r.log != [] ==> r.log[0] == Installing(name)
    ensures r.outcome.Completed? ==>
      && |r.log| >= |AssetList(m)| + 2
      && r.log[0] == Installing(name)
      && Reports(r.log[1..|AssetList(m)| + 1], AssetList(m))
      && r.log[|r.log| - 1] == Done
  {
    match Prepare(t, dest, name)
    case Err(failed) => Run(Crashed(failed.0), failed.1, [])
    case Ok(t2) =>
      var r := Transfer(t2, src, dest, ModuleDir(dest, name), m, date);
      InstallingFirst(name, r.log, |AssetList(m)|);
      Run(r.outcome, r.tree, [Installing(name)] + r.log)
  }

  /** Putting "Installing" in front shifts the rest of the log by one. */
  lemma InstallingFirst(name: string, log: seq<Event>, n: nat)
    ensures var l := [Installing(name)] + log;
      && l[0] == Installing(name)
      && (n < |log| ==> l[1..n + 1] == log[..n] && l[|l| - 1] == log[|log| - 1])
  {
  }

  /**
    `dest` and then `dest/.lolas/<name>`, with parents; on an exception, the
    failed step and the tree it left.
  */
  function Prepare(t: Tree, dest: Path, name: string): (r: Result<Tree, (Failure, Tree)>)
    requires Valid(t)
    ensures r.Ok? ==> Valid(r.value) && Grows(t, r.value) && IsDir(r.value, dest) && IsDir(r.value, ModuleDir(dest, name))
    ensures r.Err? ==> Valid(r.error.1) && Grows(t, r.error.1)
  {
    match MakeDirs(t, dest)
    case Err(e) => Err((CreatingDestination(e), t))
    case Ok(t1) =>
      match MakeDirs(t1, ModuleDir(dest, name))
      case Err(e) => Err((CreatingModuleDir(e), t1))
      case Ok(t2) => Ok(t2)
  }

  /** The asset loop, then (unless it raised) the main file, then the closing message. */
  function Transfer(t: Tree, src: Path, dest: Path, moduleDir: Path, m: Descriptor, date: Date): (r: Run)
    requires Valid(t) && ValidDate(date)
    ensures Valid(r.tree) && Grows(t, r.tree)
    ensures r.outcome.Completed? || r.outcome.Crashed?
    ensures r.outcome.Completed? ==>
      && |r.log| >= |AssetList(m)| + 1
      && Reports(r.log[..|AssetList(m)|], AssetList(m))
      && r.log[|r.log| - 1] == Done
  {
    var assets := CopyAssets(t, src, moduleDir, AssetList(m));
    if assets.outcome.Crashed? then assets
    else
      var main := InstallMain(assets.tree, src, dest, m, date);
      var done := if main.outcome.Completed? then [Done] else [];
      assert (assets.log + main.log + done)[..|assets.log|] == assets.log;
      Run(main.outcome, main.tree, assets.log + main.log + done)
  }

  // ---------------------------------------------------------------------
  // The asset loop

  /** The loop after `i + 1` assets is the loop after `i` assets and one more turn. */
  lemma CopyAssetsNext(t: Tree, src: Path, moduleDir: Path, assets: seq<string>, i: nat)
    requires Valid(t) && i < |assets|
    requires CopyAssets(t, src, moduleDir, assets[..i]).outcome.Completed?
    ensures var before := CopyAssets(t, src, moduleDir, assets[..i]);
      var step := CopyAsset(before.tree, src, moduleDir, assets[i]);
      CopyAssets(t, src, moduleDir, assets[..i + 1]) == Run(step.outcome, step.tree, before.log + step.log)
  {
    assert assets[..i + 1][..i] == assets[..i];
  }

  /** Once an asset copy has raised, the remaining assets change nothing. */
  lemma {:induction false} CopyAssetsStopsAtCrash(t: Tree, src: Path, moduleDir: Path, assets: seq<string>, k: nat)
    requires Valid(t) && k <= |assets|
    requires CopyAssets(t, src, moduleDir, assets[..k]).outcome.Crashed?
    ensures CopyAssets(t, src, moduleDir, assets) == CopyAssets(t, src, moduleDir, assets[..k])
    decreases |assets| - k
  {
    if k < |assets| {
      var shorter := assets[..|assets| - 1];
      assert shorter[..k] == assets[..k];
      CopyAssetsStopsAtCrash(t, src, moduleDir, shorter, k);
    } else {
      assert assets[..k] == assets;
    }
  }

  /** One asset is written only inside the module directory. */
  lemma CopyAssetStaysInside(t: Tree, src: Path, moduleDir: Path, asset: string)
    requires Valid(t) && IsDir(t, moduleDir)
    ensures SameOutside(t, CopyAsset(t, src, moduleDir, asset).tree, moduleDir)
  {
    var from, to := src + Parse(asset), moduleDir + Parse(asset);
    var u := CopyAsset(t, src, moduleDir, asset).tree;
    if from in t && CopyTree(t, from, to).Ok? {
      assert u == CopyTree(t, from, to).value;
      CopyTreeContents(t, from, to);
      forall q | q in u && !(moduleDir <= q) ensures q in t {
        if q <= to && q !in t {
          assert |q| < |moduleDir|;
          assert q == moduleDir[..|q|];
          AncestorsAreDirs(t, moduleDir, |q|);
        }
      }
    }
  }

  /** Nothing outside `dest/.lolas/<name>` is written by the asset loop. */
  lemma {:induction false} CopyAssetsStayInside(t: Tree, src: Path, moduleDir: Path, assets: seq<string>)
    requires Valid(t) && IsDir(t, moduleDir)
    ensures SameOutside(t, CopyAssets(t, src, moduleDir, assets).tree, moduleDir)
    decreases |assets|
  {
    if assets != [] {
      var shorter := assets[..|assets| - 1];
      CopyAssetsStayInside(t, src, moduleDir, shorter);
      var before := CopyAssets(t, src, moduleDir, shorter);
      if !before.outcome.Crashed? {
        CopyAssetStaysInside(before.tree, src, moduleDir, assets[|assets| - 1]);
      }
    }
  }

  // ---------------------------------------------------------------------
  // The main file

  /** No main file, or a main file whose source is missing: nothing is written or said. */
  lemma MainSkipped(t: Tree, src: Path, dest: Path, m: Descriptor, date: Date)
    requires Valid(t) && ValidDate(date)
    requires MainFile(m).None? || src + Parse(MainFile(m).value) !in t
    ensures InstallMain(t, src, dest, m, date) == Run(Completed, t, [])
  {
  }

  /**
    A main file that was installed holds the source's contents. When a file
    was already at `dest/<main>`, its old contents are now in the backup,
    whatever the backup held before (a same-day rerun overwrites it).
  */
  lemma MainInstalled(t: Tree, src: Path, dest: Path, m: Descriptor, date: Date)
    requires Valid(t) && ValidDate(date)
    requires MainFile(m).Some? && src + Parse(MainFile(m).value) in t
    requires InstallMain(t, src, dest, m, date).outcome.Completed?
    ensures var main := MainFile(m).value;
      var from, to := src + Parse(main), dest + Parse(main);
      var r := InstallMain(t, src, dest, m, date);
      && IsFile(t, from) && IsFile(r.tree, to)
      && (to !in t ==> r.tree[to] == t[from] && r.log == [MainCopied(main)])
      && (to in t ==>
            var saved := CopyTarget(t, to, BackupPath(dest, to, date));
            && IsFile(t, to)
            && saved != to
            && r.tree[saved] == t[to]
            && (saved != from ==> r.tree[to] == t[from])
            && r.log == [BackedUp(BackupName(Name(to), date)), MainCopied(main)])
  {
    var main := MainFile(m).value;
    var from, to := src + Parse(main), dest + Parse(main);
    var t1 := if to in t then Copy2(t, to, BackupPath(dest, to, date)).value else t;
    assert !IsDir(t1, to);
    assert CopyTarget(t1, from, to) == to;
  }

  /**
    The places the main-file step may write: the target `dest/<main>`, the
    backup, and a file of that name inside the backup when a directory
    already has the backup's name (copy2 then copies into it).
  */
  function MainPlaces(dest: Path, m: Descriptor, date: Date): set<Path>
    requires ValidDate(date)
  {
    match MainFile(m)
    case None => {}
    case Some(main) =>
      var to := dest + Parse(main);
      var backup := BackupPath(dest, to, date);
      {to, backup, backup + [Name(to)]}
  }

  /** `u` differs from `t` only at `places`: every other entry is kept, and only those are new. */
  predicate ChangesOnly(t: Tree, u: Tree, places: set<Path>) {
    && (forall q :: q in t && q !in places ==> q in u && u[q] == t[q])
    && (forall q :: q in u && q !in t ==> q in places)
  }

  /** The main-file step writes the main file's target and its backup, and nothing else. */
  lemma MainFootprint(t: Tree, src: Path, dest: Path, m: Descriptor, date: Date)
    requires Valid(t) && ValidDate(date)
    ensures ChangesOnly(t, InstallMain(t, src, dest, m, date).tree, MainPlaces(dest, m, date))
  {
    if MainFile(m).Some? {
      var main := MainFile(m).value;
      var from, to := src + Parse(main), dest + Parse(main);
      var backup := BackupPath(dest, to, date);
      if from in t {
        if to in t && Copy2(t, to, backup).Ok? {
          var t1 := Copy2(t, to, backup).value;
          if Copy2(t1, from, to).Ok? {
            assert !IsDir(t1, to);
            assert CopyTarget(t1, from, to) == to;
          }
        } else if to !in t && Copy2(t, from, to).Ok? {
          assert CopyTarget(t, from, to) == to;
        }
      }
    }
  }

  // ---------------------------------------------------------------------
  // Whole runs

  /**
    The four checks, in order: each aborts with its own message exactly
    when the earlier ones passed and its condition holds, and an aborted
    run leaves the tree as it was.
  */
  lemma AbortsInOrder(t: Tree, modulesDir: Path, parse: string -> Document, name: string, dest: Path, date: Date)
    requires InstallRequires(t, modulesDir, parse, name, dest, date)
    ensures var r := Installation(t, modulesDir, parse, name, dest, date);
      var loaded := LoadModules(t, modulesDir, parse);
      && (r.outcome == Aborted(ModulesDirMissing) <==> modulesDir !in t)
      && (r.outcome == Aborted(ModuleNotFound) <==>
            modulesDir in t && loaded.Ok? && Lookup(loaded.value, name).None?)
      && (r.outcome == Aborted(SourceDirMissing) <==>
            modulesDir in t && loaded.Ok? && Lookup(loaded.value, name).Some?
            && SourceDir(modulesDir, Lookup(loaded.value, name).value, name) !in t)
      && (r.outcome == Aborted(DestinationNotADirectory) <==>
            modulesDir in t && loaded.Ok? && Lookup(loaded.value, name).Some?
            && SourceDir(modulesDir, Lookup(loaded.value, name).value, name) in t
            && IsFile(t, dest))
      && (r.outcome.Aborted? ==> r.tree == t && |r.log| == 1)
  {
  }

  /** Once the checks pass, `dest` and `dest/.lolas/<name>` are directories, even if a copy later raises. */
  lemma ChecksPassedDirsExist(t: Tree, modulesDir: Path, parse: string -> Document, name: string, dest: Path, date: Date)
    requires InstallRequires(t, modulesDir, parse, name, dest, date)
    requires var r := Installation(t, modulesDir, parse, name, dest, date);
      r.outcome.Completed? || (r.outcome.Crashed? && !r.outcome.failure.ManifestUnreadable?
        && !r.outcome.failure.CreatingDestination? && !r.outcome.failure.CreatingModuleDir?)
    ensures var r := Installation(t, modulesDir, parse, name, dest, date);
      IsDir(r.tree, dest) && IsDir(r.tree, ModuleDir(dest, name)) && r.log[0] == Installing(name)
  {
    var m := Lookup(LoadModules(t, modulesDir, parse).value, name).value;
    var src := SourceDir(modulesDir, m, name);
    var t1 := MakeDirs(t, dest).value;
    var t2 := MakeDirs(t1, ModuleDir(dest, name)).value;
    assert IsDir(t2, dest) && IsDir(t2, ModuleDir(dest, name));
    var assets := CopyAssets(t2, src, ModuleDir(dest, name), AssetList(m));
    if !assets.outcome.Crashed? {
      var main := InstallMain(assets.tree, src, dest, m, date);
      assert Grows(assets.tree, main.tree);
    }
  }

  /**
    `u` differs from `t` only at or below `root`, at `places`, and at new
    ancestors of `root`.
  */
  predicate Touches(t: Tree, u: Tree, root: Path, places: set<Path>) {
    && (forall q :: q in t && !(root <= q) && q !in places ==> q in u && u[q] == t[q])
    && (forall q :: q in u && q !in t ==> root <= q || q <= root || q in places)
  }

  lemma TouchesTransitive(t: Tree, u: Tree, v: Tree, root: Path, places: set<Path>)
    requires Touches(t, u, root, places) && Touches(u, v, root, places)
    ensures Touches(t, v, root, places)
  {
  }

  /**
    The footprint of a run: it writes only in `dest/.lolas/<name>`, at the
    main file's target and backup, and at the missing ancestors of the
    module directory; every other entry keeps its contents.
  */
  lemma InstallFootprint(t: Tree, modulesDir: Path, parse: string -> Document, name: string, dest: Path, date: Date)
    requires InstallRequires(t, modulesDir, parse, name, dest, date)
    ensures var loaded := LoadModules(t, modulesDir, parse);
      var places :=
        if loaded.Ok? && Lookup(loaded.value, name).Some? then MainPlaces(dest, Lookup(loaded.value, name).value, date)
        else {};
      Touches(t, Installation(t, modulesDir, parse, name, dest, date).tree, ModuleDir(dest, name), places)
  {
    if modulesDir in t && LoadModules(t, modulesDir, parse).Ok? {
      var found := Lookup(LoadModules(t, modulesDir, parse).value, name);
      if found.Some? {
        var m := found.value;
        var places := MainPlaces(dest, m, date);
        var src := SourceDir(modulesDir, m, name);
        var moduleDir := ModuleDir(dest, name);
        if src in t && !IsFile(t, dest) && MakeDirs(t, dest).Ok? {
          var t1 := MakeDirs(t, dest).value;
          forall q | q in t1 && q !in t ensures q <= moduleDir {
            assert q <= dest;
            assert q == moduleDir[..|q|];
          }
          assert Touches(t, t1, moduleDir, places);
          if MakeDirs(t1, moduleDir).Ok? {
            var t2 := MakeDirs(t1, moduleDir).value;
            assert Touches(t1, t2, moduleDir, places);
            TouchesTransitive(t, t1, t2, moduleDir, places);
            var assets := CopyAssets(t2, src, moduleDir, AssetList(m));
            CopyAssetsStayInside(t2, src, moduleDir, AssetList(m));
            assert Touches(t2, assets.tree, moduleDir, places);
            TouchesTransitive(t, t2, assets.tree, moduleDir, places);
            if !assets.outcome.Crashed? {
              MainFootprint(assets.tree, src, dest, m, date);
              var main := InstallMain(assets.tree, src, dest, m, date);
              assert Touches(assets.tree, main.tree, moduleDir, places);
              TouchesTransitive(t, assets.tree, main.tree, moduleDir, places);
            }
          }
        }
      }
    }
  }
}
