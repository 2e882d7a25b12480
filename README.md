# lola module management, modelled in Dafny

This project models `lola mod`, the module commands of the lola command-line
tool (`src/lola/mod.py`). A *modules directory* holds a manifest,
`lolamod.yml`, whose `lolas` key lists module descriptors. Each descriptor
has a name, a description, a source path, a list of asset directories and an
optional main file. There are two commands:

- `lola mod ls` lists the descriptors, with defaults for missing fields.
- `lola mod install <name> -d <dest>` installs one module. It runs four
  checks that abort before anything is written, then:
  - creates `dest` and `dest/.lolas/<name>`;
  - copies each existing asset directory into `dest/.lolas/<name>/<asset>`,
    merging with what is there and skipping missing assets;
  - copies the main file to `dest/<main>`, first saving any file already
    there as `dest/<stem>-YYYYMMDD.bkp`.

The filesystem is a value, `FileTree.Tree`, which maps paths (sequences of
components) to directories and files. `Valid` means every entry sits in a
directory. The pathlib and shutil calls the command makes are functions on
trees that return a result or an error:

- `mkdir(parents=True, exist_ok=True)` is `MakeDirs`;
- `copytree(..., dirs_exist_ok=True)` is `CopyTree`;
- `copy2` is `Copy2`.

An exception the command does not catch ends the run as `Crashed`, naming
the step that raised. A check that fails ends it as `Aborted`. Console
messages are a log of `Event`s.

The modules are:

- `Paths`: pathlib parsing and `name`/`stem`, and the `replace('./', '')`
  rewrite of the module path.
- `Backup`: the `%Y%m%d` stamp and the backup file name.
- `FileTree`: trees and the three filesystem operations.
- `Manifest`: `load_modules` and the lookup by name.
- `Listing`: `ls`.
- `Install`: one install run, as functions of the tree before it.
- `Workspace`: a class whose `tree` and `log` fields an install run updates
  step by step. Its loops are proved equal to the `Install` functions, so
  the lemmas about those functions hold of the class too.

The module path is rewritten with `replace('./', '')`, which deletes every
"./" anywhere in the string, not just a leading one. `RemoveDotSlash`
models exactly that. `RemoveDotSlashQuirks` and `RemoveDotSlashAbsolute`
show what follows: for example "../x" becomes ".x", and ".//etc" becomes
the absolute "/etc".

## Model

| member | source | states |
|---|---|---|
| Paths.ParseOne | src/lola/mod.py:143-144 | a string without '/' parses to that one component, or to nothing when it is empty or "."; every parse result is a well-formed path |
| Paths.ParseSplit | src/lola/mod.py:143-144 | parsing splits at the first '/': the kept component before it followed by the components of the rest, so a trailing '/' or a doubled '/' adds no component |
| Paths.ParseFormat | src/lola/mod.py:121 | a well-formed path survives rendering to text and parsing back unchanged |
| Paths.RemoveDotSlash | src/lola/mod.py:121 | the rewrite never lengthens the string |
| Paths.RemoveDotSlashNone | src/lola/mod.py:121 | a string with no "./" is left as it is |
| Paths.RemoveDotSlashAppend | src/lola/mod.py:121 | the rewrite works on two halves separately, unless the first half ends in '.' and could pair with a leading '/' |
| Paths.RemoveDotSlashQuirks | src/lola/mod.py:120-121 | "./x" becomes "x", but "..//x" becomes "./x", "a./b" becomes "ab" and "../x" becomes ".x" |
| Paths.RemoveDotSlashAbsolute | src/lola/mod.py:120-121 | the rewrite can make a path absolute: ".//etc" becomes "/etc", which is no longer relative |
| Paths.LastDot | src/lola/mod.py:161 | finds the position of the last '.' in a name, or reports that there is none |
| Paths.Stem | src/lola/mod.py:161 | the stem is a prefix of the name; it differs from the name exactly when the last dot is neither the first nor the last character, and then it is the name cut at that dot |
| Backup.Stamp | src/lola/mod.py:161 | `%Y%m%d` gives exactly eight digits |
| Backup.StampRoundTrip | src/lola/mod.py:161 | the date can be read back from its stamp |
| Backup.BackupName | src/lola/mod.py:161 | the backup name is the stem, a '-', the date's eight-digit stamp and ".bkp" |
| Backup.BackupNameSameDay | src/lola/mod.py:161-162 | two runs name the same backup for a main file exactly when they run on the same day |
| Backup.BackupNameIsNew | src/lola/mod.py:161-162 | the backup never has the name of the file it backs up |
| FileTree.MakeDirs | src/lola/mod.py:133-135 | fails exactly when a file stands at the path or above it; otherwise the path is a directory afterwards, existing entries keep their contents, and only the missing ancestors are added |
| FileTree.MakeDirsExisting | src/lola/mod.py:133-135 | creating a directory that already exists changes nothing |
| FileTree.MakeDirsIdempotent | src/lola/mod.py:133-135 | creating the same directories twice is the same as creating them once |
| FileTree.CopyTree | src/lola/mod.py:150 | fails exactly when the source is not a directory, the destination is blocked by a file, or a source entry and the entry at the same place below the destination differ in kind; otherwise the tree stays valid and nothing is removed |
| FileTree.CopyTreeContents | src/lola/mod.py:150 | after a copy, every entry below the source is at the same place below the destination with the same contents; every entry without a counterpart keeps its contents; nothing else is new except ancestors of the destination |
| FileTree.Copy2 | src/lola/mod.py:162-165 | fails exactly on a missing or directory source, a target equal to the source, a target whose parent is not a directory, or a directory target; otherwise only the target changes, and it holds the source's contents |
| Manifest.LoadModules | src/lola/mod.py:14-32 | no descriptors when the manifest is missing, empty or has no `lolas`; otherwise the `lolas` sequence unchanged; raises exactly when the manifest is a directory or not a mapping |
| Manifest.FirstMatch | src/lola/mod.py:108-113 | the index of the first descriptor with the name; none before it matches, and none at all when absent |
| Manifest.Lookup | src/lola/mod.py:108-117 | finds a descriptor exactly when one has the name, and it has that name |
| Manifest.LookupIgnoresLater | src/lola/mod.py:110-113 | descriptors after the first match never change the result |
| Listing.Summary | src/lola/mod.py:73-83 | name defaults to "Unnamed"; description is a non-empty `desc`, else `description`, else "No description"; the path is shown exactly when non-empty; a missing asset list counts 0 |
| Listing.ListModules | src/lola/mod.py:54-84 | reports a missing directory, a load error, or no modules; otherwise the count and one entry per descriptor, numbered from 1, in manifest order |
| Install.ModulePathText | src/lola/mod.py:120-121 | without a `path`, the module path is the name with every "./" in it removed; with one, the rewritten path is never longer |
| Install.SourceDir | src/lola/mod.py:120-121 | the source directory lies at or below the modules directory |
| Install.DefaultSourceDir | src/lola/mod.py:120-121 | without a `path`, the source is `modulesDir/<name>` when the name holds no "./"; in general it is the name with its "./"s removed |
| Install.ModuleDir | src/lola/mod.py:134 | the module directory lies strictly below the destination |
| Install.BackupPath | src/lola/mod.py:161 | the backup sits directly in the destination and is never the main file's target |
| Install.CopyAsset | src/lola/mod.py:143-151 | a missing asset is reported and changes nothing; an asset that is a file makes copytree raise NotADirectory with the tree unchanged; a copied asset is reported as copied; the tree stays valid |
| Install.CopyAssetMerges | src/lola/mod.py:150 | a copied asset is a directory; everything below it appears under `dest/.lolas/<name>/<asset>`, and what was there without a counterpart is kept |
| Install.ReportsExtend | src/lola/mod.py:146-151 | one more completed turn adds exactly the message for its asset |
| Install.CopyAssets | src/lola/mod.py:141-151 | the loop either completes or raises; when it completes it reports every asset in manifest order, as missing or as copied |
| Install.CopyAssetsNext | src/lola/mod.py:142-151 | the loop over `i + 1` assets is the loop over `i` assets followed by one more turn |
| Install.CopyAssetsStopsAtCrash | src/lola/mod.py:150 | once a copy has raised, the later assets change nothing |
| Install.CopyAssetStaysInside | src/lola/mod.py:143-150 | one asset changes nothing outside the module directory |
| Install.CopyAssetsStayInside | src/lola/mod.py:141-151 | the whole asset loop changes nothing outside the module directory |
| Install.InstallMain | src/lola/mod.py:153-166 | installing the main file completes or raises, and keeps the tree valid |
| Install.MainSkipped | src/lola/mod.py:154-159 | with no main file, or a missing source, nothing is written or reported |
| Install.MainInstalled | src/lola/mod.py:159-166 | after an install, the target holds the source's contents; an existing target's old contents are in the backup, whatever the backup held before; the log reports the backup and then the copy |
| Install.MainFootprint | src/lola/mod.py:153-166 | the main-file step changes only the target `dest/<main>` and the backup (or a file of the main file's name inside a directory with the backup's name); every other entry is kept and nothing else is created |
| Install.Prepare | src/lola/mod.py:132-135 | after success both the destination and `dest/.lolas/<name>` are directories; on either outcome the tree stays valid and keeps its entries |
| Install.Deployment | src/lola/mod.py:132-169 | after the checks a run completes or raises; "Installing" comes first; a completed run reports each asset in order and ends with "Done" |
| Install.Transfer | src/lola/mod.py:140-169 | the asset loop and main file complete or raise; when complete, the log starts with one message per asset in order and ends with "Done" |
| Install.Installation | src/lola/mod.py:97-169 | a whole run keeps the tree valid and removes nothing |
| Install.AbortsInOrder | src/lola/mod.py:103-130 | each of the four checks aborts exactly when the earlier ones pass and its own condition holds; an aborted run changes nothing and prints one message |
| Install.ChecksPassedDirsExist | src/lola/mod.py:132-137 | once the checks pass and both directories are made, they exist at the end even if a later copy raises, and "Installing" is the first message |
| Install.InstallFootprint | src/lola/mod.py:97-169 | a run writes only inside `dest/.lolas/<name>`, at the main file's target and backup, and at missing ancestors of the module directory; every other entry keeps its contents, also when `dest` is the working directory |
| Workspace.FindModule | src/lola/mod.py:108-113 | the search loop returns the first descriptor with the name, the same one `Lookup` describes |
| Workspace.Workspace.Install | src/lola/mod.py:97-169 | the run leaves the tree, the messages and the outcome exactly as `Installation` describes, and the tree valid |
| Workspace.Workspace.Deploy | src/lola/mod.py:132-169 | after the checks, the in-place steps end as `Deployment` describes |
| Workspace.Workspace.TransferInPlace | src/lola/mod.py:140-169 | the assets, the main file and the closing message end as `Transfer` describes |
| Workspace.Workspace.CopyAssetsInPlace | src/lola/mod.py:141-151 | the in-place loop ends as `CopyAssets` describes, stopping at the first copy that raises |
| Workspace.Workspace.CopyAssetInPlace | src/lola/mod.py:142-151 | one turn of the loop ends as `CopyAsset` describes |
| Workspace.Workspace.InstallMainInPlace | src/lola/mod.py:153-166 | the backup and the copy of the main file end as `InstallMain` describes |

## Left out

- The command-line wiring (the click group, option parsing, the defaults
  `./modules` and `.`) is not modelled. The modules directory and the
  destination are parameters.
- The wording, colours and blank lines of the console output are not
  modelled. Each message is an `Event` carrying the values it prints.
- YAML parsing is a parameter, `parse`. Only well-typed documents are
  modelled: a mapping with an optional `lolas` list of descriptors, a falsy
  document, or another value.
  - `lolas: null` is treated like an absent key. In the code, `ls` then
    says there are no modules, but `install` raises a TypeError.
  - Descriptor fields of the wrong type (a numeric name, a string as the
    asset list) are not modelled.
- The current date (`datetime.now()`) is a parameter of the run.
- Paths.Parse: absolute paths and ".." components in the module name, the
  module path, assets or main file are excluded by `Install.Resolvable`.
  This includes a module path that the "./" rewrite makes absolute (".//etc"
  becomes "/etc"), for which pathlib would drop the modules directory.
  The modules directory and the destination are plain relative paths. The
  model does not capture pathlib joining an absolute path or `..` leaving
  a directory.
- FileTree.CopyTree: differs from shutil when a source entry and the
  existing entry below the destination differ in kind.
  - The model fails with the tree unchanged.
  - shutil copies the other entries first and raises at the end.
  - When the source has a file where the destination has a directory,
    shutil's copy2 writes the file inside that directory instead of
    failing.
- FileTree.CopyTree: sources and destinations that overlap (copying a tree
  into itself) use snapshot semantics. The whole source is read before
  anything is written.
- FileTree.Copy2: file metadata (timestamps, permissions), symbolic links,
  permission errors and a full disk are not modelled.
- Concurrency is not modelled: other processes changing the filesystem
  during a run.
