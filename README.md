# hft-exe file-tree kernel in Dafny

This project models the file-tree logic under the happyfuntimes packaging
scripts: the tracked filesystem that logs what a build creates and cleans it
up, the recursive filtered directory walk, `copyTree`, the NSIS script
fragments and size figure of the Windows installer build, and the
configuration state machine that says where happyfuntimes is installed.

Modules and files:

- `paths.dfy`
  - `Seqs`: sequence helpers.
  - `Paths`: `indexOf`, `substring`, the backslash replacement, and `path.join`/`dirname`/`basename` with `/` as the separator.
- `filesystem.dfy`, module `FileSystem`: the filesystem under the code.
  - A map from absolute path to `File(bytes) | Dir | Link(target)`.
  - The Node `fs` calls the core makes, each as a function from the old map to a status and a new map.
  - A `Disk` class holding that map and the working directory.
- `utils.dfy`, module `Utils`: `deleteNoFail`.
- `trackedfs.dfy`, module `Tracked`: the `TrackedFS` class with its three logs, its wrapped mutators, `deleteList` and `cleanup`.
- `readdirtree.dfy`, module `ReadDirTree`: `readDirTreeSync` over a source tree value, with a name-path walk as its reference.
- `copytree.dfy`, module `CopyTree`: `copyFile` and `copyTree`.
- `buildwin.dfy`, module `BuildWin`: `getFileNames`, the command builders, the install and uninstall lists, `installSizeKB` and the CRLF conversion.
- `hftconfig.dfy`, module `HftConfig`: `setup`, the getter, `check` and `hftRequire`.

The code writes through the filesystem step by step, so that part is
imperative:

- `TrackedFS` is a class whose method contracts give the new logs and disk.
- `deleteList`, the `getFileNames` loop and both `copyTree` loops are `while` loops proved equal to recursive reference functions.
- The configuration globals form a class, `Config`, whose methods are proved against pure step functions.

The walk, the command builders and the filter split are functions.

The source tree that `readDirTreeSync`, `getFileNames` and `copyTree` read is
an `Entry` value. Each entry carries its name, what `lstat` reports and, for
a directory, its listing in `readdirSync` order. A symbolic link records its
target text and what `stat` resolves it to. This source tree is separate from the destination disk, so a copy into a `dst` inside `src` is not modelled. In the source, the `readFileSync` of lib/utils.js:111 can read back a file the same pass just wrote.

The property lemmas are stated over this value. `WellFormed` requires plain,
distinct names in every listing. Under that condition the walk behaves as
the source promises.

Where the code and its documented intent differ, the model follows the code:

- `deleteNoFail` catches nothing: an `rmdirSync` of a non-empty directory throws out of it.
- `cleanup` therefore stops at the first failing delete, and leaves the logs it reached reversed in place. It is not a best-effort pass over every entry.
- `CleanupRemovesLogged` states when cleanup does complete. Its conditions are assumed, not derived: the logged files and links can be unlinked, the folder log is in creation order, and nothing foreign sits inside a logged folder.
- `mkdirSync` logs its path even when `mkdir` fails. A call over an existing file therefore logs that file, and `cleanup` then unlinks a file the build never created (`CleanupAfterFailedMkdir`).
- On malformed JSON the getter's error report names an undeclared variable `configPath`. What it throws is that `ReferenceError` (`ConfigPathUndeclared`), not the parse error.

## Model

| member | source | states |
|---|---|---|
| Seqs.Reversed | lib/trackedfs.js:93 | `list.reverse()`: same length, element `i` is element `n-1-i` of the input |
| Seqs.ReversedElements | lib/build-win.js:201-202 | reversing a list keeps exactly its elements |
| Paths.IndexOf | lib/utils.js:132 | `indexOf` returns -1 or an index at which the pattern occurs |
| Paths.IndexOfFirst | lib/utils.js:135 | the index returned is the first occurrence, and -1 exactly when there is none |
| Paths.ContainsExtend | lib/utils.js:158 | a substring of a prefix is a substring of the whole string |
| Paths.Substring | lib/readdirtree.js:81 | `substring(k)` is the suffix after `k` characters, or empty when `k` is past the end |
| Paths.Slashes | lib/readdirtree.js:48 | `replace(/\\/g, "/")` keeps the length, changes every backslash to `/` and keeps every other character |
| Paths.SlashesIdentity | lib/readdirtree.js:55 | a string without backslashes is left unchanged |
| Paths.LastIndexOf | lib/build-win.js:134-135 | the last index of the character, or -1 when there is none |
| Paths.DirnameBasename | lib/build-win.js:134-135 | `basename` has no separator; a name without one has dirname "." and is its own basename; otherwise dirname and basename rejoin to the path |
| Paths.DirnameJoin | lib/build-win.js:140 | the dirname and basename of `join(a, n)` are `a` and `n` for a plain `n` |
| FileSystem.WriteThenRead | lib/utils.js:111-112 | after a `writeFileSync` that succeeds, `readFileSync` of that path returns the data written; this holds also when the path is a link, dangling or not |
| FileSystem.WriteThroughDanglingLink | lib/utils.js:112 | `writeFileSync` through a dangling link whose end lies in a directory creates a file at that end and changes nothing else |
| FileSystem.ExistsGrows | lib/utils.js:144 | what `existsSync` finds stays found while the filesystem only grows |
| Utils.DeleteNoFailStep | lib/utils.js:98-106 | nothing happens for an empty path or one `existsSync` does not find; otherwise a directory is removed with `rmdir`, anything else (a link included) with `unlink`; on this filesystem, which has no permission or I/O failures, it throws exactly for a directory with entries, with ENOTEMPTY |
| Utils.DeleteNoFail | lib/utils.js:98-106 | the disk after the call and the status are those of `DeleteNoFailStep` |
| Tracked.DeleteEach | lib/trackedfs.js:94-96 | the `forEach` of `deleteNoFail`: on this filesystem, which has no permission or I/O failures, the only error that ends it is ENOTEMPTY |
| Tracked.DeleteEachConcat | lib/trackedfs.js:94-96 | deleting `a + b` is deleting `a`, then `b` unless `a` threw |
| Tracked.CleanupResult | lib/trackedfs.js:99-106 | the deletions are one pass in `CleanupOrder`; on success all three logs are empty; a throw while deleting links leaves only the link log reversed, one while deleting files the link and file logs, one while deleting folders all three |
| Tracked.CleanupOrder | lib/trackedfs.js:99-102 | links newest first, then files newest first, then folders newest first, each position named |
| Tracked.CleanupTwice | lib/trackedfs.js:103-105 | after a cleanup that completes, a second cleanup deletes nothing and leaves the logs empty |
| Tracked.UnlinkPass | lib/trackedfs.js:100-101 | deleting logged files and links, none a directory, removes exactly them |
| Tracked.RmdirPass | lib/trackedfs.js:102 | deleting distinct folders, children before parents, with nothing foreign inside, removes exactly them |
| Tracked.ReversedFolders | lib/trackedfs.js:93 | reversing a folder log in creation order puts every child before its parent |
| Tracked.CleanupRemovesLogged | lib/trackedfs.js:99-106 | for unlinkable logged files and links, a folder log in creation order and nothing foreign inside a logged folder, cleanup completes, removes exactly the logged paths, and empties the logs |
| Tracked.CleanupAfterFailedMkdir | lib/trackedfs.js:77-80 | a `mkdirSync` over an existing file fails with EEXIST but logs the file, and `cleanup` then completes and removes that file |
| Tracked.TrackedFS.constructor | lib/trackedfs.js:37-41 | a new TrackedFS has three empty logs |
| Tracked.TrackedFS.AddFile | lib/trackedfs.js:61-63 | appends to the file log only |
| Tracked.TrackedFS.AddFolder | lib/trackedfs.js:65-67 | appends to the folder log only |
| Tracked.TrackedFS.AddLink | lib/trackedfs.js:69-71 | appends to the link log only |
| Tracked.TrackedFS.MkdirSync | lib/trackedfs.js:77-80 | logs its path as a folder before the call, whether or not `mkdir` then fails, and the disk changes as `mkdir` does |
| Tracked.TrackedFS.SymlinkSync | lib/trackedfs.js:82-85 | logs the link path, the second argument, not the target, before the call |
| Tracked.TrackedFS.WriteFileSync | lib/trackedfs.js:87-90 | logs its path as a file before the call |
| Tracked.TrackedFS.ExistsSync | lib/trackedfs.js:52-59 | passes through: reads the disk and records nothing |
| Tracked.TrackedFS.LstatSync | lib/trackedfs.js:52-59 | passes through: the node at the path or ENOENT, nothing recorded |
| Tracked.TrackedFS.ReadFileSync | lib/trackedfs.js:52-59 | passes through: `readFileSync` of the disk, nothing recorded |
| Tracked.TrackedFS.ReadlinkSync | lib/trackedfs.js:52-59 | passes through: the link's target text or an error, nothing recorded |
| Tracked.TrackedFS.DeleteList | lib/trackedfs.js:92-97 | reverses the list and deletes its entries in that order, as `DeleteEach` does |
| Tracked.TrackedFS.Cleanup | lib/trackedfs.js:99-106 | status, disk and logs after the call are those of `CleanupResult` |
| ReadDirTree.Keep | lib/readdirtree.js:43-58 | with no filter every path is kept; for a path without backslashes the filter is asked about the path with its first `trimLength` characters removed |
| ReadDirTree.Listed | lib/readdirtree.js:61-63 | at most one path per child; a path is listed exactly when it is `join(dir, name)` of some child and the filter accepts it; every listed path lies below `dir` |
| ReadDirTree.ReadDir | lib/readdirtree.js:60-78 | every path returned lies below `dir` and was accepted by the filter |
| ReadDirTree.Descend | lib/readdirtree.js:65-75 | every path from the accepted subdirectories lies below `dir` and was accepted by the filter |
| ReadDirTree.Trim | lib/readdirtree.js:80-82 | keeps the length; each path loses its first `trimLength` characters and nothing else, so returned paths keep their backslashes while only the filter's argument is normalised |
| ReadDirTree.ReadDirTreeSync | lib/readdirtree.js:38-83 | fails exactly when the root is missing or not a directory, or `statSync` throws on an accepted dangling link; otherwise returns the reference walk's name paths, joined |
| ReadDirTree.KeepSeesRelative | lib/readdirtree.js:40-57 | the filter is asked about the path relative to the root, with backslashes turned into `/`, whatever the root |
| ReadDirTree.ListedIsWalk | lib/readdirtree.js:61-63 | the accepted children of a listing are the reference walk's one-name paths, in listing order |
| ReadDirTree.ReadDirIsWalk | lib/readdirtree.js:60-78 | the string walk equals the name-path walk mapped to joined paths |
| ReadDirTree.DescendIsWalk | lib/readdirtree.js:65-75 | the concatenated results of accepted subdirectories equal the reference walk's recursive part |
| ReadDirTree.TrimPaths | lib/readdirtree.js:80-82 | trimming the root and one separator off a walked path leaves its path relative to the root |
| ReadDirTree.SegmentsOfJoin | lib/readdirtree.js:62 | splitting a joined name path at its separators gives the names back |
| ReadDirTree.JoinOfSegments | lib/readdirtree.js:62 | rejoining the segments of a string gives the string |
| ReadDirTree.WalkShape | lib/readdirtree.js:60-78 | every walked name path lies strictly below its directory, under one of the listed entries |
| ReadDirTree.WalkProps | lib/readdirtree.js:60-78 | on a well-formed tree the walk has no duplicates and lists every directory before its descendants |
| ReadDirTree.Find | lib/readdirtree.js:67 | the entry found for a name is in the listing with that name, and none is found only when no entry has it |
| ReadDirTree.EntryAtReached | lib/build-win.js:105 | every reached path has an entry, so `lstatSync` of a walked path succeeds |
| ReadDirTree.WalkIff | lib/readdirtree.js:60-78 | a name path is walked exactly when it lies below the directory, it and every ancestor are accepted, and every ancestor is a directory to `stat` |
| ReadDirTree.ReachParent | lib/readdirtree.js:66-71 | the parent of a reached path of two or more names is reached too, and is an entry that `statSync` finds to be a directory |
| ReadDirTree.WalkParent | lib/readdirtree.js:66-71 | the parent of a walked name path is walked too, and is an entry that `statSync` finds to be a directory |
| ReadDirTree.ReachAccepted | lib/readdirtree.js:63 | every ancestor on a reached path, and the entry itself, passed the filter |
| ReadDirTree.ReadDirTreeSyncIff | lib/readdirtree.js:38-83 | a relative path is returned exactly when its entry exists and it and each ancestor are accepted with every ancestor a directory |
| ReadDirTree.Pruning | lib/readdirtree.js:61-71 | every prefix of a returned path was accepted: a rejected entry and everything below it are never returned |
| ReadDirTree.ReadDirTreeSyncOrder | lib/readdirtree.js:61-77 | each path is returned once, and never after one of its descendants |
| ReadDirTree.ReachIffAllPass | lib/readdirtree.js:43-57 | for a path without backslashes, reaching it through the filter is reaching it unfiltered with each prefix passing the filter's test |
| ReadDirTree.ReadDirTreeSyncFiltered | lib/readdirtree.js:43-82 | a path without backslashes is returned exactly when it exists below a chain of directories and the filter accepts it and each ancestor's relative path |
| ReadDirTree.AcceptsPlainPath | lib/readdirtree.js:48 | with no backslash in the names, the filter is asked about the relative path itself |
| CopyTree.CopyFileResult | lib/utils.js:108-113 | a failed read throws before anything is written; otherwise `dst` is logged as a file, and on success reading `dst` gives the data read; the cwd is kept and the disk only grows |
| CopyTree.CopyFile | lib/utils.js:108-113 | the new TrackedFS state and status are those of `CopyFileResult` |
| CopyTree.CopyFileFromDisk | lib/utils.js:111-112 | a successful copy leaves at `dst` the content `readFileSync(src)` had |
| CopyTree.NoSlashRules | lib/utils.js:130-138 | keeps exactly the exclude strings without a `/` |
| CopyTree.SlashRules | lib/utils.js:154-156 | keeps exactly the exclude strings with a `/` |
| CopyTree.PassesAll | lib/utils.js:121-128 | the combined filter passes a name exactly when no rule is a substring of it |
| CopyTree.FilterNames | lib/utils.js:162 | keeps exactly the names that pass every rule, and keeps distinct names distinct |
| CopyTree.Selection | lib/utils.js:151-162 | fails exactly when the walk fails, with its error; otherwise keeps exactly the walked names that pass the `/` rules, each once for a well-formed tree |
| CopyTree.MakeDir | lib/utils.js:141-148 | records the directory as handled; an already handled or existing directory changes nothing else; otherwise only the folder log and the disk change, by one `mkdirSync` |
| CopyTree.Makedir | lib/utils.js:141-148 | the handled set, TrackedFS state and status after the call are those of `MakeDir` |
| CopyTree.CopyTreeResult | lib/utils.js:115-190 | an absent `exclude` throws with nothing changed; a completed copy ends in the saved working directory |
| CopyTree.CopyTree | lib/utils.js:115-190 | status and TrackedFS state after the call are those of `CopyTreeResult` |
| CopyTree.RunMainPass | lib/utils.js:164-179 | the `forEach` loop ends in the state `MainPass` gives |
| CopyTree.CopyEntry | lib/utils.js:165-178 | one iteration ends in the state `MainStep` gives: links deferred or dropped, directories to `makedir`, the rest to `copyFile` |
| CopyTree.RunLinkPass | lib/utils.js:181-188 | the link loop ends in the state `LinkPass` gives |
| CopyTree.MakeLink | lib/utils.js:183-187 | one link: chdir back, `readlinkSync` of the source, chdir to the destination's directory, `symlinkSync` with the same target text |
| CopyTree.MainStep | lib/utils.js:165-178 | a missing source entry throws ENOENT; the working directory and link log are kept; only the step's own destination directory can be recorded as handled; the link of a link entry is deferred, with its source and destination paths, exactly when links are wanted; the disk only grows |
| CopyTree.MainPass | lib/utils.js:164-179 | the working directory and link log are kept; handled set, deferred links and disk only grow; nothing is deferred under `noSymLinks`, and otherwise a completed pass has deferred every link entry among the names |
| CopyTree.LinkStep | lib/utils.js:183-187 | file and folder logs kept; at most the destination is added to the link log; on success the working directory is the destination's directory and the destination is a link with the source link's target text; no existing entry changes |
| CopyTree.LinkPass | lib/utils.js:181-188 | file and folder logs kept, at most one link logged per deferred link, and no existing entry changes |
| CopyTree.LinkPassTargets | lib/utils.js:185-187 | after a completed link pass each deferred destination is a link with its source link's target text verbatim |
| CopyTree.MainPassMkdirOnce | lib/utils.js:140-148 | the folders the main pass logs are distinct, were not handled before, and did not exist when the pass began |
| CopyTree.NoSymLinksNoLinks | lib/utils.js:169-171 | with `noSymLinks`, `copyTree` logs no link, so `symlinkSync` is never called |
| CopyTree.LinksAfterFilesAndFolders | lib/utils.js:164-188 | the main pass logs no link and the link pass no file or folder, so every link comes after all directories and files |
| CopyTree.CopyTreeMkdirOnce | lib/utils.js:140-148 | over a whole copy the folders logged are distinct and none existed beforehand |
| CopyTree.MainStepPlaces | lib/utils.js:165-178 | a step that succeeds on a free destination leaves there a file with the source bytes or a directory, and changes no other path |
| CopyTree.MainPassPlaces | lib/utils.js:164-179 | a completed main pass over distinct names with free destinations places every entry at its destination and changes no path outside them |
| CopyTree.MainPassFindsAll | lib/utils.js:167 | a completed main pass found a source entry for every name |
| CopyTree.PassesCopy | lib/utils.js:164-188 | when both passes complete, every name's destination holds a file with the same bytes, a directory one can change into, or (unless `noSymLinks`) a link with the same target text |
| CopyTree.CopyTreeCopies | lib/utils.js:115-190 | a completed `copyTree` of a well-formed source with free destinations leaves the copy of every selected entry at `join(dst, name)` |
| CopyTree.CopyTreeCopiesEntry | lib/utils.js:115-190 | the same for every entry below a chain of source directories whose relative path holds no exclude string |
| CopyTree.CopyTreeShape | lib/utils.js:164-189 | a failed main pass leaves its state; after a completed one the logs and disk are the link pass's; `copyTree` completes exactly when the main pass, the link pass and the final `chdir` all succeed |
| CopyTree.MainStepOk | lib/utils.js:165-178 | one step over an existing source entry, a ready free destination and a parent directory that exists succeeds |
| CopyTree.MainPassCompletes | lib/utils.js:164-179 | over distinct names with ready destinations, each copied into an existing directory or into the destination of an earlier source directory, the main pass completes, leaving every destination's parent a directory and no entry where a link is to be made |
| CopyTree.Deferred | lib/utils.js:168-171 | holds exactly one pending link, with its source and destination paths, for each link entry among the names |
| CopyTree.MainPassDefers | lib/utils.js:164-179 | a completed main pass with links wanted has appended exactly `Deferred` of its names, in order |
| CopyTree.LinkPassCompletes | lib/utils.js:181-188 | from an enterable saved directory, with each link destination absent and inside a directory, the link pass over `Deferred` completes |
| CopyTree.FilterNamesOrder | lib/utils.js:162 | `fileNames.filter` keeps ancestors before their descendants |
| CopyTree.SelectionIsFiltered | lib/utils.js:151-162 | the selected names are the walk's relative paths, joined, that pass the `/` rules, and they are ancestors first exactly when the walk's result is |
| CopyTree.WalkedReached | lib/readdirtree.js:60-78 | a walked relative path is the join of a walked path of plain names, which names an existing source entry |
| CopyTree.WalkedParent | lib/readdirtree.js:66-71 | the parent of a walked relative path of two or more names is walked too, is that path less its last name, and is a directory to `statSync` |
| CopyTree.FilteredParents | lib/utils.js:151-162 | when no selected link has a selected name below it, each selected name exists in the source and is copied into `dst` itself or into the destination of an earlier selected directory |
| CopyTree.PassesComplete | lib/utils.js:164-189 | over distinct existing names with ready destinations and parents, from an enterable working directory, the main pass, the link pass and the final `chdir` all succeed |
| CopyTree.CopyTreeCompletes | lib/utils.js:115-190 | into an existing directory `dst`, from an enterable working directory, with every selected destination ready and no selected link with a selected name below it, `copyTree` completes and leaves the copy of every selected name at `join(dst, name)` |
| CopyTree.LinkToDirectoryThrows | lib/readdirtree.js:67-69 | a source holding a link to a directory with a file in it throws ENOENT, with links wanted or not: the walk goes through the link, the link itself is deferred or dropped (lib/utils.js:168-171), so writing the file below it (lib/utils.js:177) finds no directory |
| CopyTree.PrefixAccepted | lib/utils.js:130-138 | a path no exclude string occurs in passes the walk-time filter at itself and at each ancestor |
| CopyTree.SelectionIff | lib/utils.js:130-162 | with `/` as separator, an entry survives both exclusion passes exactly when it exists below a chain of directories and no exclude string is a substring of its relative path |
| CopyTree.SelectedSound | lib/utils.js:151-162 | what survives both passes contains no exclude string |
| CopyTree.SelectedComplete | lib/utils.js:151-162 | an existing entry with no exclude string in its path survives both passes |
| BuildWin.PassesRules | lib/build-win.js:76-93 | the filter passes a name exactly when every rule passes: a string rule is no substring, a RegExp rule does not match |
| BuildWin.RulesFilterTest | lib/build-win.js:95 | the filter handed to the walk is that test |
| BuildWin.Blocks | lib/build-win.js:111 | `ceil(size/4096)*4096` is a multiple of 4096, at least the size, and less than a block more |
| BuildWin.ClassifyAll | lib/build-win.js:103-113 | the `forEach` fails only with ENOENT |
| BuildWin.ClassifyAllFails | lib/build-win.js:105 | the `forEach` fails exactly when some walked name has nothing at it |
| BuildWin.Classify | lib/build-win.js:103-113 | the loop's result is `ClassifyAll` of the walked names |
| BuildWin.GetFileNamesResult | lib/build-win.js:73-116 | a failing walk is passed on; otherwise it fails exactly when some walked name has nothing at it; on success `folders` and `files` are the walked directories and regular files in walk order and `size` is a multiple of 4096 |
| BuildWin.GetFileNames | lib/build-win.js:73-116 | the method's result is the walk followed by the classification |
| BuildWin.OnlyMembers | lib/build-win.js:106-110 | the kept names are exactly the walked names of the requested kind |
| BuildWin.ClassifyAllSpec | lib/build-win.js:103-113 | `folders` is the walked directories and `files` the walked regular files, in walk order, links in neither; `size` is a multiple of 4096, at least the files' bytes and under that plus 4096 per file |
| BuildWin.ClassifyAllPartition | lib/build-win.js:106-110 | every walked name is a directory, regular file or link and lands in exactly the matching list |
| BuildWin.GetFileNamesFailsOnlyInWalk | lib/build-win.js:95-105 | on a well-formed tree `lstatSync` finds every walked name, so `getFileNames` fails only where the walk does |
| BuildWin.GetFileNamesKept | lib/build-win.js:76-113 | a path is in `folders` or `files` exactly when it is a directory or regular file below a chain of directories and it and each ancestor pass every rule |
| BuildWin.WalkKept | lib/build-win.js:76-95 | the walk returns a path exactly when it exists below a chain of directories and it and each ancestor pass every rule |
| BuildWin.OnlyKeepsOrder | lib/build-win.js:106-110 | keeping some of the walked names keeps them distinct and ancestors first |
| BuildWin.GetFileNamesFolderOrder | lib/build-win.js:103-113 | `folders` holds each directory once, and a directory before its descendants |
| BuildWin.OperandOfCommand | lib/build-win.js:144-154 | an `$INSTDIR` command reads back as the operand it was built with |
| BuildWin.MakeDeleteFileCmd | lib/build-win.js:144-146 | `delete "$INSTDIR\<f>"` reads back as `f` |
| BuildWin.MakeRmDirCmd | lib/build-win.js:152-154 | `rmDir "$INSTDIR\<d>"` reads back as `d` |
| BuildWin.MakeDeleteFileCmds | lib/build-win.js:148-150 | one delete command per file, in order |
| BuildWin.MakeRmDirCmds | lib/build-win.js:156-158 | one `rmDir` command per folder, in order |
| BuildWin.MakeFileCmd | lib/build-win.js:133-136 | for a directory without a newline and a name without a quote, the command reads back as the dirname and basename of `dst` and the source `src` |
| BuildWin.MakeFileCmds | lib/build-win.js:138-142 | one file command per file, each from `join(srcPath, f)` to `f` |
| BuildWin.WinPath | lib/build-win.js:134 | a Windows path keeps the length and turns each `/` into `\` |
| BuildWin.InstallThenDelete | lib/build-win.js:138-150 | for a relative name, the file `makeFileCmd` installs is the one `makeDeleteFileCmd` removes |
| BuildWin.FilesToInstall | lib/build-win.js:186-192 | four fixed commands, the icon and the three `bin` scripts, then one command per node file and per happyfuntimes file; what each position installs is stated by `UninstallRemovesInstalled` |
| BuildWin.FilesToDeleteAsWritten | lib/build-win.js:194-203 | one command per fixed delete, per file and per folder, plus the final `rmDir` of `bin`, with the `bin` literals as written |
| BuildWin.FilesToDelete | lib/build-win.js:194-203 | the same count of commands with the intended `bin\` paths; what each position deletes is stated by `UninstallRemovesInstalled` |
| BuildWin.BinNamesMissed | lib/build-win.js:196-198 | for any plain name, the command installed as `bin/<name>` lands at `$INSTDIR\bin\<name>`, while a delete of `bin<name>` removes `$INSTDIR\bin<name>`, a different file |
| BuildWin.BinsMissedAsWritten | lib/build-win.js:188-198 | as written, none of the three fixed `bin` deletes removes what the install command at the same position puts down |
| BuildWin.UninstallMissesBinAsWritten | lib/build-win.js:186-203 | in the assembled lists as written, positions 1 to 3 install a file and delete another |
| BuildWin.BinNamesPaired | lib/build-win.js:188-198 | for any plain name, a command installed as `bin/<name>` is what a delete of `bin\<name>` removes |
| BuildWin.BinsPaired | lib/build-win.js:188-198 | with the intended paths, each of the three `bin` commands is removed by the delete at its position |
| BuildWin.AllFilesPaired | lib/build-win.js:191-200 | each node or happyfuntimes file command is paired with the delete at the same position |
| BuildWin.PairedAt | lib/build-win.js:186-203 | at each position after the icon, the install command and the delete command touch the same file |
| BuildWin.UninstallRemovesInstalled | lib/build-win.js:186-203 | with the intended paths, the uninstall list removes every file the install list puts down, position by position, and deletes the icon at `$INSTDIR\logo.ico` |
| BuildWin.ReversedChildrenFirst | lib/build-win.js:201-202 | reversing a list whose ancestors come first puts each descendant before its ancestors |
| BuildWin.RmDirChildrenFirst | lib/build-win.js:201-202 | the `rmDir` of a folder comes after the `rmDir` of each of its descendants |
| BuildWin.UninstallFolderOrder | lib/build-win.js:201-202 | for the walked folders of a tree, `rmDir`s remove descendants before ancestors |
| BuildWin.NatToString | lib/build-win.js:217 | `toString` of a whole number is decimal digits without leading zeros whose value is the number |
| BuildWin.InstallSizeKB | lib/build-win.js:217 | the string is digits whose value is `floor((nodeSize + hftSize) / 1024)` |
| BuildWin.InstallSizeCoversFiles | lib/build-win.js:217 | for sizes from `getFileNames` the KB figure times 1024 is exactly the block total, which covers the bytes of every listed file |
| BuildWin.WholeKB | lib/build-win.js:217 | a whole number of 4096-byte blocks is a whole number of KB |
| BuildWin.ToCrLf | lib/build-win.js:223 | every `\n` in the result is preceded by a `\r` |
| BuildWin.CrLfRoundTrip | lib/build-win.js:223 | turning each `\r\n` back into `\n` gives the script back, so the conversion loses nothing |
| HftConfig.ResolvePath | lib/hft-config.js:46 | `path.resolve` gives a non-empty path |
| HftConfig.Initial | lib/hft-config.js:37-39 | at load the config has not been read and there is no install directory |
| HftConfig.SetupStep | lib/hft-config.js:41-51 | throws exactly once the config has been read, and then changes nothing; never changes the read flag |
| HftConfig.GetStep | lib/hft-config.js:56-79 | a truthy cached directory is returned with nothing changed; otherwise the read flag is set; it throws exactly for malformed JSON when no directory is cached; a parsed file's `installDir` (possibly undefined) is returned and cached; a missing file returns undefined and caches nothing |
| HftConfig.CheckStep | lib/hft-config.js:81-87 | `check` never throws and leaves the state the getter leaves |
| HftConfig.RequireStep | lib/hft-config.js:95-101 | `hftRequire` leaves the state the getter leaves |
| HftConfig.SetupAfterReadThrows | lib/hft-config.js:42-44 | once the getter has read the file, `setup` throws and changes nothing |
| HftConfig.SetupDirWins | lib/hft-config.js:48-60 | a directory given to `setup` is what the getter returns, without reading the file or setting the read flag |
| HftConfig.MissingRetries | lib/hft-config.js:59-65 | a missing file sets the read flag and returns undefined, and the next call answers as a first call would |
| HftConfig.MalformedThrows | lib/hft-config.js:69-74 | malformed JSON throws after the read flag is set |
| HftConfig.Cached | lib/hft-config.js:75-77 | a truthy directory once returned is returned by every later call, whatever the file then holds |
| HftConfig.CheckIff | lib/hft-config.js:81-87 | `check` is true exactly when the getter returns a value other than undefined without throwing |
| HftConfig.RequireIff | lib/hft-config.js:95-101 | `hftRequire` throws exactly when the getter throws or returns a falsy value, and otherwise loads the module under the install directory |
| HftConfig.Config.constructor | lib/hft-config.js:37-39 | the globals start as `Initial` |
| HftConfig.Config.Setup | lib/hft-config.js:41-51 | result and globals after the call are those of `SetupStep` |
| HftConfig.Config.GetHftInstallDir | lib/hft-config.js:56-79 | result and globals after the call are those of `GetStep` |
| HftConfig.Config.Check | lib/hft-config.js:81-87 | result and globals after the call are those of `CheckStep` |
| HftConfig.Config.HftRequire | lib/hft-config.js:95-101 | result and globals after the call are those of `RequireStep` |

## Left out

- `execute`, `getTempFolder` and `getTempFilename` (lib/utils.js): child processes and temporary directories, which are I/O.
- lib/build-osx.js, lib/build-exe.js and lib/index.js: tool invocation and command-line glue, not part of this model.
- The `makensis` lookup and run, the promise chain of `build`, the icon and license paths, and the version split. They are tool invocation around the lists.
- The template substitution `strings.replaceParams`, `semver.clean` and `hftExe.getExcludes`/`getPackageInfo` come from modules that are not part of this model. The exclude rules are a parameter.
- RegExp exclusion rules and RegExp or function filters: opaque predicates on strings.
- `path.join`, `dirname`, `basename` and `resolve`: modelled for `/`-separated paths only; `join` does not normalise its result.
- Because `join` is not normalised, a quirk of the source goes unmodelled. Node's `path.join` drops a trailing `/` or a leading `./` of the root. So the `substring(filePath.length + 1)` of lib/readdirtree.js:40,55,81 then cuts into the names. For root `src/`, `join` gives `src/a` and `substring(5)` gives an empty string, where the model returns `a`.
- The filesystem has no permissions and no I/O failures. Its only errors are ENOENT, EEXIST, ENOTDIR, EISDIR, ENOTEMPTY and EINVAL. The EACCES, EPERM, EBUSY or EIO an `rmdirSync` or `unlinkSync` may throw (lib/utils.js:101,103) are not modelled.
- Platform separators: `WinPath` captures only that Windows treats `/` and `\` alike.
- The property wrappers `TrackedFS` installs for non-function fields of `fs`, and every passthrough call other than `existsSync`, `lstatSync`, `readFileSync` and `readlinkSync`.
- `process.chdir` is the `Disk.Chdir` method on the modelled working directory.
- The `process.on('exit')` hooks and `chmodSync` are not modelled.
- `hftConfig.getHFTInstallDir`, called by the build files, is not exported by lib/hft-config.js:103-105, so that call is not modelled.
- The `verbose` logging of `copyTree` is not modelled.
- Symbolic-link cycles in the walked tree: the tree is a finite value, so the walk always terminates.
- What `readFileSync` and `JSON.parse` make of the config file is an input of each getter call: missing, malformed, or an object whose `installDir` is a string or absent. Other JSON values of `installDir` are not modelled.
- `setup` called with no options object throws a `TypeError`; that case is not modelled.
- Tracked.CleanupRemovesLogged: assumes its conditions on the logs instead of deriving them from how `TrackedFS` builds them. A folder logged twice, or logged by a `mkdirSync` that failed, breaks the creation-order condition. Proved only for logs whose link targets resolve in one hop, to an entry that is not logged. This also excludes a link to a logged file, which is safe. The restriction keeps the proof to one removal order. The only link the build files create, to `/Applications` (lib/build-exe.js:171), meets it.
- CopyTree.CopyTreeResult: its own contract states only that an absent `exclude` throws with nothing changed and that a completed copy restores the working directory. What a completed copy leaves under `dst` is stated by `CopyTreeCopies`. That lemma assumes no destination is a link already, and that an existing destination of a directory is a directory.
- CopyTree.CopyTreeCopies: assumes the copy completed. `CopyTreeCompletes` derives completion from conditions on `dst`, the working directory and the destinations.
- CopyTree.CopyTreeCompletes: proved only when no selected link has a selected name below it. Such a source makes the source code throw. `statSync` takes the walk through a link to a directory (lib/readdirtree.js:67-69), but the link itself is deferred or dropped (lib/utils.js:168-171), so the `writeFileSync` of a name below it (lib/utils.js:112, 177) finds no directory and throws ENOENT. `LinkToDirectoryThrows` shows this on a two-entry source.
- Paths are taken as given, as absolute strings, and are never resolved against the working directory. The working directory decides only the status of `process.chdir`. So the `symlinkSync` of lib/utils.js:186-187 that follows `chdir(dirname(dst))` is not resolved against the new directory; for an absolute `dst` that makes no difference.
- A chain of more than 40 links makes a call fail with ENOENT, where Linux reports ELOOP.
- Links in the parent components of a path are not followed: `mkdirSync`, `writeFileSync` and `symlinkSync` need the parent itself to be a directory entry.
- HftConfig.ResolvePath: states only that the result is non-empty; `path.resolve` is modelled as normalising `cwd/p`, or `p` itself when absolute.

## Findings

| source | as written | input that shows it | evidently intended | confidence | as-written member | corrected member |
|---|---|---|---|---|---|---|
| lib/build-win.js:196-198 | `makeDeleteFileCmd("bin\hft.cmd")`: `\h` is no JavaScript escape, so the string is `binhft.cmd` and the uninstaller deletes `$INSTDIR\binhft.cmd` | the command installed by lib/build-win.js:188 as `bin/hft.cmd` lands at `$INSTDIR\bin\hft.cmd`, which no delete removes; the same holds for `hft-init.cmd` and `hft-stop.cmd` | `"bin\\hft.cmd"`, deleting `$INSTDIR\bin\hft.cmd` | not executed | BuildWin.UninstallMissesBinAsWritten | BuildWin.UninstallRemovesInstalled |
