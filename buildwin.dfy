/**
 * lib/build-win.js: the parts of the Windows installer build that decide
 * what goes into the NSIS script. `getFileNames` walks a folder and splits
 * what it finds into folders and files with a block-rounded total size; the
 * command builders turn those lists into the script's install and uninstall
 * sections; the install size is given in KB; and the script is written with
 * CRLF line ends.
 *
 * The folder being walked is a source tree value as in the ReadDirTree
 * module, and `lstatSync` looks entries up in it. Paths use '/' as the
 * separator; on Windows, where the installer runs, '/' and '\\' name the same
 * path, which is what `WinPath` captures.
 */
module BuildWin {
  import opened Wrappers
  import opened Seqs
  import opened Paths
  import opened FileSystem
  import opened ReadDirTree

  /** `blockSize`: the allocation unit sizes are rounded up to. */
  const BlockSize: nat := 4096

  // ---------------------------------------------------------------------------
  // getFileNames
  // ---------------------------------------------------------------------------

  /** An exclude rule from the package's excludes: a string or a RegExp (an opaque test here). */
  datatype Rule = Str(s: string) | Re(test: string -> bool)

  /** The filter a rule becomes: a string must not be a substring, a RegExp must not match. */
  predicate Passes(rule: Rule, name: string) {
    match rule
    case Str(s) => !Contains(name, s)
    case Re(test) => !test(name)
  }

  /** The walk's filter: every rule passes. It is handed to the walk as a value. */
  function PassesRules(rules: seq<Rule>, name: string): (b: bool)
    ensures b <==> forall i :: 0 <= i < |rules| ==> Passes(rules[i], name)
  {
    if rules == [] then true else Passes(rules[0], name) && PassesRules(rules[1..], name)
  }

  function RulesFilter(rules: seq<Rule>): Filter {
    Callback(name => PassesRules(rules, name))
  }

  /** `Math.floor((size + blockSize - 1) / blockSize) * blockSize`. */
  function Blocks(size: nat): (r: nat)
    ensures r % BlockSize == 0
    ensures size <= r < size + BlockSize
  {
    (size + BlockSize - 1) / BlockSize * BlockSize
  }

  /** The `results` object of `getFileNames`. */
  datatype FileNames = FileNames(folders: seq<string>, files: seq<string>, size: nat)

  /** One iteration of the `forEach`: `lstatSync` fails with ENOENT when nothing is there. */
  function Classified(acc: FileNames, es: seq<Entry>, name: string): Result<FileNames, Errno> {
    match EntryAt(es, Segments(name))
    case None => Failure(ENOENT)
    case Some(x) =>
      match x.kind
      case SymbolicLink(_, _) => Success(acc)
      case Directory => Success(acc.(folders := acc.folders + [name]))
      case RegularFile(data) => Success(acc.(files := acc.files + [name], size := acc.size + Blocks(|data|)))
  }

  /** The whole `forEach` over `names`; the first failing `lstatSync` ends it. */
  function ClassifyAll(es: seq<Entry>, names: seq<string>): (r: Result<FileNames, Errno>)
    ensures r.Failure? ==> r.error == ENOENT
    decreases |names|
  {
    if names == [] then Success(FileNames([], [], 0))
    else
      match ClassifyAll(es, names[..|names| - 1])
      case Failure(code) => Failure(code)
      case Success(acc) => Classified(acc, es, names[|names| - 1])
  }

  /** The fold fails exactly when some walked name has nothing at it. */
  lemma {:induction false} ClassifyAllFails(es: seq<Entry>, names: seq<string>)
    ensures ClassifyAll(es, names).Failure? <==> exists i :: 0 <= i < |names| && EntryAt(es, Segments(names[i])).None?
    decreases |names|
  {
    if names != [] {
      var init := names[..|names| - 1];
      var last := names[|names| - 1];
      ClassifyAllFails(es, init);
      forall i | 0 <= i < |init| ensures init[i] == names[i] {
      }
      if EntryAt(es, Segments(last)).None? {
        assert EntryAt(es, Segments(names[|names| - 1])).None?;
      }
    }
  }

  /** One more name extends the fold by one `Classified` step. */
  lemma ClassifyAllSnoc(es: seq<Entry>, names: seq<string>, i: nat)
    requires i < |names|
    ensures ClassifyAll(es, names[..i + 1]) ==
      if ClassifyAll(es, names[..i]).Failure? then ClassifyAll(es, names[..i])
      else Classified(ClassifyAll(es, names[..i]).value, es, names[i])
  {
    assert names[..i + 1][..i] == names[..i];
  }

  /**
   * `getFileNames(folder)`, with `rules` the package's excludes: a failing
   * walk is passed on; otherwise it fails exactly when some walked name has
   * nothing at it, and on success holds the walked directories and regular
   * files in walk order and a total that is a whole number of blocks.
   */
  function GetFileNamesResult(folder: string, source: Option<Entry>, rules: seq<Rule>): (r: Result<FileNames, Errno>)
    ensures var walk := ReadDirTreeSync(folder, source, RulesFilter(rules));
      walk.Failure? ==> r == Failure(walk.error)
    ensures var walk := ReadDirTreeSync(folder, source, RulesFilter(rules));
      walk.Success? ==>
        (r.Failure? <==> exists i :: 0 <= i < |walk.value| && EntryAt(source.value.children, Segments(walk.value[i])).None?)
    ensures var walk := ReadDirTreeSync(folder, source, RulesFilter(rules));
      r.Success? ==>
        && walk.Success?
        && r.value.folders == Only(source.value.children, walk.value, true)
        && r.value.files == Only(source.value.children, walk.value, false)
        && r.value.size % BlockSize == 0
  {
    var walk := ReadDirTreeSync(folder, source, RulesFilter(rules));
    if walk.Failure? then Failure(walk.error)
    else
      var es := source.value.children;
      ClassifyAllFails(es, walk.value);
      var c := ClassifyAll(es, walk.value);
      if c.Failure? then c else ClassifyAllSpec(es, walk.value); c
  }

  method GetFileNames(folder: string, source: Option<Entry>, rules: seq<Rule>) returns (r: Result<FileNames, Errno>)
    ensures r == GetFileNamesResult(folder, source, rules)
  {
    var walk := ReadDirTreeSync(folder, source, RulesFilter(rules));
    if walk.Failure? {
      return Failure(walk.error);
    }
    r := Classify(source.value.children, walk.value);
  }

  /** The `forEach` of `getFileNames` over the walked names. */
  method Classify(es: seq<Entry>, names: seq<string>) returns (r: Result<FileNames, Errno>)
    ensures r == ClassifyAll(es, names)
  {
    var folders: seq<string>, files: seq<string>, size: nat := [], [], 0;
    var i := 0;
    while i < |names|
      invariant 0 <= i <= |names|
      invariant ClassifyAll(es, names[..i]) == Success(FileNames(folders, files, size))
    {
      var name := names[i];
      ClassifyAllSnoc(es, names, i);
      var x := EntryAt(es, Segments(name));
      if x.None? {
        ClassifyAllFails(es, names);
        return Failure(ENOENT);
      }
      match x.value.kind {
        case SymbolicLink(_, _) =>
        case Directory =>
          folders := folders + [name];
        case RegularFile(data) =>
          files := files + [name];
          size := size + Blocks(|data|);
      }
      i := i + 1;
    }
    assert names[..i] == names;
    r := Success(FileNames(folders, files, size));
  }

  // The reference view of the split: which list an entry belongs in.

  predicate IsDirAt(es: seq<Entry>, name: string) {
    EntryAt(es, Segments(name)).Some? && EntryAt(es, Segments(name)).value.kind.Directory?
  }

  predicate IsFileAt(es: seq<Entry>, name: string) {
    EntryAt(es, Segments(name)).Some? && EntryAt(es, Segments(name)).value.kind.RegularFile?
  }

  predicate IsLinkAt(es: seq<Entry>, name: string) {
    EntryAt(es, Segments(name)).Some? && EntryAt(es, Segments(name)).value.kind.SymbolicLink?
  }

  /** The size `lstat` reports for a regular file (0 for anything else). */
  function FileSizeAt(es: seq<Entry>, name: string): nat {
    if IsFileAt(es, name) then |EntryAt(es, Segments(name)).value.kind.data| else 0
  }

  /** The names of `names`, in order, that are directories (`dirs`) or regular files. */
  function Only(es: seq<Entry>, names: seq<string>, dirs: bool): seq<string>
    decreases |names|
  {
    if names == [] then []
    else
      var last := names[|names| - 1];
      var keep := if dirs then IsDirAt(es, last) else IsFileAt(es, last);
      Only(es, names[..|names| - 1], dirs) + (if keep then [last] else [])
  }

  /** `Only` keeps exactly the names of the requested kind. */
  lemma {:induction false} OnlyMembers(es: seq<Entry>, names: seq<string>, dirs: bool, n: string)
    ensures n in Only(es, names, dirs) <==> n in names && (if dirs then IsDirAt(es, n) else IsFileAt(es, n))
    decreases |names|
  {
    if names != [] {
      var init := names[..|names| - 1];
      assert names == init + [names[|names| - 1]];
      OnlyMembers(es, init, dirs, n);
    }
  }

  /** The byte sizes of `files`, added up. */
  function SumSizes(es: seq<Entry>, files: seq<string>): nat
    decreases |files|
  {
    if files == [] then 0 else SumSizes(es, files[..|files| - 1]) + FileSizeAt(es, files[|files| - 1])
  }

  lemma SumMultiple(a: nat, b: nat)
    requires a % BlockSize == 0 && b % BlockSize == 0
    ensures (a + b) % BlockSize == 0
  {
    var p, q := a / BlockSize, b / BlockSize;
    assert a == BlockSize * p && b == BlockSize * q;
    assert a + b == BlockSize * (p + q);
  }

  /** The properties `ClassifyAllSpec` states, of an accumulator for `names`. */
  predicate SplitOf(es: seq<Entry>, names: seq<string>, v: FileNames) {
    && v.folders == Only(es, names, true)
    && v.files == Only(es, names, false)
    && SizeCovers(es, v.files, v.size)
  }

  /** `size` is a whole number of blocks, at least the bytes of `files` and less than a block more per file. */
  predicate SizeCovers(es: seq<Entry>, files: seq<string>, size: nat) {
    size % BlockSize == 0 && SumSizes(es, files) <= size <= SumSizes(es, files) + 4095 * |files|
  }

  /** One `Classified` step keeps `SplitOf`. */
  lemma ClassifiedStep(es: seq<Entry>, names: seq<string>, acc: FileNames)
    requires names != []
    requires SplitOf(es, names[..|names| - 1], acc)
    requires Classified(acc, es, names[|names| - 1]).Success?
    ensures SplitOf(es, names, Classified(acc, es, names[|names| - 1]).value)
  {
    var last := names[|names| - 1];
    match EntryAt(es, Segments(last)).value.kind
    case SymbolicLink(_, _) => LinkStep(es, names, acc);
    case Directory => DirStep(es, names, acc);
    case RegularFile(data) => FileStep(es, names, acc);
  }

  lemma LinkStep(es: seq<Entry>, names: seq<string>, acc: FileNames)
    requires names != [] && IsLinkAt(es, names[|names| - 1])
    requires SplitOf(es, names[..|names| - 1], acc)
    ensures SplitOf(es, names, acc)
  {
    OnlyStep(es, names, true);
    OnlyStep(es, names, false);
  }

  lemma DirStep(es: seq<Entry>, names: seq<string>, acc: FileNames)
    requires names != [] && IsDirAt(es, names[|names| - 1])
    requires SplitOf(es, names[..|names| - 1], acc)
    ensures SplitOf(es, names, acc.(folders := acc.folders + [names[|names| - 1]]))
  {
    OnlyStep(es, names, true);
    OnlyStep(es, names, false);
  }

  lemma FileStep(es: seq<Entry>, names: seq<string>, acc: FileNames)
    requires names != [] && IsFileAt(es, names[|names| - 1])
    requires SplitOf(es, names[..|names| - 1], acc)
    ensures var last := names[|names| - 1];
      var n := |EntryAt(es, Segments(last)).value.kind.data|;
      SplitOf(es, names, acc.(files := acc.files + [last], size := acc.size + Blocks(n)))
  {
    var last := names[|names| - 1];
    var v := acc.(files := acc.files + [last], size := acc.size + Blocks(|EntryAt(es, Segments(last)).value.kind.data|));
    assert v.folders == Only(es, names, true) by {
      OnlyStep(es, names, true);
    }
    assert v.files == Only(es, names, false) by {
      var init := names[..|names| - 1];
      assert acc.files == Only(es, init, false);
      OnlyStep(es, names, false);
      assert Only(es, names, false) == Only(es, init, false) + [last];
    }
    assert SizeCovers(es, v.files, v.size) by {
      SizeStep(es, acc.files, acc.size, last);
    }
  }

  /** `Only` of a non-empty list: `Only` of all but the last, and the last if it is kept. */
  lemma OnlyStep(es: seq<Entry>, names: seq<string>, dirs: bool)
    requires names != []
    ensures var last := names[|names| - 1];
      Only(es, names, dirs) == Only(es, names[..|names| - 1], dirs)
        + (if (if dirs then IsDirAt(es, last) else IsFileAt(es, last)) then [last] else [])
  {
  }

  /** Adding a regular file's blocks keeps the size a whole number of blocks within a block per file of the bytes. */
  lemma SizeStep(es: seq<Entry>, files: seq<string>, size: nat, last: string)
    requires IsFileAt(es, last)
    requires SizeCovers(es, files, size)
    ensures SizeCovers(es, files + [last], size + Blocks(|EntryAt(es, Segments(last)).value.kind.data|))
  {
    var n := |EntryAt(es, Segments(last)).value.kind.data|;
    var fs := files + [last];
    assert fs[..|fs| - 1] == files;
    assert SumSizes(es, fs) == SumSizes(es, files) + n;
    SumMultiple(size, Blocks(n));
  }

  /**
   * What the split computes: the directories and the regular files of the
   * walk in walk order, links in neither, and a total that is a whole number
   * of blocks, at least the bytes of the files and less than a block more
   * per file.
   */
  lemma {:induction false} ClassifyAllSpec(es: seq<Entry>, names: seq<string>)
    requires ClassifyAll(es, names).Success?
    ensures var v := ClassifyAll(es, names).value;
      && v.folders == Only(es, names, true)
      && v.files == Only(es, names, false)
      && v.size % BlockSize == 0
      && SumSizes(es, v.files) <= v.size <= SumSizes(es, v.files) + (BlockSize - 1) * |v.files|
    decreases |names|
  {
    if names != [] {
      var init := names[..|names| - 1];
      ClassifyAllSpec(es, init);
      ClassifiedStep(es, names, ClassifyAll(es, init).value);
    }
  }

  /** Every walked name is a directory, a regular file or a link, and lands in exactly the matching list. */
  lemma ClassifyAllPartition(es: seq<Entry>, names: seq<string>, n: string)
    requires ClassifyAll(es, names).Success? && n in names
    ensures var v := ClassifyAll(es, names).value;
      && (n in v.folders <==> IsDirAt(es, n))
      && (n in v.files <==> IsFileAt(es, n))
      && (IsLinkAt(es, n) <==> n !in v.folders && n !in v.files)
  {
    ClassifyAllSpec(es, names);
    OnlyMembers(es, names, true, n);
    OnlyMembers(es, names, false, n);
  }

  /** `lstatSync` finds every walked name of a well-formed tree, so `getFileNames` fails only where the walk does. */
  lemma GetFileNamesFailsOnlyInWalk(folder: string, source: Option<Entry>, rules: seq<Rule>)
    requires ReadDirTreeSync(folder, source, RulesFilter(rules)).Success?
    requires WellFormed(source.value.children)
    ensures GetFileNamesResult(folder, source, rules).Success?
  {
    var f := RulesFilter(rules);
    var es := source.value.children;
    var names := ReadDirTreeSync(folder, source, f).value;
    ClassifyAllFails(es, names);
    forall i | 0 <= i < |names| ensures EntryAt(es, Segments(names[i])).Some? {
      ReadDirTreeSyncIff(folder, source, f, names[i]);
      EntryAtReached([], es, Segments(names[i]), f);
    }
  }

  /** The path of an entry and of each of its ancestors passes every exclude rule. */
  predicate KeptByRules(rules: seq<Rule>, s: string) {
    forall k :: 1 <= k <= |Segments(s)| ==> PassesRules(rules, JoinSegments(Segments(s)[..k]))
  }

  /**
   * An entry is kept exactly when it exists below a chain of directories and
   * it and each of its ancestors pass every rule; a directory lands in
   * `folders`, a regular file in `files`.
   */
  lemma GetFileNamesKept(folder: string, source: Option<Entry>, rules: seq<Rule>, s: string)
    requires ReadDirTreeSync(folder, source, RulesFilter(rules)).Success?
    requires WellFormed(source.value.children)
    requires '\\' !in s
    ensures GetFileNamesResult(folder, source, rules).Success?
    ensures var es := source.value.children;
      var v := GetFileNamesResult(folder, source, rules).value;
      && (s in v.folders <==> Reach([], es, Segments(s), NoFilter) && KeptByRules(rules, s) && IsDirAt(es, s))
      && (s in v.files <==> Reach([], es, Segments(s), NoFilter) && KeptByRules(rules, s) && IsFileAt(es, s))
  {
    var es := source.value.children;
    var names := ReadDirTreeSync(folder, source, RulesFilter(rules)).value;
    GetFileNamesFailsOnlyInWalk(folder, source, rules);
    var v := ClassifyAll(es, names).value;
    assert GetFileNamesResult(folder, source, rules) == ClassifyAll(es, names);
    ClassifyAllSpec(es, names);
    OnlyMembers(es, names, true, s);
    OnlyMembers(es, names, false, s);
    WalkKept(folder, source, rules, s);
  }

  /** The walk with the rules as filter keeps exactly the existing paths that the rules keep. */
  lemma WalkKept(folder: string, source: Option<Entry>, rules: seq<Rule>, s: string)
    requires ReadDirTreeSync(folder, source, RulesFilter(rules)).Success?
    requires WellFormed(source.value.children)
    requires '\\' !in s
    ensures s in ReadDirTreeSync(folder, source, RulesFilter(rules)).value <==>
      Reach([], source.value.children, Segments(s), NoFilter) && KeptByRules(rules, s)
  {
    var f, segs := RulesFilter(rules), Segments(s);
    ReadDirTreeSyncFiltered(folder, source, f, s);
    forall k | 1 <= k <= |segs| ensures Test(f, JoinSegments(segs[..k])) == PassesRules(rules, JoinSegments(segs[..k])) {
      RulesFilterTest(rules, JoinSegments(segs[..k]));
    }
  }

  /** The walk's filter passes a name exactly when every rule does. */
  lemma RulesFilterTest(rules: seq<Rule>, name: string)
    ensures Test(RulesFilter(rules), name) == PassesRules(rules, name)
  {
  }

  /** No entry of `xs` comes after one of its descendants. */
  predicate AncestorsFirst(xs: seq<string>) {
    forall i, j :: 0 <= i < j < |xs| ==> !IsAncestor(xs[j], xs[i])
  }

  /** Keeping some of the names keeps them distinct and keeps ancestors first. */
  lemma {:induction false} OnlyKeepsOrder(es: seq<Entry>, names: seq<string>, dirs: bool)
    requires NoDuplicates(names) && AncestorsFirst(names)
    ensures NoDuplicates(Only(es, names, dirs)) && AncestorsFirst(Only(es, names, dirs))
    decreases |names|
  {
    if names != [] {
      var init := names[..|names| - 1];
      var last := names[|names| - 1];
      OnlyKeepsOrder(es, init, dirs);
      var a := Only(es, init, dirs);
      var r := Only(es, names, dirs);
      if r != a {
        assert r == a + [last];
        forall i | 0 <= i < |a| ensures a[i] != last && !IsAncestor(last, a[i]) {
          OnlyMembers(es, init, dirs, a[i]);
          assert a[i] in init;
          var m :| 0 <= m < |init| && init[m] == a[i];
          assert names[m] == a[i];
        }
      }
    }
  }

  /** `folders` holds each directory once, and a directory before all of its descendants. */
  lemma GetFileNamesFolderOrder(folder: string, source: Option<Entry>, rules: seq<Rule>)
    requires ReadDirTreeSync(folder, source, RulesFilter(rules)).Success?
    requires WellFormed(source.value.children)
    ensures GetFileNamesResult(folder, source, rules).Success?
    ensures var v := GetFileNamesResult(folder, source, rules).value;
      NoDuplicates(v.folders) && AncestorsFirst(v.folders)
  {
    var es := source.value.children;
    var names := ReadDirTreeSync(folder, source, RulesFilter(rules)).value;
    GetFileNamesFailsOnlyInWalk(folder, source, rules);
    ReadDirTreeSyncOrder(folder, source, RulesFilter(rules));
    ClassifyAllSpec(es, names);
    OnlyKeepsOrder(es, names, true);
  }

  // ---------------------------------------------------------------------------
  // NSIS commands
  // ---------------------------------------------------------------------------

  /** The literal `$INSTDIR\` every command's path starts with. */
  const InstDir: string := "$INSTDIR\\"

  /** `keyword "$INSTDIR\<operand>"`. */
  function Command(keyword: string, operand: string): string {
    keyword + " \"" + InstDir + operand + "\""
  }

  /** Reads the operand back out of a `keyword "$INSTDIR\..."` line. */
  function Operand(keyword: string, cmd: string): Option<string> {
    var head := keyword + " \"" + InstDir;
    if |cmd| > |head| && cmd[..|head|] == head && cmd[|cmd| - 1] == '"' then Some(cmd[|head|..|cmd| - 1])
    else None
  }

  lemma OperandOfCommand(keyword: string, operand: string)
    ensures Operand(keyword, Command(keyword, operand)) == Some(operand)
  {
    var head := keyword + " \"" + InstDir;
    var cmd := Command(keyword, operand);
    assert cmd == head + operand + "\"";
    assert cmd[..|head|] == head;
    assert cmd[|head|..|cmd| - 1] == operand;
  }

  /** `makeDeleteFileCmd(file)`: `delete "$INSTDIR\<file>"`, which reads back as `file`. */
  function MakeDeleteFileCmd(file: string): (r: string)
    ensures Operand("delete", r) == Some(file)
  {
    OperandOfCommand("delete", file);
    Command("delete", file)
  }

  /** `makeRmDirCmd(folder)`: `rmDir "$INSTDIR\<folder>"`, which reads back as `folder`. */
  function MakeRmDirCmd(folder: string): (r: string)
    ensures Operand("rmDir", r) == Some(folder)
  {
    OperandOfCommand("rmDir", folder);
    Command("rmDir", folder)
  }

  function MakeDeleteFileCmds(files: seq<string>): (r: seq<string>)
    ensures |r| == |files|
    ensures forall i :: 0 <= i < |files| ==> r[i] == MakeDeleteFileCmd(files[i])
  {
    seq(|files|, i requires 0 <= i < |files| => MakeDeleteFileCmd(files[i]))
  }

  function MakeRmDirCmds(folders: seq<string>): (r: seq<string>)
    ensures |r| == |folders|
    ensures forall i :: 0 <= i < |folders| ==> r[i] == MakeRmDirCmd(folders[i])
  {
    seq(|folders|, i requires 0 <= i < |folders| => MakeRmDirCmd(folders[i]))
  }

  /** The two lines of a file command, read back: output directory, name to install as, and source. */
  datatype FileCmd = FileCmd(outDir: string, name: string, src: string)

  const FileHead: string := "File \"/oname="

  function FileLine(name: string, src: string): string {
    FileHead + name + "\" \"" + src + "\""
  }

  /**
   * `makeFileCmd(src, dst)`: `setOutPath "$INSTDIR\<dirname dst>"`, a
   * newline, then `File "/oname=<basename dst>" "<src>"`. It reads back as
   * the directory and name of `dst` and the source `src` whenever the
   * directory holds no newline and the name no quote.
   */
  function MakeFileCmd(src: string, dst: string): (r: string)
    ensures '\n' !in Dirname(dst) && '"' !in Basename(dst) ==>
      ParseFileCmd(r) == Some(FileCmd(Dirname(dst), Basename(dst), src))
  {
    var cmd := Command("setOutPath", Dirname(dst)) + "\n" + FileLine(Basename(dst), src);
    if '\n' in Dirname(dst) || '"' in Basename(dst) then cmd
    else ParseFileCmdOf(Dirname(dst), Basename(dst), src); cmd
  }

  /** Splits a file command at its first newline and reads both lines back. */
  function ParseFileCmd(cmd: string): Option<FileCmd> {
    var i := IndexOf(cmd, "\n");
    if i < 0 then None
    else
      match Operand("setOutPath", cmd[..i])
      case None => None
      case Some(dir) => ParseFileLineIn(dir, cmd[i + 1..])
  }

  /** The second line of a file command, `File "/oname=<name>" "<src>"`, read with `dir` as the output directory. */
  function ParseFileLineIn(dir: string, line: string): Option<FileCmd> {
    if |line| < |FileHead| || line[..|FileHead|] != FileHead then None
    else
      var rest := line[|FileHead|..];
      var j := IndexOf(rest, "\"");
      if j < 0 || |rest| < j + 4 || rest[j..j + 3] != "\" \"" || rest[|rest| - 1] != '"' then None
      else Some(FileCmd(dir, rest[..j], rest[j + 3..|rest| - 1]))
  }

  lemma ParseFileLine(name: string, src: string)
    requires '"' !in name
    ensures var line := FileLine(name, src);
      var rest := line[|FileHead|..];
      && line[..|FileHead|] == FileHead
      && IndexOf(rest, "\"") == |name|
      && |rest| >= |name| + 4
      && rest[|name|..|name| + 3] == "\" \""
      && rest[|rest| - 1] == '"'
      && rest[..|name|] == name
      && rest[|name| + 3..|rest| - 1] == src
  {
    var line := FileLine(name, src);
    var rest := line[|FileHead|..];
    assert rest == name + "\" \"" + src + "\"";
    assert rest == name + ['"'] + (" \"" + src + "\"");
    IndexOfChar(name, '"', " \"" + src + "\"");
  }

  /** Where the first line of a file command ends. */
  lemma SplitFirstLine(dir: string, line: string)
    requires '\n' !in dir
    ensures var first := Command("setOutPath", dir);
      var cmd := first + "\n" + line;
      && IndexOf(cmd, "\n") == |first|
      && cmd[..|first|] == first
      && cmd[|first| + 1..] == line
  {
    var first := Command("setOutPath", dir);
    assert first == "setOutPath \"$INSTDIR\\" + dir + "\"";
    assert '\n' !in first;
    IndexOfChar(first, '\n', line);
    var cmd := first + "\n" + line;
    assert cmd == first + ['\n'] + line;
    assert cmd[..|first|] == first;
    assert cmd[|first| + 1..] == line;
  }

  /** The two lines read back as the parts they were built from. */
  lemma ParseFileCmdOf(dir: string, name: string, src: string)
    requires '\n' !in dir && '"' !in name
    ensures ParseFileCmd(Command("setOutPath", dir) + "\n" + FileLine(name, src)) == Some(FileCmd(dir, name, src))
  {
    SplitFirstLine(dir, FileLine(name, src));
    OperandOfCommand("setOutPath", dir);
    ParseFileLineOf(dir, name, src);
  }

  lemma ParseFileLineOf(dir: string, name: string, src: string)
    requires '"' !in name
    ensures ParseFileLineIn(dir, FileLine(name, src)) == Some(FileCmd(dir, name, src))
  {
    ParseFileLine(name, src);
  }

  /** A path as Windows resolves it: '/' and '\\' both separate components. */
  function WinPath(s: string): (r: string)
    ensures |r| == |s|
    ensures forall i :: 0 <= i < |s| ==> r[i] == if s[i] == '/' then '\\' else s[i]
  {
    seq(|s|, i requires 0 <= i < |s| => if s[i] == '/' then '\\' else s[i])
  }

  /** Either separator between two parts names the same Windows path. */
  lemma WinPathSeparator(a: string, b: string)
    ensures WinPath(a + "\\" + b) == WinPath(a + "/" + b)
  {
    var x, y := WinPath(a + "\\" + b), WinPath(a + "/" + b);
    assert forall i :: 0 <= i < |x| ==> x[i] == y[i];
  }

  /** A path without '/' is its own Windows path. */
  lemma WinPathPlain(s: string)
    requires '/' !in s
    ensures WinPath(s) == s
  {
    assert forall i :: 0 <= i < |s| ==> WinPath(s)[i] == s[i];
  }

  /** The file a `File` command writes: under the output directory, the directory "." being `$INSTDIR` itself. */
  function InstalledPath(fc: FileCmd): string {
    InstDir + (if fc.outDir == "." then fc.name else fc.outDir + "\\" + fc.name)
  }

  /** The file a file command installs, if it is one. */
  function Installs(cmd: string): Option<string> {
    match ParseFileCmd(cmd)
    case None => None
    case Some(fc) => Some(WinPath(InstalledPath(fc)))
  }

  /** The file a `delete` command removes, if it is one. */
  function Deletes(cmd: string): Option<string> {
    match Operand("delete", cmd)
    case None => None
    case Some(f) => Some(WinPath(InstDir + f))
  }

  /** A relative file name the commands can carry: not rooted, not starting at ".", without newline or quote. */
  predicate CommandName(f: string) {
    && f != "" && f[0] != '/'
    && !(|f| >= 2 && f[0] == '.' && f[1] == '/')
    && '\n' !in f && '"' !in f
  }

  /** The file a file command for `dir/name` installs: `$INSTDIR\<dir>\<name>`. */
  lemma InstallsUnder(src: string, dir: string, name: string)
    requires dir != "" && dir != "." && '\n' !in dir && '/' !in name && '"' !in name
    ensures Installs(Command("setOutPath", dir) + "\n" + FileLine(name, src)) == Some(WinPath(InstDir + dir + "\\" + name))
  {
    var cmd := Command("setOutPath", dir) + "\n" + FileLine(name, src);
    ParseFileCmdOf(dir, name, src);
    InstalledUnder(dir, name, src);
    assert Installs(cmd) == Some(WinPath(InstalledPath(FileCmd(dir, name, src))));
  }

  lemma InstalledUnder(dir: string, name: string, src: string)
    requires dir != "."
    ensures InstalledPath(FileCmd(dir, name, src)) == InstDir + dir + "\\" + name
  {
    assert InstDir + (dir + "\\" + name) == InstDir + dir + "\\" + name;
  }

  /** A file command for `Join(dir, name)` installs at `$INSTDIR\<dir>\<name>`. */
  lemma InstallsJoined(src: string, dir: string, name: string)
    requires dir != "" && dir != "." && '\n' !in dir && '/' !in name && '"' !in name
    ensures Installs(MakeFileCmd(src, Join(dir, name))) == Some(WinPath(InstDir + dir + "\\" + name))
  {
    DirnameJoin(dir, name);
    InstallsUnder(src, dir, name);
  }

  /** For a top-level name the output directory is "." and the file lands in `$INSTDIR` itself. */
  lemma InstallThenDeleteTop(src: string, f: string)
    requires '/' !in f && '\n' !in f && '"' !in f
    ensures Installs(MakeFileCmd(src, f)) == Some(WinPath(InstDir + f)) == Deletes(MakeDeleteFileCmd(f))
  {
    InstallsTop(src, f);
    DeletesOf(f);
  }

  lemma InstallsTop(src: string, f: string)
    requires '/' !in f && '\n' !in f && '"' !in f
    ensures Installs(MakeFileCmd(src, f)) == Some(WinPath(InstDir + f))
  {
    assert '\n' !in Dirname(f) && '"' !in Basename(f) by {
      DirnameBasename(f);
    }
    assert InstalledPath(FileCmd(Dirname(f), Basename(f), src)) == InstDir + f by {
      DirnameBasename(f);
    }
    InstallsSplit(src, f);
  }

  /** A file command installs at the path its output directory and name give. */
  lemma InstallsSplit(src: string, f: string)
    requires '\n' !in Dirname(f) && '"' !in Basename(f)
    ensures Installs(MakeFileCmd(src, f)) == Some(WinPath(InstalledPath(FileCmd(Dirname(f), Basename(f), src))))
  {
    ParseFileCmdOf(Dirname(f), Basename(f), src);
  }

  /** A name below a folder splits at its last '/' into a folder and a plain name. */
  lemma NestedSplit(f: string) returns (dir: string, name: string)
    requires CommandName(f) && '/' in f
    ensures f == Join(dir, name)
    ensures dir != "" && dir != "." && '\n' !in dir && '/' !in name && '"' !in name
  {
    DirnameBasename(f);
    var i := LastIndexOf(f, '/');
    var j :| 0 <= j < |f| && f[j] == '/';
    assert i >= j > 0;
    dir, name := f[..i], f[i + 1..];
    assert '\n' !in dir && '"' !in name by {
      assert forall c :: c in dir ==> c in f;
      assert forall c :: c in name ==> c in f;
    }
    assert f == dir + "/" + name;
  }

  lemma Associate(a: string, b: string, c: string)
    ensures a + (b + c) == a + b + c
  {
  }

  /** What a `delete` command built for `f` removes. */
  lemma DeletesOf(f: string)
    ensures Deletes(MakeDeleteFileCmd(f)) == Some(WinPath(InstDir + f))
  {
  }

  lemma Regroup(a: string, b: string, sep: string, c: string)
    ensures a + (b + sep + c) == (a + b) + sep + c
  {
  }

  /** For a name below a folder, the output directory and the name rejoin to it. */
  lemma InstallThenDeleteNested(src: string, f: string)
    requires CommandName(f) && '/' in f
    ensures Installs(MakeFileCmd(src, f)) == Some(WinPath(InstDir + f)) == Deletes(MakeDeleteFileCmd(f))
  {
    var dir, name := NestedSplit(f);
    assert Installs(MakeFileCmd(src, f)) == Some(WinPath(InstDir + dir + "\\" + name)) by {
      InstallsJoined(src, dir, name);
    }
    assert WinPath(InstDir + dir + "\\" + name) == WinPath(InstDir + f) by {
      WinPathSeparator(InstDir + dir, name);
      Regroup(InstDir, dir, "/", name);
    }
    DeletesOf(f);
  }

  /** The file `makeFileCmd(src, f)` installs is the one `makeDeleteFileCmd(f)` removes. */
  lemma InstallThenDelete(src: string, f: string)
    requires CommandName(f)
    ensures Installs(MakeFileCmd(src, f)).Some?
    ensures Installs(MakeFileCmd(src, f)) == Deletes(MakeDeleteFileCmd(f))
  {
    if '/' in f {
      InstallThenDeleteNested(src, f);
    } else {
      InstallThenDeleteTop(src, f);
    }
  }

  /** `makeFileCmds(files, srcPath)`: each file installed from under `srcPath` at its relative path. */
  function MakeFileCmds(files: seq<string>, srcPath: string): (r: seq<string>)
    ensures |r| == |files|
    ensures forall i :: 0 <= i < |files| ==> r[i] == MakeFileCmd(Join(srcPath, files[i]), files[i])
  {
    seq(|files|, i requires 0 <= i < |files| => MakeFileCmd(Join(srcPath, files[i]), files[i]))
  }

  // ---------------------------------------------------------------------------
  // The install and uninstall sections
  // ---------------------------------------------------------------------------

  /** The three command scripts installed under `bin`. */
  const BinCommands: seq<string> := ["hft.cmd", "hft-init.cmd", "hft-stop.cmd"]

  /** `filesToInstall`: the icon, the three commands under `bin`, then the node files and the happyfuntimes files. */
  function FilesToInstall(iconPath: string, osSrcPath: string, osNodePath: string, nodeFiles: FileNames,
                          hftDir: string, hftFiles: FileNames): (r: seq<string>)
    ensures |r| == 4 + |nodeFiles.files| + |hftFiles.files|
  {
    FixedInstalls(iconPath, osSrcPath) + MakeFileCmds(nodeFiles.files, osNodePath) + MakeFileCmds(hftFiles.files, hftDir)
  }

  /** The icon, then the three commands installed as `bin/<name>`. */
  function FixedInstalls(iconPath: string, osSrcPath: string): (r: seq<string>)
    ensures |r| == 4
  {
    ["File \"/oname=logo.ico\" \"" + iconPath + "\""]
    + seq(3, i requires 0 <= i < 3 => MakeFileCmd(Join(osSrcPath, BinCommands[i]), Join("bin", BinCommands[i])))
  }

  /** The delete commands, the folders' `rmDir`s in reverse walk order, and `bin` last. */
  function DeleteSection(fixed: seq<string>, nodeFiles: FileNames, hftFiles: FileNames): seq<string> {
    fixed + MakeDeleteFileCmds(nodeFiles.files) + MakeDeleteFileCmds(hftFiles.files) + RmDirSection(nodeFiles, hftFiles)
  }

  function RmDirSection(nodeFiles: FileNames, hftFiles: FileNames): (r: seq<string>)
    ensures |r| == |nodeFiles.folders| + |hftFiles.folders| + 1
  {
    MakeRmDirCmds(Reversed(nodeFiles.folders)) + MakeRmDirCmds(Reversed(hftFiles.folders)) + [MakeRmDirCmd("bin")]
  }

  /**
   * The fixed deletes as the source spells them: in the literal "bin\hft.cmd"
   * the `\h` is no escape JavaScript knows, so the backslash is dropped and
   * the name is "binhft.cmd".
   */
  function FixedDeletesAsWritten(): (r: seq<string>)
    ensures |r| == 4
  {
    seq(4, i requires 0 <= i < 4 => if i == 0 then MakeDeleteFileCmd("logo.ico") else MakeDeleteFileCmd("bin" + BinCommands[i - 1]))
  }

  /** The fixed deletes as intended: the commands at `bin\<name>`. */
  function FixedDeletes(): seq<string> {
    seq(4, i requires 0 <= i < 4 => if i == 0 then MakeDeleteFileCmd("logo.ico") else MakeDeleteFileCmd("bin\\" + BinCommands[i - 1]))
  }

  /** `filesToDelete` as written. */
  function FilesToDeleteAsWritten(nodeFiles: FileNames, hftFiles: FileNames): (r: seq<string>)
    ensures |r| == 5 + |nodeFiles.files| + |hftFiles.files| + |nodeFiles.folders| + |hftFiles.folders|
  {
    DeleteSection(FixedDeletesAsWritten(), nodeFiles, hftFiles)
  }

  lemma FixedDeletesAt(k: nat)
    requires 1 <= k <= 3
    ensures FixedDeletes()[k] == MakeDeleteFileCmd("bin\\" + BinCommands[k - 1])
  {
  }

  lemma FixedDeletesAsWrittenAt(k: nat)
    requires 1 <= k <= 3
    ensures FixedDeletesAsWritten()[k] == MakeDeleteFileCmd("bin" + BinCommands[k - 1])
  {
  }

  /** `filesToDelete` with the intended `bin\` paths. */
  function FilesToDelete(nodeFiles: FileNames, hftFiles: FileNames): (r: seq<string>)
    ensures |r| == 5 + |nodeFiles.files| + |hftFiles.files| + |nodeFiles.folders| + |hftFiles.folders|
  {
    DeleteSection(FixedDeletes(), nodeFiles, hftFiles)
  }

  lemma BinCommandsPlain(k: nat)
    requires k < 3
    ensures '/' !in BinCommands[k] && '"' !in BinCommands[k] && '\\' !in BinCommands[k]
  {
    if k == 0 {
      assert BinCommands[k] == "hft.cmd";
    } else if k == 1 {
      assert BinCommands[k] == "hft-init.cmd";
    } else {
      assert BinCommands[k] == "hft-stop.cmd";
    }
  }

  /** The Windows path of `$INSTDIR\bin\<name>` is the path itself. */
  lemma BinPathPlain(b: string)
    requires '/' !in b
    ensures WinPath(InstDir + "bin\\" + b) == InstDir + "bin\\" + b
  {
    assert '/' !in InstDir + "bin\\" + b;
    WinPathPlain(InstDir + "bin\\" + b);
  }

  /** A command installed at `bin/<name>` lands at `$INSTDIR\bin\<name>`. */
  lemma InstallsBin(src: string, b: string)
    requires '/' !in b && '"' !in b
    ensures Installs(MakeFileCmd(src, Join("bin", b))) == Some(WinPath(InstDir + "bin\\" + b))
  {
    assert "bin" != "." && '\n' !in "bin";
    InstallsJoined(src, "bin", b);
    BinSeparator(b);
  }

  lemma BinSeparator(b: string)
    ensures InstDir + "bin" + "\\" + b == InstDir + "bin\\" + b
  {
    assert "bin" + "\\" == "bin\\";
  }

  /** A delete of `bin<name>`, the literal as written, removes `$INSTDIR\bin<name>`. */
  lemma DeletesBinAsWritten(b: string)
    requires '/' !in b
    ensures Deletes(MakeDeleteFileCmd("bin" + b)) == Some(InstDir + "bin" + b)
  {
    assert InstDir + ("bin" + b) == InstDir + "bin" + b;
    assert '/' !in InstDir + "bin" + b;
    WinPathPlain(InstDir + "bin" + b);
  }

  /**
   * As written, no `bin` delete removes the command it stands for: for any
   * plain name, the command installed as `bin/<name>` lands at
   * `$INSTDIR\bin\<name>` while the delete of `bin<name>` names
   * `$INSTDIR\bin<name>`, one character shorter.
   */
  lemma BinNamesMissed(osSrcPath: string, names: seq<string>)
    requires forall n :: n in names ==> '/' !in n && '"' !in n
    ensures forall i :: 0 <= i < |names| ==>
      && Installs(MakeFileCmd(Join(osSrcPath, names[i]), Join("bin", names[i]))) == Some(InstDir + "bin\\" + names[i])
      && Deletes(MakeDeleteFileCmd("bin" + names[i])) == Some(InstDir + "bin" + names[i])
      && InstDir + "bin\\" + names[i] != InstDir + "bin" + names[i]
  {
    forall i | 0 <= i < |names|
      ensures && Installs(MakeFileCmd(Join(osSrcPath, names[i]), Join("bin", names[i]))) == Some(InstDir + "bin\\" + names[i])
              && Deletes(MakeDeleteFileCmd("bin" + names[i])) == Some(InstDir + "bin" + names[i])
              && InstDir + "bin\\" + names[i] != InstDir + "bin" + names[i]
    {
      assert names[i] in names;
      BinMissedFor(osSrcPath, names[i]);
    }
  }

  /** The command installed as `bin/<b>` and the file a delete of `bin<b>` removes. */
  lemma BinMissedFor(osSrcPath: string, b: string)
    requires '/' !in b && '"' !in b
    ensures Installs(MakeFileCmd(Join(osSrcPath, b), Join("bin", b))) == Some(InstDir + "bin\\" + b)
    ensures Deletes(MakeDeleteFileCmd("bin" + b)) == Some(InstDir + "bin" + b)
    ensures InstDir + "bin\\" + b != InstDir + "bin" + b
  {
    InstallsBin(Join(osSrcPath, b), b);
    BinPathPlain(b);
    DeletesBinAsWritten(b);
    assert |InstDir + "bin\\" + b| != |InstDir + "bin" + b|;
  }

  /** Positions 1 to 3 of the fixed sections as written: each installs one file and deletes another. */
  lemma BinsMissedAsWritten(iconPath: string, osSrcPath: string)
    ensures forall i :: 1 <= i < 4 ==>
      Installs(FixedInstalls(iconPath, osSrcPath)[i]).Some? &&
      Installs(FixedInstalls(iconPath, osSrcPath)[i]) != Deletes(FixedDeletesAsWritten()[i])
  {
    AllBinCommandsPlain();
    BinNamesMissed(osSrcPath, BinCommands);
    forall i | 1 <= i < 4
      ensures Installs(FixedInstalls(iconPath, osSrcPath)[i]).Some? &&
              Installs(FixedInstalls(iconPath, osSrcPath)[i]) != Deletes(FixedDeletesAsWritten()[i])
    {
      FixedDeletesAsWrittenAt(i);
    }
  }

  /** In the assembled sections as written, positions 1 to 3 install one file and delete another. */
  lemma UninstallMissesBinAsWritten(iconPath: string, osSrcPath: string, osNodePath: string, nodeFiles: FileNames,
                                    hftDir: string, hftFiles: FileNames, k: nat)
    requires 1 <= k <= 3
    ensures var install := FilesToInstall(iconPath, osSrcPath, osNodePath, nodeFiles, hftDir, hftFiles);
      var delete := FilesToDeleteAsWritten(nodeFiles, hftFiles);
      Installs(install[k]).Some? && Installs(install[k]) != Deletes(delete[k])
  {
    var n, h := nodeFiles.files, hftFiles.files;
    var install := FilesToInstall(iconPath, osSrcPath, osNodePath, nodeFiles, hftDir, hftFiles);
    var delete := FilesToDeleteAsWritten(nodeFiles, hftFiles);
    var fixedInstall := FixedInstalls(iconPath, osSrcPath);
    var In, Ih := MakeFileCmds(n, osNodePath), MakeFileCmds(h, hftDir);
    var Dn, Dh := MakeDeleteFileCmds(n), MakeDeleteFileCmds(h);
    assert install == fixedInstall + In + Ih;
    assert delete == FixedDeletesAsWritten() + Dn + Dh + RmDirSection(nodeFiles, hftFiles);
    BinsMissedAsWritten(iconPath, osSrcPath);
    MissedFront(install, delete, fixedInstall, In, Ih, FixedDeletesAsWritten(), Dn, Dh, RmDirSection(nodeFiles, hftFiles), k);
  }

  /** A mismatch among the fixed commands is a mismatch at the same position of the whole sections. */
  lemma MissedFront(install: seq<string>, delete: seq<string>, fi: seq<string>, In: seq<string>, Ih: seq<string>,
                    fd: seq<string>, Dn: seq<string>, Dh: seq<string>, rest: seq<string>, k: nat)
    requires install == fi + In + Ih && delete == fd + Dn + Dh + rest && k < |fi| == |fd|
    requires Installs(fi[k]).Some? && Installs(fi[k]) != Deletes(fd[k])
    ensures Installs(install[k]).Some? && Installs(install[k]) != Deletes(delete[k])
  {
    At3(fi, In, Ih, k);
    assert delete[k] == (fd + Dn + Dh)[k];
    At3(fd, Dn, Dh, k);
  }


  /**
   * With the intended paths, the uninstall section removes every file the
   * install section puts down: the command at each position after the icon
   * installs exactly the file the command at the same position deletes, and
   * the icon is deleted at `$INSTDIR\logo.ico`.
   */
  lemma UninstallRemovesInstalled(iconPath: string, osSrcPath: string, osNodePath: string, nodeFiles: FileNames,
                                  hftDir: string, hftFiles: FileNames)
    requires forall f :: f in nodeFiles.files ==> CommandName(f)
    requires forall f :: f in hftFiles.files ==> CommandName(f)
    ensures var install := FilesToInstall(iconPath, osSrcPath, osNodePath, nodeFiles, hftDir, hftFiles);
      var delete := FilesToDelete(nodeFiles, hftFiles);
      && Deletes(delete[0]) == Some(InstDir + "logo.ico")
      && forall k :: 1 <= k < |install| ==> Installs(install[k]).Some? && Installs(install[k]) == Deletes(delete[k])
  {
    var install := FilesToInstall(iconPath, osSrcPath, osNodePath, nodeFiles, hftDir, hftFiles);
    var delete := FilesToDelete(nodeFiles, hftFiles);
    DeletesOf("logo.ico");
    assert '/' !in InstDir + "logo.ico";
    WinPathPlain(InstDir + "logo.ico");
    forall k | 1 <= k < |install| ensures Installs(install[k]).Some? && Installs(install[k]) == Deletes(delete[k]) {
      PairedAt(iconPath, osSrcPath, osNodePath, nodeFiles, hftDir, hftFiles, k);
    }
  }

  /** Indexing three concatenated sequences. */
  lemma At3<T>(a: seq<T>, b: seq<T>, c: seq<T>, k: nat)
    requires k < |a| + |b| + |c|
    ensures (a + b + c)[k] == if k < |a| then a[k] else if k < |a| + |b| then b[k - |a|] else c[k - |a| - |b|]
  {
  }

  /** The install command and the delete command at position `k` touch the same file. */
  lemma PairedAt(iconPath: string, osSrcPath: string, osNodePath: string, nodeFiles: FileNames,
                 hftDir: string, hftFiles: FileNames, k: nat)
    requires forall f :: f in nodeFiles.files ==> CommandName(f)
    requires forall f :: f in hftFiles.files ==> CommandName(f)
    requires 1 <= k < 4 + |nodeFiles.files| + |hftFiles.files|
    ensures var install := FilesToInstall(iconPath, osSrcPath, osNodePath, nodeFiles, hftDir, hftFiles);
      var delete := FilesToDelete(nodeFiles, hftFiles);
      Installs(install[k]).Some? && Installs(install[k]) == Deletes(delete[k])
  {
    var n, h := nodeFiles.files, hftFiles.files;
    var install := FilesToInstall(iconPath, osSrcPath, osNodePath, nodeFiles, hftDir, hftFiles);
    var delete := FilesToDelete(nodeFiles, hftFiles);
    var fixedInstall := FixedInstalls(iconPath, osSrcPath);
    var In, Ih := MakeFileCmds(n, osNodePath), MakeFileCmds(h, hftDir);
    var Dn, Dh := MakeDeleteFileCmds(n), MakeDeleteFileCmds(h);
    assert install == fixedInstall + In + Ih;
    assert delete == FixedDeletes() + Dn + Dh + RmDirSection(nodeFiles, hftFiles);
    BinsPaired(iconPath, osSrcPath);
    AllFilesPaired(n, osNodePath);
    AllFilesPaired(h, hftDir);
    PairedParts(install, delete, fixedInstall, In, Ih, FixedDeletes(), Dn, Dh, RmDirSection(nodeFiles, hftFiles), k);
  }

  /** The install command puts down a file, and the delete command removes that file. */
  predicate Paired(install: string, delete: string) {
    Installs(install).Some? && Installs(install) == Deletes(delete)
  }

  /** Pairing part by part gives pairing position by position. */
  lemma PairedParts(install: seq<string>, delete: seq<string>, fi: seq<string>, In: seq<string>, Ih: seq<string>,
                    fd: seq<string>, Dn: seq<string>, Dh: seq<string>, rest: seq<string>, k: nat)
    requires install == fi + In + Ih && delete == fd + Dn + Dh + rest
    requires |fi| == |fd| == 4 && |In| == |Dn| && |Ih| == |Dh|
    requires forall i :: 1 <= i < 4 ==> Paired(fi[i], fd[i])
    requires forall i :: 0 <= i < |In| ==> Paired(In[i], Dn[i])
    requires forall i :: 0 <= i < |Ih| ==> Paired(Ih[i], Dh[i])
    requires 1 <= k < |install|
    ensures Paired(install[k], delete[k])
  {
    At3(fi, In, Ih, k);
    assert delete[k] == (fd + Dn + Dh)[k];
    At3(fd, Dn, Dh, k);
  }

  /** Positions 1 to 3 of the fixed sections. */
  lemma BinsPaired(iconPath: string, osSrcPath: string)
    ensures forall i :: 1 <= i < 4 ==> Paired(FixedInstalls(iconPath, osSrcPath)[i], FixedDeletes()[i])
  {
    AllBinCommandsPlain();
    BinNamesPaired(osSrcPath, BinCommands);
    forall i | 1 <= i < 4 ensures Paired(FixedInstalls(iconPath, osSrcPath)[i], FixedDeletes()[i]) {
      FixedDeletesAt(i);
    }
  }

  lemma AllBinCommandsPlain()
    ensures forall n :: n in BinCommands ==> '/' !in n && '"' !in n
  {
    forall n | n in BinCommands ensures '/' !in n && '"' !in n {
      var k :| 0 <= k < 3 && BinCommands[k] == n;
      BinCommandsPlain(k);
    }
  }

  /** For any plain names, the command installed as `bin/<name>` is the file a delete of `bin\<name>` removes. */
  lemma BinNamesPaired(osSrcPath: string, names: seq<string>)
    requires forall n :: n in names ==> '/' !in n && '"' !in n
    ensures forall i :: 0 <= i < |names| ==>
      Paired(MakeFileCmd(Join(osSrcPath, names[i]), Join("bin", names[i])), MakeDeleteFileCmd("bin\\" + names[i]))
  {
    forall i | 0 <= i < |names|
      ensures Paired(MakeFileCmd(Join(osSrcPath, names[i]), Join("bin", names[i])), MakeDeleteFileCmd("bin\\" + names[i]))
    {
      assert names[i] in names;
      BinPairedFor(osSrcPath, names[i]);
    }
  }

  /** Every file command of a list is paired with the delete at the same position. */
  lemma AllFilesPaired(files: seq<string>, srcPath: string)
    requires forall f :: f in files ==> CommandName(f)
    ensures forall i :: 0 <= i < |files| ==> Paired(MakeFileCmds(files, srcPath)[i], MakeDeleteFileCmds(files)[i])
  {
    forall i | 0 <= i < |files| ensures Paired(MakeFileCmds(files, srcPath)[i], MakeDeleteFileCmds(files)[i]) {
      assert files[i] in files;
      FilesPaired(files, srcPath, i);
    }
  }

  /** A command installed as `bin/<b>` is what a delete of `bin\<b>` removes. */
  lemma BinPairedFor(osSrcPath: string, b: string)
    requires '/' !in b && '"' !in b
    ensures Installs(MakeFileCmd(Join(osSrcPath, b), Join("bin", b))).Some?
    ensures Installs(MakeFileCmd(Join(osSrcPath, b), Join("bin", b))) == Deletes(MakeDeleteFileCmd("bin\\" + b))
  {
    InstallsBin(Join(osSrcPath, b), b);
    DeletesOf("bin\\" + b);
    Associate(InstDir, "bin\\", b);
  }

  /** The node files and the happyfuntimes files: each install at the same position as its delete. */
  lemma FilesPaired(files: seq<string>, srcPath: string, m: nat)
    requires m < |files| && CommandName(files[m])
    ensures Installs(MakeFileCmds(files, srcPath)[m]).Some?
    ensures Installs(MakeFileCmds(files, srcPath)[m]) == Deletes(MakeDeleteFileCmds(files)[m])
  {
    InstallThenDelete(Join(srcPath, files[m]), files[m]);
  }

  /** Reversing a list whose ancestors come first puts every descendant before its ancestors. */
  lemma ReversedChildrenFirst(folders: seq<string>)
    requires AncestorsFirst(folders)
    ensures var r := Reversed(folders);
      forall i, j :: 0 <= i < |r| && 0 <= j < |r| && IsAncestor(r[i], r[j]) ==> j < i
  {
    var r := Reversed(folders);
    forall i, j | 0 <= i < |r| && 0 <= j < |r| && IsAncestor(r[i], r[j]) ensures j < i {
    }
  }

  /**
   * In the `rmDir`s of one tree's folders, the command removing a folder
   * comes after the command removing each of its descendants, so folders are
   * empty when their turn comes.
   */
  lemma RmDirChildrenFirst(folders: seq<string>)
    requires AncestorsFirst(folders)
    ensures var cmds := MakeRmDirCmds(Reversed(folders));
      forall i, j, a, b ::
        (0 <= i < |cmds| && 0 <= j < |cmds| && cmds[i] == MakeRmDirCmd(a) && cmds[j] == MakeRmDirCmd(b) &&
         IsAncestor(a, b)) ==> j < i
  {
    var r := Reversed(folders);
    var cmds := MakeRmDirCmds(r);
    ReversedChildrenFirst(folders);
    forall i, j, a, b | 0 <= i < |cmds| && 0 <= j < |cmds| && cmds[i] == MakeRmDirCmd(a) &&
        cmds[j] == MakeRmDirCmd(b) && IsAncestor(a, b) ensures j < i {
      RmDirInjective(a, r[i]);
      RmDirInjective(b, r[j]);
    }
  }

  /** Two `rmDir` commands are the same command only for the same folder. */
  lemma RmDirInjective(a: string, b: string)
    requires MakeRmDirCmd(a) == MakeRmDirCmd(b)
    ensures a == b
  {
  }

  /** The `rmDir`s of the walked folders of one tree remove descendants first. */
  lemma UninstallFolderOrder(folder: string, source: Option<Entry>, rules: seq<Rule>)
    requires ReadDirTreeSync(folder, source, RulesFilter(rules)).Success?
    requires WellFormed(source.value.children)
    ensures GetFileNamesResult(folder, source, rules).Success?
    ensures var cmds := MakeRmDirCmds(Reversed(GetFileNamesResult(folder, source, rules).value.folders));
      forall i, j, a, b ::
        (0 <= i < |cmds| && 0 <= j < |cmds| && cmds[i] == MakeRmDirCmd(a) && cmds[j] == MakeRmDirCmd(b) &&
         IsAncestor(a, b)) ==> j < i
  {
    GetFileNamesFailsOnlyInWalk(folder, source, rules);
    GetFileNamesFolderOrder(folder, source, rules);
    RmDirChildrenFirst(GetFileNamesResult(folder, source, rules).value.folders);
  }

  // ---------------------------------------------------------------------------
  // The install size and the script's line ends
  // ---------------------------------------------------------------------------

  predicate IsDigit(c: char) {
    '0' as int <= c as int <= '9' as int
  }

  /** The value of a string of decimal digits. */
  function DecimalValue(s: string): int
    decreases |s|
  {
    if s == [] then 0 else DecimalValue(s[..|s| - 1]) * 10 + (s[|s| - 1] as int - '0' as int)
  }

  /** `n.toString()` for a whole number: its decimal digits, without leading zeros. */
  function NatToString(n: nat): (r: string)
    ensures |r| >= 1 && forall i :: 0 <= i < |r| ==> IsDigit(r[i])
    ensures r[0] != '0' || r == "0"
    ensures DecimalValue(r) == n
    decreases n
  {
    var digit := ('0' as int + n % 10) as char;
    if n < 10 then [digit]
    else
      var r := NatToString(n / 10) + [digit];
      assert r[..|r| - 1] == NatToString(n / 10);
      r
  }

  /** `Math.floor((nodeFiles.size + hftFiles.size) / 1024).toString()`. */
  function InstallSizeKB(nodeSize: nat, hftSize: nat): (r: string)
    ensures forall i :: 0 <= i < |r| ==> IsDigit(r[i])
    ensures DecimalValue(r) == (nodeSize + hftSize) / 1024
  {
    NatToString((nodeSize + hftSize) / 1024)
  }

  /**
   * For sizes from `getFileNames` the KB figure loses nothing to the
   * rounding down: it is exactly the block total, which covers the bytes of
   * every listed file.
   */
  lemma InstallSizeCoversFiles(nodeEs: seq<Entry>, nodeNames: seq<string>, hftEs: seq<Entry>, hftNames: seq<string>)
    requires ClassifyAll(nodeEs, nodeNames).Success? && ClassifyAll(hftEs, hftNames).Success?
    ensures var n := ClassifyAll(nodeEs, nodeNames).value;
      var h := ClassifyAll(hftEs, hftNames).value;
      && DecimalValue(InstallSizeKB(n.size, h.size)) * 1024 == n.size + h.size
      && SumSizes(nodeEs, n.files) + SumSizes(hftEs, h.files) <= n.size + h.size
  {
    var n := ClassifyAll(nodeEs, nodeNames).value;
    var h := ClassifyAll(hftEs, hftNames).value;
    ClassifyAllSpec(nodeEs, nodeNames);
    ClassifyAllSpec(hftEs, hftNames);
    KBExact(n.size, h.size);
  }

  lemma KBExact(a: nat, b: nat)
    requires a % BlockSize == 0 && b % BlockSize == 0
    ensures DecimalValue(InstallSizeKB(a, b)) * 1024 == a + b
  {
    SumMultiple(a, b);
    WholeKB(a + b);
  }

  /** A whole number of blocks is a whole number of KB. */
  lemma WholeKB(t: nat)
    requires t % BlockSize == 0
    ensures t / 1024 * 1024 == t
  {
    var q := t / BlockSize;
    assert t == 4096 * q;
    var m := 4 * q;
    assert t == 1024 * m;
    KBOfMultiple(t, m);
  }

  lemma KBOfMultiple(t: nat, m: nat)
    requires t == 1024 * m
    ensures t / 1024 * 1024 == t
  {
  }

  /** `s.replace(/\n/g, "\r\n")`. */
  function ToCrLf(s: string): (r: string)
    ensures forall i :: 0 <= i < |r| && r[i] == '\n' ==> i > 0 && r[i - 1] == '\r'
    ensures r == [] || r[0] != '\n'
  {
    if s == [] then []
    else if s[0] == '\n' then "\r\n" + ToCrLf(s[1..])
    else [s[0]] + ToCrLf(s[1..])
  }

  /** `r.replace(/\r\n/g, "\n")`, the converse rewrite. */
  function FromCrLf(r: string): string
    decreases |r|
  {
    if r == [] then []
    else if |r| >= 2 && r[0] == '\r' && r[1] == '\n' then "\n" + FromCrLf(r[2..])
    else [r[0]] + FromCrLf(r[1..])
  }

  /** Converting to CRLF loses nothing: the converse rewrite gives the script back. */
  lemma {:induction false} CrLfRoundTrip(s: string)
    ensures FromCrLf(ToCrLf(s)) == s
  {
    if s != [] {
      CrLfRoundTrip(s[1..]);
      var t := ToCrLf(s[1..]);
      if s[0] == '\n' {
        assert ("\r\n" + t)[2..] == t;
      } else {
        assert ([s[0]] + t)[1..] == t;
      }
    }
  }
}
