/**
 * `copyFile` and `copyTree` of lib/utils.js. The source tree is read through
 * the walk's view of it (an `Entry` listing); everything written goes through
 * a TrackedFS onto its disk, so every created path is logged.
 */
module CopyTree {
  import opened Wrappers
  import opened Seqs
  import opened Paths
  import opened FileSystem
  import opened ReadDirTree
  import opened Tracked

  // ---------------------------------------------------------------------------
  // copyFile
  // ---------------------------------------------------------------------------

  /** The status of one call and the TrackedFS state after it. */
  datatype Effect = Effect(status: Status, fs: FsState)

  /**
   * `copyFile(src, dst, {fileSystem})`, given what `readFileSync(src)`
   * returned: a failed read throws before anything is written; otherwise the
   * data is written to `dst` through the TrackedFS, which logs `dst` first.
   */
  function CopyFileResult(s: FsState, read: Result<Bytes, Errno>, dst: string): (r: Effect)
    ensures r.fs.cwd == s.cwd
    ensures read.Failure? ==> r == Effect(Err(read.error), s)
    ensures read.Success? ==> r.fs.logs == s.logs.(files := s.logs.files + [dst])
    ensures r.status.Ok? ==> read.Success? && ReadFile(r.fs.entries, dst) == Success(read.value)
    ensures Grows(s.entries, r.fs.entries)
  {
    match read
    case Failure(code) => Effect(Err(code), s)
    case Success(data) =>
      var w := WriteFile(s.entries, dst, data);
      WriteFileGrows(s.entries, dst, data);
      WriteThenRead(s.entries, dst, data);
      Effect(w.status, s.(entries := w.entries, logs := s.logs.(files := s.logs.files + [dst])))
  }

  method CopyFile(read: Result<Bytes, Errno>, dst: string, fs: TrackedFS) returns (st: Status)
    modifies fs`files, fs.disk`entries
    ensures Effect(st, fs.Snapshot()) == CopyFileResult(old(fs.Snapshot()), read, dst)
  {
    if read.Failure? {
      return Err(read.error);
    }
    st := fs.WriteFileSync(dst, read.value);
  }

  /** Copying a file that is on the disk itself leaves the same content at the destination. */
  lemma CopyFileFromDisk(s: FsState, src: string, dst: string)
    requires CopyFileResult(s, ReadFile(s.entries, src), dst).status.Ok?
    ensures ReadFile(CopyFileResult(s, ReadFile(s.entries, src), dst).fs.entries, dst) == ReadFile(s.entries, src)
  {
  }

  // ---------------------------------------------------------------------------
  // The exclusion rules
  // ---------------------------------------------------------------------------

  /** `options.exclude.filter(f => f.indexOf("/") < 0)`. */
  function NoSlashRules(exclude: seq<string>): (r: seq<string>)
    ensures forall x :: x in r <==> x in exclude && !Contains(x, "/")
  {
    if exclude == [] then []
    else (if !Contains(exclude[0], "/") then [exclude[0]] else []) + NoSlashRules(exclude[1..])
  }

  /** `options.exclude.filter(f => f.indexOf("/") >= 0)`. */
  function SlashRules(exclude: seq<string>): (r: seq<string>)
    ensures forall x :: x in r <==> x in exclude && Contains(x, "/")
  {
    if exclude == [] then []
    else (if Contains(exclude[0], "/") then [exclude[0]] else []) + SlashRules(exclude[1..])
  }

  /** The combined `filter` closure: every rule's `filename.indexOf(rule) < 0` holds. */
  function PassesAll(rules: seq<string>, name: string): (b: bool)
    ensures b <==> forall x :: x in rules ==> !Contains(name, x)
  {
    rules == [] || (!Contains(name, rules[0]) && PassesAll(rules[1..], name))
  }

  /** The walk-time filter: the rules without a '/', or none when `exclude` is absent. */
  function WalkFilter(exclude: Option<seq<string>>): Filter {
    var rules := if exclude.Some? then NoSlashRules(exclude.value) else [];
    Callback(name => PassesAll(rules, name))
  }

  /** `fileNames.filter(filter)` with the rules that contain a '/'. */
  function FilterNames(names: seq<string>, rules: seq<string>): (r: seq<string>)
    ensures forall x :: x in r <==> x in names && PassesAll(rules, x)
    ensures NoDuplicates(names) ==> NoDuplicates(r)
  {
    if names == [] then []
    else
      var rest := FilterNames(names[1..], rules);
      assert NoDuplicates(names) ==> NoDuplicates(names[1..]) by {
        assert forall i :: 0 <= i < |names| - 1 ==> names[1..][i] == names[i + 1];
      }
      (if PassesAll(rules, names[0]) then [names[0]] else []) + rest
  }

  // ---------------------------------------------------------------------------
  // Reading the source tree
  // ---------------------------------------------------------------------------

  /** `readlinkSync` on the source path of `name`. */
  function SourceReadlink(es: seq<Entry>, name: string): Result<string, Errno> {
    match EntryAt(es, Segments(name))
    case None => Failure(ENOENT)
    case Some(e) => if e.kind.SymbolicLink? then Success(e.kind.target) else Failure(EINVAL)
  }

  // ---------------------------------------------------------------------------
  // The main pass: one entry at a time
  // ---------------------------------------------------------------------------

  /** A deferred link: the walked name, its source path and its destination path. */
  datatype Pending = Pending(name: string, src: string, dst: string)

  /** The state of the main pass: the TrackedFS, `createdFolders` and `symLinks`. */
  datatype Copy = Copy(fs: FsState, created: set<string>, pending: seq<Pending>)

  datatype Progress = Progress(status: Status, c: Copy)

  /**
   * `makedir(dir)`: a directory is handled once; the first time it is
   * recorded as created and made with `mkdirSync` unless `existsSync` finds it.
   */
  function MakeDir(c: Copy, dir: string): (r: Progress)
    ensures r.c.created == c.created + {dir}
    ensures r.c.pending == c.pending && r.c.fs.cwd == c.fs.cwd && r.c.fs.logs.links == c.fs.logs.links
    ensures r.c.fs.logs.files == c.fs.logs.files
    ensures r.c.fs.logs.folders == c.fs.logs.folders ||
            (r.c.fs.logs.folders == c.fs.logs.folders + [dir] && dir !in c.created && !Exists(c.fs.entries, dir))
    ensures dir in c.created || Exists(c.fs.entries, dir) ==> r == Progress(Ok, c.(created := c.created + {dir}))
    ensures Grows(c.fs.entries, r.c.fs.entries)
  {
    if dir in c.created then
      assert c.created + {dir} == c.created;
      Progress(Ok, c)
    else
      var c1 := c.(created := c.created + {dir});
      if Exists(c.fs.entries, dir) then Progress(Ok, c1)
      else
        var m := Mkdir(c.fs.entries, dir);
        MkdirGrows(c.fs.entries, dir);
        Progress(m.status, c1.(fs := c.fs.(entries := m.entries, logs := c.fs.logs.(folders := c.fs.logs.folders + [dir]))))
  }

  method Makedir(fs: TrackedFS, created: set<string>, ghost pending: seq<Pending>, dir: string)
    returns (created': set<string>, st: Status)
    modifies fs`folders, fs.disk`entries
    ensures Progress(st, Copy(fs.Snapshot(), created', pending)) == MakeDir(Copy(old(fs.Snapshot()), created, pending), dir)
  {
    created' := created;
    st := Ok;
    if dir !in created {
      created' := created + {dir};
      var found := fs.ExistsSync(dir);
      if !found {
        st := fs.MkdirSync(dir);
      }
    }
  }

  /** The source entry of `name` is a symbolic link. */
  predicate LinkAt(es: seq<Entry>, name: string) {
    EntryAt(es, Segments(name)).Some? && EntryAt(es, Segments(name)).value.kind.SymbolicLink?
  }

  /**
   * One name of `fileNames.forEach`, classified by `lstatSync` of its source
   * path: a missing entry throws ENOENT; the step touches neither the working
   * directory nor the link log, handles at most its own destination
   * directory, and defers only the link of a link entry when links are wanted.
   */
  function MainStep(c: Copy, src: string, dst: string, es: seq<Entry>, noSymLinks: bool, name: string): (r: Progress)
    ensures EntryAt(es, Segments(name)).None? ==> r == Progress(Err(ENOENT), c)
    ensures r.c.fs.cwd == c.fs.cwd && r.c.fs.logs.links == c.fs.logs.links
    ensures r.c.created == c.created || r.c.created == c.created + {Join(dst, name)}
    ensures r.c.pending == c.pending ||
            (!noSymLinks && LinkAt(es, name) && r.c.pending == c.pending + [Pending(name, Join(src, name), Join(dst, name))])
    ensures r.status.Ok? && !noSymLinks && LinkAt(es, name) ==>
              r.c.pending == c.pending + [Pending(name, Join(src, name), Join(dst, name))]
    ensures Grows(c.fs.entries, r.c.fs.entries)
  {
    var srcPath := Join(src, name);
    var dstPath := Join(dst, name);
    match EntryAt(es, Segments(name))
    case None => Progress(Err(ENOENT), c)
    case Some(e) =>
      if e.kind.SymbolicLink? then
        if noSymLinks then Progress(Ok, c)
        else Progress(Ok, c.(pending := c.pending + [Pending(name, srcPath, dstPath)]))
      else if e.kind.Directory? then MakeDir(c, dstPath)
      else
        var r := CopyFileResult(c.fs, Success(e.kind.data), dstPath);
        Progress(r.status, c.(fs := r.fs))
  }

  /**
   * `fileNames.forEach(...)`: the first call that throws ends the pass. The
   * pass never changes the working directory or the link log, only adds to
   * the handled set, the deferred links and the filesystem, defers nothing
   * under `noSymLinks`, and, when it completes without it, has deferred the
   * link of every link entry among `names`.
   */
  function MainPass(c: Copy, src: string, dst: string, es: seq<Entry>, noSymLinks: bool, names: seq<string>): (r: Progress)
    ensures r.c.fs.cwd == c.fs.cwd && r.c.fs.logs.links == c.fs.logs.links
    ensures c.created <= r.c.created && c.pending <= r.c.pending
    ensures noSymLinks ==> r.c.pending == c.pending
    ensures r.status.Ok? && !noSymLinks ==>
              forall n :: n in names && LinkAt(es, n) ==> Pending(n, Join(src, n), Join(dst, n)) in r.c.pending
    ensures Grows(c.fs.entries, r.c.fs.entries)
    decreases |names|
  {
    if names == [] then Progress(Ok, c)
    else
      var r := MainStep(c, src, dst, es, noSymLinks, names[0]);
      if r.status.Err? then r
      else
        var m := MainPass(r.c, src, dst, es, noSymLinks, names[1..]);
        GrowsTransitive(c.fs.entries, r.c.fs.entries, m.c.fs.entries);
        assert forall n :: n in names ==> n == names[0] || n in names[1..];
        assert LinkAt(es, names[0]) && !noSymLinks ==>
                 Pending(names[0], Join(src, names[0]), Join(dst, names[0])) in r.c.pending;
        m
  }

  // ---------------------------------------------------------------------------
  // The link pass
  // ---------------------------------------------------------------------------

  /** Every entry of `e1` is still in `e2`, unchanged. */
  ghost predicate Extends(e1: Entries, e2: Entries) {
    forall k :: k in e1 ==> k in e2 && e2[k] == e1[k]
  }

  /**
   * One deferred link: back to the saved directory, read the source link's
   * target, change to the destination's directory, and create the link with
   * the same target text.
   */
  function LinkStep(s: FsState, pwd: string, es: seq<Entry>, link: Pending): (r: Effect)
    ensures r.fs.logs.files == s.logs.files && r.fs.logs.folders == s.logs.folders
    ensures r.fs.logs.links == s.logs.links || r.fs.logs.links == s.logs.links + [link.dst]
    ensures r.status.Ok? ==>
              && r.fs.cwd == Dirname(link.dst)
              && SourceReadlink(es, link.name).Success?
              && link.dst in r.fs.entries
              && r.fs.entries[link.dst] == Link(SourceReadlink(es, link.name).value)
    ensures Extends(s.entries, r.fs.entries)
  {
    var back := ChdirStatus(s.entries, pwd);
    if back.Err? then Effect(back, s)
    else
      var s1 := s.(cwd := pwd);
      var data := SourceReadlink(es, link.name);
      if data.Failure? then Effect(Err(data.error), s1)
      else
        var dir := Dirname(link.dst);
        var into := ChdirStatus(s1.entries, dir);
        if into.Err? then Effect(into, s1)
        else
          var s2 := s1.(cwd := dir);
          var r := Symlink(s2.entries, data.value, link.dst);
          Effect(r.status, s2.(entries := r.entries, logs := s2.logs.(links := s2.logs.links + [link.dst])))
  }

  /**
   * `symLinks.forEach(...)`: the first call that throws ends the pass. It
   * leaves the file and folder logs alone, logs at most one link per deferred
   * link, and changes no entry that was already there.
   */
  function LinkPass(s: FsState, pwd: string, es: seq<Entry>, links: seq<Pending>): (r: Effect)
    ensures r.fs.logs.files == s.logs.files && r.fs.logs.folders == s.logs.folders
    ensures |r.fs.logs.links| <= |s.logs.links| + |links|
    ensures Extends(s.entries, r.fs.entries)
    decreases |links|
  {
    if links == [] then Effect(Ok, s)
    else
      var r := LinkStep(s, pwd, es, links[0]);
      if r.status.Err? then r else LinkPass(r.fs, pwd, es, links[1..])
  }

  // ---------------------------------------------------------------------------
  // copyTree
  // ---------------------------------------------------------------------------

  /** The TypeError of `options.exclude.filter` when `exclude` is absent, or an fs error. */
  datatype CopyError = FsError(code: Errno) | ExcludeMissing

  datatype CopyStatus = Copied | Threw(error: CopyError)

  datatype CopyOutcome = CopyOutcome(status: CopyStatus, fs: FsState)

  /**
   * The names `copyTree` goes on to copy: walked with the no-'/' rules, then
   * filtered by the '/' rules. It fails exactly when the walk does, and keeps
   * the walked names that pass the '/' rules, each once.
   */
  function Selection(src: string, source: Option<Entry>, exclude: seq<string>): (r: Result<seq<string>, Errno>)
    ensures var walk := ReadDirTreeSync(src, source, WalkFilter(Some(exclude)));
      (r.Failure? <==> walk.Failure?) && (r.Failure? ==> r.error == walk.error)
    ensures var walk := ReadDirTreeSync(src, source, WalkFilter(Some(exclude)));
      r.Success? ==> forall x :: x in r.value <==> x in walk.value && PassesAll(SlashRules(exclude), x)
    ensures r.Success? && WellFormed(source.value.children) ==> NoDuplicates(r.value)
  {
    var walk := ReadDirTreeSync(src, source, WalkFilter(Some(exclude)));
    if walk.Failure? then Failure(walk.error)
    else if WellFormed(source.value.children) then
      ReadDirTreeSyncOrder(src, source, WalkFilter(Some(exclude)));
      Success(FilterNames(walk.value, SlashRules(exclude)))
    else Success(FilterNames(walk.value, SlashRules(exclude)))
  }

  /**
   * `copyTree(src, dst, {exclude, noSymLinks, fileSystem})`: the walk, the
   * TypeError of the second rule split when `exclude` is absent, the main
   * pass, the link pass, and the return to the saved directory.
   */
  function CopyTreeResult(src: string, dst: string, source: Option<Entry>, exclude: Option<seq<string>>,
                          noSymLinks: bool, s: FsState): (r: CopyOutcome)
    ensures exclude.None? ==> r.status.Threw? && r.fs == s
    ensures r.status.Copied? ==> r.fs.cwd == s.cwd
  {
    var walk := ReadDirTreeSync(src, source, WalkFilter(exclude));
    if walk.Failure? then CopyOutcome(Threw(FsError(walk.error)), s)
    else if exclude.None? then CopyOutcome(Threw(ExcludeMissing), s)
    else
      var names := FilterNames(walk.value, SlashRules(exclude.value));
      var es := source.value.children;
      var m := MainPass(Copy(s, {}, []), src, dst, es, noSymLinks, names);
      if m.status.Err? then CopyOutcome(Threw(FsError(m.status.code)), m.c.fs)
      else
        var pwd := m.c.fs.cwd;
        var l := LinkPass(m.c.fs, pwd, es, m.c.pending);
        if l.status.Err? then CopyOutcome(Threw(FsError(l.status.code)), l.fs)
        else
          var back := ChdirStatus(l.fs.entries, pwd);
          if back.Err? then CopyOutcome(Threw(FsError(back.code)), l.fs)
          else
            CopyOutcome(Copied, l.fs.(cwd := pwd))
  }

  method CopyTree(src: string, dst: string, source: Option<Entry>, exclude: Option<seq<string>>,
                  noSymLinks: bool, fs: TrackedFS) returns (st: CopyStatus)
    modifies fs`files, fs`folders, fs`links, fs.disk`entries, fs.disk`cwd
    ensures CopyOutcome(st, fs.Snapshot()) == CopyTreeResult(src, dst, source, exclude, noSymLinks, old(fs.Snapshot()))
  {
    var walk := ReadDirTreeSync(src, source, WalkFilter(exclude));
    if walk.Failure? {
      return Threw(FsError(walk.error));
    }
    if exclude.None? {
      return Threw(ExcludeMissing);
    }
    var names := FilterNames(walk.value, SlashRules(exclude.value));
    var es := source.value.children;
    var s, created, pending := RunMainPass(fs, src, dst, es, noSymLinks, names);
    if s.Err? {
      return Threw(FsError(s.code));
    }
    var pwd := fs.disk.cwd;
    s := RunLinkPass(fs, pwd, es, pending);
    if s.Err? {
      return Threw(FsError(s.code));
    }
    s := fs.disk.Chdir(pwd);
    if s.Err? {
      return Threw(FsError(s.code));
    }
    st := Copied;
  }

  /** `fileNames.forEach(...)`. */
  method RunMainPass(fs: TrackedFS, src: string, dst: string, es: seq<Entry>, noSymLinks: bool, names: seq<string>)
    returns (st: Status, created: set<string>, pending: seq<Pending>)
    modifies fs`files, fs`folders, fs.disk`entries
    ensures Progress(st, Copy(fs.Snapshot(), created, pending)) ==
            MainPass(Copy(old(fs.Snapshot()), {}, []), src, dst, es, noSymLinks, names)
  {
    ghost var c0 := Copy(fs.Snapshot(), {}, []);
    created, pending := {}, [];
    var i := 0;
    while i < |names|
      invariant 0 <= i <= |names|
      invariant MainPass(c0, src, dst, es, noSymLinks, names) ==
                MainPass(Copy(fs.Snapshot(), created, pending), src, dst, es, noSymLinks, names[i..])
    {
      st, created, pending := CopyEntry(fs, src, dst, es, noSymLinks, names[i], created, pending);
      if st.Err? {
        return;
      }
      assert names[i..][1..] == names[i + 1..];
      i := i + 1;
    }
    st := Ok;
  }

  /** The body of the `forEach`: classify the entry by `lstatSync` and act on it. */
  method CopyEntry(fs: TrackedFS, src: string, dst: string, es: seq<Entry>, noSymLinks: bool, name: string,
                   created: set<string>, pending: seq<Pending>)
    returns (st: Status, created': set<string>, pending': seq<Pending>)
    modifies fs`files, fs`folders, fs.disk`entries
    ensures Progress(st, Copy(fs.Snapshot(), created', pending')) ==
            MainStep(Copy(old(fs.Snapshot()), created, pending), src, dst, es, noSymLinks, name)
  {
    var srcPath := Join(src, name);
    var dstPath := Join(dst, name);
    created', pending' := created, pending;
    var stat := EntryAt(es, Segments(name));
    if stat.None? {
      return Err(ENOENT), created', pending';
    }
    var e := stat.value;
    st := Ok;
    if e.kind.SymbolicLink? {
      if !noSymLinks {
        pending' := pending + [Pending(name, srcPath, dstPath)];
      }
    } else if e.kind.Directory? {
      created', st := Makedir(fs, created, pending, dstPath);
    } else {
      st := CopyFile(Success(e.kind.data), dstPath, fs);
    }
  }

  /** `symLinks.forEach(...)`. */
  method RunLinkPass(fs: TrackedFS, pwd: string, es: seq<Entry>, links: seq<Pending>) returns (st: Status)
    modifies fs`links, fs.disk`entries, fs.disk`cwd
    ensures Effect(st, fs.Snapshot()) == LinkPass(old(fs.Snapshot()), pwd, es, links)
  {
    ghost var s0 := fs.Snapshot();
    var j := 0;
    while j < |links|
      invariant 0 <= j <= |links|
      invariant LinkPass(s0, pwd, es, links) == LinkPass(fs.Snapshot(), pwd, es, links[j..])
    {
      st := MakeLink(fs, pwd, es, links[j]);
      if st.Err? {
        return;
      }
      assert links[j..][1..] == links[j + 1..];
      j := j + 1;
    }
    st := Ok;
  }

  method MakeLink(fs: TrackedFS, pwd: string, es: seq<Entry>, link: Pending) returns (st: Status)
    modifies fs`links, fs.disk`entries, fs.disk`cwd
    ensures Effect(st, fs.Snapshot()) == LinkStep(old(fs.Snapshot()), pwd, es, link)
  {
    st := fs.disk.Chdir(pwd);
    if st.Err? {
      return;
    }
    var data := SourceReadlink(es, link.name);
    if data.Failure? {
      return Err(data.error);
    }
    st := fs.disk.Chdir(Dirname(link.dst));
    if st.Err? {
      return;
    }
    st := fs.SymlinkSync(data.value, link.dst);
  }

  // ---------------------------------------------------------------------------
  // What the passes preserve
  // ---------------------------------------------------------------------------

  /** A link pass that completes created each deferred link with its source's target text. */
  lemma {:induction false} LinkPassTargets(s: FsState, pwd: string, es: seq<Entry>, links: seq<Pending>)
    requires LinkPass(s, pwd, es, links).status.Ok?
    ensures forall l :: l in links ==>
              SourceReadlink(es, l.name).Success? &&
              l.dst in LinkPass(s, pwd, es, links).fs.entries &&
              LinkPass(s, pwd, es, links).fs.entries[l.dst] == Link(SourceReadlink(es, l.name).value)
    ensures Grows(s.entries, LinkPass(s, pwd, es, links).fs.entries)
    decreases |links|
  {
    if links != [] {
      var r := LinkStep(s, pwd, es, links[0]);
      var l0 := links[0];
      assert r.status.Ok?;
      SymlinkGrows(s.entries, SourceReadlink(es, l0.name).value, l0.dst);
      assert r.fs.entries[l0.dst] == Link(SourceReadlink(es, l0.name).value);
      LinkPassTargets(r.fs, pwd, es, links[1..]);
      var fin := LinkPass(s, pwd, es, links).fs.entries;
      GrowsTransitive(s.entries, r.fs.entries, fin);
      forall l | l in links
        ensures SourceReadlink(es, l.name).Success? && l.dst in fin && fin[l.dst] == Link(SourceReadlink(es, l.name).value)
      {
        if l != l0 {
          assert l in links[1..];
        }
      }
    }
  }

  /**
   * `makedir` calls `mkdirSync` at most once per path, and never for a path
   * that existed when the pass began: the folders the main pass logs are
   * distinct, were not handled before, and did not exist.
   */
  lemma {:induction false} MainPassMkdirOnce(c: Copy, src: string, dst: string, es: seq<Entry>, noSymLinks: bool,
                                             names: seq<string>)
    ensures FoldersOnce(c, MainPass(c, src, dst, es, noSymLinks, names).c)
    decreases |names|
  {
    if names != [] {
      var r1 := MainStep(c, src, dst, es, noSymLinks, names[0]);
      MainStepFolders(c, src, dst, es, noSymLinks, names[0]);
      StepFoldersOnce(c, r1.c);
      if r1.status.Ok? {
        MainPassMkdirOnce(r1.c, src, dst, es, noSymLinks, names[1..]);
        FoldersOnceTransitive(c, r1.c, MainPass(r1.c, src, dst, es, noSymLinks, names[1..]).c);
      }
    }
  }

  /**
   * From `c` to `d` the folder log only grows, by distinct folders that were
   * neither handled nor existing in `c` and are handled in `d`; the handled
   * set only grows and the filesystem only grows.
   */
  ghost predicate FoldersOnce(c: Copy, d: Copy) {
    var n := |c.fs.logs.folders|;
    && n <= |d.fs.logs.folders|
    && d.fs.logs.folders[..n] == c.fs.logs.folders
    && NoDuplicates(d.fs.logs.folders[n..])
    && (forall p :: p in d.fs.logs.folders[n..] ==> p !in c.created && p in d.created && !Exists(c.fs.entries, p))
    && c.created <= d.created
    && Grows(c.fs.entries, d.fs.entries)
  }

  lemma StepFoldersOnce(c: Copy, d: Copy)
    requires c.created <= d.created && Grows(c.fs.entries, d.fs.entries)
    requires d.fs.logs.folders == c.fs.logs.folders ||
             exists dir :: d.fs.logs.folders == c.fs.logs.folders + [dir] &&
                           dir !in c.created && dir in d.created && !Exists(c.fs.entries, dir)
    ensures FoldersOnce(c, d)
  {
    var n := |c.fs.logs.folders|;
    if d.fs.logs.folders == c.fs.logs.folders {
      assert d.fs.logs.folders[n..] == [];
    } else {
      var dir :| d.fs.logs.folders == c.fs.logs.folders + [dir] &&
                 dir !in c.created && dir in d.created && !Exists(c.fs.entries, dir);
      assert d.fs.logs.folders[n..] == [dir];
    }
  }

  lemma FoldersOnceTransitive(c: Copy, d: Copy, e: Copy)
    requires FoldersOnce(c, d) && FoldersOnce(d, e)
    ensures FoldersOnce(c, e)
  {
    var n, n1 := |c.fs.logs.folders|, |d.fs.logs.folders|;
    var added, later := d.fs.logs.folders[n..], e.fs.logs.folders[n1..];
    assert e.fs.logs.folders[..n1][..n] == e.fs.logs.folders[..n];
    assert e.fs.logs.folders[n..] == added + later;
    forall p | p in later ensures p !in c.created && !Exists(c.fs.entries, p) {
      if Exists(c.fs.entries, p) {
        ExistsGrows(c.fs.entries, d.fs.entries, p);
      }
    }
    NoDupConcat(added, later);
    GrowsTransitive(c.fs.entries, d.fs.entries, e.fs.entries);
  }

  /** One main step logs at most one folder, one not handled or existing before, and records it as handled. */
  lemma MainStepFolders(c: Copy, src: string, dst: string, es: seq<Entry>, noSymLinks: bool, name: string)
    ensures var r := MainStep(c, src, dst, es, noSymLinks, name);
            && c.created <= r.c.created
            && Grows(c.fs.entries, r.c.fs.entries)
            && (r.c.fs.logs.folders == c.fs.logs.folders ||
                exists dir :: r.c.fs.logs.folders == c.fs.logs.folders + [dir] &&
                              dir !in c.created && dir in r.c.created && !Exists(c.fs.entries, dir))
  {
    var r := MainStep(c, src, dst, es, noSymLinks, name);
    var dstPath := Join(dst, name);
    if r.c.fs.logs.folders != c.fs.logs.folders {
      assert r.c.fs.logs.folders == c.fs.logs.folders + [dstPath];
    }
  }

  // ---------------------------------------------------------------------------
  // copyTree as a whole
  // ---------------------------------------------------------------------------

  /** With `noSymLinks` no `symlinkSync` is made: the link log is what it was. */
  lemma NoSymLinksNoLinks(src: string, dst: string, source: Option<Entry>, exclude: Option<seq<string>>,
                          s: FsState)
    ensures CopyTreeResult(src, dst, source, exclude, true, s).fs.logs.links == s.logs.links
  {
    var walk := ReadDirTreeSync(src, source, WalkFilter(exclude));
    if walk.Success? && exclude.Some? {
      var names := Selection(src, source, exclude.value).value;
      var m := MainPass(Copy(s, {}, []), src, dst, source.value.children, true, names);
      CopyTreeShape(src, dst, source, exclude.value, true, s);
      assert m.status.Ok? ==> LinkPass(m.c.fs, m.c.fs.cwd, source.value.children, m.c.pending).fs == m.c.fs;
    }
  }

  /**
   * The main pass runs before the link pass and does not create links; the
   * link pass then logs only links: every file and folder the copy logs is
   * logged before its first link.
   */
  lemma LinksAfterFilesAndFolders(src: string, dst: string, source: Option<Entry>, exclude: seq<string>,
                                  noSymLinks: bool, s: FsState)
    requires Selection(src, source, exclude).Success?
    ensures var names := Selection(src, source, exclude).value;
            var m := MainPass(Copy(s, {}, []), src, dst, source.value.children, noSymLinks, names);
            var r := CopyTreeResult(src, dst, source, Some(exclude), noSymLinks, s);
            && m.c.fs.logs.links == s.logs.links
            && (m.status.Ok? ==> r.fs.logs.files == m.c.fs.logs.files && r.fs.logs.folders == m.c.fs.logs.folders)
  {
    CopyTreeShape(src, dst, source, exclude, noSymLinks, s);
  }

  /** Over a whole copy, the folders logged are distinct and none existed beforehand. */
  lemma CopyTreeMkdirOnce(src: string, dst: string, source: Option<Entry>, exclude: seq<string>,
                          noSymLinks: bool, s: FsState)
    requires Selection(src, source, exclude).Success?
    ensures var r := CopyTreeResult(src, dst, source, Some(exclude), noSymLinks, s);
            var n := |s.logs.folders|;
            && n <= |r.fs.logs.folders|
            && r.fs.logs.folders[..n] == s.logs.folders
            && NoDuplicates(r.fs.logs.folders[n..])
            && forall p :: p in r.fs.logs.folders[n..] ==> !Exists(s.entries, p)
  {
    var names := Selection(src, source, exclude).value;
    var c0 := Copy(s, {}, []);
    var es := source.value.children;
    MainPassMkdirOnce(c0, src, dst, es, noSymLinks, names);
    LinksAfterFilesAndFolders(src, dst, source, exclude, noSymLinks, s);
  }

  // ---------------------------------------------------------------------------
  // Which entries are copied
  // ---------------------------------------------------------------------------

  /** A walk-time rule that matches an ancestor's path also matches the path itself. */
  lemma PrefixAccepted(exclude: seq<string>, s: string, k: nat)
    requires '\\' !in s && 1 <= k <= |Segments(s)|
    requires forall x :: x in exclude ==> !Contains(s, x)
    ensures Accepts(WalkFilter(Some(exclude)), Segments(s)[..k])
  {
    var segs := Segments(s);
    JoinPrefix(segs, k);
    JoinOfSegments(s);
    var p := JoinSegments(segs[..k]);
    var tail :| s == p + tail;
    assert '\\' !in p by {
      forall i | 0 <= i < |p| ensures p[i] != '\\' {
        assert p[i] == s[i];
      }
    }
    SlashesIdentity(p);
    forall x | x in NoSlashRules(exclude) ensures !Contains(p, x) {
      if Contains(p, x) {
        ContainsExtend(p, tail, x);
      }
    }
  }

  /**
   * With '/' as the separator and no '\\' in the path, an entry of a
   * well-formed source tree survives both exclusion passes exactly when it
   * exists below a chain of directories and no exclude string is a
   * substring of its relative path.
   */
  lemma SelectionIff(src: string, source: Option<Entry>, exclude: seq<string>, s: string)
    requires Selection(src, source, exclude).Success?
    requires WellFormed(source.value.children)
    requires '\\' !in s
    ensures s in Selection(src, source, exclude).value <==>
            Reach([], source.value.children, Segments(s), NoFilter) &&
            forall x :: x in exclude ==> !Contains(s, x)
  {
    ReadDirTreeSyncIff(src, source, WalkFilter(Some(exclude)), s);
    SelectedSound(source.value.children, exclude, s);
    SelectedComplete(source.value.children, exclude, s);
  }

  /** What the walk reaches and the second rule split passes contains no exclude string. */
  lemma SelectedSound(es: seq<Entry>, exclude: seq<string>, s: string)
    requires '\\' !in s
    ensures Reach([], es, Segments(s), WalkFilter(Some(exclude))) && PassesAll(SlashRules(exclude), s) ==>
            Reach([], es, Segments(s), NoFilter) && forall x :: x in exclude ==> !Contains(s, x)
  {
    var f := WalkFilter(Some(exclude));
    var segs := Segments(s);
    if Reach([], es, segs, f) && PassesAll(SlashRules(exclude), s) {
      SegmentsNonEmpty(s);
      ReachUnfiltered([], es, segs, f);
      ReachAccepted([], es, segs, f);
      assert segs[..|segs|] == segs;
      assert [] + segs == segs;
      JoinOfSegments(s);
      SlashesIdentity(s);
      assert PassesAll(NoSlashRules(exclude), s);
    }
  }

  /** An existing entry whose path contains no exclude string passes the walk and the second split. */
  lemma SelectedComplete(es: seq<Entry>, exclude: seq<string>, s: string)
    requires '\\' !in s
    ensures Reach([], es, Segments(s), NoFilter) && (forall x :: x in exclude ==> !Contains(s, x)) ==>
            Reach([], es, Segments(s), WalkFilter(Some(exclude))) && PassesAll(SlashRules(exclude), s)
  {
    var f := WalkFilter(Some(exclude));
    var segs := Segments(s);
    if Reach([], es, segs, NoFilter) && forall x :: x in exclude ==> !Contains(s, x) {
      forall k | 1 <= k <= |segs| ensures Accepts(f, [] + segs[..k]) {
        PrefixAccepted(exclude, s, k);
        assert [] + segs[..k] == segs[..k];
      }
      ReachFiltered([], es, segs, f);
    }
  }

  // ---------------------------------------------------------------------------
  // What a completed copy leaves at the destination
  // ---------------------------------------------------------------------------

  /** `Join(dst, -)` tells names apart. */
  lemma JoinInjective(dst: string, a: string, b: string)
    requires Join(dst, a) == Join(dst, b)
    ensures a == b
  {
    var h := dst + "/";
    assert Join(dst, a) == h + a && Join(dst, b) == h + b;
    assert a == (h + a)[|h|..];
  }

  /** The key `k` is absent from both maps or maps to the same node in both. */
  ghost predicate SameAt(e1: Entries, e2: Entries, k: string) {
    (k in e1 <==> k in e2) && (k in e1 ==> e1[k] == e2[k])
  }

  /** `k` is the destination path of none of `names`. */
  predicate Outside(dst: string, names: seq<string>, k: string) {
    forall m :: m in names ==> k != Join(dst, m)
  }

  /**
   * Before the copy, the destination of `n` is free for it: nothing there is
   * a link, and where a directory is to be made, whatever is already there is
   * a directory (`existsSync` would otherwise skip the `mkdirSync`).
   */
  ghost predicate DestFree(e: Entries, dst: string, es: seq<Entry>, n: string) {
    var p := Join(dst, n);
    p in e ==> !e[p].Link? &&
               (EntryAt(es, Segments(n)).Some? && EntryAt(es, Segments(n)).value.kind.Directory? ==> e[p].Dir?)
  }

  /** The destination of `n` holds the copy of its source entry: the same bytes, or a directory. */
  ghost predicate Placed(e: Entries, dst: string, es: seq<Entry>, n: string) {
    var p := Join(dst, n);
    match EntryAt(es, Segments(n))
    case None => true
    case Some(x) =>
      match x.kind
      case RegularFile(data) => p in e && e[p] == File(data)
      case Directory => p in e && e[p].Dir?
      case SymbolicLink(_, _) => true
  }

  /** A main step that succeeds on a free destination places its entry there and changes nothing else. */
  lemma MainStepPlaces(c: Copy, src: string, dst: string, es: seq<Entry>, noSymLinks: bool, n: string)
    requires MainStep(c, src, dst, es, noSymLinks, n).status.Ok?
    requires DestFree(c.fs.entries, dst, es, n) && Join(dst, n) !in c.created
    ensures var e := MainStep(c, src, dst, es, noSymLinks, n).c.fs.entries;
            && Placed(e, dst, es, n)
            && forall k :: k != Join(dst, n) ==> SameAt(c.fs.entries, e, k)
  {
    var p := Join(dst, n);
    var x := EntryAt(es, Segments(n)).value;
    var e := c.fs.entries;
    var r := MainStep(c, src, dst, es, noSymLinks, n);
    match x.kind
    case SymbolicLink(_, _) =>
      assert r.c.fs == c.fs;
    case Directory =>
      if Exists(e, p) {
        assert r.c.fs == c.fs;
      } else {
        assert r.c.fs.entries == Mkdir(e, p).entries == e[p := Dir];
      }
    case RegularFile(data) =>
      assert r.c.fs.entries == WriteFile(e, p, data).entries == e[p := File(data)];
  }

  /**
   * A main pass that completes over distinct names whose destinations are
   * free places every entry at its destination and changes no other path.
   */
  lemma {:induction false} MainPassPlaces(c: Copy, src: string, dst: string, es: seq<Entry>, noSymLinks: bool,
                                          names: seq<string>)
    requires MainPass(c, src, dst, es, noSymLinks, names).status.Ok?
    requires NoDuplicates(names)
    requires forall n :: n in names ==> DestFree(c.fs.entries, dst, es, n) && Join(dst, n) !in c.created
    ensures var e := MainPass(c, src, dst, es, noSymLinks, names).c.fs.entries;
            && (forall n :: n in names ==> Placed(e, dst, es, n))
            && forall k :: Outside(dst, names, k) ==> SameAt(c.fs.entries, e, k)
    decreases |names|
  {
    if names != [] {
      var n0, rest := names[0], names[1..];
      var p0 := Join(dst, n0);
      var r := MainStep(c, src, dst, es, noSymLinks, n0);
      MainStepPlaces(c, src, dst, es, noSymLinks, n0);
      assert forall i :: 0 <= i < |rest| ==> rest[i] == names[i + 1];
      forall m | m in rest
        ensures DestFree(r.c.fs.entries, dst, es, m) && Join(dst, m) !in r.c.created
      {
        if Join(dst, m) == p0 {
          JoinInjective(dst, m, n0);
        }
        assert SameAt(c.fs.entries, r.c.fs.entries, Join(dst, m));
      }
      MainPassPlaces(r.c, src, dst, es, noSymLinks, rest);
      var e := MainPass(c, src, dst, es, noSymLinks, names).c.fs.entries;
      assert Outside(dst, rest, p0) by {
        forall m | m in rest ensures p0 != Join(dst, m) {
          if p0 == Join(dst, m) {
            JoinInjective(dst, m, n0);
          }
        }
      }
      assert SameAt(r.c.fs.entries, e, p0);
      forall k | Outside(dst, names, k) ensures SameAt(c.fs.entries, e, k) {
        assert k != p0 && Outside(dst, rest, k);
      }
    }
  }

  /** What `Extends` keeps, `Placed` keeps. */
  lemma PlacedExtends(e1: Entries, e2: Entries, dst: string, es: seq<Entry>, n: string)
    requires Placed(e1, dst, es, n) && Extends(e1, e2)
    ensures Placed(e2, dst, es, n)
  {
  }

  /**
   * The destination of `n` holds the copy of its source entry: a file with
   * the same bytes, a directory one can change into, or (unless
   * `noSymLinks`) a link with the same target text.
   */
  ghost predicate CopiedTo(e: Entries, dst: string, es: seq<Entry>, noSymLinks: bool, n: string) {
    var p := Join(dst, n);
    match EntryAt(es, Segments(n))
    case None => false
    case Some(x) =>
      match x.kind
      case RegularFile(data) => ReadFile(e, p) == Success(data)
      case Directory => CanChdir(e, p)
      case SymbolicLink(target, _) => !noSymLinks ==> p in e && e[p] == Link(target)
  }

  /** Both passes completing over distinct names with free destinations copy every name. */
  lemma PassesCopy(c: Copy, src: string, dst: string, es: seq<Entry>, noSymLinks: bool, names: seq<string>)
    requires MainPass(c, src, dst, es, noSymLinks, names).status.Ok?
    requires var m := MainPass(c, src, dst, es, noSymLinks, names).c;
             LinkPass(m.fs, m.fs.cwd, es, m.pending).status.Ok?
    requires NoDuplicates(names)
    requires forall n :: n in names ==> DestFree(c.fs.entries, dst, es, n) && Join(dst, n) !in c.created
    ensures var m := MainPass(c, src, dst, es, noSymLinks, names).c;
            var e := LinkPass(m.fs, m.fs.cwd, es, m.pending).fs.entries;
            forall n :: n in names ==> CopiedTo(e, dst, es, noSymLinks, n)
  {
    var m := MainPass(c, src, dst, es, noSymLinks, names).c;
    var e := LinkPass(m.fs, m.fs.cwd, es, m.pending).fs.entries;
    MainPassPlaces(c, src, dst, es, noSymLinks, names);
    if !noSymLinks {
      LinkPassTargets(m.fs, m.fs.cwd, es, m.pending);
    }
    forall n | n in names ensures CopiedTo(e, dst, es, noSymLinks, n) {
      PlacedExtends(m.fs.entries, e, dst, es, n);
      MainPassFindsAll(c, src, dst, es, noSymLinks, names, n);
      if LinkAt(es, n) && !noSymLinks {
        assert Pending(n, Join(src, n), Join(dst, n)) in m.pending;
      }
    }
  }

  /**
   * A copy that completes over a well-formed source whose selected names
   * have free destinations leaves at `Join(dst, n)`, for every selected `n`,
   * the copy of its source entry.
   */
  lemma CopyTreeCopies(src: string, dst: string, source: Option<Entry>, exclude: seq<string>,
                       noSymLinks: bool, s: FsState)
    requires Selection(src, source, exclude).Success?
    requires WellFormed(source.value.children)
    requires forall n :: n in Selection(src, source, exclude).value ==> DestFree(s.entries, dst, source.value.children, n)
    requires CopyTreeResult(src, dst, source, Some(exclude), noSymLinks, s).status.Copied?
    ensures var e := CopyTreeResult(src, dst, source, Some(exclude), noSymLinks, s).fs.entries;
            forall n :: n in Selection(src, source, exclude).value ==>
              CopiedTo(e, dst, source.value.children, noSymLinks, n)
  {
    var es := source.value.children;
    var names := Selection(src, source, exclude).value;
    var c0 := Copy(s, {}, []);
    CopyTreeShape(src, dst, source, exclude, noSymLinks, s);
    PassesCopy(c0, src, dst, es, noSymLinks, names);
  }

  /**
   * The same for the reference view of the selection: every entry that
   * exists below a chain of source directories and whose relative path holds
   * no exclude string is copied to its destination.
   */
  lemma CopyTreeCopiesEntry(src: string, dst: string, source: Option<Entry>, exclude: seq<string>,
                            noSymLinks: bool, s: FsState, n: string)
    requires Selection(src, source, exclude).Success?
    requires WellFormed(source.value.children)
    requires forall m :: m in Selection(src, source, exclude).value ==> DestFree(s.entries, dst, source.value.children, m)
    requires CopyTreeResult(src, dst, source, Some(exclude), noSymLinks, s).status.Copied?
    requires '\\' !in n && Reach([], source.value.children, Segments(n), NoFilter)
    requires forall x :: x in exclude ==> !Contains(n, x)
    ensures CopiedTo(CopyTreeResult(src, dst, source, Some(exclude), noSymLinks, s).fs.entries,
                     dst, source.value.children, noSymLinks, n)
  {
    SelectionIff(src, source, exclude, n);
    CopyTreeCopies(src, dst, source, exclude, noSymLinks, s);
  }

  /**
   * `copyTree` over the selected names: a throwing main pass leaves its
   * state, after a completed one the logs and disk are those of the link
   * pass, and a copy that completes ran both passes to the end.
   */
  lemma CopyTreeShape(src: string, dst: string, source: Option<Entry>, exclude: seq<string>,
                      noSymLinks: bool, s: FsState)
    requires Selection(src, source, exclude).Success?
    ensures var es := source.value.children;
            var m := MainPass(Copy(s, {}, []), src, dst, es, noSymLinks, Selection(src, source, exclude).value);
            var l := LinkPass(m.c.fs, m.c.fs.cwd, es, m.c.pending);
            var r := CopyTreeResult(src, dst, source, Some(exclude), noSymLinks, s);
            && (m.status.Err? ==> r.fs == m.c.fs)
            && (m.status.Ok? ==> r.fs.logs == l.fs.logs && r.fs.entries == l.fs.entries)
            && (r.status.Copied? <==> m.status.Ok? && l.status.Ok? && ChdirStatus(l.fs.entries, m.c.fs.cwd).Ok?)
  {
    var walk := ReadDirTreeSync(src, source, WalkFilter(Some(exclude)));
    var names := FilterNames(walk.value, SlashRules(exclude));
    assert Selection(src, source, exclude).value == names;
    var es := source.value.children;
    var m := MainPass(Copy(s, {}, []), src, dst, es, noSymLinks, names);
    var r := CopyTreeResult(src, dst, source, Some(exclude), noSymLinks, s);
    if m.status.Err? {
      assert r == CopyOutcome(Threw(FsError(m.status.code)), m.c.fs);
    } else {
      var l := LinkPass(m.c.fs, m.c.fs.cwd, es, m.c.pending);
      if l.status.Err? {
        assert r == CopyOutcome(Threw(FsError(l.status.code)), l.fs);
      } else if ChdirStatus(l.fs.entries, m.c.fs.cwd).Err? {
        assert r.fs == l.fs;
      } else {
        assert r == CopyOutcome(Copied, l.fs.(cwd := m.c.fs.cwd));
      }
    }
  }

  /** A main pass that completes found a source entry for every name. */
  lemma {:induction false} MainPassFindsAll(c: Copy, src: string, dst: string, es: seq<Entry>, noSymLinks: bool,
                                            names: seq<string>, n: string)
    requires MainPass(c, src, dst, es, noSymLinks, names).status.Ok?
    requires n in names
    ensures EntryAt(es, Segments(n)).Some?
    decreases |names|
  {
    if n != names[0] {
      MainPassFindsAll(MainStep(c, src, dst, es, noSymLinks, names[0]).c, src, dst, es, noSymLinks, names[1..], n);
    }
  }

  // ---------------------------------------------------------------------------
  // When a copy completes
  // ---------------------------------------------------------------------------

  /** The source entry of `name` is a directory itself, not a link to one. */
  predicate DirectoryAt(es: seq<Entry>, name: string) {
    EntryAt(es, Segments(name)).Some? && EntryAt(es, Segments(name)).value.kind.Directory?
  }

  /**
   * Before the copy, the destination of `n` is ready for it: free, holding a
   * file or nothing where a file is copied, and nothing where a link is made.
   */
  ghost predicate DestReady(e: Entries, dst: string, es: seq<Entry>, noSymLinks: bool, n: string) {
    var p := Join(dst, n);
    && DestFree(e, dst, es, n)
    && (p in e && EntryAt(es, Segments(n)).Some? && EntryAt(es, Segments(n)).value.kind.RegularFile? ==> e[p].File?)
    && (!noSymLinks && LinkAt(es, n) ==> p !in e)
  }

  /**
   * The directory the `i`th name is copied into is a directory already, or
   * the destination of an earlier name whose source is a directory.
   */
  ghost predicate ParentReady(e: Entries, dst: string, es: seq<Entry>, names: seq<string>, i: nat)
    requires i < |names|
  {
    || ParentIsDir(e, Join(dst, names[i]))
    || exists j :: 0 <= j < i && DirectoryAt(es, names[j]) && Join(dst, names[j]) == Dirname(Join(dst, names[i]))
  }

  /** No name lies below a link among the names: the walk went through no link that is copied as a link. */
  predicate NoLinkAbove(es: seq<Entry>, names: seq<string>) {
    forall m, n :: m in names && n in names && IsAncestor(m, n) ==> !LinkAt(es, m)
  }

  /** A main step over a ready destination inside a directory completes. */
  lemma MainStepOk(c: Copy, src: string, dst: string, es: seq<Entry>, noSymLinks: bool, n: string)
    requires EntryAt(es, Segments(n)).Some?
    requires DestReady(c.fs.entries, dst, es, noSymLinks, n) && Join(dst, n) !in c.created
    requires ParentIsDir(c.fs.entries, Join(dst, n))
    ensures MainStep(c, src, dst, es, noSymLinks, n).status.Ok?
  {
    var p := Join(dst, n);
    var e := c.fs.entries;
    match EntryAt(es, Segments(n)).value.kind
    case SymbolicLink(_, _) =>
    case Directory =>
      if !Exists(e, p) {
        assert p !in e;
      }
    case RegularFile(data) =>
      assert LinkEnd(e, p, MaxSymlinkHops) == Some(p);
  }

  /**
   * A main pass over distinct names whose destinations are ready, each to be
   * copied into a directory that exists or that an earlier name makes,
   * completes; afterwards every destination lies in a directory and every
   * link's destination is still free.
   */
  lemma {:induction false} MainPassCompletes(c: Copy, src: string, dst: string, es: seq<Entry>, noSymLinks: bool,
                                             names: seq<string>)
    requires NoDuplicates(names)
    requires forall n :: n in names ==>
               EntryAt(es, Segments(n)).Some? && DestReady(c.fs.entries, dst, es, noSymLinks, n) &&
               Join(dst, n) !in c.created
    requires forall i :: 0 <= i < |names| ==> ParentReady(c.fs.entries, dst, es, names, i)
    ensures var r := MainPass(c, src, dst, es, noSymLinks, names);
            && r.status.Ok?
            && forall n :: n in names ==>
                 ParentIsDir(r.c.fs.entries, Join(dst, n)) &&
                 (!noSymLinks && LinkAt(es, n) ==> Join(dst, n) !in r.c.fs.entries)
    decreases |names|
  {
    if names != [] {
      var n0, rest := names[0], names[1..];
      var p0 := Join(dst, n0);
      var e := c.fs.entries;
      assert ParentReady(e, dst, es, names, 0);
      MainStepOk(c, src, dst, es, noSymLinks, n0);
      var r := MainStep(c, src, dst, es, noSymLinks, n0);
      MainStepPlaces(c, src, dst, es, noSymLinks, n0);
      assert forall i :: 0 <= i < |rest| ==> rest[i] == names[i + 1];
      forall m | m in rest
        ensures EntryAt(es, Segments(m)).Some? && DestReady(r.c.fs.entries, dst, es, noSymLinks, m) &&
                Join(dst, m) !in r.c.created
      {
        if Join(dst, m) == p0 {
          JoinInjective(dst, m, n0);
        }
        assert SameAt(e, r.c.fs.entries, Join(dst, m));
      }
      forall i | 0 <= i < |rest| ensures ParentReady(r.c.fs.entries, dst, es, rest, i) {
        assert ParentReady(e, dst, es, names, i + 1);
        if !ParentIsDir(e, Join(dst, names[i + 1])) {
          var j :| 0 <= j < i + 1 && DirectoryAt(es, names[j]) && Join(dst, names[j]) == Dirname(Join(dst, names[i + 1]));
          if j > 0 {
            assert rest[j - 1] == names[j];
          }
        }
      }
      MainPassCompletes(r.c, src, dst, es, noSymLinks, rest);
      MainPassPlaces(r.c, src, dst, es, noSymLinks, rest);
      var fin := MainPass(c, src, dst, es, noSymLinks, names).c.fs.entries;
      assert Outside(dst, rest, p0) by {
        forall m | m in rest ensures p0 != Join(dst, m) {
          if p0 == Join(dst, m) {
            JoinInjective(dst, m, n0);
          }
        }
      }
      if !noSymLinks && LinkAt(es, n0) {
        assert r.c.fs == c.fs;
        assert SameAt(r.c.fs.entries, fin, p0);
      }
      assert ParentIsDir(r.c.fs.entries, p0);
    }
  }

  /** The links the main pass defers: one per link entry among the names, in their order. */
  function Deferred(src: string, dst: string, es: seq<Entry>, names: seq<string>): (r: seq<Pending>)
    ensures forall l :: l in r ==>
              l.name in names && LinkAt(es, l.name) && l == Pending(l.name, Join(src, l.name), Join(dst, l.name))
    ensures forall n :: n in names && LinkAt(es, n) ==> Pending(n, Join(src, n), Join(dst, n)) in r
  {
    if names == [] then []
    else
      (if LinkAt(es, names[0]) then [Pending(names[0], Join(src, names[0]), Join(dst, names[0]))] else [])
      + Deferred(src, dst, es, names[1..])
  }

  /** A main pass that completes while links are wanted has deferred exactly the links of `Deferred`. */
  lemma {:induction false} MainPassDefers(c: Copy, src: string, dst: string, es: seq<Entry>, noSymLinks: bool,
                                          names: seq<string>)
    requires MainPass(c, src, dst, es, noSymLinks, names).status.Ok? && !noSymLinks
    ensures MainPass(c, src, dst, es, noSymLinks, names).c.pending == c.pending + Deferred(src, dst, es, names)
    decreases |names|
  {
    if names != [] {
      var r := MainStep(c, src, dst, es, noSymLinks, names[0]);
      assert r.status.Ok?;
      assert MainPass(c, src, dst, es, noSymLinks, names) == MainPass(r.c, src, dst, es, noSymLinks, names[1..]);
      MainPassDefers(r.c, src, dst, es, noSymLinks, names[1..]);
      var d := Deferred(src, dst, es, names[1..]);
      if LinkAt(es, names[0]) {
        var l0 := Pending(names[0], Join(src, names[0]), Join(dst, names[0]));
        assert r.c.pending == c.pending + [l0];
        assert Deferred(src, dst, es, names) == [l0] + d;
        assert c.pending + [l0] + d == c.pending + ([l0] + d);
      } else {
        assert r.c.pending == c.pending;
        assert Deferred(src, dst, es, names) == [] + d == d;
      }
    }
  }

  /**
   * The link pass over the deferred links of distinct names completes when
   * the saved directory can be entered and each link's destination is free
   * inside a directory.
   */
  lemma {:induction false} LinkPassCompletes(s: FsState, pwd: string, src: string, dst: string, es: seq<Entry>,
                                             names: seq<string>)
    requires CanChdir(s.entries, pwd) && NoDuplicates(names)
    requires forall n :: n in names && LinkAt(es, n) ==>
               Join(dst, n) !in s.entries && ParentIsDir(s.entries, Join(dst, n))
    ensures LinkPass(s, pwd, es, Deferred(src, dst, es, names)).status.Ok?
    decreases |names|
  {
    if names != [] {
      var n0, rest := names[0], names[1..];
      assert forall i :: 0 <= i < |rest| ==> rest[i] == names[i + 1];
      var d := Deferred(src, dst, es, rest);
      if LinkAt(es, n0) {
        var l0 := Pending(n0, Join(src, n0), Join(dst, n0));
        assert Deferred(src, dst, es, names) == [l0] + d;
        assert ([l0] + d)[1..] == d;
        var target := SourceReadlink(es, n0).value;
        assert Follow(s.entries, Dirname(l0.dst), MaxSymlinkHops) == Some(Dirname(l0.dst));
        var r := LinkStep(s, pwd, es, l0);
        assert r.status.Ok?;
        SymlinkGrows(s.entries, target, l0.dst);
        assert r.fs.entries == Symlink(s.entries, target, l0.dst).entries;
        FollowGrows(s.entries, r.fs.entries, pwd, MaxSymlinkHops);
        forall n | n in rest && LinkAt(es, n)
          ensures Join(dst, n) !in r.fs.entries && ParentIsDir(r.fs.entries, Join(dst, n))
        {
          if Join(dst, n) == l0.dst {
            JoinInjective(dst, n, n0);
          }
        }
        LinkPassCompletes(r.fs, pwd, src, dst, es, rest);
      } else {
        assert Deferred(src, dst, es, names) == [] + d == d;
        LinkPassCompletes(s, pwd, src, dst, es, rest);
      }
    }
  }

  /** No name comes after one of its descendants. */
  predicate AncestorsFirst(names: seq<string>) {
    forall i, j :: 0 <= i < j < |names| ==> !IsAncestor(names[j], names[i])
  }

  /** `fileNames.filter` keeps the walk's order. */
  lemma {:induction false} FilterNamesOrder(names: seq<string>, rules: seq<string>)
    requires AncestorsFirst(names)
    ensures AncestorsFirst(FilterNames(names, rules))
    decreases |names|
  {
    if names != [] {
      var rest := names[1..];
      assert forall i :: 0 <= i < |rest| ==> rest[i] == names[i + 1];
      FilterNamesOrder(rest, rules);
      var r := FilterNames(names, rules);
      var fr := FilterNames(rest, rules);
      if PassesAll(rules, names[0]) {
        assert r == [names[0]] + fr;
        forall i, j | 0 <= i < j < |r| ensures !IsAncestor(r[j], r[i]) {
          if i == 0 {
            assert r[j] == fr[j - 1] && fr[j - 1] in rest;
            var k :| 0 <= k < |rest| && rest[k] == r[j];
            assert !IsAncestor(names[k + 1], names[0]);
          } else {
            assert r[i] == fr[i - 1] && r[j] == fr[j - 1];
          }
        }
      } else {
        assert r == [] + fr;
      }
    }
  }

  /** The selection is the joined walk, filtered by the rules that contain a '/'. */
  lemma SelectionIsFiltered(src: string, source: Option<Entry>, exclude: seq<string>)
    requires Selection(src, source, exclude).Success?
    ensures Selection(src, source, exclude).value ==
            FilterNames(Rels(Walk([], source.value.children, WalkFilter(Some(exclude)))), SlashRules(exclude))
    ensures AncestorsFirst(Rels(Walk([], source.value.children, WalkFilter(Some(exclude))))) <==>
            AncestorsFirst(ReadDirTreeSync(src, source, WalkFilter(Some(exclude))).value)
  {
  }

  /**
   * A walked relative path is the join of the plain names of a path the walk
   * reaches, so its source entry exists.
   */
  lemma WalkedReached(es: seq<Entry>, f: Filter, n: string)
    requires WellFormed(es) && n in Rels(Walk([], es, f))
    ensures var segs := Segments(n);
            && segs != [] && JoinSegments(segs) == n && segs in Walk([], es, f)
            && (forall i :: 0 <= i < |segs| ==> PlainName(segs[i]))
            && EntryAt(es, segs).Some?
  {
    var w := Walk([], es, f);
    var k :| 0 <= k < |w| && Rels(w)[k] == n;
    var segs := w[k];
    WalkElementsPlain(es, f, segs);
    WalkIff([], es, f, segs);
    assert segs[0..] == segs;
    EntryAtReached([], es, segs, f);
    ReachPlain([], es, segs, f);
  }

  /** The parent of a walked path below another directory is walked too, and is a directory to `stat`. */
  lemma WalkedParent(es: seq<Entry>, f: Filter, n: string)
    requires WellFormed(es) && n in Rels(Walk([], es, f)) && |Segments(n)| > 1
    ensures var segs := Segments(n);
            var m := JoinSegments(segs[..|segs| - 1]);
            && m in Rels(Walk([], es, f))
            && Segments(m) == segs[..|segs| - 1]
            && n == m + ("/" + segs[|segs| - 1]) && '/' !in segs[|segs| - 1]
            && EntryAt(es, Segments(m)).Some? && StatIsDirectory(EntryAt(es, Segments(m)).value.kind)
  {
    WalkedReached(es, f, n);
    var segs := Segments(n);
    ParentJoin(segs);
    ParentSegments(segs);
    assert PlainName(segs[|segs| - 1]);
    WalkParent(es, f, segs);
    RelsMember(Walk([], es, f), segs[..|segs| - 1]);
  }

  /** A path of several names is its parent's path, a separator and its last name. */
  lemma ParentJoin(segs: seq<string>)
    requires |segs| > 1
    ensures JoinSegments(segs) == JoinSegments(segs[..|segs| - 1]) + ("/" + segs[|segs| - 1])
  {
    var up, last := segs[..|segs| - 1], segs[|segs| - 1];
    assert segs == up + [last];
    JoinSegmentsSnoc(up, last);
  }

  /** Splitting the parent's path of plain names gives the parent's names back. */
  lemma ParentSegments(segs: seq<string>)
    requires |segs| > 1 && forall i :: 0 <= i < |segs| ==> PlainName(segs[i])
    ensures Segments(JoinSegments(segs[..|segs| - 1])) == segs[..|segs| - 1]
  {
    var up := segs[..|segs| - 1];
    assert forall i :: 0 <= i < |up| ==> up[i] == segs[i];
    SegmentsOfJoin(up);
  }

  /** The join of every name path of `w` is in `Rels(w)`. */
  lemma RelsMember(w: seq<seq<string>>, ns: seq<string>)
    requires ns in w
    ensures JoinSegments(ns) in Rels(w)
  {
    var k :| 0 <= k < |w| && w[k] == ns;
    assert Rels(w)[k] == JoinSegments(ns);
  }

  /** The parent of a name the rules pass is passed too: its path is a prefix. */
  lemma ParentPasses(n: string, m: string, last: string, rules: seq<string>)
    requires n == m + ("/" + last) && PassesAll(rules, n)
    ensures PassesAll(rules, m)
  {
    forall x | x in rules ensures !Contains(m, x) {
      if Contains(m, x) {
        ContainsExtend(m, "/" + last, x);
      }
    }
  }

  /** The destination of a name below `m` lies in the destination of `m`. */
  lemma DirnameOfChild(dst: string, n: string, m: string, last: string)
    requires dst != "" && n == m + ("/" + last) && '/' !in last
    ensures Dirname(Join(dst, n)) == Join(dst, m)
  {
    assert Join(dst, n) == Join(Join(dst, m), last);
    DirnameJoin(Join(dst, m), last);
  }

  /** In names listed ancestors first, an ancestor of a name comes before it. */
  lemma AncestorBefore(names: seq<string>, i: nat, j: nat)
    requires AncestorsFirst(names) && i < |names| && j < |names| && IsAncestor(names[j], names[i])
    ensures j < i
  {
  }

  /**
   * Over a well-formed source where no selected link has a selected name
   * below it, each selected name is copied into `dst` itself or into the
   * destination of an earlier selected name whose source is a directory.
   */
  lemma FilteredParents(es: seq<Entry>, f: Filter, rules: seq<string>, dst: string, i: nat)
    requires WellFormed(es) && dst != ""
    requires AncestorsFirst(Rels(Walk([], es, f)))
    requires NoLinkAbove(es, FilterNames(Rels(Walk([], es, f)), rules))
    requires i < |FilterNames(Rels(Walk([], es, f)), rules)|
    ensures var names := FilterNames(Rels(Walk([], es, f)), rules);
            && EntryAt(es, Segments(names[i])).Some?
            && (|| Dirname(Join(dst, names[i])) == dst
                || exists j :: 0 <= j < i && DirectoryAt(es, names[j]) &&
                                Join(dst, names[j]) == Dirname(Join(dst, names[i])))
  {
    var walked := Rels(Walk([], es, f));
    var names := FilterNames(walked, rules);
    var n := names[i];
    assert n in names;
    WalkedReached(es, f, n);
    var segs := Segments(n);
    if |segs| == 1 {
      assert n == segs[0];
      DirnameJoin(dst, n);
    } else {
      FilteredParent(es, f, rules, dst, i);
    }
  }

  /** The case of `FilteredParents` for a name below another directory. */
  lemma FilteredParent(es: seq<Entry>, f: Filter, rules: seq<string>, dst: string, i: nat)
    requires WellFormed(es) && dst != ""
    requires AncestorsFirst(Rels(Walk([], es, f)))
    requires NoLinkAbove(es, FilterNames(Rels(Walk([], es, f)), rules))
    requires i < |FilterNames(Rels(Walk([], es, f)), rules)|
    requires |Segments(FilterNames(Rels(Walk([], es, f)), rules)[i])| > 1
    ensures var names := FilterNames(Rels(Walk([], es, f)), rules);
            exists j :: 0 <= j < i && DirectoryAt(es, names[j]) && Join(dst, names[j]) == Dirname(Join(dst, names[i]))
  {
    var walked := Rels(Walk([], es, f));
    var names := FilterNames(walked, rules);
    var n := names[i];
    assert n in names;
    var segs := Segments(n);
    WalkedParent(es, f, n);
    var m := JoinSegments(segs[..|segs| - 1]);
    var last := segs[|segs| - 1];
    ParentPasses(n, m, last, rules);
    assert m in names;
    DirnameOfChild(dst, n, m, last);
    var j :| 0 <= j < |names| && names[j] == m;
    assert IsAncestor(m, n);
    assert !LinkAt(es, m);
    FilterNamesOrder(walked, rules);
    AncestorBefore(names, i, j);
  }

  /**
   * Both passes and the return to the saved directory complete over distinct
   * names whose destinations are ready, each copied into a directory that
   * exists or that an earlier name makes, when the working directory can be
   * entered.
   */
  lemma PassesComplete(s: FsState, src: string, dst: string, es: seq<Entry>, noSymLinks: bool, names: seq<string>)
    requires NoDuplicates(names) && CanChdir(s.entries, s.cwd)
    requires forall n :: n in names ==> EntryAt(es, Segments(n)).Some? && DestReady(s.entries, dst, es, noSymLinks, n)
    requires forall i :: 0 <= i < |names| ==> ParentReady(s.entries, dst, es, names, i)
    ensures var m := MainPass(Copy(s, {}, []), src, dst, es, noSymLinks, names);
            var l := LinkPass(m.c.fs, m.c.fs.cwd, es, m.c.pending);
            m.status.Ok? && l.status.Ok? && ChdirStatus(l.fs.entries, m.c.fs.cwd).Ok?
  {
    var c0 := Copy(s, {}, []);
    MainPassCompletes(c0, src, dst, es, noSymLinks, names);
    var m := MainPass(c0, src, dst, es, noSymLinks, names);
    var pwd := m.c.fs.cwd;
    FollowGrows(s.entries, m.c.fs.entries, pwd, MaxSymlinkHops);
    if !noSymLinks {
      MainPassDefers(c0, src, dst, es, noSymLinks, names);
      var d := Deferred(src, dst, es, names);
      assert m.c.pending == [] + d == d;
      LinkPassCompletes(m.c.fs, pwd, src, dst, es, names);
      assert LinkPass(m.c.fs, pwd, es, m.c.pending) == LinkPass(m.c.fs, pwd, es, d);
    } else {
      assert m.c.pending == [];
    }
    var l := LinkPass(m.c.fs, pwd, es, m.c.pending);
    assert l.status.Ok?;
    assert Grows(m.c.fs.entries, l.fs.entries);
    FollowGrows(m.c.fs.entries, l.fs.entries, pwd, MaxSymlinkHops);
  }

  /**
   * A copy completes when the destination is an existing directory, the
   * working directory can be entered, every selected name's destination is
   * ready for it, and no selected link has a selected name below it.
   */
  lemma CopyTreeCompletes(src: string, dst: string, source: Option<Entry>, exclude: seq<string>,
                          noSymLinks: bool, s: FsState)
    requires Selection(src, source, exclude).Success?
    requires WellFormed(source.value.children)
    requires dst != "" && dst in s.entries && s.entries[dst].Dir? && CanChdir(s.entries, s.cwd)
    requires forall n :: n in Selection(src, source, exclude).value ==>
               DestReady(s.entries, dst, source.value.children, noSymLinks, n)
    requires NoLinkAbove(source.value.children, Selection(src, source, exclude).value)
    ensures CopyTreeResult(src, dst, source, Some(exclude), noSymLinks, s).status.Copied?
    ensures var e := CopyTreeResult(src, dst, source, Some(exclude), noSymLinks, s).fs.entries;
            forall n :: n in Selection(src, source, exclude).value ==>
              CopiedTo(e, dst, source.value.children, noSymLinks, n)
  {
    var es := source.value.children;
    var f := WalkFilter(Some(exclude));
    var names := Selection(src, source, exclude).value;
    SelectionIsFiltered(src, source, exclude);
    ReadDirTreeSyncOrder(src, source, f);
    forall i | 0 <= i < |names|
      ensures EntryAt(es, Segments(names[i])).Some? && ParentReady(s.entries, dst, es, names, i)
    {
      FilteredParents(es, f, SlashRules(exclude), dst, i);
    }
    PassesComplete(s, src, dst, es, noSymLinks, names);
    CopyTreeShape(src, dst, source, exclude, noSymLinks, s);
    CopyTreeCopies(src, dst, source, exclude, noSymLinks, s);
  }

  /**
   * Where a selected link to a source directory has a selected entry below
   * it, the copy throws: the walk lists `l/x` through the link, the link
   * itself is deferred or dropped, so writing `dst/l/x` finds no directory
   * `dst/l` and fails with ENOENT, with or without `noSymLinks`.
   */
  lemma LinkToDirectoryThrows(noSymLinks: bool)
    ensures var x := Entry("x", RegularFile([]), []);
            var l := Entry("l", SymbolicLink("/t", ToDirectory), [x]);
            var s := FsState(map["/d" := Dir], "/d", Logs([], [], []));
            CopyTreeResult("/s", "/d", Some(Entry("s", Directory, [l])), Some([]), noSymLinks, s).status ==
              Threw(FsError(ENOENT))
  {
    var lx := Join("l", "x");
    LinkToDirectoryWalk();
    assert NoSlashRules([]) == [] && SlashRules([]) == [];
    assert FilterNames(["l", lx], []) == ["l", lx] by {
      assert ["l", lx][1..] == [lx] && [lx][1..] == [];
      assert FilterNames([lx], []) == [lx];
    }
    LinkToDirectoryMainPass(noSymLinks);
  }

  /** The walk of the example of `LinkToDirectoryThrows` goes through the link. */
  lemma LinkToDirectoryWalk()
    ensures var x := Entry("x", RegularFile([]), []);
            var l := Entry("l", SymbolicLink("/t", ToDirectory), [x]);
            ReadDirTreeSync("/s", Some(Entry("s", Directory, [l])), WalkFilter(Some([]))) == Success(["l", Join("l", "x")])
  {
    var x := Entry("x", RegularFile([]), []);
    var l := Entry("l", SymbolicLink("/t", ToDirectory), [x]);
    var f := WalkFilter(Some([]));
    assert NoSlashRules([]) == [];
    forall ns ensures Accepts(f, ns) {
    }
    assert [x][1..] == [] && [l][1..] == [];
    assert !Throws("/s", [l], f, 3) by {
      assert !Throws(Join("/s", "l"), [x], f, 3);
    }
    assert Walk(["l"], [x], f) == [["l", "x"]] by {
      assert ["l"] + [x.name] == ["l", "x"];
      assert ListedNames(["l"], [x], f) == [["l", "x"]] + ListedNames(["l"], [], f);
      assert DescendNames(["l"], [x], f) == [];
    }
    assert Walk([], [l], f) == [["l"], ["l", "x"]] by {
      assert [] + [l.name] == ["l"];
      assert ListedNames([], [l], f) == [["l"]] + ListedNames([], [], f);
      assert DescendNames([], [l], f) == Walk(["l"], [x], f) + DescendNames([], [], f);
    }
    assert Rels([["l"], ["l", "x"]]) == ["l", Join("l", "x")];
  }

  /** The main pass of the example of `LinkToDirectoryThrows` fails at `l/x`. */
  lemma LinkToDirectoryMainPass(noSymLinks: bool)
    ensures var x := Entry("x", RegularFile([]), []);
            var l := Entry("l", SymbolicLink("/t", ToDirectory), [x]);
            var s := FsState(map["/d" := Dir], "/d", Logs([], [], []));
            MainPass(Copy(s, {}, []), "/s", "/d", [l], noSymLinks, ["l", Join("l", "x")]).status == Err(ENOENT)
  {
    var x := Entry("x", RegularFile([]), []);
    var l := Entry("l", SymbolicLink("/t", ToDirectory), [x]);
    var s := FsState(map["/d" := Dir], "/d", Logs([], [], []));
    var lx := Join("l", "x");
    SegmentsOfJoin(["l"]);
    SegmentsOfJoin(["l", "x"]);
    assert Segments("l") == ["l"] && Segments(lx) == ["l", "x"];
    assert EntryAt([l], ["l"]) == Some(l);
    assert EntryAt([l], ["l", "x"]) == Some(x);
    var c0 := Copy(s, {}, []);
    var c1 := MainStep(c0, "/s", "/d", [l], noSymLinks, "l").c;
    assert c1.fs == s;
    var p, q := Join("/d", lx), Join("/d", "l");
    DirnameOfChild("/d", lx, "l", "x");
    assert |p| == 6 && |q| == 4;
    assert p !in s.entries && q !in s.entries;
    assert WriteFile(s.entries, p, []).status == Err(ENOENT);
    assert MainStep(c1, "/s", "/d", [l], noSymLinks, lx).status == Err(ENOENT);
    assert ["l", lx][1..] == [lx];
  }
}
