/**
 * lib/trackedfs.js: a filesystem facade that records every path it creates
 * in one of three logs (folders, files, links) so that `cleanup` can delete
 * exactly those paths, links first, then files, then folders, each log
 * newest first.
 */
module Tracked {
  import opened Wrappers
  import opened Paths
  import opened FileSystem
  import opened Utils
  import opened Seqs

  /**
   * `list.forEach(deleteNoFail)`: the paths are deleted in order and the
   * first delete that throws ends the loop, leaving the earlier deletions done.
   */
  function DeleteEach(e: Entries, paths: seq<string>): (r: Step)
    ensures r.status.Err? ==> r.status.code == ENOTEMPTY
    decreases |paths|
  {
    if paths == [] then Step(Ok, e)
    else
      var r := DeleteNoFailStep(e, paths[0]);
      if r.status.Err? then r else DeleteEach(r.entries, paths[1..])
  }

  /** Deleting `a + b` is deleting `a` and then, unless that threw, deleting `b`. */
  lemma {:induction false} DeleteEachConcat(e: Entries, a: seq<string>, b: seq<string>)
    ensures DeleteEach(e, a + b) ==
            (var r := DeleteEach(e, a); if r.status.Err? then r else DeleteEach(r.entries, b))
    decreases |a|
  {
    if a == [] {
      assert a + b == b;
    } else {
      assert (a + b)[0] == a[0];
      assert (a + b)[1..] == a[1..] + b;
      var r := DeleteNoFailStep(e, a[0]);
      if r.status.Ok? {
        DeleteEachConcat(r.entries, a[1..], b);
      }
    }
  }

  /** The three logs of a TrackedFS. */
  datatype Logs = Logs(links: seq<string>, files: seq<string>, folders: seq<string>)

  datatype CleanupOutcome = CleanupOutcome(status: Status, entries: Entries, logs: Logs)

  /**
   * The order in which `cleanup` attempts deletions: links newest first,
   * then files newest first, then folders newest first.
   */
  function CleanupOrder(logs: Logs): (r: seq<string>)
    ensures |r| == |logs.links| + |logs.files| + |logs.folders|
    ensures forall i :: 0 <= i < |logs.links| ==> r[i] == logs.links[|logs.links| - 1 - i]
    ensures forall i :: |logs.links| <= i < |logs.links| + |logs.files| ==>
              r[i] == logs.files[|logs.links| + |logs.files| - 1 - i]
    ensures forall i :: |logs.links| + |logs.files| <= i < |r| ==> r[i] == logs.folders[|r| - 1 - i]
  {
    Reversed(logs.links) + Reversed(logs.files) + Reversed(logs.folders)
  }

  /**
   * `cleanup()`: `deleteList` on links, files and folders, then all three
   * logs emptied. `deleteList` reverses its log in place before deleting, so a
   * throw leaves the logs it reached reversed and the remaining ones as they
   * were. The deletions are those of one pass over `CleanupOrder(logs)`.
   */
  function CleanupResult(e: Entries, logs: Logs): (r: CleanupOutcome)
    ensures Step(r.status, r.entries) == DeleteEach(e, CleanupOrder(logs))
    ensures r.status.Ok? ==> r.logs == Logs([], [], [])
    ensures var d1 := DeleteEach(e, Reversed(logs.links));
            d1.status.Err? ==> r.logs == logs.(links := Reversed(logs.links))
    ensures var d1 := DeleteEach(e, Reversed(logs.links));
            var d2 := DeleteEach(d1.entries, Reversed(logs.files));
            d1.status.Ok? && d2.status.Err? ==>
              r.logs == logs.(links := Reversed(logs.links), files := Reversed(logs.files))
    ensures var d1 := DeleteEach(e, Reversed(logs.links));
            var d2 := DeleteEach(d1.entries, Reversed(logs.files));
            d1.status.Ok? && d2.status.Ok? && r.status.Err? ==>
              r.logs == Logs(Reversed(logs.links), Reversed(logs.files), Reversed(logs.folders))
  {
    var links := Reversed(logs.links);
    var files := Reversed(logs.files);
    var folders := Reversed(logs.folders);
    DeleteEachConcat(e, links + files, folders);
    DeleteEachConcat(e, links, files);
    var r1 := DeleteEach(e, links);
    if r1.status.Err? then CleanupOutcome(r1.status, r1.entries, logs.(links := links))
    else
      var r2 := DeleteEach(r1.entries, files);
      if r2.status.Err? then CleanupOutcome(r2.status, r2.entries, logs.(links := links, files := files))
      else
        var r3 := DeleteEach(r2.entries, folders);
        if r3.status.Err? then CleanupOutcome(r3.status, r3.entries, Logs(links, files, folders))
        else CleanupOutcome(Ok, r3.entries, Logs([], [], []))
  }

  /** After a cleanup that completes, cleaning up again deletes nothing. */
  lemma CleanupTwice(e: Entries, logs: Logs)
    requires CleanupResult(e, logs).status.Ok?
    ensures var r := CleanupResult(e, logs);
            CleanupResult(r.entries, r.logs) == CleanupOutcome(Ok, r.entries, Logs([], [], []))
  {
  }

  /**
   * Logged files and links can be unlinked: none is a directory, and a link
   * names, in one hop, a file or directory that is not itself logged as a
   * file or link (so `existsSync` still finds it while links and files are
   * being deleted).
   */
  ghost predicate UnlinkableAll(e: Entries, logged: set<string>) {
    forall p :: p in logged && p in e ==>
      !e[p].Dir? &&
      (e[p].Link? ==>
         var t := Resolve(p, e[p].target);
         t in e && !e[t].Link? && t !in logged)
  }

  /**
   * A folder log in creation order: each folder once, present ones are
   * directories, and a folder is logged after its parent folder. A log that
   * `mkdirSync` calls build need not be one: the path is logged even when
   * `mkdir` fails, so a repeated call or one over an existing file breaks it.
   */
  ghost predicate FoldersInCreationOrder(e: Entries, folders: seq<string>) {
    && NoDuplicates(folders)
    && (forall i :: 0 <= i < |folders| && folders[i] in e ==> e[folders[i]].Dir?)
    && (forall i, j ::
          (0 <= i < |folders| && 0 <= j < |folders| && folders[i] in e && Dirname(folders[i]) == folders[j])
          ==> j < i)
  }

  /** Nothing that was not logged sits directly inside a logged folder. */
  ghost predicate NothingForeignInside(e: Entries, logged: set<string>, folders: set<string>) {
    forall k :: k in e && Dirname(k) in folders ==> k in logged || k in folders
  }

  lemma {:induction false} UnlinkPass(e: Entries, paths: seq<string>, logged: set<string>)
    requires "" !in e
    requires Elements(paths) <= logged
    requires UnlinkableAll(e, logged)
    ensures DeleteEach(e, paths) == Step(Ok, e - Elements(paths))
    decreases |paths|
  {
    if paths == [] {
      assert e - Elements(paths) == e;
    } else {
      var p := paths[0];
      var rest := paths[1..];
      assert Elements(paths) == {p} + Elements(rest);
      if p in e {
        if e[p].Link? {
          var t := Resolve(p, e[p].target);
          assert Follow(e, t, MaxSymlinkHops - 1) == Some(t);
        }
        assert Exists(e, p);
      }
      var e' := DeleteNoFailStep(e, p).entries;
      if p !in e {
        assert e - {p} == e;
      }
      assert e' == e - {p};
      assert UnlinkableAll(e', logged);
      UnlinkPass(e', rest, logged);
      assert e' - Elements(rest) == e - Elements(paths);
    }
  }

  lemma {:induction false} RmdirPass(e: Entries, folders: seq<string>)
    requires "" !in e
    requires NoDuplicates(folders)
    requires forall i :: 0 <= i < |folders| && folders[i] in e ==> e[folders[i]].Dir?
    requires forall i, j ::
               (0 <= i < |folders| && 0 <= j < |folders| && folders[i] in e && Dirname(folders[i]) == folders[j])
               ==> i < j
    requires forall k :: k in e && Dirname(k) in Elements(folders) ==> k in Elements(folders)
    ensures DeleteEach(e, folders) == Step(Ok, e - Elements(folders))
    decreases |folders|
  {
    if folders == [] {
      assert e - Elements(folders) == e;
    } else {
      var f := folders[0];
      var rest := folders[1..];
      assert Elements(folders) == {f} + Elements(rest);
      var e' := DeleteNoFailStep(e, f).entries;
      if f !in e {
        assert e - {f} == e;
      }
      assert e' == e - {f};
      forall k | k in e' && Dirname(k) in Elements(rest)
        ensures k in Elements(rest)
      {
        assert k in Elements(folders) && k != f;
      }
      forall i, j | 0 <= i < |rest| && 0 <= j < |rest| && rest[i] in e' && Dirname(rest[i]) == rest[j]
        ensures i < j
      {
        assert folders[i + 1] == rest[i] && folders[j + 1] == rest[j];
      }
      RmdirPass(e', rest);
      assert e' - Elements(rest) == e - Elements(folders);
    }
  }

  /** The folder conditions, carried over to the reversed log the folder pass deletes. */
  lemma ReversedFolders(e: Entries, folders: seq<string>)
    requires FoldersInCreationOrder(e, folders)
    ensures var r := Reversed(folders);
      && NoDuplicates(r)
      && (forall i :: 0 <= i < |r| && r[i] in e ==> e[r[i]].Dir?)
      && (forall i, j ::
            (0 <= i < |r| && 0 <= j < |r| && r[i] in e && Dirname(r[i]) == r[j]) ==> i < j)
  {
    var r := Reversed(folders);
    var n := |folders|;
    forall i, j | 0 <= i < n && 0 <= j < n && r[i] in e && Dirname(r[i]) == r[j]
      ensures i < j
    {
      assert r[i] == folders[n - 1 - i] && r[j] == folders[n - 1 - j];
    }
    forall i, j | 0 <= i < j < n
      ensures r[i] != r[j]
    {
      assert r[i] == folders[n - 1 - i] && r[j] == folders[n - 1 - j];
    }
  }

  /** A cleanup whose three passes each complete ends with the logs emptied. */
  lemma CleanupStages(e: Entries, logs: Logs, e1: Entries, e2: Entries, e3: Entries)
    requires DeleteEach(e, Reversed(logs.links)) == Step(Ok, e1)
    requires DeleteEach(e1, Reversed(logs.files)) == Step(Ok, e2)
    requires DeleteEach(e2, Reversed(logs.folders)) == Step(Ok, e3)
    ensures CleanupResult(e, logs) == CleanupOutcome(Ok, e3, Logs([], [], []))
  {
  }

  /**
   * Reverse-order deletion is a valid deletion order: when the logged files
   * and links are unlinkable, the folder log is in creation order, and
   * nothing foreign was put inside a logged folder, `cleanup` completes and
   * removes exactly the logged paths.
   */
  lemma CleanupRemovesLogged(e: Entries, logs: Logs)
    requires "" !in e
    requires UnlinkableAll(e, Elements(logs.links) + Elements(logs.files))
    requires FoldersInCreationOrder(e, logs.folders)
    requires NothingForeignInside(e, Elements(logs.links) + Elements(logs.files), Elements(logs.folders))
    ensures CleanupResult(e, logs) ==
            CleanupOutcome(Ok, e - (Elements(logs.links) + Elements(logs.files) + Elements(logs.folders)),
                           Logs([], [], []))
  {
    var logged := Elements(logs.links) + Elements(logs.files);
    var e2 := e - logged;
    UnlinkPasses(e, logs);
    assert DeleteEach(e2, Reversed(logs.folders)) == Step(Ok, e2 - Elements(logs.folders)) by {
      FoldersAfterRemoval(e, logs, e2);
      ReversedFolders(e, logs.folders);
      RmdirPass(e2, Reversed(logs.folders));
      ReversedElements(logs.folders);
    }
    RemoveBoth(e, logged, Elements(logs.folders));
    CleanupStages(e, logs, e - Elements(logs.links), e2, e2 - Elements(logs.folders));
  }

  /** The link pass and then the file pass remove the logged links and files. */
  lemma UnlinkPasses(e: Entries, logs: Logs)
    requires "" !in e
    requires UnlinkableAll(e, Elements(logs.links) + Elements(logs.files))
    ensures var e1 := e - Elements(logs.links);
            && DeleteEach(e, Reversed(logs.links)) == Step(Ok, e1)
            && DeleteEach(e1, Reversed(logs.files)) == Step(Ok, e - (Elements(logs.links) + Elements(logs.files)))
  {
    var links, files := Elements(logs.links), Elements(logs.files);
    var logged := links + files;
    assert DeleteEach(e, Reversed(logs.links)) == Step(Ok, e - links) by {
      ReversedElements(logs.links);
      UnlinkPass(e, Reversed(logs.links), logged);
    }
    var e1 := e - links;
    assert DeleteEach(e1, Reversed(logs.files)) == Step(Ok, e1 - files) by {
      ReversedElements(logs.files);
      UnlinkableAfterRemoval(e, logged, links);
      UnlinkPass(e1, Reversed(logs.files), logged);
    }
    RemoveBoth(e, links, files);
  }

  lemma RemoveBoth(e: Entries, a: set<string>, b: set<string>)
    ensures e - a - b == e - (a + b)
  {
  }

  lemma UnlinkableAfterRemoval(e: Entries, logged: set<string>, gone: set<string>)
    requires UnlinkableAll(e, logged)
    requires gone <= logged
    ensures UnlinkableAll(e - gone, logged)
  {
  }

  lemma FoldersAfterRemoval(e: Entries, logs: Logs, e2: Entries)
    requires FoldersInCreationOrder(e, logs.folders)
    requires NothingForeignInside(e, Elements(logs.links) + Elements(logs.files), Elements(logs.folders))
    requires e2 == e - (Elements(logs.links) + Elements(logs.files))
    ensures var r := Reversed(logs.folders);
      && (forall i :: 0 <= i < |r| && r[i] in e2 ==> e2[r[i]].Dir?)
      && (forall i, j ::
            (0 <= i < |r| && 0 <= j < |r| && r[i] in e2 && Dirname(r[i]) == r[j]) ==> i < j)
      && (forall k :: k in e2 && Dirname(k) in Elements(r) ==> k in Elements(r))
  {
    ReversedFolders(e, logs.folders);
    ReversedElements(logs.folders);
  }

  /** What a TrackedFS and the disk under it hold: the filesystem, the working directory and the logs. */
  datatype FsState = FsState(entries: Entries, cwd: string, logs: Logs)

  class TrackedFS {
    /** The real filesystem every call is passed on to. */
    const disk: Disk
    var files: seq<string>
    var folders: seq<string>
    var links: seq<string>

    constructor (disk: Disk)
      ensures this.disk == disk
      ensures files == [] && folders == [] && links == []
    {
      this.disk := disk;
      files, folders, links := [], [], [];
    }

    function Logged(): Logs
      reads this
    {
      Logs(links, files, folders)
    }

    function Snapshot(): FsState
      reads this, disk
    {
      FsState(disk.entries, disk.cwd, Logged())
    }

    method AddFile(file: string)
      modifies this`files
      ensures files == old(files) + [file]
      ensures folders == old(folders) && links == old(links)
    {
      files := files + [file];
    }

    method AddFolder(folder: string)
      modifies this`folders
      ensures folders == old(folders) + [folder]
      ensures files == old(files) && links == old(links)
    {
      folders := folders + [folder];
    }

    method AddLink(link: string)
      modifies this`links
      ensures links == old(links) + [link]
      ensures files == old(files) && folders == old(folders)
    {
      links := links + [link];
    }

    /** Logs `p` as a folder before the call runs, so a failing call is logged too. */
    method MkdirSync(p: string) returns (st: Status)
      modifies this`folders, disk`entries
      ensures folders == old(folders) + [p]
      ensures files == old(files) && links == old(links)
      ensures Step(st, disk.entries) == Mkdir(old(disk.entries), p)
    {
      AddFolder(p);
      st := disk.MkdirSync(p);
    }

    /** Logs the link path (the second argument), not the target. */
    method SymlinkSync(target: string, p: string) returns (st: Status)
      modifies this`links, disk`entries
      ensures links == old(links) + [p]
      ensures files == old(files) && folders == old(folders)
      ensures Step(st, disk.entries) == Symlink(old(disk.entries), target, p)
    {
      AddLink(p);
      st := disk.SymlinkSync(target, p);
    }

    method WriteFileSync(p: string, data: Bytes) returns (st: Status)
      modifies this`files, disk`entries
      ensures files == old(files) + [p]
      ensures folders == old(folders) && links == old(links)
      ensures Step(st, disk.entries) == WriteFile(old(disk.entries), p, data)
    {
      AddFile(p);
      st := disk.WriteFileSync(p, data);
    }

    /** The pass-through calls read the real filesystem and record nothing. */
    method ExistsSync(p: string) returns (b: bool)
      ensures b == Exists(disk.entries, p)
    {
      b := Exists(disk.entries, p);
    }

    method LstatSync(p: string) returns (r: Result<Node, Errno>)
      ensures r.Success? <==> p in disk.entries
      ensures r.Success? ==> r.value == disk.entries[p]
    {
      r := Lstat(disk.entries, p);
    }

    method ReadFileSync(p: string) returns (r: Result<Bytes, Errno>)
      ensures r == ReadFile(disk.entries, p)
    {
      r := ReadFile(disk.entries, p);
    }

    method ReadlinkSync(p: string) returns (r: Result<string, Errno>)
      ensures r.Success? <==> p in disk.entries && disk.entries[p].Link?
      ensures r.Success? ==> r.value == disk.entries[p].target
    {
      r := Readlink(disk.entries, p);
    }

    /** `deleteList(list)`: reverse the list, then `deleteNoFail` each entry in that order. */
    method DeleteList(list: seq<string>) returns (reversed: seq<string>, st: Status)
      modifies disk`entries
      ensures reversed == Reversed(list)
      ensures Step(st, disk.entries) == DeleteEach(old(disk.entries), reversed)
    {
      reversed := Reversed(list);
      var i := 0;
      st := Ok;
      while i < |reversed|
        invariant 0 <= i <= |reversed|
        invariant st.Ok?
        invariant DeleteEach(old(disk.entries), reversed) == DeleteEach(disk.entries, reversed[i..])
      {
        st := DeleteNoFail(disk, reversed[i]);
        if st.Err? {
          return;
        }
        i := i + 1;
      }
    }

    method Cleanup() returns (st: Status)
      modifies this`links, this`files, this`folders, disk`entries
      ensures CleanupOutcome(st, disk.entries, Logged()) == CleanupResult(old(disk.entries), old(Logged()))
    {
      links, st := DeleteList(links);
      if st.Err? {
        return;
      }
      files, st := DeleteList(files);
      if st.Err? {
        return;
      }
      folders, st := DeleteList(folders);
      if st.Err? {
        return;
      }
      links, files, folders := [], [], [];
    }
  }

  /**
   * `mkdirSync` logs its path before `mkdir` runs, so a call that fails on
   * an existing file still logs it, and `cleanup` then unlinks that file,
   * which the build never created.
   */
  lemma CleanupAfterFailedMkdir(e: Entries, f: string)
    requires f != "" && f in e && e[f].File?
    ensures Mkdir(e, f).status == Err(EEXIST)
    ensures var r := CleanupResult(e, Logs([], [], [f]));
            r.status.Ok? && r.entries == e - {f}
  {
    assert Reversed([f]) == [f];
    var d := DeleteNoFailStep(e, f);
    assert d == Step(Ok, e - {f});
    assert DeleteEach(e, [f]) == Step(Ok, e - {f});
  }
}
