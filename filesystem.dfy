/**
 * The abstract filesystem underneath every core file: a map from absolute
 * path to node, with the Node `fs` calls the core uses (`mkdirSync`,
 * `writeFileSync`, `symlinkSync`, `rmdirSync`, `unlinkSync`, `existsSync`,
 * `lstatSync`, `readFileSync`, `readlinkSync`) and `process.chdir`.
 *
 * Each call is a pure function from the old map to a status and a new map;
 * the class `Disk` is the process-wide filesystem object whose state those
 * calls update in place.
 */
module FileSystem {
  import opened Wrappers
  import opened Paths

  type Bytes = seq<bv8>

  /** What `lstat` sees at a path: a regular file, a directory or a symbolic link. */
  datatype Node = File(data: Bytes) | Dir | Link(target: string)

  type Entries = map<string, Node>

  /** The `code` of the `Error` Node throws. */
  datatype Errno = ENOENT | EEXIST | ENOTDIR | EISDIR | ENOTEMPTY | EINVAL

  datatype Status = Ok | Err(code: Errno)

  /** The status of one call and the filesystem after it. */
  datatype Step = Step(status: Status, entries: Entries)

  /** Linux's MAXSYMLINKS: the number of links one lookup follows before giving up. */
  const MaxSymlinkHops: nat := 40

  /** The segments of a path between its separators. */
  function Segments(s: string): seq<string>
    decreases |s|
  {
    var i := IndexOf(s, "/");
    if i < 0 then [s] else [s[..i]] + Segments(s[i + 1..])
  }

  /** Resolves "", "." and ".." segments against the segments already kept. */
  function NormalizeSegments(kept: seq<string>, rest: seq<string>, absolute: bool): seq<string>
    decreases |rest|
  {
    if rest == [] then kept
    else if rest[0] == "" || rest[0] == "." then NormalizeSegments(kept, rest[1..], absolute)
    else if rest[0] == ".." then
      if kept != [] && kept[|kept| - 1] != ".." then NormalizeSegments(kept[..|kept| - 1], rest[1..], absolute)
      else if absolute then NormalizeSegments(kept, rest[1..], absolute)
      else NormalizeSegments(kept + [".."], rest[1..], absolute)
    else NormalizeSegments(kept + [rest[0]], rest[1..], absolute)
  }

  function JoinSegments(segs: seq<string>): string
    decreases |segs|
  {
    if segs == [] then "" else if |segs| == 1 then segs[0] else Join(segs[0], JoinSegments(segs[1..]))
  }

  /** `path.normalize(p)`. */
  function Normalize(p: string): string {
    var absolute := |p| > 0 && p[0] == '/';
    var body := JoinSegments(NormalizeSegments([], Segments(p), absolute));
    if absolute then "/" + body else if body == "" then "." else body
  }

  /** Where the operating system looks for the target of the link at `linkPath`. */
  function Resolve(linkPath: string, target: string): string {
    if |target| > 0 && target[0] == '/' then Normalize(target)
    else Normalize(Join(Dirname(linkPath), target))
  }

  /**
   * Where the chain of links starting at `p` ends: the first path on it that
   * holds no link, which may hold nothing at all (the chain dangles), or None
   * for a chain longer than `hops`.
   */
  function LinkEnd(e: Entries, p: string, hops: nat): (r: Option<string>)
    ensures r.Some? && r.value in e ==> !e[r.value].Link?
    ensures !(p in e && e[p].Link?) ==> r == Some(p)
    ensures r.Some? && r.value != p ==> p in e && e[p].Link?
    decreases hops
  {
    if p in e && e[p].Link? then
      if hops == 0 then None else LinkEnd(e, Resolve(p, e[p].target), hops - 1)
    else Some(p)
  }

  /**
   * Follows the links at the last component of `p`: the path of the file or
   * directory it finally names, or None for a dangling link or a chain longer
   * than `hops`.
   */
  function Follow(e: Entries, p: string, hops: nat): (r: Option<string>)
    ensures r.Some? ==> p in e && r.value in e && !e[r.value].Link?
    ensures p in e && !e[p].Link? ==> r == Some(p)
    ensures r.None? <==> LinkEnd(e, p, hops).None? || LinkEnd(e, p, hops).value !in e
  {
    var q := LinkEnd(e, p, hops);
    if q.Some? && q.value in e then q else None
  }

  /** `fs.existsSync(p)`: follows links, so a dangling link does not exist. */
  predicate Exists(e: Entries, p: string) {
    Follow(e, p, MaxSymlinkHops).Some?
  }

  predicate ParentIsDir(e: Entries, p: string) {
    Dirname(p) in e && e[Dirname(p)].Dir?
  }

  function ParentError(e: Entries, p: string): Errno {
    if Dirname(p) in e then ENOTDIR else ENOENT
  }

  /** Some other entry sits directly inside `p`. */
  predicate HasChild(e: Entries, p: string) {
    exists k :: k in e && k != p && Dirname(k) == p
  }

  /** `fs.mkdirSync(p)`. */
  function Mkdir(e: Entries, p: string): Step {
    if p in e then Step(Err(EEXIST), e)
    else if !ParentIsDir(e, p) then Step(Err(ParentError(e, p)), e)
    else Step(Ok, e[p := Dir])
  }

  /**
   * `fs.writeFileSync(p, data)`: creates or truncates a file. Through a link
   * it writes where the chain of links ends, and creates that file when the
   * chain dangles into an existing directory.
   */
  function WriteFile(e: Entries, p: string, data: Bytes): Step {
    var q := LinkEnd(e, p, MaxSymlinkHops);
    if q.None? then Step(Err(ENOENT), e)
    else if q.value in e && e[q.value].Dir? then Step(Err(EISDIR), e)
    else if q.value !in e && !ParentIsDir(e, q.value) then Step(Err(ParentError(e, q.value)), e)
    else Step(Ok, e[q.value := File(data)])
  }

  /** `fs.symlinkSync(target, p)`: the target text is stored as given. */
  function Symlink(e: Entries, target: string, p: string): Step {
    if p in e then Step(Err(EEXIST), e)
    else if !ParentIsDir(e, p) then Step(Err(ParentError(e, p)), e)
    else Step(Ok, e[p := Link(target)])
  }

  /** `fs.rmdirSync(p)`: only an empty directory, never through a link. */
  function Rmdir(e: Entries, p: string): Step {
    if p !in e then Step(Err(ENOENT), e)
    else if !e[p].Dir? then Step(Err(ENOTDIR), e)
    else if HasChild(e, p) then Step(Err(ENOTEMPTY), e)
    else Step(Ok, e - {p})
  }

  /** `fs.unlinkSync(p)`: removes a file or the link itself, never a directory. */
  function Unlink(e: Entries, p: string): Step {
    if p !in e then Step(Err(ENOENT), e)
    else if e[p].Dir? then Step(Err(EISDIR), e)
    else Step(Ok, e - {p})
  }

  /** `fs.lstatSync(p)`: the node at `p` itself, links not followed. */
  function Lstat(e: Entries, p: string): Result<Node, Errno> {
    if p in e then Success(e[p]) else Failure(ENOENT)
  }

  /** `fs.readFileSync(p)`: follows links. */
  function ReadFile(e: Entries, p: string): Result<Bytes, Errno> {
    var q := Follow(e, p, MaxSymlinkHops);
    if q.None? then Failure(ENOENT)
    else if e[q.value].Dir? then Failure(EISDIR)
    else Success(e[q.value].data)
  }

  /** `fs.readlinkSync(p)`: the target text of a link. */
  function Readlink(e: Entries, p: string): Result<string, Errno> {
    if p !in e then Failure(ENOENT)
    else if e[p].Link? then Success(e[p].target)
    else Failure(EINVAL)
  }

  /** `process.chdir(p)` succeeds when `p` names a directory, following links. */
  predicate CanChdir(e: Entries, p: string) {
    var q := Follow(e, p, MaxSymlinkHops);
    q.Some? && e[q.value].Dir?
  }

  /** The status of `process.chdir(p)`. */
  function ChdirStatus(e: Entries, p: string): Status {
    if CanChdir(e, p) then Ok
    else if Follow(e, p, MaxSymlinkHops).None? then Err(ENOENT)
    else Err(ENOTDIR)
  }

  /**
   * `e2` extends `e1` without removing or retargeting anything: every path
   * is still there, links unchanged, and a file or directory is still a
   * file or directory of the same sort.
   */
  ghost predicate Grows(e1: Entries, e2: Entries) {
    forall k :: k in e1 ==>
      k in e2 && (e1[k].Link? ==> e2[k] == e1[k]) && !(e2[k].Link? && !e1[k].Link?) && e2[k].Dir? == e1[k].Dir?
  }

  lemma GrowsTransitive(e1: Entries, e2: Entries, e3: Entries)
    requires Grows(e1, e2) && Grows(e2, e3)
    ensures Grows(e1, e3)
  {
  }

  /** A chain of links that ends at an entry in a filesystem ends there in every filesystem it grows into. */
  lemma {:induction false} LinkEndGrows(e1: Entries, e2: Entries, p: string, hops: nat)
    requires Grows(e1, e2)
    requires LinkEnd(e1, p, hops).Some? && LinkEnd(e1, p, hops).value in e1
    ensures LinkEnd(e2, p, hops) == LinkEnd(e1, p, hops)
    decreases hops
  {
    if p in e1 && e1[p].Link? {
      LinkEndGrows(e1, e2, Resolve(p, e1[p].target), hops - 1);
    }
  }

  /** Following links in a grown filesystem ends where it did before. */
  lemma FollowGrows(e1: Entries, e2: Entries, p: string, hops: nat)
    requires Grows(e1, e2) && Follow(e1, p, hops).Some?
    ensures Follow(e2, p, hops) == Follow(e1, p, hops)
  {
    LinkEndGrows(e1, e2, p, hops);
  }

  /** Storing a file where a chain of links ends leaves the chain ending there. */
  lemma {:induction false} LinkEndStore(e: Entries, p: string, hops: nat, data: Bytes)
    requires LinkEnd(e, p, hops).Some?
    ensures var q := LinkEnd(e, p, hops).value; LinkEnd(e[q := File(data)], p, hops) == Some(q)
    decreases hops
  {
    var q := LinkEnd(e, p, hops).value;
    if p != q {
      LinkEndStore(e, Resolve(p, e[p].target), hops - 1, data);
    }
  }

  /** What `existsSync` finds stays found while the filesystem only grows. */
  lemma ExistsGrows(e1: Entries, e2: Entries, p: string)
    requires Grows(e1, e2) && Exists(e1, p)
    ensures Exists(e2, p)
  {
    FollowGrows(e1, e2, p, MaxSymlinkHops);
  }

  lemma MkdirGrows(e: Entries, p: string)
    ensures Grows(e, Mkdir(e, p).entries)
  {
  }

  lemma SymlinkGrows(e: Entries, target: string, p: string)
    ensures Grows(e, Symlink(e, target, p).entries)
  {
  }

  lemma WriteFileGrows(e: Entries, p: string, data: Bytes)
    ensures Grows(e, WriteFile(e, p, data).entries)
  {
  }

  /**
   * After a `writeFileSync` that succeeds, `readFileSync` of the same path
   * returns what was written, also when it created the end of a dangling link.
   */
  lemma WriteThenRead(e: Entries, p: string, data: Bytes)
    ensures WriteFile(e, p, data).status.Ok? ==> ReadFile(WriteFile(e, p, data).entries, p) == Success(data)
  {
    if WriteFile(e, p, data).status.Ok? {
      LinkEndStore(e, p, MaxSymlinkHops, data);
    }
  }

  /** Writing through a dangling link whose end lies in a directory creates the file there, and only there. */
  lemma WriteThroughDanglingLink(e: Entries, p: string, data: Bytes)
    requires p in e && e[p].Link? && !Exists(e, p)
    requires var q := LinkEnd(e, p, MaxSymlinkHops); q.Some? && ParentIsDir(e, q.value)
    ensures var q := LinkEnd(e, p, MaxSymlinkHops).value;
      q !in e && WriteFile(e, p, data) == Step(Ok, e[q := File(data)])
  {
  }

  /** The filesystem of the process, and its working directory. */
  class Disk {
    var entries: Entries
    var cwd: string

    constructor (entries: Entries, cwd: string)
      ensures this.entries == entries && this.cwd == cwd
    {
      this.entries := entries;
      this.cwd := cwd;
    }

    method MkdirSync(p: string) returns (st: Status)
      modifies this`entries
      ensures Step(st, entries) == Mkdir(old(entries), p)
    {
      var r := Mkdir(entries, p);
      st, entries := r.status, r.entries;
    }

    method WriteFileSync(p: string, data: Bytes) returns (st: Status)
      modifies this`entries
      ensures Step(st, entries) == WriteFile(old(entries), p, data)
    {
      var r := WriteFile(entries, p, data);
      st, entries := r.status, r.entries;
    }

    method SymlinkSync(target: string, p: string) returns (st: Status)
      modifies this`entries
      ensures Step(st, entries) == Symlink(old(entries), target, p)
    {
      var r := Symlink(entries, target, p);
      st, entries := r.status, r.entries;
    }

    method RmdirSync(p: string) returns (st: Status)
      modifies this`entries
      ensures Step(st, entries) == Rmdir(old(entries), p)
    {
      var r := Rmdir(entries, p);
      st, entries := r.status, r.entries;
    }

    method UnlinkSync(p: string) returns (st: Status)
      modifies this`entries
      ensures Step(st, entries) == Unlink(old(entries), p)
    {
      var r := Unlink(entries, p);
      st, entries := r.status, r.entries;
    }

    method Chdir(p: string) returns (st: Status)
      modifies this`cwd
      ensures st == ChdirStatus(entries, p)
      ensures st.Ok? <==> CanChdir(entries, p)
      ensures cwd == if st.Ok? then p else old(cwd)
    {
      st := ChdirStatus(entries, p);
      if st.Ok? {
        cwd := p;
      }
    }
  }
}
