/**
 * lib/readdirtree.js: `readDirTreeSync(root, {filter})`, a recursive walk of
 * a directory tree that lists, for each directory, the children the filter
 * accepts and then the results of each accepted subdirectory, and returns
 * every path relative to the root.
 *
 * The tree being walked is a value: each entry carries its name, what
 * `lstat` says it is, and (for a directory, or a link that `stat` resolves
 * to a directory) the entries `readdirSync` lists inside it, in listing order.
 */
module ReadDirTree {
  import opened Wrappers
  import opened Paths
  import opened FileSystem
  import opened Seqs

  /** Where `stat`, which follows links, ends up for a symbolic link. */
  datatype Resolution = Dangling | ToFile | ToDirectory

  datatype Kind = RegularFile(data: Bytes) | Directory | SymbolicLink(target: string, resolves: Resolution)

  datatype Entry = Entry(name: string, kind: Kind, children: seq<Entry>)

  /** `fs.statSync(p).isDirectory()`: links are followed. */
  predicate StatIsDirectory(k: Kind) {
    k.Directory? || (k.SymbolicLink? && k.resolves == ToDirectory)
  }

  /** `fs.statSync(p)` throws ENOENT for a dangling link. */
  predicate StatThrows(k: Kind) {
    k.SymbolicLink? && k.resolves == Dangling
  }

  /** A name `readdirSync` can return: not empty and without a separator. */
  predicate PlainName(n: string) {
    n != "" && '/' !in n
  }

  predicate DistinctNames(es: seq<Entry>) {
    forall i, j :: 0 <= i < j < |es| ==> es[i].name != es[j].name
  }

  /** Every listing in the tree holds plain, pairwise distinct names. */
  predicate WellFormed(es: seq<Entry>)
    decreases es
  {
    && DistinctNames(es)
    && forall i :: 0 <= i < |es| ==> PlainName(es[i].name) && WellFormed(es[i].children)
  }

  lemma WellFormedParts(es: seq<Entry>)
    requires WellFormed(es) && es != []
    ensures DistinctNames(es) && WellFormed(es[0].children) && WellFormed(es[1..])
  {
    assert forall i :: 0 <= i < |es[1..]| ==> es[1..][i] == es[i + 1];
  }

  function NamesOf(es: seq<Entry>): (r: seq<string>)
    ensures |r| == |es|
    ensures forall i :: 0 <= i < |es| ==> r[i] == es[i].name
  {
    if es == [] then [] else [es[0].name] + NamesOf(es[1..])
  }

  /** The `filter` option: absent, a RegExp, or a function; a RegExp is an opaque test here. */
  datatype Filter = NoFilter | Pattern(test: string -> bool) | Callback(fn: string -> bool)

  /** The verdict of the filter on a string. */
  function Test(f: Filter, relative: string): bool {
    match f
    case NoFilter => true
    case Pattern(test) => test(relative)
    case Callback(fn) => fn(relative)
  }

  /**
   * The closure the walk filters with: the full path loses its first
   * `trimLength` characters and its backslashes before the filter sees it.
   */
  function Keep(f: Filter, trimLength: nat, path: string): (b: bool)
    ensures f.NoFilter? ==> b
    ensures '\\' !in path ==> b == Test(f, Substring(path, trimLength))
  {
    var rel := Substring(path, trimLength);
    assert '\\' !in path ==> Slashes(rel) == rel by {
      if '\\' !in path && trimLength <= |path| {
        assert forall i :: 0 <= i < |rel| ==> rel[i] == path[trimLength + i];
      }
    }
    Test(f, Slashes(rel))
  }

  /**
   * `readDir(dir)` on the listing `es` of `dir`: every path it returns lies
   * below `dir` and was accepted by the filter.
   */
  function ReadDir(dir: string, es: seq<Entry>, f: Filter, trimLength: nat): (r: seq<string>)
    ensures forall i :: 0 <= i < |r| ==> dir + "/" <= r[i] && Keep(f, trimLength, r[i])
    decreases es, 1
  {
    Listed(dir, es, f, trimLength) + Descend(dir, es, f, trimLength)
  }

  /**
   * `readdirSync(dir).map(join).filter(filter)`: the children of `dir` the
   * filter accepts, at most one path per child.
   */
  function Listed(dir: string, es: seq<Entry>, f: Filter, trimLength: nat): (r: seq<string>)
    ensures |r| <= |es|
    ensures forall i :: 0 <= i < |r| ==> dir + "/" <= r[i]
    ensures forall p :: p in r <==>
              Keep(f, trimLength, p) && exists k :: 0 <= k < |es| && p == Join(dir, es[k].name)
    decreases es
  {
    if es == [] then []
    else
      var p := Join(dir, es[0].name);
      var rest := Listed(dir, es[1..], f, trimLength);
      (if Keep(f, trimLength, p) then [p] else []) + rest
  }

  /**
   * The results of the accepted subdirectories, concatenated in listing
   * order: paths below `dir` that the filter accepted.
   */
  function Descend(dir: string, es: seq<Entry>, f: Filter, trimLength: nat): (r: seq<string>)
    ensures forall i :: 0 <= i < |r| ==> dir + "/" <= r[i] && Keep(f, trimLength, r[i])
    decreases es, 0
  {
    if es == [] then []
    else
      var p := Join(dir, es[0].name);
      (if Keep(f, trimLength, p) && StatIsDirectory(es[0].kind) then ReadDir(p, es[0].children, f, trimLength) else [])
      + Descend(dir, es[1..], f, trimLength)
  }

  /** Some accepted entry, here or in an accepted subdirectory, makes `statSync` throw. */
  predicate Throws(dir: string, es: seq<Entry>, f: Filter, trimLength: nat)
    decreases es
  {
    && es != []
    && (var p := Join(dir, es[0].name);
        || (Keep(f, trimLength, p) &&
            (StatThrows(es[0].kind) ||
             (StatIsDirectory(es[0].kind) && Throws(p, es[0].children, f, trimLength))))
        || Throws(dir, es[1..], f, trimLength))
  }

  /** `results.map(p => p.substring(trimLength))`. */
  function Trim(paths: seq<string>, trimLength: nat): (r: seq<string>)
    ensures |r| == |paths|
    ensures forall i :: 0 <= i < |paths| ==> r[i] == Substring(paths[i], trimLength)
  {
    if paths == [] then [] else [Substring(paths[0], trimLength)] + Trim(paths[1..], trimLength)
  }

  // ---------------------------------------------------------------------------
  // The same walk over name paths (the names from the root down to an entry),
  // the reference the string walk is proved equal to.
  // ---------------------------------------------------------------------------

  /** What the filter is asked about the entry at name path `ns`. */
  predicate Accepts(f: Filter, ns: seq<string>) {
    Test(f, Slashes(JoinSegments(ns)))
  }

  function Walk(pre: seq<string>, es: seq<Entry>, f: Filter): seq<seq<string>>
    decreases es, 1
  {
    ListedNames(pre, es, f) + DescendNames(pre, es, f)
  }

  function ListedNames(pre: seq<string>, es: seq<Entry>, f: Filter): seq<seq<string>>
    decreases es
  {
    if es == [] then []
    else (if Accepts(f, pre + [es[0].name]) then [pre + [es[0].name]] else []) + ListedNames(pre, es[1..], f)
  }

  function DescendNames(pre: seq<string>, es: seq<Entry>, f: Filter): seq<seq<string>>
    decreases es, 0
  {
    if es == [] then []
    else
      var q := pre + [es[0].name];
      (if Accepts(f, q) && StatIsDirectory(es[0].kind) then Walk(q, es[0].children, f) else [])
      + DescendNames(pre, es[1..], f)
  }

  /** The path the walk builds for name path `ns` below `root`. */
  function PathOf(root: string, ns: seq<string>): string {
    if ns == [] then root else Join(root, JoinSegments(ns))
  }

  function MapPaths(root: string, w: seq<seq<string>>): (r: seq<string>)
    ensures |r| == |w|
    ensures forall i :: 0 <= i < |w| ==> r[i] == PathOf(root, w[i])
  {
    if w == [] then [] else [PathOf(root, w[0])] + MapPaths(root, w[1..])
  }

  /** The relative path of each name path. */
  function Rels(w: seq<seq<string>>): (r: seq<string>)
    ensures |r| == |w|
    ensures forall i :: 0 <= i < |w| ==> r[i] == JoinSegments(w[i])
  {
    if w == [] then [] else [JoinSegments(w[0])] + Rels(w[1..])
  }

  /**
   * `readDirTreeSync(root, {filter})`. `source` is what is at `root`: None
   * when nothing is, so `readdirSync` throws. The success value is the
   * reference walk's name paths, joined.
   */
  function ReadDirTreeSync(root: string, source: Option<Entry>, f: Filter): (r: Result<seq<string>, Errno>)
    ensures r.Failure? <==>
              source.None? || !StatIsDirectory(source.value.kind) ||
              Throws(root, source.value.children, f, |root| + 1)
    ensures r.Success? ==> r.value == Rels(Walk([], source.value.children, f))
  {
    if source.None? || StatThrows(source.value.kind) then Failure(ENOENT)
    else if !StatIsDirectory(source.value.kind) then Failure(ENOTDIR)
    else
      var es := source.value.children;
      if Throws(root, es, f, |root| + 1) then Failure(ENOENT)
      else
        ReadDirIsWalk(root, [], es, f);
        WalkShape([], es, f);
        TrimPaths(root, Walk([], es, f));
        Success(Trim(ReadDir(root, es, f, |root| + 1), |root| + 1))
  }

  // ---------------------------------------------------------------------------
  // Joining and splitting paths.
  // ---------------------------------------------------------------------------

  lemma {:induction false} JoinSegmentsSnoc(ns: seq<string>, n: string)
    requires ns != []
    ensures JoinSegments(ns + [n]) == Join(JoinSegments(ns), n)
    decreases |ns|
  {
    if |ns| == 1 {
      assert ns + [n] == [ns[0], n];
    } else {
      assert (ns + [n])[1..] == ns[1..] + [n];
      JoinSegmentsSnoc(ns[1..], n);
    }
  }

  lemma PathOfSnoc(root: string, ns: seq<string>, n: string)
    ensures Join(PathOf(root, ns), n) == PathOf(root, ns + [n])
  {
    if ns != [] {
      JoinSegmentsSnoc(ns, n);
    } else {
      assert [] + [n] == [n];
    }
  }

  lemma IndexOfSeparator(a: string, b: string)
    requires '/' !in a
    ensures IndexOf(a, "/") < 0
    ensures IndexOf(a + "/" + b, "/") == |a|
  {
    forall i: nat ensures !OccursAt(a, "/", i) {
      if i + 1 <= |a| {
        assert a[i..i + 1][0] == a[i];
      }
    }
    IndexOfFirst(a, "/");
    IndexOfChar(a, '/', b);
  }

  /** Splitting a joined name path at its separators gives the names back. */
  lemma {:induction false} SegmentsOfJoin(ns: seq<string>)
    requires ns != []
    requires forall i :: 0 <= i < |ns| ==> '/' !in ns[i]
    ensures Segments(JoinSegments(ns)) == ns
    decreases |ns|
  {
    if |ns| == 1 {
      IndexOfSeparator(ns[0], "");
    } else {
      var rest := JoinSegments(ns[1..]);
      IndexOfSeparator(ns[0], rest);
      var s := ns[0] + "/" + rest;
      assert s[..|ns[0]|] == ns[0];
      assert s[|ns[0]| + 1..] == rest;
      SegmentsOfJoin(ns[1..]);
    }
  }

  lemma {:induction false} SegmentsNonEmpty(s: string)
    ensures |Segments(s)| >= 1
    decreases |s|
  {
    var i := IndexOf(s, "/");
    if i >= 0 {
      SegmentsNonEmpty(s[i + 1..]);
    }
  }

  /** Joining the segments of a string gives the string back. */
  lemma {:induction false} JoinOfSegments(s: string)
    ensures JoinSegments(Segments(s)) == s
    decreases |s|
  {
    var i := IndexOf(s, "/");
    if i >= 0 {
      JoinOfSegments(s[i + 1..]);
      JoinOfSegmentsStep(s, i);
    }
  }

  /** One separator: the first segment rejoined to the rest. */
  lemma JoinOfSegmentsStep(s: string, i: int)
    requires i == IndexOf(s, "/") && i >= 0
    requires JoinSegments(Segments(s[i + 1..])) == s[i + 1..]
    ensures JoinSegments(Segments(s)) == s
  {
    var head, rest := s[..i], s[i + 1..];
    assert Segments(s) == [head] + Segments(rest);
    SegmentsNonEmpty(rest);
    JoinSegmentsCons(head, Segments(rest));
    SplitAtSeparator(s, i);
  }

  lemma JoinSegmentsCons(n: string, ns: seq<string>)
    requires ns != []
    ensures JoinSegments([n] + ns) == Join(n, JoinSegments(ns))
  {
    assert ([n] + ns)[1..] == ns;
  }

  lemma SplitAtSeparator(s: string, i: nat)
    requires OccursAt(s, "/", i)
    ensures s == Join(s[..i], s[i + 1..])
  {
    assert s[i] == s[i..i + 1][0] == '/';
    assert s == s[..i] + [s[i]] + s[i + 1..];
  }

  // ---------------------------------------------------------------------------
  // The string walk is the name walk.
  // ---------------------------------------------------------------------------

  lemma {:induction false} MapPathsConcat(root: string, a: seq<seq<string>>, b: seq<seq<string>>)
    ensures MapPaths(root, a + b) == MapPaths(root, a) + MapPaths(root, b)
  {
  }

  /** The filter sees the name path joined, whatever the root. */
  lemma KeepSeesRelative(f: Filter, root: string, ns: seq<string>)
    requires ns != []
    ensures Keep(f, |root| + 1, PathOf(root, ns)) == Accepts(f, ns)
  {
    var p := PathOf(root, ns);
    assert p == root + "/" + JoinSegments(ns);
    assert p[|root| + 1..] == JoinSegments(ns);
  }

  lemma {:induction false} ListedIsWalk(root: string, pre: seq<string>, es: seq<Entry>, f: Filter)
    ensures Listed(PathOf(root, pre), es, f, |root| + 1) == MapPaths(root, ListedNames(pre, es, f))
    decreases es
  {
    if es != [] {
      var q := pre + [es[0].name];
      PathOfSnoc(root, pre, es[0].name);
      KeepSeesRelative(f, root, q);
      ListedIsWalk(root, pre, es[1..], f);
      var head := if Accepts(f, q) then [q] else [];
      MapPathsConcat(root, head, ListedNames(pre, es[1..], f));
    }
  }

  lemma {:induction false} ReadDirIsWalk(root: string, pre: seq<string>, es: seq<Entry>, f: Filter)
    ensures ReadDir(PathOf(root, pre), es, f, |root| + 1) == MapPaths(root, Walk(pre, es, f))
    decreases es, 1
  {
    ListedIsWalk(root, pre, es, f);
    DescendIsWalk(root, pre, es, f);
    MapPathsConcat(root, ListedNames(pre, es, f), DescendNames(pre, es, f));
  }

  lemma {:induction false} DescendIsWalk(root: string, pre: seq<string>, es: seq<Entry>, f: Filter)
    ensures Descend(PathOf(root, pre), es, f, |root| + 1) == MapPaths(root, DescendNames(pre, es, f))
    decreases es, 0
  {
    if es != [] {
      var q := pre + [es[0].name];
      PathOfSnoc(root, pre, es[0].name);
      KeepSeesRelative(f, root, q);
      if Accepts(f, q) && StatIsDirectory(es[0].kind) {
        ReadDirIsWalk(root, q, es[0].children, f);
      }
      DescendIsWalk(root, pre, es[1..], f);
      var head := if Accepts(f, q) && StatIsDirectory(es[0].kind) then Walk(q, es[0].children, f) else [];
      MapPathsConcat(root, head, DescendNames(pre, es[1..], f));
    }
  }

  /** Trimming the root and one separator off a walked path leaves its relative path. */
  lemma {:induction false} TrimPaths(root: string, w: seq<seq<string>>)
    requires forall ns :: ns in w ==> ns != []
    ensures Trim(MapPaths(root, w), |root| + 1) == Rels(w)
  {
    forall i | 0 <= i < |w|
      ensures Substring(PathOf(root, w[i]), |root| + 1) == JoinSegments(w[i])
    {
      assert w[i] in w;
      var p := PathOf(root, w[i]);
      assert p == root + "/" + JoinSegments(w[i]);
      assert p[|root| + 1..] == JoinSegments(w[i]);
    }
  }

  // ---------------------------------------------------------------------------
  // The shape of the name walk.
  // ---------------------------------------------------------------------------

  /** `ns` lies strictly below `pre`, under one of the entries in `es`. */
  predicate Under(pre: seq<string>, es: seq<Entry>, ns: seq<string>) {
    |ns| > |pre| && ns[..|pre|] == pre && ns[|pre|] in NamesOf(es)
  }

  lemma {:induction false} ListedShape(pre: seq<string>, es: seq<Entry>, f: Filter)
    ensures forall ns :: ns in ListedNames(pre, es, f) ==> |ns| == |pre| + 1 && Under(pre, es, ns)
    decreases es
  {
    if es != [] {
      ListedShape(pre, es[1..], f);
      forall ns | ns in ListedNames(pre, es[1..], f) ensures Under(pre, es, ns) {
        assert ns[|pre|] in NamesOf(es[1..]);
        assert NamesOf(es) == [es[0].name] + NamesOf(es[1..]);
      }
      assert (pre + [es[0].name])[..|pre|] == pre;
    }
  }

  lemma {:induction false} WalkShape(pre: seq<string>, es: seq<Entry>, f: Filter)
    ensures forall ns :: ns in Walk(pre, es, f) ==> Under(pre, es, ns)
    decreases es, 1
  {
    ListedShape(pre, es, f);
    DescendShape(pre, es, f);
  }

  lemma {:induction false} DescendShape(pre: seq<string>, es: seq<Entry>, f: Filter)
    ensures forall ns :: ns in DescendNames(pre, es, f) ==> |ns| >= |pre| + 2 && Under(pre, es, ns)
    decreases es, 0
  {
    if es != [] {
      var q := pre + [es[0].name];
      assert NamesOf(es) == [es[0].name] + NamesOf(es[1..]);
      if Accepts(f, q) && StatIsDirectory(es[0].kind) {
        WalkShape(q, es[0].children, f);
        forall ns | ns in Walk(q, es[0].children, f) ensures ns[|pre|] == es[0].name && ns[..|pre|] == pre {
          assert ns[..|q|][|pre|] == q[|pre|];
          assert ns[..|q|][..|pre|] == ns[..|pre|];
        }
      }
      DescendShape(pre, es[1..], f);
    }
  }

  /** The entries of the part of DescendNames that comes from `es[0]` are under `es[0]`. */
  lemma DescendHeadUnder(pre: seq<string>, es: seq<Entry>, f: Filter, ns: seq<string>)
    requires es != []
    requires Accepts(f, pre + [es[0].name]) && StatIsDirectory(es[0].kind)
    requires ns in Walk(pre + [es[0].name], es[0].children, f)
    ensures |ns| >= |pre| + 2 && ns[..|pre|] == pre && ns[|pre|] == es[0].name
  {
    var q := pre + [es[0].name];
    WalkShape(q, es[0].children, f);
    assert ns[..|q|][|pre|] == q[|pre|];
    assert ns[..|q|][..|pre|] == ns[..|pre|];
  }

  // ---------------------------------------------------------------------------
  // No duplicates, and every directory before its descendants.
  // ---------------------------------------------------------------------------

  predicate IsProperPrefix<T(==)>(x: seq<T>, y: seq<T>) {
    |x| < |y| && y[..|x|] == x
  }

  /** No entry comes before a proper prefix of it. */
  predicate ParentFirst<T(==)>(w: seq<seq<T>>) {
    forall i, j :: 0 <= i < j < |w| ==> !IsProperPrefix(w[j], w[i])
  }

  lemma ParentFirstConcat<T>(a: seq<seq<T>>, b: seq<seq<T>>)
    requires ParentFirst(a) && ParentFirst(b)
    requires forall x, y :: x in a && y in b ==> !IsProperPrefix(y, x)
    ensures ParentFirst(a + b)
  {
    forall i, j | 0 <= i < j < |a + b| ensures !IsProperPrefix((a + b)[j], (a + b)[i]) {
      if i < |a| && j >= |a| {
        assert (a + b)[i] in a && (a + b)[j] in b;
      }
    }
  }

  lemma {:induction false} ListedNamesProps(pre: seq<string>, es: seq<Entry>, f: Filter)
    requires DistinctNames(es)
    ensures NoDuplicates(ListedNames(pre, es, f))
    ensures ParentFirst(ListedNames(pre, es, f))
    decreases es
  {
    ListedShape(pre, es, f);
    SameLengthParentFirst(ListedNames(pre, es, f), |pre| + 1);
    if es != [] {
      assert DistinctNames(es[1..]);
      ListedNamesProps(pre, es[1..], f);
      ListedNoDupStep(pre, es, f);
    }
  }

  /** Name paths of one length are never proper prefixes of each other. */
  lemma SameLengthParentFirst<T>(w: seq<seq<T>>, n: nat)
    requires forall x :: x in w ==> |x| == n
    ensures ParentFirst(w)
  {
    forall i, j | 0 <= i < j < |w| ensures !IsProperPrefix(w[j], w[i]) {
      assert w[i] in w && w[j] in w;
    }
  }

  /** The first entry's name path differs from every later one's. */
  lemma ListedNoDupStep(pre: seq<string>, es: seq<Entry>, f: Filter)
    requires es != [] && DistinctNames(es)
    requires NoDuplicates(ListedNames(pre, es[1..], f))
    ensures NoDuplicates(ListedNames(pre, es, f))
  {
    var q := pre + [es[0].name];
    var tail := ListedNames(pre, es[1..], f);
    var head := if Accepts(f, q) then [q] else [];
    assert ListedNames(pre, es, f) == head + tail;
    ListedShape(pre, es[1..], f);
    forall ns | ns in tail ensures ns != q {
      var k :| 0 <= k < |es[1..]| && ns[|pre|] == es[1..][k].name;
      assert es[k + 1].name != es[0].name;
    }
    NoDupConcat(head, tail);
  }

  lemma {:induction false} WalkProps(pre: seq<string>, es: seq<Entry>, f: Filter)
    requires WellFormed(es)
    ensures NoDuplicates(Walk(pre, es, f))
    ensures ParentFirst(Walk(pre, es, f))
    decreases es, 1
  {
    var l := ListedNames(pre, es, f);
    var d := DescendNames(pre, es, f);
    ListedNamesProps(pre, es, f);
    DescendProps(pre, es, f);
    ListedShape(pre, es, f);
    DescendShape(pre, es, f);
    NoDupConcat(l, d);
    ParentFirstConcat(l, d);
  }

  lemma {:induction false} DescendProps(pre: seq<string>, es: seq<Entry>, f: Filter)
    requires WellFormed(es)
    ensures NoDuplicates(DescendNames(pre, es, f))
    ensures ParentFirst(DescendNames(pre, es, f))
    decreases es, 0
  {
    if es != [] {
      var q := pre + [es[0].name];
      var tail := DescendNames(pre, es[1..], f);
      WellFormedParts(es);
      DescendProps(pre, es[1..], f);
      if Accepts(f, q) && StatIsDirectory(es[0].kind) {
        var head := Walk(q, es[0].children, f);
        WalkProps(q, es[0].children, f);
        HeadTailAllApart(pre, es, f);
        NoDupConcat(head, tail);
        ParentFirstConcat(head, tail);
        assert DescendNames(pre, es, f) == head + tail;
      } else {
        assert DescendNames(pre, es, f) == [] + tail;
      }
    }
  }

  lemma HeadTailAllApart(pre: seq<string>, es: seq<Entry>, f: Filter)
    requires es != [] && DistinctNames(es)
    requires Accepts(f, pre + [es[0].name]) && StatIsDirectory(es[0].kind)
    ensures forall x, y :: x in Walk(pre + [es[0].name], es[0].children, f) && y in DescendNames(pre, es[1..], f) ==>
              x != y && !IsProperPrefix(y, x)
  {
    forall x, y | x in Walk(pre + [es[0].name], es[0].children, f) && y in DescendNames(pre, es[1..], f)
      ensures x != y && !IsProperPrefix(y, x)
    {
      HeadTailApart(pre, es, f, x, y);
    }
  }

  /** An entry under `es[0]` and one under a later sibling are unrelated. */
  lemma HeadTailApart(pre: seq<string>, es: seq<Entry>, f: Filter, x: seq<string>, y: seq<string>)
    requires es != [] && DistinctNames(es)
    requires Accepts(f, pre + [es[0].name]) && StatIsDirectory(es[0].kind)
    requires x in Walk(pre + [es[0].name], es[0].children, f)
    requires y in DescendNames(pre, es[1..], f)
    ensures x != y && !IsProperPrefix(y, x)
  {
    DescendShape(pre, es[1..], f);
    DescendHeadUnder(pre, es, f, x);
    var k :| 0 <= k < |es[1..]| && y[|pre|] == NamesOf(es[1..])[k];
    assert es[k + 1].name != es[0].name;
  }

  // ---------------------------------------------------------------------------
  // Which name paths the walk lists.
  // ---------------------------------------------------------------------------

  /** The first entry of the listing with name `n`. */
  function Find(es: seq<Entry>, n: string): (r: Option<Entry>)
    ensures r.Some? ==> r.value in es && r.value.name == n
    ensures r.None? ==> forall i :: 0 <= i < |es| ==> es[i].name != n
  {
    if es == [] then None else if es[0].name == n then Some(es[0]) else Find(es[1..], n)
  }

  /** The entry at a name path, as `lstatSync` sees it. */
  function EntryAt(es: seq<Entry>, segs: seq<string>): Option<Entry>
    decreases |segs|
  {
    if segs == [] then None
    else match Find(es, segs[0])
      case None => None
      case Some(e) => if |segs| == 1 then Some(e) else EntryAt(e.children, segs[1..])
  }

  /** `lstatSync` never fails on a walked path: the entry there exists. */
  lemma {:induction false} EntryAtReached(pre: seq<string>, es: seq<Entry>, rest: seq<string>, f: Filter)
    requires Reach(pre, es, rest, f)
    ensures EntryAt(es, rest).Some?
    decreases |rest|
  {
    if |rest| > 1 {
      EntryAtReached(pre + [rest[0]], Find(es, rest[0]).value.children, rest[1..], f);
    }
  }

  lemma FindDistinct(es: seq<Entry>, k: nat)
    requires DistinctNames(es) && k < |es|
    ensures Find(es, es[k].name) == Some(es[k])
  {
    var r := Find(es, es[k].name);
    var j :| 0 <= j < |es| && es[j] == r.value;
    assert j == k;
  }

  /**
   * The entry at `rest` below the listing `es` (itself at name path `pre`)
   * exists, it and each of its ancestors below `pre` is accepted, and each of
   * those ancestors is a directory to `stat`.
   */
  predicate Reach(pre: seq<string>, es: seq<Entry>, rest: seq<string>, f: Filter)
    decreases |rest|
  {
    && rest != []
    && Find(es, rest[0]).Some?
    && Accepts(f, pre + [rest[0]])
    && (|rest| > 1 ==>
          StatIsDirectory(Find(es, rest[0]).value.kind) &&
          Reach(pre + [rest[0]], Find(es, rest[0]).value.children, rest[1..], f))
  }

  lemma {:induction false} ListedMember(pre: seq<string>, es: seq<Entry>, f: Filter, ns: seq<string>)
    requires ns in ListedNames(pre, es, f)
    ensures exists k :: 0 <= k < |es| && ns == pre + [es[k].name] && Accepts(f, ns)
    decreases es
  {
    if es != [] {
      var q := pre + [es[0].name];
      if !(Accepts(f, q) && ns == q) {
        ListedMember(pre, es[1..], f, ns);
        var k :| 0 <= k < |es[1..]| && ns == pre + [es[1..][k].name] && Accepts(f, ns);
        assert es[k + 1] == es[1..][k];
      }
    }
  }

  lemma {:induction false} ListedContains(pre: seq<string>, es: seq<Entry>, f: Filter, k: nat)
    requires k < |es| && Accepts(f, pre + [es[k].name])
    ensures pre + [es[k].name] in ListedNames(pre, es, f)
    decreases es
  {
    if k > 0 {
      assert es[1..][k - 1] == es[k];
      ListedContains(pre, es[1..], f, k - 1);
    }
  }

  lemma {:induction false} DescendMember(pre: seq<string>, es: seq<Entry>, f: Filter, ns: seq<string>)
    requires ns in DescendNames(pre, es, f)
    ensures exists k :: 0 <= k < |es| &&
              Accepts(f, pre + [es[k].name]) && StatIsDirectory(es[k].kind) &&
              ns in Walk(pre + [es[k].name], es[k].children, f)
    decreases es
  {
    var q := pre + [es[0].name];
    if !(Accepts(f, q) && StatIsDirectory(es[0].kind) && ns in Walk(q, es[0].children, f)) {
      DescendMember(pre, es[1..], f, ns);
      var k :| 0 <= k < |es[1..]| &&
               Accepts(f, pre + [es[1..][k].name]) && StatIsDirectory(es[1..][k].kind) &&
               ns in Walk(pre + [es[1..][k].name], es[1..][k].children, f);
      assert es[k + 1] == es[1..][k];
    }
  }

  lemma {:induction false} DescendContains(pre: seq<string>, es: seq<Entry>, f: Filter, k: nat, ns: seq<string>)
    requires k < |es| && Accepts(f, pre + [es[k].name]) && StatIsDirectory(es[k].kind)
    requires ns in Walk(pre + [es[k].name], es[k].children, f)
    ensures ns in DescendNames(pre, es, f)
    decreases es
  {
    if k > 0 {
      assert es[1..][k - 1] == es[k];
      DescendContains(pre, es[1..], f, k - 1, ns);
      DescendTail(pre, es, f, ns);
    } else {
      DescendHead(pre, es, f, ns);
    }
  }

  lemma DescendHead(pre: seq<string>, es: seq<Entry>, f: Filter, ns: seq<string>)
    requires es != [] && Accepts(f, pre + [es[0].name]) && StatIsDirectory(es[0].kind)
    requires ns in Walk(pre + [es[0].name], es[0].children, f)
    ensures ns in DescendNames(pre, es, f)
  {
    var head := Walk(pre + [es[0].name], es[0].children, f);
    assert DescendNames(pre, es, f) == head + DescendNames(pre, es[1..], f);
  }

  lemma DescendTail(pre: seq<string>, es: seq<Entry>, f: Filter, ns: seq<string>)
    requires es != [] && ns in DescendNames(pre, es[1..], f)
    ensures ns in DescendNames(pre, es, f)
  {
    var q := pre + [es[0].name];
    var head := if Accepts(f, q) && StatIsDirectory(es[0].kind) then Walk(q, es[0].children, f) else [];
    assert DescendNames(pre, es, f) == head + DescendNames(pre, es[1..], f);
  }

  /**
   * On a well-formed tree the walk lists `ns` exactly when `ns` lies below
   * `pre` and the entry there and all its ancestors are accepted, with every
   * ancestor a directory.
   */
  lemma {:induction false} WalkIff(pre: seq<string>, es: seq<Entry>, f: Filter, ns: seq<string>)
    requires WellFormed(es)
    ensures ns in Walk(pre, es, f) <==> |ns| > |pre| && ns[..|pre|] == pre && Reach(pre, es, ns[|pre|..], f)
    decreases es
  {
    if ns in Walk(pre, es, f) {
      if ns in ListedNames(pre, es, f) {
        ListedReach(pre, es, f, ns);
      } else {
        assert ns in DescendNames(pre, es, f);
        DescendMember(pre, es, f, ns);
        var k :| 0 <= k < |es| &&
                 Accepts(f, pre + [es[k].name]) && StatIsDirectory(es[k].kind) &&
                 ns in Walk(pre + [es[k].name], es[k].children, f);
        WalkIff(pre + [es[k].name], es[k].children, f, ns);
        DescendReach(pre, es, f, ns, k);
      }
    }
    if |ns| > |pre| && ns[..|pre|] == pre && Reach(pre, es, ns[|pre|..], f) {
      var rest := ns[|pre|..];
      var e := Find(es, rest[0]).value;
      var k :| 0 <= k < |es| && es[k] == e;
      if |rest| == 1 {
        ReachListed(pre, es, f, ns, k);
      } else {
        ReachBelow(pre, es, f, ns);
        WalkIff(pre + [rest[0]], e.children, f, ns);
        DescendContains(pre, es, f, k, ns);
        WalkHasDescend(pre, es, f, ns);
      }
    }
  }

  /** A listed name path is a reached one-name path. */
  lemma ListedReach(pre: seq<string>, es: seq<Entry>, f: Filter, ns: seq<string>)
    requires WellFormed(es) && ns in ListedNames(pre, es, f)
    ensures |ns| > |pre| && ns[..|pre|] == pre && Reach(pre, es, ns[|pre|..], f)
  {
    ListedMember(pre, es, f, ns);
    var k :| 0 <= k < |es| && ns == pre + [es[k].name] && Accepts(f, ns);
    FindDistinct(es, k);
    assert ns[..|pre|] == pre && ns[|pre|..] == [es[k].name];
  }

  /** A path found in an accepted subdirectory's walk is reached through that subdirectory. */
  lemma DescendReach(pre: seq<string>, es: seq<Entry>, f: Filter, ns: seq<string>, k: nat)
    requires WellFormed(es) && k < |es|
    requires Accepts(f, pre + [es[k].name]) && StatIsDirectory(es[k].kind)
    requires var q := pre + [es[k].name];
      |ns| > |q| && ns[..|q|] == q && Reach(q, es[k].children, ns[|q|..], f)
    ensures |ns| > |pre| && ns[..|pre|] == pre && Reach(pre, es, ns[|pre|..], f)
  {
    var q := pre + [es[k].name];
    FindDistinct(es, k);
    assert ns[..|pre|] == q[..|pre|] == pre;
    assert ns[|pre|] == q[|pre|] == es[k].name;
    var rest := ns[|pre|..];
    assert rest[0] == es[k].name;
    assert rest[1..] == ns[|q|..];
  }

  /** A reached one-name path is listed. */
  lemma ReachListed(pre: seq<string>, es: seq<Entry>, f: Filter, ns: seq<string>, k: nat)
    requires k < |es| && |ns| == |pre| + 1 && ns[..|pre|] == pre && Reach(pre, es, ns[|pre|..], f)
    requires es[k] == Find(es, ns[|pre|]).value
    ensures ns in Walk(pre, es, f)
  {
    assert ns == pre + [ns[|pre|]];
    ListedContains(pre, es, f, k);
  }

  /** A longer reached path continues below its first name. */
  lemma ReachBelow(pre: seq<string>, es: seq<Entry>, f: Filter, ns: seq<string>)
    requires |ns| > |pre| + 1 && ns[..|pre|] == pre && Reach(pre, es, ns[|pre|..], f)
    ensures var q := pre + [ns[|pre|]];
      |ns| > |q| && ns[..|q|] == q && Reach(q, Find(es, ns[|pre|]).value.children, ns[|q|..], f)
  {
    var q := pre + [ns[|pre|]];
    assert ns[..|q|] == ns[..|pre|] + [ns[|pre|]];
    assert ns[|q|..] == ns[|pre|..][1..];
  }

  lemma WalkHasDescend(pre: seq<string>, es: seq<Entry>, f: Filter, ns: seq<string>)
    requires ns in DescendNames(pre, es, f)
    ensures ns in Walk(pre, es, f)
  {
  }

  /** The names on a reached path are names of entries, so plain on a well-formed tree. */
  lemma {:induction false} ReachPlain(pre: seq<string>, es: seq<Entry>, rest: seq<string>, f: Filter)
    requires WellFormed(es) && Reach(pre, es, rest, f)
    ensures forall i :: 0 <= i < |rest| ==> PlainName(rest[i])
    decreases |rest|
  {
    var e := Find(es, rest[0]).value;
    var k :| 0 <= k < |es| && es[k] == e;
    if |rest| > 1 {
      ReachPlain(pre + [rest[0]], e.children, rest[1..], f);
      forall i | 1 <= i < |rest| ensures PlainName(rest[i]) {
        assert rest[i] == rest[1..][i - 1];
      }
    }
  }

  /** Every ancestor on a reached path, and the entry itself, was accepted by the filter. */
  lemma {:induction false} ReachAccepted(pre: seq<string>, es: seq<Entry>, rest: seq<string>, f: Filter)
    requires Reach(pre, es, rest, f)
    ensures forall k :: 1 <= k <= |rest| ==> Accepts(f, pre + rest[..k])
    decreases |rest|
  {
    assert rest[..1] == [rest[0]];
    if |rest| > 1 {
      var e := Find(es, rest[0]).value;
      ReachAccepted(pre + [rest[0]], e.children, rest[1..], f);
      forall k | 2 <= k <= |rest| ensures Accepts(f, pre + rest[..k]) {
        assert pre + [rest[0]] + rest[1..][..k - 1] == pre + rest[..k];
      }
    }
  }

  /** The parent of a reached path is reached too, and is a directory to `stat`. */
  lemma {:induction false} ReachParent(pre: seq<string>, es: seq<Entry>, rest: seq<string>, f: Filter)
    requires Reach(pre, es, rest, f) && |rest| > 1
    ensures var up := rest[..|rest| - 1];
            Reach(pre, es, up, f) && EntryAt(es, up).Some? && StatIsDirectory(EntryAt(es, up).value.kind)
    decreases |rest|
  {
    var e := Find(es, rest[0]).value;
    var up := rest[..|rest| - 1];
    assert up[0] == rest[0];
    if |rest| == 2 {
      assert up == [rest[0]];
    } else {
      ReachParent(pre + [rest[0]], e.children, rest[1..], f);
      assert rest[1..][..|rest[1..]| - 1] == up[1..];
    }
  }

  /** The parent of a walked name path below another directory is walked too, and is a directory to `stat`. */
  lemma WalkParent(es: seq<Entry>, f: Filter, ns: seq<string>)
    requires WellFormed(es) && ns in Walk([], es, f) && |ns| > 1
    ensures var up := ns[..|ns| - 1];
            up in Walk([], es, f) && EntryAt(es, up).Some? && StatIsDirectory(EntryAt(es, up).value.kind)
  {
    var up := ns[..|ns| - 1];
    WalkIff([], es, f, ns);
    assert ns[0..] == ns;
    ReachParent([], es, ns, f);
    WalkIff([], es, f, up);
    assert up[0..] == up;
  }

  // ---------------------------------------------------------------------------
  // What readDirTreeSync returns.
  // ---------------------------------------------------------------------------

  /** `a` is an ancestor of `b`: its segments are a proper prefix of those of `b`. */
  predicate IsAncestor(a: string, b: string) {
    IsProperPrefix(Segments(a), Segments(b))
  }

  lemma WalkElementsPlain(es: seq<Entry>, f: Filter, ns: seq<string>)
    requires WellFormed(es) && ns in Walk([], es, f)
    ensures ns != [] && Segments(JoinSegments(ns)) == ns
  {
    WalkIff([], es, f, ns);
    assert ns[0..] == ns;
    ReachPlain([], es, ns, f);
    SegmentsOfJoin(ns);
  }

  /**
   * On a well-formed tree a relative path is returned exactly when the entry
   * there and all of its ancestors are accepted and every ancestor is a
   * directory to `stat`.
   */
  lemma ReadDirTreeSyncIff(root: string, source: Option<Entry>, f: Filter, s: string)
    requires ReadDirTreeSync(root, source, f).Success?
    requires WellFormed(source.value.children)
    ensures s in ReadDirTreeSync(root, source, f).value <==> Reach([], source.value.children, Segments(s), f)
  {
    var es := source.value.children;
    var w := Walk([], es, f);
    var r := ReadDirTreeSync(root, source, f).value;
    if s in r {
      var i :| 0 <= i < |r| && r[i] == s;
      WalkElementsPlain(es, f, w[i]);
      WalkIff([], es, f, w[i]);
      assert w[i][0..] == w[i];
    }
    if Reach([], es, Segments(s), f) {
      var ns := Segments(s);
      WalkIff([], es, f, ns);
      assert ns[0..] == ns;
      var i :| 0 <= i < |w| && w[i] == ns;
      JoinOfSegments(s);
      assert r[i] == s;
    }
  }

  /** A path the filter rejects is never returned, and neither is anything below it. */
  lemma Pruning(root: string, source: Option<Entry>, f: Filter, s: string, k: nat)
    requires ReadDirTreeSync(root, source, f).Success?
    requires WellFormed(source.value.children)
    requires s in ReadDirTreeSync(root, source, f).value
    requires 1 <= k <= |Segments(s)|
    ensures Accepts(f, Segments(s)[..k])
  {
    ReadDirTreeSyncIff(root, source, f, s);
    ReachAccepted([], source.value.children, Segments(s), f);
    assert [] + Segments(s)[..k] == Segments(s)[..k];
  }

  /** Each path is returned once, and a directory before all of its descendants. */
  lemma ReadDirTreeSyncOrder(root: string, source: Option<Entry>, f: Filter)
    requires ReadDirTreeSync(root, source, f).Success?
    requires WellFormed(source.value.children)
    ensures var r := ReadDirTreeSync(root, source, f).value;
            && NoDuplicates(r)
            && forall i, j :: 0 <= i < j < |r| ==> !IsAncestor(r[j], r[i])
  {
    var es := source.value.children;
    var w := Walk([], es, f);
    var r := ReadDirTreeSync(root, source, f).value;
    WalkProps([], es, f);
    forall i | 0 <= i < |w| ensures Segments(r[i]) == w[i] {
      WalkElementsPlain(es, f, w[i]);
    }
  }

  /** The joined prefix of a name path is a prefix of the joined path. */
  lemma {:induction false} JoinPrefix(ns: seq<string>, k: nat)
    requires 1 <= k <= |ns|
    ensures exists tail :: JoinSegments(ns) == JoinSegments(ns[..k]) + tail
    decreases |ns|
  {
    if k == |ns| {
      assert ns[..k] == ns;
      assert JoinSegments(ns) == JoinSegments(ns[..k]) + "";
    } else if k == 1 {
      assert ns[..1] == [ns[0]];
      var tail := "/" + JoinSegments(ns[1..]);
      assert JoinSegments(ns) == JoinSegments(ns[..k]) + tail;
    } else {
      JoinPrefix(ns[1..], k - 1);
      var tail :| JoinSegments(ns[1..]) == JoinSegments(ns[1..][..k - 1]) + tail;
      assert ns[..k][1..] == ns[1..][..k - 1];
      assert JoinSegments(ns) == JoinSegments(ns[..k]) + tail;
    }
  }

  /** Relaxing the filter keeps a reached path reached. */
  lemma {:induction false} ReachUnfiltered(pre: seq<string>, es: seq<Entry>, rest: seq<string>, f: Filter)
    requires Reach(pre, es, rest, f)
    ensures Reach(pre, es, rest, NoFilter)
    decreases |rest|
  {
    if |rest| > 1 {
      ReachUnfiltered(pre + [rest[0]], Find(es, rest[0]).value.children, rest[1..], f);
    }
  }

  /** A path reached without a filter is reached under one that accepts it and each ancestor. */
  lemma {:induction false} ReachFiltered(pre: seq<string>, es: seq<Entry>, rest: seq<string>, f: Filter)
    requires Reach(pre, es, rest, NoFilter)
    requires forall k :: 1 <= k <= |rest| ==> Accepts(f, pre + rest[..k])
    ensures Reach(pre, es, rest, f)
    decreases |rest|
  {
    assert rest[..1] == [rest[0]];
    if |rest| > 1 {
      forall k | 1 <= k <= |rest[1..]| ensures Accepts(f, pre + [rest[0]] + rest[1..][..k]) {
        assert pre + [rest[0]] + rest[1..][..k] == pre + rest[..k + 1];
      }
      ReachFiltered(pre + [rest[0]], Find(es, rest[0]).value.children, rest[1..], f);
    }
  }

  /** A prefix of a path without '\\' has none either. */
  lemma PrefixPlain(s: string, k: nat)
    requires '\\' !in s && 1 <= k <= |Segments(s)|
    ensures '\\' !in JoinSegments(Segments(s)[..k])
  {
    var segs := Segments(s);
    JoinPrefix(segs, k);
    JoinOfSegments(s);
    var p := JoinSegments(segs[..k]);
    var tail :| s == p + tail;
    forall i | 0 <= i < |p| ensures p[i] != '\\' {
      assert p[i] == s[i];
    }
  }

  /**
   * On a well-formed tree, a relative path without '\\' is returned exactly
   * when the entry exists below a chain of directories and the filter
   * accepts its path and the path of each of its ancestors.
   */
  lemma ReadDirTreeSyncFiltered(root: string, source: Option<Entry>, f: Filter, s: string)
    requires ReadDirTreeSync(root, source, f).Success?
    requires WellFormed(source.value.children)
    requires '\\' !in s
    ensures s in ReadDirTreeSync(root, source, f).value <==>
            Reach([], source.value.children, Segments(s), NoFilter) &&
            forall k :: 1 <= k <= |Segments(s)| ==> Test(f, JoinSegments(Segments(s)[..k]))
  {
    ReadDirTreeSyncIff(root, source, f, s);
    ReachIffAllPass(source.value.children, f, s);
  }

  /** Reaching a path through the filter is reaching it unfiltered with every prefix passing the filter. */
  lemma ReachIffAllPass(es: seq<Entry>, f: Filter, s: string)
    requires '\\' !in s
    ensures Reach([], es, Segments(s), f) <==>
            Reach([], es, Segments(s), NoFilter) &&
            forall k :: 1 <= k <= |Segments(s)| ==> Test(f, JoinSegments(Segments(s)[..k]))
  {
    var segs := Segments(s);
    forall k | 1 <= k <= |segs| ensures Accepts(f, [] + segs[..k]) == Test(f, JoinSegments(segs[..k])) {
      assert [] + segs[..k] == segs[..k];
      PrefixPlain(s, k);
      AcceptsPlainPath(f, segs[..k]);
    }
    if Reach([], es, segs, f) {
      ReachUnfiltered([], es, segs, f);
      forall k | 1 <= k <= |segs| ensures Test(f, JoinSegments(segs[..k])) {
        ReachAccepted([], es, segs, f);
      }
    }
    if Reach([], es, segs, NoFilter) && forall k :: 1 <= k <= |segs| ==> Test(f, JoinSegments(segs[..k])) {
      ReachFiltered([], es, segs, f);
    }
  }

  /** With no '\\' in the names the filter is asked about the relative path itself. */
  lemma AcceptsPlainPath(f: Filter, ns: seq<string>)
    requires '\\' !in JoinSegments(ns)
    ensures Accepts(f, ns) == Test(f, JoinSegments(ns))
  {
    SlashesIdentity(JoinSegments(ns));
  }
}
