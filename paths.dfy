/** Option and error-carrying results shared by every module. */
module Wrappers {
  datatype Option<+T> = None | Some(value: T)

  datatype Result<+T, +E> = Success(value: T) | Failure(error: E)
}

/** Sequence helpers shared by the modules. */
module Seqs {
  function Reversed<T>(s: seq<T>): (r: seq<T>)
    ensures |r| == |s|
    ensures forall i :: 0 <= i < |s| ==> r[i] == s[|s| - 1 - i]
  {
    if s == [] then [] else Reversed(s[1..]) + [s[0]]
  }

  function Elements<T>(s: seq<T>): set<T> {
    set x | x in s
  }

  predicate NoDuplicates<T(==)>(s: seq<T>) {
    forall i, j :: 0 <= i < j < |s| ==> s[i] != s[j]
  }

  lemma NoDupConcat<T>(a: seq<T>, b: seq<T>)
    requires NoDuplicates(a) && NoDuplicates(b)
    requires forall x :: x in a ==> x !in b
    ensures NoDuplicates(a + b)
  {
    forall i, j | 0 <= i < j < |a + b| ensures (a + b)[i] != (a + b)[j] {
      if i < |a| && j >= |a| {
        assert (a + b)[i] in a && (a + b)[j] in b;
      }
    }
  }

  lemma ReversedElements<T>(s: seq<T>)
    ensures Elements(Reversed(s)) == Elements(s)
  {
    var r := Reversed(s);
    forall x | x in Elements(s) ensures x in Elements(r) {
      var i :| 0 <= i < |s| && s[i] == x;
      assert r[|s| - 1 - i] == x;
    }
  }
}

/**
 * The string and path helpers the JavaScript code relies on: `indexOf` used
 * as a substring test, `substring(k)`, `replace(/\\/g, "/")`, and `path.join`,
 * `path.dirname`, `path.basename` over '/'-separated paths.
 */
module Paths {

  /** `t` occurs in `s` starting at index `i`. */
  predicate OccursAt(s: string, t: string, i: nat) {
    i + |t| <= |s| && s[i..i + |t|] == t
  }

  /** JavaScript `s.indexOf(t)`: the first index at which `t` occurs, or -1 (see `IndexOfFirst`). */
  function IndexOf(s: string, t: string): (r: int)
    ensures -1 <= r <= |s|
    ensures r >= 0 ==> OccursAt(s, t, r)
  {
    IndexFrom(s, t, 0)
  }

  /** The first index at or after `from` at which `t` occurs, or -1. */
  function IndexFrom(s: string, t: string, from: nat): (r: int)
    ensures r == -1 || (from <= r <= |s| && OccursAt(s, t, r))
    decreases |s| - from
  {
    if from + |t| > |s| then -1
    else if s[from..from + |t|] == t then from
    else IndexFrom(s, t, from + 1)
  }

  /** `indexOf` finds the first occurrence, and -1 exactly when there is none. */
  lemma IndexOfFirst(s: string, t: string)
    ensures var r := IndexOf(s, t);
      && (r >= 0 ==> forall i: nat :: i < r ==> !OccursAt(s, t, i))
      && (r < 0 <==> forall i: nat :: !OccursAt(s, t, i))
  {
    IndexFromFirst(s, t, 0);
  }

  lemma {:induction false} IndexFromFirst(s: string, t: string, from: nat)
    ensures var r := IndexFrom(s, t, from);
      && (r >= 0 ==> forall i: nat :: from <= i < r ==> !OccursAt(s, t, i))
      && (r < 0 ==> forall i: nat :: from <= i ==> !OccursAt(s, t, i))
    decreases |s| - from
  {
    if from + |t| <= |s| && s[from..from + |t|] != t {
      IndexFromFirst(s, t, from + 1);
    }
  }

  /** The first occurrence of a character is right after a prefix that does not hold it. */
  lemma IndexOfChar(a: string, c: char, b: string)
    requires c !in a
    ensures IndexOf(a + [c] + b, [c]) == |a|
  {
    var s := a + [c] + b;
    assert s[|a|..|a| + 1] == [c];
    assert OccursAt(s, [c], |a|);
    forall i: nat | i < |a| ensures !OccursAt(s, [c], i) {
      assert s[i..i + 1][0] == a[i];
    }
    IndexOfAt(s, [c], |a|);
  }

  /** An occurrence with none before it is the one `indexOf` finds. */
  lemma IndexOfAt(s: string, t: string, j: nat)
    requires OccursAt(s, t, j)
    requires forall i: nat :: i < j ==> !OccursAt(s, t, i)
    ensures IndexOf(s, t) == j
  {
    IndexOfFirst(s, t);
  }

  /** `t` is a substring of `s`, the test `s.indexOf(t) >= 0`. */
  predicate Contains(s: string, t: string) {
    IndexOf(s, t) >= 0
  }

  /** A substring of a prefix is a substring of the whole string. */
  lemma ContainsExtend(a: string, b: string, t: string)
    requires Contains(a, t)
    ensures Contains(a + b, t)
  {
    var i: nat := IndexOf(a, t);
    assert (a + b)[i..i + |t|] == a[i..i + |t|];
    assert OccursAt(a + b, t, i);
    IndexOfFirst(a + b, t);
  }

  /** JavaScript `s.substring(k)` for a single non-negative argument: clamps at the end. */
  function Substring(s: string, k: nat): (r: string)
    ensures k <= |s| ==> s == s[..k] + r
    ensures k >= |s| ==> r == ""
  {
    if k <= |s| then s[k..] else ""
  }

  /** `s.replace(/\\/g, "/")`: every backslash becomes a forward slash. */
  function Slashes(s: string): (r: string)
    ensures |r| == |s|
    ensures '\\' !in r
    ensures forall i :: 0 <= i < |s| && s[i] != '\\' ==> r[i] == s[i]
    ensures forall i :: 0 <= i < |s| && s[i] == '\\' ==> r[i] == '/'
  {
    if s == [] then []
    else [if s[0] == '\\' then '/' else s[0]] + Slashes(s[1..])
  }

  lemma {:induction false} SlashesIdentity(s: string)
    requires '\\' !in s
    ensures Slashes(s) == s
  {
    if s != [] {
      assert '\\' !in s[1..] by { assert forall c :: c in s[1..] ==> c in s; }
      SlashesIdentity(s[1..]);
      assert s == [s[0]] + s[1..];
    }
  }

  /** `path.join(a, b)` for '/'-separated paths: one separator between the two parts. */
  function Join(a: string, b: string): string {
    a + "/" + b
  }

  /** The last index of `c` in `s`, or -1 (`s.lastIndexOf(c)`). */
  function LastIndexOf(s: string, c: char): (r: int)
    ensures -1 <= r < |s|
    ensures r >= 0 ==> s[r] == c
    ensures forall i :: r < i < |s| ==> s[i] != c
    decreases |s|
  {
    if s == [] then -1
    else if s[|s| - 1] == c then |s| - 1
    else LastIndexOf(s[..|s| - 1], c)
  }

  /** `path.dirname(p)`: everything before the last separator; "." or "/" when there is none before. */
  function Dirname(p: string): string {
    var i := LastIndexOf(p, '/');
    if i < 0 then "." else if i == 0 then "/" else p[..i]
  }

  /** `path.basename(p)`: everything after the last separator. */
  function Basename(p: string): string {
    var i := LastIndexOf(p, '/');
    p[i + 1..]
  }

  /** Dirname and Basename split a path at its last separator and rejoin to it. */
  lemma DirnameBasename(p: string)
    ensures '/' !in Basename(p)
    ensures '/' !in p ==> Dirname(p) == "." && Basename(p) == p
    ensures '/' in p && LastIndexOf(p, '/') > 0 ==> Join(Dirname(p), Basename(p)) == p
  {
    var i := LastIndexOf(p, '/');
    if '/' !in p {
      assert i < 0;
    } else {
      var j :| 0 <= j < |p| && p[j] == '/';
      assert i >= j;
      if i > 0 {
        assert p == p[..i] + "/" + p[i + 1..];
      }
    }
  }

  /** The directory of `Join(a, n)` is `a` when the name `n` holds no separator. */
  lemma DirnameJoin(a: string, n: string)
    requires a != "" && '/' !in n
    ensures Dirname(Join(a, n)) == a
    ensures Basename(Join(a, n)) == n
  {
    var p := Join(a, n);
    assert p[|a|] == '/';
    var i := LastIndexOf(p, '/');
    assert forall k :: |a| < k < |p| ==> p[k] == n[k - |a| - 1];
    assert i == |a|;
    assert p[..|a|] == a;
    assert p[|a| + 1..] == n;
  }
}
