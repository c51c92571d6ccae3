/** The part of the filesystem the walk looks at, as a finite tree of values. */
module FsTree {

  /** A directory as one listing shows it: its own name, the names of its
      entries that are not directories, and its sub-directories in the order
      the listing yields them. */
  datatype Dir = Dir(name: string, files: seq<string>, subdirs: seq<Dir>)

  /** What a root path named on the command line denotes. */
  datatype Entry = Missing | NotDirectory | Directory(dir: Dir)

  /** A path as the sequence of its segments: the root path as given, then
      one directory name per level below it. */
  type Path = seq<string>

  const GitEntry: string := ".git"

  /** A directory holds a `.git` entry directly under it, of any kind: a
      metadata directory or a plain file (as a worktree or a submodule has). */
  predicate IsGitDir(d: Dir) {
    GitEntry in d.files || exists c :: c in d.subdirs && c.name == GitEntry
  }

  /** The names one listing of the directory shows: its files, then its
      sub-directories. */
  function EntryNames(d: Dir): seq<string> {
    d.files + seq(|d.subdirs|, i requires 0 <= i < |d.subdirs| => d.subdirs[i].name)
  }

  /** A directory is a repository exactly when `.git` names one of its
      entries, whatever kind of entry that is. */
  lemma GitDirHasEntry(d: Dir)
    ensures IsGitDir(d) <==> GitEntry in EntryNames(d)
  {
    var names := EntryNames(d);
    if IsGitDir(d) && GitEntry !in d.files {
      var c :| c in d.subdirs && c.name == GitEntry;
      var k :| 0 <= k < |d.subdirs| && d.subdirs[k] == c;
      assert names[|d.files| + k] == GitEntry;
    }
    if GitEntry in names && GitEntry !in d.files {
      var k :| 0 <= k < |names| && names[k] == GitEntry;
      assert k >= |d.files|;
      assert d.subdirs[k - |d.files|].name == GitEntry;
    }
  }

  /** No two sub-directories of one directory share a name. */
  predicate DistinctNames(ds: seq<Dir>) {
    forall i, j :: 0 <= i < j < |ds| ==> ds[i].name != ds[j].name
  }

  /** What every real directory tree satisfies: names are unique among
      siblings, at every level. */
  predicate WellFormed(d: Dir)
    decreases d
  {
    DistinctNames(d.subdirs) && forall c :: c in d.subdirs ==> WellFormed(c)
  }

  predicate NoDuplicates<T(==)>(s: seq<T>) {
    forall i, j :: 0 <= i < j < |s| ==> s[i] != s[j]
  }

  /** What each root path given on the command line denotes; a path the map
      lacks does not exist. */
  type FileSystem = map<string, Entry>

  function EntryAt(fs: FileSystem, path: string): Entry {
    if path in fs then fs[path] else Missing
  }

  lemma AppendAssoc<T>(a: seq<T>, b: seq<T>, c: seq<T>)
    ensures (a + b) + c == a + (b + c)
  {
  }

  /** Joins two path strings the way POSIX `os.path.join` does. */
  function Join(a: string, b: string): (r: string)
    ensures a <= r || r == b
    ensures |r| >= |b| && r[|r| - |b|..] == b
  {
    if |b| > 0 && b[0] == '/' then b
    else if a == [] || a[|a| - 1] == '/' then a + b
    else a + "/" + b
  }

  /** The string the program builds for a path: the root as given, with each
      directory name joined on in turn. */
  function Render(p: Path): string
  {
    if p == [] then "" else Join(Render(p[..|p| - 1]), p[|p| - 1])
  }

  /** The directory names below the root, separated by "/". */
  function Slashed(names: seq<string>): string {
    if names == [] then ""
    else if |names| == 1 then names[0]
    else Slashed(names[..|names| - 1]) + "/" + names[|names| - 1]
  }

  /** A root path followed by a separator, unless it is empty or already ends
      with one. */
  function WithSep(r: string): string {
    if r == [] || r[|r| - 1] == '/' then r else r + "/"
  }

  /** What a directory name as a listing yields is: not empty, and free of
      separators. */
  predicate PlainName(n: string) {
    n != [] && forall k :: 0 <= k < |n| ==> n[k] != '/'
  }

  /** Joining on a plain name puts a separator in only where one is missing,
      and the result ends with that name, so not with a separator. */
  lemma JoinPlain(a: string, n: string)
    requires PlainName(n)
    ensures Join(a, n) == WithSep(a) + n
    ensures Join(a, n) != [] && Join(a, n)[|Join(a, n)| - 1] != '/'
  {
    assert n[|n| - 1] != '/';
  }

  /** A path of one segment is printed as the root path was given. */
  lemma RenderRoot(r: string)
    ensures Render([r]) == r
  {
    var q: Path := [r];
    assert q[..0] == [];
    assert "" + r == r;
  }

  /** The first name below a root is joined on after a separator, unless the
      root ends with one. */
  lemma RenderOneName(r: string, n: string)
    requires PlainName(n)
    ensures Render([r, n]) == WithSep(r) + n
  {
    var p: Path := [r, n];
    assert p[..1] == [r];
    RenderRoot(r);
    JoinPlain(r, n);
  }

  /** Below the first name, each further plain name is joined on after a
      separator. */
  lemma RenderStep(p: Path)
    requires |p| >= 3 && PlainName(p[|p| - 1]) && PlainName(p[|p| - 2])
    ensures Render(p) == Render(p[..|p| - 1]) + "/" + p[|p| - 1]
  {
    var q := p[..|p| - 1];
    assert q[|q| - 1] == p[|p| - 2];
    JoinPlain(Render(q[..|q| - 1]), q[|q| - 1]);
    JoinPlain(Render(q), p[|p| - 1]);
  }

  /** The printed path of a root and one or more directory names below it is
      the root, a separator unless the root ends with one, then the names
      joined by "/". */
  lemma {:induction false} RenderSegments(p: Path)
    requires |p| >= 2
    requires forall i :: 1 <= i < |p| ==> PlainName(p[i])
    ensures Render(p) == WithSep(p[0]) + Slashed(p[1..])
    decreases |p|
  {
    if |p| == 2 {
      assert PlainName(p[1]);
      assert p == [p[0], p[1]] && p[1..] == [p[1]];
      RenderOneName(p[0], p[1]);
    } else {
      var q, n := p[..|p| - 1], p[|p| - 1];
      assert forall i :: 1 <= i < |q| ==> q[i] == p[i];
      RenderSegments(q);
      assert PlainName(p[|p| - 1]) && PlainName(p[|p| - 2]);
      RenderStep(p);
      var ns := p[1..];
      assert ns[..|ns| - 1] == q[1..] && ns[|ns| - 1] == n;
      var w, s := WithSep(p[0]), Slashed(q[1..]);
      assert Slashed(ns) == s + "/" + n;
      calc {
        Render(p);
        (w + s) + "/" + n;
        { AppendAssoc(w + s, "/", n); AppendAssoc(w, s, "/" + n); AppendAssoc(s, "/", n); }
        w + (s + "/" + n);
      }
    }
  }
}
