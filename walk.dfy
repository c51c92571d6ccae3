/** The bounded recursive walk that decides which directories get an update
    task (walk_and_update), as a pure function from the tree to the sequence of
    directories it visits, in the order it visits them. */
module WalkScheduler {
  import opened FsTree

  /** One call of the walk that passed the depth check: the path it was given,
      the directory that path names, and the depth it was called with. */
  datatype Visit = Visit(path: Path, dir: Dir, depth: int)

  /** The walk goes on below a visited directory unless that directory is a
      repository and nested repositories are not wanted. */
  predicate Descends(cont: bool, d: Dir) {
    cont || !IsGitDir(d)
  }

  /** One call of walk_and_update on path `p` naming directory `d`. */
  function Walk(p: Path, d: Dir, cont: bool, depth: int, maxDepth: int): (r: seq<Visit>)
    ensures r == [] <==> depth >= maxDepth
    ensures r != [] ==> r[0] == Visit(p, d, depth)
    decreases d
  {
    if depth >= maxDepth then []
    else if !Descends(cont, d) then [Visit(p, d, depth)]
    else [Visit(p, d, depth)] + WalkAll(p, d.subdirs, cont, depth + 1, maxDepth)
  }

  /** The loop over the immediate sub-directories of `p`: one call per child,
      in listing order, each at the same depth. */
  function WalkAll(p: Path, ds: seq<Dir>, cont: bool, depth: int, maxDepth: int): seq<Visit>
    decreases ds
  {
    if ds == [] then []
    else WalkAll(p, ds[..|ds| - 1], cont, depth, maxDepth)
         + Walk(p + [ds[|ds| - 1].name], ds[|ds| - 1], cont, depth, maxDepth)
  }

  /** The root paths given on the command line, walked one after the other
      from depth 0; a root that is missing or is not a directory yields nothing. */
  function WalkRoot(root: string, e: Entry, cont: bool, maxDepth: int): seq<Visit> {
    if e.Directory? then Walk([root], e.dir, cont, 0, maxDepth) else []
  }

  function WalkRoots(roots: seq<string>, fs: FileSystem, cont: bool, maxDepth: int): seq<Visit>
  {
    if roots == [] then []
    else WalkRoots(roots[..|roots| - 1], fs, cont, maxDepth)
         + WalkRoot(roots[|roots| - 1], EntryAt(fs, roots[|roots| - 1]), cont, maxDepth)
  }

  /** The paths handed to an update task: the visited repositories, in visit order. */
  function Scheduled(vs: seq<Visit>): (r: seq<Path>)
    ensures |r| <= |vs|
  {
    if vs == [] then []
    else (if IsGitDir(vs[0].dir) then [vs[0].path] else []) + Scheduled(vs[1..])
  }

  /** A path is scheduled exactly when some visit to a repository has it. */
  lemma {:induction false} ScheduledMembers(vs: seq<Visit>)
    ensures forall q :: q in Scheduled(vs) <==> exists v :: v in vs && v.path == q && IsGitDir(v.dir)
  {
    if vs != [] {
      ScheduledMembers(vs[1..]);
      assert forall v :: v in vs <==> v == vs[0] || v in vs[1..];
    }
  }

  /** `w` is the visit of a sub-directory of the directory `v` visited, one
      level deeper. */
  predicate ChildVisit(v: Visit, w: Visit) {
    w.path == v.path + [w.dir.name] && w.depth == v.depth + 1 && w.dir in v.dir.subdirs
  }

  /** A path that is a prefix of another is visited no later; in particular no
      path is visited twice. */
  ghost predicate PathOrdered(vs: seq<Visit>) {
    forall i, j :: 0 <= i < |vs| && 0 <= j < |vs| && vs[i].path <= vs[j].path ==> i <= j
  }

  ghost predicate OrderedPaths(s: seq<Path>) {
    forall i, j :: 0 <= i < |s| && 0 <= j < |s| && s[i] <= s[j] ==> i <= j
  }

  lemma {:induction false} ScheduledAppend(a: seq<Visit>, b: seq<Visit>)
    ensures Scheduled(a + b) == Scheduled(a) + Scheduled(b)
  {
    if a != [] {
      assert (a + b)[0] == a[0];
      assert (a + b)[1..] == a[1..] + b;
      ScheduledAppend(a[1..], b);
    } else {
      assert a + b == b;
    }
  }

  /** One call schedules its own path when it is a repository, then what the
      loop over its children schedules, unless it stops there. */
  lemma ScheduledWalkUnfold(p: Path, d: Dir, cont: bool, depth: int, maxDepth: int)
    requires depth < maxDepth
    ensures Scheduled(Walk(p, d, cont, depth, maxDepth)) ==
      (if IsGitDir(d) then [p] else [])
      + (if Descends(cont, d) then Scheduled(WalkAll(p, d.subdirs, cont, depth + 1, maxDepth)) else [])
  {
    if Descends(cont, d) {
      ScheduledAppend([Visit(p, d, depth)], WalkAll(p, d.subdirs, cont, depth + 1, maxDepth));
    }
  }

  /** The loop over the first i + 1 children schedules what the loop over the
      first i does, then what the call on child i does. */
  lemma ScheduledWalkAllStep(p: Path, ds: seq<Dir>, i: nat, cont: bool, depth: int, maxDepth: int)
    requires i < |ds|
    ensures Scheduled(WalkAll(p, ds[..i + 1], cont, depth, maxDepth)) ==
      Scheduled(WalkAll(p, ds[..i], cont, depth, maxDepth)) + Scheduled(Walk(p + [ds[i].name], ds[i], cont, depth, maxDepth))
  {
    assert ds[..i + 1][..i] == ds[..i];
    ScheduledAppend(WalkAll(p, ds[..i], cont, depth, maxDepth), Walk(p + [ds[i].name], ds[i], cont, depth, maxDepth));
  }

  /** The walk over the first i + 1 roots schedules what the walk over the
      first i does, then what the walk of root i does. */
  lemma ScheduledWalkRootsStep(roots: seq<string>, i: nat, fs: FileSystem, cont: bool, maxDepth: int)
    requires i < |roots|
    ensures Scheduled(WalkRoots(roots[..i + 1], fs, cont, maxDepth)) ==
      Scheduled(WalkRoots(roots[..i], fs, cont, maxDepth)) + Scheduled(WalkRoot(roots[i], EntryAt(fs, roots[i]), cont, maxDepth))
  {
    assert roots[..i + 1][..i] == roots[..i];
    ScheduledAppend(WalkRoots(roots[..i], fs, cont, maxDepth), WalkRoot(roots[i], EntryAt(fs, roots[i]), cont, maxDepth));
  }

  /** Every visit lies within the depth bound, below the path the walk was
      started on, exactly one segment deeper per level of recursion. */
  lemma {:induction false} WalkBounds(p: Path, d: Dir, cont: bool, depth: int, maxDepth: int)
    ensures forall v :: v in Walk(p, d, cont, depth, maxDepth) ==>
      depth <= v.depth < maxDepth && p <= v.path && |v.path| == |p| + (v.depth - depth)
    decreases d
  {
    if depth < maxDepth && Descends(cont, d) {
      WalkAllBounds(p, d.subdirs, cont, depth + 1, maxDepth);
    }
  }

  lemma {:induction false} WalkAllBounds(p: Path, ds: seq<Dir>, cont: bool, depth: int, maxDepth: int)
    ensures forall v :: v in WalkAll(p, ds, cont, depth, maxDepth) ==>
      depth <= v.depth < maxDepth && p <= v.path && |v.path| == |p| + 1 + (v.depth - depth)
      && exists c :: c in ds && v.path[|p|] == c.name
    decreases ds
  {
    if ds != [] {
      var init, last := ds[..|ds| - 1], ds[|ds| - 1];
      WalkAllBounds(p, init, cont, depth, maxDepth);
      WalkBounds(p + [last.name], last, cont, depth, maxDepth);
      forall v | v in WalkAll(p, ds, cont, depth, maxDepth)
        ensures exists c :: c in ds && v.path[|p|] == c.name
      {
        if v in WalkAll(p, init, cont, depth, maxDepth) {
          var c :| c in init && v.path[|p|] == c.name;
          assert c in ds;
        } else {
          assert (p + [last.name])[|p|] == last.name;
          assert v.path[|p|] == last.name;
        }
      }
    }
  }

  /** Two visits made below different children of one directory have paths
      neither of which is a prefix of the other. */
  lemma SiblingsIncomparable(p: Path, ds: seq<Dir>, cont: bool, depth: int, maxDepth: int, v: Visit, w: Visit)
    requires ds != [] && DistinctNames(ds)
    requires v in WalkAll(p, ds[..|ds| - 1], cont, depth, maxDepth)
    requires w in Walk(p + [ds[|ds| - 1].name], ds[|ds| - 1], cont, depth, maxDepth)
    ensures !(v.path <= w.path) && !(w.path <= v.path)
  {
    var init, last := ds[..|ds| - 1], ds[|ds| - 1];
    WalkAllBounds(p, init, cont, depth, maxDepth);
    WalkBounds(p + [last.name], last, cont, depth, maxDepth);
    var c :| c in init && v.path[|p|] == c.name;
    var k :| 0 <= k < |init| && init[k] == c;
    assert ds[k].name != last.name;
    assert (p + [last.name])[|p|] == last.name;
    assert w.path[|p|] == last.name;
  }

  /** Pre-order: a directory is visited before everything beneath it, and on a
      tree with unique sibling names no path is visited twice. */
  lemma {:induction false} WalkOrdered(p: Path, d: Dir, cont: bool, depth: int, maxDepth: int)
    requires WellFormed(d)
    ensures PathOrdered(Walk(p, d, cont, depth, maxDepth))
    decreases d
  {
    if depth < maxDepth && Descends(cont, d) {
      var c := WalkAll(p, d.subdirs, cont, depth + 1, maxDepth);
      WalkAllOrdered(p, d.subdirs, cont, depth + 1, maxDepth);
      WalkAllBounds(p, d.subdirs, cont, depth + 1, maxDepth);
      var w := Walk(p, d, cont, depth, maxDepth);
      forall i, j | 0 <= i < |w| && 0 <= j < |w| && w[i].path <= w[j].path
        ensures i <= j
      {
        if i > 0 && j > 0 {
          assert w[i] == c[i - 1] && w[j] == c[j - 1];
        }
      }
    }
  }

  lemma {:induction false} WalkAllOrdered(p: Path, ds: seq<Dir>, cont: bool, depth: int, maxDepth: int)
    requires DistinctNames(ds) && forall c :: c in ds ==> WellFormed(c)
    ensures PathOrdered(WalkAll(p, ds, cont, depth, maxDepth))
    decreases ds
  {
    if ds != [] {
      var init, last := ds[..|ds| - 1], ds[|ds| - 1];
      var a := WalkAll(p, init, cont, depth, maxDepth);
      var b := Walk(p + [last.name], last, cont, depth, maxDepth);
      WalkAllOrdered(p, init, cont, depth, maxDepth);
      WalkOrdered(p + [last.name], last, cont, depth, maxDepth);
      var w := a + b;
      forall i, j | 0 <= i < |w| && 0 <= j < |w| && w[i].path <= w[j].path
        ensures i <= j
      {
        if i < |a| && j < |a| {
          assert w[i] == a[i] && w[j] == a[j];
        } else if i >= |a| && j >= |a| {
          assert w[i] == b[i - |a|] && w[j] == b[j - |a|];
        } else if i >= |a| {
          assert w[i] in b && w[j] in a;
          SiblingsIncomparable(p, ds, cont, depth, maxDepth, w[j], w[i]);
        }
      }
    }
  }

  /** Without the continue flag nothing strictly below a visited repository is
      visited. */
  lemma {:induction false} WalkStopsAtRepos(p: Path, d: Dir, depth: int, maxDepth: int)
    requires WellFormed(d)
    ensures forall v, w ::
      (v in Walk(p, d, false, depth, maxDepth) && w in Walk(p, d, false, depth, maxDepth) && v.path < w.path)
      ==> !IsGitDir(v.dir)
    decreases d
  {
    if depth < maxDepth && Descends(false, d) {
      WalkAllStopsAtRepos(p, d.subdirs, depth + 1, maxDepth);
      WalkAllBounds(p, d.subdirs, false, depth + 1, maxDepth);
    }
  }

  lemma {:induction false} WalkAllStopsAtRepos(p: Path, ds: seq<Dir>, depth: int, maxDepth: int)
    requires DistinctNames(ds) && forall c :: c in ds ==> WellFormed(c)
    ensures forall v, w ::
      (v in WalkAll(p, ds, false, depth, maxDepth) && w in WalkAll(p, ds, false, depth, maxDepth) && v.path < w.path)
      ==> !IsGitDir(v.dir)
    decreases ds
  {
    if ds != [] {
      var init, last := ds[..|ds| - 1], ds[|ds| - 1];
      var a := WalkAll(p, init, false, depth, maxDepth);
      var b := Walk(p + [last.name], last, false, depth, maxDepth);
      WalkAllStopsAtRepos(p, init, depth, maxDepth);
      WalkStopsAtRepos(p + [last.name], last, depth, maxDepth);
      forall v: Visit, w: Visit | v in a + b && w in a + b && v.path < w.path
        ensures !IsGitDir(v.dir)
      {
        if v in a && w in b {
          SiblingsIncomparable(p, ds, false, depth, maxDepth, v, w);
        } else if v in b && w in a {
          SiblingsIncomparable(p, ds, false, depth, maxDepth, w, v);
        }
      }
    }
  }

  /** Every visit but the first is the visit of a sub-directory of another
      visited directory the walk descended into. */
  lemma {:induction false} WalkParents(p: Path, d: Dir, cont: bool, depth: int, maxDepth: int)
    ensures forall w :: w in Walk(p, d, cont, depth, maxDepth) && w != Visit(p, d, depth) ==>
      exists v :: v in Walk(p, d, cont, depth, maxDepth) && ChildVisit(v, w) && Descends(cont, v.dir)
    decreases d
  {
    if depth < maxDepth && Descends(cont, d) {
      var root := Visit(p, d, depth);
      var c := WalkAll(p, d.subdirs, cont, depth + 1, maxDepth);
      WalkAllParents(p, d.subdirs, cont, depth + 1, maxDepth);
      forall w | w in c
        ensures exists v :: v in [root] + c && ChildVisit(v, w) && Descends(cont, v.dir)
      {
        if w.path == p + [w.dir.name] && w.depth == depth + 1 && w.dir in d.subdirs {
          assert ChildVisit(root, w);
        }
      }
    }
  }

  lemma {:induction false} WalkAllParents(p: Path, ds: seq<Dir>, cont: bool, depth: int, maxDepth: int)
    ensures forall w :: w in WalkAll(p, ds, cont, depth, maxDepth) ==>
      (w.path == p + [w.dir.name] && w.depth == depth && w.dir in ds) ||
      exists v :: v in WalkAll(p, ds, cont, depth, maxDepth) && ChildVisit(v, w) && Descends(cont, v.dir)
    decreases ds
  {
    if ds != [] {
      var init, last := ds[..|ds| - 1], ds[|ds| - 1];
      WalkAllParents(p, init, cont, depth, maxDepth);
      WalkParents(p + [last.name], last, cont, depth, maxDepth);
    }
  }

  /** Each walk of a child contributes all its visits to the loop over the children. */
  lemma {:induction false} WalkAllIncludes(p: Path, ds: seq<Dir>, c: Dir, cont: bool, depth: int, maxDepth: int)
    requires c in ds
    ensures forall v :: v in Walk(p + [c.name], c, cont, depth, maxDepth) ==> v in WalkAll(p, ds, cont, depth, maxDepth)
    decreases ds
  {
    if c != ds[|ds| - 1] {
      WalkAllIncludes(p, ds[..|ds| - 1], c, cont, depth, maxDepth);
    }
  }

  /** The walk descends into every immediate sub-directory of a directory it
      does not stop at, one level deeper, while that depth is in bound. */
  lemma {:induction false} WalkReachesChildren(p: Path, d: Dir, cont: bool, depth: int, maxDepth: int, v: Visit, c: Dir)
    requires v in Walk(p, d, cont, depth, maxDepth) && Descends(cont, v.dir)
    requires v.depth + 1 < maxDepth && c in v.dir.subdirs
    ensures Visit(v.path + [c.name], c, v.depth + 1) in Walk(p, d, cont, depth, maxDepth)
    decreases d
  {
    var root := Visit(p, d, depth);
    var rest := WalkAll(p, d.subdirs, cont, depth + 1, maxDepth);
    assert Walk(p, d, cont, depth, maxDepth) == [root] + rest;
    if v == root {
      WalkReachesOwnChildren(p, d, c, cont, depth, maxDepth);
    } else {
      WalkAllReachesChildren(p, d.subdirs, cont, depth + 1, maxDepth, v, c);
    }
  }

  lemma {:induction false} WalkAllReachesChildren(p: Path, ds: seq<Dir>, cont: bool, depth: int, maxDepth: int, v: Visit, c: Dir)
    requires v in WalkAll(p, ds, cont, depth, maxDepth) && Descends(cont, v.dir)
    requires v.depth + 1 < maxDepth && c in v.dir.subdirs
    ensures Visit(v.path + [c.name], c, v.depth + 1) in WalkAll(p, ds, cont, depth, maxDepth)
    decreases ds
  {
    var init, last := ds[..|ds| - 1], ds[|ds| - 1];
    var a := WalkAll(p, init, cont, depth, maxDepth);
    var b := Walk(p + [last.name], last, cont, depth, maxDepth);
    assert WalkAll(p, ds, cont, depth, maxDepth) == a + b;
    if v in a {
      WalkAllReachesChildren(p, init, cont, depth, maxDepth, v, c);
    } else {
      WalkReachesChildren(p + [last.name], last, cont, depth, maxDepth, v, c);
    }
  }

  /** The children of the directory a walk starts at are visited. */
  lemma WalkReachesOwnChildren(p: Path, d: Dir, c: Dir, cont: bool, depth: int, maxDepth: int)
    requires depth + 1 < maxDepth && Descends(cont, d) && c in d.subdirs
    ensures Visit(p + [c.name], c, depth + 1) in Walk(p, d, cont, depth, maxDepth)
  {
    var rest := WalkAll(p, d.subdirs, cont, depth + 1, maxDepth);
    assert Walk(p, d, cont, depth, maxDepth) == [Visit(p, d, depth)] + rest;
    WalkAllIncludes(p, d.subdirs, c, cont, depth + 1, maxDepth);
    var wc := Walk(p + [c.name], c, cont, depth + 1, maxDepth);
    assert wc[0] in wc;
  }

  /** With the continue flag a repository's own `.git` metadata directory is an
      ordinary child: the walk descends into it. */
  lemma DescendsIntoGitMetadata(p: Path, d: Dir, g: Dir, depth: int, maxDepth: int)
    requires depth + 1 < maxDepth && g in d.subdirs && g.name == GitEntry
    ensures IsGitDir(d)
    ensures Visit(p + [GitEntry], g, depth + 1) in Walk(p, d, true, depth, maxDepth)
  {
    WalkReachesOwnChildren(p, d, g, true, depth, maxDepth);
  }

  /** The scheduled paths inherit the visit order: a repository is scheduled
      before any repository nested below it, and none is scheduled twice. */
  lemma {:induction false} ScheduledOrdered(vs: seq<Visit>)
    requires PathOrdered(vs)
    ensures OrderedPaths(Scheduled(vs))
    ensures NoDuplicates(Scheduled(vs))
  {
    ScheduledOrderedPaths(vs);
    OrderedPathsDistinct(Scheduled(vs));
  }

  lemma {:induction false} ScheduledOrderedPaths(vs: seq<Visit>)
    requires PathOrdered(vs)
    ensures OrderedPaths(Scheduled(vs))
  {
    if vs != [] {
      PathOrderedTail(vs);
      ScheduledOrderedPaths(vs[1..]);
      var t := Scheduled(vs[1..]);
      var s := Scheduled(vs);
      if IsGitDir(vs[0].dir) {
        assert s == [vs[0].path] + t;
        ScheduledAfterHead(vs);
        forall i | 0 < i < |s|
          ensures !(s[i] <= s[0])
        {
          assert s[i] == t[i - 1];
        }
        forall i, j | 0 <= i < |s| && 0 <= j < |s| && s[i] <= s[j]
          ensures i <= j
        {
          if i > 0 && j > 0 {
            assert s[i] == t[i - 1] && s[j] == t[j - 1];
          }
        }
      } else {
        assert s == t;
      }
    }
  }

  lemma PathOrderedTail(vs: seq<Visit>)
    requires vs != [] && PathOrdered(vs)
    ensures PathOrdered(vs[1..])
  {
    var t := vs[1..];
    forall i, j | 0 <= i < |t| && 0 <= j < |t| && t[i].path <= t[j].path
      ensures i <= j
    {
      assert t[i] == vs[i + 1] && t[j] == vs[j + 1];
    }
  }

  /** Nothing scheduled after the first visit has a path that is a prefix of
      the first visit's path. */
  lemma ScheduledAfterHead(vs: seq<Visit>)
    requires vs != [] && PathOrdered(vs)
    ensures forall k :: 0 <= k < |Scheduled(vs[1..])| ==> !(Scheduled(vs[1..])[k] <= vs[0].path)
  {
    var t := Scheduled(vs[1..]);
    ScheduledMembers(vs[1..]);
    forall k | 0 <= k < |t|
      ensures !(t[k] <= vs[0].path)
    {
      assert t[k] in t;
      var v :| v in vs[1..] && v.path == t[k] && IsGitDir(v.dir);
      var m :| 0 <= m < |vs| - 1 && vs[1..][m] == v;
      assert vs[m + 1] == v;
    }
  }

  lemma OrderedPathsDistinct(s: seq<Path>)
    requires OrderedPaths(s)
    ensures NoDuplicates(s)
  {
  }

  /** A walk started on several roots visits, from each root path, only
      directories within the depth bound; the depth of a visit is its number of
      segments below the root. */
  lemma {:induction false} WalkRootsBounds(roots: seq<string>, fs: FileSystem, cont: bool, maxDepth: int)
    ensures forall v :: v in WalkRoots(roots, fs, cont, maxDepth) ==>
      0 <= v.depth < maxDepth && |v.path| == v.depth + 1 && v.path[0] in roots
  {
    if roots != [] {
      var init, last := roots[..|roots| - 1], roots[|roots| - 1];
      WalkRootsBounds(init, fs, cont, maxDepth);
      if EntryAt(fs, last).Directory? {
        WalkBounds([last], EntryAt(fs, last).dir, cont, 0, maxDepth);
      }
    }
  }

  /** No task is scheduled at all when the depth bound is not positive. */
  lemma {:induction false} WalkRootsNonPositiveDepth(roots: seq<string>, fs: FileSystem, cont: bool, maxDepth: int)
    requires maxDepth <= 0
    ensures WalkRoots(roots, fs, cont, maxDepth) == []
    ensures Scheduled(WalkRoots(roots, fs, cont, maxDepth)) == []
  {
    if roots != [] {
      WalkRootsNonPositiveDepth(roots[..|roots| - 1], fs, cont, maxDepth);
    }
  }

  /** With distinct root paths over real trees, the whole walk is in pre-order
      and visits no path twice. */
  lemma {:induction false} WalkRootsOrdered(roots: seq<string>, fs: FileSystem, cont: bool, maxDepth: int)
    requires NoDuplicates(roots)
    requires forall r :: r in roots && EntryAt(fs, r).Directory? ==> WellFormed(EntryAt(fs, r).dir)
    ensures PathOrdered(WalkRoots(roots, fs, cont, maxDepth))
  {
    if roots != [] {
      var init, last := roots[..|roots| - 1], roots[|roots| - 1];
      var a := WalkRoots(init, fs, cont, maxDepth);
      var b := WalkRoot(last, EntryAt(fs, last), cont, maxDepth);
      WalkRootsOrdered(init, fs, cont, maxDepth);
      WalkRootsBounds(init, fs, cont, maxDepth);
      if EntryAt(fs, last).Directory? {
        WalkOrdered([last], EntryAt(fs, last).dir, cont, 0, maxDepth);
        WalkBounds([last], EntryAt(fs, last).dir, cont, 0, maxDepth);
      }
      var w := a + b;
      forall i, j | 0 <= i < |w| && 0 <= j < |w| && w[i].path <= w[j].path
        ensures i <= j
      {
        if i < |a| && j < |a| {
          assert w[i] == a[i] && w[j] == a[j];
        } else if i >= |a| && j >= |a| {
          assert w[i] == b[i - |a|] && w[j] == b[j - |a|];
        }
      }
    }
  }

  /** Every visit of the walk over several roots is a visit of the walk from
      the root path its own path starts with. */
  lemma {:induction false} WalkRootsVisitFromRoot(roots: seq<string>, fs: FileSystem, cont: bool, maxDepth: int, v: Visit)
    requires v in WalkRoots(roots, fs, cont, maxDepth)
    ensures 1 <= |v.path| && v.path[0] in roots
    ensures v in WalkRoot(v.path[0], EntryAt(fs, v.path[0]), cont, maxDepth)
  {
    var init, last := roots[..|roots| - 1], roots[|roots| - 1];
    if v in WalkRoots(init, fs, cont, maxDepth) {
      WalkRootsVisitFromRoot(init, fs, cont, maxDepth, v);
    } else if EntryAt(fs, last).Directory? {
      WalkBounds([last], EntryAt(fs, last).dir, cont, 0, maxDepth);
      assert v.path[0] == last;
    }
  }

  /** Over real trees and without the continue flag, nothing strictly below a
      visited repository is visited, from any root, even a root given twice. */
  lemma WalkRootsStopAtRepos(roots: seq<string>, fs: FileSystem, maxDepth: int)
    requires forall r :: r in roots && EntryAt(fs, r).Directory? ==> WellFormed(EntryAt(fs, r).dir)
    ensures forall v, w ::
      (v in WalkRoots(roots, fs, false, maxDepth) && w in WalkRoots(roots, fs, false, maxDepth) && v.path < w.path)
      ==> !IsGitDir(v.dir)
  {
    forall v: Visit, w: Visit |
      v in WalkRoots(roots, fs, false, maxDepth) && w in WalkRoots(roots, fs, false, maxDepth) && v.path < w.path
      ensures !IsGitDir(v.dir)
    {
      WalkRootsVisitFromRoot(roots, fs, false, maxDepth, v);
      WalkRootsVisitFromRoot(roots, fs, false, maxDepth, w);
      var r := v.path[0];
      assert w.path[0] == r;
      var e := EntryAt(fs, r);
      if e.Directory? {
        WalkStopsAtRepos([r], e.dir, 0, maxDepth);
      }
    }
  }

  /** The same root path given twice is walked twice: a repository at that
      path gets two tasks. Distinct root paths are what keeps tasks unique. */
  lemma DuplicateRootScheduledTwice(r: string, fs: FileSystem, maxDepth: int)
    requires EntryAt(fs, r).Directory? && IsGitDir(EntryAt(fs, r).dir) && 0 < maxDepth
    ensures Scheduled(WalkRoots([r, r], fs, false, maxDepth)) == [[r], [r]]
    ensures !NoDuplicates(Scheduled(WalkRoots([r, r], fs, false, maxDepth)))
  {
    var d := EntryAt(fs, r).dir;
    var one := WalkRoot(r, EntryAt(fs, r), false, maxDepth);
    assert one == [Visit([r], d, 0)];
    var roots := [r, r];
    assert roots[..1] == [r] && roots[..1][..0] == [];
    assert WalkRoots([r], fs, false, maxDepth) == one;
    assert WalkRoots(roots, fs, false, maxDepth) == one + one;
    ScheduledAppend(one, one);
    assert one[1..] == [];
    assert Scheduled(one) == [[r]];
    var s: seq<Path> := [[r], [r]];
    assert s[0] == s[1];
  }
}
