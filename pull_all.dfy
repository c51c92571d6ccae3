/** One run of the program: fold the command line into a configuration, walk
    every root path starting a task per repository found, run the tasks, and
    report the dirty repositories. */
module PullAll {
  import opened FsTree
  import opened WalkScheduler
  import opened RepoUpdate
  import opened Sessions
  import opened CliConfig
  import opened DirtyReport

  /** How a run ends: after printing usage, on a bad `-d` value, or after
      walking, updating and reporting. */
  datatype RunResult =
    | ShowUsage
    | BadDepthValue(value: string)
    | Completed(tasks: seq<Path>, pulled: seq<Path>, dirty: seq<Path>, report: seq<string>)

  /** The tasks a configuration starts, given what each root path denotes. */
  function TasksOf(c: Config, fs: FileSystem): seq<Path> {
    Scheduled(WalkRoots(c.paths, fs, c.cont, c.maxDepth))
  }

  /** What main does, given the positional arguments and options, what each
      root path denotes, and the status each repository reports. */
  function RunSpec(args: seq<string>, opts: seq<Opt>, fs: FileSystem, status: Path -> RepoStatus): RunResult {
    match Configure(args, opts)
    case Help => ShowUsage
    case BadDepth(v) => BadDepthValue(v)
    case Ready(c) =>
      var tasks := TasksOf(c, fs);
      var dirty := DirtyOf(tasks, status);
      Completed(tasks, PulledOf(tasks, status), dirty, ReportLines(dirty))
  }

  /** main, step by step, on the lists it owns. */
  method Run(args: seq<string>, opts: seq<Opt>, fs: FileSystem, status: Path -> RepoStatus)
    returns (r: RunResult)
    ensures r == RunSpec(args, opts, fs, status)
  {
    var parsed := ParseOptions(args, opts);
    match parsed
    case Help =>
      r := ShowUsage;
    case BadDepth(v) =>
      r := BadDepthValue(v);
    case Ready(c) =>
      var session := new Session();
      session.WalkRootsAndUpdate(c.paths, fs, c.cont, c.maxDepth);
      ghost var tasks := TasksOf(c, fs);
      assert session.tasks == tasks;
      session.RunTasks(status);
      assert session.dirty == DirtyOf(tasks, status);
      assert session.pulled == PulledOf(tasks, status);
      var lines := PrintReport(session.dirty);
      r := Completed(session.tasks, session.pulled, session.dirty, lines);
  }

  /** What a finished run did: every task is for a repository within the depth
      bound; the dirty list holds exactly the dirty repositories among the
      tasks and the pulls exactly the clean ones; the report is empty exactly
      when the dirty list is. */
  lemma RunCompleted(args: seq<string>, opts: seq<Opt>, fs: FileSystem, status: Path -> RepoStatus)
    requires RunSpec(args, opts, fs, status).Completed?
    ensures var r := RunSpec(args, opts, fs, status);
      var c := Configure(args, opts).config;
      && (forall q :: q in r.tasks ==> 1 <= |q| <= c.maxDepth && q[0] in c.paths)
      && (forall q :: q in r.tasks ==>
            exists v :: v in WalkRoots(c.paths, fs, c.cont, c.maxDepth) && v.path == q && IsGitDir(v.dir))
      && (forall q :: q in r.dirty <==> q in r.tasks && status(q) == Dirty)
      && (forall q :: q in r.pulled <==> q in r.tasks && status(q) == Clean)
      && (r.report == [] <==> r.dirty == [])
  {
    var c := Configure(args, opts).config;
    var vs := WalkRoots(c.paths, fs, c.cont, c.maxDepth);
    WalkRootsBounds(c.paths, fs, c.cont, c.maxDepth);
    ScheduledMembers(vs);
    OutcomeMembers(Scheduled(vs), status);
    ReportShape(DirtyOf(Scheduled(vs), status));
  }

  /** A depth bound that is not positive starts no task and reports nothing. */
  lemma RunNonPositiveDepth(args: seq<string>, opts: seq<Opt>, fs: FileSystem, status: Path -> RepoStatus)
    requires Configure(args, opts).Ready? && Configure(args, opts).config.maxDepth <= 0
    ensures RunSpec(args, opts, fs, status) == Completed([], [], [], [])
  {
    var c := Configure(args, opts).config;
    WalkRootsNonPositiveDepth(c.paths, fs, c.cont, c.maxDepth);
  }

  /** With distinct root paths over real trees, each repository gets at most
      one task, is listed dirty at most once and pulled at most once, and a
      repository's task comes before that of any repository nested in it. */
  lemma RunOnceEach(args: seq<string>, opts: seq<Opt>, fs: FileSystem, status: Path -> RepoStatus)
    requires Configure(args, opts).Ready? && NoDuplicates(Configure(args, opts).config.paths)
    requires forall r :: EntryAt(fs, r).Directory? ==> WellFormed(EntryAt(fs, r).dir)
    ensures var r := RunSpec(args, opts, fs, status);
      && NoDuplicates(r.tasks) && NoDuplicates(r.dirty) && NoDuplicates(r.pulled)
      && forall i, j :: 0 <= i < |r.tasks| && 0 <= j < |r.tasks| && r.tasks[i] < r.tasks[j] ==> i < j
  {
    var c := Configure(args, opts).config;
    var vs := WalkRoots(c.paths, fs, c.cont, c.maxDepth);
    WalkRootsOrdered(c.paths, fs, c.cont, c.maxDepth);
    ScheduledOrdered(vs);
    OutcomeNoDuplicates(Scheduled(vs), status);
  }

  /** Without `-c`, no repository nested inside another repository that got
      a task gets one itself, as paths below one root path. */
  lemma RunWithoutContinue(args: seq<string>, opts: seq<Opt>, fs: FileSystem, status: Path -> RepoStatus)
    requires Configure(args, opts).Ready?
    requires forall r :: EntryAt(fs, r).Directory? ==> WellFormed(EntryAt(fs, r).dir)
    requires forall i :: 0 <= i < |opts| ==> opts[i].flag != "-c"
    ensures var r := RunSpec(args, opts, fs, status);
      forall p, q :: p in r.tasks && q in r.tasks ==> !(p < q)
  {
    var c := Configure(args, opts).config;
    ConfigureContinue(args, opts);
    var vs := WalkRoots(c.paths, fs, c.cont, c.maxDepth);
    WalkRootsStopAtRepos(c.paths, fs, c.maxDepth);
    ScheduledMembers(vs);
  }

  /** A scenario: three sibling directories under ".", a clean repository
      "a", a dirty one "b" and a plain directory "c". */
  const MetaDir: Dir := Dir(".git", [], [])
  const RepoA: Dir := Dir("a", [], [MetaDir])
  const RepoB: Dir := Dir("b", [], [MetaDir])
  const PlainC: Dir := Dir("c", ["notes.txt"], [])
  const Top: Dir := Dir(".", [], [RepoA, RepoB, PlainC])

  /** Without `-c` the walk visits "." and its three children, and does not
      enter the repositories' metadata directories. */
  lemma ScenarioWalk()
    ensures Walk(["."], Top, false, 0, 10) ==
      [Visit(["."], Top, 0), Visit([".", "a"], RepoA, 1), Visit([".", "b"], RepoB, 1), Visit([".", "c"], PlainC, 1)]
  {
    assert !IsGitDir(Top);
    ScenarioChildren();
  }

  /** The loop over the children of ".": each child is visited once, and none
      is descended into. */
  lemma ScenarioChildren()
    ensures WalkAll(["."], Top.subdirs, false, 1, 10) ==
      [Visit([".", "a"], RepoA, 1), Visit([".", "b"], RepoB, 1), Visit([".", "c"], PlainC, 1)]
  {
    assert IsGitDir(RepoA) && IsGitDir(RepoB) && !IsGitDir(PlainC);
    var ds := Top.subdirs;
    var p: Path := ["."];
    assert p + ["a"] == [".", "a"] && p + ["b"] == [".", "b"] && p + ["c"] == [".", "c"];
    assert Walk([".", "a"], RepoA, false, 1, 10) == [Visit([".", "a"], RepoA, 1)];
    assert Walk([".", "b"], RepoB, false, 1, 10) == [Visit([".", "b"], RepoB, 1)];
    assert Walk([".", "c"], PlainC, false, 1, 10) == [Visit([".", "c"], PlainC, 1)] by {
      assert WalkAll([".", "c"], PlainC.subdirs, false, 2, 10) == [];
    }
    assert ds[..1][..0] == [] && ds[..2][..1] == ds[..1] && ds[..3][..2] == ds[..2] && ds[..3] == ds;
    assert WalkAll(p, ds[..1], false, 1, 10) == [Visit([".", "a"], RepoA, 1)];
    assert WalkAll(p, ds[..2], false, 1, 10) == [Visit([".", "a"], RepoA, 1), Visit([".", "b"], RepoB, 1)];
  }

  /** Of those four visits, the two repositories get tasks, in order. */
  lemma ScenarioScheduled()
    ensures Scheduled([Visit(["."], Top, 0), Visit([".", "a"], RepoA, 1), Visit([".", "b"], RepoB, 1), Visit([".", "c"], PlainC, 1)])
      == [[".", "a"], [".", "b"]]
  {
    var v0, va, vb, vc := Visit(["."], Top, 0), Visit([".", "a"], RepoA, 1), Visit([".", "b"], RepoB, 1), Visit([".", "c"], PlainC, 1);
    assert IsGitDir(RepoA) && IsGitDir(RepoB) && !IsGitDir(PlainC) && !IsGitDir(Top);
    assert [v0, va, vb, vc][1..] == [va, vb, vc] && [va, vb, vc][1..] == [vb, vc] && [vb, vc][1..] == [vc] && [vc][1..] == [];
    assert Scheduled([vc]) == [];
    assert Scheduled([vb, vc]) == [[".", "b"]];
    assert Scheduled([va, vb, vc]) == [[".", "a"], [".", "b"]];
  }

  /** The tasks' outcomes in that scenario. */
  lemma ScenarioOutcome(status: Path -> RepoStatus)
    requires status([".", "a"]) == Clean && status([".", "b"]) == Dirty
    ensures DirtyOf([[".", "a"], [".", "b"]], status) == [[".", "b"]]
    ensures PulledOf([[".", "a"], [".", "b"]], status) == [[".", "a"]]
  {
    var tasks: seq<Path> := [[".", "a"], [".", "b"]];
    assert tasks[..1] == [[".", "a"]] && tasks[..1][..0] == [];
  }

  /** The string the program builds for the root path ".". */
  lemma ScenarioRenderRoot()
    ensures Render(["."]) == "."
  {
    var q: Path := ["."];
    assert q[..0] == [];
    assert "" + "." == ".";
  }

  /** The string the program builds for the dirty repository's path. */
  lemma ScenarioRender()
    ensures Render([".", "b"]) == "./b"
  {
    var p: Path := [".", "b"];
    assert p[..1] == ["."];
    ScenarioRenderRoot();
    assert "." + "/" + "b" == "./b";
  }

  /** The report printed in that scenario. */
  lemma ScenarioReport()
    ensures ReportLines([[".", "b"]]) == [Header, DirtyLine("./b")]
  {
    var dirty: seq<Path> := [[".", "b"]];
    assert dirty[..0] == [];
    ScenarioRender();
  }

  /** With no arguments and no options, "a" is pulled, "b" is reported and
      "c" gets no task. */
  lemma ThreeSiblings(fs: FileSystem, status: Path -> RepoStatus)
    requires EntryAt(fs, ".") == Directory(Top)
    requires status([".", "a"]) == Clean && status([".", "b"]) == Dirty
    ensures RunSpec([], [], fs, status) == Completed([[".", "a"], [".", "b"]], [[".", "a"]], [[".", "b"]],
                                                     [Header, DirtyLine("./b")])
  {
    assert Configure([], []) == Ready(Config(["."], false, 10));
    var roots: seq<string> := ["."];
    assert roots[..0] == [];
    assert WalkRoots(roots, fs, false, 10) == Walk(["."], Top, false, 0, 10);
    ScenarioWalk();
    ScenarioScheduled();
    ScenarioOutcome(status);
    ScenarioReport();
  }
  /** A second scenario: a directory holding one repository "x", and a
      repository holding the repository "x". */
  const RepoX: Dir := Dir("x", [], [MetaDir])
  const Holder: Dir := Dir("h", [], [RepoX])
  const Outer: Dir := Dir("o", [], [MetaDir, RepoX])

  /** Walked from any root path, the holder yields one task, for "x". */
  lemma HolderScheduled(root: string, maxDepth: int)
    requires 2 <= maxDepth
    ensures Scheduled(WalkRoot(root, Directory(Holder), false, maxDepth)) == [[root, "x"]]
  {
    var p: Path := [root];
    assert p + ["x"] == [root, "x"];
    assert !IsGitDir(Holder) && IsGitDir(RepoX);
    var ds := Holder.subdirs;
    assert ds[..0] == [] && ds[..1] == ds;
    assert WalkAll(p, ds, false, 1, maxDepth) == [Visit([root, "x"], RepoX, 1)];
    var vs := [Visit(p, Holder, 0), Visit([root, "x"], RepoX, 1)];
    assert Walk(p, Holder, false, 0, maxDepth) == vs;
    assert vs[1..] == [Visit([root, "x"], RepoX, 1)] && vs[1..][1..] == [];
  }

  /** Without `-c`, a repository walked from a root path yields the one task
      for that root path. */
  lemma RepoRootScheduled(root: string, d: Dir, maxDepth: int)
    requires IsGitDir(d) && 1 <= maxDepth
    ensures Scheduled(WalkRoot(root, Directory(d), false, maxDepth)) == [[root]]
  {
    var vs := Walk([root], d, false, 0, maxDepth);
    assert vs == [Visit([root], d, 0)];
    assert vs[1..] == [];
  }

  /** Two root paths schedule what the first does, then what the second does. */
  lemma TwoRootsScheduled(r1: string, r2: string, fs: FileSystem, cont: bool, maxDepth: int)
    ensures Scheduled(WalkRoots([r1, r2], fs, cont, maxDepth))
      == Scheduled(WalkRoot(r1, EntryAt(fs, r1), cont, maxDepth)) + Scheduled(WalkRoot(r2, EntryAt(fs, r2), cont, maxDepth))
  {
    var roots := [r1, r2];
    var wa := WalkRoot(r1, EntryAt(fs, r1), cont, maxDepth);
    var wb := WalkRoot(r2, EntryAt(fs, r2), cont, maxDepth);
    assert roots[..1] == [r1] && roots[..1][..0] == [];
    assert WalkRoots(roots[..1], fs, cont, maxDepth) == wa;
    assert WalkRoots(roots, fs, cont, maxDepth) == wa + wb;
    ScheduledAppend(wa, wb);
  }

  /** A child "x" of the root path r is printed as r/x, when r does not end
      with a separator. */
  lemma RenderChild(r: string)
    requires r != [] && r[|r| - 1] != '/'
    ensures Render([r, "x"]) == r + "/x"
  {
    var q: Path := [r, "x"];
    assert q[..1] == [r];
    RenderRoot(r);
  }

  /** The same child of the root paths r and r/ is printed as the same string. */
  lemma OverlappingRootsRender(r: string)
    requires r != [] && r[|r| - 1] != '/'
    ensures Render([r, "x"]) == r + "/x" && Render([r + "/", "x"]) == r + "/x"
  {
    RenderChild(r);
    var q: Path := [r + "/", "x"];
    assert q[..1] == [r + "/"];
    RenderRoot(r + "/");
    assert (r + "/")[|r + "/"| - 1] == '/';
    assert r + "/" + "x" == r + "/x";
  }

  /** The root paths r and r/ are distinct strings. */
  lemma RootSpellingsDistinct(r: string)
    ensures NoDuplicates([r, r + "/"])
  {
    var roots := [r, r + "/"];
    assert |roots[1]| != |roots[0]|;
  }

  /** The root paths r and r/, both naming the holder, each give a task for
      its repository "x". */
  lemma OverlappingRootsTasks(fs: FileSystem, r: string, maxDepth: int)
    requires 2 <= maxDepth
    requires EntryAt(fs, r) == Directory(Holder) && EntryAt(fs, r + "/") == Directory(Holder)
    ensures TasksOf(Config([r, r + "/"], false, maxDepth), fs) == [[r, "x"], [r + "/", "x"]]
  {
    TwoRootsScheduled(r, r + "/", fs, false, maxDepth);
    HolderScheduled(r, maxDepth);
    HolderScheduled(r + "/", maxDepth);
  }

  /** The root paths r and r/ (say "a" and "a/") are distinct strings naming
      one directory. Each gets its own task for "x", with distinct segment
      paths, yet the program builds the same string r/x for both: that
      repository is pulled twice, and reported twice when dirty. */
  lemma OverlappingRootsPullTwice(fs: FileSystem, r: string, maxDepth: int)
    requires r != [] && r[|r| - 1] != '/' && 2 <= maxDepth
    requires EntryAt(fs, r) == Directory(Holder) && EntryAt(fs, r + "/") == Directory(Holder)
    ensures NoDuplicates([r, r + "/"])
    ensures TasksOf(Config([r, r + "/"], false, maxDepth), fs) == [[r, "x"], [r + "/", "x"]]
    ensures Render([r, "x"]) == Render([r + "/", "x"]) == r + "/x"
  {
    RootSpellingsDistinct(r);
    OverlappingRootsTasks(fs, r, maxDepth);
    OverlappingRootsRender(r);
  }

  /** A root path r/x naming a repository inside the repository r, also given
      as a root: without `-c` both get a task, although r/x is the very string
      the program would build for the nested repository, because the segment
      paths [r] and [r/x] are not prefixes of each other. */
  lemma NestedRootWithoutContinue(fs: FileSystem, r: string, maxDepth: int)
    requires r != [] && r[|r| - 1] != '/' && 1 <= maxDepth
    requires EntryAt(fs, r) == Directory(Outer) && EntryAt(fs, r + "/x") == Directory(RepoX)
    ensures TasksOf(Config([r, r + "/x"], false, maxDepth), fs) == [[r], [r + "/x"]]
    ensures Render([r + "/x"]) == Render([r, "x"])
  {
    assert IsGitDir(Outer) && IsGitDir(RepoX);
    TwoRootsScheduled(r, r + "/x", fs, false, maxDepth);
    RepoRootScheduled(r, Outer, maxDepth);
    RepoRootScheduled(r + "/x", RepoX, maxDepth);
    RenderRoot(r + "/x");
    RenderChild(r);
  }
}
