/** The state one run of the program builds up in place: the list of started
    update tasks and the list of dirty repositories, both owned by the top
    level and appended to by the walk and by the tasks. */
module Sessions {
  import opened FsTree
  import opened WalkScheduler
  import opened RepoUpdate

  class Session {
    /** git_update_thread_pools: the path of each update task, in start order. */
    var tasks: seq<Path>
    /** dirty_git_repo_dirs: the repositories left alone for uncommitted changes. */
    var dirty: seq<Path>
    /** The repositories a pull from the remote was made on. */
    var pulled: seq<Path>

    constructor ()
      ensures tasks == [] && dirty == [] && pulled == []
    {
      tasks, dirty, pulled := [], [], [];
    }

    /** update_git_repo_thread: start a task for the repository at `p`. */
    method SpawnUpdate(p: Path)
      modifies this
      ensures tasks == old(tasks) + [p]
      ensures dirty == old(dirty) && pulled == old(pulled)
    {
      tasks := tasks + [p];
    }

    /** walk_and_update on path `p` naming directory `d`: every repository the
        walk meets gets a task, in walk order. */
    method WalkAndUpdate(p: Path, d: Dir, cont: bool, depth: int, maxDepth: int)
      modifies this
      ensures tasks == old(tasks) + Scheduled(Walk(p, d, cont, depth, maxDepth))
      ensures dirty == old(dirty) && pulled == old(pulled)
      decreases d
    {
      if depth >= maxDepth {
        return;
      }
      if IsGitDir(d) {
        SpawnUpdate(p);
        if !cont {
          ScheduledWalkUnfold(p, d, cont, depth, maxDepth);
          return;
        }
      }
      WalkChildren(p, d.subdirs, cont, depth + 1, maxDepth);
      ScheduledWalkUnfold(p, d, cont, depth, maxDepth);
    }

    /** The loop of walk_and_update over the immediate sub-directories of `p`
        that one listing yields; nothing deeper is listed, since the listing's
        own descent is cut off after its first step. */
    method WalkChildren(p: Path, ds: seq<Dir>, cont: bool, depth: int, maxDepth: int)
      modifies this
      ensures tasks == old(tasks) + Scheduled(WalkAll(p, ds, cont, depth, maxDepth))
      ensures dirty == old(dirty) && pulled == old(pulled)
      decreases ds
    {
      for i := 0 to |ds|
        invariant tasks == old(tasks) + Scheduled(WalkAll(p, ds[..i], cont, depth, maxDepth))
        invariant dirty == old(dirty) && pulled == old(pulled)
      {
        ghost var before := Scheduled(WalkAll(p, ds[..i], cont, depth, maxDepth));
        ghost var step := Scheduled(Walk(p + [ds[i].name], ds[i], cont, depth, maxDepth));
        WalkAndUpdate(p + [ds[i].name], ds[i], cont, depth, maxDepth);
        ScheduledWalkAllStep(p, ds, i, cont, depth, maxDepth);
        AppendAssoc(old(tasks), before, step);
      }
      assert ds[..|ds|] == ds;
    }

    /** The call main makes for one root path, from depth 0. */
    method WalkRootAndUpdate(root: string, e: Entry, cont: bool, maxDepth: int)
      modifies this
      ensures tasks == old(tasks) + Scheduled(WalkRoot(root, e, cont, maxDepth))
      ensures dirty == old(dirty) && pulled == old(pulled)
    {
      match e
      case Directory(d) =>
        WalkAndUpdate([root], d, cont, 0, maxDepth);
      case _ =>
    }

    /** The loop of main over the root paths, each walked from depth 0. */
    method WalkRootsAndUpdate(roots: seq<string>, fs: FileSystem, cont: bool, maxDepth: int)
      modifies this
      ensures tasks == old(tasks) + Scheduled(WalkRoots(roots, fs, cont, maxDepth))
      ensures dirty == old(dirty) && pulled == old(pulled)
    {
      ghost var t0 := tasks;
      for i := 0 to |roots|
        invariant tasks == t0 + Scheduled(WalkRoots(roots[..i], fs, cont, maxDepth))
        invariant dirty == old(dirty) && pulled == old(pulled)
      {
        ghost var before := Scheduled(WalkRoots(roots[..i], fs, cont, maxDepth));
        ghost var step := Scheduled(WalkRoot(roots[i], EntryAt(fs, roots[i]), cont, maxDepth));
        WalkRootAndUpdate(roots[i], EntryAt(fs, roots[i]), cont, maxDepth);
        ScheduledWalkRootsStep(roots, i, fs, cont, maxDepth);
        AppendAssoc(t0, before, step);
      }
      assert roots[..|roots|] == roots;
    }

    /** update_git_repo: a repository that cannot be opened is left alone, a
        dirty one is added to the dirty list and not pulled, a clean one is
        pulled. */
    method UpdateGitRepo(p: Path, st: RepoStatus)
      modifies this
      ensures dirty == old(dirty) + (if st.Dirty? then [p] else [])
      ensures pulled == old(pulled) + (if st.Clean? then [p] else [])
      ensures tasks == old(tasks)
    {
      match st
      case OpenFails(_) =>
      case Dirty =>
        dirty := dirty + [p];
      case Clean =>
        pulled := pulled + [p];
    }

    /** The bodies of all started tasks, run to completion one after the
        other in start order. */
    method RunTasks(status: Path -> RepoStatus)
      modifies this
      ensures dirty == old(dirty) + DirtyOf(tasks, status)
      ensures pulled == old(pulled) + PulledOf(tasks, status)
      ensures tasks == old(tasks)
    {
      for i := 0 to |tasks|
        invariant tasks == old(tasks)
        invariant dirty == old(dirty) + DirtyOf(tasks[..i], status)
        invariant pulled == old(pulled) + PulledOf(tasks[..i], status)
      {
        UpdateGitRepo(tasks[i], status(tasks[i]));
        assert tasks[..i + 1][..i] == tasks[..i];
      }
      assert tasks[..|tasks|] == tasks;
    }
  }
}
