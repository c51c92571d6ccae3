/** The per-repository update decision (update_git_repo), with the version
    control library replaced by the status it reports for the repository. */
module RepoUpdate {
  import opened FsTree

  /** Why opening the repository fails: the path has gone, or it is not a
      repository after all. */
  datatype OpenError = NoSuchPath | InvalidRepo

  /** What the repository at a path turns out to be when its task runs: it
      cannot be opened, it has uncommitted changes, or it is clean. */
  datatype RepoStatus = OpenFails(reason: OpenError) | Dirty | Clean

  /** The task paths that end up in the dirty list, in task order. */
  function DirtyOf(tasks: seq<Path>, status: Path -> RepoStatus): seq<Path>
  {
    if tasks == [] then []
    else DirtyOf(tasks[..|tasks| - 1], status)
         + (if status(tasks[|tasks| - 1]).Dirty? then [tasks[|tasks| - 1]] else [])
  }

  /** The task paths a pull is attempted for, in task order. */
  function PulledOf(tasks: seq<Path>, status: Path -> RepoStatus): seq<Path>
  {
    if tasks == [] then []
    else PulledOf(tasks[..|tasks| - 1], status)
         + (if status(tasks[|tasks| - 1]).Clean? then [tasks[|tasks| - 1]] else [])
  }

  /** A dirty repository is listed once per task it had, and nothing else is
      listed; a clean one is pulled once per task, and nothing else is pulled;
      a repository that cannot be opened is neither. */
  lemma {:induction false} OutcomeCounts(tasks: seq<Path>, status: Path -> RepoStatus)
    ensures forall p :: multiset(DirtyOf(tasks, status))[p] == if status(p).Dirty? then multiset(tasks)[p] else 0
    ensures forall p :: multiset(PulledOf(tasks, status))[p] == if status(p).Clean? then multiset(tasks)[p] else 0
  {
    if tasks != [] {
      var init, last := tasks[..|tasks| - 1], tasks[|tasks| - 1];
      OutcomeCounts(init, status);
      assert tasks == init + [last];
      assert multiset(tasks) == multiset(init) + multiset([last]);
    }
  }

  /** Membership: a path is in the dirty list exactly when it had a task and
      was dirty, and pulled exactly when it had a task and was clean; so no
      path is both. */
  lemma OutcomeMembers(tasks: seq<Path>, status: Path -> RepoStatus)
    ensures forall p :: p in DirtyOf(tasks, status) <==> p in tasks && status(p) == Dirty
    ensures forall p :: p in PulledOf(tasks, status) <==> p in tasks && status(p) == Clean
    ensures |DirtyOf(tasks, status)| + |PulledOf(tasks, status)| <= |tasks|
  {
    OutcomeCounts(tasks, status);
    forall p
      ensures p in DirtyOf(tasks, status) <==> p in tasks && status(p) == Dirty
      ensures p in PulledOf(tasks, status) <==> p in tasks && status(p) == Clean
    {
      assert p in DirtyOf(tasks, status) <==> multiset(DirtyOf(tasks, status))[p] > 0;
      assert p in PulledOf(tasks, status) <==> multiset(PulledOf(tasks, status))[p] > 0;
      assert p in tasks <==> multiset(tasks)[p] > 0;
    }
    OutcomeLength(tasks, status);
  }

  lemma {:induction false} OutcomeLength(tasks: seq<Path>, status: Path -> RepoStatus)
    ensures |DirtyOf(tasks, status)| + |PulledOf(tasks, status)| <= |tasks|
  {
    if tasks != [] {
      OutcomeLength(tasks[..|tasks| - 1], status);
    }
  }

  /** Tasks for distinct paths give a dirty list and a pull list without
      repeats. */
  lemma {:induction false} OutcomeNoDuplicates(tasks: seq<Path>, status: Path -> RepoStatus)
    requires NoDuplicates(tasks)
    ensures NoDuplicates(DirtyOf(tasks, status)) && NoDuplicates(PulledOf(tasks, status))
  {
    if tasks != [] {
      var init, last := tasks[..|tasks| - 1], tasks[|tasks| - 1];
      OutcomeNoDuplicates(init, status);
      OutcomeMembers(init, status);
      assert last !in init by {
        forall k | 0 <= k < |init| ensures init[k] != last {
          assert tasks[k] != tasks[|tasks| - 1];
        }
      }
    }
  }
}
