# git_pull_all, modelled in Dafny

`git_pull_all.py` finds git repositories below one or more root paths and
pulls each one on its own thread. A repository with uncommitted changes is
not pulled; it is listed in a report printed at the end. This project models
the core of that script:

- the repository test `is_git_dir`;
- the bounded recursive walk `walk_and_update`, which starts one update
  thread per repository it finds;
- the per-repository decision `update_git_repo`: skip, report as dirty, or
  pull;
- the option fold in `main`, which builds the root paths, the continue flag
  `-c` and the depth bound `-d`;
- the final report loop.

The model is split into these modules:

- `FsTree` (`fs_tree.dfy`): directories as a finite tree of values, and the
  repository test. It also covers how `os.path.join` builds a path string.
- `WalkScheduler` (`walk.dfy`): the walk as a pure function, returning the
  sequence of visits it makes in visit order, and `Scheduled`, the
  repositories among those visits, which are the paths that get an update
  task. Its lemmas give the walk's properties:
  - the depth bound;
  - pre-order, with no path visited twice on a real tree;
  - without `-c`, it stops at repositories;
  - every child is reached, including, with `-c`, a `.git` metadata
    directory.
- `RepoUpdate` (`repo_update.dfy`): what each task does with a repository,
  given the status the git library would report for it.
- `Sessions` (`session.dfy`): the state one run owns, as a class. It has the
  thread list `git_update_thread_pools` and the list `dirty_git_repo_dirs`,
  plus the list of pulls made. Its methods are the script's recursive walk,
  its loops and its task body, each proved against the functions above.
- `CliConfig` (`cli_config.dfy`): the option loop of `main` over getopt's
  (option, value) pairs, with the depth finding below.
- `DirtyReport` (`dirty_report.dfy`): the lines of the final report.
- `PullAll` (`pull_all.dfy`): one whole run, the properties of a finished
  run, a three-sibling scenario, and root paths that overlap.

Some inputs are parameters, because nothing here can look at them:
- what each root path denotes (`FileSystem`, a map from root path to a tree,
  or to missing / not a directory);
- the status each repository reports when its task opens it (`RepoStatus`:
  cannot be opened, dirty, or clean).

Some behaviours of the script that a reader might not expect:
- The script only pulls. It has no push command, no auto-stash and no
  confirmation prompt; a dirty repository is only appended to the report.
- `is_git_dir` uses `os.path.exists`, so a `.git` entry of any kind counts,
  including the `.git` file of a worktree or a submodule.
- A root path given twice is walked twice, so each repository below it gets
  two tasks (`DuplicateRootScheduledTwice`).
- Distinct root strings can still name overlapping trees. The roots `a` and
  `a/` both name one directory, and its repository `x` gets two tasks, both
  printed as `a/x` (`OverlappingRootsPullTwice`). The roots `a` and `a/x`,
  both repositories, get a task each even without `-c`
  (`NestedRootWithoutContinue`).
- With `-c`, the script treats a repository's own `.git` directory as an
  ordinary sub-directory and walks into it (`DescendsIntoGitMetadata`).

The model's paths are sequences of segments: the root string as given, then
one directory name per level. Uniqueness and nesting are stated over these
segment paths.

## Model

| member | source | states |
|---|---|---|
| FsTree.IsGitDir | git_pull_all.py:12-16 | definition of `is_git_dir`: a directory holds a `.git` entry directly under it, as a file or as a sub-directory; GitDirHasEntry restates it over the listing's names |
| FsTree.GitDirHasEntry | git_pull_all.py:12-16 | a directory is a repository exactly when `.git` names one of its entries, as a file or as a sub-directory |
| FsTree.Join | git_pull_all.py:57 | the joined path always ends with the second part, and it either starts with the first part or is the second part alone (an absolute second part replaces the first) |
| FsTree.Render | git_pull_all.py:57 | definition of the printed path: the root path as given, with each directory name joined on in turn by `os.path.join`; RenderSegments gives it in closed form |
| FsTree.JoinPlain | git_pull_all.py:57 | joining a non-empty name without separators adds a `/` only when the first part is non-empty and does not end with one, and the result does not end with `/` |
| FsTree.RenderRoot | git_pull_all.py:96-98 | a root path is printed exactly as it was given |
| FsTree.RenderOneName | git_pull_all.py:57 | a root path's child is printed as the root, a `/` unless the root ends with one, then the child's name |
| FsTree.RenderStep | git_pull_all.py:57 | below the first name, each further name is joined on after a `/` |
| FsTree.RenderSegments | git_pull_all.py:57 | the printed path of a root with directory names below it is the root, a `/` unless the root ends with one, then the names joined by `/` |
| WalkScheduler.Walk | git_pull_all.py:44-60 | a call visits nothing exactly when its depth is at or beyond the bound; otherwise its first visit is the call itself |
| WalkScheduler.WalkAll | git_pull_all.py:55-59 | definition of the loop over the sub-directories one listing yields: one call per child, in listing order, each at the same depth, on the path joined with the child's name |
| WalkScheduler.WalkRoot | git_pull_all.py:96-98 | definition of the call for one root path: the walk from depth 0 of the directory it names, and no visit when it is missing or not a directory |
| WalkScheduler.WalkRoots | git_pull_all.py:96-98 | definition of the loop over the root paths: the walks of the roots one after another, in argument order |
| WalkScheduler.Scheduled | git_pull_all.py:49-50 | no more tasks are scheduled than there are visits |
| WalkScheduler.ScheduledMembers | git_pull_all.py:49-50 | a path gets a task exactly when some visit to a repository has that path |
| WalkScheduler.ScheduledAppend | git_pull_all.py:44-60 | the tasks of two visit sequences run back to back are the tasks of the first, then those of the second |
| WalkScheduler.ScheduledWalkUnfold | git_pull_all.py:46-58 | a call in bound schedules its own path if it is a repository, then what the loop over its children schedules, unless it stops at a repository |
| WalkScheduler.ScheduledWalkAllStep | git_pull_all.py:55-58 | the loop over the first i+1 children schedules what the first i do, then what child i does |
| WalkScheduler.ScheduledWalkRootsStep | git_pull_all.py:96-98 | the walk of the first i+1 root paths schedules what the first i do, then what root i does |
| WalkScheduler.WalkBounds | git_pull_all.py:46-57 | every visit is at a depth from the starting depth up to but not including the bound; its path extends the starting path by exactly one segment per level |
| WalkScheduler.WalkAllBounds | git_pull_all.py:54-58 | every visit made by the loop over the children lies below one of those children, one segment per level |
| WalkScheduler.SiblingsIncomparable | git_pull_all.py:55-58 | with distinct sibling names, visits below different children have paths where neither is a prefix of the other |
| WalkScheduler.WalkOrdered | git_pull_all.py:44-60 | on a real tree the walk is in pre-order: a path shorter than or equal to another, as a prefix, is visited no later, so no path is visited twice |
| WalkScheduler.WalkAllOrdered | git_pull_all.py:55-58 | the same pre-order holds for the loop over a directory's children |
| WalkScheduler.WalkStopsAtRepos | git_pull_all.py:49-53 | without `-c`, nothing strictly below a visited repository is visited |
| WalkScheduler.WalkAllStopsAtRepos | git_pull_all.py:49-58 | the same holds across the loop over a directory's children |
| WalkScheduler.WalkParents | git_pull_all.py:54-58 | every visit except the first is of a sub-directory of another visited directory that the walk descended into, one level deeper |
| WalkScheduler.WalkAllParents | git_pull_all.py:54-58 | every visit made by the loop is either of one of the children, or of a sub-directory of a visited directory the walk descended into |
| WalkScheduler.WalkAllIncludes | git_pull_all.py:56-58 | every visit of one child's call is among the visits of the loop over the children |
| WalkScheduler.WalkReachesChildren | git_pull_all.py:54-58 | every sub-directory of a visited directory the walk descends into is visited, one level deeper, while that depth is in bound |
| WalkScheduler.WalkAllReachesChildren | git_pull_all.py:55-58 | the same holds for the loop over a directory's children |
| WalkScheduler.WalkReachesOwnChildren | git_pull_all.py:54-58 | the children of the starting directory are visited, when the walk descends and the next depth is in bound |
| WalkScheduler.DescendsIntoGitMetadata | git_pull_all.py:49-58 | with `-c`, a directory holding a `.git` sub-directory is a repository, and that `.git` directory is itself visited |
| WalkScheduler.ScheduledOrdered | git_pull_all.py:49-50 | when the visits are in pre-order, a repository's task comes before the task of any repository below it, and no path gets two tasks |
| WalkScheduler.ScheduledOrderedPaths | git_pull_all.py:49-50 | the pre-order of visits carries over to the scheduled paths |
| WalkScheduler.PathOrderedTail | git_pull_all.py:44-60 | the visits after the first one are still in pre-order |
| WalkScheduler.ScheduledAfterHead | git_pull_all.py:49-50 | nothing scheduled after the first visit has a path that is a prefix of the first visit's path |
| WalkScheduler.OrderedPathsDistinct | git_pull_all.py:49-50 | paths in that order have no repeats |
| WalkScheduler.WalkRootsBounds | git_pull_all.py:96-98 | every visit of a whole run lies within the depth bound, its path starts with one of the root paths, and its depth is the number of segments below that root |
| WalkScheduler.WalkRootsNonPositiveDepth | git_pull_all.py:46-48 | with a bound of zero or less, no root is visited and nothing is scheduled |
| WalkScheduler.WalkRootsOrdered | git_pull_all.py:96-98 | with distinct root paths over real trees, the visits of the whole run are in pre-order |
| WalkScheduler.WalkRootsVisitFromRoot | git_pull_all.py:94-98 | every visit of the walk over all root paths is a visit of the walk from the root path its own path starts with |
| WalkScheduler.WalkRootsStopAtRepos | git_pull_all.py:49-53 | without `-c`, no visit of the whole run lies strictly below a visited repository below the same root path, even when a root path is repeated |
| WalkScheduler.DuplicateRootScheduledTwice | git_pull_all.py:96-98 | a repository given twice as a root path gets two tasks |
| RepoUpdate.OutcomeCounts | git_pull_all.py:19-35 | a dirty repository is listed once per task it had, a clean one is pulled once per task, and a repository that cannot be opened is neither |
| RepoUpdate.DirtyOf | git_pull_all.py:19-35 | definition: the tasks whose repository is dirty, in task order, the dirty list the tasks build; OutcomeCounts and OutcomeMembers characterise it |
| RepoUpdate.PulledOf | git_pull_all.py:19-35 | definition: the tasks whose repository is clean, in task order, the repositories pulled; OutcomeCounts and OutcomeMembers characterise it |
| RepoUpdate.OutcomeMembers | git_pull_all.py:19-35 | a path is in the dirty list exactly when it had a task and was dirty, and is pulled exactly when it had a task and was clean; the two lists together are no longer than the tasks |
| RepoUpdate.OutcomeLength | git_pull_all.py:23-28 | the dirty list and the pulls together are no longer than the task list |
| RepoUpdate.OutcomeNoDuplicates | git_pull_all.py:24 | tasks for distinct paths give a dirty list and a pull list without repeats |
| Sessions.Session.constructor | git_pull_all.py:94-95 | a run starts with no tasks, no dirty repositories and no pulls |
| Sessions.Session.SpawnUpdate | git_pull_all.py:38-41 | starting a task appends its path to the task list and changes nothing else |
| Sessions.Session.WalkAndUpdate | git_pull_all.py:44-60 | the recursive walk appends exactly the tasks of `Walk` on its arguments, in walk order, and leaves the other lists alone |
| Sessions.Session.WalkChildren | git_pull_all.py:54-60 | the loop over the children appends exactly the tasks of `WalkAll` on them |
| Sessions.Session.WalkRootAndUpdate | git_pull_all.py:97-98 | the call for one root path from depth 0 appends exactly that root's tasks |
| Sessions.Session.WalkRootsAndUpdate | git_pull_all.py:96-98 | the loop over the root paths appends exactly the tasks of `WalkRoots` on them |
| Sessions.Session.UpdateGitRepo | git_pull_all.py:19-35 | a dirty repository is appended to the dirty list and not pulled, a clean one is pulled, one that cannot be opened changes nothing |
| Sessions.Session.RunTasks | git_pull_all.py:99-100 | running every started task appends exactly `DirtyOf` and `PulledOf` of the task list |
| CliConfig.ShowNat | git_pull_all.py:83-84 | a natural number's decimal form is a non-empty string of digits |
| CliConfig.DigitsShowNat | git_pull_all.py:83-84 | a natural number's decimal form reads back as the number |
| CliConfig.ParseShowInt | git_pull_all.py:83-84 | every integer written in decimal, with a sign when negative, parses back as itself |
| CliConfig.ParseInt | git_pull_all.py:83-84 | definition of the integer conversion the `-d` value needs: an optional sign then one or more decimal digits, and no value otherwise; ParseShowInt reads every integer back |
| CliConfig.Apply | git_pull_all.py:80-92 | definition of one step of the option loop: `-c` sets continue, `-d` sets the bound or stops at a non-integer, `-h` stops at usage, anything else changes nothing |
| CliConfig.FoldOpts | git_pull_all.py:80-92 | definition of the option loop: the steps in command-line order, stopping at the first one that stops; FoldOutcome, FoldContinue and FoldDepth characterise it |
| CliConfig.Configure | git_pull_all.py:73-92 | definition of the configuration main runs with: the option loop from the defaults, with the positional arguments as paths; ConfigureOutcome, ConfigurePaths, ConfigureContinue and ConfigureDepth characterise it |
| CliConfig.ParseOptions | git_pull_all.py:73-92 | the option loop returns exactly the outcome of the fold `Configure` |
| CliConfig.FoldKeepsPaths | git_pull_all.py:80-92 | no option changes the root paths |
| CliConfig.ConfigurePaths | git_pull_all.py:73-79 | the root paths are "." when there are no positional arguments, and otherwise exactly those arguments |
| CliConfig.FoldContinue | git_pull_all.py:80-82 | the continue flag ends up on exactly when it started on or some option is `-c` |
| CliConfig.ConfigureContinue | git_pull_all.py:74-82 | continue is on exactly when a `-c` option occurs |
| CliConfig.FoldDepth | git_pull_all.py:83-84 | without `-d` the bound is unchanged; otherwise the bound is the integer value of the last `-d` |
| CliConfig.ConfigureDepth | git_pull_all.py:75-84 | the bound is 10 without `-d`, and otherwise the value of the last `-d` |
| CliConfig.FoldOutcome | git_pull_all.py:80-92 | the fold runs to the end exactly when no option stops it, and ends at help exactly when the first stopping option is `-h` |
| CliConfig.FoldReady | git_pull_all.py:80-92 | the fold runs to the end exactly when no option is `-h` or a `-d` that is not an integer |
| CliConfig.FoldHelp | git_pull_all.py:85-92 | the fold ends at help exactly when some `-h` comes before every stopping option |
| CliConfig.ConfigureOutcome | git_pull_all.py:76-92 | the same two facts, from the defaults |
| CliConfig.FoldIgnores | git_pull_all.py:80-85 | an option other than `-c`, `-d` and `-h` can be removed from anywhere in the list without changing the outcome |
| CliConfig.IgnoredOption | git_pull_all.py:76-85 | long options, `-p` and any other option have no effect on the configuration |
| CliConfig.DepthOptionSetsBound | git_pull_all.py:83-84 | as intended, `-d` followed by an integer sets the bound to that integer |
| CliConfig.LoopAsWritten | git_pull_all.py:80-92 | definition of the option loop as written: `-d` stores its raw string and never stops it, `-h` exits at usage; LoopAsWrittenHelp and LoopAsWrittenRaw characterise it |
| CliConfig.OptionLoopAsWritten | git_pull_all.py:75-92 | definition: the loop as written from the integer default 10 |
| CliConfig.LoopAsWrittenHelp | git_pull_all.py:85-92 | as written, the loop exits at usage exactly when some option is `-h`, wherever it stands |
| CliConfig.LoopAsWrittenRaw | git_pull_all.py:83-84 | as written, once a `-d` has been seen or is still to come, the loop ends at usage or with a raw string as the bound |
| CliConfig.TooDeepAsWritten | git_pull_all.py:46 | definition of the walk's first test as Python 3 evaluates it: a comparison with an integer bound, and a TypeError with a string bound |
| CliConfig.DepthOptionAsWrittenFails | git_pull_all.py:80-92 | as written, with a `-d` present, the program exits at usage exactly when a `-h` occurs; with no `-h`, the walk's first comparison fails on the string bound |
| CliConfig.DepthTenExample | git_pull_all.py:83-88 | the `-d 10` of the usage text, alone: as written the walk fails on it, as intended the bound is 10 |
| CliConfig.HelpAfterDepthExample | git_pull_all.py:83-92 | on `-d 5 -h`, as written and as intended alike, the program exits at usage without walking |
| DirtyReport.EntryLines | git_pull_all.py:103-104 | definition: one line per dirty repository, in list order, in the script's wording; EntryLinesAt indexes it |
| DirtyReport.ReportLines | git_pull_all.py:101-104 | definition of the report: nothing for an empty dirty list, otherwise the header and then the entry lines; ReportShape characterises it |
| DirtyReport.EntryLinesAt | git_pull_all.py:103-104 | there is one entry line per dirty repository, in list order, each naming that repository |
| DirtyReport.ReportShape | git_pull_all.py:101-104 | the report is empty exactly when the dirty list is; otherwise it is the header followed by one line per entry, in order |
| DirtyReport.PrintReport | git_pull_all.py:101-104 | the printing loop produces exactly `ReportLines` of the dirty list |
| PullAll.RunSpec | git_pull_all.py:68-104 | definition of one run: usage or a bad `-d` value from the options, otherwise the tasks of the walk over the roots, the pulls and dirty list they give, and the report; RunCompleted, RunOnceEach and RunWithoutContinue characterise it |
| PullAll.Run | git_pull_all.py:68-104 | a run, step by step, ends exactly as `RunSpec` says: usage, a bad `-d` value, or the tasks, pulls, dirty list and report |
| PullAll.RunCompleted | git_pull_all.py:94-104 | in a finished run every task is the path of a visited repository, within the depth bound, starting with a root path; the dirty list holds exactly the dirty tasked repositories, the pulls exactly the clean ones, and the report is empty exactly when the dirty list is |
| PullAll.RunNonPositiveDepth | git_pull_all.py:46-48 | with a bound of zero or less, a run starts no task and prints nothing |
| PullAll.RunOnceEach | git_pull_all.py:94-104 | with distinct root paths, each segment path gets at most one task, is listed dirty or pulled at most once, and is started before any repository nested in it |
| PullAll.RunWithoutContinue | git_pull_all.py:49-53 | without `-c`, no task's segment path lies strictly below another task's, repeated root paths included |
| PullAll.ScenarioWalk | git_pull_all.py:44-60 | in the scenario, the walk visits "." and its three children and nothing else |
| PullAll.ScenarioChildren | git_pull_all.py:55-58 | the scenario's loop over the children of "." visits each child once and descends into none |
| PullAll.ScenarioScheduled | git_pull_all.py:49-50 | of those visits, the two repositories get tasks, in order |
| PullAll.ScenarioOutcome | git_pull_all.py:19-35 | the clean repository is pulled and the dirty one is listed |
| PullAll.ScenarioRenderRoot | git_pull_all.py:57 | the root path "." is printed as "." |
| PullAll.ScenarioRender | git_pull_all.py:57 | the dirty repository's path is printed as "./b" |
| PullAll.ScenarioReport | git_pull_all.py:101-104 | the scenario's report is the header and the line for "./b" |
| PullAll.HolderScheduled | git_pull_all.py:44-60 | a directory holding one repository `x`, walked from any root path without `-c`, yields one task, for `x` |
| PullAll.RepoRootScheduled | git_pull_all.py:46-53 | without `-c`, a root path naming a repository yields exactly the one task for that root path |
| PullAll.TwoRootsScheduled | git_pull_all.py:96-98 | two root paths schedule the tasks of the first, then those of the second |
| PullAll.RenderChild | git_pull_all.py:57 | a child `x` of a root path `r` that does not end with `/` is printed as `r/x` |
| PullAll.OverlappingRootsRender | git_pull_all.py:57 | the child `x` of the root paths `r` and `r/` is printed as the same string `r/x` |
| PullAll.RootSpellingsDistinct | git_pull_all.py:94-98 | the root paths `r` and `r/` are distinct strings |
| PullAll.OverlappingRootsTasks | git_pull_all.py:94-98 | the root paths `r` and `r/` naming one directory give its repository `x` two tasks, `r`,`x` and `r/`,`x` |
| PullAll.OverlappingRootsPullTwice | git_pull_all.py:94-104 | distinct root paths `r` and `r/` naming one directory give its repository two tasks that print as the same string `r/x` |
| PullAll.NestedRootWithoutContinue | git_pull_all.py:94-98 | without `-c`, the roots `r` and `r/x`, both repositories, each get a task, although `r/x` is the string the program builds for the nested repository |
| PullAll.ThreeSiblings | git_pull_all.py:68-104 | three siblings with no options: one pull, one reported entry, and no task for the plain directory |

## Left out

- The git library (`git.Repo`, `is_dirty`, `remote`, `pull`) is an external library. What it reports for a repository is the `status` parameter. A remote failure inside `pull`, or a repository without a remote, raises past the task's handlers and only ends that thread; the model records the pull as made.
- Sessions.Session.RunTasks: the task bodies are run to completion one after the other, in start order. The script runs them on concurrent threads, which append to the dirty list in completion order. `join(30)` may also give up on a thread that is still running, and its result can then miss the report. Concurrency and timeouts are not modelled.
- Sessions.Session.pulled: the script keeps no list of pulls. This list exists only so the model can state which repositories were pulled.
- The file system is a finite tree of values. Symbolic links, which `os.walk` lists as sub-directories and the walk then follows, are not modelled. Nor are listing errors, which `os.walk` swallows, or changes made while the walk runs. The order of a directory's sub-directories is whatever the tree holds, standing for the order the listing yields.
- is_git_dir is modelled as the presence of a `.git` entry in the directory's listing. A broken symbolic link named `.git`, which `os.path.exists` rejects, is not modelled.
- Printing is not modelled: the progress lines, the "too deep" message and the usage text. The report is modelled as the lines it prints.
- getopt itself is not modelled: the model takes the (option, value) pairs and positional arguments it returns. Its error path is not modelled either. The script runs only under Python 3, where `print >> sys.stderr` raises TypeError, so that path prints nothing and never reaches `return 2`.
- CliConfig.ParseInt: accepts an optional sign followed by ASCII digits. Python's `int` also accepts surrounding whitespace, underscores between digits and non-ASCII digits, which this parser does not.
- CliConfig.Configure: `-h` ends the run with the `Help` outcome. `sys.exit` and its exit status are not modelled. A `-d` value that is not an integer ends it with `BadDepth`, which stands for the exception `int` would raise in the corrected script.
- PullAll.RunOnceEach: its uniqueness is over segment paths (root string, then names). Distinct root strings that name overlapping trees, such as `a` and `a/`, escape it: the program then pulls one repository twice and may report it twice (`OverlappingRootsPullTwice`).
- PullAll.RunWithoutContinue: its nesting is over segment paths below one root string. A root string that names a directory inside another root, such as `a/x` beside `a`, escapes it (`NestedRootWithoutContinue`).

## Findings

| source | as written | input that shows it | evidently intended | confidence | as-written member | corrected member |
|---|---|---|---|---|---|---|
| git_pull_all.py:83-84 | `-d` stores its raw string value as the depth bound. Unless a `-h` exits first, under Python 3 the walk's first test `depth >= max_depth` then compares an int with a str and raises TypeError before any directory is looked at | `git_pull_all.py -d 10 .`, with the `-d 10` of the usage text and no `-h` | the value is converted to an integer, so `-d N` bounds the walk at depth N | not executed | CliConfig.DepthOptionAsWrittenFails | CliConfig.DepthOptionSetsBound |
