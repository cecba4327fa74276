/**
 * The per-repository stages of Infrastructor.py (and their copies in
 * config.py): pulling submissions, copying them to and from the TAs'
 * folders and committing feedback. The local machine is a `Host` object
 * holding the directories that exist, the local branches of each working
 * copy and the log of the subprocesses run; git and rsync themselves are not
 * modelled beyond the directories and branches they create.
 */
module Orchestrator {
  import opened Wrappers
  import opened Strings
  import Paths
  import opened Assignment

  /** One `call(argv)` or `Popen(argv, cwd=...)`; `cwd` is None when the current directory is used. */
  datatype Command = Command(argv: seq<string>, cwd: Option<string>)

  /** The machine the stages run on. */
  class Host {
    /** Directories that exist. */
    var dirs: set<string>
    /** (working copy, branch) pairs: the local branches of each working copy. */
    var localBranches: set<(string, string)>
    /** The subprocesses started so far, in order. */
    var log: seq<Command>

    constructor (dirs: set<string>, localBranches: set<(string, string)>)
      ensures this.dirs == dirs && this.localBranches == localBranches && log == []
    {
      this.dirs := dirs;
      this.localBranches := localBranches;
      log := [];
    }

    /** `os.makedirs(path)`. */
    method Makedirs(path: string)
      modifies this`dirs
      ensures dirs == old(dirs) + {path}
    {
      dirs := dirs + {path};
    }

    /** Start a subprocess and wait for it. */
    method Run(cmd: Command)
      modifies this`log
      ensures log == old(log) + [cmd]
    {
      log := log + [cmd];
    }

    /** `git checkout -b branch` in `rdir`: run it, and the branch now exists there. */
    method CreateBranch(rdir: string, branch: string)
      modifies this`log, this`localBranches
      ensures log == old(log) + [Command(["git", "checkout", "-b", branch], Some(rdir))]
      ensures localBranches == old(localBranches) + {(rdir, branch)}
    {
      log := log + [Command(["git", "checkout", "-b", branch], Some(rdir))];
      localBranches := localBranches + {(rdir, branch)};
    }
  }

  /**
   * The working copy of a repository under `basepath`, named by its digest
   * when the configuration anonymises: `pull_path(basepath, repo, False,
   * anonymize_sub_path)`.
   */
  function SubmissionDir(c: Config, basepath: string, repo: string): string {
    Paths.Join(basepath, if c.anonymizeSubPath then c.sha1hex(repo) else repo)
  }

  lemma SubmissionDirIsPullPath(c: Config, basepath: string, repo: string)
    ensures c.PullPath(basepath, repo, false, c.anonymizeSubPath) == Some(SubmissionDir(c, basepath, repo))
  {
  }

  /** rsync's flags: archive-like, updating, verbose when asked. */
  function RsyncFlag(verbose: bool): string {
    if verbose then "-vurlptoD" else "-urlptoD"
  }

  /** One `--exclude=<pattern>` argument per pattern, in order. */
  function ExcludeArgs(patterns: seq<string>): (args: seq<string>)
    ensures |args| == |patterns|
    ensures forall i :: 0 <= i < |patterns| ==> args[i] == "--exclude=" + patterns[i]
    decreases |patterns|
  {
    if patterns == [] then []
    else ExcludeArgs(patterns[..|patterns| - 1]) + ["--exclude=" + patterns[|patterns| - 1]]
  }

  lemma UnionAssoc<T>(a: set<T>, b: set<T>, c: set<T>)
    ensures a + (b + c) == (a + b) + c
  {
  }

  lemma AppendAssoc<T>(a: seq<T>, b: seq<T>, c: seq<T>)
    ensures a + (b + c) == (a + b) + c
  {
  }

  // ---------------------------------------------------------------------------
  // pull_all and the due-date rollback
  // ---------------------------------------------------------------------------

  /**
   * The attributes `Config.__init__` sets on the object. The due date from
   * the configuration file is stored as `due_date`, and only when given.
   */
  function ConfigAttributes(c: Config): (attrs: set<string>)
    ensures "due_date" in attrs <==> c.dueDate.Some?
  {
    {"hostname", "verbose", "user2repo", "repo2group", "ta_assignments", "course", "assignment_name",
     "starter_repo", "github_org", "archive_path", "submission_path", "ta_path", "feedback_branch",
     "anonymize_sub_path", "rsync_excludes"}
      + (if c.dueDate.Some? then {"due_date"} else {})
  }

  /**
   * The rollback `pull_all` performs as written: only when the object has
   * the attribute `do_not_accept_changes_after_due_date_timestamp`.
   */
  function RollbackAsWritten(c: Config): Option<int> {
    if "do_not_accept_changes_after_due_date_timestamp" in ConfigAttributes(c) then c.dueDate else None
  }

  /** As written, the rollback never happens, not even when a due date was configured. */
  lemma RollbackNeverHappens(c: Config)
    requires c.dueDate.Some?
    ensures "due_date" in ConfigAttributes(c)
    ensures RollbackAsWritten(c) == None
  {
  }

  /** The rollback evidently intended: roll back to the due date exactly when one was configured. */
  function Rollback(c: Config): (r: Option<int>)
    ensures r.Some? <==> "due_date" in ConfigAttributes(c)
    ensures r.Some? ==> c.dueDate == Some(r.value)
  {
    c.dueDate
  }

  /**
   * The rollback of one working copy: ask for the last commit on master
   * before the due date, then check out what git printed, trailing
   * whitespace stripped. `revBefore` is git's answer to the first command.
   */
  function RollbackCommands(rpath: string, due: int, revBefore: (string, int) -> string): seq<Command> {
    [Command(["git", "rev-list", "-1", "--before=\"" + Decimal(due) + "\"", "master"], Some(rpath)),
     Command(["git", "checkout", RStrip(revBefore(rpath, due))], Some(rpath))]
  }

  /** The commands of `pull_all` for one repository: clone when the working copy is missing, pull otherwise, then any rollback. */
  function PullBlock(c: Config, repo: string, rpath: string, present: bool, rollback: Option<int>,
                     revBefore: (string, int) -> string): seq<Command>
  {
    [if present then Command(["git", "pull"], Some(rpath)) else Command(["git", "clone", c.RepoSshPath(repo), rpath], None)]
      + (if rollback.Some? then RollbackCommands(rpath, rollback.value, revBefore) else [])
  }

  /** The working copy `pull_all` uses for a repository whose group `groups` knows when one is wanted. */
  function WorkingCopy(c: Config, groups: map<string, seq<string>>, basepath: string, repo: string,
                       useUserName: bool, anonymize: bool): string
    requires !useUserName || repo in groups
  {
    c.PullPathIn(groups, basepath, repo, useUserName, anonymize).value
  }

  /** The directories after `pull_all` over `repos` when `dirs` existed before: each clone creates its working copy. */
  function PulledDirs(c: Config, groups: map<string, seq<string>>, basepath: string, useUserName: bool, anonymize: bool,
                      repos: seq<string>, dirs: set<string>): set<string>
    requires forall i :: 0 <= i < |repos| ==> !useUserName || repos[i] in groups
    decreases |repos|
  {
    if repos == [] then dirs
    else
      PulledDirs(c, groups, basepath, useUserName, anonymize, repos[..|repos| - 1], dirs)
        + {WorkingCopy(c, groups, basepath, repos[|repos| - 1], useUserName, anonymize)}
  }

  /** The commands of `pull_all` over `repos` when the directories `dirs` exist. */
  function PullCommands(c: Config, groups: map<string, seq<string>>, basepath: string, useUserName: bool, anonymize: bool,
                        rollback: Option<int>, revBefore: (string, int) -> string, repos: seq<string>, dirs: set<string>)
    : seq<Command>
    requires forall i :: 0 <= i < |repos| ==> !useUserName || repos[i] in groups
    decreases |repos|
  {
    if repos == [] then []
    else
      var init := repos[..|repos| - 1];
      var rpath := WorkingCopy(c, groups, basepath, repos[|repos| - 1], useUserName, anonymize);
      PullCommands(c, groups, basepath, useUserName, anonymize, rollback, revBefore, init, dirs)
        + PullBlock(c, repos[|repos| - 1], rpath, rpath in PulledDirs(c, groups, basepath, useUserName, anonymize, init, dirs),
                    rollback, revBefore)
  }

  /** Afterwards exactly the directories that existed and every repository's working copy exist. */
  lemma {:induction false} PulledDirsAre(c: Config, groups: map<string, seq<string>>, basepath: string, useUserName: bool,
                                         anonymize: bool, repos: seq<string>, dirs: set<string>)
    requires forall i :: 0 <= i < |repos| ==> !useUserName || repos[i] in groups
    ensures dirs <= PulledDirs(c, groups, basepath, useUserName, anonymize, repos, dirs)
    ensures forall i :: 0 <= i < |repos| ==>
      WorkingCopy(c, groups, basepath, repos[i], useUserName, anonymize) in PulledDirs(c, groups, basepath, useUserName, anonymize, repos, dirs)
    ensures forall d :: d in PulledDirs(c, groups, basepath, useUserName, anonymize, repos, dirs) ==>
      d in dirs || exists i :: 0 <= i < |repos| && d == WorkingCopy(c, groups, basepath, repos[i], useUserName, anonymize)
    decreases |repos|
  {
    if repos != [] {
      var init := repos[..|repos| - 1];
      PulledDirsAre(c, groups, basepath, useUserName, anonymize, init, dirs);
      assert forall i :: 0 <= i < |init| ==> init[i] == repos[i];
    }
  }

  /** A `git clone` command. */
  predicate IsClone(cmd: Command) {
    |cmd.argv| >= 2 && cmd.argv[1] == "clone"
  }

  /** When every working copy already exists, `pull_all` clones nothing and creates no directory. */
  lemma {:induction false} PullAllPresent(c: Config, groups: map<string, seq<string>>, basepath: string, useUserName: bool,
                                          anonymize: bool, rollback: Option<int>, revBefore: (string, int) -> string,
                                          repos: seq<string>, dirs: set<string>)
    requires forall i :: 0 <= i < |repos| ==> !useUserName || repos[i] in groups
    requires forall i :: 0 <= i < |repos| ==> WorkingCopy(c, groups, basepath, repos[i], useUserName, anonymize) in dirs
    ensures PulledDirs(c, groups, basepath, useUserName, anonymize, repos, dirs) == dirs
    ensures forall j :: 0 <= j < |PullCommands(c, groups, basepath, useUserName, anonymize, rollback, revBefore, repos, dirs)| ==>
      !IsClone(PullCommands(c, groups, basepath, useUserName, anonymize, rollback, revBefore, repos, dirs)[j])
    decreases |repos|
  {
    if repos != [] {
      var init := repos[..|repos| - 1];
      assert forall i :: 0 <= i < |init| ==> init[i] == repos[i];
      PullAllPresent(c, groups, basepath, useUserName, anonymize, rollback, revBefore, init, dirs);
      var rpath := WorkingCopy(c, groups, basepath, repos[|repos| - 1], useUserName, anonymize);
      var rest := PullCommands(c, groups, basepath, useUserName, anonymize, rollback, revBefore, init, dirs);
      var block := PullBlock(c, repos[|repos| - 1], rpath, true, rollback, revBefore);
      assert forall j :: 0 <= j < |block| ==> !IsClone(block[j]);
      assert PullCommands(c, groups, basepath, useUserName, anonymize, rollback, revBefore, repos, dirs) == rest + block;
      NoCloneAppend(rest, block);
    }
  }

  lemma NoCloneAppend(a: seq<Command>, b: seq<Command>)
    requires forall j :: 0 <= j < |a| ==> !IsClone(a[j])
    requires forall j :: 0 <= j < |b| ==> !IsClone(b[j])
    ensures forall j :: 0 <= j < |a + b| ==> !IsClone((a + b)[j])
  {
  }

  /** Re-running `pull_all` is safe: the second run only pulls, and the directories stay as the first run left them. */
  lemma PullAllRerun(c: Config, groups: map<string, seq<string>>, basepath: string, useUserName: bool,
                     anonymize: bool, rollback: Option<int>, revBefore: (string, int) -> string,
                     repos: seq<string>, dirs: set<string>)
    requires forall i :: 0 <= i < |repos| ==> !useUserName || repos[i] in groups
    ensures var after := PulledDirs(c, groups, basepath, useUserName, anonymize, repos, dirs);
      var again := PullCommands(c, groups, basepath, useUserName, anonymize, rollback, revBefore, repos, after);
      PulledDirs(c, groups, basepath, useUserName, anonymize, repos, after) == after
      && forall j :: 0 <= j < |again| ==> !IsClone(again[j])
  {
    var after := PulledDirs(c, groups, basepath, useUserName, anonymize, repos, dirs);
    PulledDirsAre(c, groups, basepath, useUserName, anonymize, repos, dirs);
    forall i | 0 <= i < |repos| ensures WorkingCopy(c, groups, basepath, repos[i], useUserName, anonymize) in after { }
    PullAllPresent(c, groups, basepath, useUserName, anonymize, rollback, revBefore, repos, after);
  }

  lemma PullAllSnoc(c: Config, groups: map<string, seq<string>>, basepath: string, useUserName: bool,
                    anonymize: bool, rollback: Option<int>, revBefore: (string, int) -> string,
                    repos: seq<string>, dirs: set<string>, k: int)
    requires forall i :: 0 <= i < |repos| ==> !useUserName || repos[i] in groups
    requires 0 <= k < |repos|
    ensures var prev := PulledDirs(c, groups, basepath, useUserName, anonymize, repos[..k], dirs);
      var rpath := WorkingCopy(c, groups, basepath, repos[k], useUserName, anonymize);
      && PulledDirs(c, groups, basepath, useUserName, anonymize, repos[..k + 1], dirs) == prev + {rpath}
      && PullCommands(c, groups, basepath, useUserName, anonymize, rollback, revBefore, repos[..k + 1], dirs)
         == PullCommands(c, groups, basepath, useUserName, anonymize, rollback, revBefore, repos[..k], dirs)
            + PullBlock(c, repos[k], rpath, rpath in prev, rollback, revBefore)
  {
    assert repos[..k + 1][..k] == repos[..k];
  }

  /** One more repository: the log and the directories of the prefix grow by that repository's block and working copy. */
  lemma PullStep(c: Config, groups: map<string, seq<string>>, basepath: string, useUserName: bool,
                 anonymize: bool, rollback: Option<int>, revBefore: (string, int) -> string,
                 repos: seq<string>, dirs0: set<string>, k: int, log0: seq<Command>, log: seq<Command>, dirs: set<string>)
    requires forall i :: 0 <= i < |repos| ==> !useUserName || repos[i] in groups
    requires 0 <= k < |repos|
    requires log == log0 + PullCommands(c, groups, basepath, useUserName, anonymize, rollback, revBefore, repos[..k], dirs0)
    requires dirs == PulledDirs(c, groups, basepath, useUserName, anonymize, repos[..k], dirs0)
    ensures var rpath := WorkingCopy(c, groups, basepath, repos[k], useUserName, anonymize);
      && log0 + PullCommands(c, groups, basepath, useUserName, anonymize, rollback, revBefore, repos[..k + 1], dirs0)
         == log + PullBlock(c, repos[k], rpath, rpath in dirs, rollback, revBefore)
      && PulledDirs(c, groups, basepath, useUserName, anonymize, repos[..k + 1], dirs0) == dirs + {rpath}
  {
    PullAllSnoc(c, groups, basepath, useUserName, anonymize, rollback, revBefore, repos, dirs0, k);
    var rpath := WorkingCopy(c, groups, basepath, repos[k], useUserName, anonymize);
    AppendAssoc(log0, PullCommands(c, groups, basepath, useUserName, anonymize, rollback, revBefore, repos[..k], dirs0),
                PullBlock(c, repos[k], rpath, rpath in dirs, rollback, revBefore));
  }

  /** The body of `pull_all` for one repository whose working copy is `rpath`. */
  method PullOne(c: Config, host: Host, repo: string, rpath: string, rollback: Option<int>, revBefore: (string, int) -> string)
    modifies host`dirs, host`log
    ensures host.log == old(host.log) + PullBlock(c, repo, rpath, rpath in old(host.dirs), rollback, revBefore)
    ensures host.dirs == old(host.dirs) + {rpath}
  {
    if rpath !in host.dirs {
      host.Run(Command(["git", "clone", c.RepoSshPath(repo), rpath], None));
      host.Makedirs(rpath);
    } else {
      host.Run(Command(["git", "pull"], Some(rpath)));
    }
    if rollback.Some? {
      var due := rollback.value;
      host.Run(Command(["git", "rev-list", "-1", "--before=\"" + Decimal(due) + "\"", "master"], Some(rpath)));
      var stdout := revBefore(rpath, due);
      var pathspec := RStrip(stdout);
      host.Run(Command(["git", "checkout", pathspec], Some(rpath)));
    }
  }

  /** The loop of `pull_all` over `repos`. */
  method PullRepos(c: Config, host: Host, groups: map<string, seq<string>>, basepath: string, useUserName: bool,
                   anonymize: bool, rollback: Option<int>, revBefore: (string, int) -> string, repos: seq<string>)
    requires forall i :: 0 <= i < |repos| ==> !useUserName || repos[i] in groups
    modifies host`dirs, host`log
    ensures host.log == old(host.log) + PullCommands(c, groups, basepath, useUserName, anonymize, rollback, revBefore, repos, old(host.dirs))
    ensures host.dirs == PulledDirs(c, groups, basepath, useUserName, anonymize, repos, old(host.dirs))
  {
    ghost var log0, dirs0 := host.log, host.dirs;
    var k := 0;
    while k < |repos|
      invariant 0 <= k <= |repos|
      invariant host.log == log0 + PullCommands(c, groups, basepath, useUserName, anonymize, rollback, revBefore, repos[..k], dirs0)
      invariant host.dirs == PulledDirs(c, groups, basepath, useUserName, anonymize, repos[..k], dirs0)
    {
      var rpath := WorkingCopy(c, groups, basepath, repos[k], useUserName, anonymize);
      PullStep(c, groups, basepath, useUserName, anonymize, rollback, revBefore, repos, dirs0, k, log0, host.log, host.dirs);
      PullOne(c, host, repos[k], rpath, rollback, revBefore);
      k := k + 1;
    }
    assert repos[..k] == repos;
  }

  /**
   * `pull_all(basepath, use_user_name, anonymize)`: for every repository in
   * sorted order, clone it into its pull path when that is missing and pull
   * it otherwise; then, when a due date was configured, roll the working
   * copy back to the last commit before it.
   */
  method PullAll(c: Config, host: Host, basepath: string, useUserName: bool, anonymize: bool,
                 revBefore: (string, int) -> string)
    requires c.Valid()
    modifies host
    ensures host.log == old(host.log)
      + PullCommands(c, c.repo2group, basepath, useUserName, anonymize, Rollback(c), revBefore, c.Repositories(), old(host.dirs))
    ensures host.dirs == PulledDirs(c, c.repo2group, basepath, useUserName, anonymize, c.Repositories(), old(host.dirs))
    ensures host.localBranches == old(host.localBranches)
  {
    var repos := c.Repositories();
    PullRepos(c, host, c.repo2group, basepath, useUserName, anonymize, Rollback(c), revBefore, repos);
  }

  // ---------------------------------------------------------------------------
  // copy_to_ta_folders
  // ---------------------------------------------------------------------------

  /** The `ta_map` of `copy_to_ta_folders`: each repository with its TA folder, in order. */
  function TaTargets(c: Config, taHome: string, taDirname: string, tas: map<string, string>, repos: seq<string>)
    : seq<(string, string)>
    requires forall i :: 0 <= i < |repos| ==> repos[i] in tas
    decreases |repos|
  {
    if repos == [] then []
    else
      var last := repos[|repos| - 1];
      TaTargets(c, taHome, taDirname, tas, repos[..|repos| - 1]) + [(last, c.GraderDir(taHome, taDirname, tas[last], last))]
  }

  /** Position by position, the `ta_map` pairs each repository with its `TA_target`. */
  lemma {:induction false} TaTargetsAt(c: Config, taHome: string, taDirname: string, tas: map<string, string>,
                                       repos: seq<string>, i: int)
    requires forall i :: 0 <= i < |repos| ==> repos[i] in tas
    requires 0 <= i < |repos|
    ensures |TaTargets(c, taHome, taDirname, tas, repos)| == |repos|
    ensures TaTargets(c, taHome, taDirname, tas, repos)[i] == (repos[i], c.GraderDir(taHome, taDirname, tas[repos[i]], repos[i]))
    decreases |repos|
  {
    var init := repos[..|repos| - 1];
    if i < |repos| - 1 {
      TaTargetsAt(c, taHome, taDirname, tas, init, i);
    } else if |repos| > 1 {
      TaTargetsAt(c, taHome, taDirname, tas, init, 0);
    }
  }

  /** The folders named in a `ta_map`. */
  function Targets(m: seq<(string, string)>): (s: set<string>)
    decreases |m|
  {
    if m == [] then {} else Targets(m[..|m| - 1]) + {m[|m| - 1].1}
  }

  lemma TargetsSnoc(m: seq<(string, string)>, p: (string, string))
    ensures Targets(m + [p]) == Targets(m) + {p.1}
  {
    assert (m + [p])[..|m|] == m;
  }

  /** A folder is named in a `ta_map` exactly when some pair of it names the folder. */
  lemma {:induction false} TargetsMembers(m: seq<(string, string)>, t: string)
    ensures t in Targets(m) <==> exists i :: 0 <= i < |m| && m[i].1 == t
    decreases |m|
  {
    if m != [] {
      var init := m[..|m| - 1];
      TargetsMembers(init, t);
      if t in Targets(init) {
        var i :| 0 <= i < |init| && init[i].1 == t;
        assert m[i].1 == t;
      }
      if exists i :: 0 <= i < |m| && m[i].1 == t {
        var i :| 0 <= i < |m| && m[i].1 == t;
        if i < |init| {
          assert init[i].1 == t;
        }
      }
    }
  }

  /** The rsync command copying one repository's working copy into the folder `target`. */
  function RsyncToTa(c: Config, basepath: string, repo: string, target: string, verbose: bool): Command {
    Command(["rsync", RsyncFlag(verbose)] + ExcludeArgs(c.rsyncExcludes) + [SubmissionDir(c, basepath, repo) + "/", target], None)
  }

  /**
   * The argument list is rsync, the flag, one `--exclude=e` per configured
   * pattern in order, the working copy with a trailing `/` (so its contents
   * are copied), and the TA folder, whose last component is the digest.
   */
  lemma RsyncToTaShape(c: Config, taHome: string, taDirname: string, basepath: string, ta: string, repo: string, verbose: bool)
    requires IsHexDigest(c.sha1hex(repo))
    ensures var argv := RsyncToTa(c, basepath, repo, c.GraderDir(taHome, taDirname, ta, repo), verbose).argv;
      var n := |c.rsyncExcludes|;
      && |argv| == n + 4
      && argv[0] == "rsync" && argv[1] == RsyncFlag(verbose)
      && (forall i :: 0 <= i < n ==> argv[2 + i] == "--exclude=" + c.rsyncExcludes[i])
      && argv[n + 2] == SubmissionDir(c, basepath, repo) + "/"
      && Paths.Basename(argv[n + 3]) == c.sha1hex(repo)
  {
    var argv := RsyncToTa(c, basepath, repo, c.GraderDir(taHome, taDirname, ta, repo), verbose).argv;
    var n := |c.rsyncExcludes|;
    assert argv[n + 3] == c.GraderDir(taHome, taDirname, ta, repo);
    Paths.BasenameOfJoin(Paths.Join(Paths.Join(taHome, taDirname), ta), c.sha1hex(repo));
  }

  /** The rsync commands of `copy_to_ta_folders`, one per repository, in order. */
  function CopyToCommands(c: Config, taHome: string, taDirname: string, basepath: string,
                          tas: map<string, string>, repos: seq<string>, verbose: bool): seq<Command>
    requires forall i :: 0 <= i < |repos| ==> repos[i] in tas
    decreases |repos|
  {
    if repos == [] then []
    else
      var last := repos[|repos| - 1];
      CopyToCommands(c, taHome, taDirname, basepath, tas, repos[..|repos| - 1], verbose)
        + [RsyncToTa(c, basepath, last, c.GraderDir(taHome, taDirname, tas[last], last), verbose)]
  }

  /** Appending one repository appends its pair to the `ta_map` and its rsync to the commands. */
  lemma CopyToSnoc(c: Config, taHome: string, taDirname: string, basepath: string,
                   tas: map<string, string>, repos: seq<string>, k: int, verbose: bool)
    requires forall i :: 0 <= i < |repos| ==> repos[i] in tas
    requires 0 <= k < |repos|
    ensures var target := c.GraderDir(taHome, taDirname, tas[repos[k]], repos[k]);
      && TaTargets(c, taHome, taDirname, tas, repos[..k + 1]) == TaTargets(c, taHome, taDirname, tas, repos[..k]) + [(repos[k], target)]
      && CopyToCommands(c, taHome, taDirname, basepath, tas, repos[..k + 1], verbose)
         == CopyToCommands(c, taHome, taDirname, basepath, tas, repos[..k], verbose) + [RsyncToTa(c, basepath, repos[k], target, verbose)]
  {
    assert repos[..k + 1][..k] == repos[..k];
  }

  /** The body of `copy_to_ta_folders` for one repository: create the TA folder when missing, then rsync into it. */
  method CopyOneToTa(c: Config, host: Host, basepath: string, repo: string, target: string, verbose: bool)
    modifies host`dirs, host`log
    ensures host.dirs == old(host.dirs) + {target}
    ensures host.log == old(host.log) + [RsyncToTa(c, basepath, repo, target, verbose)]
  {
    if target !in host.dirs {
      host.Makedirs(target);
    }
    var source := SubmissionDir(c, basepath, repo) + "/";
    var cmd := ["rsync", RsyncFlag(verbose)];
    cmd := cmd + ExcludeArgs(c.rsyncExcludes);
    cmd := cmd + [source, target];
    host.Run(Command(cmd, None));
  }

  /** The loop of `copy_to_ta_folders` over `repos`, whose graders `tas` gives. */
  method CopyToRepos(c: Config, host: Host, taHome: string, taDirname: string, basepath: string,
                     tas: map<string, string>, repos: seq<string>, verbose: bool)
    returns (taMap: seq<(string, string)>)
    requires forall i :: 0 <= i < |repos| ==> repos[i] in tas
    modifies host`dirs, host`log
    ensures taMap == TaTargets(c, taHome, taDirname, tas, repos)
    ensures host.dirs == old(host.dirs) + Targets(taMap)
    ensures host.log == old(host.log) + CopyToCommands(c, taHome, taDirname, basepath, tas, repos, verbose)
  {
    ghost var dirs0, log0 := host.dirs, host.log;
    taMap := [];
    var k := 0;
    while k < |repos|
      invariant 0 <= k <= |repos|
      invariant taMap == TaTargets(c, taHome, taDirname, tas, repos[..k])
      invariant host.dirs == dirs0 + Targets(taMap)
      invariant host.log == log0 + CopyToCommands(c, taHome, taDirname, basepath, tas, repos[..k], verbose)
    {
      CopyToSnoc(c, taHome, taDirname, basepath, tas, repos, k, verbose);
      var repo := repos[k];
      var target := c.GraderDir(taHome, taDirname, tas[repo], repo);
      TargetsSnoc(taMap, (repo, target));
      UnionAssoc(dirs0, Targets(taMap), {target});
      taMap := taMap + [(repo, target)];
      CopyOneToTa(c, host, basepath, repo, target, verbose);
      AppendAssoc(log0, CopyToCommands(c, taHome, taDirname, basepath, tas, repos[..k], verbose), [RsyncToTa(c, basepath, repo, target, verbose)]);
      k := k + 1;
    }
    assert repos[..k] == repos;
  }

  /**
   * `copy_to_ta_folders`: for every repository in sorted order, record its
   * TA folder (`TA_target`) in `ta_map`, create the folder when missing
   * and rsync the working copy into it. Afterwards every TA folder exists.
   */
  method CopyToTaFolders(c: Config, host: Host, taHome: string, taDirname: string, basepath: string, verbose: bool)
    returns (taMap: seq<(string, string)>)
    requires c.Valid() && c.Assigned()
    modifies host
    ensures taMap == TaTargets(c, taHome, taDirname, c.taAssignments, c.Repositories())
    ensures host.dirs == old(host.dirs) + Targets(taMap)
    ensures host.log == old(host.log) + CopyToCommands(c, taHome, taDirname, basepath, c.taAssignments, c.Repositories(), verbose)
    ensures host.localBranches == old(host.localBranches)
  {
    var repos := c.Repositories();
    taMap := CopyToRepos(c, host, taHome, taDirname, basepath, c.taAssignments, repos, verbose);
  }

  // ---------------------------------------------------------------------------
  // copy_from_ta_folders
  // ---------------------------------------------------------------------------

  /**
   * How a stage over the working copies ends: it completes, or it stops at
   * the first missing working copy (`copy_from_ta_folders` exits there;
   * `commit_changes` dies there, as `Popen(..., cwd=rdir)` raises
   * FileNotFoundError for a directory that does not exist).
   */
  datatype StageOutcome = Completed | Aborted(missing: string)

  /** The fixed excludes of the copy back: git metadata and compiled classes. */
  const CopyBackExcludes: seq<string> := ["--exclude=*/.git", "--exclude=*/.gitignore", "--exclude=*/*.class"]

  /** The rsync command copying the contents of the TA folder `source` back into the working copy. */
  function RsyncFromTa(c: Config, basepath: string, repo: string, source: string, verbose: bool): Command {
    Command(["rsync", RsyncFlag(verbose)] + CopyBackExcludes + [source + "/", SubmissionDir(c, basepath, repo)], None)
  }

  /** The rsync commands of `copy_from_ta_folders` for the repositories copied, in order. */
  function CopyFromCommands(c: Config, taHome: string, taDirname: string, basepath: string,
                            tas: map<string, string>, repos: seq<string>, verbose: bool): seq<Command>
    requires forall i :: 0 <= i < |repos| ==> repos[i] in tas
    decreases |repos|
  {
    if repos == [] then []
    else
      var last := repos[|repos| - 1];
      CopyFromCommands(c, taHome, taDirname, basepath, tas, repos[..|repos| - 1], verbose)
        + [RsyncFromTa(c, basepath, last, c.GraderDir(taHome, taDirname, tas[last], last), verbose)]
  }

  lemma CopyFromSnoc(c: Config, taHome: string, taDirname: string, basepath: string,
                     tas: map<string, string>, repos: seq<string>, k: int, verbose: bool)
    requires forall i :: 0 <= i < |repos| ==> repos[i] in tas
    requires 0 <= k < |repos|
    ensures CopyFromCommands(c, taHome, taDirname, basepath, tas, repos[..k + 1], verbose)
      == CopyFromCommands(c, taHome, taDirname, basepath, tas, repos[..k], verbose)
         + [RsyncFromTa(c, basepath, repos[k], c.GraderDir(taHome, taDirname, tas[repos[k]], repos[k]), verbose)]
  {
    assert repos[..k + 1][..k] == repos[..k];
  }

  /** The position of the first repository whose working copy is missing; |repos| when none is. */
  function FirstMissing(c: Config, basepath: string, repos: seq<string>, dirs: set<string>): (i: nat)
    ensures i <= |repos|
    ensures forall j :: 0 <= j < i ==> SubmissionDir(c, basepath, repos[j]) in dirs
    ensures i < |repos| ==> SubmissionDir(c, basepath, repos[i]) !in dirs
    decreases |repos|
  {
    if repos == [] then 0
    else if SubmissionDir(c, basepath, repos[0]) !in dirs then 0
    else
      var i := FirstMissing(c, basepath, repos[1..], dirs);
      assert forall j :: 1 <= j < i + 1 ==> repos[j] == repos[1..][j - 1];
      i + 1
  }

  /** The copy of one TA folder back into the working copy `target`, which exists. */
  method CopyOneFromTa(c: Config, host: Host, basepath: string, repo: string, source: string, verbose: bool)
    modifies host`log
    ensures host.log == old(host.log) + [RsyncFromTa(c, basepath, repo, source, verbose)]
  {
    var target := SubmissionDir(c, basepath, repo);
    var cmd := ["rsync", RsyncFlag(verbose), "--exclude=*/.git", "--exclude=*/.gitignore", "--exclude=*/*.class",
                source + "/", target];
    assert cmd == ["rsync", RsyncFlag(verbose)] + CopyBackExcludes + [source + "/", target];
    host.Run(Command(cmd, None));
  }

  /** The loop of `copy_from_ta_folders` over `repos`, whose graders `tas` gives. */
  method CopyFromRepos(c: Config, host: Host, taHome: string, taDirname: string, basepath: string,
                       tas: map<string, string>, repos: seq<string>, verbose: bool)
    returns (outcome: StageOutcome)
    requires forall i :: 0 <= i < |repos| ==> repos[i] in tas
    modifies host`log
    ensures var i := FirstMissing(c, basepath, repos, host.dirs);
      && outcome == (if i < |repos| then Aborted(SubmissionDir(c, basepath, repos[i])) else Completed)
      && host.log == old(host.log) + CopyFromCommands(c, taHome, taDirname, basepath, tas, repos[..i], verbose)
  {
    ghost var log0 := host.log;
    ghost var stop := FirstMissing(c, basepath, repos, host.dirs);
    var k := 0;
    while k < |repos|
      invariant 0 <= k <= stop
      invariant host.log == log0 + CopyFromCommands(c, taHome, taDirname, basepath, tas, repos[..k], verbose)
    {
      CopyFromSnoc(c, taHome, taDirname, basepath, tas, repos, k, verbose);
      var repo := repos[k];
      var target := SubmissionDir(c, basepath, repo);
      var source := c.GraderDir(taHome, taDirname, tas[repo], repo);
      if target !in host.dirs {
        assert k == stop;
        return Aborted(target);
      }
      assert k != stop;
      CopyOneFromTa(c, host, basepath, repo, source, verbose);
      AppendAssoc(log0, CopyFromCommands(c, taHome, taDirname, basepath, tas, repos[..k], verbose), [RsyncFromTa(c, basepath, repo, source, verbose)]);
      k := k + 1;
    }
    assert repos[..k] == repos;
    return Completed;
  }

  /**
   * `copy_from_ta_folders`: in sorted order, copy each TA folder back
   * into the working copy, and stop at the first repository whose working
   * copy is missing, without creating it. Every earlier repository has been
   * copied and no later one has.
   */
  method CopyFromTaFolders(c: Config, host: Host, taHome: string, taDirname: string, basepath: string, verbose: bool)
    returns (outcome: StageOutcome)
    requires c.Valid() && c.Assigned()
    modifies host
    ensures var repos := c.Repositories();
      var i := FirstMissing(c, basepath, repos, old(host.dirs));
      && outcome == (if i < |repos| then Aborted(SubmissionDir(c, basepath, repos[i])) else Completed)
      && host.log == old(host.log) + CopyFromCommands(c, taHome, taDirname, basepath, c.taAssignments, repos[..i], verbose)
    ensures host.dirs == old(host.dirs) && host.localBranches == old(host.localBranches)
  {
    var repos := c.Repositories();
    outcome := CopyFromRepos(c, host, taHome, taDirname, basepath, c.taAssignments, repos, verbose);
  }

  // ---------------------------------------------------------------------------
  // commit_changes
  // ---------------------------------------------------------------------------

  /** `branch_exists`: the query `git show-ref` for the feedback branch in a working copy. */
  function ShowRef(c: Config, rdir: string): Command {
    Command(["git", "show-ref", "--verify", "--quiet", "refs/heads/" + c.feedbackBranch], Some(rdir))
  }

  /** The commands for one working copy: the query, a branch switch (creating it when absent), add, commit. */
  function CommitBlock(c: Config, rdir: string, branchExists: bool): seq<Command> {
    [ShowRef(c, rdir),
     if branchExists then Command(["git", "checkout", c.feedbackBranch], Some(rdir))
     else Command(["git", "checkout", "-b", c.feedbackBranch], Some(rdir)),
     Command(["git", "add", "*"], Some(rdir)),
     Command(["git", "commit", "-am", "TA feedback"], Some(rdir))]
  }

  /** The commands of `commit_changes` over `repos` and the local branches afterwards. */
  function CommitAll(c: Config, basepath: string, repos: seq<string>, branches: set<(string, string)>)
    : (r: (seq<Command>, set<(string, string)>))
    ensures |r.0| == 4 * |repos|
    ensures r.1 == branches + set i | 0 <= i < |repos| :: (SubmissionDir(c, basepath, repos[i]), c.feedbackBranch)
    decreases |repos|
  {
    if repos == [] then ([], branches)
    else
      var init := repos[..|repos| - 1];
      var rdir := SubmissionDir(c, basepath, repos[|repos| - 1]);
      var prev := CommitAll(c, basepath, init, branches);
      var block := CommitBlock(c, rdir, (rdir, c.feedbackBranch) in prev.1);
      assert (set i | 0 <= i < |repos| :: (SubmissionDir(c, basepath, repos[i]), c.feedbackBranch))
        == (set i | 0 <= i < |init| :: (SubmissionDir(c, basepath, init[i]), c.feedbackBranch))
           + {(rdir, c.feedbackBranch)} by {
        forall i | 0 <= i < |init| ensures init[i] == repos[i] { }
      }
      (prev.0 + block, prev.1 + {(rdir, c.feedbackBranch)})
  }

  /** The commit blocks when each working copy's branch check sees only the branches there at the start. */
  function CommitBlocks(c: Config, basepath: string, repos: seq<string>, branches: set<(string, string)>): seq<Command>
    decreases |repos|
  {
    if repos == [] then []
    else
      var rdir := SubmissionDir(c, basepath, repos[|repos| - 1]);
      CommitBlocks(c, basepath, repos[..|repos| - 1], branches)
        + CommitBlock(c, rdir, (rdir, c.feedbackBranch) in branches)
  }

  /** Distinct repositories whose working copies are distinct directories. */
  ghost predicate DistinctDirs(c: Config, basepath: string, repos: seq<string>)
  {
    forall i, j :: 0 <= i < j < |repos| ==> SubmissionDir(c, basepath, repos[i]) != SubmissionDir(c, basepath, repos[j])
  }

  /**
   * When the working copies are distinct, `commit_changes` issues for every
   * repository `checkout -b` exactly when the feedback branch was absent
   * there beforehand and a plain `checkout` otherwise, then `add` and `commit`.
   */
  lemma {:induction false} CommitAllBlocks(c: Config, basepath: string, repos: seq<string>, branches: set<(string, string)>)
    requires DistinctDirs(c, basepath, repos)
    ensures CommitAll(c, basepath, repos, branches).0 == CommitBlocks(c, basepath, repos, branches)
    decreases |repos|
  {
    if repos != [] {
      var init := repos[..|repos| - 1];
      var rdir := SubmissionDir(c, basepath, repos[|repos| - 1]);
      assert DistinctDirs(c, basepath, init);
      CommitAllBlocks(c, basepath, init, branches);
      var prev := CommitAll(c, basepath, init, branches);
      assert (rdir, c.feedbackBranch) !in (set i | 0 <= i < |init| :: (SubmissionDir(c, basepath, init[i]), c.feedbackBranch)) by {
        forall i | 0 <= i < |init| ensures SubmissionDir(c, basepath, init[i]) != rdir {
          assert init[i] == repos[i];
        }
      }
    }
  }

  /** Each repository owns four consecutive commands: query, branch switch, add, commit. */
  lemma {:induction false} CommitBlocksAt(c: Config, basepath: string, repos: seq<string>,
                                          branches: set<(string, string)>, i: int)
    requires 0 <= i < |repos|
    ensures |CommitBlocks(c, basepath, repos, branches)| == 4 * |repos|
    ensures var rdir := SubmissionDir(c, basepath, repos[i]);
      CommitBlocks(c, basepath, repos, branches)[4 * i .. 4 * i + 4]
        == CommitBlock(c, rdir, (rdir, c.feedbackBranch) in branches)
    decreases |repos|
  {
    var init := repos[..|repos| - 1];
    if i < |repos| - 1 {
      CommitBlocksAt(c, basepath, init, branches, i);
      assert init[i] == repos[i];
    } else if |repos| > 1 {
      CommitBlocksAt(c, basepath, init, branches, 0);
    }
  }

  lemma CommitAllSnoc(c: Config, basepath: string, repos: seq<string>, branches: set<(string, string)>, k: int)
    requires 0 <= k < |repos|
    ensures var prev := CommitAll(c, basepath, repos[..k], branches);
      var rdir := SubmissionDir(c, basepath, repos[k]);
      CommitAll(c, basepath, repos[..k + 1], branches)
        == (prev.0 + CommitBlock(c, rdir, (rdir, c.feedbackBranch) in prev.1), prev.1 + {(rdir, c.feedbackBranch)})
  {
    assert repos[..k + 1][..k] == repos[..k];
  }

  /** The body of `commit_changes` for one working copy, which exists. */
  method CommitOne(c: Config, host: Host, rdir: string)
    requires rdir in host.dirs
    modifies host`log, host`localBranches
    ensures host.log == old(host.log) + CommitBlock(c, rdir, (rdir, c.feedbackBranch) in old(host.localBranches))
    ensures host.localBranches == old(host.localBranches) + {(rdir, c.feedbackBranch)}
  {
    host.Run(ShowRef(c, rdir));
    if (rdir, c.feedbackBranch) !in host.localBranches {
      host.CreateBranch(rdir, c.feedbackBranch);
    } else {
      host.Run(Command(["git", "checkout", c.feedbackBranch], Some(rdir)));
    }
    host.Run(Command(["git", "add", "*"], Some(rdir)));
    host.Run(Command(["git", "commit", "-am", "TA feedback"], Some(rdir)));
  }

  /**
   * The loop of `commit_changes` over `repos`: every working copy before the
   * first missing one is committed, and the loop dies at that one before
   * running anything in it.
   */
  method CommitRepos(c: Config, host: Host, basepath: string, repos: seq<string>) returns (outcome: StageOutcome)
    modifies host`log, host`localBranches
    ensures var i := FirstMissing(c, basepath, repos, host.dirs);
      var r := CommitAll(c, basepath, repos[..i], old(host.localBranches));
      && outcome == (if i < |repos| then Aborted(SubmissionDir(c, basepath, repos[i])) else Completed)
      && host.log == old(host.log) + r.0 && host.localBranches == r.1
  {
    ghost var log0, branches0 := host.log, host.localBranches;
    ghost var stop := FirstMissing(c, basepath, repos, host.dirs);
    var k := 0;
    while k < |repos|
      invariant 0 <= k <= stop
      invariant var r := CommitAll(c, basepath, repos[..k], branches0);
        host.log == log0 + r.0 && host.localBranches == r.1
    {
      var rdir := SubmissionDir(c, basepath, repos[k]);
      if rdir !in host.dirs {
        assert k == stop;
        return Aborted(rdir);
      }
      assert k != stop;
      CommitAllSnoc(c, basepath, repos, branches0, k);
      ghost var prev := CommitAll(c, basepath, repos[..k], branches0);
      CommitOne(c, host, rdir);
      AppendAssoc(log0, prev.0, CommitBlock(c, rdir, (rdir, c.feedbackBranch) in prev.1));
      k := k + 1;
    }
    assert repos[..k] == repos;
    return Completed;
  }

  /**
   * `commit_changes`: for every repository in sorted order, switch the
   * working copy to the feedback branch (creating it when `branch_exists`
   * says it is absent), then add all files and commit; at the first
   * repository whose working copy is missing the stage dies, having
   * committed every earlier one and touched no later one.
   */
  method CommitChanges(c: Config, host: Host, basepath: string) returns (outcome: StageOutcome)
    requires c.Valid()
    modifies host
    ensures var repos := c.Repositories();
      var i := FirstMissing(c, basepath, repos, old(host.dirs));
      var r := CommitAll(c, basepath, repos[..i], old(host.localBranches));
      && outcome == (if i < |repos| then Aborted(SubmissionDir(c, basepath, repos[i])) else Completed)
      && host.log == old(host.log) + r.0 && host.localBranches == r.1
    ensures host.dirs == old(host.dirs)
  {
    var repos := c.Repositories();
    outcome := CommitRepos(c, host, basepath, repos);
  }

  /**
   * `pull_all` without group names, with the configured anonymisation,
   * leaves every working copy in place, so a later `commit_changes` over the
   * same repositories completes.
   */
  lemma {:induction false} PulledCommitCompletes(c: Config, basepath: string, repos: seq<string>, dirs: set<string>)
    ensures FirstMissing(c, basepath, repos, PulledDirs(c, c.repo2group, basepath, false, c.anonymizeSubPath, repos, dirs))
      == |repos|
  {
    var after := PulledDirs(c, c.repo2group, basepath, false, c.anonymizeSubPath, repos, dirs);
    PulledDirsAre(c, c.repo2group, basepath, false, c.anonymizeSubPath, repos, dirs);
    forall j | 0 <= j < |repos| ensures SubmissionDir(c, basepath, repos[j]) in after {
      assert WorkingCopy(c, c.repo2group, basepath, repos[j], false, c.anonymizeSubPath) == SubmissionDir(c, basepath, repos[j]);
    }
  }
}
