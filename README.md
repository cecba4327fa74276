# infrastructor, modelled in Dafny

infrastructor is a set of Python scripts that a course's teaching staff uses
to manage student submissions kept in git repositories. A JSON configuration
names each student's group repository and the TAs, and the scripts then:

- name each group's repository (`group2repo`);
- deal the repositories to the TAs, round robin after a shuffle seeded by the
  Java hash of the assignment name;
- pull or clone every repository;
- copy the working copies into anonymised TA folders and back;
- commit the feedback on a branch;
- open a pull request.

Two helper scripts build the `repository_map` from a file of groups
(`generate-config.py`) and compare a class list with a roster
(`count-students.py`).

The Dafny modules follow the program's structure:

- `Strings` (`strings.dfy`): the Python string built-ins the code relies on, on
  ASCII. These are `lower`/`casefold`, the `\w` and `\s` classes, `strip` and
  `rstrip`, `split` and `join`, the order of `sorted`, and `str` of an integer.
- `Paths` (`paths.dfy`): `os.path.join` and `os.path.basename`.
- `Naming` (`naming.dfy`): `utils.py`. It covers `normalize`,
  `canonical_group_name`, `group2repo`, `java_string_hashcode` (a loop method
  proved against its polynomial definition) and `round_robin_map` (a loop
  method with its balance properties).
- `Assignment` (`assignment.dfy`): the `Config` class of `config.py`, as a
  Dafny `class` whose dict fields are maps paired with their key order. This
  includes `add_mapping`, the constructor's loops, `repositories`, the lookups,
  `pull_path`, `TA_target`, `repo_ssh_path`, `deanonymize_sha1_repo` and the
  decision logic of `issue_pull_request`.
- `Arguments` (`arguments.dfy`): `merge_dicts` and the recursive `rec_argparse`.
- `Orchestrator` (`orchestrator.dfy`): the stages `pull_all`,
  `copy_to_ta_folders`, `copy_from_ta_folders` and `commit_changes`. The
  machine is a `Host` object that records the directories that exist, the
  local branches, and the log of external commands issued. Each stage is a
  loop method proved against a function that lists the commands it issues.
- `GenerateConfig` (`generate_config.dfy`): the group-line parsing and the
  nested `repo_map` loop of `generate-config.py`.
- `Roster` (`roster.dfy`): the set algebra of `count-students.py`.

`config.py` and `Infrastructor.py` hold near-identical copies of the helpers
and stages. They are modelled once: the rows below cite the copy the model
follows.

## Model

| member | source | states |
|---|---|---|
| Strings.Lower | utils.py:9 | `lower()` keeps the length, leaves no upper-case letter, and changes no character other than an upper-case letter |
| Strings.LowerIdempotent | count-students.py:29 | case-folding an already folded name changes nothing |
| Strings.RStrip | generate-config.py:38 | `rstrip()` is the longest prefix not ending in whitespace; everything dropped is whitespace |
| Strings.LStrip | count-students.py:21 | the leading half of `strip()`: the longest suffix not starting with whitespace |
| Strings.SortSortedPermutation | config.py:217-220 | `sorted` returns a sorted permutation of its argument |
| Strings.SortedUnique | config.py:217-220 | two sorted lists with the same elements are equal, so `sorted` is determined by its input's elements |
| Strings.SortPermutationInvariant | utils.py:13 | `sorted` depends only on the multiset of its input |
| Strings.SortDistinct | config.py:217-220 | sorting distinct keys gives a strictly increasing list of exactly those keys |
| Strings.Split | generate-config.py:38 | `split(sep)` gives at least one piece and no piece contains the separator |
| Strings.JoinSplit | generate-config.py:38 | joining the pieces of `split(sep)` with `sep` gives the string back |
| Strings.SplitJoin | utils.py:13 | splitting a join of separator-free pieces gives the pieces back |
| Strings.NatDecimal | Infrastructor.py:174 | `str(n)` of a natural number is a non-empty digit string without a leading zero |
| Strings.DecimalRoundTrip | Infrastructor.py:174 | the due date written with `str` reads back as the same integer, with a minus sign when negative |
| Paths.JoinEndsWith | config.py:236-238 | `os.path.join(a, b)` ends with `b`; an absolute `b` replaces `a`; an empty or relative `b` keeps `a` as a prefix |
| Paths.Basename | config.py:381 | `basename` is the slash-free tail of the path, preceded by a slash when shorter than the path |
| Paths.BasenameOfJoin | config.py:381 | the basename of `join(a, name)` is `name` when `name` has no slash |
| Naming.Normalize | utils.py:8-9 | `normalize` keeps the length; each output character is the lower-cased input character when that is a word or space character, and `_` otherwise; the output has no upper-case letter and no `-` |
| Naming.NormalizeIdempotent | utils.py:8-9 | normalising twice is normalising once |
| Naming.NormalizeAllPermutation | utils.py:13 | normalising each member of permuted groups gives permuted results |
| Naming.CanonicalGroupNamePermutation | utils.py:12-13 | `canonical_group_name` does not depend on the order of the group's members |
| Naming.SortedMembersHaveNoDash | utils.py:12-13 | the sorted, normalised members keep the group's size and contain no `-` |
| Naming.CanonicalGroupNameSplit | utils.py:12-13 | for a non-empty group, splitting the canonical name on `-` gives exactly the sorted normalised members |
| Naming.GroupToRepoSplit | utils.py:16-21 | the repository name is the normalised course and assignment names, then `-`, then the canonical group name |
| Naming.GroupToRepoSameIff | utils.py:16-21 | two non-empty groups get the same repository exactly when their sorted normalised members are equal |
| Naming.SameRepoSameMembers | utils.py:16-21 | groups sharing a repository have the same normalised members, with multiplicity |
| Naming.HornerIsPolynomialSum | utils.py:25-29 | the loop's Horner accumulation equals the sum of `ord(c_i)·31^(n-1-i)` |
| Naming.JavaHashSpec | utils.py:25-29 | the hash lies in [-2^31, 2^31) and is congruent to the polynomial sum modulo 2^32 |
| Naming.JavaStringHashCode | utils.py:25-29 | the loop, keeping `h` in [0, 2^32), returns the Java string hash |
| Naming.RoundRobin | utils.py:45-58 | the dealt map's keys are exactly the repositories and every value is one of the TAs |
| Naming.RoundRobinMap | utils.py:45-58 | the loop fails exactly when there are repositories and no TA; otherwise it returns the round-robin deal |
| Naming.RoundRobinLastOccurrence | utils.py:49-56 | the last occurrence of a repository at position k decides its TA: `tas[k mod len(tas)]` |
| Naming.RoundRobinDistinct | utils.py:49-56 | with distinct repositories, `repos[k]` goes to `tas[k mod len(tas)]` for every k |
| Naming.RoundRobinLoad | utils.py:45-58 | with distinct TAs and repositories, TA j receives exactly its share of the repositories |
| Naming.LoadStep | utils.py:45-58 | dealing one more repository raises the load of exactly the TA whose turn it is |
| Naming.RoundRobinBalanced | utils.py:45-58 | any two TAs' loads differ by at most one |
| Assignment.AddPairEffect | config.py:179-191 | after `add_mapping(u, r)`, u points at r, u is the last member of r's group, and every other group is unchanged |
| Assignment.AddPairTwice | config.py:185-188 | adding the same pair twice lists the user twice in the group, because there is no deduplication |
| Assignment.AddPairPreserves | config.py:179-191 | adding a new user keeps the dict key orders exact and keeps groups the fibres of `user2repo` |
| Assignment.BuildUsers | config.py:139-140 | the constructor's loop points each student at its `repository_map` entry, and only students are keys |
| Assignment.BuildRepos | config.py:139-140 | the repositories with groups are exactly those `repository_map` names |
| Assignment.BuildPartition | config.py:139-140 | over distinct student keys, `u` is in `repo2group[r]` iff `user2repo[u] == r`, and the users are the students in order |
| Assignment.HexDigestHasNoSlash | config.py:231 | a hex SHA-1 digest contains no `/`, so it is a single path component |
| Assignment.FirstPreimage | config.py:370-377 | the result is the first key, in dict order, whose digest matches; None exactly when no key matches |
| Assignment.DeanonymizeRoundTrip | config.py:370-377 | when the digest is injective on the known repositories, deanonymising `sha1hex(r)` gives back `r` |
| Assignment.AssignTAs | config.py:143-150 | every repository, and nothing else, gets a TA drawn from the configured list; with TAs, the result is the round-robin deal of the sorted TAs over the seeded shuffle |
| Assignment.Config.constructor | config.py:106-150 | the fields are the configuration's values, `anonymize_sub_path` defaults to true, the tables are the constructor loop's result and form a partition, and every repository has a TA from the list |
| Assignment.Config.AddMappings | config.py:139-140 | the loop over the keys of `repository_map` builds the tables `Build` describes and leaves the TA map alone |
| Assignment.Config.AddMapping | config.py:179-191 | `add_mapping` in place: the new tables are `AddPair` of the old ones, and for a user not yet mapped the key orders stay exact and `repo2group` stays the partition of `user2repo` |
| Assignment.Config.ListOfUsers | config.py:176-177 | the students, each once, exactly the keys of `user2repo` |
| Assignment.Config.Repositories | config.py:217-220 | the list holds exactly the keys of `repo2group` |
| Assignment.Config.TALoadBalanced | config.py:143-150 | with distinct TAs, the constructor's deal gives any two TAs numbers of repositories that differ by at most one |
| Assignment.Config.RepositoriesSorted | config.py:217-220 | `repositories()` is strictly increasing |
| Assignment.Config.LookupsAgree | config.py:193-197 | `lookupRepo(u) == r` iff `u` is in `lookupGroup(r)` |
| Assignment.Config.LookupTACovers | config.py:225-226 | after construction `lookupTA(r)` succeeds exactly for the repositories |
| Assignment.Config.RepoSshPathInjective | config.py:222-223 | distinct repositories have distinct remote addresses |
| Assignment.Config.PullPathShape | config.py:228-238 | `pull_path` fails exactly on a repository without a group when group names are asked for; otherwise its basename is the repository name, or its digest when anonymising |
| Assignment.Config.TATargetAnonymous | config.py:241-242 | `TA_target` exists exactly for repositories with a TA; its basename is the digest, so it is not the repository name unless that name is itself 40 hex digits |
| Assignment.Config.DeanonymizeSha1Repo | config.py:370-377 | the loop returns the first preimage in dict order, or the fatal exit |
| Assignment.Config.IssuePullRequest | config.py:379-429 | ENOENT iff `master` is missing on the remote; otherwise EEXIST iff the feedback branch is there; in both cases nothing is pushed or opened; otherwise one push from the submission folder and one pull request, return 0 |
| Arguments.MergeDicts | Infrastructor.py:20-24 | every key of either dict; the update's value wins on clashes; the base's value is kept otherwise |
| Arguments.RecArgparseAccepts | Infrastructor.py:35-60 | parsing succeeds iff there is at least one argument and every argument before the last is `-v`; the result is the last argument as the file, verbose iff there was a flag |
| Arguments.RecArgparseBaseCases | Infrastructor.py:40-50 | one argument gives that file, not verbose; none gives the usage exit |
| Arguments.RecArgparseFlags | Infrastructor.py:51-60 | k ≥ 1 copies of `-v` then a file give that file, verbose; any other leading token is a usage exit |
| Orchestrator.Host.Makedirs | Infrastructor.py:209-210 | `os.makedirs` adds the path to the existing directories |
| Orchestrator.Host.Run | Infrastructor.py:223 | `call`/`Popen(...).wait()` appends the command to the log |
| Orchestrator.Host.CreateBranch | Infrastructor.py:280-281 | `git checkout -b` is logged and creates the local branch |
| Orchestrator.SubmissionDirIsPullPath | Infrastructor.py:213-214 | a repository's working copy for the copy and commit stages is its `pull_path` without group names |
| Orchestrator.ExcludeArgs | Infrastructor.py:221 | one `--exclude=e` per configured pattern, in order |
| Orchestrator.ConfigAttributes | config.py:119-135 | the attributes the constructor sets include `due_date` exactly when a due date is configured |
| Orchestrator.RollbackNeverHappens | Infrastructor.py:169 | the guard as written never fires, even when a due date is configured |
| Orchestrator.Rollback | config.py:133-134 | the corrected guard rolls back exactly when the constructor set `due_date`, to that date |
| Orchestrator.PulledDirsAre | Infrastructor.py:156-164 | afterwards the directories are the old ones plus every repository's working copy, and nothing else |
| Orchestrator.PullAllPresent | Infrastructor.py:159-166 | when every working copy exists, `pull_all` clones nothing and creates no directory |
| Orchestrator.PullAllRerun | Infrastructor.py:156-166 | a second run leaves the directories as the first left them and only pulls |
| Orchestrator.PullOne | Infrastructor.py:157-184 | one repository: clone and create the working copy when it is missing, pull otherwise, then the rev-list and checkout of the rollback when asked |
| Orchestrator.PullRepos | Infrastructor.py:156-184 | the loop issues exactly the commands `PullCommands` lists and leaves the directories `PulledDirs` gives |
| Orchestrator.PullAll | Infrastructor.py:153-184 | `pull_all` over `repositories()`, with the corrected rollback guard, leaving the local branches alone |
| Orchestrator.TaTargetsAt | Infrastructor.py:199-207 | position by position, `ta_map` pairs each repository with its TA folder |
| Orchestrator.TargetsMembers | Infrastructor.py:209-210 | a folder is created exactly when some pair of `ta_map` names it |
| Orchestrator.RsyncToTaShape | Infrastructor.py:213-223 | the rsync command is the flag, one exclude per pattern in order, the working copy with a trailing `/`, then the TA folder, whose basename is the digest |
| Orchestrator.CopyOneToTa | Infrastructor.py:204-223 | one repository: the TA folder exists afterwards and one rsync is logged |
| Orchestrator.CopyToRepos | Infrastructor.py:202-223 | the loop builds `ta_map`, creates exactly its folders, and logs the rsyncs in order |
| Orchestrator.CopyToTaFolders | Infrastructor.py:195-226 | `ta_map` is each repository in sorted order with its `TA_target`, every target exists afterwards, and the rsyncs are logged in that order |
| Orchestrator.FirstMissing | Infrastructor.py:240-244 | the position of the first repository whose working copy is missing: all earlier ones exist |
| Orchestrator.CopyOneFromTa | Infrastructor.py:249-258 | one rsync from the TA folder back into the working copy, with the fixed excludes |
| Orchestrator.CopyFromRepos | Infrastructor.py:231-258 | the loop copies back exactly the repositories before the first missing working copy, then aborts naming it |
| Orchestrator.CopyFromTaFolders | Infrastructor.py:228-258 | in sorted order, every repository before the first missing working copy is copied back and none after; nothing is created |
| Orchestrator.CommitAll | Infrastructor.py:271-293 | four commands per repository, and afterwards every working copy has the feedback branch |
| Orchestrator.CommitAllBlocks | Infrastructor.py:276-284 | with distinct working copies, `checkout -b` is issued exactly where the branch was absent beforehand, a plain `checkout` otherwise |
| Orchestrator.CommitBlocksAt | Infrastructor.py:271-293 | each repository owns four consecutive commands: query, branch switch, `add`, `commit` |
| Orchestrator.CommitOne | Infrastructor.py:272-293 | one existing working copy: the branch query, the switch (creating the branch when absent), add and commit |
| Orchestrator.CommitRepos | Infrastructor.py:263-293 | the loop commits exactly the repositories before the first missing working copy, logging the commands `CommitAll` lists for them and leaving its branches, then dies naming that working copy |
| Orchestrator.CommitChanges | Infrastructor.py:263-293 | `commit_changes` over `repositories()`: every repository before the first missing working copy is committed and none after, where `Popen(cwd=rdir)` raises FileNotFoundError; no directory changes |
| Orchestrator.PulledCommitCompletes | Infrastructor.py:153-166 | after `pull_all` without group names and with the configured anonymisation every working copy exists, so `commit_changes` completes |
| GenerateConfig.ParseArgs | generate-config.py:17-22 | the two file names exactly when two arguments follow the program name, else the usage exit |
| GenerateConfig.ParseGroupLineJoin | generate-config.py:37-39 | a line yields at least one name, no name holds a comma, and the names joined by commas give the stripped line |
| GenerateConfig.ReadGroups | generate-config.py:35-40 | one group per line, in file order |
| GenerateConfig.AssignGroupEffect | generate-config.py:51-53 | the inner loop points every member at the group's repository and leaves everyone else |
| GenerateConfig.RepoMapKeys | generate-config.py:46-53 | the keys of `repo_map` are exactly the union of the group members |
| GenerateConfig.RepoMapLastGroup | generate-config.py:47-53 | a student listed by several groups gets the repository of the last of them |
| GenerateConfig.GroupSameRepo | generate-config.py:47-53 | when each student is in one group, all members of a group map to `group2repo(course, assignment, group)` |
| GenerateConfig.BuildRepoMap | generate-config.py:46-53 | the nested loop computes `repo_map` |
| GenerateConfig.WithRepositoryMap | generate-config.py:56 | the output is the template with only `repository_map` replaced, by exactly the students and their repositories |
| GenerateConfig.ReorderedRepoMapKeys | generate-config.py:43-53 | whatever order the shuffle produces, the students are exactly the names on the file's lines |
| GenerateConfig.GenerateOutcome | generate-config.py:31-56 | the script fails exactly when the assignment name is missing, or the course is missing and the file has a line; otherwise the new map's students are exactly the names in the file |
| GenerateConfig.Generate | generate-config.py:25-56 | `main` computes the configuration `GenerateSpec` describes |
| Roster.FoldedRoster | count-students.py:19-21 | one stripped, case-folded name per roster line, in file order |
| Roster.ReadRoster | count-students.py:18-21 | the loop's `allnames` is the set of folded roster lines |
| Roster.ReadTestNames | count-students.py:23-26 | the loop's `names` are the pieces of each stripped test line, in order |
| Roster.FoldAll | count-students.py:27 | a new list holding each name case-folded, with the same length and order |
| Roster.FoldAllFolded | count-students.py:27-29 | every folded name is its own fold |
| Roster.UniqueCount | count-students.py:27-28 | there are never more unique names than names, and exactly as many iff no name repeats |
| Roster.Missing | count-students.py:33 | the missing students are roster students, disjoint from the test names, and include every roster student not listed |
| Roster.Extra | count-students.py:37 | the extra students are test names, disjoint from the roster, and include every test name not on it |
| Roster.RosterComparison | count-students.py:21-37 | case-insensitively, missing iff on the roster and not listed, and extra iff listed and not on the roster; missing ∪ (unique ∩ allnames) is the roster |
| Roster.RepeatedAppend | count-students.py:29 | filtering a concatenation filters each part in turn, so the kept names stay in their order |
| Roster.RepeatedCount | count-students.py:29 | a folded name appears in the filter as often as in its input when listed at least twice, and not at all otherwise |
| Roster.DuplicatesAre | count-students.py:29 | `duplicates` holds, with multiplicity and in order, exactly the occurrences of names listed at least twice |
| Roster.CountStudents | count-students.py:18-39 | the script computes `names`, `unique`, `missing`, `extra` and `duplicates` as `ReportOf` describes |

## Left out

- Printing, the usage text, `pretty_print`, `self_check` and reading or writing files are not modelled. The file contents are inputs, as lists of lines.
- git, rsync and the GitHub API are not executed. Each command is an entry in `Host.log`.
- The remote branch list and the output of `git rev-list` are inputs. The rev-list output is treated as a string, so `bytes.rstrip` becomes `str.rstrip`.
- `git clone` is modelled as creating exactly its working copy. `os.makedirs` creates exactly the folder named, and the model does not track the parent folders it also creates.
- SHA-1 is an uninterpreted function. Where a property needs it, its output is assumed to be 40 lower-case hex digits, and for the deanonymisation round trip it is assumed to be injective on the known repositories.
- `random.seed` and `random.shuffle` are a function parameter that must return a permutation of its argument. The Mersenne Twister is not modelled, so the exact TA dealing is not reproduced.
- Strings are ASCII only: `lower`, `casefold`, `\w` and `\s` follow their ASCII behaviour. `java_string_hashcode` iterates Python code points, and the model follows that.
- `group2repo` is modelled with its default format string only, which is the one every caller uses.
- The configuration is a complete record. The KeyError that `Config.__init__` raises for a missing required key (`hostname`, `course`, `TAs`, `rsync_excludes` and the rest, config.py:120-150) is not modelled. Only `anonymize_sub_path` and the due date are optional.
- Assignment.Config.TATargetAnonymous: SHA-1 is uninterpreted, so the lemma cannot rule out a repository named by 40 hex digits that equal its own digest. For such a name the basename of the TA folder would be the name itself.
- Assignment.Config.constructor: requires at least one TA when there are students. With students and no TAs, `round_robin_map` raises IndexError before the object exists. `Naming.RoundRobinMap` models that failure.
- `push_starter` is not modelled: it only runs git commands in the starter repository.
- The command-line glue of `Infrastructor.__init__` and the scripts built on it are not modelled. They call APIs that the repository does not define.
- JSON numbers are modelled as integers. `json.dumps` with `sort_keys` and the printed `ta_map` are not modelled.
- `generate-config.py` takes the program name from `argv[0]` for the usage text. Only the argument count is modelled.
- The fatal exits (`sys.exit(1)`) are result values: `UsageExit`, `DeanonymizeFailed`, `Aborted`. So is the FileNotFoundError that `commit_changes` raises at the first missing working copy, which is `Aborted` too.
- Assignment.Config.IssuePullRequest: does not model the FileNotFoundError that the push (`Popen(cwd=rdir)`, config.py:412) raises when the submission folder is missing, because the method has no view of the directories; it reports the push as done.

## Findings

| source | as written | input that shows it | evidently intended | confidence | as-written member | corrected member |
|---|---|---|---|---|---|---|
| Infrastructor.py:169 | `pull_all` rolls back only if the config object has the attribute `do_not_accept_changes_after_due_date_timestamp` (same at config.py:258). The constructor stores a configured due date under `due_date` (config.py:133-134), so the guard is always false. | a configuration with `"do_not_accept_changes_after_due_date_timestamp": 1600000000` | roll every working copy back to the last commit before the due date whenever one is configured | not executed | Orchestrator.RollbackAsWritten (shown never to fire by Orchestrator.RollbackNeverHappens) | Orchestrator.Rollback, used by Orchestrator.PullAll |
