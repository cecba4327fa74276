/**
 * The assignment model of config.py: the `Config` object, its
 * student -> repository table `user2repo`, the inverse repository -> group
 * table `repo2group`, the repository -> TA table `ta_assignments`, and the
 * path, naming and anonymisation helpers that read them.
 */
module Assignment {
  import opened Wrappers
  import opened Strings
  import Paths
  import opened Naming

  // ---------------------------------------------------------------------------
  // The two identity tables as a value, and what add_mapping does to them
  // ---------------------------------------------------------------------------

  /**
   * `user2repo` and `repo2group`, each a Python dict: a map together with
   * its keys in insertion order.
   */
  datatype Tables = Tables(
    user2repo: map<string, string>, users: seq<string>,
    repo2group: map<string, seq<string>>, repos: seq<string>)

  const EmptyTables := Tables(map[], [], map[], [])

  /**
   * `add_mapping(user, repo)`: point the user at the repository and append
   * the user to the repository's group, creating the group if it is new.
   * Nothing is deduplicated. Re-pointing a known user keeps its dict position.
   */
  function AddPair(t: Tables, user: string, repo: string): Tables {
    Tables(
      t.user2repo[user := repo],
      if user in t.user2repo then t.users else t.users + [user],
      t.repo2group[repo := if repo in t.repo2group then t.repo2group[repo] + [user] else [user]],
      if repo in t.repo2group then t.repos else t.repos + [repo])
  }

  /** After `add_mapping(u, r)`: u points at r, u closes r's group, every other group is untouched. */
  lemma AddPairEffect(t: Tables, user: string, repo: string)
    ensures AddPair(t, user, repo).user2repo[user] == repo
    ensures var g := AddPair(t, user, repo).repo2group[repo];
      g != [] && g[|g| - 1] == user && g[..|g| - 1] == (if repo in t.repo2group then t.repo2group[repo] else [])
    ensures forall r :: r != repo ==>
      (r in AddPair(t, user, repo).repo2group <==> r in t.repo2group)
      && (r in t.repo2group ==> AddPair(t, user, repo).repo2group[r] == t.repo2group[r])
  {
  }

  /** `add_mapping` does no deduplication: the same pair twice lists the user twice. */
  lemma AddPairTwice(t: Tables, user: string, repo: string)
    ensures var g := AddPair(AddPair(t, user, repo), user, repo).repo2group[repo];
      |g| >= 2 && g[|g| - 2] == user && g[|g| - 1] == user
  {
  }

  /** Each dict's key order lists exactly its keys, each once. */
  ghost predicate KeysOrdered(t: Tables) {
    && Distinct(t.users) && (forall u :: u in t.user2repo <==> u in t.users)
    && Distinct(t.repos) && (forall r :: r in t.repo2group <==> r in t.repos)
  }

  /**
   * `repo2group` is the fiber partition of `user2repo`: u is in the group of
   * r exactly when u points at r; groups are non-empty and list no one twice.
   */
  ghost predicate Partitioned(t: Tables) {
    && (forall u :: u in t.user2repo ==> t.user2repo[u] in t.repo2group && u in t.repo2group[t.user2repo[u]])
    && (forall r, u :: r in t.repo2group && u in t.repo2group[r] ==> u in t.user2repo && t.user2repo[u] == r)
    && (forall r :: r in t.repo2group ==> t.repo2group[r] != [] && Distinct(t.repo2group[r]))
  }

  /** Appending an element not yet listed keeps a list free of repetitions. */
  lemma DistinctSnoc(s: seq<string>, x: string)
    requires Distinct(s) && x !in s
    ensures Distinct(s + [x])
  {
    var s' := s + [x];
    forall i, j | 0 <= i < j < |s'| ensures s'[i] != s'[j] {
      if j == |s| {
        assert s'[i] == s[i];
      } else {
        assert s'[i] == s[i] && s'[j] == s[j];
      }
    }
  }

  /** Adding a user not seen before keeps each dict's key order exact. */
  lemma AddPairKeysOrdered(t: Tables, user: string, repo: string)
    requires KeysOrdered(t)
    requires user !in t.user2repo
    ensures KeysOrdered(AddPair(t, user, repo))
  {
    DistinctSnoc(t.users, user);
    if repo !in t.repo2group {
      DistinctSnoc(t.repos, repo);
    }
  }

  /** Adding a user not seen before keeps the groups the fibres of `user2repo`. */
  lemma AddPairPartitioned(t: Tables, user: string, repo: string)
    requires Partitioned(t)
    requires user !in t.user2repo
    ensures Partitioned(AddPair(t, user, repo))
  {
    var t' := AddPair(t, user, repo);
    forall r, u | r in t'.repo2group && u in t'.repo2group[r]
      ensures u in t'.user2repo && t'.user2repo[u] == r
    {
      if r == repo && u != user && repo in t.repo2group {
        assert u in t.repo2group[repo] + [user];
        assert u in t.repo2group[repo];
      }
    }
    forall r | r in t'.repo2group ensures t'.repo2group[r] != [] && Distinct(t'.repo2group[r]) {
      if r == repo && repo in t.repo2group {
        assert user !in t.repo2group[repo];
        DistinctSnoc(t.repo2group[repo], user);
      }
    }
  }

  /** Adding a user not seen before keeps the key orders and the partition. */
  lemma AddPairPreserves(t: Tables, user: string, repo: string)
    requires KeysOrdered(t) && Partitioned(t)
    requires user !in t.user2repo
    ensures KeysOrdered(AddPair(t, user, repo)) && Partitioned(AddPair(t, user, repo))
  {
    AddPairKeysOrdered(t, user, repo);
    AddPairPartitioned(t, user, repo);
  }

  /** The tables the constructor builds from the keys of `repository_map`, in order. */
  function Build(students: seq<string>, repositoryMap: map<string, string>): Tables
    requires forall s :: s in students ==> s in repositoryMap
    decreases |students|
  {
    if students == [] then EmptyTables
    else
      var last := students[|students| - 1];
      AddPair(Build(students[..|students| - 1], repositoryMap), last, repositoryMap[last])
  }

  /** The constructor's loop points each student at its repository from `repository_map`, and at nothing else. */
  lemma {:induction false} BuildUsers(students: seq<string>, repositoryMap: map<string, string>)
    requires forall s :: s in students ==> s in repositoryMap
    ensures forall s :: s in Build(students, repositoryMap).user2repo <==> s in students
    ensures forall s :: s in Build(students, repositoryMap).user2repo ==>
      Build(students, repositoryMap).user2repo[s] == repositoryMap[s]
    decreases |students|
  {
    if students != [] {
      BuildUsers(students[..|students| - 1], repositoryMap);
      assert students == students[..|students| - 1] + [students[|students| - 1]];
    }
  }

  /** The groups built are exactly the repositories `repository_map` names for the students. */
  lemma {:induction false} BuildRepos(students: seq<string>, repositoryMap: map<string, string>)
    requires forall s :: s in students ==> s in repositoryMap
    ensures forall r :: r in Build(students, repositoryMap).repo2group <==>
      exists s :: s in students && repositoryMap[s] == r
    decreases |students|
  {
    if students != [] {
      var init := students[..|students| - 1];
      var last := students[|students| - 1];
      BuildRepos(init, repositoryMap);
      assert students == init + [last];
      var t := Build(students, repositoryMap);
      forall r ensures r in t.repo2group <==> exists s :: s in students && repositoryMap[s] == r {
        if r in t.repo2group && r != repositoryMap[last] {
          var s :| s in init && repositoryMap[s] == r;
          assert s in students;
        }
        if r !in t.repo2group {
          forall s | s in students ensures repositoryMap[s] != r {
            if s != last {
              assert s in init;
            }
          }
        }
      }
    }
  }

  /**
   * Over distinct students, the constructor's loop keeps each dict's key
   * order, lists the students in order, and leaves `repo2group` the fiber
   * partition of `user2repo`.
   */
  lemma {:induction false} BuildPartition(students: seq<string>, repositoryMap: map<string, string>)
    requires forall s :: s in students ==> s in repositoryMap
    requires Distinct(students)
    ensures KeysOrdered(Build(students, repositoryMap)) && Partitioned(Build(students, repositoryMap))
    ensures Build(students, repositoryMap).users == students
    decreases |students|
  {
    if students != [] {
      var init := students[..|students| - 1];
      var last := students[|students| - 1];
      assert Distinct(init);
      BuildPartition(init, repositoryMap);
      BuildUsers(init, repositoryMap);
      assert last !in init;
      AddPairPreserves(Build(init, repositoryMap), last, repositoryMap[last]);
      assert students == init + [last];
    }
  }

  // ---------------------------------------------------------------------------
  // Anonymisation: the SHA-1 digest and its brute-force inverse
  // ---------------------------------------------------------------------------

  /** The shape of a hex SHA-1 digest: 40 lower-case hexadecimal digits. */
  predicate IsHexDigest(d: string) {
    |d| == 40 && forall i :: 0 <= i < |d| ==> '0' <= d[i] <= '9' || 'a' <= d[i] <= 'f'
  }

  lemma HexDigestHasNoSlash(d: string)
    requires IsHexDigest(d)
    ensures '/' !in d
  {
  }

  /**
   * `deanonymize_sha1_repo`'s search: the first repository, in dict order,
   * whose digest is `digest`; None when there is none.
   */
  function FirstPreimage(keys: seq<string>, hash: string -> string, digest: string): (r: Option<string>)
    ensures r.Some? ==> r.value in keys && hash(r.value) == digest
    ensures r.Some? ==> exists i :: 0 <= i < |keys| && keys[i] == r.value && forall j :: 0 <= j < i ==> hash(keys[j]) != digest
    ensures r.None? <==> forall i :: 0 <= i < |keys| ==> hash(keys[i]) != digest
    decreases |keys|
  {
    if keys == [] then None
    else if hash(keys[0]) == digest then Some(keys[0])
    else
      var r := FirstPreimage(keys[1..], hash, digest);
      assert r.Some? ==> exists i :: 0 <= i < |keys| && keys[i] == r.value && forall j :: 0 <= j < i ==> hash(keys[j]) != digest by {
        if r.Some? {
          var i :| 0 <= i < |keys[1..]| && keys[1..][i] == r.value && forall j :: 0 <= j < i ==> hash(keys[1..][j]) != digest;
          assert keys[i + 1] == r.value;
          assert forall j :: 0 <= j < i + 1 ==> hash(keys[j]) != digest by {
            forall j | 0 <= j < i + 1 ensures hash(keys[j]) != digest {
              if j > 0 {
                assert keys[j] == keys[1..][j - 1];
              }
            }
          }
        }
      }
      r
  }

  /** When the digest is injective on the known repositories, deanonymising an anonymised name gives it back. */
  lemma DeanonymizeRoundTrip(keys: seq<string>, hash: string -> string, repo: string)
    requires repo in keys
    requires forall a, b :: a in keys && b in keys && hash(a) == hash(b) ==> a == b
    ensures FirstPreimage(keys, hash, hash(repo)) == Some(repo)
  {
    var i :| 0 <= i < |keys| && keys[i] == repo;
    assert hash(keys[i]) == hash(repo);
  }

  // ---------------------------------------------------------------------------
  // The configuration file, and the Config object
  // ---------------------------------------------------------------------------

  /**
   * The JSON configuration after parsing: the optional keys are Options, and
   * `repository_map` is a dict given by its keys in order and its contents.
   */
  datatype ConfFile = ConfFile(
    hostname: string, course: string, assignmentName: string, starterRepo: string,
    githubOrg: string, archivePath: string, submissionPath: string, taPath: string,
    feedbackBranch: string, dueDate: Option<int>, anonymizeSubPath: Option<bool>,
    rsyncExcludes: seq<string>, tas: seq<string>,
    students: seq<string>, repositoryMap: map<string, string>)

  /** What `issue_pull_request` asks of the hosting service, in order. */
  datatype Effect =
    | Push(cwd: string, remote: string, branch: string)
    | CreatePull(repo: string, title: string, base: string, head: string, body: string)

  /** `issue_pull_request` either exits fatally in deanonymisation or returns an errno-style code. */
  datatype PullRequestOutcome =
    | DeanonymizeFailed
    | Returned(code: int, effects: seq<Effect>)

  /** errno.ENOENT and errno.EEXIST on Linux. */
  const ENOENT: int := 2
  const EEXIST: int := 17

  /**
   * The TA dealing of `Config.__init__`: sort the TAs, shuffle the sorted
   * repositories with the Java hash of the assignment name as the seed, and
   * deal them round-robin. Every repository gets a TA from the list.
   */
  method AssignTAs(tas: seq<string>, assignmentName: string, repositories: seq<string>,
                   shuffle: (int, seq<string>) -> seq<string>) returns (d: map<string, string>)
    requires forall seed, xs :: multiset(shuffle(seed, xs)) == multiset(xs)
    requires |tas| > 0 || repositories == []
    ensures forall r :: r in d <==> r in repositories
    ensures forall r :: r in d ==> d[r] in tas
    ensures |tas| > 0 ==> d == RoundRobin(Sort(tas), shuffle(JavaHash(assignmentName), repositories))
  {
    var sorted := Sort(tas);
    SortSortedPermutation(tas);
    assert forall t :: t in sorted ==> t in tas by {
      forall t | t in sorted ensures t in tas {
        assert t in multiset(sorted);
      }
    }
    assert |sorted| == |tas| by {
      assert |sorted| == |multiset(sorted)|;
    }
    var seed := JavaStringHashCode(assignmentName);
    var shuffled := shuffle(seed, repositories);
    assert forall r :: r in shuffled <==> r in repositories by {
      forall r ensures r in shuffled <==> r in repositories {
        assert r in shuffled <==> r in multiset(shuffled);
        assert r in repositories <==> r in multiset(repositories);
      }
    }
    assert |sorted| == 0 ==> shuffled == [] by {
      if |sorted| == 0 {
        assert |multiset(shuffled)| == 0;
      }
    }
    var dealt := RoundRobinMap(sorted, shuffled);
    d := dealt.value;
  }

  class Config {
    const hostname: string
    const course: string
    const assignmentName: string
    const starterRepo: string
    const githubOrg: string
    const archivePath: string
    const submissionPath: string
    const taPath: string
    const feedbackBranch: string
    /** Set only when the configuration names a due date. */
    const dueDate: Option<int>
    const anonymizeSubPath: bool
    const rsyncExcludes: seq<string>
    const verbose: bool
    /** `hashlib.sha1(repo.encode('utf-8')).hexdigest()`, not modelled beyond its shape. */
    const sha1hex: string -> string

    var user2repo: map<string, string>
    var userOrder: seq<string>
    var repo2group: map<string, seq<string>>
    var repoOrder: seq<string>
    var taAssignments: map<string, string>

    function State(): Tables
      reads this`user2repo, this`userOrder, this`repo2group, this`repoOrder
    {
      Tables(user2repo, userOrder, repo2group, repoOrder)
    }

    /** The dicts' key orders list exactly their keys, once each. */
    ghost predicate Valid()
      reads this`user2repo, this`userOrder, this`repo2group, this`repoOrder
    {
      KeysOrdered(State())
    }

    /** Every repository, and nothing else, has a TA. */
    ghost predicate Assigned()
      reads this
    {
      forall r :: r in taAssignments <==> r in repo2group
    }

    /**
     * `Config.__init__` after the JSON file is read: copy the settings, run
     * `add_mapping` over `repository_map`, sort the TAs, seed the shuffle with
     * the Java hash of the assignment name, shuffle the sorted repositories
     * and deal them out round-robin.
     */
    constructor (conf: ConfFile, verbose: bool, sha1hex: string -> string,
                 shuffle: (int, seq<string>) -> seq<string>)
      requires Distinct(conf.students)
      requires forall s :: s in conf.students <==> s in conf.repositoryMap
      requires forall seed, xs :: multiset(shuffle(seed, xs)) == multiset(xs)
      requires |conf.tas| > 0 || conf.students == []
      ensures Valid() && Partitioned(State()) && Assigned()
      ensures State() == Build(conf.students, conf.repositoryMap)
      ensures forall s :: s in user2repo <==> s in conf.repositoryMap
      ensures forall s :: s in user2repo ==> user2repo[s] == conf.repositoryMap[s]
      ensures forall r :: r in taAssignments ==> taAssignments[r] in conf.tas
      ensures |conf.tas| > 0 ==>
        taAssignments == RoundRobin(Sort(conf.tas), shuffle(JavaHash(conf.assignmentName), Repositories()))
      ensures hostname == conf.hostname && course == conf.course && assignmentName == conf.assignmentName
      ensures starterRepo == conf.starterRepo && githubOrg == conf.githubOrg && feedbackBranch == conf.feedbackBranch
      ensures archivePath == conf.archivePath && submissionPath == conf.submissionPath && taPath == conf.taPath
      ensures anonymizeSubPath == (if conf.anonymizeSubPath.Some? then conf.anonymizeSubPath.value else true)
      ensures rsyncExcludes == conf.rsyncExcludes && dueDate == conf.dueDate
      ensures this.verbose == verbose && this.sha1hex == sha1hex
    {
      hostname := conf.hostname;
      course := conf.course;
      assignmentName := conf.assignmentName;
      starterRepo := conf.starterRepo;
      githubOrg := conf.githubOrg;
      archivePath := conf.archivePath;
      submissionPath := conf.submissionPath;
      taPath := conf.taPath;
      feedbackBranch := conf.feedbackBranch;
      dueDate := conf.dueDate;
      anonymizeSubPath := if conf.anonymizeSubPath.Some? then conf.anonymizeSubPath.value else true;
      rsyncExcludes := conf.rsyncExcludes;
      this.verbose := verbose;
      this.sha1hex := sha1hex;
      user2repo := map[];
      userOrder := [];
      repo2group := map[];
      repoOrder := [];
      taAssignments := map[];
      new;
      AddMappings(conf.students, conf.repositoryMap);
      BuildPartition(conf.students, conf.repositoryMap);
      BuildUsers(conf.students, conf.repositoryMap);
      var repos := Repositories();
      assert |conf.tas| > 0 || repos == [] by {
        if conf.students == [] {
          assert repoOrder == [];
        }
      }
      taAssignments := AssignTAs(conf.tas, conf.assignmentName, repos, shuffle);
    }

    /** The constructor's loop: `add_mapping` for each key of `repository_map`, in dict order. */
    method AddMappings(students: seq<string>, repositoryMap: map<string, string>)
      requires forall s :: s in students ==> s in repositoryMap
      requires State() == EmptyTables
      modifies this
      ensures State() == Build(students, repositoryMap)
      ensures taAssignments == old(taAssignments)
    {
      var k := 0;
      while k < |students|
        invariant 0 <= k <= |students|
        invariant State() == Build(students[..k], repositoryMap)
        invariant taAssignments == old(taAssignments)
      {
        assert students[..k + 1][..k] == students[..k];
        AddMapping(students[k], repositoryMap[students[k]]);
        k := k + 1;
      }
      assert students[..k] == students;
    }

    /**
     * `add_mapping(user, repo)`, in place; for a user not yet mapped it keeps
     * the key orders exact and `repo2group` the partition of `user2repo`.
     */
    method AddMapping(user: string, repo: string)
      modifies this
      ensures State() == AddPair(old(State()), user, repo)
      ensures taAssignments == old(taAssignments)
      ensures old(KeysOrdered(State()) && Partitioned(State())) && user !in old(user2repo) ==>
        KeysOrdered(State()) && Partitioned(State())
    {
      if KeysOrdered(State()) && Partitioned(State()) && user !in user2repo {
        AddPairPreserves(State(), user, repo);
      }
      if user !in user2repo {
        userOrder := userOrder + [user];
      }
      user2repo := user2repo[user := repo];
      if repo in repo2group {
        repo2group := repo2group[repo := repo2group[repo] + [user]];
      } else {
        repo2group := repo2group[repo := [user]];
        repoOrder := repoOrder + [repo];
      }
    }

    /** `list_of_users()`: the students, in dict order. */
    function ListOfUsers(): (users: seq<string>)
      reads this`user2repo, this`userOrder, this`repo2group, this`repoOrder
      requires Valid()
      ensures Distinct(users) && forall u :: u in users <==> u in user2repo
    {
      userOrder
    }

    /** `repositories()`: the repository names, sorted. */
    function Repositories(): (rs: seq<string>)
      reads this`user2repo, this`userOrder, this`repo2group, this`repoOrder
      requires Valid()
      ensures forall r :: r in rs <==> r in repo2group
    {
      SortDistinct(repoOrder);
      Sort(repoOrder)
    }

    /**
     * The TA dealing is balanced: when the TAs are distinct and the map is
     * the constructor's deal, any two TAs grade numbers of repositories that
     * differ by at most one.
     */
    lemma TALoadBalanced(tas: seq<string>, shuffle: (int, seq<string>) -> seq<string>, t1: string, t2: string)
      requires Valid()
      requires forall seed, xs :: multiset(shuffle(seed, xs)) == multiset(xs)
      requires |tas| > 0 && Distinct(tas) && t1 in tas && t2 in tas
      requires taAssignments == RoundRobin(Sort(tas), shuffle(JavaHash(assignmentName), Repositories()))
      ensures Load(taAssignments, t1) <= Load(taAssignments, t2) + 1
    {
      var repos := Repositories();
      RepositoriesSorted();
      var shuffled := shuffle(JavaHash(assignmentName), repos);
      DistinctMultiset(repos);
      forall i, j | 0 <= i < j < |shuffled| ensures shuffled[i] != shuffled[j] {
        if shuffled[i] == shuffled[j] {
          MultisetAtLeastTwo(shuffled, i, j);
        }
      }
      SortDistinct(tas);
      RoundRobinBalanced(Sort(tas), shuffled, t1, t2);
    }

    /** The repository list is strictly increasing, so each repository appears once and the order is deterministic. */
    lemma RepositoriesSorted()
      requires Valid()
      ensures StrictlySorted(Repositories())
    {
      SortDistinct(repoOrder);
    }

    /** `lookupGroup(repo)`; None stands for the KeyError of an unknown repository. */
    function LookupGroup(repo: string): (g: Option<seq<string>>)
      reads this`repo2group
    {
      if repo in repo2group then Some(repo2group[repo]) else None
    }

    /** `lookupRepo(user)`; None stands for the KeyError of an unknown student. */
    function LookupRepo(user: string): (r: Option<string>)
      reads this`user2repo
    {
      if user in user2repo then Some(user2repo[user]) else None
    }

    /** `lookupTA(repo)`; None stands for the KeyError of a repository without a TA. */
    function LookupTA(repo: string): (ta: Option<string>)
      reads this
    {
      if repo in taAssignments then Some(taAssignments[repo]) else None
    }

    /** Through the lookups, a student's repository and a repository's group agree both ways. */
    lemma LookupsAgree(user: string, repo: string)
      requires Partitioned(State())
      ensures LookupRepo(user) == Some(repo) <==> LookupGroup(repo).Some? && user in LookupGroup(repo).value
    {
    }

    /** After construction every repository has a TA, and only repositories do. */
    lemma LookupTACovers(repo: string)
      requires Valid() && Assigned()
      ensures LookupTA(repo).Some? <==> repo in Repositories()
    {
    }

    /** `repo_ssh_path(repo)`: `git@<hostname>:<org>/<repo>.git`. */
    function RepoSshPath(repo: string): string {
      "git@" + hostname + ":" + githubOrg + "/" + repo + ".git"
    }

    /** Distinct repositories have distinct remote addresses. */
    lemma RepoSshPathInjective(a: string, b: string)
      requires RepoSshPath(a) == RepoSshPath(b)
      ensures a == b
    {
      var prefix := "git@" + hostname + ":" + githubOrg + "/";
      assert RepoSshPath(a) == prefix + a + ".git";
      assert RepoSshPath(b) == prefix + b + ".git";
      assert |a| == |b|;
      assert a == RepoSshPath(a)[|prefix|..|prefix| + |a|];
      assert b == RepoSshPath(b)[|prefix|..|prefix| + |b|];
    }

    /**
     * `pull_path(basepath, repo, use_user_name, anonymize)`: `basepath/[group/]name`,
     * where name is the digest of the repository when anonymising; None stands
     * for the KeyError of an unknown repository when the group is wanted.
     */
    function PullPath(basepath: string, repo: string, useUserName: bool, anonymize: bool): (p: Option<string>)
      reads this`repo2group
    {
      PullPathIn(repo2group, basepath, repo, useUserName, anonymize)
    }

    /** `pull_path` against the group table `groups`, which is `repo2group` for the object's own lookups. */
    function PullPathIn(groups: map<string, seq<string>>, basepath: string, repo: string, useUserName: bool, anonymize: bool)
      : (p: Option<string>)
    {
      var name := if anonymize then sha1hex(repo) else repo;
      if useUserName then
        if repo in groups then Some(Paths.Join(Paths.Join(basepath, CanonicalGroupName(groups[repo])), name))
        else None
      else Some(Paths.Join(basepath, name))
    }

    /**
     * A pull path exists unless the group of an unknown repository is asked
     * for; it ends in the digest when anonymising and in the repository name
     * otherwise.
     */
    lemma PullPathShape(basepath: string, repo: string, useUserName: bool, anonymize: bool)
      requires '/' !in repo
      requires anonymize ==> IsHexDigest(sha1hex(repo))
      ensures PullPath(basepath, repo, useUserName, anonymize).Some? <==> !useUserName || repo in repo2group
      ensures PullPath(basepath, repo, useUserName, anonymize).Some? ==>
        Paths.Basename(PullPath(basepath, repo, useUserName, anonymize).value) == (if anonymize then sha1hex(repo) else repo)
    {
      var name := if anonymize then sha1hex(repo) else repo;
      if anonymize {
        HexDigestHasNoSlash(sha1hex(repo));
      }
      if useUserName && repo in repo2group {
        Paths.BasenameOfJoin(Paths.Join(basepath, CanonicalGroupName(repo2group[repo])), name);
      } else if !useUserName {
        Paths.BasenameOfJoin(basepath, name);
      }
    }

    /** The TA folder `ta_home/ta_dirname/<ta>/<digest>` of a repository graded by `ta`. */
    function GraderDir(taHome: string, taDirname: string, ta: string, repo: string): string {
      Paths.Join(Paths.Join(Paths.Join(taHome, taDirname), ta), sha1hex(repo))
    }

    /** `TA_target(ta_home, ta_dirname, repo)`: the TA folder of the repository's TA; None when it has no TA. */
    function TATarget(taHome: string, taDirname: string, repo: string): (p: Option<string>)
      reads this`taAssignments
    {
      if repo in taAssignments then Some(GraderDir(taHome, taDirname, taAssignments[repo], repo))
      else None
    }

    /**
     * A grader path exists exactly for repositories with a TA, and it always
     * ends in the repository's digest, so it never reveals a repository name
     * that is not itself 40 hex digits.
     */
    lemma TATargetAnonymous(taHome: string, taDirname: string, repo: string)
      requires IsHexDigest(sha1hex(repo))
      ensures TATarget(taHome, taDirname, repo).Some? <==> repo in taAssignments
      ensures TATarget(taHome, taDirname, repo).Some? ==>
        Paths.Basename(TATarget(taHome, taDirname, repo).value) == sha1hex(repo)
      ensures TATarget(taHome, taDirname, repo).Some? && !IsHexDigest(repo) ==>
        Paths.Basename(TATarget(taHome, taDirname, repo).value) != repo
    {
      HexDigestHasNoSlash(sha1hex(repo));
      if repo in taAssignments {
        Paths.BasenameOfJoin(Paths.Join(Paths.Join(taHome, taDirname), taAssignments[repo]), sha1hex(repo));
      }
    }

    /** `deanonymize_sha1_repo(anonrepo)`: brute force over the repositories in dict order; None is the fatal exit. */
    method DeanonymizeSha1Repo(anonrepo: string) returns (repo: Option<string>)
      requires Valid()
      ensures repo == FirstPreimage(repoOrder, sha1hex, anonrepo)
    {
      var k := 0;
      while k < |repoOrder|
        invariant 0 <= k <= |repoOrder|
        invariant FirstPreimage(repoOrder, sha1hex, anonrepo) == FirstPreimage(repoOrder[k..], sha1hex, anonrepo)
      {
        var repohash := sha1hex(repoOrder[k]);
        if anonrepo == repohash {
          return Some(repoOrder[k]);
        }
        assert repoOrder[k..][1..] == repoOrder[k + 1..];
        k := k + 1;
      }
      return None;
    }

    /** The repository `issue_pull_request` acts on: the base name, deanonymised when anonymising. */
    function ResolveRepo(reponame: string): Option<string>
      reads this`repoOrder
    {
      if anonymizeSubPath then FirstPreimage(repoOrder, sha1hex, Paths.Basename(reponame))
      else Some(Paths.Basename(reponame))
    }

    /**
     * The decision logic of `issue_pull_request(reponame, org)`, with the
     * remote's branch list as input: abort with ENOENT when "master" is not
     * on the remote, else with EEXIST when the feedback branch already is;
     * only otherwise push the feedback branch and open one pull request.
     */
    method IssuePullRequest(reponame: string, branchesOf: string -> seq<string>) returns (outcome: PullRequestOutcome)
      requires Valid()
      ensures outcome.DeanonymizeFailed? <==> ResolveRepo(reponame).None?
      ensures outcome.Returned? ==>
        var branches := branchesOf(ResolveRepo(reponame).value);
        && (outcome.code == ENOENT <==> "master" !in branches)
        && (outcome.code == EEXIST <==> "master" in branches && feedbackBranch in branches)
        && (outcome.code == 0 <==> "master" in branches && feedbackBranch !in branches)
        && (outcome.code != 0 ==> outcome.effects == [])
        && (outcome.code == 0 ==> outcome.effects == [
              Push(Paths.Join(submissionPath, reponame), "origin", feedbackBranch),
              CreatePull(Paths.Basename(ResolveRepo(reponame).value), "Feedback", "master", feedbackBranch,
                         "Feedback on " + assignmentName + " from " + course + " teaching staff.")])
    {
      var bn := Paths.Basename(reponame);
      var repo: string;
      if anonymizeSubPath {
        var found := DeanonymizeSha1Repo(bn);
        if found.None? {
          return DeanonymizeFailed;
        }
        repo := found.value;
      } else {
        repo := bn;
      }
      var rdir := PullPath(submissionPath, reponame, false, false).value;
      var remoteBranches := branchesOf(repo);
      if "master" !in remoteBranches {
        return Returned(ENOENT, []);
      }
      if feedbackBranch in remoteBranches {
        return Returned(EEXIST, []);
      }
      var push := Push(rdir, "origin", feedbackBranch);
      var pull := CreatePull(Paths.Basename(repo), "Feedback", "master", feedbackBranch,
                             "Feedback on " + assignmentName + " from " + course + " teaching staff.");
      return Returned(0, [push, pull]);
    }
  }
}
