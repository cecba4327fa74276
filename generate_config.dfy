/**
 * generate-config.py: read one group of students per line of the student
 * file, put the groups in a pseudo-random order seeded by the assignment
 * name, name each group's repository with `group2repo`, and emit the base
 * configuration with its `repository_map` replaced by the result.
 */
module GenerateConfig {
  import opened Wrappers
  import opened Strings
  import opened Naming

  /** A JSON value as `json.load` produces it (numbers as integers). */
  datatype Json =
    | JNull
    | JBool(b: bool)
    | JNum(n: int)
    | JStr(s: string)
    | JArr(items: seq<Json>)
    | JObj(fields: map<string, Json>)

  /** The usage message followed by `sys.exit(1)`. */
  datatype UsageExit = UsageExit

  /** The configuration template lacks a string the script reads (a KeyError or TypeError in the script). */
  datatype GenerateError = BadField(key: string)

  /** `config(args)`: the student file and the template, when exactly two arguments follow the program name. */
  function ParseArgs(args: seq<string>): (r: Result<(string, string), UsageExit>)
    ensures r.Success? <==> |args| == 3
    ensures r.Success? ==> r.value.0 == args[1] && r.value.1 == args[2]
  {
    if |args| != 3 then Failure(UsageExit) else Success((args[1], args[2]))
  }

  // ---------------------------------------------------------------------------
  // Reading the student file
  // ---------------------------------------------------------------------------

  /** One line of the student file: trailing whitespace (the newline) stripped, then split at commas. */
  function ParseGroupLine(line: string): seq<string> {
    Split(RStrip(line), ',')
  }

  /** A line always yields a group of at least one name; no name holds a comma; the names joined by commas give the stripped line. */
  lemma ParseGroupLineJoin(line: string)
    ensures |ParseGroupLine(line)| >= 1
    ensures forall i :: 0 <= i < |ParseGroupLine(line)| ==> ',' !in ParseGroupLine(line)[i]
    ensures Join(ParseGroupLine(line), ',') == RStrip(line)
  {
    JoinSplit(RStrip(line), ',');
  }

  /** The groups of a file, one per line, in file order. */
  function ParseGroups(lines: seq<string>): seq<seq<string>> {
    seq(|lines|, i requires 0 <= i < |lines| => ParseGroupLine(lines[i]))
  }

  /** The reading loop appends one group per line. */
  method ReadGroups(lines: seq<string>) returns (groups: seq<seq<string>>)
    ensures |groups| == |lines|
    ensures forall i :: 0 <= i < |lines| ==> groups[i] == ParseGroupLine(lines[i])
  {
    groups := [];
    for i := 0 to |lines|
      invariant |groups| == i
      invariant forall j :: 0 <= j < i ==> groups[j] == ParseGroupLine(lines[j])
    {
      var group := ParseGroupLine(lines[i]);
      groups := groups + [group];
    }
  }

  // ---------------------------------------------------------------------------
  // Pairing students with repositories
  // ---------------------------------------------------------------------------

  /** The inner loop: point every member of `group`, in order, at `repo`. */
  function AssignGroup(m: map<string, string>, group: seq<string>, repo: string): map<string, string>
    decreases |group|
  {
    if group == [] then m else AssignGroup(m, group[..|group| - 1], repo)[group[|group| - 1] := repo]
  }

  /** After the inner loop the members point at `repo` and every other student keeps its repository. */
  lemma {:induction false} AssignGroupEffect(m: map<string, string>, group: seq<string>, repo: string)
    ensures forall s :: s in AssignGroup(m, group, repo) <==> s in m || s in group
    ensures forall s :: s in AssignGroup(m, group, repo) ==>
      AssignGroup(m, group, repo)[s] == if s in group then repo else m[s]
    decreases |group|
  {
    if group != [] {
      var init := group[..|group| - 1];
      AssignGroupEffect(m, init, repo);
      assert group == init + [group[|group| - 1]];
    }
  }

  /** The outer loop: the groups in turn, a later group overriding an earlier one. */
  function RepoMapSpec(course: string, assignment: string, groups: seq<seq<string>>): map<string, string>
    decreases |groups|
  {
    if groups == [] then map[]
    else
      var last := groups[|groups| - 1];
      AssignGroup(RepoMapSpec(course, assignment, groups[..|groups| - 1]), last, GroupToRepo(course, assignment, last))
  }

  /** Some group of `groups` lists student `s`. */
  predicate Listed(groups: seq<seq<string>>, s: string) {
    exists i :: 0 <= i < |groups| && s in groups[i]
  }

  /** The students of `repo_map` are exactly the members of the groups. */
  lemma {:induction false} RepoMapKeys(course: string, assignment: string, groups: seq<seq<string>>)
    ensures forall s :: s in RepoMapSpec(course, assignment, groups) <==> Listed(groups, s)
    decreases |groups|
  {
    if groups != [] {
      var init := groups[..|groups| - 1];
      var last := groups[|groups| - 1];
      RepoMapKeys(course, assignment, init);
      AssignGroupEffect(RepoMapSpec(course, assignment, init), last, GroupToRepo(course, assignment, last));
      forall s ensures Listed(groups, s) <==> Listed(init, s) || s in last {
        if Listed(groups, s) {
          var i :| 0 <= i < |groups| && s in groups[i];
          if i < |init| {
            assert s in init[i];
          }
        }
        if Listed(init, s) {
          var i :| 0 <= i < |init| && s in init[i];
          assert s in groups[i];
        }
      }
    }
  }

  /** A student points at the repository of the last group that lists it. */
  lemma {:induction false} RepoMapLastGroup(course: string, assignment: string, groups: seq<seq<string>>)
    ensures forall i, s :: 0 <= i < |groups| && s in groups[i] && (forall j :: i < j < |groups| ==> s !in groups[j]) ==>
      s in RepoMapSpec(course, assignment, groups)
      && RepoMapSpec(course, assignment, groups)[s] == GroupToRepo(course, assignment, groups[i])
    decreases |groups|
  {
    if groups != [] {
      var init := groups[..|groups| - 1];
      var last := groups[|groups| - 1];
      RepoMapLastGroup(course, assignment, init);
      AssignGroupEffect(RepoMapSpec(course, assignment, init), last, GroupToRepo(course, assignment, last));
      forall i, s | 0 <= i < |groups| && s in groups[i] && (forall j :: i < j < |groups| ==> s !in groups[j])
        ensures s in RepoMapSpec(course, assignment, groups)
        ensures RepoMapSpec(course, assignment, groups)[s] == GroupToRepo(course, assignment, groups[i])
      {
        if i < |init| {
          assert s in init[i];
          assert s !in groups[|groups| - 1];
          forall j | i < j < |init|
            ensures s !in init[j]
          {
            assert init[j] == groups[j];
          }
        }
      }
    }
  }

  /** With every student in one group only, all members of a group point at that group's repository. */
  lemma GroupSameRepo(course: string, assignment: string, groups: seq<seq<string>>)
    requires forall i, j, s :: 0 <= i < j < |groups| && s in groups[i] ==> s !in groups[j]
    ensures forall i, s :: 0 <= i < |groups| && s in groups[i] ==>
      s in RepoMapSpec(course, assignment, groups)
      && RepoMapSpec(course, assignment, groups)[s] == GroupToRepo(course, assignment, groups[i])
  {
    RepoMapLastGroup(course, assignment, groups);
  }

  /** The nested loop of `main` that fills `repo_map`. */
  method BuildRepoMap(course: string, assignment: string, groups: seq<seq<string>>) returns (repoMap: map<string, string>)
    ensures repoMap == RepoMapSpec(course, assignment, groups)
  {
    repoMap := map[];
    for k := 0 to |groups|
      invariant repoMap == RepoMapSpec(course, assignment, groups[..k])
    {
      assert groups[..k + 1][..k] == groups[..k];
      var group := groups[k];
      var repo := GroupToRepo(course, assignment, group);
      ghost var before := repoMap;
      for j := 0 to |group|
        invariant repoMap == AssignGroup(before, group[..j], repo)
      {
        assert group[..j + 1][..j] == group[..j];
        repoMap := repoMap[group[j] := repo];
      }
      assert group[..|group|] == group;
    }
    assert groups[..|groups|] == groups;
  }

  // ---------------------------------------------------------------------------
  // The generated configuration
  // ---------------------------------------------------------------------------

  /** A string field of the template, if present and a string. */
  function StringField(conf: map<string, Json>, key: string): Option<string> {
    if key in conf && conf[key].JStr? then Some(conf[key].s) else None
  }

  /** `repo_map` as a JSON object. */
  function RepoMapJson(repoMap: map<string, string>): Json {
    JObj(map s | s in repoMap :: JStr(repoMap[s]))
  }

  /** `conf["repository_map"] = repo_map`: the template with that one entry replaced. */
  function WithRepositoryMap(conf: map<string, Json>, repoMap: map<string, string>): (out: map<string, Json>)
    ensures "repository_map" in out && out["repository_map"].JObj?
    ensures forall s :: s in out["repository_map"].fields <==> s in repoMap
    ensures forall s :: s in repoMap ==> out["repository_map"].fields[s] == JStr(repoMap[s])
    ensures forall k :: k != "repository_map" ==> (k in out <==> k in conf)
    ensures forall k :: k != "repository_map" && k in conf ==> out[k] == conf[k]
  {
    conf["repository_map" := RepoMapJson(repoMap)]
  }

  /**
   * What the script prints for a template and the lines of a student file:
   * the assignment name is read first (for the seed); the course is read
   * only inside the loop, so it is needed only when the file has a line.
   */
  function GenerateSpec(conf: map<string, Json>, lines: seq<string>, shuffle: (int, seq<seq<string>>) -> seq<seq<string>>)
    : Result<map<string, Json>, GenerateError>
  {
    match StringField(conf, "assignment_name")
    case None => Failure(BadField("assignment_name"))
    case Some(assignment) =>
      var groups := shuffle(JavaHash(assignment), ParseGroups(lines));
      if groups != [] && StringField(conf, "course").None? then Failure(BadField("course"))
      else
        var course := if StringField(conf, "course").Some? then StringField(conf, "course").value else "";
        Success(WithRepositoryMap(conf, RepoMapSpec(course, assignment, groups)))
  }

  /** Reordering the groups does not change who is listed. */
  lemma ListedReordered(groups: seq<seq<string>>, other: seq<seq<string>>, s: string)
    requires multiset(groups) == multiset(other)
    ensures Listed(groups, s) ==> Listed(other, s)
  {
    if Listed(groups, s) {
      var i :| 0 <= i < |groups| && s in groups[i];
      assert groups[i] in multiset(other);
      var j :| 0 <= j < |other| && other[j] == groups[i];
    }
  }

  /** Whatever order the groups are put in, `repo_map` holds exactly the names on the lines of the file. */
  lemma ReorderedRepoMapKeys(course: string, assignment: string, lines: seq<string>, groups: seq<seq<string>>)
    requires multiset(groups) == multiset(ParseGroups(lines))
    ensures |groups| == |lines|
    ensures forall s :: s in RepoMapSpec(course, assignment, groups) <==>
      exists i :: 0 <= i < |lines| && s in ParseGroupLine(lines[i])
  {
    var parsed := ParseGroups(lines);
    assert |multiset(groups)| == |groups| && |multiset(parsed)| == |parsed|;
    RepoMapKeys(course, assignment, groups);
    forall s ensures Listed(groups, s) <==> Listed(parsed, s) {
      ListedReordered(groups, parsed, s);
      ListedReordered(parsed, groups, s);
    }
    forall s ensures Listed(parsed, s) <==> exists i :: 0 <= i < |lines| && s in ParseGroupLine(lines[i]) {
      if Listed(parsed, s) {
        var i :| 0 <= i < |parsed| && s in parsed[i];
        assert s in ParseGroupLine(lines[i]);
      }
      if exists i :: 0 <= i < |lines| && s in ParseGroupLine(lines[i]) {
        var i :| 0 <= i < |lines| && s in ParseGroupLine(lines[i]);
        assert s in parsed[i];
      }
    }
  }

  /**
   * With a shuffle that only reorders, the script fails exactly when the
   * assignment name is missing, or the course is missing and the file has a
   * line; otherwise the students of the new `repository_map` are exactly the
   * names on the lines of the file.
   */
  lemma GenerateOutcome(conf: map<string, Json>, lines: seq<string>, shuffle: (int, seq<seq<string>>) -> seq<seq<string>>)
    requires forall seed, gs :: multiset(shuffle(seed, gs)) == multiset(gs)
    ensures GenerateSpec(conf, lines, shuffle).Failure? <==>
      StringField(conf, "assignment_name").None? || (lines != [] && StringField(conf, "course").None?)
    ensures GenerateSpec(conf, lines, shuffle).Success? ==>
      forall s :: s in GenerateSpec(conf, lines, shuffle).value["repository_map"].fields <==>
        exists i :: 0 <= i < |lines| && s in ParseGroupLine(lines[i])
  {
    if StringField(conf, "assignment_name").Some? {
      var assignment := StringField(conf, "assignment_name").value;
      var groups := shuffle(JavaHash(assignment), ParseGroups(lines));
      var course := if StringField(conf, "course").Some? then StringField(conf, "course").value else "";
      ReorderedRepoMapKeys(course, assignment, lines, groups);
    }
  }

  /** `main`: seed from the assignment name, read the groups, shuffle them, pair students with repositories, replace the map. */
  method Generate(conf: map<string, Json>, lines: seq<string>, shuffle: (int, seq<seq<string>>) -> seq<seq<string>>)
    returns (r: Result<map<string, Json>, GenerateError>)
    ensures r == GenerateSpec(conf, lines, shuffle)
  {
    if StringField(conf, "assignment_name").None? {
      return Failure(BadField("assignment_name"));
    }
    var assignment := StringField(conf, "assignment_name").value;
    var seed := JavaStringHashCode(assignment);
    var read := ReadGroups(lines);
    assert read == ParseGroups(lines);
    var groups := shuffle(seed, read);
    if groups != [] && StringField(conf, "course").None? {
      return Failure(BadField("course"));
    }
    var course := if StringField(conf, "course").Some? then StringField(conf, "course").value else "";
    var repoMap := BuildRepoMap(course, assignment, groups);
    return Success(WithRepositoryMap(conf, repoMap));
  }
}
