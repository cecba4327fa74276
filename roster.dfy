/**
 * count-students.py: compare a test list of students against the
 * authoritative roster, ignoring case, and report the unique test names,
 * the students missing from the test list, the extra ones, and the names
 * the test list holds more than once.
 */
module Roster {
  import opened Strings

  // ---------------------------------------------------------------------------
  // Reading the two files
  // ---------------------------------------------------------------------------

  /** A roster line: stripped and case-folded. */
  function RosterName(line: string): string {
    Lower(Strip(line))
  }

  /** `set(names)`. */
  function Unique(names: seq<string>): set<string> {
    set n | n in names
  }

  /** Extending a prefix by one position adds that element to the set. */
  lemma UniquePrefixSnoc(names: seq<string>, i: nat)
    requires i < |names|
    ensures Unique(names[..i + 1]) == Unique(names[..i]) + {names[i]}
  {
    assert names[..i + 1] == names[..i] + [names[i]];
    UniqueSnoc(names[..i], names[i]);
  }

  /** One more name adds it to the set. */
  lemma UniqueSnoc(names: seq<string>, n: string)
    ensures Unique(names + [n]) == Unique(names) + {n}
  {
    assert forall m :: m in names + [n] <==> m in names || m == n;
  }

  /** The roster lines, each stripped and case-folded, in file order. */
  function FoldedRoster(lines: seq<string>): (r: seq<string>)
    ensures |r| == |lines|
    ensures forall i :: 0 <= i < |lines| ==> r[i] == RosterName(lines[i])
  {
    seq(|lines|, i requires 0 <= i < |lines| => RosterName(lines[i]))
  }

  /** `allnames`: the set of folded roster lines. */
  function RosterNames(lines: seq<string>): set<string> {
    Unique(FoldedRoster(lines))
  }

  /** The loop over the roster file that adds one name per line to `allnames`. */
  method ReadRoster(lines: seq<string>) returns (allnames: set<string>)
    ensures allnames == RosterNames(lines)
  {
    ghost var folded := FoldedRoster(lines);
    allnames := {};
    for i := 0 to |lines|
      invariant allnames == Unique(folded[..i])
    {
      var name := RosterName(lines[i]);
      UniquePrefixSnoc(folded, i);
      allnames := allnames + {name};
    }
    assert folded[..|lines|] == folded;
  }

  /** The test list: each line stripped and split at commas, the pieces in file order. */
  function TestNames(lines: seq<string>): seq<string>
    decreases |lines|
  {
    if lines == [] then [] else TestNames(lines[..|lines| - 1]) + Split(Strip(lines[|lines| - 1]), ',')
  }

  /** One more line adds its pieces at the end. */
  lemma TestNamesSnoc(lines: seq<string>, i: nat)
    requires i < |lines|
    ensures TestNames(lines[..i + 1]) == TestNames(lines[..i]) + Split(Strip(lines[i]), ',')
  {
    var prefix := lines[..i + 1];
    assert prefix[..|prefix| - 1] == lines[..i];
    assert prefix[|prefix| - 1] == lines[i];
  }

  /** The loop over the test file that extends `names` by the pieces of each line. */
  method ReadTestNames(lines: seq<string>) returns (names: seq<string>)
    ensures names == TestNames(lines)
  {
    names := [];
    for i := 0 to |lines|
      invariant names == TestNames(lines[..i])
    {
      TestNamesSnoc(lines, i);
      names := names + Split(Strip(lines[i]), ',');
    }
    assert lines[..|lines|] == lines;
  }

  /** `[name.casefold() for name in names]`. */
  function FoldAll(names: seq<string>): (r: seq<string>)
    ensures |r| == |names|
    ensures forall i :: 0 <= i < |names| ==> r[i] == Lower(names[i])
  {
    seq(|names|, i requires 0 <= i < |names| => Lower(names[i]))
  }

  /** Every folded name is its own fold. */
  lemma FoldAllFolded(names: seq<string>)
    ensures forall i :: 0 <= i < |names| ==> Lower(FoldAll(names)[i]) == FoldAll(names)[i]
  {
    forall i | 0 <= i < |names| {
      LowerIdempotent(names[i]);
    }
  }

  // ---------------------------------------------------------------------------
  // The set algebra
  // ---------------------------------------------------------------------------

  /** There are never more unique names than names, and as many exactly when no name repeats. */
  lemma {:induction false} UniqueCount(names: seq<string>)
    ensures |Unique(names)| <= |names|
    ensures |Unique(names)| == |names| <==> Distinct(names)
    decreases |names|
  {
    if names != [] {
      var init := names[..|names| - 1];
      var last := names[|names| - 1];
      UniqueCount(init);
      assert names == init + [last];
      if last in init {
        assert Unique(names) == Unique(init);
        var j :| 0 <= j < |init| && init[j] == last;
        assert names[j] == names[|names| - 1];
      } else {
        assert Unique(names) == Unique(init) + {last};
        assert last !in Unique(init);
        if Distinct(init) {
          forall i, j | 0 <= i < j < |names|
            ensures names[i] != names[j]
          {
            if j == |names| - 1 {
              assert names[i] == init[i];
            } else {
              assert names[i] == init[i] && names[j] == init[j];
            }
          }
        } else {
          var i, j :| 0 <= i < j < |init| && init[i] == init[j];
          assert names[i] == names[j];
        }
      }
    }
  }

  /** `allnames - unique`: roster students absent from the test list. */
  function Missing(allnames: set<string>, unique: set<string>): (m: set<string>)
    ensures m <= allnames && m !! unique
    ensures forall n :: n in allnames && n !in unique ==> n in m
  {
    allnames - unique
  }

  /** `unique - allnames`: test names not on the roster. */
  function Extra(unique: set<string>, allnames: set<string>): (e: set<string>)
    ensures e <= unique && e !! allnames
    ensures forall n :: n in unique && n !in allnames ==> n in e
  {
    unique - allnames
  }

  /**
   * Compared case-insensitively: a student is missing exactly when it is a
   * folded roster line and no test name folds to it; a student is extra
   * exactly when a test name folds to it and it is no folded roster line;
   * and the missing students together with the roster students that were
   * found make up the roster.
   */
  lemma RosterComparison(rosterLines: seq<string>, testLines: seq<string>)
    ensures var allnames := RosterNames(rosterLines);
      var unique := Unique(FoldAll(TestNames(testLines)));
      Missing(allnames, unique) + (unique * allnames) == allnames
    ensures forall n :: n in Missing(RosterNames(rosterLines), Unique(FoldAll(TestNames(testLines)))) <==>
      n in FoldedRoster(rosterLines) && n !in FoldAll(TestNames(testLines))
    ensures forall n :: n in Extra(Unique(FoldAll(TestNames(testLines))), RosterNames(rosterLines)) <==>
      n in FoldAll(TestNames(testLines)) && n !in FoldedRoster(rosterLines)
  {
  }

  // ---------------------------------------------------------------------------
  // Duplicates
  // ---------------------------------------------------------------------------

  /** The names of `xs`, folded, that occur more than once in `all`, in the order of `xs`. */
  function Repeated(all: seq<string>, xs: seq<string>): seq<string>
    decreases |xs|
  {
    if xs == [] then []
    else
      var last := xs[|xs| - 1];
      Repeated(all, xs[..|xs| - 1]) + (if multiset(all)[last] > 1 then [Lower(last)] else [])
  }

  /** `[name.casefold() for name in names if names.count(name) > 1]`. */
  function Duplicates(names: seq<string>): seq<string> {
    Repeated(names, names)
  }

  /** Filtering a concatenation filters each part in turn, so the kept names stay in their original order. */
  lemma {:induction false} RepeatedAppend(all: seq<string>, a: seq<string>, b: seq<string>)
    ensures Repeated(all, a + b) == Repeated(all, a) + Repeated(all, b)
    decreases |b|
  {
    if b != [] {
      var init := b[..|b| - 1];
      RepeatedAppend(all, a, init);
      assert (a + b)[..|a + b| - 1] == a + init;
      assert (a + b)[|a + b| - 1] == b[|b| - 1];
    } else {
      assert a + b == a;
    }
  }

  /**
   * On folded names, each name occurs in the result as often as in `xs` when
   * it occurs more than once in `all`, and not at all otherwise.
   */
  lemma {:induction false} RepeatedCount(all: seq<string>, xs: seq<string>, x: string)
    requires forall i :: 0 <= i < |xs| ==> Lower(xs[i]) == xs[i]
    ensures multiset(Repeated(all, xs))[x] == if multiset(all)[x] > 1 then multiset(xs)[x] else 0
    decreases |xs|
  {
    if xs != [] {
      var init := xs[..|xs| - 1];
      var last := xs[|xs| - 1];
      RepeatedCount(all, init, x);
      assert xs == init + [last];
      assert multiset(xs) == multiset(init) + multiset{last};
      var kept := if multiset(all)[last] > 1 then [last] else [];
      assert Repeated(all, xs) == Repeated(all, init) + kept;
    }
  }

  /**
   * `duplicates` keeps, with their multiplicity and in their order, exactly
   * the occurrences of the names listed at least twice.
   */
  lemma DuplicatesAre(names: seq<string>, a: seq<string>, b: seq<string>, x: string)
    requires forall i :: 0 <= i < |names| ==> Lower(names[i]) == names[i]
    ensures multiset(Duplicates(names))[x] == if multiset(names)[x] >= 2 then multiset(names)[x] else 0
    ensures names == a + b ==> Duplicates(names) == Repeated(names, a) + Repeated(names, b)
  {
    RepeatedCount(names, names, x);
    if names == a + b {
      RepeatedAppend(names, a, b);
    }
  }

  // ---------------------------------------------------------------------------
  // The script
  // ---------------------------------------------------------------------------

  /** What the script reports. */
  datatype Report = Report(
    names: seq<string>,
    unique: set<string>,
    missing: set<string>,
    extra: set<string>,
    duplicates: seq<string>)

  /** The report for the lines of the roster file and of the test file. */
  function ReportOf(rosterLines: seq<string>, testLines: seq<string>): Report {
    var allnames := RosterNames(rosterLines);
    var names := FoldAll(TestNames(testLines));
    var unique := Unique(names);
    Report(names, unique, Missing(allnames, unique), Extra(unique, allnames), Duplicates(names))
  }

  /** The body of the script: read both files, fold, and compute the four results. */
  method CountStudents(rosterLines: seq<string>, testLines: seq<string>) returns (report: Report)
    ensures report == ReportOf(rosterLines, testLines)
  {
    var allnames := ReadRoster(rosterLines);
    var raw := ReadTestNames(testLines);
    var names := FoldAll(raw);
    var unique := Unique(names);
    var duplicates := Duplicates(names);
    report := Report(names, unique, Missing(allnames, unique), Extra(unique, allnames), duplicates);
  }
}
