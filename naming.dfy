/**
 * Identity normalisation, repository naming, the Java string hash used as
 * the shuffle seed, and the round-robin grader balancer (utils.py; the same
 * helpers are repeated as static functions of `Config` in config.py).
 */
module Naming {
  import opened Strings
  import opened Wrappers

  // ---------------------------------------------------------------------------
  // normalize, canonical_group_name, group2repo
  // ---------------------------------------------------------------------------

  function NormalizeChar(c: char): char {
    if IsWordChar(c) || IsSpaceChar(c) then c else '_'
  }

  /**
   * `normalize(name)`: lower-case the name, then replace every character that
   * is neither a word character nor whitespace by `_`.
   */
  function Normalize(name: string): (r: string)
    ensures |r| == |name|
    ensures forall i :: 0 <= i < |r| ==> (IsWordChar(r[i]) || IsSpaceChar(r[i])) && !('A' <= r[i] <= 'Z')
    ensures forall i :: 0 <= i < |r| ==> (r[i] == LowerChar(name[i]) <==> IsWordChar(name[i]) || IsSpaceChar(name[i]))
    ensures forall i :: 0 <= i < |r| && !(IsWordChar(name[i]) || IsSpaceChar(name[i])) ==> r[i] == '_'
    ensures '-' !in r
  {
    var lowered := Lower(name);
    seq(|lowered|, i requires 0 <= i < |lowered| => NormalizeChar(lowered[i]))
  }

  /** Normalising a normalised name changes nothing: `_` is itself a word character. */
  lemma NormalizeIdempotent(name: string)
    ensures Normalize(Normalize(name)) == Normalize(name)
  {
    var n := Normalize(name);
    assert forall i :: 0 <= i < |n| ==> LowerChar(n[i]) == n[i];
  }

  /** `map(normalize, group)`. */
  function NormalizeAll(group: seq<string>): (r: seq<string>)
    ensures |r| == |group|
    ensures forall i :: 0 <= i < |r| ==> r[i] == Normalize(group[i])
  {
    if group == [] then [] else [Normalize(group[0])] + NormalizeAll(group[1..])
  }

  /** `canonical_group_name(group)`: the normalised members, sorted, joined with `-`. */
  function CanonicalGroupName(group: seq<string>): string {
    Join(Sort(NormalizeAll(group)), '-')
  }

  /** `group2repo(cname, aname, group)` with its default format string `"{}{}-{}"`. */
  function GroupToRepo(course: string, assignment: string, group: seq<string>): string {
    Normalize(course) + Normalize(assignment) + "-" + CanonicalGroupName(group)
  }

  lemma {:induction false} NormalizeAllConcat(a: seq<string>, b: seq<string>)
    ensures NormalizeAll(a + b) == NormalizeAll(a) + NormalizeAll(b)
  {
  }

  /** Permuting a group permutes its normalised members in the same way. */
  lemma {:induction false} NormalizeAllPermutation(a: seq<string>, b: seq<string>)
    requires multiset(a) == multiset(b)
    ensures multiset(NormalizeAll(a)) == multiset(NormalizeAll(b))
    decreases |a|
  {
    if a == [] {
      assert |multiset(b)| == 0;
    } else {
      var x := a[0];
      assert x in multiset(b);
      var k :| 0 <= k < |b| && b[k] == x;
      var rest := b[..k] + b[k + 1..];
      assert b == b[..k] + [x] + b[k + 1..];
      assert a == [x] + a[1..];
      assert multiset(b) == multiset(b[..k]) + multiset{x} + multiset(b[k + 1..]);
      assert multiset(rest) == multiset(b[..k]) + multiset(b[k + 1..]);
      assert multiset(a[1..]) == multiset(a) - multiset{x};
      assert multiset(a[1..]) == multiset(rest);
      NormalizeAllPermutation(a[1..], rest);
      NormalizeAllConcat(b[..k] + [x], b[k + 1..]);
      NormalizeAllConcat(b[..k], [x]);
      NormalizeAllConcat(b[..k], b[k + 1..]);
      NormalizeAllConcat([x], a[1..]);
    }
  }

  /** The canonical name of a group does not depend on the order of its members. */
  lemma CanonicalGroupNamePermutation(a: seq<string>, b: seq<string>)
    requires multiset(a) == multiset(b)
    ensures CanonicalGroupName(a) == CanonicalGroupName(b)
  {
    NormalizeAllPermutation(a, b);
    SortPermutationInvariant(NormalizeAll(a), NormalizeAll(b));
  }

  /** No member of a sorted normalised group contains `-`, the separator. */
  lemma SortedMembersHaveNoDash(group: seq<string>)
    ensures |Sort(NormalizeAll(group))| == |group|
    ensures forall i :: 0 <= i < |Sort(NormalizeAll(group))| ==> '-' !in Sort(NormalizeAll(group))[i]
  {
    var members := NormalizeAll(group);
    var sorted := Sort(members);
    SortSortedPermutation(members);
    assert |sorted| == |multiset(sorted)| == |multiset(members)| == |members|;
    forall i | 0 <= i < |sorted| ensures '-' !in sorted[i] {
      assert sorted[i] in multiset(members);
      var k :| 0 <= k < |members| && members[k] == sorted[i];
    }
  }

  /** Splitting a non-empty group's canonical name on `-` gives its sorted normalised members back. */
  lemma CanonicalGroupNameSplit(group: seq<string>)
    requires |group| >= 1
    ensures Split(CanonicalGroupName(group), '-') == Sort(NormalizeAll(group))
  {
    SortedMembersHaveNoDash(group);
    SplitJoin(Sort(NormalizeAll(group)), '-');
  }

  /**
   * A repository name splits on `-` into the normalised course and assignment
   * (which never contain `-`) followed by the sorted normalised members.
   */
  lemma GroupToRepoSplit(course: string, assignment: string, group: seq<string>)
    requires |group| >= 1
    ensures Split(GroupToRepo(course, assignment, group), '-')
         == [Normalize(course) + Normalize(assignment)] + Sort(NormalizeAll(group))
  {
    var prefix := Normalize(course) + Normalize(assignment);
    assert '-' !in prefix;
    SplitFirstPiece(prefix, '-', CanonicalGroupName(group));
    CanonicalGroupNameSplit(group);
  }

  /**
   * For one course and assignment, two non-empty groups get the same
   * repository exactly when their normalised members agree as multisets.
   */
  lemma GroupToRepoSameIff(course: string, assignment: string, a: seq<string>, b: seq<string>)
    requires |a| >= 1 && |b| >= 1
    ensures GroupToRepo(course, assignment, a) == GroupToRepo(course, assignment, b)
        <==> multiset(NormalizeAll(a)) == multiset(NormalizeAll(b))
  {
    if GroupToRepo(course, assignment, a) == GroupToRepo(course, assignment, b) {
      SameRepoSameMembers(course, assignment, a, b);
    }
    if multiset(NormalizeAll(a)) == multiset(NormalizeAll(b)) {
      SortPermutationInvariant(NormalizeAll(a), NormalizeAll(b));
    }
  }

  lemma SameRepoSameMembers(course: string, assignment: string, a: seq<string>, b: seq<string>)
    requires |a| >= 1 && |b| >= 1
    requires GroupToRepo(course, assignment, a) == GroupToRepo(course, assignment, b)
    ensures multiset(NormalizeAll(a)) == multiset(NormalizeAll(b))
  {
    GroupToRepoSplit(course, assignment, a);
    GroupToRepoSplit(course, assignment, b);
    var sa, sb := Sort(NormalizeAll(a)), Sort(NormalizeAll(b));
    assert [Normalize(course) + Normalize(assignment)] + sa == [Normalize(course) + Normalize(assignment)] + sb;
    assert sa == ([Normalize(course) + Normalize(assignment)] + sa)[1..];
    assert sa == sb;
    SortSortedPermutation(NormalizeAll(a));
    SortSortedPermutation(NormalizeAll(b));
  }

  // ---------------------------------------------------------------------------
  // java_string_hashcode
  // ---------------------------------------------------------------------------

  const Modulus: int := 0x1_0000_0000
  const HalfModulus: int := 0x8000_0000

  function Pow31(k: nat): nat {
    if k == 0 then 1 else 31 * Pow31(k - 1)
  }

  /** The Java string-hash polynomial without wrap-around: the sum of ord(s[i]) * 31^(|s|-1-i). */
  function PolynomialSum(s: string): nat
    decreases |s|
  {
    if s == [] then 0 else (s[0] as int) * Pow31(|s| - 1) + PolynomialSum(s[1..])
  }

  /** The same polynomial in Horner form, one character at a time from the left. */
  function Horner(s: string): nat
    decreases |s|
  {
    if s == [] then 0 else 31 * Horner(s[..|s| - 1]) + s[|s| - 1] as int
  }

  /** `((h + 0x80000000) & 0xFFFFFFFF) - 0x80000000`: a 32-bit word read as a signed integer. */
  function ToSigned32(h: int): int
    requires 0 <= h < Modulus
  {
    (h + HalfModulus) % Modulus - HalfModulus
  }

  /** What `java_string_hashcode(s)` returns. */
  function JavaHash(s: string): int {
    ToSigned32(Horner(s) % Modulus)
  }

  lemma {:induction false} PolynomialSumSnoc(t: string, c: char)
    ensures PolynomialSum(t + [c]) == 31 * PolynomialSum(t) + c as int
    decreases |t|
  {
    if t != [] {
      var u := t + [c];
      assert u[0] == t[0] && |u| - 1 == |t| && u[1..] == t[1..] + [c];
      PolynomialSumSnoc(t[1..], c);
      calc {
        PolynomialSum(u);
        (t[0] as int) * Pow31(|t|) + PolynomialSum(t[1..] + [c]);
        (t[0] as int) * (31 * Pow31(|t| - 1)) + 31 * PolynomialSum(t[1..]) + c as int;
        31 * ((t[0] as int) * Pow31(|t| - 1) + PolynomialSum(t[1..])) + c as int;
      }
    }
  }

  /** The loop's Horner evaluation and the textbook polynomial agree. */
  lemma {:induction false} HornerIsPolynomialSum(s: string)
    ensures Horner(s) == PolynomialSum(s)
    decreases |s|
  {
    if s != [] {
      var init := s[..|s| - 1];
      HornerIsPolynomialSum(init);
      PolynomialSumSnoc(init, s[|s| - 1]);
      assert s == init + [s[|s| - 1]];
    }
  }

  lemma ModStep(x: int, c: int)
    requires x >= 0 && c >= 0
    ensures (31 * (x % Modulus) + c) % Modulus == (31 * x + c) % Modulus
  {
    var q := x / Modulus;
    assert x == q * Modulus + x % Modulus;
    assert 31 * x + c == (31 * q) * Modulus + (31 * (x % Modulus) + c);
  }

  /**
   * The hash is a signed 32-bit value congruent, modulo 2^32, to the
   * polynomial sum of the string's code points.
   */
  lemma JavaHashSpec(s: string)
    ensures -HalfModulus <= JavaHash(s) < HalfModulus
    ensures JavaHash(s) % Modulus == PolynomialSum(s) % Modulus
  {
    HornerIsPolynomialSum(s);
    var u := Horner(s) % Modulus;
    if u < HalfModulus {
      assert JavaHash(s) == u;
    } else {
      assert JavaHash(s) == u - Modulus;
    }
  }

  /** `java_string_hashcode(s)`: the accumulator stays in [0, 2^32) and follows Horner's rule mod 2^32. */
  method JavaStringHashCode(s: string) returns (code: int)
    ensures code == JavaHash(s)
  {
    var h := 0;
    for i := 0 to |s|
      invariant 0 <= h < Modulus
      invariant h == Horner(s[..i]) % Modulus
    {
      assert s[..i + 1][..i] == s[..i];
      ModStep(Horner(s[..i]), s[i] as int);
      h := (31 * h + s[i] as int) % Modulus;
    }
    assert s[..|s|] == s;
    code := (h + HalfModulus) % Modulus - HalfModulus;
  }

  // ---------------------------------------------------------------------------
  // round_robin_map
  // ---------------------------------------------------------------------------

  /** The exception `tas[i]` raises when the TA list is empty. */
  datatype LookupError = IndexError

  /** The map `round_robin_map` builds: later occurrences of a repository overwrite earlier ones. */
  function RoundRobin(tas: seq<string>, repos: seq<string>): (d: map<string, string>)
    requires |tas| > 0
    ensures d.Keys == set r | r in repos
    ensures forall r :: r in d ==> d[r] in tas
    decreases |repos|
  {
    if repos == [] then map[]
    else RoundRobin(tas, repos[..|repos| - 1])[repos[|repos| - 1] := tas[(|repos| - 1) % |tas|]]
  }

  /** `round_robin_map(tas, repos)`; an empty TA list fails on the first repository. */
  method RoundRobinMap(tas: seq<string>, repos: seq<string>) returns (r: Result<map<string, string>, LookupError>)
    ensures r.Failure? <==> |tas| == 0 && |repos| > 0
    ensures r.Success? && |tas| > 0 ==> r.value == RoundRobin(tas, repos)
    ensures r.Success? && |tas| == 0 ==> r.value == map[]
  {
    var i := 0;
    var d: map<string, string> := map[];
    for k := 0 to |repos|
      invariant |tas| > 0 ==> 0 <= i < |tas| && i == k % |tas| && d == RoundRobin(tas, repos[..k])
      invariant |tas| == 0 ==> k == 0 && i == 0 && d == map[]
    {
      if i >= |tas| {
        return Failure(IndexError);
      }
      assert repos[..k + 1][..k] == repos[..k];
      assert RoundRobin(tas, repos[..k + 1]) == RoundRobin(tas, repos[..k])[repos[k] := tas[k % |tas|]];
      DivModNext(k, |tas|);
      d := d[repos[k] := tas[i]];
      i := i + 1;
      if i >= |tas| {
        i := 0;
      }
    }
    assert repos[..|repos|] == repos;
    r := Success(d);
  }

  /** The last occurrence of a repository, at position k, gets TA number k mod |tas|. */
  lemma {:induction false} RoundRobinLastOccurrence(tas: seq<string>, repos: seq<string>, k: nat)
    requires |tas| > 0 && k < |repos|
    requires forall j :: k < j < |repos| ==> repos[j] != repos[k]
    ensures RoundRobin(tas, repos)[repos[k]] == tas[k % |tas|]
    decreases |repos|
  {
    if k < |repos| - 1 {
      var init := repos[..|repos| - 1];
      RoundRobinLastOccurrence(tas, init, k);
    }
  }

  /** With distinct repositories, `repos[k]` goes to `tas[k mod |tas|]`. */
  lemma RoundRobinDistinct(tas: seq<string>, repos: seq<string>)
    requires |tas| > 0 && Distinct(repos)
    ensures forall k :: 0 <= k < |repos| ==> RoundRobin(tas, repos)[repos[k]] == tas[k % |tas|]
  {
    forall k | 0 <= k < |repos| ensures RoundRobin(tas, repos)[repos[k]] == tas[k % |tas|] {
      RoundRobinLastOccurrence(tas, repos, k);
    }
  }

  /** The number of repositories a TA is assigned. */
  function Load(d: map<string, string>, ta: string): nat {
    |set r | r in d && d[r] == ta|
  }

  /** How many of the positions 0 .. m-1 are congruent to j modulo n. */
  function Share(m: nat, n: nat, j: nat): nat
    requires n > 0
  {
    if m == 0 then 0 else Share(m - 1, n, j) + (if (m - 1) % n == j then 1 else 0)
  }

  lemma {:induction false} MulGap(q: int, q': int, n: int)
    requires q > q' && n > 0
    ensures q * n >= q' * n + n
    decreases q - q'
  {
    if q > q' + 1 {
      MulGap(q - 1, q', n);
    }
    assert q * n == (q - 1) * n + n;
  }

  /** Quotient and remainder are unique. */
  lemma DivModUnique(a: int, n: int, q: int, r: int)
    requires n > 0 && 0 <= r < n && a == q * n + r
    ensures a / n == q && a % n == r
  {
    var q', r' := a / n, a % n;
    assert a == q' * n + r';
    if q > q' {
      MulGap(q, q', n);
      assert false;
    } else if q < q' {
      MulGap(q', q, n);
      assert false;
    }
  }

  lemma DivModNext(m: nat, n: nat)
    requires n > 0
    ensures m % n == n - 1 ==> (m + 1) / n == m / n + 1 && (m + 1) % n == 0
    ensures m % n < n - 1 ==> (m + 1) / n == m / n && (m + 1) % n == m % n + 1
  {
    var q, r := m / n, m % n;
    assert m == q * n + r;
    if r == n - 1 {
      assert m + 1 == (q + 1) * n + 0;
      DivModUnique(m + 1, n, q + 1, 0);
    } else {
      DivModUnique(m + 1, n, q, r + 1);
    }
  }

  /** Each residue class below n gets either floor(m/n) or floor(m/n)+1 of the first m positions. */
  lemma {:induction false} ShareFormula(m: nat, n: nat, j: nat)
    requires n > 0 && j < n
    ensures Share(m, n, j) == m / n + (if j < m % n then 1 else 0)
  {
    if m > 0 {
      ShareFormula(m - 1, n, j);
      DivModNext(m - 1, n);
    }
  }

  /** With distinct TAs and repositories, TA number j is assigned exactly Share(|repos|, |tas|, j) repositories. */
  lemma {:induction false} RoundRobinLoad(tas: seq<string>, repos: seq<string>, j: nat)
    requires |tas| > 0 && j < |tas| && Distinct(tas) && Distinct(repos)
    ensures Load(RoundRobin(tas, repos), tas[j]) == Share(|repos|, |tas|, j)
    decreases |repos|
  {
    if repos != [] {
      var m := |repos| - 1;
      var init := repos[..m];
      assert Distinct(init);
      RoundRobinLoad(tas, init, j);
      LoadStep(tas, repos, j);
    }
  }

  lemma LoadStep(tas: seq<string>, repos: seq<string>, j: nat)
    requires |tas| > 0 && j < |tas| && Distinct(tas) && Distinct(repos) && repos != []
    ensures Load(RoundRobin(tas, repos), tas[j])
         == Load(RoundRobin(tas, repos[..|repos| - 1]), tas[j]) + (if (|repos| - 1) % |tas| == j then 1 else 0)
  {
    var m := |repos| - 1;
    var init := repos[..m];
    var r := repos[m];
    var d0 := RoundRobin(tas, init);
    var t := tas[m % |tas|];
    var d := d0[r := t];
    assert RoundRobin(tas, repos) == d;
    assert r !in d0;
    var s0 := set x | x in d0 && d0[x] == tas[j];
    var s := set x | x in d && d[x] == tas[j];
    assert t == tas[j] <==> m % |tas| == j;
    if t == tas[j] {
      forall x ensures x in s <==> x in s0 + {r} {
        if x != r {
          assert x in d <==> x in d0;
        }
      }
      assert s == s0 + {r};
      assert r !in s0;
      assert |s| == |s0| + 1;
    } else {
      forall x ensures x in s <==> x in s0 {
        if x != r {
          assert x in d <==> x in d0;
        }
      }
      assert s == s0;
    }
    assert Load(d, tas[j]) == |s|;
    assert Load(d0, tas[j]) == |s0|;
  }

  /** Round robin balances the load: any two TAs' loads differ by at most one. */
  lemma RoundRobinBalanced(tas: seq<string>, repos: seq<string>, t1: string, t2: string)
    requires |tas| > 0 && Distinct(tas) && Distinct(repos)
    requires t1 in tas && t2 in tas
    ensures Load(RoundRobin(tas, repos), t1) <= Load(RoundRobin(tas, repos), t2) + 1
  {
    var j1 :| 0 <= j1 < |tas| && tas[j1] == t1;
    var j2 :| 0 <= j2 < |tas| && tas[j2] == t2;
    RoundRobinLoad(tas, repos, j1);
    RoundRobinLoad(tas, repos, j2);
    ShareFormula(|repos|, |tas|, j1);
    ShareFormula(|repos|, |tas|, j2);
  }
}
