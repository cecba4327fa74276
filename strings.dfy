/**
 * The Python `str` operations the tools rely on, on ASCII text: `str.lower`
 * (and `casefold`, which agrees with it on ASCII), the `\w` and `\s`
 * character classes, `strip` and `rstrip`, `split` on one character,
 * `sep.join`, and the code-point order that `sorted` uses.
 */
module Strings {

  /** `\w` on ASCII: letters, digits and the underscore. */
  predicate IsWordChar(c: char) {
    'a' <= c <= 'z' || 'A' <= c <= 'Z' || '0' <= c <= '9' || c == '_'
  }

  /** `\s` and `str.isspace` on ASCII: space, tab, LF, VT, FF, CR and the separators 0x1c-0x1f. */
  predicate IsSpaceChar(c: char) {
    c == ' ' || 9 <= c as int <= 13 || 28 <= c as int <= 31
  }

  function LowerChar(c: char): (r: char)
    ensures !('A' <= r <= 'Z')
    ensures IsWordChar(r) == IsWordChar(c) && IsSpaceChar(r) == IsSpaceChar(c)
  {
    if 'A' <= c <= 'Z' then (c as int + 32) as char else c
  }

  /** `s.lower()` (and `s.casefold()`) on ASCII: character by character, same length. */
  function Lower(s: string): (r: string)
    ensures |r| == |s|
    ensures forall i :: 0 <= i < |s| ==> r[i] == LowerChar(s[i])
    ensures forall i :: 0 <= i < |r| ==> !('A' <= r[i] <= 'Z')
    ensures forall i :: 0 <= i < |s| && !('A' <= s[i] <= 'Z') ==> r[i] == s[i]
  {
    seq(|s|, i requires 0 <= i < |s| => LowerChar(s[i]))
  }

  /** Lower-casing twice is lower-casing once. */
  lemma LowerIdempotent(s: string)
    ensures Lower(Lower(s)) == Lower(s)
  {
  }

  /** `s.rstrip()`: the longest prefix of `s` that does not end in whitespace. */
  function RStrip(s: string): (r: string)
    ensures |r| <= |s| && r == s[..|r|]
    ensures r == [] || !IsSpaceChar(r[|r| - 1])
    ensures forall i :: |r| <= i < |s| ==> IsSpaceChar(s[i])
  {
    if s != [] && IsSpaceChar(s[|s| - 1]) then RStrip(s[..|s| - 1]) else s
  }

  /** Drops leading whitespace: the longest suffix of `s` that does not start with whitespace. */
  function LStrip(s: string): (r: string)
    ensures |r| <= |s| && r == s[|s| - |r|..]
    ensures r == [] || !IsSpaceChar(r[0])
    ensures forall i :: 0 <= i < |s| - |r| ==> IsSpaceChar(s[i])
  {
    if s != [] && IsSpaceChar(s[0]) then LStrip(s[1..]) else s
  }

  /** `s.strip()`: whitespace removed at both ends. */
  function Strip(s: string): string {
    LStrip(RStrip(s))
  }

  // ---------------------------------------------------------------------------
  // Python's order on strings, and `sorted`
  // ---------------------------------------------------------------------------

  /** Python's `a <= b` on strings: lexicographic by code point, a proper prefix first. */
  predicate Le(a: string, b: string)
    decreases |a|
  {
    if a == [] then true
    else if b == [] then false
    else if a[0] != b[0] then a[0] < b[0]
    else Le(a[1..], b[1..])
  }

  lemma {:induction false} LeReflexive(a: string)
    ensures Le(a, a)
    decreases |a|
  {
    if a != [] {
      LeReflexive(a[1..]);
    }
  }

  lemma {:induction false} LeTotal(a: string, b: string)
    ensures Le(a, b) || Le(b, a)
    decreases |a|
  {
    if a != [] && b != [] && a[0] == b[0] {
      LeTotal(a[1..], b[1..]);
    }
  }

  lemma {:induction false} LeAntisymmetric(a: string, b: string)
    requires Le(a, b) && Le(b, a)
    ensures a == b
    decreases |a|
  {
    if a != [] {
      LeAntisymmetric(a[1..], b[1..]);
      assert a == [a[0]] + a[1..] && b == [b[0]] + b[1..];
    }
  }

  lemma {:induction false} LeTransitive(a: string, b: string, c: string)
    requires Le(a, b) && Le(b, c)
    ensures Le(a, c)
    decreases |a|
  {
    if a != [] && b != [] && c != [] && a[0] == b[0] && b[0] == c[0] {
      LeTransitive(a[1..], b[1..], c[1..]);
    }
  }

  predicate Sorted(s: seq<string>) {
    forall i, j :: 0 <= i < j < |s| ==> Le(s[i], s[j])
  }

  /** Sorted with no repeated element: what `sorted` yields on distinct keys. */
  predicate StrictlySorted(s: seq<string>) {
    forall i, j :: 0 <= i < j < |s| ==> Le(s[i], s[j]) && s[i] != s[j]
  }

  predicate Distinct<T(==)>(s: seq<T>) {
    forall i, j :: 0 <= i < j < |s| ==> s[i] != s[j]
  }

  function Insert(x: string, s: seq<string>): seq<string> {
    if s == [] then [x]
    else if Le(x, s[0]) then [x] + s
    else [s[0]] + Insert(x, s[1..])
  }

  /** `sorted(xs)` on a list of strings (an insertion sort: equal strings are identical, so stability is moot). */
  function Sort(xs: seq<string>): seq<string> {
    if xs == [] then [] else Insert(xs[0], Sort(xs[1..]))
  }

  lemma {:induction false} InsertPermutation(x: string, s: seq<string>)
    ensures multiset(Insert(x, s)) == multiset(s) + multiset{x}
    decreases |s|
  {
    if s != [] && !Le(x, s[0]) {
      InsertPermutation(x, s[1..]);
      assert s == [s[0]] + s[1..];
    }
  }

  lemma {:induction false} InsertSorted(x: string, s: seq<string>)
    requires Sorted(s)
    ensures Sorted(Insert(x, s))
    decreases |s|
  {
    if s == [] {
    } else if Le(x, s[0]) {
      var r := [x] + s;
      forall i, j | 0 <= i < j < |r| ensures Le(r[i], r[j]) {
        if i == 0 && j > 1 {
          LeTransitive(x, s[0], s[j - 1]);
        }
      }
    } else {
      LeTotal(x, s[0]);
      InsertSorted(x, s[1..]);
      InsertPermutation(x, s[1..]);
      var t := Insert(x, s[1..]);
      forall k | 0 <= k < |t| ensures Le(s[0], t[k]) {
        InsertElement(x, s, t, k);
      }
      var r := [s[0]] + t;
      forall i, j | 0 <= i < j < |r| ensures Le(r[i], r[j]) {
        if i == 0 {
          assert r[j] == t[j - 1];
        } else {
          assert r[i] == t[i - 1] && r[j] == t[j - 1];
        }
      }
    }
  }

  lemma InsertElement(x: string, s: seq<string>, t: seq<string>, k: nat)
    requires Sorted(s) && s != [] && Le(s[0], x)
    requires multiset(t) == multiset(s[1..]) + multiset{x}
    requires k < |t|
    ensures Le(s[0], t[k])
  {
    assert t[k] in multiset(t);
    if t[k] != x {
      assert t[k] in multiset(s[1..]);
      var m :| 0 <= m < |s[1..]| && s[1..][m] == t[k];
      assert s[m + 1] == t[k];
    }
  }

  /** `sorted` returns a sorted permutation of its argument. */
  lemma {:induction false} SortSortedPermutation(xs: seq<string>)
    ensures multiset(Sort(xs)) == multiset(xs)
    ensures Sorted(Sort(xs))
    decreases |xs|
  {
    if xs != [] {
      SortSortedPermutation(xs[1..]);
      InsertPermutation(xs[0], Sort(xs[1..]));
      InsertSorted(xs[0], Sort(xs[1..]));
      assert xs == [xs[0]] + xs[1..];
    }
  }

  /** Two sorted lists with the same elements start with the same element. */
  lemma SortedSameHead(a: seq<string>, b: seq<string>)
    requires Sorted(a) && Sorted(b) && a != []
    requires multiset(a) == multiset(b)
    ensures b != [] && a[0] == b[0]
  {
    assert a[0] in multiset(b);
    assert b[0] in multiset(a);
    var k :| 0 <= k < |b| && b[k] == a[0];
    var j :| 0 <= j < |a| && a[j] == b[0];
    assert Le(a[0], a[j]) by { if j == 0 { LeReflexive(a[0]); } }
    assert Le(b[0], b[k]) by { if k == 0 { LeReflexive(b[0]); } }
    LeAntisymmetric(a[0], b[0]);
  }

  /** Dropping the head keeps a list sorted and removes one copy of the head from its elements. */
  lemma SortedTail(a: seq<string>)
    requires Sorted(a) && a != []
    ensures Sorted(a[1..])
    ensures multiset(a[1..]) == multiset(a) - multiset{a[0]}
  {
    assert a == [a[0]] + a[1..];
    forall i, j | 0 <= i < j < |a[1..]| ensures Le(a[1..][i], a[1..][j]) {
      assert a[1..][i] == a[i + 1] && a[1..][j] == a[j + 1];
    }
  }

  /** Two sorted lists with the same elements (with multiplicity) are equal. */
  lemma {:induction false} SortedUnique(a: seq<string>, b: seq<string>)
    requires Sorted(a) && Sorted(b)
    requires multiset(a) == multiset(b)
    ensures a == b
    decreases |a|
  {
    if a == [] {
      assert |multiset(b)| == 0;
    } else {
      SortedSameHead(a, b);
      SortedTail(a);
      SortedTail(b);
      SortedUnique(a[1..], b[1..]);
      assert a == [a[0]] + a[1..] && b == [b[0]] + b[1..];
    }
  }

  /** `sorted` depends only on the elements, not on their order. */
  lemma SortPermutationInvariant(xs: seq<string>, ys: seq<string>)
    requires multiset(xs) == multiset(ys)
    ensures Sort(xs) == Sort(ys)
  {
    SortSortedPermutation(xs);
    SortSortedPermutation(ys);
    SortedUnique(Sort(xs), Sort(ys));
  }

  /** Sorting a list without repetitions gives a strictly increasing list of the same elements. */
  lemma SortDistinct(xs: seq<string>)
    requires Distinct(xs)
    ensures StrictlySorted(Sort(xs))
    ensures |Sort(xs)| == |xs|
    ensures forall x :: x in Sort(xs) <==> x in xs
  {
    SortSortedPermutation(xs);
    var s := Sort(xs);
    assert |s| == |multiset(s)| == |multiset(xs)| == |xs|;
    forall x ensures x in s <==> x in xs {
      assert x in s <==> x in multiset(s);
    }
    DistinctMultiset(xs);
    forall i, j | 0 <= i < j < |s| ensures s[i] != s[j] {
      if s[i] == s[j] {
        MultisetAtLeastTwo(s, i, j);
      }
    }
  }

  lemma {:induction false} DistinctMultiset<T>(xs: seq<T>)
    requires Distinct(xs)
    ensures forall x :: multiset(xs)[x] <= 1
    decreases |xs|
  {
    if xs != [] {
      DistinctMultiset(xs[1..]);
      assert xs == [xs[0]] + xs[1..];
      assert xs[0] !in xs[1..];
    }
  }

  lemma {:induction false} MultisetAtLeastTwo<T>(s: seq<T>, i: nat, j: nat)
    requires i < j < |s| && s[i] == s[j]
    ensures multiset(s)[s[i]] >= 2
  {
    assert s == s[..i] + [s[i]] + s[i + 1..j] + [s[j]] + s[j + 1..];
  }

  // ---------------------------------------------------------------------------
  // `s.split(sep)` and `sep.join(xs)` for a one-character separator
  // ---------------------------------------------------------------------------

  /** `s.split(sep)`: the pieces between separators; `"".split(sep) == [""]`. */
  function Split(s: string, sep: char): (r: seq<string>)
    ensures |r| >= 1
    ensures forall i :: 0 <= i < |r| ==> sep !in r[i]
  {
    if s == [] then [[]]
    else
      var rest := Split(s[1..], sep);
      if s[0] == sep then [[]] + rest else [[s[0]] + rest[0]] + rest[1..]
  }

  /** `sep.join(xs)`. */
  function Join(xs: seq<string>, sep: char): string {
    if |xs| == 0 then []
    else if |xs| == 1 then xs[0]
    else xs[0] + [sep] + Join(xs[1..], sep)
  }

  /** Joining the pieces of a split gives the string back. */
  lemma {:induction false} JoinSplit(s: string, sep: char)
    ensures Join(Split(s, sep), sep) == s
    decreases |s|
  {
    if s != [] {
      JoinSplit(s[1..], sep);
      var rest := Split(s[1..], sep);
      if s[0] == sep {
        assert s == [sep] + s[1..];
      } else if |rest| == 1 {
        assert s == [s[0]] + s[1..];
      } else {
        assert Join(rest, sep) == rest[0] + [sep] + Join(rest[1..], sep);
        assert s == [s[0]] + s[1..];
      }
    }
  }

  lemma {:induction false} SplitNoSeparator(a: string, sep: char)
    requires sep !in a
    ensures Split(a, sep) == [a]
    decreases |a|
  {
    if a != [] {
      SplitNoSeparator(a[1..], sep);
      assert a == [a[0]] + a[1..];
    }
  }

  lemma {:induction false} SplitFirstPiece(a: string, sep: char, rest: string)
    requires sep !in a
    ensures Split(a + [sep] + rest, sep) == [a] + Split(rest, sep)
    decreases |a|
  {
    if a == [] {
      assert a + [sep] + rest == [sep] + rest;
      assert ([sep] + rest)[1..] == rest;
    } else {
      SplitFirstPiece(a[1..], sep, rest);
      assert (a + [sep] + rest)[1..] == a[1..] + [sep] + rest;
      assert a == [a[0]] + a[1..];
    }
  }

  /** Splitting a join of separator-free pieces gives the pieces back (at least one piece). */
  lemma {:induction false} SplitJoin(xs: seq<string>, sep: char)
    requires |xs| >= 1
    requires forall i :: 0 <= i < |xs| ==> sep !in xs[i]
    ensures Split(Join(xs, sep), sep) == xs
    decreases |xs|
  {
    if |xs| == 1 {
      SplitNoSeparator(xs[0], sep);
    } else {
      SplitJoin(xs[1..], sep);
      SplitFirstPiece(xs[0], sep, Join(xs[1..], sep));
      assert xs == [xs[0]] + xs[1..];
    }
  }

  // ---------------------------------------------------------------------------
  // `str(n)` for an integer
  // ---------------------------------------------------------------------------

  predicate IsDigit(ch: char) {
    '0' <= ch <= '9'
  }

  function DigitChar(d: int): char
    requires 0 <= d < 10
  {
    ('0' as int + d) as char
  }

  /** The decimal digits of a natural number, without leading zeros. */
  function NatDecimal(n: nat): (s: string)
    ensures s != [] && forall i :: 0 <= i < |s| ==> IsDigit(s[i])
    ensures s[0] == '0' ==> n == 0
    decreases n
  {
    if n < 10 then [DigitChar(n)] else NatDecimal(n / 10) + [DigitChar(n % 10)]
  }

  /** `str(n)`: the digits of |n|, after a minus sign when n is negative. */
  function Decimal(n: int): string {
    if n < 0 then "-" + NatDecimal(-n) else NatDecimal(n)
  }

  /** The number a string of decimal digits denotes. */
  function DecimalValue(s: string): int
    requires forall i :: 0 <= i < |s| ==> IsDigit(s[i])
    decreases |s|
  {
    if s == [] then 0 else DecimalValue(s[..|s| - 1]) * 10 + (s[|s| - 1] as int - '0' as int)
  }

  lemma {:induction false} NatDecimalValue(n: nat)
    ensures DecimalValue(NatDecimal(n)) == n
    decreases n
  {
    if n >= 10 {
      NatDecimalValue(n / 10);
      var s := NatDecimal(n);
      assert s[..|s| - 1] == NatDecimal(n / 10);
    }
  }

  /** `str(n)` is read back as n: digits for n >= 0, a minus sign then the digits of -n otherwise. */
  lemma DecimalRoundTrip(n: int)
    ensures n >= 0 ==> forall i :: 0 <= i < |Decimal(n)| ==> IsDigit(Decimal(n)[i])
    ensures n >= 0 ==> DecimalValue(Decimal(n)) == n
    ensures n < 0 ==> Decimal(n)[0] == '-' && Decimal(n)[1..] == NatDecimal(-n) && DecimalValue(Decimal(n)[1..]) == -n
  {
    if n >= 0 {
      NatDecimalValue(n);
    } else {
      NatDecimalValue(-n);
      assert Decimal(n)[1..] == NatDecimal(-n);
    }
  }
}
