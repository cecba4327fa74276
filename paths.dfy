/** The POSIX `os.path` operations the tools use to build repository and grader paths. */
module Paths {

  /**
   * `os.path.join(a, b)`: an absolute `b` replaces `a`; otherwise `b` is
   * appended, with one `/` in between unless `a` is empty or already ends in `/`.
   */
  function Join(a: string, b: string): string {
    if b != [] && b[0] == '/' then b
    else if a == [] || a[|a| - 1] == '/' then a + b
    else a + "/" + b
  }

  /** The joined path ends with the last component, and an absolute component replaces what came before. */
  lemma JoinEndsWith(a: string, b: string)
    ensures |b| <= |Join(a, b)| && Join(a, b)[|Join(a, b)| - |b|..] == b
    ensures b != [] && b[0] == '/' ==> Join(a, b) == b
    ensures (b == [] || b[0] != '/') ==> Join(a, b)[..|a|] == a
  {
  }

  /** `os.path.basename(p)`: the text after the last `/` (all of `p` when it has none). */
  function Basename(p: string): (r: string)
    ensures '/' !in r
    ensures |r| <= |p| && r == p[|p| - |r|..]
    ensures |r| < |p| ==> p[|p| - |r| - 1] == '/'
  {
    if p == [] || p[|p| - 1] == '/' then [] else Basename(p[..|p| - 1]) + [p[|p| - 1]]
  }

  lemma {:induction false} BasenameAfterSlash(prefix: string, name: string)
    requires prefix == [] || prefix[|prefix| - 1] == '/'
    requires '/' !in name
    ensures Basename(prefix + name) == name
    decreases |name|
  {
    if name != [] {
      var init := name[..|name| - 1];
      assert (prefix + name)[..|prefix + name| - 1] == prefix + init;
      BasenameAfterSlash(prefix, init);
      assert name == init + [name[|name| - 1]];
    } else {
      assert prefix + name == prefix;
    }
  }

  /** The last component of a joined path is the component joined last, when that has no `/`. */
  lemma BasenameOfJoin(a: string, name: string)
    requires '/' !in name
    ensures Basename(Join(a, name)) == name
  {
    if a == [] || a[|a| - 1] == '/' {
      BasenameAfterSlash(a, name);
    } else {
      assert a + "/" + name == (a + "/") + name;
      BasenameAfterSlash(a + "/", name);
    }
  }
}
