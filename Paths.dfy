/** The POSIX `os.path` operations and the `str.endswith` test the page
    builder relies on, on paths written as strings with '/' as separator. */
module Paths {

  const Sep: char := '/'
  const CurDir: string := "."
  const ParDir: string := ".."

  /** `s.endswith(suffix)` */
  predicate EndsWith(s: string, suffix: string) {
    |suffix| <= |s| && s[|s| - |suffix|..] == suffix
  }

  /** `os.path.join(a, b)`: an absolute `b` replaces `a`; otherwise a single
      separator is put between them unless `a` is empty or already ends in one. */
  function Join(a: string, b: string): string {
    if b != [] && b[0] == Sep then b
    else if a == [] || a[|a| - 1] == Sep then a + b
    else a + [Sep] + b
  }

  /** The joined path ends with its second part; a relative second part
      keeps the first as a prefix, with exactly one separator between them
      when the first is non-empty and does not end in one. */
  lemma JoinShape(a: string, b: string)
    ensures EndsWith(Join(a, b), b)
    ensures (b == [] || b[0] != Sep) ==> |a| <= |Join(a, b)| && Join(a, b)[..|a|] == a
    ensures b != [] && b[0] != Sep && a != [] && a[|a| - 1] != Sep ==>
              Join(a, b) == a + [Sep] + b
  {
  }

  /** `p.rfind('/', 0, n)`: the last separator before position `n`, or -1. */
  function LastSep(p: string, n: nat): (r: int)
    requires n <= |p|
    ensures -1 <= r < n
  {
    if n == 0 then -1 else if p[n - 1] == Sep then n - 1 else LastSep(p, n - 1)
  }

  /** The position found holds a separator and none follows it before `n`. */
  lemma {:induction false} LastSepShape(p: string, n: nat)
    requires n <= |p|
    ensures var r := LastSep(p, n);
            (r >= 0 ==> p[r] == Sep) && forall k :: r < k < n ==> p[k] != Sep
    decreases n
  {
    if n > 0 && p[n - 1] != Sep {
      LastSepShape(p, n - 1);
    }
  }

  /** `os.path.basename(p)`: what follows the last separator. */
  function Basename(p: string): string {
    p[LastSep(p, |p|) + 1..]
  }

  /** The basename is a suffix of the path, holds no separator, and is either
      the whole path or preceded by a separator. */
  lemma BasenameShape(p: string)
    ensures EndsWith(p, Basename(p))
    ensures Sep !in Basename(p)
    ensures Basename(p) == p || p[|p| - |Basename(p)| - 1] == Sep
  {
    LastSepShape(p, |p|);
    var i := LastSep(p, |p|) + 1;
    assert forall k :: 0 <= k < |p| - i ==> Basename(p)[k] == p[i + k];
  }

  /** The three properties of BasenameShape determine the basename. */
  lemma BasenameUnique(p: string, r: string)
    requires EndsWith(p, r) && Sep !in r
    requires r == p || p[|p| - |r| - 1] == Sep
    ensures Basename(p) == r
  {
    LastSepShape(p, |p|);
    var j := |p| - |r|;
    assert forall k :: j <= k < |p| ==> p[k] == r[k - j];
  }

  /** Joining a plain file name onto any directory yields that file name back
      as the basename. */
  lemma JoinBasename(dir: string, name: string)
    requires name != [] && Sep !in name
    ensures Basename(Join(dir, name)) == name
  {
    var j := Join(dir, name);
    JoinShape(dir, name);
    if dir != [] && dir[|dir| - 1] != Sep {
      assert j[|j| - |name| - 1] == Sep;
    }
    BasenameUnique(j, name);
  }
}
