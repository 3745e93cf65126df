/** Python's `os.path.dirname`, `os.path.basename` and two-argument `os.path.join`, as the
    POSIX flavour (`posixpath`) defines them, with '/' the only separator. */
module PosixPath {

  const Sep: char := '/'

  /** `p.rfind('/') + 1`: the index just past the last separator of `p`, or 0 when there is none. */
  function SplitIndex(p: string): (i: nat)
    ensures i <= |p|
    ensures Sep !in p[i..]
    ensures i > 0 ==> p[i - 1] == Sep
  {
    if p == [] then 0
    else if p[|p| - 1] == Sep then |p|
    else
      var i := SplitIndex(p[..|p| - 1]);
      assert p[i..] == p[..|p| - 1][i..] + [p[|p| - 1]];
      i
  }

  predicate AllSep(s: string)
  {
    forall i :: 0 <= i < |s| ==> s[i] == Sep
  }

  /** `s.rstrip('/')`. */
  function RStripSep(s: string): (t: string)
    ensures |t| <= |s| && t == s[..|t|]
    ensures t == [] || t[|t| - 1] != Sep
    ensures AllSep(s[|t|..])
  {
    if s != [] && s[|s| - 1] == Sep then RStripSep(s[..|s| - 1]) else s
  }

  /** `os.path.basename(p)`: what follows the last separator, so a separator-free suffix of
      `p` that starts either `p` or right after a separator. */
  function Basename(p: string): (b: string)
    ensures Sep !in b
    ensures |b| <= |p| && p == p[..|p| - |b|] + b
    ensures |b| == |p| || p[|p| - |b| - 1] == Sep
  {
    p[SplitIndex(p)..]
  }

  /** `os.path.dirname(p)`: what precedes the last separator, with trailing separators removed
      unless it consists of separators only (the root). So it is a prefix of the text before the
      last separator, followed there by separators only; it is empty exactly when `p` holds no
      separator, it is that whole text when the text is all separators, and otherwise it ends in
      a non-separator. */
  function Dirname(p: string): (d: string)
    ensures d == [] || AllSep(d) || d[|d| - 1] != Sep
    ensures |d| <= SplitIndex(p) && d == p[..|d|] && AllSep(p[|d|..SplitIndex(p)])
    ensures d == [] <==> SplitIndex(p) == 0
    ensures AllSep(p[..SplitIndex(p)]) ==> d == p[..SplitIndex(p)]
  {
    var head := p[..SplitIndex(p)];
    if head != [] && !AllSep(head) then RStripSep(head) else head
  }

  /** `os.path.join(a, b)`: an absolute `b` replaces `a`; otherwise one separator goes between
      them unless `a` is empty or already ends with one. */
  function Join(a: string, b: string): string
  {
    if b != [] && b[0] == Sep then b
    else if a == [] || a[|a| - 1] == Sep then a + b
    else a + [Sep] + b
  }

  /** The last separator of `a + b` is the last character of `a` when `b` holds none. */
  lemma {:induction false} SplitIndexAppend(a: string, b: string)
    requires a != [] && a[|a| - 1] == Sep && Sep !in b
    ensures SplitIndex(a + b) == |a|
    decreases |b|
  {
    if b == [] {
      assert a + b == a;
    } else {
      var b' := b[..|b| - 1];
      assert (a + b)[..|a + b| - 1] == a + b';
      assert b[|b| - 1] in b;
      SplitIndexAppend(a, b');
    }
  }

  /** Joining a directory name with a plain file name (no separator, possibly empty) gives a path
      whose directory name is that directory and whose basename is that file name. */
  lemma {:induction false} JoinSplits(d: string, name: string)
    requires d == [] || AllSep(d) || d[|d| - 1] != Sep
    requires Sep !in name
    ensures Dirname(Join(d, name)) == d && Basename(Join(d, name)) == name
  {
    assert name != [] ==> name[0] in name;
    var q := Join(d, name);
    if d == [] {
      assert q == name;
      assert q[..0] == [] && q[0..] == q;
    } else if d[|d| - 1] == Sep {
      assert AllSep(d);
      assert q == d + name;
      SplitIndexAppend(d, name);
      assert q[..|d|] == d && q[|d|..] == name;
    } else {
      var head := d + [Sep];
      assert q == head + name;
      SplitIndexAppend(head, name);
      assert q[..|head|] == head && q[|head|..] == name;
      assert !AllSep(head) by { assert head[|d| - 1] != Sep; }
      assert RStripSep(head) == RStripSep(d) == d by {
        assert head[..|head| - 1] == d;
      }
    }
  }

  /** Renaming within a directory: joining the directory name of `p` with a plain file name
      keeps that directory name and yields that file name as the new basename. */
  lemma RenameKeepsDirectory(p: string, name: string)
    requires Sep !in name
    ensures Dirname(Join(Dirname(p), name)) == Dirname(p)
    ensures Basename(Join(Dirname(p), name)) == name
  {
    JoinSplits(Dirname(p), name);
  }
}
