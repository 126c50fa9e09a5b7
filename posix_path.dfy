/** The parts of Python's posixpath that the copier relies on: split,
    dirname, basename and two-argument join, with '/' as the separator. */
module PosixPath {

  predicate NoSlash(s: string) { forall k :: 0 <= k < |s| ==> s[k] != '/' }

  predicate AllSlashes(s: string) { forall k :: 0 <= k < |s| ==> s[k] == '/' }

  /** str.rfind('/'): the index of the last separator, or -1. */
  function RFindSlash(p: string): (r: int)
    ensures -1 <= r < |p|
  {
    if p == [] then -1
    else if p[|p| - 1] == '/' then |p| - 1
    else RFindSlash(p[..|p| - 1])
  }

  /** rfind finds the last separator: there is one at the index found and
      none after it. */
  lemma {:induction false} RFindSlashIsLast(p: string)
    ensures RFindSlash(p) >= 0 ==> p[RFindSlash(p)] == '/'
    ensures forall k :: RFindSlash(p) < k < |p| ==> p[k] != '/'
  {
    if p != [] && p[|p| - 1] != '/' {
      var q := p[..|p| - 1];
      RFindSlashIsLast(q);
      assert forall k :: 0 <= k < |q| ==> q[k] == p[k];
    }
  }

  /** str.rstrip('/'). */
  function RStripSlashes(s: string): (r: string)
    ensures |r| <= |s|
  {
    if s != [] && s[|s| - 1] == '/' then RStripSlashes(s[..|s| - 1]) else s
  }

  /** rstrip removes exactly the trailing separators: what it keeps is a
      prefix not ending in one, and what it drops consists of separators. */
  lemma {:induction false} RStripSlashesIs(s: string)
    ensures RStripSlashes(s) == s[..|RStripSlashes(s)|]
    ensures RStripSlashes(s) == [] || RStripSlashes(s)[|RStripSlashes(s)| - 1] != '/'
    ensures AllSlashes(s[|RStripSlashes(s)|..])
  {
    if s != [] && s[|s| - 1] == '/' {
      var q := s[..|s| - 1];
      RStripSlashesIs(q);
      var r := RStripSlashes(q);
      assert q[..|r|] == s[..|r|];
      assert forall k :: |r| <= k < |q| ==> q[k] == s[k];
    }
  }

  /** rstrip empties exactly the strings made of separators only. */
  lemma StrippedAway(s: string)
    ensures RStripSlashes(s) == [] <==> AllSlashes(s)
  {
    RStripSlashesIs(s);
    var r := RStripSlashes(s);
    if r != [] {
      assert s[|r| - 1] == r[|r| - 1];
    } else {
      assert s[|r|..] == s;
    }
  }

  /** The head of a split loses its trailing separators unless it consists
      of separators only (and then stays as it is). */
  function StripHead(head: string): string
  {
    var r := RStripSlashes(head);
    if r != [] then r else head
  }

  /** StripHead is posixpath.split's test written out: strip when the head
      is non-empty and not made of separators only. */
  lemma StripHeadTest(head: string)
    ensures StripHead(head) ==
      if head != [] && !AllSlashes(head) then RStripSlashes(head) else head
  {
    StrippedAway(head);
  }

  /** os.path.split: everything up to and including the last separator
      (trailing separators removed) and everything after it. */
  function Split(p: string): (string, string)
  {
    var i := RFindSlash(p) + 1;
    (StripHead(p[..i]), p[i..])
  }

  /** os.path.dirname */
  function Dirname(p: string): string { Split(p).0 }

  /** os.path.basename */
  function Basename(p: string): string { Split(p).1 }

  /** A base name never contains a separator. */
  lemma BasenameNoSlash(p: string)
    ensures NoSlash(Basename(p))
  {
    RFindSlashIsLast(p);
  }

  /** os.path.join(a, b) */
  function Join(a: string, b: string): string
  {
    if |b| > 0 && b[0] == '/' then b
    else if a == [] || a[|a| - 1] == '/' then a + b
    else a + "/" + b
  }

  /** os.path.split(os.path.dirname(path))[1]: the name of the folder a file
      sits in. */
  function ParentName(path: string): string { Basename(Dirname(path)) }

  lemma {:induction false} RFindSlashSkips(x: string, f: string)
    requires NoSlash(f)
    ensures RFindSlash(x + f) == RFindSlash(x)
  {
    if f != [] {
      var p := x + f;
      assert p[|p| - 1] == f[|f| - 1] != '/';
      assert p[..|p| - 1] == x + f[..|f| - 1];
      assert RFindSlash(p) == RFindSlash(p[..|p| - 1]);
      RFindSlashSkips(x, f[..|f| - 1]);
    } else {
      assert x + f == x;
    }
  }

  /** A path whose last separator closes h splits into h's stripped form and
      what follows. */
  lemma SplitAfter(h: string, f: string)
    requires NoSlash(f)
    requires h == [] || h[|h| - 1] == '/'
    ensures Split(h + f) == (StripHead(h), f)
  {
    RFindSlashSkips(h, f);
    assert RFindSlash(h) == |h| - 1 by { RFindSlashIsLast(h); }
    assert (h + f)[..|h|] == h;
    assert (h + f)[|h|..] == f;
  }

  lemma StripHeadDropsSlash(d: string)
    requires d != [] && d[|d| - 1] != '/'
    ensures StripHead(d + "/") == d
  {
    var h := d + "/";
    assert h[..|h| - 1] == d;
    assert RStripSlashes(h) == RStripSlashes(d) == d;
  }

  /** Splitting a joined path gives back the directory (as split normalises
      it) and the file name. */
  lemma SplitJoin(d: string, f: string)
    requires f != [] && NoSlash(f)
    ensures Split(Join(d, f)) == (StripHead(d), f)
  {
    if d == [] || d[|d| - 1] == '/' {
      SplitAfter(d, f);
    } else {
      assert Join(d, f) == (d + "/") + f;
      SplitAfter(d + "/", f);
      StripHeadDropsSlash(d);
    }
  }

  /** The folder name of a joined path is the last component of the
      directory it was joined to. */
  lemma ParentNameOfJoin(d: string, f: string)
    requires f != [] && NoSlash(f)
    ensures Dirname(Join(d, f)) == StripHead(d)
    ensures ParentName(Join(d, f)) == Basename(StripHead(d))
  {
    SplitJoin(d, f);
  }
}
