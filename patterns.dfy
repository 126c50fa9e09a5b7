/** The two regular expressions of copy_media_files, written out as
    predicates and functions on names:
    - re.match(parent_name + '(_[0-9]+)?$', folder), with parent_name spliced
      in unescaped, so that '.' in it matches any character but a line feed;
    - re.match(r'.*?([0-9]+)?$', folder).group(1), the index read off a
      matched folder.
    For a base name Plain admits, the first is exact on folder names that
    do not end in a line feed (Python's '$' also matches just before a
    final one); the second is exact on folder names without a line feed,
    which are the only ones the first then accepts. */
module Patterns {
  import opened Text

  /** The characters other than '.' that Python's re gives a meaning of
      their own, and the line feed, which stops the '.*?' of the index
      pattern and which '$' may match before. */
  predicate Special(c: char)
  {
    c == '\n' || c == '^' || c == '$' || c == '*' || c == '+' || c == '?' || c == '{' || c == '}' ||
    c == '[' || c == ']' || c == '\\' || c == '|' || c == '(' || c == ')'
  }

  /** A name holding none of them: spliced into the pattern, each of its
      characters stands for itself, except '.', which stands for any
      character but a line feed.  NamePattern is exact only for these
      names, and only on folder names not ending in a line feed. */
  predicate Plain(p: string) { forall i :: 0 <= i < |p| ==> !Special(p[i]) }

  /** A plain name in which '.' does not occur either, so that the spliced
      pattern matches the name literally. */
  predicate Literal(p: string) { Plain(p) && forall i :: 0 <= i < |p| ==> p[i] != '.' }

  /** The names of the examples: a.b and photos2019 are plain, while in
      "Photos (1)" re reads (1) as a group and in "a*b" the star as a
      repetition; "a\nb" holds a line feed. */
  lemma PlainExamples()
    ensures Plain("a.b") && Plain("photos2019") && Literal("photos2019") && !Literal("a.b")
    ensures !Plain("Photos (1)") && !Plain("a*b") && !Plain("a\nb")
  {
    assert Special("a\nb"[1]);
    assert Special("Photos (1)"[7]);
    assert Special("a*b"[1]);
    assert "a.b"[1] == '.';
  }

  /** One pattern character against one name character. */
  predicate CharMatches(pc: char, c: char)
  {
    if pc == '.' then c != '\n' else c == pc
  }

  predicate PrefixMatches(p: string, s: string)
  {
    |p| <= |s| && forall i :: 0 <= i < |p| ==> CharMatches(p[i], s[i])
  }

  /** What '(_[0-9]+)?$' accepts after the spliced name. */
  predicate IndexSuffix(r: string)
  {
    r == [] || (|r| >= 2 && r[0] == '_' && AllDigits(r[1..]))
  }

  /** re.match(p + '(_[0-9]+)?$', s) succeeds. */
  predicate NamePattern(p: string, s: string)
  {
    PrefixMatches(p, s) && IndexSuffix(s[|p|..])
  }

  /** For a plain p, a folder the pattern accepts holds no line feed: the
      index pattern then reads it the way FolderIndex does, and only
      folders ending in a line feed, which Python's '$' also lets
      through, are matches the model misses. */
  lemma MatchHasNoLineFeed(p: string, s: string)
    requires Plain(p) && NamePattern(p, s)
    ensures forall i :: 0 <= i < |s| ==> s[i] != '\n'
  {
  }

  /** The name copy_media_files gives the k-th folder of base name p:
      p itself, then p_1, p_2, ... */
  function Numbered(p: string, k: nat): string
  {
    if k == 0 then p else p + "_" + NatToString(k)
  }

  /** re.match(r'.*?([0-9]+)?$', s).group(1), converted by int(): the lazy
      prefix stops at the maximal trailing run of digits, and there is no
      group when that run is empty. */
  function FolderIndex(s: string): Option<nat>
  {
    var d := TrailingDigits(s);
    if d == [] then None else Some(DigitsValue(d))
  }

  /** Every numbered name of p matches p's pattern. */
  lemma NumberedMatches(p: string, k: nat)
    requires Plain(p)
    ensures NamePattern(p, Numbered(p, k))
  {
    var s := Numbered(p, k);
    assert s[..|p|] == p;
    if k > 0 {
      assert s[|p|..] == "_" + NatToString(k);
      assert s[|p|..][1..] == NatToString(k);
    }
  }

  /** The index read off p_k is k. */
  lemma FolderIndexOfNumbered(p: string, k: nat)
    requires k > 0
    ensures FolderIndex(Numbered(p, k)) == Some(k)
  {
    assert Numbered(p, k) == p + ['_'] + NatToString(k);
    TrailingDigitsAfter(p, '_', NatToString(k));
    DigitsValueOfNatToString(k);
  }

  /** A base name that does not end in a digit carries no index. */
  lemma FolderIndexOfBase(p: string)
    requires !EndsWithDigit(p)
    ensures FolderIndex(p) == None
  {
  }

  /** A name that ends in a run of digits d, with no digit before the run,
      carries d as its index. */
  lemma FolderIndexOfDigitEnding(a: string, d: string)
    requires a == [] || !IsDigit(a[|a| - 1])
    requires d != [] && AllDigits(d)
    ensures FolderIndex(a + d) == Some(DigitsValue(d))
  {
    if a == [] {
      assert a + d == d;
      TrailingDigitsIs(d);
    } else {
      var n := |a| - 1;
      assert a + d == a[..n] + [a[n]] + d;
      TrailingDigitsAfter(a[..n], a[n], d);
    }
  }

  /** photos2019 reads as index 2019. */
  lemma PhotosIndex()
    ensures FolderIndex("photos2019") == Some(2019)
  {
    assert "photos2019" == "photos" + "2019";
    FolderIndexOfDigitEnding("photos", "2019");
    assert "2019"[..3] == "201" && "201"[..2] == "20" && "20"[..1] == "2";
  }

  /** Numbered names of one base name are all different. */
  lemma NumberedInjective(p: string, j: nat, k: nat)
    requires Numbered(p, j) == Numbered(p, k)
    ensures j == k
  {
    if j > 0 && k > 0 {
      var a := Numbered(p, j);
      assert a[|p| + 1..] == NatToString(j);
      assert Numbered(p, k)[|p| + 1..] == NatToString(k);
      NatToStringInjective(j, k);
    }
  }

  /** For a literal name the pattern accepts p itself and p followed by an
      underscore and digits, and the latter always carry an index. */
  lemma LiteralMatch(p: string, s: string)
    requires Literal(p) && NamePattern(p, s)
    ensures s == p || (|s| > |p| && FolderIndex(s).Some?)
  {
    if |s| == |p| {
      assert forall i :: 0 <= i < |p| ==> s[i] == p[i];
      assert s == p;
    } else {
      assert IsDigit(s[|p|..][|s| - |p| - 1]);
      assert IsDigit(s[|s| - 1]);
      assert TrailingDigits(s) != [];
    }
  }

  /** The dot is a wildcard: "a.b" matches "axb". */
  lemma DotIsWildcard()
    ensures NamePattern("a.b", "axb")
    ensures NamePattern("jane.doe", "jane_doe_3")
  {
    assert "jane_doe_3"[8..] == "_3";
    assert "jane_doe_3"[8..][1..] == "3";
  }
}
