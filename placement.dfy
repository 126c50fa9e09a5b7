/** Which destination folder copy_media_files picks for the first file of a
    new source directory (demetrius.py, lines 82-154), as a decision on the
    names already present in the destination root. The filesystem compares
    names exactly or ignoring ASCII case; the regular expressions of the
    source always compare exactly. */
module Placement {
  import opened Text
  import opened Patterns

  datatype Fs = CaseSensitive | CaseInsensitive

  /** Whether the filesystem takes two entry names for the same entry. */
  predicate SameName(fs: Fs, a: string, b: string)
  {
    match fs
    case CaseSensitive => a == b
    case CaseInsensitive => Lower(a) == Lower(b)
  }

  /** The names that, appended to dst_dir, name the destination root
      itself or its parent rather than an entry of the root. */
  predicate RootName(name: string) { name == "" || name == "." || name == ".." }

  /** os.path.exists(dst_dir + name): the root and its parent always exist;
      any other name exists when the filesystem takes an entry for it. */
  predicate Exists(fs: Fs, entries: set<string>, name: string)
  {
    RootName(name) || exists e :: e in entries && SameName(fs, e, name)
  }

  lemma MemberExists(fs: Fs, entries: set<string>, name: string)
    requires name in entries
    ensures Exists(fs, entries, name)
  {
    assert SameName(fs, name, name);
  }

  /** The folders of os.listdir that equal p or match p + '(_[0-9]+)?$'
      (lines 101-109). */
  function Matches(entries: set<string>, p: string): set<string>
  {
    set e | e in entries && (e == p || NamePattern(p, e))
  }

  /** The indexes read off the matched folders that have one (lines 128-136). */
  function Indexes(ms: set<string>): set<nat>
  {
    set e | e in ms && FolderIndex(e).Some? :: FolderIndex(e).value
  }

  /** max() of a non-empty collection of indexes. */
  ghost function SetMax(s: set<nat>): (m: nat)
    requires s != {}
    ensures m in s && forall x :: x in s ==> x <= m
  {
    var a :| a in s;
    if s == {a} then a
    else
      var b := SetMax(s - {a});
      assert forall x :: x in s ==> x == a || x in s - {a};
      if a > b then a else b
  }

  lemma SetMaxIs(s: set<nat>, m: nat)
    requires m in s && forall x :: x in s ==> x <= m
    ensures SetMax(s) == m
  {
  }

  /** The errors the loop can raise: FileExistsError from os.makedirs,
      ValueError from max() of an empty list, and TypeError from copying
      to a last destination that was never set. */
  datatype Error = FileExists(name: string) | EmptyMax | NoTarget

  /** Create: a folder of that name is made and receives the file.
      Unresolved: the proposed name exists but neither branch of lines
      113-154 applies; nothing is made. */
  datatype Placement = Create(name: string) | Unresolved | Fail(error: Error)

  /** os.makedirs(dst_dir + name) */
  function MakeDirs(fs: Fs, entries: set<string>, name: string): Placement
  {
    if Exists(fs, entries, name) then Fail(FileExists(name)) else Create(name)
  }

  /** Lines 85-154 as written: p itself when no entry of that name exists,
      otherwise a suffixed name chosen from the folders matching p. */
  ghost function Place(fs: Fs, entries: set<string>, p: string): Placement
  {
    if !Exists(fs, entries, p) then Create(p)
    else Suffix(fs, entries, p, Matches(entries, p))
  }

  /** Lines 113-154, for the matches ms of p: p_1 for one match, the
      largest index plus one for several, and nothing for none. */
  ghost function Suffix(fs: Fs, entries: set<string>, p: string, ms: set<string>): Placement
  {
    if |ms| == 1 then MakeDirs(fs, entries, Numbered(p, 1))
    else if |ms| > 1 then ByMax(fs, entries, p, Indexes(ms))
    else Unresolved
  }

  /** Lines 142-154: max() of the indexes (ValueError when there are none),
      then os.makedirs of p_(max + 1). */
  ghost function ByMax(fs: Fs, entries: set<string>, p: string, idx: set<nat>): Placement
  {
    if idx == {} then Fail(EmptyMax) else MakeDirs(fs, entries, Numbered(p, SetMax(idx) + 1))
  }

  /** A created folder never existed before. */
  lemma PlaceCreatesFresh(fs: Fs, entries: set<string>, p: string)
    requires Place(fs, entries, p).Create?
    ensures !Exists(fs, entries, Place(fs, entries, p).name)
    ensures Place(fs, entries, p).name !in entries
  {
    var n := Place(fs, entries, p).name;
    if n in entries {
      MemberExists(fs, entries, n);
    }
  }

  lemma OneElement(ms: set<string>, a: string, b: string)
    requires a in ms && b in ms && a != b
    ensures |ms| > 1
  {
    assert {a, b} <= ms;
    assert ms == (ms - {a, b}) + {a, b};
    assert |ms| == |ms - {a, b}| + |{a, b}|;
  }

  lemma AtMostOne(ms: set<string>, p: string)
    requires ms <= {p}
    ensures |ms| <= 1
  {
    if p in ms { assert ms == {p}; } else { assert ms == {}; }
  }

  /** On a case-sensitive filesystem a proposed entry name that exists is
      matched by its own pattern, so one of the two suffixing branches runs;
      neither runs exactly for a root name that nothing matches. */
  lemma PlaceResolvesCaseSensitive(entries: set<string>, p: string)
    ensures Place(CaseSensitive, entries, p) == Unresolved <==> RootName(p) && Matches(entries, p) == {}
  {
    ExistsCaseSensitive(entries, p);
    if p in entries {
      assert p in Matches(entries, p);
    }
  }

  /** No name p_k with k > 0 names the root. */
  lemma NumberedNotRoot(p: string, k: nat)
    requires k > 0
    ensures !RootName(Numbered(p, k))
  {
    var n := Numbered(p, k);
    assert |n| >= |p| + 2 && n[|p|] == '_';
    if |n| == 2 {
      assert n[0] == '_';
    }
  }

  /** The decision as written only ever creates a numbered name of p. */
  lemma PlaceNamesNumbered(fs: Fs, entries: set<string>, p: string)
    ensures Place(fs, entries, p).Create? ==> exists k: nat :: Place(fs, entries, p).name == Numbered(p, k)
  {
    if !Exists(fs, entries, p) {
      assert Place(fs, entries, p).name == Numbered(p, 0);
    }
  }

  /** With exactly one match, p_1 does not exist yet: it would match too. */
  lemma OneMatchFree(entries: set<string>, p: string)
    requires Plain(p)
    requires p in entries && |Matches(entries, p)| == 1
    ensures Numbered(p, 1) !in entries
  {
    var ms := Matches(entries, p);
    assert p in ms;
    var n := Numbered(p, 1);
    NumberedMatches(p, 1);
    assert n in entries ==> n in ms;
    if n in ms {
      OneElement(ms, p, n);
    }
  }

  /** p_k is among the matches of p whenever it is an entry. */
  lemma NumberedIsMatch(entries: set<string>, p: string, k: nat)
    requires Plain(p)
    ensures Numbered(p, k) in entries ==> Numbered(p, k) in Matches(entries, p)
  {
    NumberedMatches(p, k);
  }

  /** A matched p_k contributes k to the indexes. */
  lemma NumberedIndexIn(ms: set<string>, p: string, k: nat)
    requires k > 0
    ensures Numbered(p, k) in ms ==> k in Indexes(ms)
  {
    FolderIndexOfNumbered(p, k);
  }

  /** p_(m+1), for m the largest index among the matches, does not exist yet:
      it would match and carry a larger index. */
  lemma NextIndexFree(entries: set<string>, p: string)
    requires Plain(p)
    requires Indexes(Matches(entries, p)) != {}
    ensures Numbered(p, SetMax(Indexes(Matches(entries, p))) + 1) !in entries
  {
    var ms := Matches(entries, p);
    var m := SetMax(Indexes(ms));
    NumberedIsMatch(entries, p, m + 1);
    NumberedIndexIn(ms, p, m + 1);
  }

  /** On a case-sensitive filesystem a name exists exactly when it is an
      entry or names the root. */
  lemma ExistsCaseSensitive(entries: set<string>, name: string)
    ensures Exists(CaseSensitive, entries, name) <==> RootName(name) || name in entries
  {
    if name in entries {
      MemberExists(CaseSensitive, entries, name);
    }
  }

  /** On a case-sensitive filesystem os.makedirs never fails for an entry
      name: neither p_1 (one match) nor p_(max+1) (several matches) exists
      yet.  Only a root name can make it fail. */
  lemma PlaceNeverCollides(entries: set<string>, p: string)
    requires Plain(p)
    ensures Place(CaseSensitive, entries, p).Fail? ==>
              Place(CaseSensitive, entries, p).error == EmptyMax || RootName(p)
  {
    ExistsCaseSensitive(entries, p);
    if p in entries && !RootName(p) {
      var ms := Matches(entries, p);
      assert Place(CaseSensitive, entries, p) == Suffix(CaseSensitive, entries, p, ms);
      if |ms| == 1 {
        OneMatchFree(entries, p);
        NumberedNotRoot(p, 1);
        ExistsCaseSensitive(entries, Numbered(p, 1));
      } else if |ms| > 1 && Indexes(ms) != {} {
        var k := SetMax(Indexes(ms)) + 1;
        NextIndexFree(entries, p);
        NumberedNotRoot(p, k);
        ExistsCaseSensitive(entries, Numbered(p, k));
      }
    }
  }

  /** A root name does collide: with "_1" in the root, the directory of
      base name "" (a file directly under "/") has "_1" as its only match,
      so os.makedirs(dst_dir + "_1") raises. */
  lemma RootNameCollides()
    ensures Place(CaseSensitive, {"_1"}, "") == Fail(FileExists("_1"))
  {
    var ms := Matches({"_1"}, "");
    assert "_1"[1..] == "1";
    assert NamePattern("", "_1");
    assert ms == {"_1"};
    assert Numbered("", 1) == "_1";
    MemberExists(CaseSensitive, {"_1"}, "_1");
  }

  /** One match: the new folder is p_1, and it is fresh (lines 113-121). */
  lemma PlaceOneMatch(entries: set<string>, p: string)
    requires Plain(p)
    requires p in entries && |Matches(entries, p)| == 1
    ensures Place(CaseSensitive, entries, p) == Create(p + "_1")
    ensures p + "_1" !in entries
  {
    OneMatchFree(entries, p);
    MemberExists(CaseSensitive, entries, p);
    NumberedNotRoot(p, 1);
    ExistsCaseSensitive(entries, Numbered(p, 1));
    assert p + "_1" == Numbered(p, 1) by { assert NatToString(1) == "1"; }
  }

  /** Several matches carrying indexes: the new folder is p_(max + 1), and
      it is fresh (lines 126-154). */
  lemma PlaceManyMatches(entries: set<string>, p: string)
    requires Plain(p)
    requires p in entries && |Matches(entries, p)| > 1 && Indexes(Matches(entries, p)) != {}
    ensures var m := SetMax(Indexes(Matches(entries, p)));
            Place(CaseSensitive, entries, p) == Create(p + "_" + NatToString(m + 1)) &&
            p + "_" + NatToString(m + 1) !in entries
  {
    var m := SetMax(Indexes(Matches(entries, p)));
    NextIndexFree(entries, p);
    MemberExists(CaseSensitive, entries, p);
    NumberedNotRoot(p, m + 1);
    ExistsCaseSensitive(entries, Numbered(p, m + 1));
  }

  /** Several matches and none carrying an index: max() of the empty list
      raises ValueError (line 142). */
  lemma PlaceEmptyMax(fs: Fs, entries: set<string>, p: string)
    requires Exists(fs, entries, p) && |Matches(entries, p)| > 1 && Indexes(Matches(entries, p)) == {}
    ensures Place(fs, entries, p) == Fail(EmptyMax)
  {
  }

  /** For a name without '.', several matches always include an indexed
      one, so max() is never applied to an empty list. */
  lemma PlaceNoEmptyMax(fs: Fs, entries: set<string>, p: string)
    requires Literal(p)
    ensures Place(fs, entries, p) != Fail(EmptyMax)
  {
    var ms := Matches(entries, p);
    if Exists(fs, entries, p) && |ms| > 1 {
      var e :| e in ms && e != p by {
        if forall e :: e in ms ==> e == p {
          AtMostOne(ms, p);
        }
      }
      LiteralMatch(p, e);
      assert FolderIndex(e).value in Indexes(ms);
    }
  }

  /** The names p, p_1, ..., p_(c-1). */
  function NamesBelow(p: string, c: nat): set<string>
  {
    set k | 0 <= k < c :: Numbered(p, k)
  }

  lemma NamesBelowSucc(p: string, c: nat)
    ensures NamesBelow(p, c + 1) == NamesBelow(p, c) + {Numbered(p, c)}
  {
    forall n ensures n in NamesBelow(p, c + 1) <==> n in NamesBelow(p, c) + {Numbered(p, c)} {
      if n in NamesBelow(p, c + 1) {
        var k :| 0 <= k < c + 1 && n == Numbered(p, k);
        if k < c { assert n in NamesBelow(p, c); }
      }
    }
  }

  lemma NumberedNotBelow(p: string, c: nat)
    ensures Numbered(p, c) !in NamesBelow(p, c)
  {
    if Numbered(p, c) in NamesBelow(p, c) {
      var k :| 0 <= k < c && Numbered(p, k) == Numbered(p, c);
      NumberedInjective(p, k, c);
    }
  }

  lemma {:induction false} NamesBelowSize(p: string, c: nat)
    ensures |NamesBelow(p, c)| == c
  {
    if c > 0 {
      NamesBelowSize(p, c - 1);
      NamesBelowSucc(p, c - 1);
      NumberedNotBelow(p, c - 1);
    } else {
      assert NamesBelow(p, c) == {};
    }
  }

  lemma IndexesBelow(p: string, c: nat)
    requires !EndsWithDigit(p) && c >= 2
    ensures Indexes(NamesBelow(p, c)) != {}
    ensures SetMax(Indexes(NamesBelow(p, c))) == c - 1
  {
    var idx := Indexes(NamesBelow(p, c));
    FolderIndexOfNumbered(p, c - 1);
    assert Numbered(p, c - 1) in NamesBelow(p, c);
    assert c - 1 in idx;
    forall x | x in idx ensures x <= c - 1 {
      var e :| e in NamesBelow(p, c) && FolderIndex(e).Some? && FolderIndex(e).value == x;
      var k :| 0 <= k < c && e == Numbered(p, k);
      if k == 0 {
        FolderIndexOfBase(p);
      } else {
        FolderIndexOfNumbered(p, k);
      }
    }
    SetMaxIs(idx, c - 1);
  }

  /** The first directory of base name p gets p itself when nothing in the
      destination looks like p. */
  lemma PlaceFirst(fs: Fs, entries: set<string>, p: string)
    requires !Exists(fs, entries, p)
    ensures Place(fs, entries, p) == Create(Numbered(p, 0))
  {
  }

  /** Once exactly p, p_1, ..., p_(c-1) match, the next directory of base
      name p gets p_c (for a base name that does not end in a digit, on a
      case-sensitive filesystem). */
  lemma PlaceNext(entries: set<string>, p: string, c: nat)
    requires Plain(p)
    requires c >= 1 && !EndsWithDigit(p)
    requires Matches(entries, p) == NamesBelow(p, c)
    ensures Place(CaseSensitive, entries, p) == Create(Numbered(p, c))
  {
    var fs := CaseSensitive;
    var ms := Matches(entries, p);
    assert Numbered(p, 0) in NamesBelow(p, c);
    assert p in entries;
    NamesBelowSize(p, c);
    var n := Numbered(p, c);
    NumberedNotRoot(p, c);
    if n in entries {
      NumberedMatches(p, c);
      assert n in ms;
      var k :| 0 <= k < c && Numbered(p, k) == n;
      NumberedInjective(p, k, c);
    }
    if c > 1 {
      IndexesBelow(p, c);
    }
  }

  // ---------------------------------------------------------------------
  // The corrected decision: the name is escaped, a folder's index is the
  // number after "p_" (p itself counting as 0), and names are compared the
  // way the filesystem compares them.

  /** The index an existing entry e carries for base name p, if any. */
  function FixedIndex(fs: Fs, p: string, e: string): Option<nat>
  {
    if SameName(fs, e, p) then Some(0)
    else if |e| >= |p| + 2 && SameName(fs, e[..|p|], p) && e[|p|] == '_' && AllDigits(e[|p| + 1..])
    then Some(DigitsValue(e[|p| + 1..]))
    else None
  }

  function FixedIndexes(fs: Fs, entries: set<string>, p: string): set<nat>
  {
    set e | e in entries && FixedIndex(fs, p, e).Some? :: FixedIndex(fs, p, e).value
  }

  /** The corrected decision: p when nothing of that name exists, otherwise
      p_(largest index + 1). */
  ghost function PlaceFixed(fs: Fs, entries: set<string>, p: string): Placement
  {
    if !Exists(fs, entries, p) then Create(p)
    else MakeDirs(fs, entries, Numbered(p, SetMax(FixedIndexes(fs, entries, p) + {0}) + 1))
  }

  lemma LowerSuffix(d: string)
    requires AllDigits(d)
    ensures Lower("_" + d) == "_" + d
  {
  }

  /** A name that lower-cases to Lower(p) + "_" + d, for digits d, is a
      case variant of p followed by exactly "_" + d. */
  lemma LowerSplit(e: string, p: string, d: string)
    requires AllDigits(d) && Lower(e) == Lower(p) + ("_" + d)
    ensures |e| == |p| + 1 + |d|
    ensures Lower(e[..|p|]) == Lower(p) && e[|p|] == '_' && e[|p| + 1..] == d
  {
    var l := Lower(e);
    assert |l| == |e|;
    LowerSlice(e, 0, |p|);
    assert l[..|p|] == Lower(p);
    assert LowerChar(e[|p|]) == l[|p|] == '_';
    LowerCharFixes(e[|p|], '_');
    LowerSlice(e, |p| + 1, |e|);
    assert l[|p| + 1..] == d;
    LowerFixesDigits(e[|p| + 1..], d);
  }

  /** An entry the filesystem takes for p_k carries index k. */
  lemma FixedIndexOfSameName(fs: Fs, p: string, k: nat, e: string)
    requires SameName(fs, e, Numbered(p, k))
    ensures FixedIndex(fs, p, e) == Some(k)
  {
    if k > 0 {
      var d := NatToString(k);
      assert Numbered(p, k) == p + ("_" + d);
      DigitsValueOfNatToString(k);
      match fs
      case CaseSensitive =>
        assert e[..|p|] == p;
        assert e[|p| + 1..] == d;
      case CaseInsensitive =>
        LowerConcat(p, "_" + d);
        LowerSuffix(d);
        LowerSplit(e, p, d);
        assert |Lower(e)| != |Lower(p)|;
    }
  }

  lemma FixedIndexIn(fs: Fs, entries: set<string>, p: string, k: nat, e: string)
    requires e in entries && SameName(fs, e, Numbered(p, k))
    ensures k in FixedIndexes(fs, entries, p)
  {
    FixedIndexOfSameName(fs, p, k, e);
  }

  /** The corrected decision always creates a folder, and that folder does
      not exist yet under the filesystem's own comparison of names. */
  lemma PlaceFixedFresh(fs: Fs, entries: set<string>, p: string)
    ensures PlaceFixed(fs, entries, p).Create?
    ensures !Exists(fs, entries, PlaceFixed(fs, entries, p).name)
  {
    if Exists(fs, entries, p) {
      var idx := FixedIndexes(fs, entries, p) + {0};
      var m := SetMax(idx);
      var n := Numbered(p, m + 1);
      NumberedNotRoot(p, m + 1);
      if Exists(fs, entries, n) {
        var e :| e in entries && SameName(fs, e, n);
        FixedIndexIn(fs, entries, p, m + 1, e);
      }
    }
  }

  /** The corrected decision only ever creates a numbered name of p. */
  lemma PlaceFixedNamesNumbered(fs: Fs, entries: set<string>, p: string)
    ensures exists k: nat :: PlaceFixed(fs, entries, p) == Create(Numbered(p, k))
  {
    PlaceFixedFresh(fs, entries, p);
    if !Exists(fs, entries, p) {
      assert PlaceFixed(fs, entries, p) == Create(Numbered(p, 0));
    } else {
      var k := SetMax(FixedIndexes(fs, entries, p) + {0}) + 1;
      assert PlaceFixed(fs, entries, p) == Create(Numbered(p, k));
    }
  }

  lemma FixedIndexOfNumbered(fs: Fs, p: string, k: nat)
    ensures FixedIndex(fs, p, Numbered(p, k)) == Some(k)
  {
    assert SameName(fs, Numbered(p, k), Numbered(p, k));
    FixedIndexOfSameName(fs, p, k, Numbered(p, k));
  }

  /** Adding entry n adds the index n carries, if any. */
  lemma FixedIndexesAdd(fs: Fs, entries: set<string>, p: string, n: string)
    ensures FixedIndexes(fs, entries + {n}, p) == FixedIndexes(fs, entries, p) + OptSet(FixedIndex(fs, p, n))
  {
    var l := FixedIndexes(fs, entries, p) + OptSet(FixedIndex(fs, p, n));
    forall k ensures k in FixedIndexes(fs, entries + {n}, p) <==> k in l {
      if k in FixedIndexes(fs, entries + {n}, p) {
        var e :| e in entries + {n} && FixedIndex(fs, p, e).Some? && FixedIndex(fs, p, e).value == k;
        if e != n {
          assert e in entries;
        }
      }
      if k in FixedIndexes(fs, entries, p) {
        var e :| e in entries && FixedIndex(fs, p, e).Some? && FixedIndex(fs, p, e).value == k;
        assert e in entries + {n};
      }
      if k in OptSet(FixedIndex(fs, p, n)) {
        assert n in entries + {n};
      }
    }
  }

  /** Under the corrected decision the directories of base name p get
      p, p_1, p_2, ... in encounter order, whatever p looks like: once the
      entries carry exactly the indexes below c, the next one gets p_c and
      the entries then carry exactly the indexes below c + 1. */
  lemma PlaceFixedNext(fs: Fs, entries: set<string>, p: string, c: nat)
    requires forall k: nat :: k in FixedIndexes(fs, entries, p) <==> k < c
    requires c == 0 <==> !Exists(fs, entries, p)
    ensures PlaceFixed(fs, entries, p) == Create(Numbered(p, c))
    ensures forall k: nat :: k in FixedIndexes(fs, entries + {Numbered(p, c)}, p) <==> k <= c
  {
    PlaceFixedAt(fs, entries, p, c);
    FixedIndexesAfter(fs, entries, p, c);
  }

  lemma PlaceFixedAt(fs: Fs, entries: set<string>, p: string, c: nat)
    requires forall k: nat :: k in FixedIndexes(fs, entries, p) <==> k < c
    requires c == 0 <==> !Exists(fs, entries, p)
    ensures PlaceFixed(fs, entries, p) == Create(Numbered(p, c))
  {
    if c > 0 {
      var idx := FixedIndexes(fs, entries, p);
      assert c - 1 in idx;
      SetMaxIs(idx + {0}, c - 1);
      PlaceFixedFresh(fs, entries, p);
    }
  }

  lemma FixedIndexesAfter(fs: Fs, entries: set<string>, p: string, c: nat)
    requires forall k: nat :: k in FixedIndexes(fs, entries, p) <==> k < c
    ensures forall k: nat :: k in FixedIndexes(fs, entries + {Numbered(p, c)}, p) <==> k <= c
  {
    FixedIndexOfNumbered(fs, p, c);
    FixedIndexesAdd(fs, entries, p, Numbered(p, c));
  }

  function OptSet(o: Option<nat>): set<nat>
  {
    if o.Some? then {o.value} else {}
  }

  lemma FixedIndexesOfTwo(fs: Fs, a: string, b: string, p: string)
    ensures FixedIndexes(fs, {a, b}, p) == OptSet(FixedIndex(fs, p, a)) + OptSet(FixedIndex(fs, p, b))
  {
    var l := OptSet(FixedIndex(fs, p, a)) + OptSet(FixedIndex(fs, p, b));
    forall x ensures x in FixedIndexes(fs, {a, b}, p) <==> x in l {
      if x in FixedIndexes(fs, {a, b}, p) {
        var e :| e in {a, b} && FixedIndex(fs, p, e).Some? && FixedIndex(fs, p, e).value == x;
        assert e == a || e == b;
      }
      if x in OptSet(FixedIndex(fs, p, a)) { assert a in {a, b}; }
      if x in OptSet(FixedIndex(fs, p, b)) { assert b in {a, b}; }
    }
  }

  // ---------------------------------------------------------------------
  // Inputs that show where the decision as written departs from the
  // intended one, and what the corrected decision does with them.

  /** '.' is a wildcard: with "axb" and "a.b" present, "a.b" has two matches
      and neither carries an index, so max() fails. */
  lemma WildcardEmptyMax()
    ensures Place(CaseSensitive, {"axb", "a.b"}, "a.b") == Fail(EmptyMax)
  {
    var ms := Matches({"axb", "a.b"}, "a.b");
    DotIsWildcard();
    assert "axb" in ms && "a.b" in ms;
    OneElement(ms, "axb", "a.b");
    assert FolderIndex("axb") == None;
    assert FolderIndex("a.b") == None;
    assert ms <= {"axb", "a.b"};
    assert Indexes(ms) == {};
  }

  lemma WildcardFixed()
    ensures PlaceFixed(CaseSensitive, {"axb", "a.b"}, "a.b") == Create("a.b_1")
  {
    var entries := {"axb", "a.b"};
    assert FixedIndex(CaseSensitive, "a.b", "axb") == None;
    assert FixedIndex(CaseSensitive, "a.b", "a.b") == Some(0);
    FixedIndexesOfTwo(CaseSensitive, "axb", "a.b", "a.b");
    assert FixedIndexes(CaseSensitive, entries, "a.b") == {0};
    MemberExists(CaseSensitive, entries, "a.b");
    PlaceFixedNext(CaseSensitive, entries, "a.b", 1);
    assert Numbered("a.b", 1) == "a.b_1";
  }

  lemma IndexesOfTwo(a: string, b: string)
    ensures Indexes({a, b}) == OptSet(FolderIndex(a)) + OptSet(FolderIndex(b))
  {
    forall x ensures x in Indexes({a, b}) <==> x in OptSet(FolderIndex(a)) + OptSet(FolderIndex(b)) {
      if x in Indexes({a, b}) {
        var e :| e in {a, b} && FolderIndex(e).Some? && FolderIndex(e).value == x;
        assert e == a || e == b;
      }
      if x in OptSet(FolderIndex(a)) { assert a in {a, b}; }
      if x in OptSet(FolderIndex(b)) { assert b in {a, b}; }
    }
  }

  lemma FreshName(entries: set<string>, name: string)
    requires name !in entries && !RootName(name)
    ensures MakeDirs(CaseSensitive, entries, name) == Create(name)
  {
  }

  lemma MaxOfPair(a: nat, b: nat)
    requires b <= a
    ensures SetMax({a, b}) == a
  {
    SetMaxIs({a, b}, a);
  }

  /** p and p_1 both match p, and carry p's own index and 1. */
  lemma TwoMatches(p: string)
    requires Plain(p)
    requires FolderIndex(p).Some?
    ensures Exists(CaseSensitive, {p, Numbered(p, 1)}, p)
    ensures |Matches({p, Numbered(p, 1)}, p)| > 1
    ensures Indexes(Matches({p, Numbered(p, 1)}, p)) == {FolderIndex(p).value, 1}
  {
    var p1 := Numbered(p, 1);
    var entries := {p, p1};
    MemberExists(CaseSensitive, entries, p);
    assert p1 != p by { assert |p1| > |p|; }
    NumberedMatches(p, 1);
    var ms := Matches(entries, p);
    assert p in ms && p1 in ms;
    OneElement(ms, p, p1);
    assert ms == entries;
    FolderIndexOfNumbered(p, 1);
    IndexesOfTwo(p, p1);
  }

  /** With p and p_1 present and p carrying index v >= 1, the next name
      proposed is p_(v + 1). */
  lemma PlaceAfterTwo(p: string)
    requires Plain(p)
    requires FolderIndex(p).Some? && FolderIndex(p).value >= 1
    ensures Place(CaseSensitive, {p, Numbered(p, 1)}, p)
         == MakeDirs(CaseSensitive, {p, Numbered(p, 1)}, Numbered(p, FolderIndex(p).value + 1))
  {
    var v := FolderIndex(p).value;
    var entries := {p, Numbered(p, 1)};
    assert Place(CaseSensitive, entries, p) == ByMax(CaseSensitive, entries, p, {v, 1}) by {
      TwoMatches(p);
    }
    MaxOfPair(v, 1);
  }

  lemma NumberedApart(p: string, k: nat)
    requires k >= 2
    ensures Numbered(p, k) != p && Numbered(p, k) != Numbered(p, 1)
  {
    assert |Numbered(p, k)| > |p|;
    if Numbered(p, k) == Numbered(p, 1) {
      NumberedInjective(p, k, 1);
    }
  }

  /** A base name ending in digits carries them as an index: with p and p_1
      present, the third directory named p (photos2019, say) gets
      p_(d + 1) for the number d it ends in (photos2019_2020), not p_2. */
  lemma DigitEndingSkips(p: string)
    requires Plain(p)
    requires FolderIndex(p).Some? && FolderIndex(p).value >= 2
    ensures Place(CaseSensitive, {p, Numbered(p, 1)}, p) == Create(Numbered(p, FolderIndex(p).value + 1))
    ensures Numbered(p, FolderIndex(p).value + 1) != Numbered(p, 2)
  {
    var v := FolderIndex(p).value;
    PlaceAfterTwo(p);
    NumberedApart(p, v + 1);
    NumberedNotRoot(p, v + 1);
    FreshName({p, Numbered(p, 1)}, Numbered(p, v + 1));
  }

  /** The corrected decision gives the third directory named p the name
      p_2, whatever p ends in. */
  lemma DigitEndingFixed(p: string)
    ensures PlaceFixed(CaseSensitive, {p, Numbered(p, 1)}, p) == Create(Numbered(p, 2))
  {
    var p1 := Numbered(p, 1);
    var entries := {p, p1};
    FixedIndexOfNumbered(CaseSensitive, p, 0);
    FixedIndexOfNumbered(CaseSensitive, p, 1);
    FixedIndexesOfTwo(CaseSensitive, p, p1, p);
    assert FixedIndexes(CaseSensitive, entries, p) == {0, 1};
    MemberExists(CaseSensitive, entries, p);
    PlaceFixedNext(CaseSensitive, entries, p, 2);
  }

  /** On a case-insensitive filesystem "Holiday" exists once "holiday" does,
      but no exact match is found: neither branch runs. */
  lemma CaseOnlyCollision()
    ensures Place(CaseInsensitive, {"holiday"}, "Holiday") == Unresolved
  {
    assert Lower("holiday") == Lower("Holiday");
    assert Exists(CaseInsensitive, {"holiday"}, "Holiday");
    assert !NamePattern("Holiday", "holiday") by {
      assert !CharMatches("Holiday"[0], "holiday"[0]);
    }
    assert Matches({"holiday"}, "Holiday") == {};
  }

  lemma CaseOnlyCollisionFixed()
    ensures PlaceFixed(CaseInsensitive, {"holiday"}, "Holiday") == Create("Holiday_1")
  {
    var entries := {"holiday"};
    assert Lower("holiday") == Lower("Holiday");
    assert FixedIndex(CaseInsensitive, "Holiday", "holiday") == Some(0);
    FixedIndexesOfTwo(CaseInsensitive, "holiday", "holiday", "Holiday");
    assert FixedIndexes(CaseInsensitive, entries, "Holiday") == {0};
    assert Exists(CaseInsensitive, entries, "Holiday");
    PlaceFixedNext(CaseInsensitive, entries, "Holiday", 1);
    assert Numbered("Holiday", 1) == "Holiday_1";
  }
}
