/** How copy_media_files numbers the folders of source directories that
    share a base name p: the first stretch of files of base name p gets p,
    the next p_1, then p_2, ... in the order the stretches are met, while
    directories of other base names come and go in between.  The corrected
    decision does so on every filesystem, from a root holding nothing of
    the name; the decision as written does so on a case-sensitive
    filesystem, for a base name that does not end in a digit. */
module Numbering {
  import opened Text
  import opened PosixPath
  import opened Patterns
  import opened Placement
  import opened Copier
  import opened RunProps

  /** What the loop of lines 77-181 looks at in a file: its directory
      (line 79) and that directory's base name (line 82). */
  datatype Key = Key(dir: string, name: string)

  function KeyOf(path: string): Key
  {
    Key(Dirname(path), ParentName(path))
  }

  function Keys(paths: seq<string>): (r: seq<Key>)
    ensures |r| == |paths|
  {
    seq(|paths|, i requires 0 <= i < |paths| => KeyOf(paths[i]))
  }

  lemma KeysSnoc(paths: seq<string>, x: string)
    ensures Keys(paths + [x]) == Keys(paths) + [KeyOf(x)]
  {
    assert forall i :: 0 <= i < |paths| ==> (paths + [x])[i] == paths[i];
  }

  /** File i starts a stretch: it is the first file, or its directory is
      not that of the file before (the test of line 79; the base name is
      that of the directory, so comparing keys is comparing directories). */
  predicate Starts(ks: seq<Key>, i: nat)
    requires i < |ks|
  {
    i == 0 || ks[i] != ks[i - 1]
  }

  /** The number of stretches of files of base name p. */
  function Stretches(ks: seq<Key>, p: string): (r: nat)
    ensures r <= |ks|
    ensures ks != [] && ks[|ks| - 1].name == p ==> r >= 1
  {
    if ks == [] then 0
    else
      var n := |ks| - 1;
      assert n > 0 ==> ks[..n][n - 1] == ks[n - 1];
      Stretches(ks[..n], p) + (if Starts(ks, n) && ks[n].name == p then 1 else 0)
  }

  /** Each further file either continues the stretch of the file before or
      starts a new one, which counts when it has base name p. */
  lemma StretchesSnoc(ks: seq<Key>, k: Key, p: string)
    ensures (ks + [k])[..|ks|] == ks
    ensures Stretches(ks + [k], p)
         == Stretches(ks, p) + (if (ks == [] || k != ks[|ks| - 1]) && k.name == p then 1 else 0)
  {
    assert (ks + [k])[..|ks|] == ks;
  }

  /** What a decision must do for the numbering: whenever the root is
      counted at c for base name p, it creates p_c, and the root is then
      counted at c + 1 once the manifest is written. */
  ghost predicate CountsUp(decide: Decider, fs: Fs, p: string, Q: (set<string>, nat) -> bool)
  {
    forall e: set<string>, c: nat {:trigger Q(e, c), decide(e, p)} ::
      Q(e, c) ==>
        decide(e, p) == Create(Numbered(p, c)) &&
        Q(WriteEntry(fs, e + {decide(e, p).name}, Manifest), c + 1)
  }

  /** The other base names: the decision creates a folder for them, and
      that folder does not change the count for p. */
  ghost predicate OthersKeep(decide: Decider, p: string, Q: (set<string>, nat) -> bool, others: set<string>)
  {
    forall e: set<string>, c: nat, q {:trigger Q(e, c), decide(e, q)} ::
      q in others && Q(e, c) ==> decide(e, q).Create? && Q(e + {decide(e, q).name}, c)
  }

  /** Writing the manifest does not change the count. */
  ghost predicate ManifestKeeps(fs: Fs, Q: (set<string>, nat) -> bool)
  {
    forall e: set<string>, c: nat {:trigger Q(WriteEntry(fs, e, Manifest), c)} ::
      Q(e, c) ==> Q(WriteEntry(fs, e, Manifest), c)
  }

  /** Where a counted run stands after the files ks: the root is counted
      at the number of stretches of base name p, last_dir belongs to the
      last file, and last_dst is set, to the folder of the last stretch
      when that has base name p. */
  ghost predicate AtCount(st: State, p: string, Q: (set<string>, nat) -> bool, ks: seq<Key>)
  {
    Q(st.entries, Stretches(ks, p)) &&
    (ks == [] ==> st.lastDir.None?) &&
    (ks != [] ==>
       st.lastDir == Some(ks[|ks| - 1].dir) && ks[|ks| - 1].name == Basename(ks[|ks| - 1].dir) &&
       st.lastDst.Some? &&
       (ks[|ks| - 1].name == p ==> st.lastDst == Some(Numbered(p, Stretches(ks, p) - 1))))
  }

  /** Every file of base name p was copied to the folder of its stretch:
      p for the first stretch of base name p, p_1 for the second, ... */
  predicate Numbers(cs: seq<Copy>, p: string, ks: seq<Key>)
  {
    |cs| == |ks| &&
    forall i :: 0 <= i < |ks| && ks[i].name == p ==>
      cs[i].folder == Numbered(p, Stretches(ks[..i + 1], p) - 1)
  }

  lemma NumbersSnoc(cs: seq<Copy>, p: string, ks: seq<Key>, c: Copy, k: Key)
    requires Numbers(cs, p, ks)
    requires k.name == p ==> c.folder == Numbered(p, Stretches(ks + [k], p) - 1)
    ensures Numbers(cs + [c], p, ks + [k])
  {
    forall i | 0 <= i < |ks| + 1 && (ks + [k])[i].name == p
      ensures (cs + [c])[i].folder == Numbered(p, Stretches((ks + [k])[..i + 1], p) - 1)
    {
      if i < |ks| {
        assert (ks + [k])[..i + 1] == ks[..i + 1];
      } else {
        assert (ks + [k])[..i + 1] == ks + [k];
      }
    }
  }

  /** One iteration of a counted run: a file of the directory before goes
      to the folder of its stretch, the first file of a new directory of
      base name p to a newly created p_c, and that of another base name to
      a new folder that leaves the count alone. */
  lemma StepCounted(decide: Decider, fs: Fs, st: State, path: string, p: string,
                    Q: (set<string>, nat) -> bool, others: set<string>, ks: seq<Key>)
    requires CountsUp(decide, fs, p, Q) && ManifestKeeps(fs, Q) && OthersKeep(decide, p, Q, others)
    requires ParentName(path) == p || ParentName(path) in others
    requires AtCount(st, p, Q, ks) && Numbers(st.copies, p, ks)
    ensures var o := Step(decide, fs, st, path);
            o.error.None? && AtCount(o.state, p, Q, ks + [KeyOf(path)]) &&
            Numbers(o.state.copies, p, ks + [KeyOf(path)])
  {
    var c := Stretches(ks, p);
    var d := Dirname(path);
    var q := ParentName(path);
    var o := Step(decide, fs, st, path);
    StretchesSnoc(ks, KeyOf(path), p);
    if st.lastDir == Some(d) {
      assert ks[|ks| - 1].name == q;
      assert o.state.entries == WriteEntry(fs, st.entries, Manifest);
    } else if q == p {
      assert decide(st.entries, p) == Create(Numbered(p, c));
    } else {
      var n := decide(st.entries, q).name;
      assert Q(st.entries + {n}, c);
      assert o.state.entries == WriteEntry(fs, st.entries + {n}, Manifest);
    }
    assert o.state.copies == st.copies + [o.state.copies[|st.copies|]];
    NumbersSnoc(st.copies, p, ks, o.state.copies[|st.copies|], KeyOf(path));
  }

  /** A run over paths of base name p and of other base names that keep the
      count, with a decision that counts up, numbers the stretches of base
      name p 0, 1, 2, ... and does not raise. */
  lemma {:induction false} RunNumbered(decide: Decider, fs: Fs, entries: set<string>, paths: seq<string>,
                                       p: string, Q: (set<string>, nat) -> bool, others: set<string>)
    requires forall i :: 0 <= i < |paths| ==> Keys(paths)[i].name == p || Keys(paths)[i].name in others
    requires Q(entries, 0) && CountsUp(decide, fs, p, Q) && ManifestKeeps(fs, Q) && OthersKeep(decide, p, Q, others)
    ensures var o := Run(decide, fs, Start(entries), paths);
            o.error.None? && AtCount(o.state, p, Q, Keys(paths)) && Numbers(o.state.copies, p, Keys(paths))
  {
    if paths != [] {
      var n := |paths| - 1;
      var init := paths[..n];
      var path := paths[n];
      assert init + [path] == paths;
      KeysSnoc(init, path);
      assert forall i :: 0 <= i < n ==> Keys(init)[i] == Keys(paths)[i];
      assert Keys(paths)[n] == KeyOf(path);
      RunNumbered(decide, fs, entries, init, p, Q, others);
      var o := Run(decide, fs, Start(entries), init);
      StepCounted(decide, fs, o.state, path, p, Q, others, Keys(init));
      RunLast(decide, fs, Start(entries), paths);
    }
  }

  // ---------------------------------------------------------------------
  // The decision as written, on a case-sensitive filesystem.

  /** No folder of base name q (q, q_1, q_2, ...) matches p's pattern. */
  ghost predicate Apart(p: string, q: string)
  {
    forall k: nat :: !NamePattern(p, Numbered(q, k))
  }

  /** Adding a name the pattern does not accept leaves the matches alone. */
  lemma MatchesAddOther(s: set<string>, t: set<string>, p: string, x: string)
    requires s <= t <= s + {x} && x != p && !NamePattern(p, x)
    ensures Matches(t, p) == Matches(s, p)
  {
  }

  lemma MatchesAddNumbered(e: set<string>, p: string, c: nat)
    requires Plain(p)
    requires Matches(e, p) == NamesBelow(p, c)
    ensures Matches(e + {Numbered(p, c)}, p) == NamesBelow(p, c + 1)
  {
    NumberedMatches(p, c);
    assert NamesBelow(p, c + 1) == NamesBelow(p, c) + {Numbered(p, c)};
  }

  /** With exactly p, p_1, ..., p_(c-1) matching, the decision creates p_c,
      and after it and the manifest exactly p, ..., p_c match. */
  lemma AsWrittenCounts(e: set<string>, p: string, c: nat)
    requires Plain(p)
    requires !RootName(p) && !EndsWithDigit(p) && !NamePattern(p, Manifest)
    requires Matches(e, p) == NamesBelow(p, c)
    ensures Place(CaseSensitive, e, p) == Create(Numbered(p, c))
    ensures Matches(WriteEntry(CaseSensitive, e + {Numbered(p, c)}, Manifest), p) == NamesBelow(p, c + 1)
    ensures Matches(WriteEntry(CaseSensitive, e, Manifest), p) == NamesBelow(p, c)
  {
    NumberedMatches(p, 0);
    if c == 0 {
      assert p !in Matches(e, p);
      PlaceFirst(CaseSensitive, e, p);
    } else {
      PlaceNext(e, p, c);
    }
    MatchesAddNumbered(e, p, c);
    var e' := e + {Numbered(p, c)};
    MatchesAddOther(e', WriteEntry(CaseSensitive, e', Manifest), p, Manifest);
    MatchesAddOther(e, WriteEntry(CaseSensitive, e, Manifest), p, Manifest);
  }

  /** A directory of another base name q, literal and not a root name, gets
      a new folder, which does not match p. */
  lemma AsWrittenOther(e: set<string>, p: string, q: string)
    requires Plain(p)
    requires Literal(q) && !RootName(q) && Apart(p, q)
    ensures Place(CaseSensitive, e, q).Create?
    ensures Matches(e + {Place(CaseSensitive, e, q).name}, p) == Matches(e, p)
  {
    PlaceResolvesCaseSensitive(e, q);
    PlaceNeverCollides(e, q);
    PlaceNoEmptyMax(CaseSensitive, e, q);
    PlaceNamesNumbered(CaseSensitive, e, q);
    var n := Place(CaseSensitive, e, q).name;
    var k: nat :| n == Numbered(q, k);
    assert !NamePattern(p, n);
    NumberedMatches(p, 0);
    MatchesAddOther(e, e + {n}, p, n);
  }

  /** The count the decision as written keeps: exactly p, p_1, ...,
      p_(c-1) match p's pattern. */
  function MatchCount(p: string): (set<string>, nat) -> bool
  {
    (e: set<string>, c: nat) => Matches(e, p) == NamesBelow(p, c)
  }

  lemma AsWrittenCountsUp(p: string)
    requires Plain(p)
    requires !RootName(p) && !EndsWithDigit(p) && !NamePattern(p, Manifest)
    ensures CountsUp(Decision(AsWritten, CaseSensitive), CaseSensitive, p, MatchCount(p))
    ensures ManifestKeeps(CaseSensitive, MatchCount(p))
  {
    var fs, d, Q := CaseSensitive, Decision(AsWritten, CaseSensitive), MatchCount(p);
    forall e: set<string>, c: nat {:trigger Q(e, c), d(e, p)} | Q(e, c)
      ensures d(e, p) == Create(Numbered(p, c))
      ensures Q(WriteEntry(fs, e + {d(e, p).name}, Manifest), c + 1)
    {
      DecisionApply(AsWritten, fs, e, p);
      AsWrittenCounts(e, p, c);
    }
    forall e: set<string>, c: nat {:trigger Q(WriteEntry(fs, e, Manifest), c)} | Q(e, c)
      ensures Q(WriteEntry(fs, e, Manifest), c)
    {
      AsWrittenCounts(e, p, c);
    }
  }

  lemma AsWrittenOthersKeep(p: string, others: set<string>)
    requires Plain(p)
    requires forall q :: q in others ==> Literal(q) && !RootName(q) && Apart(p, q)
    ensures OthersKeep(Decision(AsWritten, CaseSensitive), p, MatchCount(p), others)
  {
    var fs, d, Q := CaseSensitive, Decision(AsWritten, CaseSensitive), MatchCount(p);
    forall e: set<string>, c: nat, q {:trigger Q(e, c), d(e, q)} | q in others && Q(e, c)
      ensures d(e, q).Create? && Q(e + {d(e, q).name}, c)
    {
      DecisionApply(AsWritten, fs, e, q);
      AsWrittenOther(e, p, q);
    }
  }

  /** The base names of the paths other than p. */
  ghost function OtherNames(paths: seq<string>, p: string): (r: set<string>)
    ensures forall i :: 0 <= i < |paths| ==> Keys(paths)[i].name == p || Keys(paths)[i].name in r
    ensures forall q :: q in r ==> q != p && exists i :: 0 <= i < |paths| && ParentName(paths[i]) == q
  {
    var r := ParentNames(paths) - {p};
    ParentNamesAre(paths);
    r
  }

  /** On a case-sensitive filesystem, when nothing in the root matches p, p
      is not a root name and does not end in a digit, and the manifest's
      name does not match, the directories of base name p get p, p_1, p_2,
      ... in order, among directories of other base names that are literal,
      not root names, and whose folders never match p. */
  lemma NumberedAsWritten(entries: set<string>, paths: seq<string>, p: string)
    requires Plain(p)
    requires !RootName(p) && !EndsWithDigit(p) && !NamePattern(p, Manifest) && Matches(entries, p) == {}
    requires forall i :: 0 <= i < |paths| && ParentName(paths[i]) != p ==>
               Literal(ParentName(paths[i])) && !RootName(ParentName(paths[i])) && Apart(p, ParentName(paths[i]))
    ensures var o := Run(Decision(AsWritten, CaseSensitive), CaseSensitive, Start(entries), paths);
            o.error.None? && Numbers(o.state.copies, p, Keys(paths))
  {
    var others := OtherNames(paths, p);
    assert NamesBelow(p, 0) == {};
    AsWrittenCountsUp(p);
    AsWrittenOthersKeep(p, others);
    RunNumbered(Decision(AsWritten, CaseSensitive), CaseSensitive, entries, paths, p, MatchCount(p), others);
  }

  // ---------------------------------------------------------------------
  // The corrected decision, on either filesystem.

  /** No folder of base name q carries an index for p. */
  ghost predicate ApartFixed(fs: Fs, p: string, q: string)
  {
    forall k: nat :: FixedIndex(fs, p, Numbered(q, k)).None?
  }

  /** The root holds folders of base name p with indexes exactly 0 .. c-1. */
  ghost predicate CountedFixed(fs: Fs, e: set<string>, p: string, c: nat)
  {
    (forall k: nat :: k in FixedIndexes(fs, e, p) <==> k < c) &&
    (c == 0 <==> !Exists(fs, e, p))
  }

  /** An entry that carries no index for p changes nothing. */
  lemma CountedAddOther(fs: Fs, s: set<string>, t: set<string>, p: string, x: string, c: nat)
    requires s <= t <= s + {x} && FixedIndex(fs, p, x).None?
    requires CountedFixed(fs, s, p, c)
    ensures CountedFixed(fs, t, p, c)
  {
    assert FixedIndexes(fs, t, p) == FixedIndexes(fs, s, p);
    if Exists(fs, t, p) && !RootName(p) {
      var y :| y in t && SameName(fs, y, p);
      assert y != x;
      assert y in s;
    }
  }

  lemma CountedAddNumbered(fs: Fs, e: set<string>, p: string, c: nat)
    requires CountedFixed(fs, e, p, c)
    ensures CountedFixed(fs, e + {Numbered(p, c)}, p, c + 1)
  {
    PlaceFixedNext(fs, e, p, c);
    if c == 0 {
      MemberExists(fs, e + {p}, p);
    } else if !RootName(p) {
      var y :| y in e && SameName(fs, y, p);
      assert y in e + {Numbered(p, c)};
    }
  }

  /** With indexes exactly 0 .. c-1 in the root, the corrected decision
      creates p_c, and after it and the manifest the indexes are 0 .. c. */
  lemma FixedCounts(fs: Fs, e: set<string>, p: string, c: nat)
    requires FixedIndex(fs, p, Manifest).None? && CountedFixed(fs, e, p, c)
    ensures PlaceFixed(fs, e, p) == Create(Numbered(p, c))
    ensures CountedFixed(fs, WriteEntry(fs, e + {Numbered(p, c)}, Manifest), p, c + 1)
    ensures CountedFixed(fs, WriteEntry(fs, e, Manifest), p, c)
  {
    PlaceFixedNext(fs, e, p, c);
    CountedAddNumbered(fs, e, p, c);
    var e' := e + {Numbered(p, c)};
    CountedAddOther(fs, e', WriteEntry(fs, e', Manifest), p, Manifest, c + 1);
    CountedAddOther(fs, e, WriteEntry(fs, e, Manifest), p, Manifest, c);
  }

  /** A directory of another base name q gets a new folder, which leaves
      the count for p alone. */
  lemma FixedOther(fs: Fs, e: set<string>, p: string, q: string, c: nat)
    requires ApartFixed(fs, p, q) && CountedFixed(fs, e, p, c)
    ensures PlaceFixed(fs, e, q).Create?
    ensures CountedFixed(fs, e + {PlaceFixed(fs, e, q).name}, p, c)
  {
    PlaceFixedNamesNumbered(fs, e, q);
    var k: nat :| PlaceFixed(fs, e, q) == Create(Numbered(q, k));
    var n := Numbered(q, k);
    assert FixedIndex(fs, p, n).None?;
    CountedAddOther(fs, e, e + {n}, p, n, c);
  }

  /** A root with no folder of base name p is counted at zero. */
  lemma CountedStart(fs: Fs, e: set<string>, p: string)
    requires !RootName(p) && FixedIndexes(fs, e, p) == {}
    ensures CountedFixed(fs, e, p, 0)
  {
    if Exists(fs, e, p) {
      var y :| y in e && SameName(fs, y, p);
      assert FixedIndex(fs, p, y) == Some(0);
      assert 0 in FixedIndexes(fs, e, p);
    }
  }

  ghost function FixedCount(fs: Fs, p: string): (set<string>, nat) -> bool
  {
    (e: set<string>, c: nat) => CountedFixed(fs, e, p, c)
  }

  lemma FixedCountsUp(fs: Fs, p: string)
    requires FixedIndex(fs, p, Manifest).None?
    ensures CountsUp(Decision(Corrected, fs), fs, p, FixedCount(fs, p))
    ensures ManifestKeeps(fs, FixedCount(fs, p))
  {
    var d, Q := Decision(Corrected, fs), FixedCount(fs, p);
    forall e: set<string>, c: nat {:trigger Q(e, c), d(e, p)} | Q(e, c)
      ensures d(e, p) == Create(Numbered(p, c))
      ensures Q(WriteEntry(fs, e + {d(e, p).name}, Manifest), c + 1)
    {
      DecisionApply(Corrected, fs, e, p);
      FixedCounts(fs, e, p, c);
    }
    forall e: set<string>, c: nat {:trigger Q(WriteEntry(fs, e, Manifest), c)} | Q(e, c)
      ensures Q(WriteEntry(fs, e, Manifest), c)
    {
      FixedCounts(fs, e, p, c);
    }
  }

  lemma FixedOthersKeep(fs: Fs, p: string, others: set<string>)
    requires forall q :: q in others ==> ApartFixed(fs, p, q)
    ensures OthersKeep(Decision(Corrected, fs), p, FixedCount(fs, p), others)
  {
    var d, Q := Decision(Corrected, fs), FixedCount(fs, p);
    forall e: set<string>, c: nat, q {:trigger Q(e, c), d(e, q)} | q in others && Q(e, c)
      ensures d(e, q).Create? && Q(e + {d(e, q).name}, c)
    {
      DecisionApply(Corrected, fs, e, q);
      FixedOther(fs, e, p, q, c);
    }
  }

  /** With the corrected decision, on either filesystem, when p is not a
      root name and nothing in the root or the manifest's name carries an
      index for p, the directories of base name p get p, p_1, p_2, ... in
      order, among directories of any other base name whose folders carry
      no index for p. */
  lemma NumberedFixed(fs: Fs, entries: set<string>, paths: seq<string>, p: string)
    requires !RootName(p) && FixedIndexes(fs, entries, p) == {} && FixedIndex(fs, p, Manifest).None?
    requires forall i :: 0 <= i < |paths| && ParentName(paths[i]) != p ==> ApartFixed(fs, p, ParentName(paths[i]))
    ensures var o := Run(Decision(Corrected, fs), fs, Start(entries), paths);
            o.error.None? && Numbers(o.state.copies, p, Keys(paths))
  {
    var others := OtherNames(paths, p);
    CountedStart(fs, entries, p);
    FixedCountsUp(fs, p);
    FixedOthersKeep(fs, p, others);
    RunNumbered(Decision(Corrected, fs), fs, entries, paths, p, FixedCount(fs, p), others);
  }
}
