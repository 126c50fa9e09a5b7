/** What a whole run of copy_media_files does with the list of paths: every
    file is copied once, in order; the files of one stretch of a source
    directory (consecutive paths with the same dirname) share a folder and
    no other file shares it, not even under another letter case; nothing
    fails.  Each holds for the corrected decision on every filesystem, and
    for the decision as written on a case-sensitive one when no directory
    has a root name as its base name (and, for the absence of failures,
    every base name is Literal: no regular-expression metacharacter, '.'
    or line feed).  On a case-insensitive filesystem, and for a
    directory with a root name as base name, the decision as written
    sends files to the wrong folder. */
module RunProps {
  import opened Text
  import opened PosixPath
  import opened Patterns
  import opened Placement
  import opened Copier

  /** A filesystem and variant for which a new directory always gets a
      folder of its own. */
  predicate Sound(v: Variant, fs: Fs)
  {
    v == Corrected || fs == CaseSensitive
  }

  /** A decision that, for the base names given, always resolves and only
      ever creates a folder that does not exist yet under the filesystem's
      comparison of names. */
  ghost predicate Fresh(decide: Decider, fs: Fs, names: set<string>)
  {
    forall e: set<string>, p: string :: p in names ==>
      !decide(e, p).Unresolved? && (decide(e, p).Create? ==> !Exists(fs, e, decide(e, p).name))
  }

  /** The elements of a sequence of names. */
  ghost function Elems(ns: seq<string>): set<string>
  {
    if ns == [] then {} else Elems(ns[..|ns| - 1]) + {ns[|ns| - 1]}
  }

  /** A name is an element exactly when it occurs at some index. */
  lemma {:induction false} ElemsAre(ns: seq<string>)
    ensures forall i :: 0 <= i < |ns| ==> ns[i] in Elems(ns)
    ensures forall q :: q in Elems(ns) ==> exists i :: 0 <= i < |ns| && ns[i] == q
  {
    if ns != [] {
      var n := |ns| - 1;
      ElemsAre(ns[..n]);
      assert forall i :: 0 <= i < n ==> ns[..n][i] == ns[i];
    }
  }

  /** The base name of each path's directory. */
  function NamesOf(paths: seq<string>): (r: seq<string>)
    ensures |r| == |paths|
  {
    seq(|paths|, i requires 0 <= i < |paths| => ParentName(paths[i]))
  }

  /** The base names of the paths' directories. */
  ghost function ParentNames(paths: seq<string>): set<string>
  {
    Elems(NamesOf(paths))
  }

  /** A name is among the base names exactly when some path has it. */
  lemma ParentNamesAre(paths: seq<string>)
    ensures forall i :: 0 <= i < |paths| ==> ParentName(paths[i]) in ParentNames(paths)
    ensures forall q :: q in ParentNames(paths) ==> exists i :: 0 <= i < |paths| && ParentName(paths[i]) == q
  {
    var ns := NamesOf(paths);
    ElemsAre(ns);
    forall i | 0 <= i < |paths|
      ensures ParentName(paths[i]) in ParentNames(paths)
    {
      assert ns[i] == ParentName(paths[i]);
    }
    forall q | q in ParentNames(paths)
      ensures exists i :: 0 <= i < |paths| && ParentName(paths[i]) == q
    {
      var i :| 0 <= i < |ns| && ns[i] == q;
      assert ParentName(paths[i]) == q;
    }
  }

  /** Every path has its base name among the names. */
  ghost predicate NamedIn(paths: seq<string>, names: set<string>)
  {
    ParentNames(paths) <= names
  }

  /** The last path has its base name among the names, and so do the
      others. */
  lemma NamedInLast(paths: seq<string>, names: set<string>)
    requires NamedIn(paths, names) && paths != []
    ensures ParentName(paths[|paths| - 1]) in names
    ensures NamedIn(paths[..|paths| - 1], names)
  {
    var n := |paths| - 1;
    var ns := NamesOf(paths);
    assert NamesOf(paths[..n]) == ns[..n];
    assert ns[n] == ParentName(paths[n]);
  }

  /** The directory of each path, the value compared with last_dir. */
  function Dirs(paths: seq<string>): (r: seq<string>)
    ensures |r| == |paths| && forall i :: 0 <= i < |paths| ==> r[i] == Dirname(paths[i])
  {
    seq(|paths|, i requires 0 <= i < |paths| => Dirname(paths[i]))
  }

  lemma DirsSnoc(paths: seq<string>, path: string)
    ensures Dirs(paths + [path]) == Dirs(paths) + [Dirname(path)]
  {
  }

  lemma DirsLast(paths: seq<string>)
    requires paths != []
    ensures Dirs(paths) == Dirs(paths[..|paths| - 1]) + [Dirname(paths[|paths| - 1])]
  {
    var n := |paths| - 1;
    assert paths == paths[..n] + [paths[n]];
    DirsSnoc(paths[..n], paths[n]);
  }

  /** Directories i..j (i <= j) are all the same. */
  predicate SameRun(dirs: seq<string>, i: nat, j: nat)
    requires i <= j < |dirs|
  {
    forall k :: i <= k <= j ==> dirs[k] == dirs[i]
  }

  /** The folders of the copies group the files exactly by their stretches
      of one directory: one stretch shares one folder, and the filesystem
      takes the folders of different stretches for different folders. */
  predicate Grouped(fs: Fs, dirs: seq<string>, cs: seq<Copy>)
  {
    |cs| == |dirs| &&
    forall i, j :: 0 <= i <= j < |dirs| ==>
      (SameRun(dirs, i, j) ==> cs[i].folder == cs[j].folder) &&
      (!SameRun(dirs, i, j) ==> !SameName(fs, cs[i].folder, cs[j].folder))
  }

  /** The last iteration of a run. */
  lemma RunLast(decide: Decider, fs: Fs, st: State, paths: seq<string>)
    requires paths != []
    ensures Run(decide, fs, st, paths)
         == (var o := Run(decide, fs, st, paths[..|paths| - 1]);
             if o.error.Some? then o else Step(decide, fs, o.state, paths[|paths| - 1]))
  {
  }

  /** One iteration either raises and changes nothing, or copies the file
      once, remembers its directory and keeps every entry. */
  lemma StepShape(decide: Decider, fs: Fs, st: State, path: string)
    ensures var o := Step(decide, fs, st, path);
            (o.error.Some? ==> o.state == st) &&
            (o.error.None? ==>
               |o.state.copies| == |st.copies| + 1 && o.state.copies[..|st.copies|] == st.copies &&
               o.state.copies[|st.copies|].source == path &&
               o.state.lastDir == Some(Dirname(path)) && st.entries <= o.state.entries)
  {
  }

  /** What a run has done when it stops with outcome o: every file is
      copied once and in order until an exception stops the loop, the root
      loses no entry, and last_dir belongs to the last file. */
  ghost predicate Shaped(paths: seq<string>, entries: set<string>, o: Outcome)
  {
    |o.state.copies| <= |paths| &&
    (o.error.None? <==> |o.state.copies| == |paths|) &&
    (forall i :: 0 <= i < |o.state.copies| ==> o.state.copies[i].source == paths[i]) &&
    entries <= o.state.entries &&
    (paths == [] ==> o.state.lastDir.None?) &&
    (o.error.None? && paths != [] ==> o.state.lastDir == Some(Dirname(paths[|paths| - 1])))
  }

  lemma ShapedStep(decide: Decider, fs: Fs, entries: set<string>, init: seq<string>, path: string, o: Outcome)
    requires Shaped(init, entries, o) && o.error.None?
    ensures Shaped(init + [path], entries, Step(decide, fs, o.state, path))
  {
    StepShape(decide, fs, o.state, path);
    var ps := init + [path];
    var o' := Step(decide, fs, o.state, path);
    var cs := o'.state.copies;
    forall i | 0 <= i < |cs| ensures cs[i].source == ps[i] {
      if i < |init| {
        assert cs[i] == o.state.copies[i];
      }
    }
  }

  lemma ShapedStopped(entries: set<string>, init: seq<string>, path: string, o: Outcome)
    requires Shaped(init, entries, o) && o.error.Some?
    ensures Shaped(init + [path], entries, o)
  {
    var ps := init + [path];
    assert forall i :: 0 <= i < |init| ==> ps[i] == init[i];
  }

  lemma {:induction false} RunShape(decide: Decider, fs: Fs, entries: set<string>, paths: seq<string>)
    ensures Shaped(paths, entries, Run(decide, fs, Start(entries), paths))
  {
    if paths != [] {
      var n := |paths| - 1;
      var init := paths[..n];
      var path := paths[n];
      RunShape(decide, fs, entries, init);
      var o := Run(decide, fs, Start(entries), init);
      assert Run(decide, fs, Start(entries), paths)
          == (if o.error.Some? then o else Step(decide, fs, o.state, path)) by {
        RunLast(decide, fs, Start(entries), paths);
      }
      assert init + [path] == paths;
      if o.error.None? {
        ShapedStep(decide, fs, entries, init, path, o);
      } else {
        ShapedStopped(entries, init, path, o);
      }
    }
  }

  /** A file of the same directory as the file before is copied into
      last_dst, and no folder is made for it: only the manifest is written
      (lines 79, 163-167, 174). */
  lemma StepSameDirectory(decide: Decider, fs: Fs, st: State, path: string)
    requires st.lastDir == Some(Dirname(path)) && st.lastDst.Some?
    ensures var o := Step(decide, fs, st, path);
            o.error.None? && o.state.copies == st.copies + [Copy(path, st.lastDst.value)] &&
            o.state.lastDst == st.lastDst && o.state.lastDir == st.lastDir &&
            o.state.entries == WriteEntry(fs, st.entries, Manifest)
  {
  }

  /** The first file of a new directory whose base name p does not exist
      yet goes to a new folder p, which becomes last_dst (lines 82-94). */
  lemma StepNewName(fs: Fs, st: State, path: string)
    requires st.lastDir != Some(Dirname(path)) && !Exists(fs, st.entries, ParentName(path))
    ensures var o := Step(Decision(AsWritten, fs), fs, st, path);
            var p := ParentName(path);
            o.error.None? && o.state.copies == st.copies + [Copy(path, p)] &&
            o.state.lastDst == Some(p) && o.state.lastDir == Some(Dirname(path)) &&
            o.state.entries == WriteEntry(fs, st.entries + {p}, Manifest)
  {
    DecisionApply(AsWritten, fs, st.entries, ParentName(path));
  }

  /** The decision for a new directory never reuses a name: it creates a
      folder that does not exist yet, or raises; it leaves the directory
      unresolved only as written, for a root name that nothing matches. */
  lemma DecideFresh(v: Variant, fs: Fs, entries: set<string>, p: string)
    requires Sound(v, fs)
    ensures Decide(v, fs, entries, p).Unresolved? ==> v == AsWritten && RootName(p) && Matches(entries, p) == {}
    ensures Decide(v, fs, entries, p).Create? ==> !Exists(fs, entries, Decide(v, fs, entries, p).name)
    ensures v == Corrected ==> Decide(v, fs, entries, p).Create?
  {
    if v == AsWritten {
      PlaceResolvesCaseSensitive(entries, p);
      if Place(fs, entries, p).Create? {
        PlaceCreatesFresh(fs, entries, p);
      }
    } else {
      PlaceFixedFresh(fs, entries, p);
    }
  }

  lemma SameRunPrefix(dirs: seq<string>, d: string, i: nat, j: nat)
    requires i <= j < |dirs|
    ensures SameRun(dirs + [d], i, j) == SameRun(dirs, i, j)
  {
    var ds := dirs + [d];
    assert forall k :: 0 <= k < |dirs| ==> ds[k] == dirs[k];
  }

  lemma SameRunLast(ds: seq<string>, i: nat, n: nat)
    requires i < n < |ds|
    ensures SameRun(ds, i, n) <==> SameRun(ds, i, n - 1) && ds[n] == ds[n - 1]
  {
  }

  /** A file of the directory of the file before goes where it went. */
  lemma GroupedSame(fs: Fs, dirs: seq<string>, cs: seq<Copy>, d: string, c: Copy)
    requires |dirs| > 0 && Grouped(fs, dirs, cs)
    requires d == dirs[|dirs| - 1] && c.folder == cs[|cs| - 1].folder
    ensures Grouped(fs, dirs + [d], cs + [c])
  {
    var ds := dirs + [d];
    var cs' := cs + [c];
    var n := |dirs|;
    forall i, j | 0 <= i <= j < |ds|
      ensures SameRun(ds, i, j) ==> cs'[i].folder == cs'[j].folder
      ensures !SameRun(ds, i, j) ==> !SameName(fs, cs'[i].folder, cs'[j].folder)
    {
      if j < n {
        SameRunPrefix(dirs, d, i, j);
        assert cs'[i] == cs[i] && cs'[j] == cs[j];
      } else if i < n {
        SameRunLast(ds, i, n);
        SameRunPrefix(dirs, d, i, n - 1);
        assert cs'[i] == cs[i] && cs'[n].folder == cs[n - 1].folder;
      }
    }
  }

  /** A file of a new directory goes to a folder no earlier file went to. */
  lemma GroupedNew(fs: Fs, dirs: seq<string>, cs: seq<Copy>, d: string, c: Copy)
    requires Grouped(fs, dirs, cs)
    requires |dirs| > 0 ==> d != dirs[|dirs| - 1]
    requires forall i :: 0 <= i < |cs| ==> !SameName(fs, cs[i].folder, c.folder)
    ensures Grouped(fs, dirs + [d], cs + [c])
  {
    var ds := dirs + [d];
    var cs' := cs + [c];
    var n := |dirs|;
    forall i, j | 0 <= i <= j < |ds|
      ensures SameRun(ds, i, j) ==> cs'[i].folder == cs'[j].folder
      ensures !SameRun(ds, i, j) ==> !SameName(fs, cs'[i].folder, cs'[j].folder)
    {
      if j < n {
        SameRunPrefix(dirs, d, i, j);
        assert cs'[i] == cs[i] && cs'[j] == cs[j];
      } else if i < n {
        SameRunLast(ds, i, n);
        assert cs'[i] == cs[i] && cs'[n] == c;
      }
    }
  }

  /** The state a run without exception keeps, given the directories of the
      files so far: every folder used is an entry of the root, last_dir and
      last_dst belong to the last file, and the copies are grouped by
      directory. */
  ghost predicate Tracked(fs: Fs, dirs: seq<string>, st: State)
  {
    Grouped(fs, dirs, st.copies) &&
    (forall i :: 0 <= i < |st.copies| ==> st.copies[i].folder in st.entries) &&
    (dirs == [] ==> st.lastDir.None?) &&
    (dirs != [] ==> st.lastDir == Some(dirs[|dirs| - 1]) && st.lastDst == Some(st.copies[|dirs| - 1].folder))
  }

  lemma StepTracked(decide: Decider, fs: Fs, names: set<string>, st: State, dirs: seq<string>, path: string)
    requires Fresh(decide, fs, names) && ParentName(path) in names && Tracked(fs, dirs, st)
    ensures var o := Step(decide, fs, st, path);
            o.error.None? ==> Tracked(fs, dirs + [Dirname(path)], o.state)
  {
    var o := Step(decide, fs, st, path);
    var cur := Dirname(path);
    var n := |dirs|;
    if o.error.None? {
      var cs := o.state.copies;
      assert cs[..n] == st.copies;
      if st.lastDir == Some(cur) {
        GroupedSame(fs, dirs, st.copies, cur, cs[n]);
      } else {
        var pl := decide(st.entries, ParentName(path));
        assert !Exists(fs, st.entries, cs[n].folder);
        assert forall i :: 0 <= i < n ==> st.copies[i].folder in st.entries;
        GroupedNew(fs, dirs, st.copies, cur, cs[n]);
      }
      assert cs == st.copies + [cs[n]];
      assert forall i :: 0 <= i < n ==> cs[i] == st.copies[i];
    }
  }

  /** A tracked step raises only when the decision for a new directory
      does: the last_dst it reuses is always set. */
  lemma StepNeverFails(decide: Decider, fs: Fs, st: State, dirs: seq<string>, path: string)
    requires Tracked(fs, dirs, st)
    requires !decide(st.entries, ParentName(path)).Fail?
    ensures Step(decide, fs, st, path).error.None?
  {
  }

  lemma {:induction false} RunTracked(decide: Decider, fs: Fs, names: set<string>, entries: set<string>,
                                      paths: seq<string>)
    requires Fresh(decide, fs, names) && NamedIn(paths, names)
    ensures var o := Run(decide, fs, Start(entries), paths);
            o.error.None? ==> Tracked(fs, Dirs(paths), o.state)
  {
    if paths != [] {
      var n := |paths| - 1;
      var init := paths[..n];
      var path := paths[n];
      NamedInLast(paths, names);
      RunTracked(decide, fs, names, entries, init);
      var o := Run(decide, fs, Start(entries), init);
      assert Run(decide, fs, Start(entries), paths)
          == (if o.error.Some? then o else Step(decide, fs, o.state, path)) by {
        RunLast(decide, fs, Start(entries), paths);
      }
      if o.error.None? {
        StepTracked(decide, fs, names, o.state, Dirs(init), path);
        assert Dirs(paths) == Dirs(init) + [Dirname(path)] by {
          DirsLast(paths);
        }
      }
    }
  }

  /** A fresh decision that never raises for the base names of the paths
      gives a loop that never raises. */
  lemma {:induction false} RunNeverFails(decide: Decider, fs: Fs, names: set<string>, entries: set<string>,
                                         paths: seq<string>)
    requires Fresh(decide, fs, names) && NamedIn(paths, names)
    requires forall e: set<string>, p :: p in names ==> !decide(e, p).Fail?
    ensures Run(decide, fs, Start(entries), paths).error.None?
  {
    if paths != [] {
      var n := |paths| - 1;
      var init := paths[..n];
      var path := paths[n];
      NamedInLast(paths, names);
      RunNeverFails(decide, fs, names, entries, init);
      RunTracked(decide, fs, names, entries, init);
      var o := Run(decide, fs, Start(entries), init);
      assert Run(decide, fs, Start(entries), paths) == Step(decide, fs, o.state, path);
      StepNeverFails(decide, fs, o.state, Dirs(init), path);
    }
  }

  /** For a fresh decision, when the run does not raise, two files of one
      stretch of paths of the same directory end up in the same folder, and
      two files of different stretches in folders the filesystem tells
      apart. */
  lemma RunGrouped(decide: Decider, fs: Fs, names: set<string>, entries: set<string>, paths: seq<string>,
                   i: nat, j: nat)
    requires Fresh(decide, fs, names) && NamedIn(paths, names) && i <= j < |paths|
    requires Run(decide, fs, Start(entries), paths).error.None?
    ensures var cs := Run(decide, fs, Start(entries), paths).state.copies;
            |cs| == |paths| && cs[i].source == paths[i] && cs[j].source == paths[j] &&
            (SameRun(Dirs(paths), i, j) ==> cs[i].folder == cs[j].folder) &&
            (!SameRun(Dirs(paths), i, j) ==> !SameName(fs, cs[i].folder, cs[j].folder))
  {
    RunTracked(decide, fs, names, entries, paths);
    RunShape(decide, fs, entries, paths);
  }

  // ---------------------------------------------------------------------
  // The decisions of the script.

  /** The corrected decision is fresh, and so is the decision as written
      on a case-sensitive filesystem for names that are not root names. */
  lemma SoundFresh(v: Variant, fs: Fs, names: set<string>)
    requires Sound(v, fs)
    requires v == AsWritten ==> forall p :: p in names ==> !RootName(p)
    ensures Fresh(Decision(v, fs), fs, names)
  {
    forall e: set<string>, p: string | p in names
      ensures !Decision(v, fs)(e, p).Unresolved?
      ensures Decision(v, fs)(e, p).Create? ==> !Exists(fs, e, Decision(v, fs)(e, p).name)
    {
      DecisionApply(v, fs, e, p);
      DecideFresh(v, fs, e, p);
    }
  }

  /** For the corrected decision, and for the decision as written on a
      case-sensitive filesystem when every base name is Literal and none
      is a root name, the loop never raises. */
  lemma NeverFails(v: Variant, fs: Fs, entries: set<string>, paths: seq<string>)
    requires Sound(v, fs)
    requires v == AsWritten ==> forall q :: q in ParentNames(paths) ==> !RootName(q) && Literal(q)
    ensures Run(Decision(v, fs), fs, Start(entries), paths).error.None?
  {
    var names := ParentNames(paths);
    SoundFresh(v, fs, names);
    forall e: set<string>, p | p in names
      ensures !Decision(v, fs)(e, p).Fail?
    {
      DecisionApply(v, fs, e, p);
      DecideFresh(v, fs, e, p);
      if v == AsWritten {
        PlaceNeverCollides(e, p);
        PlaceNoEmptyMax(fs, e, p);
      }
    }
    RunNeverFails(Decision(v, fs), fs, names, entries, paths);
  }

  /** For the corrected decision, and for the decision as written on a
      case-sensitive filesystem when no base name is a root name, a run
      that does not raise groups the files by their stretches of one
      directory. */
  lemma Grouping(v: Variant, fs: Fs, entries: set<string>, paths: seq<string>, i: nat, j: nat)
    requires Sound(v, fs) && i <= j < |paths|
    requires v == AsWritten ==> forall q :: q in ParentNames(paths) ==> !RootName(q)
    requires Run(Decision(v, fs), fs, Start(entries), paths).error.None?
    ensures var cs := Run(Decision(v, fs), fs, Start(entries), paths).state.copies;
            |cs| == |paths| && cs[i].source == paths[i] && cs[j].source == paths[j] &&
            (SameRun(Dirs(paths), i, j) ==> cs[i].folder == cs[j].folder) &&
            (!SameRun(Dirs(paths), i, j) ==> !SameName(fs, cs[i].folder, cs[j].folder))
  {
    var names := ParentNames(paths);
    SoundFresh(v, fs, names);
    RunGrouped(Decision(v, fs), fs, names, entries, paths, i, j);
  }

  // ---------------------------------------------------------------------
  // A new directory left unresolved.

  /** When the decision leaves a new directory unresolved, its first file
      is copied to the proposed name, but last_dst keeps the folder of the
      directory before: the next file of the same directory goes there, or
      raises when there was none. */
  lemma StaleTarget(decide: Decider, fs: Fs, st: State, a: string, b: string)
    requires st.lastDir != Some(Dirname(a)) && Dirname(b) == Dirname(a)
    requires decide(st.entries, ParentName(a)) == Unresolved
    ensures var o1 := Step(decide, fs, st, a);
            o1.error.None? && o1.state.copies == st.copies + [Copy(a, ParentName(a))] &&
            var o2 := Step(decide, fs, o1.state, b);
            (st.lastDst.None? ==> o2.error == Some(NoTarget)) &&
            (st.lastDst.Some? ==> o2.error.None? && o2.state.copies == o1.state.copies + [Copy(b, st.lastDst.value)])
  {
  }

  /** When it creates a folder, both files go there. */
  lemma CreatedTarget(decide: Decider, fs: Fs, st: State, a: string, b: string, n: string)
    requires st.lastDir != Some(Dirname(a)) && Dirname(b) == Dirname(a)
    requires decide(st.entries, ParentName(a)) == Create(n)
    ensures var o1 := Step(decide, fs, st, a);
            o1.error.None? && o1.state.copies == st.copies + [Copy(a, n)] &&
            var o2 := Step(decide, fs, o1.state, b);
            o2.error.None? && o2.state.copies == o1.state.copies + [Copy(b, n)]
  {
  }

  /** On a case-insensitive filesystem whose root holds "holiday", the
      files of a new directory Holiday, as written, go to "Holiday" (which
      is the existing "holiday") and then to the folder of the directory
      before, or raise NoTarget when Holiday is the first directory. */
  lemma CaseOnlyStale(st: State, a: string, b: string)
    requires st.entries == {"holiday"} && ParentName(a) == "Holiday"
    requires st.lastDir != Some(Dirname(a)) && Dirname(b) == Dirname(a)
    ensures var d := Decision(AsWritten, CaseInsensitive);
            var o1 := Step(d, CaseInsensitive, st, a);
            o1.error.None? && o1.state.copies == st.copies + [Copy(a, "Holiday")] &&
            var o2 := Step(d, CaseInsensitive, o1.state, b);
            (st.lastDst.None? ==> o2.error == Some(NoTarget)) &&
            (st.lastDst.Some? ==> o2.error.None? && o2.state.copies == o1.state.copies + [Copy(b, st.lastDst.value)])
  {
    CaseOnlyCollision();
    DecisionApply(AsWritten, CaseInsensitive, st.entries, ParentName(a));
    StaleTarget(Decision(AsWritten, CaseInsensitive), CaseInsensitive, st, a, b);
  }

  /** The corrected decision puts both files into a new folder Holiday_1. */
  lemma CaseOnlyStaleFixed(st: State, a: string, b: string)
    requires st.entries == {"holiday"} && ParentName(a) == "Holiday"
    requires st.lastDir != Some(Dirname(a)) && Dirname(b) == Dirname(a)
    ensures var d := Decision(Corrected, CaseInsensitive);
            var o1 := Step(d, CaseInsensitive, st, a);
            o1.error.None? && o1.state.copies == st.copies + [Copy(a, "Holiday_1")] &&
            var o2 := Step(d, CaseInsensitive, o1.state, b);
            o2.error.None? && o2.state.copies == o1.state.copies + [Copy(b, "Holiday_1")]
  {
    CaseOnlyCollisionFixed();
    DecisionApply(Corrected, CaseInsensitive, st.entries, ParentName(a));
    CreatedTarget(Decision(Corrected, CaseInsensitive), CaseInsensitive, st, a, b, "Holiday_1");
  }

  // ---------------------------------------------------------------------
  // A directory whose base name is a root name.

  /** A file f directly under "/" lies in "/" and has parent name "". */
  lemma RootPath(f: string)
    requires f != [] && NoSlash(f)
    ensures Dirname(Join("/", f)) == "/" && ParentName(Join("/", f)) == "" && Basename(Join("/", f)) == f
  {
    ParentNameOfJoin("/", f);
    SplitJoin("/", f);
    assert RStripSlashes("/"[..0]) == [];
    assert StripHead("/") == "/";
    assert RFindSlash("/") == 0 && "/"[..1] == "/" && "/"[1..] == "";
    assert Split("/") == ("/", "");
  }

  /** The walk of "/" lists /a.jpg and /b.jpg in the directory "/". */
  lemma RootPaths()
    ensures ParentName("/a.jpg") == "" && Dirname("/a.jpg") == "/" && Basename("/a.jpg") == "a.jpg"
    ensures ParentName("/b.jpg") == "" && Dirname("/b.jpg") == "/"
  {
    assert "/a.jpg" == Join("/", "a.jpg") && "/b.jpg" == Join("/", "b.jpg");
    RootPath("a.jpg");
    RootPath("b.jpg");
  }

  /** As written, dst_dir + "" is the root itself, which exists and which
      nothing matches: no folder is made, the first file is copied into the
      root, where it becomes an entry, and last_dst stays unset. */
  lemma RootDirFirst()
    ensures Run(Decision(AsWritten, CaseSensitive), CaseSensitive, Start({}), ["/a.jpg"])
         == Outcome(State({"a.jpg", Manifest}, Some("/"), None, [Copy("/a.jpg", "")]), None)
  {
    var fs := CaseSensitive;
    var d := Decision(AsWritten, fs);
    var a := "/a.jpg";
    RootPaths();
    assert d({}, "") == Unresolved by {
      DecisionApply(AsWritten, fs, {}, "");
      assert Matches({}, "") == {};
    }
    assert Copied(fs, {}, "", a) == {"a.jpg"} by {
      ExistsCaseSensitive({}, "a.jpg");
    }
    assert WriteEntry(fs, {"a.jpg"}, Manifest) == {"a.jpg", Manifest} by {
      ExistsCaseSensitive({"a.jpg"}, Manifest);
    }
    assert [a][..0] == [];
    assert Run(d, fs, Start({}), [a]) == Step(d, fs, Start({}), a);
  }

  /** The second file of "/" is copied to a last_dst that was never set,
      which raises TypeError; the copy of the first stays in the root. */
  lemma RootDirNoTarget()
    ensures var o := Run(Decision(AsWritten, CaseSensitive), CaseSensitive, Start({}), ["/a.jpg", "/b.jpg"]);
            o.error == Some(NoTarget) && o.state.copies == [Copy("/a.jpg", "")] &&
            o.state.entries == {"a.jpg", Manifest}
  {
    var fs := CaseSensitive;
    var d := Decision(AsWritten, fs);
    var a, b := "/a.jpg", "/b.jpg";
    RootPaths();
    RootDirFirst();
    var paths := [a, b];
    assert paths[..1] == [a];
    var o1 := Run(d, fs, Start({}), [a]);
    assert Run(d, fs, Start({}), paths) == Step(d, fs, o1.state, b);
  }

  /** In an empty root, the corrected decision names the folder of ""
      "_1": "" itself, the root, exists, so it counts as index 0. */
  lemma FixedRootName()
    ensures Decision(Corrected, CaseSensitive)({}, "") == Create("_1")
  {
    var fs := CaseSensitive;
    assert FixedIndexes(fs, {}, "") == {};
    SetMaxIs({0}, 0);
    assert Numbered("", 1) == "_1";
    assert !Exists(fs, {}, "_1");
    DecisionApply(Corrected, fs, {}, "");
  }

  /** The corrected decision sends the first file of "/" to a new folder _1,
      which last_dst then holds. */
  lemma RootDirFixedFirst()
    ensures var o := Run(Decision(Corrected, CaseSensitive), CaseSensitive, Start({}), ["/a.jpg"]);
            o.error.None? && o.state.lastDir == Some("/") && o.state.lastDst == Some("_1") &&
            o.state.copies == [Copy("/a.jpg", "_1")]
  {
    var fs := CaseSensitive;
    var d := Decision(Corrected, fs);
    var a := "/a.jpg";
    RootPaths();
    FixedRootName();
    assert [a][..0] == [];
    assert Run(d, fs, Start({}), [a]) == Step(d, fs, Start({}), a);
  }

  /** The corrected decision gives the directory a folder of its own, _1,
      and both files go there. */
  lemma RootDirFixed()
    ensures var o := Run(Decision(Corrected, CaseSensitive), CaseSensitive, Start({}), ["/a.jpg", "/b.jpg"]);
            o.error.None? && o.state.copies == [Copy("/a.jpg", "_1"), Copy("/b.jpg", "_1")]
  {
    var fs := CaseSensitive;
    var d := Decision(Corrected, fs);
    var a, b := "/a.jpg", "/b.jpg";
    RootPaths();
    RootDirFixedFirst();
    var paths := [a, b];
    assert paths[..1] == [a];
    var o1 := Run(d, fs, Start({}), [a]);
    assert Run(d, fs, Start({}), paths) == Step(d, fs, o1.state, b);
  }
}
