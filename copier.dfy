/** copy_media_files (demetrius.py, lines 61-181): the loop that copies each
    listed file into a folder of the destination root named after the
    file's parent directory, creating p, p_1, p_2, ... as directories of the
    same name turn up, and rewrites the manifest filepathlist.txt in the
    destination root after every file.

    The specification is a function of the destination's entry names: Step
    is one iteration of the loop, Run the whole loop.  The class Destination
    holds the state the loop changes (the root's entry names and the copies
    made so far) and its method CopyMediaFiles works through the list with
    the same branches as the script. */
module Copier {
  import opened Text
  import opened PosixPath
  import opened Patterns
  import opened Placement

  /** shutil.copy2(source, dst_dir + folder): one file copied into a folder
      of the destination root. */
  datatype Copy = Copy(source: string, folder: string)

  /** What the loop has done so far: the names in the destination root, the
      last source directory and destination folder (the variables last_dir
      and last_dst) and the copies made, in order. */
  datatype State = State(entries: set<string>, lastDir: Option<string>, lastDst: Option<string>,
                         copies: seq<Copy>)

  /** The state reached and the exception that stopped the loop, if any. */
  datatype Outcome = Outcome(state: State, error: Option<Error>)

  /** The decision of lines 85-154 as written, or the corrected one. */
  datatype Variant = AsWritten | Corrected

  /** A decision for the first file of a new source directory, given the
      names in the root and the directory's base name. */
  type Decider = (set<string>, string) -> Placement

  /** The manifest, written into the destination root on every iteration
      (lines 177-181). */
  const Manifest := "filepathlist.txt"

  /** open(name, "w") in the root: creates the entry unless the filesystem
      already has one of that name. */
  function WriteEntry(fs: Fs, entries: set<string>, name: string): (r: set<string>)
    ensures entries <= r && r <= entries + {name}
    ensures Exists(fs, r, name)
  {
    if Exists(fs, entries, name) then entries
    else
      MemberExists(fs, entries + {name}, name);
      entries + {name}
  }

  /** shutil.copy2(path, dst_dir + folder) as it changes the root: the
      folder names "" and "." stand for the root itself, where the file
      then becomes an entry under its own base name; any other folder
      leaves the root's entries as they are. */
  function Copied(fs: Fs, entries: set<string>, folder: string, path: string): (r: set<string>)
    ensures folder != "" && folder != "." ==> r == entries
    ensures folder == "" || folder == "." ==>
              entries <= r <= entries + {Basename(path)} && Exists(fs, r, Basename(path))
  {
    if folder == "" || folder == "." then WriteEntry(fs, entries, Basename(path)) else entries
  }

  /** The state before the first iteration. */
  function Start(entries: set<string>): State
  {
    State(entries, None, None, [])
  }

  ghost function Decide(v: Variant, fs: Fs, entries: set<string>, p: string): Placement
  {
    match v
    case AsWritten => Place(fs, entries, p)
    case Corrected => PlaceFixed(fs, entries, p)
  }

  /** The decision of a variant, as a value the loop is run with. */
  ghost function Decision(v: Variant, fs: Fs): Decider
  {
    (entries: set<string>, p: string) => Decide(v, fs, entries, p)
  }

  lemma DecisionApply(v: Variant, fs: Fs, entries: set<string>, p: string)
    ensures Decision(v, fs)(entries, p) == Decide(v, fs, entries, p)
  {
  }

  /** The end of every iteration that did not raise: last_dir becomes the
      current directory and the manifest is written. */
  function Finish(fs: Fs, st: State, cur: string): State
  {
    st.(lastDir := Some(cur), entries := WriteEntry(fs, st.entries, Manifest))
  }

  /** One iteration of the loop for the file path, with the decision for a
      new directory given. */
  function Step(decide: Decider, fs: Fs, st: State, path: string): Outcome
  {
    var cur := Dirname(path);
    if st.lastDir == Some(cur) then
      // Same directory as the file before: copy to last_dst.
      if st.lastDst.None? then Outcome(st, Some(NoTarget))
      else Outcome(Finish(fs, st.(copies := st.copies + [Copy(path, st.lastDst.value)]), cur), None)
    else
      var p := ParentName(path);
      match decide(st.entries, p)
      case Create(n) =>
        Outcome(Finish(fs, st.(entries := st.entries + {n}, lastDst := Some(n),
                               copies := st.copies + [Copy(path, n)]), cur), None)
      case Unresolved =>
        // parentfolder_path is left at dst_dir + parent_name, which is the
        // root itself for "" and ".", and last_dst keeps its old value.
        Outcome(Finish(fs, st.(entries := Copied(fs, st.entries, p, path),
                               copies := st.copies + [Copy(path, p)]), cur), None)
      case Fail(e) => Outcome(st, Some(e))
  }

  /** The whole loop over the paths, stopping at the first exception. */
  function Run(decide: Decider, fs: Fs, st: State, paths: seq<string>): Outcome
  {
    if paths == [] then Outcome(st, None)
    else
      var o := Run(decide, fs, st, paths[..|paths| - 1]);
      if o.error.Some? then o else Step(decide, fs, o.state, paths[|paths| - 1])
  }

  lemma RunPrefix(decide: Decider, fs: Fs, st: State, paths: seq<string>, i: nat)
    requires i < |paths|
    ensures paths[..i + 1][..i] == paths[..i]
    ensures Run(decide, fs, st, paths[..i + 1])
         == (var o := Run(decide, fs, st, paths[..i]);
             if o.error.Some? then o else Step(decide, fs, o.state, paths[i]))
  {
    assert paths[..i + 1][..i] == paths[..i];
  }

  /** Once an exception is raised the loop is over: the outcome of the
      whole run is the outcome of the prefix that raised it. */
  lemma {:induction false} RunStops(decide: Decider, fs: Fs, st: State, paths: seq<string>, k: nat)
    requires k <= |paths| && Run(decide, fs, st, paths[..k]).error.Some?
    ensures Run(decide, fs, st, paths) == Run(decide, fs, st, paths[..k])
  {
    if k == |paths| {
      assert paths[..k] == paths;
    } else {
      var init := paths[..|paths| - 1];
      assert init[..k] == paths[..k];
      RunStops(decide, fs, st, init, k);
    }
  }

  /** A step does not look at the copies made before: with more of them in
      front, it makes the same new ones. */
  lemma StepShift(decide: Decider, fs: Fs, st: State, c0: seq<Copy>, path: string)
    ensures Step(decide, fs, st.(copies := c0 + st.copies), path)
         == (var o := Step(decide, fs, st, path); Outcome(o.state.(copies := c0 + o.state.copies), o.error))
  {
    var c := st.copies;
    assert forall x: Copy :: (c0 + c) + [x] == c0 + (c + [x]);
  }

  /** The largest element of a non-empty list: Python's max(). */
  function MaxOf(s: seq<nat>): (m: nat)
    requires |s| > 0
    ensures m in s && forall x :: x in s ==> x <= m
  {
    if |s| == 1 then s[0]
    else
      var m := MaxOf(s[..|s| - 1]);
      assert forall x :: x in s ==> x in s[..|s| - 1] || x == s[|s| - 1];
      if s[|s| - 1] > m then s[|s| - 1] else m
  }

  /** max() of the list of indexes is the largest index of the set. */
  lemma MaxOfIsSetMax(s: seq<nat>, idx: set<nat>)
    requires |s| > 0 && forall x :: x in s <==> x in idx
    ensures idx != {} && MaxOf(s) == SetMax(idx)
  {
    assert s[0] in idx;
    SetMaxIs(idx, MaxOf(s));
  }

  /** Lines 104-109: the folders of the listing that equal p or match
      p + '(_[0-9]+)?$', collected one folder at a time. */
  method CollectMatches(listing: set<string>, p: string) returns (matches: set<string>)
    ensures matches == Matches(listing, p)
  {
    matches := {};
    var rest := listing;
    while rest != {}
      invariant rest <= listing
      invariant matches == Matches(listing - rest, p)
      decreases |rest|
    {
      var folder :| folder in rest;
      if folder == p || NamePattern(p, folder) {
        matches := matches + {folder};
      }
      rest := rest - {folder};
    }
  }

  lemma IndexesAdd(done: set<string>, folder: string)
    ensures Indexes(done + {folder}) == Indexes(done) + OptSet(FolderIndex(folder))
  {
  }

  /** Lines 128-136: the indexes read off the matched folders, skipping the
      folders without one. */
  method CollectIndexes(matches: set<string>) returns (indexes: seq<nat>)
    ensures forall x :: x in indexes <==> x in Indexes(matches)
    ensures |indexes| <= |matches|
  {
    indexes := [];
    var rest := matches;
    ghost var done: set<string> := {};
    while rest != {}
      invariant rest <= matches && done == matches - rest
      invariant forall x :: x in indexes <==> x in Indexes(done)
      invariant |indexes| <= |done|
      decreases |rest|
    {
      var folder :| folder in rest;
      var index := FolderIndex(folder);
      IndexesAdd(done, folder);
      if index.Some? {
        indexes := indexes + [index.value];
      }
      rest := rest - {folder};
      done := done + {folder};
    }
  }

  /** The outcome of lines 101-154 once the proposed name p exists: p_1
      for a single match, p_(max + 1) for several, ValueError when several
      match and none carries an index, and no name when nothing matches. */
  ghost predicate Proposed(listing: set<string>, p: string, name: Option<string>, err: Option<Error>)
  {
    var ms := Matches(listing, p);
    (|ms| == 1 ==> name == Some(Numbered(p, 1)) && err.None?) &&
    (|ms| > 1 && Indexes(ms) == {} ==> err == Some(EmptyMax)) &&
    (|ms| > 1 && Indexes(ms) != {} ==>
       name == Some(Numbered(p, SetMax(Indexes(ms)) + 1)) && err.None?) &&
    (|ms| == 0 ==> name.None? && err.None?)
  }

  /** What Place decides for an existing name, read off the proposal. */
  lemma PlaceFromProposal(fs: Fs, entries: set<string>, p: string, name: Option<string>, err: Option<Error>)
    requires Exists(fs, entries, p) && Proposed(entries, p, name, err)
    ensures err.Some? ==> Place(fs, entries, p) == Fail(err.value)
    ensures err.None? && name.Some? ==> Place(fs, entries, p) == MakeDirs(fs, entries, name.value)
    ensures err.None? && name.None? ==> Place(fs, entries, p) == Unresolved
  {
  }

  /** Lines 101-154 once the proposed name exists: p_1 for a single
      match, p_(max + 1) for several, ValueError when several match and
      none carries an index, and no name at all when nothing matches. */
  method ProposeSuffixed(listing: set<string>, p: string) returns (name: Option<string>, err: Option<Error>)
    ensures Proposed(listing, p, name, err)
  {
    var matches := CollectMatches(listing, p);
    name, err := None, None;
    if |matches| == 1 {
      name := Some(p + "_1");
      assert p + "_1" == Numbered(p, 1) by { assert NatToString(1) == "1"; }
    } else if |matches| > 1 {
      var indexes := CollectIndexes(matches);
      if |indexes| == 0 {
        assert Indexes(matches) == {};
        err := Some(EmptyMax);
      } else {
        var m := MaxOf(indexes);
        MaxOfIsSetMax(indexes, Indexes(matches));
        name := Some(p + "_" + NatToString(m + 1));
      }
    }
  }

  /** The destination root as the loop changes it. */
  class Destination {
    const fs: Fs
    /** The names of the entries of the destination root. */
    var entries: set<string>
    /** The copies made, in order. */
    var copies: seq<Copy>

    constructor (fs: Fs, entries: set<string>)
      ensures this.fs == fs && this.entries == entries && copies == []
    {
      this.fs := fs;
      this.entries := entries;
      copies := [];
    }

    /** os.makedirs(dst_dir + name), which raises FileExistsError when the
        filesystem already has an entry of that name. */
    method CreateFolder(name: string) returns (err: Option<Error>)
      modifies this
      ensures err == (if Exists(fs, old(entries), name) then Some(FileExists(name)) else None)
      ensures entries == (if err.None? then old(entries) + {name} else old(entries))
      ensures copies == old(copies)
    {
      if Exists(fs, entries, name) {
        err := Some(FileExists(name));
      } else {
        entries := entries + {name};
        err := None;
      }
    }

    /** Lines 177-181: the manifest is (re)written in the root. */
    method WriteManifest()
      modifies this
      ensures entries == WriteEntry(fs, old(entries), Manifest)
      ensures copies == old(copies)
    {
      if !Exists(fs, entries, Manifest) {
        entries := entries + {Manifest};
      }
    }

    /** Line 157 for a folder that was not made here: shutil.copy2 into
        dst_dir + folder, which for "" and "." is the root itself. */
    method CopyFile(path: string, folder: string)
      modifies this
      ensures copies == old(copies) + [Copy(path, folder)]
      ensures entries == Copied(fs, old(entries), folder, path)
    {
      copies := copies + [Copy(path, folder)];
      if (folder == "" || folder == ".") && !Exists(fs, entries, Basename(path)) {
        entries := entries + {Basename(path)};
      }
    }

    /** Lines 85-154: the folder the first file of a new source directory
        goes to, created unless neither suffixing branch applies. */
    method ChooseFolder(p: string) returns (err: Option<Error>, target: string, made: bool)
      modifies this
      ensures copies == old(copies)
      ensures match Place(fs, old(entries), p)
              case Create(n) => err.None? && made && target == n && entries == old(entries) + {n}
              case Unresolved => err.None? && !made && target == p && entries == old(entries)
              case Fail(e) => err == Some(e) && entries == old(entries)
    {
      target := p;
      made := false;
      ghost var pl := Place(fs, entries, p);
      if !Exists(fs, entries, p) {
        assert pl == Create(p);
        err := CreateFolder(target);
        made := true;
      } else {
        var name: Option<string>;
        name, err := ProposeSuffixed(entries, p);
        PlaceFromProposal(fs, entries, p, name, err);
        if err.Some? {
          return;
        }
        if name.Some? {
          target := name.value;
          err := CreateFolder(target);
          made := err.None?;
        }
      }
    }

    /** Lines 79-174 for one file: the body of the loop, given last_dir and
        last_dst, returning their new values. */
    method CopyOne(path: string, lastDir: Option<string>, lastDst: Option<string>)
      returns (err: Option<Error>, lastDir': Option<string>, lastDst': Option<string>)
      modifies this
      ensures var o := Step(Decision(AsWritten, fs), fs, State(old(entries), lastDir, lastDst, old(copies)), path);
              err == o.error && entries == o.state.entries && copies == o.state.copies &&
              (err.None? ==> lastDir' == o.state.lastDir && lastDst' == o.state.lastDst)
    {
      lastDir', lastDst' := lastDir, lastDst;
      var cur := Dirname(path);
      DecisionApply(AsWritten, fs, entries, ParentName(path));
      if Some(cur) != lastDir {
        var target: string, made: bool;
        err, target, made := ChooseFolder(ParentName(path));
        if err.Some? {
          return;
        }
        if made {
          lastDst' := Some(target);
          copies := copies + [Copy(path, target)];
        } else {
          CopyFile(path, target);
        }
      } else {
        if lastDst.None? {
          err := Some(NoTarget);
          return;
        }
        copies := copies + [Copy(path, lastDst.value)];
        err := None;
      }
      lastDir' := Some(cur);
      WriteManifest();
    }

    /** copy_media_files(filepathlist, dst_dir) on this destination: the
        entries and copies are those of the loop's run, and the result is
        the exception that stopped it, if any. */
    method CopyMediaFiles(filepathlist: seq<string>) returns (err: Option<Error>)
      modifies this
      ensures var o := Run(Decision(AsWritten, fs), fs, Start(old(entries)), filepathlist);
              err == o.error && entries == o.state.entries && copies == old(copies) + o.state.copies
    {
      ghost var c0 := copies;
      var lastDir: Option<string> := None;
      var lastDst: Option<string> := None;
      var i := 0;
      while i < |filepathlist|
        invariant 0 <= i <= |filepathlist|
        invariant var o := Run(Decision(AsWritten, fs), fs, Start(old(entries)), filepathlist[..i]);
                  o.error.None? && entries == o.state.entries && copies == c0 + o.state.copies &&
                  lastDir == o.state.lastDir && lastDst == o.state.lastDst
      {
        ghost var o := Run(Decision(AsWritten, fs), fs, Start(old(entries)), filepathlist[..i]);
        RunPrefix(Decision(AsWritten, fs), fs, Start(old(entries)), filepathlist, i);
        StepShift(Decision(AsWritten, fs), fs, o.state, c0, filepathlist[i]);
        assert State(entries, lastDir, lastDst, copies) == o.state.(copies := c0 + o.state.copies);
        err, lastDir, lastDst := CopyOne(filepathlist[i], lastDir, lastDst);
        if err.Some? {
          RunStops(Decision(AsWritten, fs), fs, Start(old(entries)), filepathlist, i + 1);
          return;
        }
        i := i + 1;
      }
      assert filepathlist[..i] == filepathlist;
      err := None;
    }
  }
}
