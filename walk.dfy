/** find_files: the media files of a directory walk. The walk itself
    (os.walk) is an input: the sequence of (dirpath, dirnames, filenames)
    triples it yields, in the order it yields them. */
module Walk {
  import opened Text
  import opened PosixPath

  /** One triple yielded by os.walk. */
  datatype WalkEntry = WalkEntry(dirpath: string, dirs: seq<string>, files: seq<string>)

  predicate EndsWith(s: string, t: string)
  {
    |t| <= |s| && s[|s| - |t|..] == t
  }

  /** file.lower().endswith(suffixes): only the file name is lower-cased, the
      suffixes are compared as given, and any one of them will do. */
  predicate Keep(file: string, suffixes: seq<string>)
  {
    suffixes != [] &&
    (EndsWith(Lower(file), suffixes[|suffixes| - 1]) || Keep(file, suffixes[..|suffixes| - 1]))
  }

  /** A file is kept exactly when its lower-cased name ends with one of the
      suffixes. */
  lemma {:induction false} KeepIff(file: string, suffixes: seq<string>)
    ensures Keep(file, suffixes) <==> exists k :: 0 <= k < |suffixes| && EndsWith(Lower(file), suffixes[k])
  {
    if suffixes != [] {
      var rest := suffixes[..|suffixes| - 1];
      KeepIff(file, rest);
      if exists k :: 0 <= k < |suffixes| && EndsWith(Lower(file), suffixes[k]) {
        var k :| 0 <= k < |suffixes| && EndsWith(Lower(file), suffixes[k]);
        if k < |rest| {
          assert rest[k] == suffixes[k];
        }
      }
      if exists k :: 0 <= k < |rest| && EndsWith(Lower(file), rest[k]) {
        var k :| 0 <= k < |rest| && EndsWith(Lower(file), rest[k]);
        assert suffixes[k] == rest[k];
      }
    }
  }

  /** The joined paths of the kept files of one directory, in listing order. */
  function KeptIn(dirpath: string, files: seq<string>, suffixes: seq<string>): seq<string>
  {
    if files == [] then []
    else
      var file := files[|files| - 1];
      KeptIn(dirpath, files[..|files| - 1], suffixes)
        + (if Keep(file, suffixes) then [Join(dirpath, file)] else [])
  }

  /** The joined paths of the kept files of a whole walk, in walk order. */
  function Kept(walk: seq<WalkEntry>, suffixes: seq<string>): seq<string>
  {
    if walk == [] then []
    else
      var entry := walk[|walk| - 1];
      Kept(walk[..|walk| - 1], suffixes) + KeptIn(entry.dirpath, entry.files, suffixes)
  }

  /** find_files(folder, suffixes), given the triples os.walk(folder) yields. */
  method FindFiles(walk: seq<WalkEntry>, suffixes: seq<string>) returns (filepaths: seq<string>)
    ensures filepaths == Kept(walk, suffixes)
  {
    filepaths := [];
    var i := 0;
    while i < |walk|
      invariant 0 <= i <= |walk|
      invariant filepaths == Kept(walk[..i], suffixes)
    {
      var entry := walk[i];
      var j := 0;
      while j < |entry.files|
        invariant 0 <= j <= |entry.files|
        invariant filepaths == Kept(walk[..i], suffixes) + KeptIn(entry.dirpath, entry.files[..j], suffixes)
      {
        var file := entry.files[j];
        if Keep(file, suffixes) {
          filepaths := filepaths + [Join(entry.dirpath, file)];
        }
        assert entry.files[..j + 1][..j] == entry.files[..j];
        j := j + 1;
      }
      assert entry.files[..j] == entry.files;
      assert walk[..i + 1][..i] == walk[..i];
      i := i + 1;
    }
    assert walk[..i] == walk;
  }

  /** Within one directory the kept paths follow the listing order. */
  lemma {:induction false} KeptInAppend(dirpath: string, f1: seq<string>, f2: seq<string>, suffixes: seq<string>)
    ensures KeptIn(dirpath, f1 + f2, suffixes) == KeptIn(dirpath, f1, suffixes) + KeptIn(dirpath, f2, suffixes)
  {
    if f2 == [] {
      assert f1 + f2 == f1;
    } else {
      var g := f2[..|f2| - 1];
      assert (f1 + f2)[..|f1 + f2| - 1] == f1 + g;
      KeptInAppend(dirpath, f1, g, suffixes);
    }
  }

  /** The result for a walk is the results for its parts, concatenated in
      walk order. */
  lemma {:induction false} KeptAppend(w1: seq<WalkEntry>, w2: seq<WalkEntry>, suffixes: seq<string>)
    ensures Kept(w1 + w2, suffixes) == Kept(w1, suffixes) + Kept(w2, suffixes)
  {
    if w2 == [] {
      assert w1 + w2 == w1;
    } else {
      var v := w2[..|w2| - 1];
      assert (w1 + w2)[..|w1 + w2| - 1] == w1 + v;
      KeptAppend(w1, v, suffixes);
    }
  }

  /** A single file of a single directory is kept exactly when it matches. */
  lemma KeptSingle(dirpath: string, dirs: seq<string>, file: string, suffixes: seq<string>)
    ensures Kept([WalkEntry(dirpath, dirs, [file])], suffixes)
         == if Keep(file, suffixes) then [Join(dirpath, file)] else []
  {
    var w := [WalkEntry(dirpath, dirs, [file])];
    assert w[..0] == [];
    assert [file][..0] == [];
    assert KeptIn(dirpath, [file], suffixes) == if Keep(file, suffixes) then [Join(dirpath, file)] else [];
    assert Kept(w, suffixes) == Kept([], suffixes) + KeptIn(dirpath, [file], suffixes);
  }

  /** p is the joined path of a kept file of one directory listing. */
  predicate InDir(dirpath: string, files: seq<string>, suffixes: seq<string>, p: string)
  {
    exists j :: 0 <= j < |files| && Keep(files[j], suffixes) && p == Join(dirpath, files[j])
  }

  /** p is the joined path of a kept file of some directory of the walk. */
  predicate InWalk(walk: seq<WalkEntry>, suffixes: seq<string>, p: string)
  {
    exists i :: 0 <= i < |walk| && InDir(walk[i].dirpath, walk[i].files, suffixes, p)
  }

  lemma InDirLast(dirpath: string, files: seq<string>, suffixes: seq<string>, p: string)
    requires files != []
    ensures InDir(dirpath, files, suffixes, p)
        <==> InDir(dirpath, files[..|files| - 1], suffixes, p)
             || (Keep(files[|files| - 1], suffixes) && p == Join(dirpath, files[|files| - 1]))
  {
    var rest := files[..|files| - 1];
    if InDir(dirpath, files, suffixes, p) {
      var j :| 0 <= j < |files| && Keep(files[j], suffixes) && p == Join(dirpath, files[j]);
      if j < |rest| {
        assert rest[j] == files[j];
      }
    }
    if InDir(dirpath, rest, suffixes, p) {
      var j :| 0 <= j < |rest| && Keep(rest[j], suffixes) && p == Join(dirpath, rest[j]);
      assert files[j] == rest[j];
    }
  }

  /** The paths kept for one directory are exactly the joined paths of its
      files whose lower-cased name ends with a suffix. */
  lemma {:induction false} KeptInMembership(dirpath: string, files: seq<string>, suffixes: seq<string>, p: string)
    ensures p in KeptIn(dirpath, files, suffixes) <==> InDir(dirpath, files, suffixes, p)
  {
    if files != [] {
      KeptInMembership(dirpath, files[..|files| - 1], suffixes, p);
      InDirLast(dirpath, files, suffixes, p);
    }
  }

  lemma InWalkLast(walk: seq<WalkEntry>, suffixes: seq<string>, p: string)
    requires walk != []
    ensures InWalk(walk, suffixes, p)
        <==> InWalk(walk[..|walk| - 1], suffixes, p)
             || InDir(walk[|walk| - 1].dirpath, walk[|walk| - 1].files, suffixes, p)
  {
    var rest := walk[..|walk| - 1];
    if InWalk(walk, suffixes, p) {
      var i :| 0 <= i < |walk| && InDir(walk[i].dirpath, walk[i].files, suffixes, p);
      if i < |rest| {
        assert rest[i] == walk[i];
      }
    }
    if InWalk(rest, suffixes, p) {
      var i :| 0 <= i < |rest| && InDir(rest[i].dirpath, rest[i].files, suffixes, p);
      assert walk[i] == rest[i];
    }
  }

  /** find_files returns exactly the joined paths of the walked files whose
      lower-cased name ends with a suffix, and nothing else. */
  lemma {:induction false} KeptMembership(walk: seq<WalkEntry>, suffixes: seq<string>, p: string)
    ensures p in Kept(walk, suffixes) <==> InWalk(walk, suffixes, p)
  {
    if walk != [] {
      var last := walk[|walk| - 1];
      KeptMembership(walk[..|walk| - 1], suffixes, p);
      KeptInMembership(last.dirpath, last.files, suffixes, p);
      InWalkLast(walk, suffixes, p);
    }
  }

  /** The file name's letter case does not matter: a file is kept when its
      ending, lower-cased, is one of the suffixes (".JPG" for ".jpg"). */
  lemma KeepIgnoresCase(file: string, suffixes: seq<string>, k: nat)
    requires k < |suffixes| && |suffixes[k]| <= |file|
    requires Lower(file[|file| - |suffixes[k]|..]) == suffixes[k]
    ensures Keep(file, suffixes)
  {
    LowerSlice(file, |file| - |suffixes[k]|, |file|);
    assert EndsWith(Lower(file), suffixes[k]);
    KeepIff(file, suffixes);
  }

  /** The suffixes are not lower-cased: one holding an upper-case letter
      keeps nothing. */
  lemma UpperCaseSuffixMatchesNothing(file: string, suffix: string, i: nat)
    requires i < |suffix| && 'A' <= suffix[i] <= 'Z'
    ensures !EndsWith(Lower(file), suffix)
  {
  }

  lemma KeepUpperCaseName()
    ensures Keep("HOLIDAY.JPG", [".png", ".jpg"])
  {
    var l := Lower("HOLIDAY.JPG");
    assert l == "holiday.jpg";
    assert EndsWith(l, [".png", ".jpg"][1]);
  }
}
