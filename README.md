# demetrius: the media copier, modelled in Dafny

demetrius is a small Python script. It walks a source directory tree, keeps
the files whose lower-cased name ends with one of a set of suffixes
(`find_files`), and copies each of them into a folder of the destination root
named after the file's parent directory (`copy_media_files`). When several
source directories share a base name, it numbers their folders `p`, `p_1`,
`p_2`, … in the order it meets them.

The model has one Dafny module per concern:

- `Text` (text.dfy): ASCII lower-casing, digit strings, `str(n)` and `int(s)`
  on non-negative numbers, and the maximal run of trailing digits.
- `PosixPath` (posix_path.dfy): `os.path.split`, `dirname`, `basename` and
  `join` for POSIX paths.
- `Walk` (walk.dfy): `find_files`. The walk is an input, the sequence of
  `(dirpath, dirnames, filenames)` triples `os.walk` yields. `FindFiles` is the
  method with the two nested loops. `Kept` is its specification.
- `Patterns` (patterns.dfy): the two regular expressions of the loop as
  predicates and functions on names. `re.match(p + '(_[0-9]+)?$', s)` becomes
  `NamePattern`, and `.` in `p` acts as a wildcard, as it does in the script.
  For `Plain` names, those holding neither a line feed nor any other
  metacharacter `^ $ * + ? { } [ ] \ | ( )`, `NamePattern` is exact on
  folder names that do not end in a line feed; `Literal` names hold no `.`
  either. The index read with `.*?([0-9]+)?$` becomes `FolderIndex`.
- `Placement` (placement.dfy): the folder chosen for the first file of a new
  source directory, as a function of the names in the destination root.
  `Place` is that choice as written. `PlaceFixed` is a corrected choice (see
  Findings). The filesystem compares names exactly (`CaseSensitive`) or
  ignoring ASCII case (`CaseInsensitive`).
- `Copier` (copier.dfy):
  - `Step` is one iteration of the loop and `Run` the whole loop. Both are
    functions of a `State`: the entry names of the root, `last_dir`,
    `last_dst` and the copies made.
  - The class `Destination` holds the entry names and the copies, which the
    loop changes in place.
  - Its method `CopyMediaFiles` runs the loop with the script's own branches,
    lists and `max()`, and is proved to end in the state `Run` describes.
  - Exceptions are outcomes: `FileExistsError` from `os.makedirs`,
    `ValueError` from `max([])`, and `TypeError` from copying to a `last_dst`
    that was never set.
- `RunProps` (run_props.dfy): properties of a whole run. Every file is copied
  once and in order. The files of one stretch of a directory share a folder,
  and no other file shares it. Nothing fails for the corrected decision, nor
  for the decision as written on a case-sensitive filesystem when no base name
  is a root name or holds a regular-expression metacharacter (`.` included).
- `Numbering` (numbering.dfy): directories of one base name get `p`, `p_1`,
  `p_2`, … in encounter order, among directories of other base names.

The filesystem is the set of entry names in the destination root. Creating a
folder inserts its name. The manifest `filepathlist.txt`, which the script
rewrites in the root on every iteration, is an entry too, because it shows up
in the root's listing.

The script has no second pass for names that differ only in letter case. It
writes the manifest after every file, not once at the end. A folder that
already exists makes `os.makedirs` raise. There is no best-effort copy mode.

`dst_dir + parent_name` names the destination root itself when the parent name
is `""` (a file directly under `/`) or `.` (the walk of `.`), and the root's
parent for `..`. Those paths always exist, so the model's `Exists` holds for
these three root names whatever the root contains.

## Model

| member | source | states |
|---|---|---|
| Walk.FindFiles | demetrius.py:50-59 | the method's nested loops return exactly `Kept(walk, suffixes)`, the kept joined paths in walk order |
| Walk.Keep | demetrius.py:56 | `file.lower().endswith(suffixes)`: some suffix ends the lower-cased name |
| Walk.EndsWith | demetrius.py:56 | `str.endswith` for one suffix |
| Walk.KeptIn | demetrius.py:55-57 | the joined paths of the kept files of one directory, in listing order |
| Walk.Kept | demetrius.py:50-59 | the joined paths of the kept files of the whole walk, in walk order |
| Walk.KeepIff | demetrius.py:56 | a file is kept exactly when its lower-cased name ends with one of the suffixes |
| Walk.KeptMembership | demetrius.py:50-59 | a path is in the result exactly when it is `join(dirpath, file)` for a walked file that is kept: every such path, and no other |
| Walk.KeptInMembership | demetrius.py:55-57 | within one directory, the kept paths are exactly the joined paths of its kept files |
| Walk.KeptAppend | demetrius.py:54-57 | the result for a walk is the results of its parts, concatenated in walk order |
| Walk.KeptInAppend | demetrius.py:55-57 | within one directory, the kept paths follow the listing order |
| Walk.KeptSingle | demetrius.py:55-57 | a single file of a single directory gives its joined path when kept, and nothing otherwise |
| Walk.KeepIgnoresCase | demetrius.py:49-56 | a file whose ending lower-cases to a suffix is kept, so `X.JPG` is kept for `.jpg` |
| Walk.UpperCaseSuffixMatchesNothing | demetrius.py:56 | the suffixes are not lower-cased: a suffix holding an upper-case letter matches no lower-cased name |
| Walk.KeepUpperCaseName | demetrius.py:56 | `HOLIDAY.JPG` is kept for the suffixes `.png`, `.jpg` |
| PosixPath.RFindSlashIsLast | demetrius.py:82 | the index `split` cuts at holds a separator, and no separator comes after it |
| PosixPath.Split | demetrius.py:82 | `os.path.split`: the head up to the last separator, with its trailing separators stripped unless it is all separators, and the tail after it |
| PosixPath.Dirname | demetrius.py:75 | `os.path.dirname`: the head of the split |
| PosixPath.Basename | demetrius.py:82 | the tail of the split |
| PosixPath.Join | demetrius.py:57 | `os.path.join(d, f)` for a relative `f`: a separator is added unless `d` is empty or already ends in one |
| PosixPath.ParentName | demetrius.py:82 | `parent_name`, the tail of the split of the file's directory |
| PosixPath.RStripSlashesIs | demetrius.py:75 | stripping keeps a prefix that does not end in a separator and drops only separators |
| PosixPath.StrippedAway | demetrius.py:75 | stripping empties a string exactly when it consists of separators only |
| PosixPath.StripHeadTest | demetrius.py:75 | the head of a split loses its trailing separators unless it is empty or all separators, as in posixpath.split |
| PosixPath.BasenameNoSlash | demetrius.py:82 | a base name never contains a separator |
| PosixPath.SplitJoin | demetrius.py:57 | splitting `join(d, f)` for a file name `f` gives back `f` and the normalised `d` |
| PosixPath.ParentNameOfJoin | demetrius.py:82 | the parent name of a path built by `find_files` is the last component of its directory |
| Text.DigitsValueOfNatToString | demetrius.py:145 | `int(str(n)) == n` |
| Text.Lower | demetrius.py:56 | `str.lower` on ASCII letters |
| Text.NatToString | demetrius.py:145 | `str(n)` for a non-negative `n`: its decimal digits, no leading zero |
| Text.DigitsValue | demetrius.py:142 | `int(s)` for a string of decimal digits |
| Text.TrailingDigits | demetrius.py:133 | the group `([0-9]+)?` of `.*?([0-9]+)?$`: the longest run of digits that ends the name |
| Text.NatToStringInjective | demetrius.py:145-148 | different indexes give different suffixes |
| Text.TrailingDigitsIs | demetrius.py:133 | the run read off a name is a suffix of it, and the character before the run is not a digit, so the run is maximal |
| Text.TrailingDigitsAfter | demetrius.py:133 | after a non-digit separator the run is exactly the digits that follow it |
| Patterns.NumberedMatches | demetrius.py:105-108 | for a plain name `p`, every name `p`, `p_k` matches p's pattern |
| Patterns.NamePattern | demetrius.py:105-108 | `re.match(p + '(_[0-9]+)?$', s)`: `s` is `p`, with `.` matching any character but a line feed, optionally followed by `_` and digits |
| Patterns.Numbered | demetrius.py:115-148 | the folder name `p`, `p + "_1"` or `p + "_" + str(k)` |
| Patterns.FolderIndex | demetrius.py:133-136 | the index read off a matched folder: the value of its trailing digits, or none |
| Patterns.FolderIndexOfNumbered | demetrius.py:133-136 | the index read off `p_k` is `k` (`holiday_3` gives 3) |
| Patterns.FolderIndexOfBase | demetrius.py:133-136 | a name that does not end in a digit has no index (`holiday` gives none) |
| Patterns.FolderIndexOfDigitEnding | demetrius.py:133-136 | a name made of a part that does not end in a digit followed by a run of digits carries exactly the value of that run as its index |
| Patterns.PhotosIndex | demetrius.py:133-136 | `photos2019` carries the index 2019 |
| Patterns.NumberedInjective | demetrius.py:148 | different indexes give different folder names |
| Patterns.LiteralMatch | demetrius.py:105-108 | for a literal name (no metacharacter, line feed or `.`), the pattern accepts `p` itself, or a longer name that carries an index |
| Patterns.PlainExamples | demetrius.py:105 | `a.b` and `photos2019` are plain, `photos2019` is literal and `a.b` is not; `Photos (1)`, `a*b` and `a\nb` are not plain |
| Patterns.MatchHasNoLineFeed | demetrius.py:105-133 | for a plain `p`, a folder the pattern accepts holds no line feed, so the index pattern of line 133 matches it |
| Patterns.DotIsWildcard | demetrius.py:105 | the unescaped `.` matches any character: `a.b` matches `axb` |
| Placement.MemberExists | demetrius.py:89 | an entry of the root exists under either comparison |
| Placement.SameName | demetrius.py:89 | whether the filesystem takes two names for one entry: exact comparison, or comparison of the lower-cased names |
| Placement.RootName | demetrius.py:85-89 | the parent names `""`, `.` and `..`, for which `dst_dir + parent_name` is the root or its parent |
| Placement.Exists | demetrius.py:89 | `os.path.exists(dst_dir + name)`: a root name, or an entry the filesystem takes for the name |
| Placement.Matches | demetrius.py:101-109 | the folders of the listing that equal `p` or match its pattern |
| Placement.Indexes | demetrius.py:128-136 | the indexes read off the matches that have one |
| Placement.SetMax | demetrius.py:142 | `max()` of a non-empty set of indexes is one of them and bounds them all |
| Placement.MakeDirs | demetrius.py:91 | `os.makedirs`: `FileExistsError` when the name exists, otherwise the folder is made |
| Placement.Place | demetrius.py:85-154 | the decision as written: `p` when it does not exist, otherwise the suffixing branches for its matches |
| Placement.Suffix | demetrius.py:113-154 | one match gives `p_1`, several give the largest index plus one, none gives no folder |
| Placement.ByMax | demetrius.py:142-154 | `max()` of the indexes, `ValueError` when there are none, then `os.makedirs` of `p_(max + 1)` |
| Placement.ExistsCaseSensitive | demetrius.py:89 | under exact comparison, `os.path.exists` holds exactly for a root name or an entry of the root |
| Placement.SetMaxIs | demetrius.py:142 | the maximum of a set is the element that bounds all the others |
| Placement.PlaceFirst | demetrius.py:89-94 | a name that does not exist yet is used as it is |
| Placement.PlaceCreatesFresh | demetrius.py:85-154 | a folder the decision creates is not an entry yet and does not exist |
| Placement.PlaceResolvesCaseSensitive | demetrius.py:89-126 | under exact comparison the decision leaves a new directory unresolved exactly when its name is a root name that no folder matches |
| Placement.OneMatchFree | demetrius.py:113-121 | for a plain `p` with exactly one match, `p_1` is not an entry |
| Placement.NextIndexFree | demetrius.py:126-154 | for a plain `p`, `p_(max + 1)` is not an entry, because it would match and carry a larger index |
| Placement.PlaceOneMatch | demetrius.py:113-121 | one match of a plain `p`: the new folder is `p + "_1"`, and it is fresh |
| Placement.PlaceManyMatches | demetrius.py:126-154 | several indexed matches of a plain `p`: the new folder is `p_` followed by 1 + the largest index as a string, and it is fresh |
| Placement.PlaceEmptyMax | demetrius.py:142 | several matches and no index among them: `max([])` raises |
| Placement.PlaceNeverCollides | demetrius.py:89-154 | under exact comparison, for a plain name, `os.makedirs` raises only for a root name; for any other plain name the only error left is `max([])` |
| Placement.RootNameCollides | demetrius.py:85-118 | with `_1` in the root, a file directly under `/` (parent name `""`) has `_1` as its one match, and line 118 raises `FileExistsError` |
| Placement.NumberedNotRoot | demetrius.py:115-148 | no suffixed name `p_k` is a root name |
| Placement.PlaceNamesNumbered | demetrius.py:85-154 | the decision as written only ever creates `p` or a `p_k` |
| Placement.PlaceNoEmptyMax | demetrius.py:126-142 | for a literal name, several matches always include an indexed one, so `max([])` never happens |
| Placement.NamesBelowSize | demetrius.py:89-154 | the names `p`, `p_1`, …, `p_(c-1)` are `c` different names |
| Placement.IndexesBelow | demetrius.py:132-142 | when those names are the matches, the largest index is `c - 1` |
| Placement.PlaceNext | demetrius.py:89-154 | for a plain `p`, once exactly `p`, …, `p_(c-1)` match, the next directory of base name p gets `p_c` |
| Placement.FixedIndexOfSameName | demetrius.py:126-154 | under the corrected decision, an entry the filesystem takes for `p_k` carries index `k`, under either comparison |
| Placement.FixedIndex | demetrius.py:133-136 | the corrected index of an entry for `p`: 0 for `p` itself, `k` for `p_k`, none otherwise, compared as the filesystem compares |
| Placement.FixedIndexes | demetrius.py:128-136 | the corrected indexes carried by the entries of the root |
| Placement.PlaceFixed | demetrius.py:85-154 | the corrected decision: `p` when it does not exist, otherwise `p_(largest index + 1)` |
| Placement.PlaceFixedFresh | demetrius.py:85-154 | the corrected decision always creates a folder that does not exist yet under the filesystem's own comparison |
| Placement.PlaceFixedNamesNumbered | demetrius.py:85-154 | the corrected decision always creates `p` or a `p_k` |
| Placement.PlaceFixedNext | demetrius.py:89-154 | under the corrected decision, once the entries carry the indexes below `c`, the next directory gets `p_c` and the indexes below `c + 1` are carried |
| Placement.TwoMatches | demetrius.py:101-136 | for a plain `p`, with `p` and `p_1` present, both match, and their indexes are p's own and 1 |
| Placement.PlaceAfterTwo | demetrius.py:126-154 | for a plain `p`, with `p` and `p_1` present and `p` ending in the number `v`, the next name is `p_(v + 1)` |
| Placement.WildcardEmptyMax | demetrius.py:105-142 | with `axb` and `a.b` present, the directory `a.b` raises `ValueError` from `max([])` |
| Placement.WildcardFixed | demetrius.py:105-142 | the corrected decision gives `a.b_1` there |
| Placement.DigitEndingSkips | demetrius.py:133-148 | for a plain `p` ending in a number `d` of at least 2 (such as `photos2019`), with `p` and `p_1` present, the third directory gets `p_(d + 1)` (`photos2019_2020`), not `p_2` |
| Placement.DigitEndingFixed | demetrius.py:133-148 | the corrected decision gives `p_2` there, whatever `p` ends in |
| Placement.CaseOnlyCollision | demetrius.py:89-126 | on a case-insensitive filesystem holding `holiday`, the directory `Holiday` exists but matches nothing, so neither branch runs |
| Placement.CaseOnlyCollisionFixed | demetrius.py:89-126 | the corrected decision gives `Holiday_1` there |
| Copier.WriteEntry | demetrius.py:179 | writing the manifest keeps every entry, adds at most its own name, and leaves it existing |
| Copier.Decide | demetrius.py:85-154 | the decision for a new directory, as written or corrected |
| Copier.Finish | demetrius.py:174-181 | the end of an iteration: `last_dir` becomes the current directory and the manifest is written |
| Copier.Step | demetrius.py:75-181 | one iteration: a file of the directory before goes to `last_dst` (`TypeError` when unset); a new directory gets the decided folder, or is copied to `dst_dir + parent_name` with `last_dst` kept when unresolved, or raises |
| Copier.Copied | demetrius.py:85-157 | a copy into `dst_dir + ""` or `dst_dir + "."`, the root itself, leaves the file's base name existing in the root and adds nothing else; a copy into any other folder leaves the root's entries alone |
| Copier.Run | demetrius.py:72-181 | the loop over the list, stopping at the first exception |
| Copier.RunPrefix | demetrius.py:72 | the loop over `i + 1` paths is the loop over `i` paths followed by one iteration, unless that raised |
| Copier.RunStops | demetrius.py:72-181 | once an exception is raised, the rest of the list changes nothing |
| Copier.StepShift | demetrius.py:72-181 | an iteration does not depend on the copies made before it |
| Copier.MaxOf | demetrius.py:142 | `max()` of a non-empty list is an element of it and bounds all of them |
| Copier.MaxOfIsSetMax | demetrius.py:142 | `max()` of the list of indexes is the largest index of the set |
| Copier.CollectMatches | demetrius.py:101-109 | the loop collects exactly the folders that equal `p` or match its pattern |
| Copier.IndexesAdd | demetrius.py:132-136 | one more folder adds its index, if it has one |
| Copier.CollectIndexes | demetrius.py:128-136 | the loop collects exactly the indexes of the matches that have one |
| Copier.PlaceFromProposal | demetrius.py:101-154 | the proposal of the suffixing branch decides `Place`: the error it raises, the folder it makes, or none |
| Copier.ProposeSuffixed | demetrius.py:101-154 | the method proposes `p_1` for one match, `p_(max + 1)` for several, raises when several carry no index, and proposes nothing for no match |
| Copier.Destination.constructor | demetrius.py:61-70 | the loop starts on the root's entries with no copies |
| Copier.Destination.CreateFolder | demetrius.py:91 | `os.makedirs` raises `FileExistsError` exactly when the name exists, and otherwise adds it |
| Copier.Destination.WriteManifest | demetrius.py:177-181 | the manifest entry is written into the root, and nothing else changes |
| Copier.Destination.CopyFile | demetrius.py:157 | `shutil.copy2` into a folder not made in this iteration records the copy and changes the entries as `Copied` says |
| Copier.Destination.ChooseFolder | demetrius.py:85-154 | the folder made, the name used and the error agree with `Place` |
| Copier.Destination.CopyOne | demetrius.py:75-181 | one pass of the loop body leaves exactly the state, copies and error of `Step` |
| Copier.Destination.CopyMediaFiles | demetrius.py:61-181 | the loop ends with exactly the entries, copies and error of `Run` over the list |
| RunProps.StepShape | demetrius.py:72-181 | an iteration either raises and changes nothing, or copies the file once, records its directory and keeps every entry |
| RunProps.RunShape | demetrius.py:72-181 | every file is copied once and in order until an exception stops the loop, and no entry is lost |
| RunProps.StepSameDirectory | demetrius.py:163-174 | a file of the same directory as the file before goes to `last_dst`, and no folder is made for it |
| RunProps.StepNewName | demetrius.py:82-94 | a new directory whose name does not exist gets that folder, which becomes `last_dst` |
| RunProps.DecideFresh | demetrius.py:85-154 | for the corrected decision, or the decision as written under exact comparison, a new directory never gets a name that exists; it is left unresolved only as written and only for a root name that nothing matches; the corrected decision always creates a folder |
| RunProps.GroupedSame | demetrius.py:163-167 | a file of the directory before joins that directory's folder, and the grouping is kept |
| RunProps.GroupedNew | demetrius.py:85-157 | a file of a new directory that goes to a folder no earlier file used keeps the grouping |
| RunProps.StepTracked | demetrius.py:72-181 | with a fresh decision, every iteration keeps the grouping and `last_dir` and `last_dst` |
| RunProps.StepNeverFails | demetrius.py:163-167 | a tracked iteration raises only when the decision does: `last_dst` is always set when it is reused |
| RunProps.RunTracked | demetrius.py:72-181 | with a fresh decision, a run that does not raise ends grouped and tracked |
| RunProps.RunNeverFails | demetrius.py:72-181 | a fresh decision that never raises gives a loop that never raises |
| RunProps.RunGrouped | demetrius.py:72-181 | with a fresh decision, two files of one stretch of a directory share a folder, and files of different stretches get folders the filesystem takes for different ones |
| RunProps.SoundFresh | demetrius.py:85-154 | the corrected decision is fresh for all names, and the decision as written under exact comparison for names that are not root names |
| RunProps.ParentNamesAre | demetrius.py:82 | a name is in `ParentNames` of the paths exactly when it is the base name of some path's directory (`os.path.split(os.path.dirname(file))[1]`) |
| RunProps.NeverFails | demetrius.py:72-181 | the corrected decision never raises; nor does the decision as written under exact comparison when every parent name is literal (no metacharacter, line feed or `.`) and not a root name |
| RunProps.Grouping | demetrius.py:72-181 | for those decisions (as written, for parent names that are not root names), the files are grouped exactly by their stretches of one directory, and different stretches get folders the filesystem takes for different ones |
| RunProps.StaleTarget | demetrius.py:89-167 | when a new directory is left unresolved, its next file goes to the old `last_dst`, or raises when there is none |
| RunProps.CreatedTarget | demetrius.py:89-167 | when a folder is created, both files of the directory go there |
| RunProps.CaseOnlyStale | demetrius.py:89-167 | with `holiday` present on a case-insensitive filesystem, the files of `Holiday` go to `Holiday` and then to the folder before, or raise |
| RunProps.CaseOnlyStaleFixed | demetrius.py:89-167 | the corrected decision puts both files into `Holiday_1` |
| RunProps.RootPath | demetrius.py:75-82 | a file listed directly under `/` has directory `/`, parent name `""` and its own name as base name |
| RunProps.RootPaths | demetrius.py:75-82 | `/a.jpg` and `/b.jpg` lie in `/` and have parent name `""` |
| RunProps.RootDirFirst | demetrius.py:79-181 | as written, in an empty root, the first file of `/` is copied into the root itself, where `a.jpg` becomes an entry beside the manifest; no folder is made and `last_dst` stays unset |
| RunProps.RootDirNoTarget | demetrius.py:79-167 | as written, for `/a.jpg` and `/b.jpg` and an empty root, the first file is copied into the root itself and the second raises `TypeError` |
| RunProps.FixedRootName | demetrius.py:85-154 | in an empty root the corrected decision gives the directory of base name `""` the folder `_1` |
| RunProps.RootDirFixedFirst | demetrius.py:79-174 | the corrected decision copies the first file of `/` into a new folder `_1`, which `last_dst` then holds, and records `last_dir` as `/` |
| RunProps.RootDirFixed | demetrius.py:79-167 | the corrected decision copies both files into `_1` and does not raise |
| Numbering.Stretches | demetrius.py:79 | the number of stretches of base name `p` is at most the number of files, and at least 1 when the last file has base name `p` |
| Numbering.Starts | demetrius.py:79 | a file starts a stretch when it is the first or its directory differs from that of the file before |
| Numbering.StretchesSnoc | demetrius.py:79 | a file of the directory before adds no stretch; a file of another directory adds one when its base name is `p` |
| Numbering.NumbersSnoc | demetrius.py:72-181 | the numbering of the files of base name `p` extends to one more file that got the folder of its stretch |
| Numbering.StepCounted | demetrius.py:72-181 | an iteration of a decision that counts up gives a file of base name `p` the folder `p_c` of its stretch, and a file of another base name a folder that leaves the count alone |
| Numbering.RunNumbered | demetrius.py:72-181 | a decision that counts up for `p` and leaves the count alone for the other base names numbers the stretches of base name `p` `p`, `p_1`, `p_2`, … in encounter order, and the loop does not raise |
| Numbering.MatchesAddOther | demetrius.py:101-109 | adding a name that does not match `p` leaves p's matches unchanged |
| Numbering.MatchesAddNumbered | demetrius.py:101-109 | for a plain `p`, adding `p_c` adds it to the matches |
| Numbering.AsWrittenCounts | demetrius.py:89-154 | as written, for a plain `p`, with the matches `p`, …, `p_(c-1)`, the decision creates `p_c` and then `p_c` matches as well |
| Numbering.AsWrittenOther | demetrius.py:85-154 | as written, under exact comparison, for a plain `p`, a directory of another literal base name that is not a root name and whose folders never match `p` gets a new folder, and `p`'s matches stay the same |
| Numbering.AsWrittenCountsUp | demetrius.py:85-181 | as written, under exact comparison, for a plain `p`, the matches `p`, …, `p_(c-1)` are a count that the decision moves up and the manifest leaves alone |
| Numbering.AsWrittenOthersKeep | demetrius.py:85-154 | as written, for a plain `p`, directories of such other base names leave that count alone |
| Numbering.NumberedAsWritten | demetrius.py:72-181 | as written, under exact comparison, for a plain name that is not a root name, does not end in a digit, matches nothing in the root and whose pattern does not accept the manifest's name `filepathlist.txt`, the directories of base name `p` get `p`, `p_1`, `p_2`, … in encounter order among directories of other literal, non-root base names whose folders never match `p` |
| Numbering.FixedCounts | demetrius.py:89-154 | the corrected decision counts up the same way |
| Numbering.CountedAddOther | demetrius.py:128-136 | an entry that carries no corrected index for `p` leaves the count alone |
| Numbering.CountedAddNumbered | demetrius.py:145-148 | adding `p_c` moves the count from `c` to `c + 1` |
| Numbering.FixedOther | demetrius.py:85-154 | the corrected decision gives a directory of another base name, whose folders carry no index for `p`, a new folder, and the count stays |
| Numbering.CountedStart | demetrius.py:85-89 | a root with no folder of base name `p` starts the count at 0 |
| Numbering.FixedCountsUp | demetrius.py:85-181 | the corrected decision moves the count up and the manifest leaves it alone |
| Numbering.FixedOthersKeep | demetrius.py:85-154 | under the corrected decision, directories of such other base names leave the count alone |
| Numbering.NumberedFixed | demetrius.py:72-181 | under the corrected decision, on either filesystem, for a name that is not a root name, carries no corrected index in the root and gives the manifest's name `filepathlist.txt` no corrected index, the directories of base name `p` get `p`, `p_1`, `p_2`, … in encounter order among directories of any other base names whose folders carry no index for `p` |

## Left out

- The configuration and the creation of the destination root (demetrius.py:13-45) are not modelled, nor is the call that runs the script (demetrius.py:183).
- `os.walk` is an input sequence of triples. The order and contents of the listing are the operating system's.
- The progress percentages (floating point `round`) and every `print` (demetrius.py:140-141, 160-161, 170-171) are left out: they are output only.
- The manifest's content is not modelled. Only its entry in the root is, because it is listed with the folders.
- `os.chdir(dst_dir)` is not modelled; paths are taken as absolute.
- `os.listdir(destination_directory)` reads a global. It is taken to list the same root as `dst_dir`.
- `shutil.copy2` is a record `(source, folder)` in the copy log. Copy failures and the file contents are not modelled.
- Copier.Copied: a file copied into the root itself whose base name is held by a folder makes `shutil.copy2` raise `IsADirectoryError`; the model records the copy and does not raise.
- Lower-casing is ASCII only. Python's Unicode `str.lower` is not modelled.
- The pattern model is exact for plain parent names (no line feed and no regular-expression metacharacter other than `.`) and for entries of the root that do not end in a line feed. Python's `$` also matches just before a final line feed, so the script counts an entry `a\n` among the matches of `a` where `NamePattern` does not: with `a` and `a\n` in the root, a new directory `a` makes the script's `max([])` raise, where `Place` creates `a_1`. Every lemma about the decision as written (the Placement, Numbering and RunProps lemmas that take `AsWritten` or `Place`) is therefore a statement about roots with no entry ending in a line feed; the model's entries do not record that restriction. A parent name holding a line feed is not plain: with two matches, the index pattern `.*?([0-9]+)?$` of line 133 finds no match for it and `.group(1)` raises `AttributeError`. For other names `Place` is not what the script does: Python reads `Photos (1)` as the pattern `Photos 1` in a group, so `Photos (1)_1` never matches and a third directory of that name makes `os.makedirs` raise `FileExistsError` on `Photos (1)_1`; `a*b` matches `ab`; and a name such as `a[b` makes `re.match` raise `re.error`. Regular expressions beyond `.` are not modelled, so these failures have no member of their own.
- Paths are POSIX paths. Windows separators and drive letters are not modelled.
- `os.makedirs` failing on a name held by a file (such as the manifest) is modelled like any other existing name.
- Copier.WriteEntry: the entries carry no file type. A folder named `filepathlist.txt` in the root (one the loop makes for a source directory of that name, or one that was there) makes `open` at line 179 raise `IsADirectoryError`. The model writes the manifest entry as if it were a file and does not raise.
- SoundFresh: for the decision as written, freshness is stated only for names that are not root names. For a root name the source is not fresh: `RootNameCollides` and `RootDirNoTarget` show what happens then (see Findings).
- NeverFails: the decision as written is proved not to raise only when every parent name is literal and not a root name; `RootDirNoTarget` shows the `TypeError` a root name raises, `WildcardEmptyMax` the `ValueError` of a `.`, and the `Photos (1)` case above the `FileExistsError` of another metacharacter; a parent name holding a line feed is not literal, because three directories named `a\nb` make line 133 raise `AttributeError`. An entry of the root ending in a line feed is outside the proof as well (the `a\n` case above).
- Grouping: the decision as written is proved to group the files only when no parent name is a root name; `RootDirNoTarget` shows a root name sending a file into the root itself.
- Patterns.NumberedMatches: requires a plain `p`, because for other names the script's pattern does not accept `p_k` (the `Photos (1)` case above).
- Placement.OneMatchFree: requires a plain `p`, for the same reason.
- Placement.NumberedIsMatch: requires a plain `p`, for the same reason.
- Placement.NextIndexFree: requires a plain `p`, for the same reason.
- Placement.PlaceOneMatch: requires a plain `p`, for the same reason.
- Placement.PlaceManyMatches: requires a plain `p`, for the same reason.
- Placement.PlaceNext: requires a plain `p`, for the same reason.
- Placement.TwoMatches: requires a plain `p`, for the same reason.
- Placement.PlaceAfterTwo: requires a plain `p`, for the same reason.
- Placement.DigitEndingSkips: requires a plain `p`, for the same reason.
- Placement.PlaceNeverCollides: stated only for plain names; for `Photos (1)` the script raises `FileExistsError` where the model creates `Photos (1)_2`.
- Placement.PlaceNoEmptyMax: stated only for literal names; for `a*b` with `ab` present the script's `max([])` raises.
- Patterns.LiteralMatch: stated only for literal names; the script's pattern for `a*b` also accepts `ab`, which is neither `a*b` nor indexed.
- Numbering.MatchesAddNumbered: requires a plain `p`, because for other names the script's pattern does not accept `p_k`.
- Numbering.AsWrittenCounts: requires a plain `p`, because for other names the script's pattern does not accept `p_k`.
- Numbering.AsWrittenCountsUp: requires a plain `p`, because for other names the script's pattern does not accept `p_k`.
- Numbering.AsWrittenOther: requires a plain `p`, because for other names the script's pattern does not accept `p_k`.
- Numbering.AsWrittenOthersKeep: requires a plain `p`, because for other names the script's pattern does not accept `p_k`.
- NumberedAsWritten: `p` must be plain, and its pattern must not accept the manifest's name. An entry of the root ending in a line feed is outside the proof (the `a\n` case above). The other base names must be literal, must not be root names, and must have no folder name `q`, `q_k` that matches `p`. A directory named `p_1`, for instance, takes the place of a number of `p`.
- NumberedFixed: the manifest's name must carry no corrected index for `p`, and every other base name must have no folder name `q`, `q_k` that carries a corrected index for `p`.
- Copier.ProposeSuffixed: the destination listing is a set, so the `matches` list is modelled as a set. The order and multiplicity `os.listdir` gives are not kept.
- The dev/ and tests/ files are not part of this model: they are terminal output, a one-off comparison script and an example without assertions.

## Findings

| source | as written | input that shows it | evidently intended | confidence | as-written member | corrected member |
|---|---|---|---|---|---|---|
| demetrius.py:89-126 | on a case-insensitive filesystem, `os.path.exists` finds `holiday` for `Holiday`, but the exact-case patterns match nothing, so no folder is made and `last_dst` stays stale | root holding `holiday`; a new directory `Holiday` with two files | a new folder `Holiday_1` receiving both files | not executed | RunProps.CaseOnlyStale | RunProps.CaseOnlyStaleFixed |
| demetrius.py:105-142 | the name is spliced into the pattern unescaped, so `.` matches any character, and matches without an index make `max([])` raise | root holding `axb` and `a.b`; a new directory `a.b` | a new folder `a.b_1` | not executed | Placement.WildcardEmptyMax | Placement.WildcardFixed |
| demetrius.py:133-148 | the index is the trailing digit run of the whole name, so a base name ending in digits reads as a large index | root holding `photos2019` and `photos2019_1`; a third directory `photos2019` | a new folder `photos2019_2` | not executed | Placement.DigitEndingSkips | Placement.DigitEndingFixed |
| demetrius.py:82-167 | a file directly under `/` (or in the walk of `.`) has parent name `""` (or `.`), so `dst_dir + parent_name` is the root itself, which exists and which nothing matches: no folder is made, the first file is copied into the root, and `last_dst` stays unset, so the second file raises `TypeError` | the files `/a.jpg` and `/b.jpg`, with an empty root | a folder of its own for the directory (`_1` under the corrected decision) and no exception | not executed | RunProps.RootDirNoTarget | RunProps.RootDirFixed |
