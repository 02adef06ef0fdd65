# compare_folders in Dafny

A model of `compare_folders.py`, a script that compares two directory trees.
It lists the files and directories found on one side only, finds the common
regular files whose SHA-1 digests differ, and says "NO DIFFERENCE FOUND" when
there is neither.

The model follows the script part by part:

- `LexOrder` is Python's string order and `list.sort()`. The sort is an
  insertion sort over `seq<string>`, proved sorted and a permutation of its
  input.
- `Paths` covers `dir + "/" + name`, `os.path.join` and the root-stripping
  slice `filename[len(dir1)+1:]`.
- `Trees` holds the two directory listings as trees of names (`Node`). It
  also defines what a position (a sequence of names) is on each side: left
  only, right only, a common file, a common directory, or of different kinds.
- `Filecmp` is the part of `filecmp.dircmp` the script uses. It gives the five
  sorted name lists and `subdirs`, stated as a partition of the two listings.
- `UniqueFiles` is `find_unique_files`. It is a method with loops, proved
  against the multisets `UniqueLeft` and `UniqueRight`. These are proved to
  hold exactly the paths of the one-sided positions. When every name is one
  `os.listdir` can return (not empty, no '/'), each path appears once.
- `CommonFiles` is `build_common_files`. It is proved against the multiset
  `CommonFilesOf`. It holds exactly the paths of the common files at every
  common-directory depth, each once when the names are valid.
- `Digest` is `hash_file`, with an open file and a `hashlib` object as
  classes. Its loop reads chunks of `0x100000` bytes, and SHA-1 is a
  parameter.
- `CompareFolders` is the main part of the script: the relative paths, the
  hashing loop, and the verdict. `CompareFolders.CompareFolders` puts them
  together. When every common file can be opened, it returns the three lists
  the script prints from. Each list holds exactly what it should, in sorted
  order. Otherwise it names the first common file in sorted order that cannot
  be opened. The verdict holds exactly when no position is on one side only
  and every common file's two digests agree.

A name that is a regular file on one side and a directory on the other is in
no list (`CompareFolders.FunnyNotListed`). Two trees that differ only by such
a clash are therefore reported alike (`CompareFolders.KindClashAlike`).

The file system the hashing loop reads is a map from path to content. A path
missing from the map cannot be opened.

The script appends `[filepathLeft, filepathRight]` to `filesDifferent`, so the
model records those path pairs (`Difference`), not the relative path.

The unique lists are sorted on the full paths. For a root not ending in '/',
that is the order of the relative paths (`UniqueFiles.UniqueOrderIsRelOrder`).
For a root such as `x/` it is not: `find_unique_files` writes an entry of the
root as `x//b`, because it adds `"/"` itself, but a deeper one as `x/a/c`,
because `os.path.join` adds no second separator. So `x//b` sorts before
`x/a/c`, although `a/c` comes before `b` by relative path
(`UniqueFiles.TrailingSlashOrder`). The model follows the script here.

The comment at line 61 speaks of 16M chunks. The code reads `0x100000` bytes
(1 MiB) at a time, and the model follows the code.

## Model

| member | source | states |
|---|---|---|
| LexOrder.BelowTransitive | compare_folders.py:41-42 | the string order `sort` uses is transitive |
| LexOrder.BelowAntisymmetric | compare_folders.py:41-42 | two strings each below the other are equal |
| LexOrder.BelowTotal | compare_folders.py:41-42 | any two strings are ordered one way or the other |
| LexOrder.BelowUnderPrefix | compare_folders.py:31 | putting a common directory prefix in front keeps the order of two names |
| LexOrder.Insert | compare_folders.py:41-42 | inserting into a sorted list gives a sorted list holding one more copy of the element |
| LexOrder.Sort | compare_folders.py:41-42 | `list.sort()` leaves the list sorted and a permutation of what it held |
| LexOrder.SortedDistinct | compare_folders.py:41-42 | a sorted list without repeated elements is strictly increasing |
| LexOrder.DistinctNoDuplicates | compare_folders.py:41-42 | a list whose elements differ pairwise holds each element once |
| LexOrder.SortedNames | compare_folders.py:96 | the sorted listing of a set of names is strictly increasing and holds exactly that set |
| Paths.StripRoot | compare_folders.py:104 | the slice's length, including Python's empty result for a short path |
| Paths.StripRootOfJoined | compare_folders.py:103-104 | stripping the root from `root + "/" + rel` gives back `rel` |
| Paths.JoinStripped | compare_folders.py:104-110 | re-prefixing a stripped path with its root gives back the path |
| Paths.RelInjective | compare_folders.py:102-104 | different positions (sequences of valid names) have different relative paths |
| Paths.JoinedPrefix | compare_folders.py:37 | a sub-comparison's path made by `os.path.join` gets exactly one '/' before the next name |
| Paths.AppendEntries | compare_folders.py:29-35 | the loop appends `parent + "/" + name` for each name, in order, after what the list held |
| Paths.EntriesShape | compare_folders.py:29-35 | the appended entries are one per name, each `parent + "/" + name` |
| Paths.EntriesDistinct | compare_folders.py:29-35 | entries of distinct valid names are distinct paths |
| Trees.CommonFileLookup | compare_folders.py:50 | a common-file position is a regular file in both trees |
| Trees.PositionKindsExclusive | compare_folders.py:29-35 | a position is at most one of left-only, right-only, common file, common directory, kinds differ |
| Trees.ClassifiedOnlyBelowCommonDirs | compare_folders.py:37-40 | every proper prefix of a classified position is a common directory, so no position below a one-sided directory is classified |
| Trees.CommonFileNotOneSided | compare_folders.py:50-54 | no prefix of a common-file position, itself included, is one-sided |
| Trees.OneSidedPrefixes | compare_folders.py:29-40 | no prefix of a left-only position, itself included, is right-only, and no prefix of a right-only one is left-only |
| Trees.NothingOneSidedInSameTree | compare_folders.py:29-35 | a tree compared with itself has no one-sided position |
| Filecmp.Lists | compare_folders.py:96 | the five lists of `dircmp` are sorted and partition the two listings by name and kind |
| Filecmp.CommonDirNames | compare_folders.py:96 | `common_dirs` holds exactly the names that are directories on both sides |
| Filecmp.CommonFileNames | compare_folders.py:96 | `common_files` holds exactly the names that are regular files on both sides |
| Filecmp.FunnyNames | compare_folders.py:96 | `common_funny` holds exactly the common names of different kinds |
| Filecmp.Compare | compare_folders.py:96 | `dircmp(dir1, dir2)` satisfies the partition at every depth, on the given paths and trees |
| Filecmp.SubComparisons | compare_folders.py:37 | `subdirs` compares each common directory, in order, under its `os.path.join` paths |
| Filecmp.LevelValid | compare_folders.py:37 | one level's lists with valid sub-comparisons make a valid comparison |
| Filecmp.MirrorValid | compare_folders.py:33-35 | the mirrored comparison is again a valid `dircmp` |
| Filecmp.Partition | compare_folders.py:29-35 | every listed name is in exactly one of the five lists |
| UniqueFiles.FindUniqueFiles | compare_folders.py:25-43 | both returned lists are sorted and hold exactly this level's one-sided entries plus every sub-result |
| UniqueFiles.AddSubResults | compare_folders.py:37-40 | the loop over `subdirs` adds each sub-comparison's left and right results |
| UniqueFiles.LeftOnlyBelow | compare_folders.py:37-40 | a position below a common directory is left-only exactly when it is left-only in that sub-comparison, with the same path |
| UniqueFiles.UniqueLeftWitness | compare_folders.py:29-40 | every listed left path is the path of a left-only position |
| UniqueFiles.UniqueLeftHas | compare_folders.py:29-40 | every left-only position's path is listed |
| UniqueFiles.UniqueLeftPositions | compare_folders.py:29-40 | a path is listed on the left exactly when it is the path of a left-only position |
| UniqueFiles.UniqueRightMirror | compare_folders.py:33-35 | the right list is the left list of the mirrored comparison |
| UniqueFiles.UniqueRightPositions | compare_folders.py:33-40 | a path is listed on the right exactly when it is the path of a right-only position |
| UniqueFiles.UniqueLeftUnder | compare_folders.py:29-40 | every listed left path lies under the left directory |
| UniqueFiles.UniqueLeftDistinct | compare_folders.py:26-43 | no path appears twice in the left list |
| UniqueFiles.UniqueRightDistinct | compare_folders.py:26-43 | no path appears twice in the right list, and all lie under the right directory |
| UniqueFiles.UniqueLeftOnce | compare_folders.py:29-40 | a left-only position is listed exactly once |
| UniqueFiles.UniqueLeftStrict | compare_folders.py:41 | the sorted left list is strictly increasing |
| UniqueFiles.UniqueRightStrict | compare_folders.py:42 | the sorted right list is strictly increasing |
| UniqueFiles.SameTreesNoUniques | compare_folders.py:29-40 | comparing a tree with itself lists nothing on either side |
| UniqueFiles.UniquePathUnder | compare_folders.py:31-37 | the path of a position of valid names lies under its root |
| UniqueFiles.FunnyNotLeft | compare_folders.py:29-40 | the path of a file/directory clash is not in the left list, at any depth |
| UniqueFiles.FunnyHereNotLeft | compare_folders.py:29-31 | a clashing name of this level is not written to the left list |
| UniqueFiles.OnlyOwnSubdir | compare_folders.py:37-40 | a path under a common directory is in the left list only if that directory's sub-comparison lists it |
| UniqueFiles.NotAtLevel | compare_folders.py:29-31 | a path under a sub-directory of the left directory is not one of this level's entries |
| UniqueFiles.BelowLeftOnlyNotLeft | compare_folders.py:29-40 | no path strictly below a left-only position is in the left list, at any depth |
| UniqueFiles.OneSidedHereNotLeft | compare_folders.py:29-40 | nothing under a directory present on the left only at this level is in the left list |
| UniqueFiles.BelowRightOnlyNotRight | compare_folders.py:33-40 | no path strictly below a right-only position is in the right list |
| UniqueFiles.FunnyNotRight | compare_folders.py:33-40 | the path of a file/directory clash is not in the right list, at any depth |
| UniqueFiles.UniquePathPlain | compare_folders.py:31-37 | when the root does not end in '/', a listed path is `dir1 + "/"` followed by the position's names joined by '/' |
| UniqueFiles.UniquePathInjective | compare_folders.py:31-37 | different positions of valid names are written at different paths |
| UniqueFiles.ListedIsPosition | compare_folders.py:29-40 | a left-list path of valid names is that of a left-only position |
| UniqueFiles.RightListedIsPosition | compare_folders.py:33-40 | a right-list path of valid names is that of a right-only position |
| UniqueFiles.UniqueOrderIsRelOrder | compare_folders.py:31-42 | for a root not ending in '/', two written paths sort as their relative paths do |
| UniqueFiles.TrailingSlashOrder | compare_folders.py:31-42 | for the root `x/`, `x//b` sorts before `x/a/c`, while by relative path `a/c` sorts before `b` |
| CommonFiles.ValidShaped | compare_folders.py:54 | every common directory has a comparison of its two sub-trees |
| CommonFiles.Fresh | compare_folders.py:54 | a fresh `dircmp(left + "/" + subdir, right + "/" + subdir)` has the same lists as the `subdirs` entry |
| CommonFiles.Renamed | compare_folders.py:54 | renaming the two paths of a comparison keeps its shape |
| CommonFiles.BuildCommonFiles | compare_folders.py:47-58 | the result is sorted and holds exactly this level's common files plus those of every common directory |
| CommonFiles.AddSubCommonFiles | compare_folders.py:53-56 | the loop over `common_dirs` adds the common files of each sub-directory |
| CommonFiles.AddSubdir | compare_folders.py:54-56 | one recursive call adds exactly that sub-directory's common files |
| CommonFiles.AppendAll | compare_folders.py:55-56 | the inner loop appends the sub-result, in order |
| CommonFiles.CommonFilesWitness | compare_folders.py:47-58 | every listed path is `left + "/"` followed by a common-file position |
| CommonFiles.CommonFilesHas | compare_folders.py:47-58 | every common-file position, at any depth, is listed |
| CommonFiles.CommonFilesPositions | compare_folders.py:47-58 | a path is listed exactly when it names a common-file position; directories of different kinds contribute nothing |
| CommonFiles.CommonFilesDistinct | compare_folders.py:47-58 | no path is listed twice |
| CommonFiles.CommonFileOnce | compare_folders.py:50-56 | each common file is listed exactly once |
| Digest.Hex | compare_folders.py:70 | the hex digest has two digits per byte |
| Digest.HexDigitsOnly | compare_folders.py:70 | the hex digest uses only lower-case hexadecimal digits |
| Digest.UnhexHex | compare_folders.py:70 | reading the hex digest back gives the digest bytes |
| Digest.HexInjective | compare_folders.py:70 | two hex digests are equal exactly when their digests are |
| Digest.OpenFile.constructor | compare_folders.py:64 | a file opened for reading is at position 0 |
| Digest.OpenFile.Read | compare_folders.py:66 | `read(size)` returns the next `size` bytes, fewer at the end, none after it, and moves past them |
| Digest.Hasher.constructor | compare_folders.py:63 | a new SHA-1 object has been fed nothing |
| Digest.Hasher.Update | compare_folders.py:69 | `update(buf)` appends `buf` to the bytes fed |
| Digest.Hasher.HexDigest | compare_folders.py:70 | `hexdigest()` is the 40-digit hex form of the digest of all bytes fed |
| Digest.FileHash | compare_folders.py:62-70 | a digest of 40 digits exactly when the file can be opened, otherwise the failing path |
| Digest.ChunkedSnoc | compare_folders.py:65-69 | one more chunk after full-size chunks keeps every chunk within size and extends the bytes read |
| Digest.HashFile | compare_folders.py:62-70 | the loop's result is the digest of the whole content; the chunks are non-empty, at most 0x100000 bytes, all but the last full size, concatenate to the content, and are none for an empty file |
| Digest.SameHash | compare_folders.py:111-114 | two files hash alike exactly when SHA-1 gives their contents the same digest; identical contents hash alike |
| CompareFolders.RelativePaths | compare_folders.py:102-104 | each common path stripped of `dir1` and its separator, in order |
| CompareFolders.RelativeIsCommon | compare_folders.py:101-104 | every relative path is that of a common-file position, and its common path is `dir1 + "/"` plus it |
| CompareFolders.CommonIsRelative | compare_folders.py:101-104 | every common-file position's relative path is in the list |
| CompareFolders.FindDifferent | compare_folders.py:107-117 | the hashing loop's result is the pairs `dir1 + "/" + rel`, `dir2 + "/" + rel` whose hashes differ, in order, or the first file it cannot open |
| CompareFolders.DifferencesOrdered | compare_folders.py:109-117 | when the left paths of all pairs are sorted, the recorded pairs' left paths are sorted too, and strictly so when the former are |
| CompareFolders.DifferencesInOrder | compare_folders.py:101-117 | a completed loop records its pairs in the order of the sorted common list, strictly so for valid names |
| CompareFolders.ErrorPersists | compare_folders.py:109-113 | once a file cannot be opened, later paths do not change the result |
| CompareFolders.DifferencesOk | compare_folders.py:109-117 | the loop completes exactly when both files of every relative path can be opened |
| CompareFolders.DifferencesMembers | compare_folders.py:109-117 | a completed loop records a pair exactly when it belongs to a relative path and the two digests differ |
| CompareFolders.DifferingSnoc | compare_folders.py:114-117 | one more relative path adds its pair exactly when its digests differ |
| CompareFolders.DifferencesError | compare_folders.py:109-113 | a failed loop names an unopenable file of the first relative path with one, all earlier ones opening |
| CompareFolders.OpenExactlyWhenCommonOpen | compare_folders.py:109-113 | the loop's files all open exactly when both files of every common-file position do |
| CompareFolders.DifferentExactly | compare_folders.py:109-117 | a pair is recorded exactly when it is a common-file position whose two digests differ |
| CompareFolders.ErrorAtCommon | compare_folders.py:101-113 | the file the loop fails on cannot be opened and belongs to a common-file position: its left file, or its right one when the left opened; every position earlier in sorted order opened on both sides |
| CompareFolders.LeftListed | compare_folders.py:97 | the left list holds exactly the paths of the left-only positions |
| CompareFolders.RightListed | compare_folders.py:97 | the right list holds exactly the paths of the right-only positions |
| CompareFolders.DifferentListed | compare_folders.py:107-117 | `filesDifferent` holds exactly the common-file pairs whose digests differ |
| CompareFolders.Verdict | compare_folders.py:125-126 | no difference is reported exactly when there is no one-sided position and no pair of differing digests |
| CompareFolders.CompareFolders | compare_folders.py:94-126 | the run fails exactly when a common file cannot be opened, and then names the first such file in sorted order; otherwise the unique lists and the left paths of `filesDifferent` are sorted, the lists hold exactly the one-sided paths and the differing pairs, and the verdict is exact |
| CompareFolders.BelowOneSidedNotListed | compare_folders.py:29-58 | no path strictly below a one-sided position is in that side's unique list, and no path at or below it is in the common-file list |
| CompareFolders.OneSidedNotOtherList | compare_folders.py:29-40 | a one-sided position, and every path below it, is not in the other side's unique list |
| CompareFolders.FunnyNotListed | compare_folders.py:29-58 | a name that is a file on one side and a directory on the other is in neither unique list nor the common-file list |
| CompareFolders.KindClashAlike | compare_folders.py:125-126 | a file and a directory of the same name are a clash, yet the two trees are alike, so no difference is reported |
| CompareFolders.MountedOpen | compare_folders.py:109-113 | when the file system holds the listed trees, every common file can be opened |
| CompareFolders.CopiesAlike | compare_folders.py:114-126 | a tree compared with a copy of itself opens every file and is found alike |

## Left out

- Argument parsing and the `os.path.isdir` checks (lines 83-92) are not modelled. They run before the compared part, and `CompareFolders.CompareFolders` takes the two directories as given.
- Every `print`, and `print_unique_files` with its '/' suffix for directories (lines 74-79, 95, 100, 108, 118-123), are not modelled. The model returns the lists the script prints from.
- The internals of `filecmp.dircmp` are not modelled: `os.listdir`, `os.stat`, the shallow comparison of `diff_files`, the ignore and hide lists, and following symbolic links. The model states the partition the script relies on, over listing trees whose nodes are regular files or directories.
- SHA-1 itself is a parameter `sha1` from content to a 20-byte digest. Its internals are not modelled.
- I/O failures other than a file that cannot be opened, such as a read failing mid-stream, are not modelled.
- The model assumes one snapshot of the file system in two places. First, `build_common_files` lists every common directory again through a new `dircmp` (line 54); `CommonFiles.Fresh` gives that second listing the same trees as the matching `subdirs` entry. Second, the file map `fs` does not change while the hashing loop runs. A common file removed after the listing is modelled: it is absent from `fs` and gives `CannotOpen`. A file whose bytes change after the listing is hashed from `fs`, so the content in the listing tree is never read.
- An exception from `open` ends the script. The model returns `CannotOpen` with the path instead.
- The file contents are held in memory; the model reads them in the same chunks but does not model memory use.
- CompareFolders.CompareFolders: promises strictly increasing unique lists and `filesDifferent` only when names are valid `os.listdir` names (not empty, no '/'), because with arbitrary names two positions can share a path.
- Names are Dafny strings, which hold Unicode scalar values only. A name `os.listdir` returns with a lone surrogate (undecodable bytes under the `surrogateescape` error handler) cannot be represented.
- Paths follow POSIX: `os.path.join` is `posixpath.join` and `os.path.normcase` leaves a path as it is. Windows separators and case folding are not modelled.
