/**
 * `build_common_files`: the paths of the regular files present on both
 * sides, written below the left directory.
 *
 * Unlike `find_unique_files`, the function does not use `dircmp.subdirs`:
 * for every common directory `s` it builds a fresh `dircmp` of
 * `left + "/" + s` and `right + "/" + s` and recurses into it, then
 * appends what the call returns one path at a time and sorts.
 * `BuildCommonFiles` is proved against `CommonFilesOf`, a pure recursive
 * merge of multisets, which is characterised by the common-file positions
 * of the two trees and shown free of duplicates.
 */
module CommonFiles {
  import opened LexOrder
  import opened Paths
  import opened Trees
  import opened Filecmp

  /**
   * What `build_common_files` relies on at every depth: the lists of `d`
   * describe its two trees, and the `i`-th entry of `subdirs` compares the
   * trees of the `i`-th common directory. Paths are not constrained.
   */
  ghost predicate Shaped(d: DirCmp)
    decreases d
  {
    ListsDescribe(d) && |d.subdirs| == |d.commonDirs| &&
    (forall i :: 0 <= i < |d.subdirs| ==>
      BothDirs(d.a, d.b, d.commonDirs[i]) &&
      d.subdirs[i].a == d.a[d.commonDirs[i]].entries &&
      d.subdirs[i].b == d.b[d.commonDirs[i]].entries) &&
    forall i {:trigger Shaped(d.subdirs[i])} :: 0 <= i < |d.subdirs| ==> Shaped(d.subdirs[i])
  }

  /** Every comparison `dircmp` builds is shaped. */
  lemma {:induction false} ValidShaped(d: DirCmp)
    requires Valid(d)
    ensures Shaped(d)
    decreases d
  {
    forall i | 0 <= i < |d.subdirs| ensures Shaped(d.subdirs[i]) {
      ValidShaped(d.subdirs[i]);
    }
  }

  /**
   * `dircmp(dcmp.left + "/" + s, dcmp.right + "/" + s)` for the `i`-th
   * common directory `s`: it compares the same two trees as `subdirs[i]`,
   * so it has the same lists, at the two paths built with `+ "/" +`. Its
   * own `subdirs` are those of `subdirs[i]`, still named with
   * `os.path.join`; `build_common_files` never reads their paths.
   */
  function Fresh(d: DirCmp, i: nat): (sub: DirCmp)
    requires Shaped(d) && i < |d.commonDirs|
    ensures sub.left == d.left + "/" + d.commonDirs[i] && sub.right == d.right + "/" + d.commonDirs[i]
    ensures sub.a == d.a[d.commonDirs[i]].entries && sub.b == d.b[d.commonDirs[i]].entries
    ensures sub.commonFiles == d.subdirs[i].commonFiles && sub.commonDirs == d.subdirs[i].commonDirs
    ensures sub.subdirs == d.subdirs[i].subdirs
    ensures Shaped(sub)
  {
    var s := d.commonDirs[i];
    Renamed(d.subdirs[i], d.left + "/" + s, d.right + "/" + s);
    d.subdirs[i].(left := d.left + "/" + s, right := d.right + "/" + s)
  }

  /** Being shaped does not depend on the two paths. */
  lemma Renamed(d: DirCmp, left: string, right: string)
    requires Shaped(d)
    ensures Shaped(d.(left := left, right := right))
  {
    var e := d.(left := left, right := right);
    assert e.subdirs == d.subdirs && e.a == d.a && e.b == d.b;
    assert ListsDescribe(e);
  }

  /** How many sub-comparisons are paired with a common directory name (all of them, when shaped). */
  function Paired(d: DirCmp): (n: nat)
    ensures n <= |d.subdirs| && n <= |d.commonDirs|
    ensures |d.subdirs| == |d.commonDirs| ==> n == |d.commonDirs|
  {
    if |d.subdirs| < |d.commonDirs| then |d.subdirs| else |d.commonDirs|
  }

  /** The paths `build_common_files` returns for the comparison `d` of the directory `left`, as a multiset. */
  function CommonFilesOf(left: string, d: DirCmp): multiset<string>
    decreases d, 1, 0
  {
    multiset(Entries(left, d.commonFiles)) + CommonFilesBelow(left, d, Paired(d))
  }

  /** What the recursive calls for the first `n` common directories contribute. */
  function CommonFilesBelow(left: string, d: DirCmp, n: nat): multiset<string>
    requires n <= |d.subdirs| && n <= |d.commonDirs|
    decreases d, 0, n
  {
    if n == 0 then multiset{}
    else CommonFilesBelow(left, d, n - 1) + CommonFilesOf(left + "/" + d.commonDirs[n - 1], d.subdirs[n - 1])
  }

  /** The result only depends on the path it is given, the two name lists and the sub-comparisons. */
  lemma SameLists(left: string, d: DirCmp, e: DirCmp)
    requires d.commonFiles == e.commonFiles && d.commonDirs == e.commonDirs && d.subdirs == e.subdirs
    ensures CommonFilesOf(left, d) == CommonFilesOf(left, e)
  {
    SameListsBelow(left, d, e, Paired(d));
  }

  lemma {:induction false} SameListsBelow(left: string, d: DirCmp, e: DirCmp, n: nat)
    requires d.commonDirs == e.commonDirs && d.subdirs == e.subdirs
    requires n <= |d.subdirs| && n <= |d.commonDirs|
    ensures CommonFilesBelow(left, d, n) == CommonFilesBelow(left, e, n)
  {
    if n > 0 {
      SameListsBelow(left, d, e, n - 1);
    }
  }

  /**
   * `build_common_files`: the paths of the common files at this level and,
   * recursively, below every common directory, sorted.
   */
  method BuildCommonFiles(d: DirCmp) returns (commonFiles: seq<string>)
    requires Shaped(d)
    ensures Sorted(commonFiles) && multiset(commonFiles) == CommonFilesOf(d.left, d)
    decreases Dir(d.a), 1
  {
    commonFiles := [];
    commonFiles := AppendEntries(commonFiles, d.left, d.commonFiles);
    assert commonFiles == Entries(d.left, d.commonFiles);
    commonFiles := AddSubCommonFiles(d, commonFiles);
    commonFiles := Sort(commonFiles);
  }

  /**
   * The loop over `dcmp.common_dirs` in `build_common_files`: each
   * recursive result appended path by path.
   */
  method AddSubCommonFiles(d: DirCmp, files0: seq<string>) returns (files: seq<string>)
    requires Shaped(d)
    ensures multiset(files) == multiset(files0) + CommonFilesBelow(d.left, d, |d.commonDirs|)
    decreases Dir(d.a), 0, 1
  {
    files := files0;
    ghost var m0 := multiset(files0);
    var i := 0;
    while i < |d.commonDirs|
      invariant i <= |d.commonDirs| == |d.subdirs|
      invariant multiset(files) == m0 + CommonFilesBelow(d.left, d, i)
    {
      var next := AddSubdir(d, i, files);
      BelowStep(d.left, d, i, m0, multiset(files), multiset(next));
      files, i := next, i + 1;
    }
  }

  /** Appending the paths of the `i`-th recursive call extends what the first `i` calls contributed by one. */
  lemma BelowStep(left: string, d: DirCmp, i: nat, m0: multiset<string>, m: multiset<string>, next: multiset<string>)
    requires i < |d.subdirs| && i < |d.commonDirs|
    requires m == m0 + CommonFilesBelow(left, d, i)
    requires next == m + CommonFilesOf(left + "/" + d.commonDirs[i], d.subdirs[i])
    ensures next == m0 + CommonFilesBelow(left, d, i + 1)
  {
  }

  /**
   * One turn of that loop: `build_common_files` of a fresh `dircmp` of the
   * `i`-th common directory, its result appended to `files0`.
   */
  method AddSubdir(d: DirCmp, i: nat, files0: seq<string>) returns (files: seq<string>)
    requires Shaped(d) && i < |d.commonDirs|
    ensures multiset(files) == multiset(files0) + CommonFilesOf(d.left + "/" + d.commonDirs[i], d.subdirs[i])
    decreases Dir(d.a), 0, 0
  {
    var sub := Fresh(d, i);
    var subCommonFiles := BuildCommonFiles(sub);
    SameLists(sub.left, sub, d.subdirs[i]);
    files := AppendAll(files0, subCommonFiles);
  }

  /** The loop `for filename in subCommonFiles: commonFiles.append(filename)`. */
  method AppendAll(files: seq<string>, more: seq<string>) returns (r: seq<string>)
    ensures r == files + more
  {
    r := files;
    for j := 0 to |more|
      invariant r == files + more[..j]
    {
      r := r + [more[j]];
    }
    assert more[..|more|] == more;
  }

  /** A path from the first `n` recursive calls comes from one of them. */
  lemma {:induction false} CommonBelowWitness(left: string, d: DirCmp, n: nat, p: string) returns (i: nat)
    requires n <= |d.subdirs| && n <= |d.commonDirs| && p in CommonFilesBelow(left, d, n)
    ensures i < n && p in CommonFilesOf(left + "/" + d.commonDirs[i], d.subdirs[i])
    decreases n
  {
    if p in CommonFilesOf(left + "/" + d.commonDirs[n - 1], d.subdirs[n - 1]) {
      i := n - 1;
    } else {
      i := CommonBelowWitness(left, d, n - 1, p);
    }
  }

  /** What one of the first `n` recursive calls returns is among their paths. */
  lemma {:induction false} CommonBelowHas(left: string, d: DirCmp, n: nat, i: nat, p: string)
    requires i < n <= |d.subdirs| && n <= |d.commonDirs|
    requires p in CommonFilesOf(left + "/" + d.commonDirs[i], d.subdirs[i])
    ensures p in CommonFilesBelow(left, d, n)
    decreases n
  {
    var rest, last := CommonFilesBelow(left, d, n - 1), CommonFilesOf(left + "/" + d.commonDirs[n - 1], d.subdirs[n - 1]);
    assert CommonFilesBelow(left, d, n) == rest + last;
    if i < n - 1 {
      CommonBelowHas(left, d, n - 1, i, p);
      assert p in rest;
    } else {
      assert p in last;
    }
  }

  /** Below the `i`-th common directory, the common-file positions are those of its comparison. */
  lemma CommonFileBelow(left: string, d: DirCmp, i: nat, tail: seq<string>)
    requires Shaped(d) && i < |d.commonDirs| && |tail| > 0
    ensures CommonFileAt(d.a, d.b, [d.commonDirs[i]] + tail) <==> CommonFileAt(d.subdirs[i].a, d.subdirs[i].b, tail)
    ensures left + "/" + Rel([d.commonDirs[i]] + tail) == left + "/" + d.commonDirs[i] + "/" + Rel(tail)
  {
    var names := [d.commonDirs[i]] + tail;
    assert names[0] == d.commonDirs[i] && names[1..] == tail;
  }

  /** Every listed path is `left`, a separator and the relative path of a common file. */
  lemma {:induction false} CommonFilesWitness(left: string, d: DirCmp, p: string) returns (names: seq<string>)
    requires Shaped(d) && p in CommonFilesOf(left, d)
    ensures CommonFileAt(d.a, d.b, names) && p == left + "/" + Rel(names)
    decreases d
  {
    var level := Entries(left, d.commonFiles);
    EntriesShape(left, d.commonFiles);
    if p in multiset(level) {
      var i :| 0 <= i < |level| && level[i] == p;
      assert d.commonFiles[i] in d.commonFiles;
      names := [d.commonFiles[i]];
    } else {
      var i := CommonBelowWitness(left, d, |d.commonDirs|, p);
      var tail := CommonFilesWitness(left + "/" + d.commonDirs[i], d.subdirs[i], p);
      CommonFileBelow(left, d, i, tail);
      names := [d.commonDirs[i]] + tail;
    }
  }

  /** The path written at this level for the `i`-th common file is listed. */
  lemma CommonLevelHas(left: string, d: DirCmp, i: nat)
    requires i < |d.commonFiles|
    ensures left + "/" + d.commonFiles[i] in CommonFilesOf(left, d)
  {
    EntriesShape(left, d.commonFiles);
    assert Entries(left, d.commonFiles)[i] == left + "/" + d.commonFiles[i];
  }

  /** A common file's first name: in `common_files` when it is the last, else in `common_dirs`. */
  lemma CommonFirstName(d: DirCmp, names: seq<string>) returns (i: nat)
    requires ListsDescribe(d) && CommonFileAt(d.a, d.b, names)
    ensures |names| == 1 ==> i < |d.commonFiles| && d.commonFiles[i] == names[0] && Rel(names) == names[0]
    ensures |names| > 1 ==> i < |d.commonDirs| && names == [d.commonDirs[i]] + names[1..]
  {
    if |names| == 1 {
      assert names[0] in d.commonFiles;
      i :| 0 <= i < |d.commonFiles| && d.commonFiles[i] == names[0];
    } else {
      assert names[0] in d.commonDirs;
      i :| 0 <= i < |d.commonDirs| && d.commonDirs[i] == names[0];
      assert names == [d.commonDirs[i]] + names[1..];
    }
  }

  /** Every common file is listed, below `left`. */
  lemma {:induction false} CommonFilesHas(left: string, d: DirCmp, names: seq<string>)
    requires Shaped(d) && CommonFileAt(d.a, d.b, names)
    ensures left + "/" + Rel(names) in CommonFilesOf(left, d)
    decreases d
  {
    var i := CommonFirstName(d, names);
    if |names| == 1 {
      CommonLevelHas(left, d, i);
    } else {
      var tail := names[1..];
      CommonFileBelow(left, d, i, tail);
      CommonFilesHas(left + "/" + d.commonDirs[i], d.subdirs[i], tail);
      CommonBelowHas(left, d, |d.commonDirs|, i, left + "/" + Rel(names));
    }
  }

  /**
   * A path is returned by `build_common_files` exactly when it is the left
   * directory, a separator and the relative path of a position that holds
   * a regular file on both sides.
   */
  lemma CommonFilesPositions(left: string, d: DirCmp, p: string)
    requires Shaped(d)
    ensures p in CommonFilesOf(left, d) <==> exists names :: CommonFileAt(d.a, d.b, names) && p == left + "/" + Rel(names)
  {
    if p in CommonFilesOf(left, d) {
      var names := CommonFilesWitness(left, d, p);
    }
    if exists names :: CommonFileAt(d.a, d.b, names) && p == left + "/" + Rel(names) {
      var names :| CommonFileAt(d.a, d.b, names) && p == left + "/" + Rel(names);
      CommonFilesHas(left, d, names);
    }
  }

  /** The names below the `i`-th common directory are valid when those of `d` are. */
  lemma CommonSubdirNames(d: DirCmp, i: nat)
    requires Shaped(d) && i < |d.commonDirs| && ValidEntries(d.a)
    ensures ValidEntries(d.subdirs[i].a) && ValidName(d.commonDirs[i])
  {
  }

  /** What the recursive call for the `k`-th common directory returns lies under that directory. */
  lemma CommonSubdirUnder(left: string, d: DirCmp, k: nat, p: string)
    requires Shaped(d) && k < |d.commonDirs| && p in CommonFilesOf(left + "/" + d.commonDirs[k], d.subdirs[k])
    ensures left + "/" + d.commonDirs[k] + "/" <= p
  {
    var names := CommonFilesWitness(left + "/" + d.commonDirs[k], d.subdirs[k], p);
  }

  /** Two different common directories contribute disjoint paths. */
  lemma CommonSubdirsDisjoint(left: string, d: DirCmp, k: nat, j: nat, p: string)
    requires Shaped(d) && ValidEntries(d.a)
    requires k < j < |d.commonDirs| && p in CommonFilesOf(left + "/" + d.commonDirs[k], d.subdirs[k])
    ensures p !in CommonFilesOf(left + "/" + d.commonDirs[j], d.subdirs[j])
  {
    CommonSubdirUnder(left, d, k, p);
    CommonSubdirNames(d, k);
    CommonSubdirNames(d, j);
    if p in CommonFilesOf(left + "/" + d.commonDirs[j], d.subdirs[j]) {
      CommonSubdirUnder(left, d, j, p);
      SiblingsApart(left + "/", d.commonDirs[k], d.commonDirs[j], p);
    }
  }

  /** A path written at this level is not returned by any recursive call. */
  lemma CommonLevelNotInSubdir(left: string, d: DirCmp, i: nat, k: nat)
    requires Shaped(d) && ValidEntries(d.a)
    requires i < |d.commonFiles| && k < |d.commonDirs|
    ensures left + "/" + d.commonFiles[i] !in CommonFilesOf(left + "/" + d.commonDirs[k], d.subdirs[k])
  {
    var p := left + "/" + d.commonFiles[i];
    assert d.commonFiles[i] in d.commonFiles;
    if p in CommonFilesOf(left + "/" + d.commonDirs[k], d.subdirs[k]) {
      CommonSubdirUnder(left, d, k, p);
      CommonSubdirNames(d, k);
      NameNotUnderName(left + "/", d.commonFiles[i], d.commonDirs[k]);
    }
  }

  /** `build_common_files` lists no path twice. */
  lemma {:induction false} CommonFilesDistinct(left: string, d: DirCmp)
    requires Shaped(d) && ValidEntries(d.a)
    ensures NoDuplicates(CommonFilesOf(left, d))
    decreases d, 1
  {
    var level := Entries(left, d.commonFiles);
    var below := CommonFilesBelow(left, d, |d.commonDirs|);
    BelowDistinct(left, d, |d.commonDirs|);
    EntriesDistinct(left, d.commonFiles);
    EntriesShape(left, d.commonFiles);
    forall p | p in below ensures p !in multiset(level) {
      var k := CommonBelowWitness(left, d, |d.commonDirs|, p);
      if p in multiset(level) {
        var i :| 0 <= i < |level| && level[i] == p;
        CommonLevelNotInSubdir(left, d, i, k);
      }
    }
    DisjointUnion(multiset(level), below);
  }

  lemma {:induction false} BelowDistinct(left: string, d: DirCmp, n: nat)
    requires Shaped(d) && ValidEntries(d.a)
    requires n <= |d.commonDirs|
    ensures NoDuplicates(CommonFilesBelow(left, d, n))
    decreases d, 0, n
  {
    if n > 0 {
      var sub := left + "/" + d.commonDirs[n - 1];
      var m1, m2 := CommonFilesBelow(left, d, n - 1), CommonFilesOf(sub, d.subdirs[n - 1]);
      assert NoDuplicates(m2) by {
        CommonSubdirNames(d, n - 1);
        CommonFilesDistinct(sub, d.subdirs[n - 1]);
      }
      assert NoDuplicates(m1) by {
        BelowDistinct(left, d, n - 1);
      }
      assert forall p :: p in m2 ==> p !in m1 by {
        LastDisjoint(left, d, n - 1);
      }
      DisjointUnion(m1, m2);
    }
  }

  /** The recursive call for the `k`-th common directory returns nothing the calls before it returned. */
  lemma LastDisjoint(left: string, d: DirCmp, k: nat)
    requires Shaped(d) && ValidEntries(d.a)
    requires k < |d.commonDirs|
    ensures forall p :: p in CommonFilesOf(left + "/" + d.commonDirs[k], d.subdirs[k]) ==> p !in CommonFilesBelow(left, d, k)
  {
    forall p | p in CommonFilesOf(left + "/" + d.commonDirs[k], d.subdirs[k]) ensures p !in CommonFilesBelow(left, d, k) {
      if p in CommonFilesBelow(left, d, k) {
        var j := CommonBelowWitness(left, d, k, p);
        CommonSubdirsDisjoint(left, d, j, k, p);
      }
    }
  }

  /** Every common file is listed exactly once. */
  lemma CommonFileOnce(left: string, d: DirCmp, names: seq<string>)
    requires Shaped(d) && ValidEntries(d.a)
    requires CommonFileAt(d.a, d.b, names)
    ensures CommonFilesOf(left, d)[left + "/" + Rel(names)] == 1
  {
    CommonFilesHas(left, d, names);
    CommonFilesDistinct(left, d);
  }
}
