/**
 * `find_unique_files`: the paths of the entries present on one side only.
 *
 * The function walks a `dircmp` and its `subdirs` depth first, appends
 * `parent + "/" + name` for every one-sided name to a fresh local list,
 * adds the lists the recursive calls return, and sorts. `FindUniqueFiles`
 * does the same and is proved against `UniqueLeft`, a pure recursive merge
 * of multisets, and its mirror image `UniqueRight`; these are in turn
 * characterised by the one-sided positions of the two trees and shown
 * free of duplicates.
 */
module UniqueFiles {
  import opened LexOrder
  import opened Paths
  import opened Trees
  import opened Filecmp

  /** The paths `find_unique_files(d)["left"]` holds, as a multiset. */
  function UniqueLeft(d: DirCmp): multiset<string>
    decreases d, 1, 0
  {
    multiset(Entries(d.left, d.leftOnly)) + UniqueLeftBelow(d, |d.subdirs|)
  }

  /** What the first `n` comparisons of `subdirs` contribute to the left list. */
  function UniqueLeftBelow(d: DirCmp, n: nat): multiset<string>
    requires n <= |d.subdirs|
    decreases d, 0, n
  {
    if n == 0 then multiset{} else UniqueLeftBelow(d, n - 1) + UniqueLeft(d.subdirs[n - 1])
  }

  /** The paths `find_unique_files(d)["right"]` holds, as a multiset. */
  function UniqueRight(d: DirCmp): multiset<string>
    decreases d, 1, 0
  {
    multiset(Entries(d.right, d.rightOnly)) + UniqueRightBelow(d, |d.subdirs|)
  }

  /** What the first `n` comparisons of `subdirs` contribute to the right list. */
  function UniqueRightBelow(d: DirCmp, n: nat): multiset<string>
    requires n <= |d.subdirs|
    decreases d, 0, n
  {
    if n == 0 then multiset{} else UniqueRightBelow(d, n - 1) + UniqueRight(d.subdirs[n - 1])
  }

  /**
   * Where `find_unique_files` writes the one-sided position `names` below
   * `root`: the directories on the way are joined by `os.path.join`
   * (`dircmp.subdirs`), the last name by `+ "/" +`.
   */
  function UniquePath(root: string, names: seq<string>): string
    requires |names| > 0
    decreases |names|
  {
    if |names| == 1 then root + "/" + names[0] else UniquePath(JoinPath(root, names[0]), names[1..])
  }

  /**
   * `find_unique_files`: the paths of the names present on one side only,
   * at this level and, recursively, in every comparison of `subdirs`; each
   * list sorted and holding exactly this level's entries and the
   * sub-results.
   */
  method FindUniqueFiles(d: DirCmp) returns (left: seq<string>, right: seq<string>)
    ensures Sorted(left) && multiset(left) == UniqueLeft(d)
    ensures Sorted(right) && multiset(right) == UniqueRight(d)
    decreases d, 1
  {
    left, right := [], [];
    if |d.leftOnly| != 0 {
      left := AppendEntries(left, d.left, d.leftOnly);
    }
    assert left == Entries(d.left, d.leftOnly);
    if |d.rightOnly| != 0 {
      right := AppendEntries(right, d.right, d.rightOnly);
    }
    assert right == Entries(d.right, d.rightOnly);
    left, right := AddSubResults(d, left, right);
    left := Sort(left);
    right := Sort(right);
  }

  /**
   * The loop over `dcmp.subdirs.values()` in `find_unique_files`: the
   * lists of every sub-comparison appended to the two lists.
   */
  method AddSubResults(d: DirCmp, left0: seq<string>, right0: seq<string>) returns (left: seq<string>, right: seq<string>)
    ensures multiset(left) == multiset(left0) + UniqueLeftBelow(d, |d.subdirs|)
    ensures multiset(right) == multiset(right0) + UniqueRightBelow(d, |d.subdirs|)
    decreases d, 0
  {
    left, right := left0, right0;
    for i := 0 to |d.subdirs|
      invariant multiset(left) == multiset(left0) + UniqueLeftBelow(d, i)
      invariant multiset(right) == multiset(right0) + UniqueRightBelow(d, i)
    {
      var subLeft, subRight := FindUniqueFiles(d.subdirs[i]);
      LeftBelowStep(d, i, multiset(left0), multiset(left), multiset(left + subLeft));
      RightBelowStep(d, i, multiset(right0), multiset(right), multiset(right + subRight));
      left := left + subLeft;
      right := right + subRight;
    }
  }

  /** Adding the left list of the `i`-th sub-comparison extends what the first `i` contributed by one. */
  lemma LeftBelowStep(d: DirCmp, i: nat, m0: multiset<string>, m: multiset<string>, next: multiset<string>)
    requires i < |d.subdirs|
    requires m == m0 + UniqueLeftBelow(d, i) && next == m + UniqueLeft(d.subdirs[i])
    ensures next == m0 + UniqueLeftBelow(d, i + 1)
  {
  }

  /** The same for the right lists. */
  lemma RightBelowStep(d: DirCmp, i: nat, m0: multiset<string>, m: multiset<string>, next: multiset<string>)
    requires i < |d.subdirs|
    requires m == m0 + UniqueRightBelow(d, i) && next == m + UniqueRight(d.subdirs[i])
    ensures next == m0 + UniqueRightBelow(d, i + 1)
  {
  }

  /** A path from the first `n` sub-comparisons comes from one of them. */
  lemma {:induction false} BelowWitness(d: DirCmp, n: nat, p: string) returns (i: nat)
    requires n <= |d.subdirs| && p in UniqueLeftBelow(d, n)
    ensures i < n && p in UniqueLeft(d.subdirs[i])
    decreases n
  {
    if p in UniqueLeft(d.subdirs[n - 1]) {
      i := n - 1;
    } else {
      i := BelowWitness(d, n - 1, p);
    }
  }

  /** What one of the first `n` sub-comparisons lists is among their paths. */
  lemma {:induction false} BelowHas(d: DirCmp, n: nat, i: nat, p: string)
    requires i < n <= |d.subdirs| && p in UniqueLeft(d.subdirs[i])
    ensures p in UniqueLeftBelow(d, n)
    decreases n
  {
    if i < n - 1 {
      BelowHas(d, n - 1, i, p);
    }
  }

  /** Below the `i`-th common directory, the left-only positions are those of `subdirs[i]`. */
  lemma LeftOnlyBelow(d: DirCmp, i: nat, tail: seq<string>)
    requires SubdirsDescribe(d) && i < |d.subdirs| && |tail| > 0
    ensures LeftOnlyAt(d.a, d.b, [d.commonDirs[i]] + tail) <==> LeftOnlyAt(d.subdirs[i].a, d.subdirs[i].b, tail)
    ensures UniquePath(d.left, [d.commonDirs[i]] + tail) == UniquePath(d.subdirs[i].left, tail)
  {
    var names := [d.commonDirs[i]] + tail;
    assert names[0] == d.commonDirs[i] && names[1..] == tail;
  }

  /** Every path of the left list is where the script writes some left-only position. */
  lemma {:induction false} UniqueLeftWitness(d: DirCmp, p: string) returns (names: seq<string>)
    requires Valid(d) && p in UniqueLeft(d)
    ensures LeftOnlyAt(d.a, d.b, names) && |names| > 0 && p == UniquePath(d.left, names)
    decreases d
  {
    var level := Entries(d.left, d.leftOnly);
    EntriesShape(d.left, d.leftOnly);
    if p in multiset(level) {
      var i :| 0 <= i < |level| && level[i] == p;
      names := [d.leftOnly[i]];
    } else {
      var i := BelowWitness(d, |d.subdirs|, p);
      var tail := UniqueLeftWitness(d.subdirs[i], p);
      LeftOnlyBelow(d, i, tail);
      names := [d.commonDirs[i]] + tail;
    }
  }

  /** The paths written at this level are in the left list. */
  lemma LevelHas(d: DirCmp, i: nat)
    requires i < |d.leftOnly|
    ensures d.left + "/" + d.leftOnly[i] in UniqueLeft(d)
  {
    EntriesShape(d.left, d.leftOnly);
    assert Entries(d.left, d.leftOnly)[i] == d.left + "/" + d.leftOnly[i];
  }

  /** A left-only position's first name: in `left_only` when it is the last, else a common directory. */
  lemma FirstName(d: DirCmp, names: seq<string>) returns (i: nat)
    requires Valid(d) && LeftOnlyAt(d.a, d.b, names)
    ensures |names| == 1 ==> i < |d.leftOnly| && d.leftOnly[i] == names[0]
    ensures |names| > 1 ==> i < |d.subdirs| && names == [d.commonDirs[i]] + names[1..] && Valid(d.subdirs[i])
  {
    if |names| == 1 {
      assert names[0] in d.leftOnly;
      i :| 0 <= i < |d.leftOnly| && d.leftOnly[i] == names[0];
    } else {
      assert names[0] in d.commonDirs;
      i :| 0 <= i < |d.commonDirs| && d.commonDirs[i] == names[0];
      assert names == [d.commonDirs[i]] + names[1..];
    }
  }

  /** Every left-only position is in the left list, where the script writes it. */
  lemma {:induction false} UniqueLeftHas(d: DirCmp, names: seq<string>)
    requires Valid(d) && LeftOnlyAt(d.a, d.b, names)
    ensures UniquePath(d.left, names) in UniqueLeft(d)
    decreases d
  {
    var i := FirstName(d, names);
    if |names| == 1 {
      LevelHas(d, i);
    } else {
      var tail := names[1..];
      LeftOnlyBelow(d, i, tail);
      UniqueLeftHas(d.subdirs[i], tail);
      BelowHas(d, |d.subdirs|, i, UniquePath(d.left, names));
    }
  }

  /**
   * A path is in the left list exactly when it is where the script writes
   * a left-only position: a name present on the left only, reached through
   * directories present on both sides.
   */
  lemma UniqueLeftPositions(d: DirCmp, p: string)
    requires Valid(d)
    ensures p in UniqueLeft(d) <==> exists names :: LeftOnlyAt(d.a, d.b, names) && p == UniquePath(d.left, names)
  {
    if p in UniqueLeft(d) {
      var names := UniqueLeftWitness(d, p);
    }
    if exists names :: LeftOnlyAt(d.a, d.b, names) && p == UniquePath(d.left, names) {
      var names :| LeftOnlyAt(d.a, d.b, names) && p == UniquePath(d.left, names);
      UniqueLeftHas(d, names);
    }
  }

  /** The right list is the left list of the mirrored comparison. */
  lemma {:induction false} UniqueRightMirror(d: DirCmp)
    ensures UniqueRight(d) == UniqueLeft(Mirror(d))
    decreases d
  {
    var m := Mirror(d);
    forall i {:trigger UniqueRight(d.subdirs[i])} | 0 <= i < |d.subdirs| ensures UniqueRight(d.subdirs[i]) == UniqueLeft(m.subdirs[i]) {
      MirrorSubdir(d, i);
      UniqueRightMirror(d.subdirs[i]);
    }
    RightLeftBelow(d, m, |d.subdirs|);
  }

  /** Sub-lists that agree position by position add up to the same total. */
  lemma {:induction false} RightLeftBelow(d: DirCmp, m: DirCmp, n: nat)
    requires n <= |d.subdirs| == |m.subdirs|
    requires forall i {:trigger UniqueRight(d.subdirs[i])} :: 0 <= i < |d.subdirs| ==> UniqueRight(d.subdirs[i]) == UniqueLeft(m.subdirs[i])
    ensures UniqueRightBelow(d, n) == UniqueLeftBelow(m, n)
  {
    if n > 0 {
      RightLeftBelow(d, m, n - 1);
    }
  }

  /** The same for the right list and the right-only positions, rooted at the right directory. */
  lemma UniqueRightPositions(d: DirCmp, p: string)
    requires Valid(d)
    ensures p in UniqueRight(d) <==> exists names :: RightOnlyAt(d.a, d.b, names) && p == UniquePath(d.right, names)
  {
    MirrorValid(d);
    UniqueRightMirror(d);
    UniqueLeftPositions(Mirror(d), p);
  }

  /** The names below `subdirs[i]` are valid when those of `d` are, and its path extends `d.left`. */
  lemma SubdirNames(d: DirCmp, i: nat)
    requires SubdirsDescribe(d) && i < |d.subdirs|
    requires ValidEntries(d.a)
    ensures ValidEntries(d.subdirs[i].a) && ValidName(d.commonDirs[i])
    ensures DirPrefix(d.subdirs[i].left) == DirPrefix(d.left) + d.commonDirs[i] + "/"
  {
    JoinedPrefix(d.left, d.commonDirs[i]);
  }

  /** Every path of the left list lies under the left directory (under `left + "/"` unless `left` already ends with a separator). */
  lemma UniqueLeftUnder(d: DirCmp)
    requires Valid(d) && ValidEntries(d.a)
    ensures AllUnder(UniqueLeft(d), DirPrefix(d.left))
  {
    forall p | p in UniqueLeft(d) ensures DirPrefix(d.left) <= p {
      PathUnder(d, p);
    }
  }

  /** One path of the left list lies under the left directory. */
  lemma {:induction false} PathUnder(d: DirCmp, p: string)
    requires Valid(d) && ValidEntries(d.a) && p in UniqueLeft(d)
    ensures DirPrefix(d.left) <= p
    decreases d, 1
  {
    var level := Entries(d.left, d.leftOnly);
    if p in multiset(level) {
      EntriesShape(d.left, d.leftOnly);
      var i :| 0 <= i < |level| && level[i] == p;
      EntryUnder(d.left, d.leftOnly[i]);
    } else {
      var k := BelowWitness(d, |d.subdirs|, p);
      SubdirUnder(d, k, p);
      UnderSubdir(DirPrefix(d.left), d.commonDirs[k], p);
    }
  }

  /** What `subdirs[k]` lists lies under the `k`-th common directory. */
  lemma {:induction false} SubdirUnder(d: DirCmp, k: nat, p: string)
    requires Valid(d) && ValidEntries(d.a)
    requires k < |d.subdirs| && p in UniqueLeft(d.subdirs[k])
    ensures DirPrefix(d.left) + d.commonDirs[k] + "/" <= p
    decreases d, 0
  {
    SubdirNames(d, k);
    PathUnder(d.subdirs[k], p);
  }

  /** Two different sub-comparisons list disjoint paths: a path of a later one is not in an earlier one. */
  lemma SubdirsDisjoint(d: DirCmp, k: nat, j: nat, p: string)
    requires Valid(d) && ValidEntries(d.a)
    requires k < j < |d.subdirs| && p in UniqueLeft(d.subdirs[j])
    ensures p !in UniqueLeft(d.subdirs[k])
  {
    SubdirUnder(d, j, p);
    SubdirNames(d, k);
    SubdirNames(d, j);
    if p in UniqueLeft(d.subdirs[k]) {
      SubdirUnder(d, k, p);
      SiblingsApart(DirPrefix(d.left), d.commonDirs[k], d.commonDirs[j], p);
    }
  }

  /** A path written at this level is not listed by any sub-comparison. */
  lemma LevelNotInSubdir(d: DirCmp, i: nat, k: nat)
    requires Valid(d) && ValidEntries(d.a)
    requires i < |d.leftOnly| && k < |d.subdirs|
    ensures d.left + "/" + d.leftOnly[i] !in UniqueLeft(d.subdirs[k])
  {
    var p := d.left + "/" + d.leftOnly[i];
    SubdirNames(d, k);
    assert d.leftOnly[i] in d.a;
    if p in UniqueLeft(d.subdirs[k]) {
      SubdirUnder(d, k, p);
      EntryNotUnderJoined(d.left, d.leftOnly[i], d.commonDirs[k]);
    }
  }

  /** The left list has no duplicates. */
  lemma UniqueLeftDistinct(d: DirCmp)
    requires Valid(d) && ValidEntries(d.a)
    ensures NoDuplicates(UniqueLeft(d))
  {
    forall p ensures UniqueLeft(d)[p] <= 1 {
      LeftAtMostOnce(d, p);
    }
  }

  /** A path is listed at most once on the left, counted at this level and in every sub-comparison. */
  lemma {:induction false} LeftAtMostOnce(d: DirCmp, p: string)
    requires Valid(d) && ValidEntries(d.a)
    ensures UniqueLeft(d)[p] <= 1
    decreases d
  {
    var level := Entries(d.left, d.leftOnly);
    assert multiset(level)[p] <= 1 by {
      EntriesDistinct(d.left, d.leftOnly);
    }
    forall k {:trigger UniqueLeft(d.subdirs[k])} | 0 <= k < |d.subdirs| ensures UniqueLeft(d.subdirs[k])[p] <= 1 {
      SubdirNames(d, k);
      LeftAtMostOnce(d.subdirs[k], p);
    }
    forall k, j {:trigger UniqueLeft(d.subdirs[k]), UniqueLeft(d.subdirs[j])}
      | 0 <= k < j < |d.subdirs| && p in UniqueLeft(d.subdirs[j])
      ensures p !in UniqueLeft(d.subdirs[k])
    {
      SubdirsDisjoint(d, k, j, p);
    }
    if p in multiset(level) {
      EntriesShape(d.left, d.leftOnly);
      var i :| 0 <= i < |level| && level[i] == p;
      forall k {:trigger UniqueLeft(d.subdirs[k])} | 0 <= k < |d.subdirs| ensures p !in UniqueLeft(d.subdirs[k]) {
        LevelNotInSubdir(d, i, k);
      }
      NoneBelow(d, |d.subdirs|, p);
    } else {
      BelowAtMostOnce(d, |d.subdirs|, p);
    }
  }

  /**
   * A path is listed at most once by the first `n` sub-comparisons together
   * when each lists it at most once and no two list it both.
   */
  lemma {:induction false} BelowAtMostOnce(d: DirCmp, n: nat, p: string)
    requires n <= |d.subdirs|
    requires forall k {:trigger UniqueLeft(d.subdirs[k])} :: 0 <= k < n ==> UniqueLeft(d.subdirs[k])[p] <= 1
    requires forall k, j {:trigger UniqueLeft(d.subdirs[k]), UniqueLeft(d.subdirs[j])} ::
      0 <= k < j < n && p in UniqueLeft(d.subdirs[j]) ==> p !in UniqueLeft(d.subdirs[k])
    ensures UniqueLeftBelow(d, n)[p] <= 1
    decreases n
  {
    if n > 0 {
      if p in UniqueLeft(d.subdirs[n - 1]) {
        NoneBelow(d, n - 1, p);
      } else {
        BelowAtMostOnce(d, n - 1, p);
      }
    }
  }

  /** A path none of the first `n` sub-comparisons lists is not among their paths. */
  lemma {:induction false} NoneBelow(d: DirCmp, n: nat, p: string)
    requires n <= |d.subdirs|
    requires forall k {:trigger UniqueLeft(d.subdirs[k])} :: 0 <= k < n ==> p !in UniqueLeft(d.subdirs[k])
    ensures p !in UniqueLeftBelow(d, n)
    decreases n
  {
    if n > 0 {
      NoneBelow(d, n - 1, p);
    }
  }

  /** The right list has no duplicates and lies under the right directory. */
  lemma UniqueRightDistinct(d: DirCmp)
    requires Valid(d) && ValidEntries(d.b)
    ensures NoDuplicates(UniqueRight(d))
    ensures AllUnder(UniqueRight(d), DirPrefix(d.right))
  {
    MirrorValid(d);
    UniqueRightMirror(d);
    UniqueLeftDistinct(Mirror(d));
    UniqueLeftUnder(Mirror(d));
  }

  /** Every left-only position is listed exactly once on the left. */
  lemma UniqueLeftOnce(d: DirCmp, names: seq<string>)
    requires Valid(d) && ValidEntries(d.a)
    requires LeftOnlyAt(d.a, d.b, names)
    ensures UniqueLeft(d)[UniquePath(d.left, names)] == 1
  {
    UniqueLeftHas(d, names);
    UniqueLeftDistinct(d);
  }

  /** The sorted left list `find_unique_files` returns is strictly ascending: no path appears twice. */
  lemma UniqueLeftStrict(d: DirCmp, left: seq<string>)
    requires Valid(d) && ValidEntries(d.a)
    requires Sorted(left) && multiset(left) == UniqueLeft(d)
    ensures StrictlySorted(left)
  {
    UniqueLeftDistinct(d);
    SortedDistinct(left);
  }

  /** The same for the right list. */
  lemma UniqueRightStrict(d: DirCmp, right: seq<string>)
    requires Valid(d) && ValidEntries(d.b)
    requires Sorted(right) && multiset(right) == UniqueRight(d)
    ensures StrictlySorted(right)
  {
    UniqueRightDistinct(d);
    SortedDistinct(right);
  }

  /** `find_unique_files` on a tree and an identical copy lists nothing on either side. */
  lemma SameTreesNoUniques(d: DirCmp)
    requires Valid(d) && d.a == d.b
    ensures UniqueLeft(d) == multiset{} && UniqueRight(d) == multiset{}
  {
    forall p ensures p !in UniqueLeft(d) && p !in UniqueRight(d) {
      if p in UniqueLeft(d) {
        var names := UniqueLeftWitness(d, p);
        NothingOneSidedInSameTree(d.a, names);
      }
      if p in UniqueRight(d) {
        MirrorValid(d);
        UniqueRightMirror(d);
        var names := UniqueLeftWitness(Mirror(d), p);
        NothingOneSidedInSameTree(d.a, names);
      }
    }
  }

  /**
   * When the root names a directory without a trailing separator, the
   * unique path of a position is the root, a separator and the position's
   * relative path.
   */
  lemma {:induction false} UniquePathPlain(root: string, names: seq<string>)
    requires |root| > 0 && root[|root| - 1] != '/'
    requires |names| > 0 && forall i :: 0 <= i < |names| ==> ValidName(names[i])
    ensures UniquePath(root, names) == root + "/" + Rel(names)
    decreases |names|
  {
    if |names| > 1 {
      var next := JoinPath(root, names[0]);
      assert next == root + "/" + names[0];
      JoinedPrefix(root, names[0]);
      UniquePathPlain(next, names[1..]);
    }
  }

  /**
   * For a root not ending in '/', sorting the written paths sorts the
   * positions by their relative paths.
   */
  lemma UniqueOrderIsRelOrder(root: string, xs: seq<string>, ys: seq<string>)
    requires |root| > 0 && root[|root| - 1] != '/'
    requires |xs| > 0 && forall i :: 0 <= i < |xs| ==> ValidName(xs[i])
    requires |ys| > 0 && forall i :: 0 <= i < |ys| ==> ValidName(ys[i])
    ensures Below(UniquePath(root, xs), UniquePath(root, ys)) <==> Below(Rel(xs), Rel(ys))
  {
    UniquePathPlain(root, xs);
    UniquePathPlain(root, ys);
    BelowUnderPrefix(root + "/", Rel(xs), Rel(ys));
  }

  /**
   * For a root ending in '/', the two orders part: an entry of the root is
   * written after a doubled separator, a deeper one through `os.path.join`
   * without it, so `b` sorts before `a/c` although `a/c` comes first by
   * relative path.
   */
  lemma TrailingSlashOrder()
    ensures UniquePath("x/", ["b"]) == "x//b" && UniquePath("x/", ["a", "c"]) == "x/a/c"
    ensures Below("x//b", "x/a/c") && !Below("x/a/c", "x//b")
    ensures Rel(["a", "c"]) == "a/c" && Below("a/c", "b") && !Below("b", "a/c")
  {
  }

  /** Where the script writes a position of valid names lies under its root. */
  lemma {:induction false} UniquePathUnder(root: string, names: seq<string>)
    requires |names| > 0 && forall i :: 0 <= i < |names| ==> ValidName(names[i])
    ensures DirPrefix(root) <= UniquePath(root, names)
    decreases |names|
  {
    if |names| == 1 {
      EntryUnder(root, names[0]);
    } else {
      var next := JoinPath(root, names[0]);
      JoinedPrefix(root, names[0]);
      assert forall i :: 0 <= i < |names| - 1 ==> names[1..][i] == names[i + 1];
      UniquePathUnder(next, names[1..]);
      UnderSubdir(DirPrefix(root), names[0], UniquePath(root, names));
    }
  }

  /**
   * A name that is a file on one side and a directory on the other is in
   * neither `left_only` nor `right_only`, and the script does not descend
   * into it: the path of a clashing position is not in the left list.
   */
  lemma {:induction false} FunnyNotLeft(d: DirCmp, names: seq<string>)
    requires Valid(d) && ValidEntries(d.a) && KindsDifferAt(d.a, d.b, names)
    ensures UniquePath(d.left, names) !in UniqueLeft(d)
    decreases d
  {
    if |names| == 1 {
      FunnyHereNotLeft(d, names[0]);
    } else {
      PositionNamesValid(d.a, d.b, names);
      ClassifiedOnlyBelowCommonDirs(d.a, d.b, names, 1);
      assert names[..1] == [names[0]];
      assert names[0] in d.commonDirs;
      var i :| 0 <= i < |d.commonDirs| && d.commonDirs[i] == names[0];
      var tail := names[1..];
      assert names == [d.commonDirs[i]] + tail;
      LeftOnlyBelow(d, i, tail);
      SubdirNames(d, i);
      FunnyNotLeft(d.subdirs[i], tail);
      assert forall j :: 0 <= j < |tail| ==> tail[j] == names[j + 1];
      UniquePathUnder(d.subdirs[i].left, tail);
      OnlyOwnSubdir(d, i, UniquePath(d.left, names));
    }
  }

  /** A clashing name of this level is not written to the left list. */
  lemma FunnyHereNotLeft(d: DirCmp, n: string)
    requires Valid(d) && ValidEntries(d.a) && KindsDiffer(d.a, d.b, n)
    ensures d.left + "/" + n !in UniqueLeft(d)
  {
    var p := d.left + "/" + n;
    var level := Entries(d.left, d.leftOnly);
    EntriesShape(d.left, d.leftOnly);
    assert n !in d.leftOnly;
    if p in multiset(level) {
      var i :| 0 <= i < |level| && level[i] == p;
      SameEntry(d.left, d.leftOnly[i], n);
      assert false;
    }
    forall k {:trigger UniqueLeft(d.subdirs[k])} | 0 <= k < |d.subdirs| ensures p !in UniqueLeft(d.subdirs[k]) {
      if p in UniqueLeft(d.subdirs[k]) {
        SubdirUnder(d, k, p);
        SubdirNames(d, k);
        EntryNotUnderJoined(d.left, n, d.commonDirs[k]);
      }
    }
    NoneBelow(d, |d.subdirs|, p);
  }

  /** A path under the `i`-th common directory is in the left list only if `subdirs[i]` lists it. */
  lemma OnlyOwnSubdir(d: DirCmp, i: nat, p: string)
    requires Valid(d) && ValidEntries(d.a) && i < |d.subdirs|
    requires DirPrefix(d.left) + d.commonDirs[i] + "/" <= p && p !in UniqueLeft(d.subdirs[i])
    ensures p !in UniqueLeft(d)
  {
    SubdirNames(d, i);
    NotAtLevel(d, d.commonDirs[i], p);
    forall k {:trigger UniqueLeft(d.subdirs[k])} | 0 <= k < |d.subdirs| ensures p !in UniqueLeft(d.subdirs[k]) {
      if k != i && p in UniqueLeft(d.subdirs[k]) {
        SubdirUnder(d, k, p);
        SubdirNames(d, k);
        SiblingsApart(DirPrefix(d.left), d.commonDirs[k], d.commonDirs[i], p);
        assert false;
      }
    }
    NoneBelow(d, |d.subdirs|, p);
  }

  /** A path under a sub-directory `s` of the left directory is not one written at this level. */
  lemma NotAtLevel(d: DirCmp, s: string, p: string)
    requires ListsDescribe(d) && ValidEntries(d.a) && ValidName(s)
    requires DirPrefix(d.left) + s + "/" <= p
    ensures p !in multiset(Entries(d.left, d.leftOnly))
  {
    var level := Entries(d.left, d.leftOnly);
    EntriesShape(d.left, d.leftOnly);
    if p in multiset(level) {
      var j :| 0 <= j < |level| && level[j] == p;
      assert d.leftOnly[j] in d.a;
      EntryNotUnderJoined(d.left, d.leftOnly[j], s);
    }
  }

  /**
   * The script does not descend into a directory present on the left only:
   * no path below a left-only position is in the left list.
   */
  lemma {:induction false} BelowLeftOnlyNotLeft(d: DirCmp, names: seq<string>, k: nat)
    requires Valid(d) && ValidEntries(d.a) && 0 < k < |names|
    requires forall i :: 0 <= i < |names| ==> ValidName(names[i])
    requires LeftOnlyAt(d.a, d.b, names[..k])
    ensures UniquePath(d.left, names) !in UniqueLeft(d)
    decreases d
  {
    var tail := names[1..];
    assert forall j :: 0 <= j < |tail| ==> tail[j] == names[j + 1];
    if k == 1 {
      assert names[..1] == [names[0]];
      var next := JoinPath(d.left, names[0]);
      JoinedPrefix(d.left, names[0]);
      UniquePathUnder(next, tail);
      OneSidedHereNotLeft(d, names[0], UniquePath(d.left, names));
    } else {
      assert names[..k][0] == names[0];
      assert names[0] in d.commonDirs;
      var i :| 0 <= i < |d.commonDirs| && d.commonDirs[i] == names[0];
      assert names[..k] == [d.commonDirs[i]] + tail[..k - 1];
      LeftOnlyBelow(d, i, tail[..k - 1]);
      assert names == [d.commonDirs[i]] + tail;
      LeftOnlyBelow(d, i, tail);
      SubdirNames(d, i);
      BelowLeftOnlyNotLeft(d.subdirs[i], tail, k - 1);
      UniquePathUnder(d.subdirs[i].left, tail);
      OnlyOwnSubdir(d, i, UniquePath(d.left, names));
    }
  }

  /** Nothing under the directory of a name present on the left only is in the left list. */
  lemma OneSidedHereNotLeft(d: DirCmp, n: string, p: string)
    requires Valid(d) && ValidEntries(d.a) && n in d.a && n !in d.b
    requires DirPrefix(d.left) + n + "/" <= p
    ensures p !in UniqueLeft(d)
  {
    NotAtLevel(d, n, p);
    forall k {:trigger UniqueLeft(d.subdirs[k])} | 0 <= k < |d.subdirs| ensures p !in UniqueLeft(d.subdirs[k]) {
      if p in UniqueLeft(d.subdirs[k]) {
        SubdirUnder(d, k, p);
        SubdirNames(d, k);
        SiblingsApart(DirPrefix(d.left), d.commonDirs[k], n, p);
        assert false;
      }
    }
    NoneBelow(d, |d.subdirs|, p);
  }

  /** The same on the right: no path below a right-only position is in the right list. */
  lemma BelowRightOnlyNotRight(d: DirCmp, names: seq<string>, k: nat)
    requires Valid(d) && ValidEntries(d.b) && 0 < k < |names|
    requires forall i :: 0 <= i < |names| ==> ValidName(names[i])
    requires RightOnlyAt(d.a, d.b, names[..k])
    ensures UniquePath(d.right, names) !in UniqueRight(d)
  {
    MirrorValid(d);
    UniqueRightMirror(d);
    BelowLeftOnlyNotLeft(Mirror(d), names, k);
  }

  /** The same for the right list: the path of a clashing position under the right directory is not in it. */
  lemma FunnyNotRight(d: DirCmp, names: seq<string>)
    requires Valid(d) && ValidEntries(d.b) && KindsDifferAt(d.a, d.b, names)
    ensures UniquePath(d.right, names) !in UniqueRight(d)
  {
    MirrorValid(d);
    UniqueRightMirror(d);
    KindsDifferSymmetric(d.a, d.b, names);
    FunnyNotLeft(Mirror(d), names);
  }

  /**
   * Different positions of valid names are written at different paths: the
   * path `find_unique_files` writes determines the position.
   */
  lemma {:induction false} UniquePathInjective(root: string, xs: seq<string>, ys: seq<string>)
    requires |xs| > 0 && forall i :: 0 <= i < |xs| ==> ValidName(xs[i])
    requires |ys| > 0 && forall i :: 0 <= i < |ys| ==> ValidName(ys[i])
    requires UniquePath(root, xs) == UniquePath(root, ys)
    ensures xs == ys
    decreases |xs|
  {
    if |xs| == 1 && |ys| == 1 {
      SameEntry(root, xs[0], ys[0]);
    } else if |xs| == 1 {
      EntryNotDeeper(root, xs[0], ys);
      assert false;
    } else if |ys| == 1 {
      EntryNotDeeper(root, ys[0], xs);
      assert false;
    } else {
      PathUnderFirst(root, xs);
      PathUnderFirst(root, ys);
      SiblingsApart(DirPrefix(root), xs[0], ys[0], UniquePath(root, xs));
      assert forall i :: 0 <= i < |xs| - 1 ==> xs[1..][i] == xs[i + 1];
      assert forall i :: 0 <= i < |ys| - 1 ==> ys[1..][i] == ys[i + 1];
      UniquePathInjective(JoinPath(root, xs[0]), xs[1..], ys[1..]);
      assert xs == [xs[0]] + xs[1..] && ys == [ys[0]] + ys[1..];
    }
  }

  /** A position below a directory is written under the directory of its first name. */
  lemma PathUnderFirst(root: string, names: seq<string>)
    requires |names| > 1 && forall i :: 0 <= i < |names| ==> ValidName(names[i])
    ensures DirPrefix(root) + names[0] + "/" <= UniquePath(root, names)
  {
    JoinedPrefix(root, names[0]);
    assert forall i :: 0 <= i < |names| - 1 ==> names[1..][i] == names[i + 1];
    UniquePathUnder(JoinPath(root, names[0]), names[1..]);
  }

  /** An entry written at this level is not where a deeper position is written. */
  lemma EntryNotDeeper(root: string, n: string, names: seq<string>)
    requires ValidName(n) && |names| > 1 && forall i :: 0 <= i < |names| ==> ValidName(names[i])
    ensures root + "/" + n != UniquePath(root, names)
  {
    PathUnderFirst(root, names);
    EntryNotUnderJoined(root, n, names[0]);
  }

  /** A path of valid names in the left list is that of a left-only position. */
  lemma ListedIsPosition(d: DirCmp, names: seq<string>)
    requires Valid(d) && ValidEntries(d.a)
    requires |names| > 0 && forall i :: 0 <= i < |names| ==> ValidName(names[i])
    requires UniquePath(d.left, names) in UniqueLeft(d)
    ensures LeftOnlyAt(d.a, d.b, names)
  {
    var other := UniqueLeftWitness(d, UniquePath(d.left, names));
    PositionNamesValid(d.a, d.b, other);
    UniquePathInjective(d.left, names, other);
  }

  /** The same on the right: a path of valid names in the right list is that of a right-only position. */
  lemma RightListedIsPosition(d: DirCmp, names: seq<string>)
    requires Valid(d) && ValidEntries(d.b)
    requires |names| > 0 && forall i :: 0 <= i < |names| ==> ValidName(names[i])
    requires UniquePath(d.right, names) in UniqueRight(d)
    ensures RightOnlyAt(d.a, d.b, names)
  {
    MirrorValid(d);
    UniqueRightMirror(d);
    ListedIsPosition(Mirror(d), names);
  }
}
