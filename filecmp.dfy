/**
 * `filecmp.dircmp` as the comparison script uses it: the partition of two
 * directory listings by name, and the comparisons of the common
 * sub-directories.
 *
 * Each list is sorted, as `dircmp` builds it from `sorted(os.listdir(...))`.
 * Common names are split by the kind of the two entries: both directories,
 * both regular files, or different kinds ("funny"). `subdirs` holds, in the
 * order of `common_dirs`, a comparison of each pair of common
 * sub-directories, named with `os.path.join`.
 */
module Filecmp {
  import opened LexOrder
  import opened Paths
  import opened Trees

  /**
   * A `dircmp` object: the two directory paths, the two listings as trees,
   * the five name lists and `subdirs.values()` in order.
   */
  datatype DirCmp = DirCmp(
    left: string, right: string,
    a: map<string, Node>, b: map<string, Node>,
    leftOnly: seq<string>, rightOnly: seq<string>,
    commonDirs: seq<string>, commonFiles: seq<string>, commonFunny: seq<string>,
    subdirs: seq<DirCmp>)

  /** The five lists of `d` are sorted and partition its two listings by name and kind. */
  ghost predicate ListsDescribe(d: DirCmp)
  {
    StrictlySorted(d.leftOnly) && StrictlySorted(d.rightOnly) &&
    StrictlySorted(d.commonDirs) && StrictlySorted(d.commonFiles) && StrictlySorted(d.commonFunny) &&
    (forall n :: n in d.leftOnly <==> n in d.a && n !in d.b) &&
    (forall n :: n in d.rightOnly <==> n in d.b && n !in d.a) &&
    (forall n :: n in d.commonDirs <==> BothDirs(d.a, d.b, n)) &&
    (forall n :: n in d.commonFiles <==> BothFiles(d.a, d.b, n)) &&
    (forall n :: n in d.commonFunny <==> KindsDiffer(d.a, d.b, n))
  }

  /** Every name of `common_dirs` is a directory on both sides. */
  ghost predicate DirsListed(d: DirCmp)
  {
    forall k :: 0 <= k < |d.commonDirs| ==> BothDirs(d.a, d.b, d.commonDirs[k])
  }

  /**
   * `subdirs` compares, position by position, the sub-directories named by
   * `common_dirs`, each path made with `os.path.join`.
   */
  ghost predicate SubdirsDescribe(d: DirCmp)
  {
    |d.subdirs| == |d.commonDirs| &&
    forall i :: 0 <= i < |d.subdirs| ==>
      BothDirs(d.a, d.b, d.commonDirs[i]) &&
      d.subdirs[i].left == JoinPath(d.left, d.commonDirs[i]) &&
      d.subdirs[i].right == JoinPath(d.right, d.commonDirs[i]) &&
      d.subdirs[i].a == d.a[d.commonDirs[i]].entries &&
      d.subdirs[i].b == d.b[d.commonDirs[i]].entries
  }

  /** What `dircmp` guarantees of itself at every depth. */
  ghost predicate Valid(d: DirCmp)
    decreases d
  {
    ListsDescribe(d) && SubdirsDescribe(d) &&
    forall i {:trigger Valid(d.subdirs[i])} :: 0 <= i < |d.subdirs| ==> Valid(d.subdirs[i])
  }

  /** The five sorted name lists of `dircmp(left, right)`, before `subdirs` is filled in. */
  function Lists(left: string, right: string, a: map<string, Node>, b: map<string, Node>): (d: DirCmp)
    ensures d.left == left && d.right == right && d.a == a && d.b == b && d.subdirs == []
    ensures ListsDescribe(d) && DirsListed(d)
  {
    DirCmp(left, right, a, b,
      SortedNames(a.Keys - b.Keys), SortedNames(b.Keys - a.Keys),
      SortedNames(CommonDirNames(a, b)), SortedNames(CommonFileNames(a, b)), SortedNames(FunnyNames(a, b)),
      [])
  }

  /** The names of `common_dirs`, before sorting. */
  function CommonDirNames(a: map<string, Node>, b: map<string, Node>): (s: set<string>)
    ensures forall n :: n in s <==> BothDirs(a, b, n)
  {
    set n | n in a && BothDirs(a, b, n)
  }

  /** The names of `common_files`, before sorting. */
  function CommonFileNames(a: map<string, Node>, b: map<string, Node>): (s: set<string>)
    ensures forall n :: n in s <==> BothFiles(a, b, n)
  {
    set n | n in a && BothFiles(a, b, n)
  }

  /** The names of `common_funny`, before sorting. */
  function FunnyNames(a: map<string, Node>, b: map<string, Node>): (s: set<string>)
    ensures forall n :: n in s <==> KindsDiffer(a, b, n)
  {
    set n | n in a && KindsDiffer(a, b, n)
  }

  /** `dircmp(left, right)` over the listings `a` of `left` and `b` of `right`. */
  function Compare(left: string, right: string, a: map<string, Node>, b: map<string, Node>): (d: DirCmp)
    ensures d.left == left && d.right == right && d.a == a && d.b == b
    ensures ListsDescribe(d) && DirsListed(d) && SubdirsDescribe(d) && Valid(d)
    decreases Dir(a), 1
  {
    var level := Lists(left, right, a, b);
    var subdirs := SubComparisons(level);
    LevelValid(level, subdirs);
    level.(subdirs := subdirs)
  }

  /** `subdirs`: a comparison of each pair of common sub-directories, in the order of `common_dirs`. */
  function SubComparisons(level: DirCmp): (subdirs: seq<DirCmp>)
    requires DirsListed(level)
    ensures |subdirs| == |level.commonDirs|
    ensures forall i :: 0 <= i < |subdirs| ==>
      subdirs[i].left == JoinPath(level.left, level.commonDirs[i]) &&
      subdirs[i].right == JoinPath(level.right, level.commonDirs[i]) &&
      subdirs[i].a == level.a[level.commonDirs[i]].entries &&
      subdirs[i].b == level.b[level.commonDirs[i]].entries &&
      Valid(subdirs[i])
    decreases Dir(level.a), 0
  {
    var dirs := level.commonDirs;
    seq(|dirs|, i requires 0 <= i < |dirs| =>
      Compare(JoinPath(level.left, dirs[i]), JoinPath(level.right, dirs[i]), level.a[dirs[i]].entries, level.b[dirs[i]].entries))
  }

  /** Filling in `subdirs` with valid comparisons of the common sub-directories gives a valid comparison. */
  lemma LevelValid(level: DirCmp, subdirs: seq<DirCmp>)
    requires ListsDescribe(level) && DirsListed(level)
    requires |subdirs| == |level.commonDirs|
    requires forall i :: 0 <= i < |subdirs| ==>
      subdirs[i].left == JoinPath(level.left, level.commonDirs[i]) &&
      subdirs[i].right == JoinPath(level.right, level.commonDirs[i]) &&
      subdirs[i].a == level.a[level.commonDirs[i]].entries &&
      subdirs[i].b == level.b[level.commonDirs[i]].entries &&
      Valid(subdirs[i])
    ensures ListsDescribe(level.(subdirs := subdirs)) && DirsListed(level.(subdirs := subdirs))
    ensures SubdirsDescribe(level.(subdirs := subdirs)) && Valid(level.(subdirs := subdirs))
  {
  }

  /**
   * The same comparison seen from the other side, at every depth: what
   * `dircmp(right, left)` holds.
   */
  function Mirror(d: DirCmp): (m: DirCmp)
    ensures m.left == d.right && m.right == d.left && m.a == d.b && m.b == d.a
    ensures m.leftOnly == d.rightOnly && m.rightOnly == d.leftOnly
    ensures m.commonDirs == d.commonDirs && m.commonFiles == d.commonFiles && m.commonFunny == d.commonFunny
    ensures |m.subdirs| == |d.subdirs|
    decreases d
  {
    DirCmp(d.right, d.left, d.b, d.a, d.rightOnly, d.leftOnly, d.commonDirs, d.commonFiles, d.commonFunny,
      seq(|d.subdirs|, i requires 0 <= i < |d.subdirs| => Mirror(d.subdirs[i])))
  }

  /** The sub-comparisons of the mirror are the mirrors of the sub-comparisons. */
  lemma MirrorSubdir(d: DirCmp, i: nat)
    requires i < |d.subdirs|
    ensures Mirror(d).subdirs[i] == Mirror(d.subdirs[i])
  {
  }

  /** Mirroring keeps a comparison valid. */
  lemma {:induction false} MirrorValid(d: DirCmp)
    requires Valid(d)
    ensures Valid(Mirror(d))
    decreases d
  {
    var m := Mirror(d);
    forall i | 0 <= i < |m.subdirs| ensures Valid(m.subdirs[i]) && m.subdirs[i] == Mirror(d.subdirs[i]) {
      MirrorSubdir(d, i);
      MirrorValid(d.subdirs[i]);
    }
    assert ListsDescribe(m) by {
      forall n ensures n in m.commonDirs <==> BothDirs(m.a, m.b, n) {}
      forall n ensures n in m.commonFiles <==> BothFiles(m.a, m.b, n) {}
      forall n ensures n in m.commonFunny <==> KindsDiffer(m.a, m.b, n) {}
    }
  }

  /**
   * The five lists partition the names of both listings: every name on
   * either side is in exactly one of them.
   */
  lemma Partition(d: DirCmp, n: string)
    requires ListsDescribe(d)
    ensures n in d.a || n in d.b <==>
      n in d.leftOnly || n in d.rightOnly || n in d.commonDirs || n in d.commonFiles || n in d.commonFunny
    ensures n in d.leftOnly ==> n !in d.rightOnly && n !in d.commonDirs && n !in d.commonFiles && n !in d.commonFunny
    ensures n in d.rightOnly ==> n !in d.commonDirs && n !in d.commonFiles && n !in d.commonFunny
    ensures n in d.commonDirs ==> n !in d.commonFiles && n !in d.commonFunny
    ensures n in d.commonFiles ==> n !in d.commonFunny
  {
  }
}
