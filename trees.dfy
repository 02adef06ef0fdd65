/**
 * The two directory trees being compared, and where an entry sits in them.
 *
 * A directory is a map from entry name to entry; an entry is a regular file
 * with its bytes or a sub-directory. A position in a tree is the sequence of
 * names leading to it from the root (the relative path as path segments).
 */
module Trees {
  import opened Paths

  newtype byte = x: int | 0 <= x < 256

  type Bytes = seq<byte>

  datatype Node = File(content: Bytes) | Dir(entries: map<string, Node>)

  /** Every name at every depth is one `os.listdir` can return. */
  ghost predicate ValidEntries(m: map<string, Node>)
    decreases Dir(m)
  {
    (forall n :: n in m ==> ValidName(n)) &&
    forall n {:trigger ValidEntries(m[n].entries)} :: n in m && m[n].Dir? ==> ValidEntries(m[n].entries)
  }

  /** `n` is a directory on both sides. */
  predicate BothDirs(a: map<string, Node>, b: map<string, Node>, n: string)
  {
    n in a && n in b && a[n].Dir? && b[n].Dir?
  }

  /** `n` is a regular file on both sides. */
  predicate BothFiles(a: map<string, Node>, b: map<string, Node>, n: string)
  {
    n in a && n in b && a[n].File? && b[n].File?
  }

  /** `n` is on both sides, a file on one and a directory on the other. */
  predicate KindsDiffer(a: map<string, Node>, b: map<string, Node>, n: string)
  {
    n in a && n in b && a[n].Dir? != b[n].Dir?
  }

  /**
   * Reference positions: `names` leads from the roots `a` and `b` through
   * directories present on both sides, and its last name is ...
   */

  /** ... present on the left only. */
  ghost predicate LeftOnlyAt(a: map<string, Node>, b: map<string, Node>, names: seq<string>)
    decreases |names|
  {
    |names| > 0 &&
    if |names| == 1 then names[0] in a && names[0] !in b
    else BothDirs(a, b, names[0]) && LeftOnlyAt(a[names[0]].entries, b[names[0]].entries, names[1..])
  }

  /** ... present on the right only. */
  ghost predicate RightOnlyAt(a: map<string, Node>, b: map<string, Node>, names: seq<string>)
  {
    LeftOnlyAt(b, a, names)
  }

  /** ... a regular file on both sides. */
  ghost predicate CommonFileAt(a: map<string, Node>, b: map<string, Node>, names: seq<string>)
    decreases |names|
  {
    |names| > 0 &&
    if |names| == 1 then BothFiles(a, b, names[0])
    else BothDirs(a, b, names[0]) && CommonFileAt(a[names[0]].entries, b[names[0]].entries, names[1..])
  }

  /** ... a directory on both sides. */
  ghost predicate CommonDirAt(a: map<string, Node>, b: map<string, Node>, names: seq<string>)
    decreases |names|
  {
    |names| > 0 && BothDirs(a, b, names[0]) &&
    (|names| > 1 ==> CommonDirAt(a[names[0]].entries, b[names[0]].entries, names[1..]))
  }

  /** ... a file on one side and a directory on the other. */
  ghost predicate KindsDifferAt(a: map<string, Node>, b: map<string, Node>, names: seq<string>)
    decreases |names|
  {
    |names| > 0 &&
    if |names| == 1 then KindsDiffer(a, b, names[0])
    else BothDirs(a, b, names[0]) && KindsDifferAt(a[names[0]].entries, b[names[0]].entries, names[1..])
  }

  /** The entry at `names` under a directory, if there is one. */
  function Lookup(m: map<string, Node>, names: seq<string>): Option<Node>
    requires |names| > 0
    decreases |names|
  {
    if names[0] !in m then None
    else if |names| == 1 then Some(m[names[0]])
    else if m[names[0]].Dir? then Lookup(m[names[0]].entries, names[1..])
    else None
  }

  datatype Option<T> = None | Some(value: T)

  /** A regular file at `names` on both sides: the two entries `Lookup` finds are files. */
  lemma {:induction false} CommonFileLookup(a: map<string, Node>, b: map<string, Node>, names: seq<string>)
    requires CommonFileAt(a, b, names)
    ensures Lookup(a, names).Some? && Lookup(a, names).value.File?
    ensures Lookup(b, names).Some? && Lookup(b, names).value.File?
    decreases |names|
  {
    if |names| > 1 {
      CommonFileLookup(a[names[0]].entries, b[names[0]].entries, names[1..]);
    }
  }

  /**
   * The five kinds of position exclude one another: a position is at most
   * one of left-only, right-only, common file, common directory, or a
   * clash of kinds.
   */
  lemma {:induction false} PositionKindsExclusive(a: map<string, Node>, b: map<string, Node>, names: seq<string>)
    ensures LeftOnlyAt(a, b, names) ==> !RightOnlyAt(a, b, names) && !CommonFileAt(a, b, names) && !CommonDirAt(a, b, names) && !KindsDifferAt(a, b, names)
    ensures RightOnlyAt(a, b, names) ==> !CommonFileAt(a, b, names) && !CommonDirAt(a, b, names) && !KindsDifferAt(a, b, names)
    ensures CommonFileAt(a, b, names) ==> !CommonDirAt(a, b, names) && !KindsDifferAt(a, b, names)
    ensures CommonDirAt(a, b, names) ==> !KindsDifferAt(a, b, names)
    decreases |names|
  {
    if |names| > 1 && BothDirs(a, b, names[0]) {
      PositionKindsExclusive(a[names[0]].entries, b[names[0]].entries, names[1..]);
    }
  }

  /**
   * Only positions below common directories are ever classified: every
   * proper prefix of a left-only, right-only, common-file or clashing
   * position is a directory on both sides. Hence nothing beneath a
   * one-sided entry, a common file or a clash of kinds is listed.
   */
  lemma {:induction false} ClassifiedOnlyBelowCommonDirs(a: map<string, Node>, b: map<string, Node>, names: seq<string>, k: nat)
    requires LeftOnlyAt(a, b, names) || RightOnlyAt(a, b, names) || CommonFileAt(a, b, names) || KindsDifferAt(a, b, names)
    requires 0 < k < |names|
    ensures CommonDirAt(a, b, names[..k])
    decreases |names|
  {
    var n := names[0];
    assert BothDirs(a, b, n);
    if k > 1 {
      ClassifiedOnlyBelowCommonDirs(a[n].entries, b[n].entries, names[1..], k - 1);
      assert names[..k][1..] == names[1..][..k - 1];
    }
  }

  /** A common-file position has no one-sided prefix: the script lists no common file under a one-sided directory. */
  lemma CommonFileNotOneSided(a: map<string, Node>, b: map<string, Node>, names: seq<string>, k: nat)
    requires CommonFileAt(a, b, names) && 0 < k <= |names|
    ensures !LeftOnlyAt(a, b, names[..k]) && !RightOnlyAt(a, b, names[..k])
  {
    if k == |names| {
      assert names[..k] == names;
      PositionKindsExclusive(a, b, names);
    } else {
      ClassifiedOnlyBelowCommonDirs(a, b, names, k);
      PositionKindsExclusive(a, b, names[..k]);
    }
  }

  /** No prefix of a left-only position is right-only, and no prefix of a right-only position is left-only. */
  lemma OneSidedPrefixes(a: map<string, Node>, b: map<string, Node>, names: seq<string>, k: nat)
    requires 0 < k <= |names|
    ensures LeftOnlyAt(a, b, names) ==> !RightOnlyAt(a, b, names[..k])
    ensures RightOnlyAt(a, b, names) ==> !LeftOnlyAt(a, b, names[..k])
  {
    if k == |names| {
      assert names[..k] == names;
      PositionKindsExclusive(a, b, names);
    } else if LeftOnlyAt(a, b, names) || RightOnlyAt(a, b, names) {
      ClassifiedOnlyBelowCommonDirs(a, b, names, k);
      PositionKindsExclusive(a, b, names[..k]);
    }
  }

  /** The names along a left-only, common-file or clashing position of a tree with valid names are valid. */
  lemma {:induction false} PositionNamesValid(a: map<string, Node>, b: map<string, Node>, names: seq<string>)
    requires ValidEntries(a)
    requires LeftOnlyAt(a, b, names) || CommonFileAt(a, b, names) || KindsDifferAt(a, b, names)
    ensures forall i :: 0 <= i < |names| ==> ValidName(names[i])
    decreases |names|
  {
    if |names| > 1 {
      PositionNamesValid(a[names[0]].entries, b[names[0]].entries, names[1..]);
      forall i | 1 <= i < |names| ensures ValidName(names[i]) {
        assert names[i] == names[1..][i - 1];
      }
    }
  }

  /** A clash of kinds is one whichever side is read first. */
  lemma {:induction false} KindsDifferSymmetric(a: map<string, Node>, b: map<string, Node>, names: seq<string>)
    ensures KindsDifferAt(a, b, names) <==> KindsDifferAt(b, a, names)
    decreases |names|
  {
    if |names| > 1 && BothDirs(a, b, names[0]) {
      KindsDifferSymmetric(a[names[0]].entries, b[names[0]].entries, names[1..]);
    }
  }

  /** A tree compared with itself has no one-sided position. */
  lemma {:induction false} NothingOneSidedInSameTree(a: map<string, Node>, names: seq<string>)
    ensures !LeftOnlyAt(a, a, names)
    decreases |names|
  {
    if |names| > 1 && BothDirs(a, a, names[0]) {
      NothingOneSidedInSameTree(a[names[0]].entries, names[1..]);
    }
  }
}
