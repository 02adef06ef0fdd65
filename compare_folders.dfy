/**
 * The main part of the comparison script: the relative paths of the common
 * files, the search for common files whose SHA-1 digests differ, and the
 * final verdict.
 *
 * The listings of the two directories are trees, the files the loop opens
 * are a map from path to content, and SHA-1 is a parameter. What the
 * script prints is not modelled; the report holds the lists it prints from.
 */
module CompareFolders {
  import opened LexOrder
  import opened Paths
  import opened Trees
  import opened Filecmp
  import opened UniqueFiles
  import opened CommonFiles
  import opened Digest

  /** An entry `[filepathLeft, filepathRight]` of `filesDifferent`. */
  datatype Difference = Difference(left: string, right: string)

  /** The two paths the loop hashes for the relative path `rel`. */
  function Pair(dir1: string, dir2: string, rel: string): (x: Difference)
    ensures x.left == dir1 + "/" + rel && x.right == dir2 + "/" + rel
  {
    Difference(dir1 + "/" + rel, dir2 + "/" + rel)
  }

  /** Both files of every relative path can be opened. */
  ghost predicate AllOpen(fs: map<string, Bytes>, dir1: string, dir2: string, rels: seq<string>)
  {
    forall i :: 0 <= i < |rels| ==> Pair(dir1, dir2, rels[i]).left in fs && Pair(dir1, dir2, rels[i]).right in fs
  }

  /**
   * What the loop over `relativePathsCommonFiles` computes: the pairs whose
   * hashes differ, in order, or the first file that cannot be opened (the
   * left one of a pair is hashed first).
   */
  function Differences(fs: map<string, Bytes>, dir1: string, dir2: string, rels: seq<string>, sha1: Bytes -> Sha1Digest): Result<seq<Difference>>
    decreases |rels|
  {
    if rels == [] then Ok([])
    else
      match Differences(fs, dir1, dir2, rels[..|rels| - 1], sha1)
      case CannotOpen(p) => CannotOpen(p)
      case Ok(ds) =>
        var x := Pair(dir1, dir2, rels[|rels| - 1]);
        match FileHash(fs, x.left, sha1)
        case CannotOpen(p) => CannotOpen(p)
        case Ok(hashLeft) =>
          match FileHash(fs, x.right, sha1)
          case CannotOpen(p) => CannotOpen(p)
          case Ok(hashRight) => if hashLeft != hashRight then Ok(ds + [x]) else Ok(ds)
  }

  /**
   * The loop of the script that hashes both files of every common file and
   * records the pairs whose hashes differ; a file that cannot be opened
   * ends the script.
   */
  method FindDifferent(fs: map<string, Bytes>, dir1: string, dir2: string, rels: seq<string>, sha1: Bytes -> Sha1Digest)
    returns (r: Result<seq<Difference>>)
    ensures r == Differences(fs, dir1, dir2, rels, sha1)
  {
    var filesDifferent := [];
    for i := 0 to |rels|
      invariant Differences(fs, dir1, dir2, rels[..i], sha1) == Ok(filesDifferent)
    {
      assert rels[..i + 1][..i] == rels[..i];
      var filepathLeft := dir1 + "/" + rels[i];
      var hashLeft, chunksLeft := HashFile(fs, filepathLeft, sha1);
      if hashLeft.CannotOpen? {
        ErrorPersists(fs, dir1, dir2, rels, sha1, i + 1);
        return CannotOpen(filepathLeft);
      }
      var filepathRight := dir2 + "/" + rels[i];
      var hashRight, chunksRight := HashFile(fs, filepathRight, sha1);
      if hashRight.CannotOpen? {
        ErrorPersists(fs, dir1, dir2, rels, sha1, i + 1);
        return CannotOpen(filepathRight);
      }
      if hashLeft.value != hashRight.value {
        filesDifferent := filesDifferent + [Difference(filepathLeft, filepathRight)];
      }
    }
    assert rels[..|rels|] == rels;
    return Ok(filesDifferent);
  }

  /** Once a file of the first `n` pairs cannot be opened, the whole loop ends with it. */
  lemma {:induction false} ErrorPersists(fs: map<string, Bytes>, dir1: string, dir2: string, rels: seq<string>, sha1: Bytes -> Sha1Digest, n: nat)
    requires n <= |rels| && Differences(fs, dir1, dir2, rels[..n], sha1).CannotOpen?
    ensures Differences(fs, dir1, dir2, rels, sha1) == Differences(fs, dir1, dir2, rels[..n], sha1)
    decreases |rels| - n
  {
    if n < |rels| {
      assert rels[..n + 1][..n] == rels[..n];
      ErrorPersists(fs, dir1, dir2, rels, sha1, n + 1);
    } else {
      assert rels[..n] == rels;
    }
  }

  /** The loop completes exactly when both files of every pair can be opened. */
  lemma {:induction false} DifferencesOk(fs: map<string, Bytes>, dir1: string, dir2: string, rels: seq<string>, sha1: Bytes -> Sha1Digest)
    ensures Differences(fs, dir1, dir2, rels, sha1).Ok? <==> AllOpen(fs, dir1, dir2, rels)
    decreases |rels|
  {
    if rels != [] {
      var init := rels[..|rels| - 1];
      DifferencesOk(fs, dir1, dir2, init, sha1);
      assert AllOpen(fs, dir1, dir2, rels) <==> AllOpen(fs, dir1, dir2, init) && Pair(dir1, dir2, rels[|rels| - 1]).left in fs && Pair(dir1, dir2, rels[|rels| - 1]).right in fs by {
        if AllOpen(fs, dir1, dir2, init) && Pair(dir1, dir2, rels[|rels| - 1]).left in fs && Pair(dir1, dir2, rels[|rels| - 1]).right in fs {
          forall i | 0 <= i < |rels| ensures Pair(dir1, dir2, rels[i]).left in fs && Pair(dir1, dir2, rels[i]).right in fs {
            if i < |rels| - 1 {
              assert rels[i] == init[i];
            }
          }
        }
        if AllOpen(fs, dir1, dir2, rels) {
          forall i | 0 <= i < |init| ensures Pair(dir1, dir2, init[i]).left in fs && Pair(dir1, dir2, init[i]).right in fs {
            assert init[i] == rels[i];
          }
        }
      }
    }
  }

  /**
   * When the loop completes, a pair is recorded exactly when it belongs to
   * some relative path and SHA-1 gives its two files different digests.
   */
  lemma {:induction false} DifferencesMembers(fs: map<string, Bytes>, dir1: string, dir2: string, rels: seq<string>, sha1: Bytes -> Sha1Digest, x: Difference)
    requires Differences(fs, dir1, dir2, rels, sha1).Ok?
    ensures AllOpen(fs, dir1, dir2, rels)
    ensures x in Differences(fs, dir1, dir2, rels, sha1).value <==>
      exists i :: 0 <= i < |rels| && x == Pair(dir1, dir2, rels[i]) && sha1(fs[x.left]) != sha1(fs[x.right])
    decreases |rels|
  {
    DifferencesOk(fs, dir1, dir2, rels, sha1);
    if rels != [] {
      var init, last := rels[..|rels| - 1], rels[|rels| - 1];
      var y := Pair(dir1, dir2, last);
      DifferencesMembers(fs, dir1, dir2, init, sha1, x);
      SameHash(fs, y.left, y.right, sha1);
      var ds := Differences(fs, dir1, dir2, init, sha1).value;
      var differs := sha1(fs[y.left]) != sha1(fs[y.right]);
      assert Differences(fs, dir1, dir2, rels, sha1).value == if differs then ds + [y] else ds;
      assert rels == init + [last];
      DifferingSnoc(fs, dir1, dir2, init, last, sha1, x);
    }
  }

  /** A pair differs for some relative path exactly when it differs for an earlier one or for the last. */
  lemma DifferingSnoc(fs: map<string, Bytes>, dir1: string, dir2: string, init: seq<string>, last: string, sha1: Bytes -> Sha1Digest, x: Difference)
    requires AllOpen(fs, dir1, dir2, init + [last])
    ensures AllOpen(fs, dir1, dir2, init)
    ensures Pair(dir1, dir2, last).left in fs && Pair(dir1, dir2, last).right in fs
    ensures (exists i :: 0 <= i < |init + [last]| && x == Pair(dir1, dir2, (init + [last])[i]) && sha1(fs[x.left]) != sha1(fs[x.right])) <==>
      (exists i :: 0 <= i < |init| && x == Pair(dir1, dir2, init[i]) && sha1(fs[x.left]) != sha1(fs[x.right])) ||
      (x == Pair(dir1, dir2, last) && sha1(fs[x.left]) != sha1(fs[x.right]))
  {
    var rels := init + [last];
    forall i | 0 <= i < |init| ensures Pair(dir1, dir2, init[i]).left in fs && Pair(dir1, dir2, init[i]).right in fs {
      assert init[i] == rels[i];
    }
    if exists i :: 0 <= i < |rels| && x == Pair(dir1, dir2, rels[i]) && sha1(fs[x.left]) != sha1(fs[x.right]) {
      var i :| 0 <= i < |rels| && x == Pair(dir1, dir2, rels[i]) && sha1(fs[x.left]) != sha1(fs[x.right]);
      if i < |init| {
        assert rels[i] == init[i];
      }
    }
    if exists i :: 0 <= i < |init| && x == Pair(dir1, dir2, init[i]) && sha1(fs[x.left]) != sha1(fs[x.right]) {
      var i :| 0 <= i < |init| && x == Pair(dir1, dir2, init[i]) && sha1(fs[x.left]) != sha1(fs[x.right]);
      assert init[i] == rels[i];
    }
    assert rels[|init|] == last;
  }

  /** The left paths of recorded pairs, in order. */
  function Lefts(ds: seq<Difference>): (ls: seq<string>)
    ensures |ls| == |ds| && forall i :: 0 <= i < |ds| ==> ls[i] == ds[i].left
  {
    seq(|ds|, i requires 0 <= i < |ds| => ds[i].left)
  }

  /**
   * The loop records pairs in the order of the relative paths: when the
   * left paths of all pairs are sorted, those of the recorded pairs are
   * too, and strictly so when the former are.
   */
  lemma {:induction false} DifferencesOrdered(fs: map<string, Bytes>, dir1: string, dir2: string, rels: seq<string>,
                                              sha1: Bytes -> Sha1Digest, common: seq<string>)
    requires |common| == |rels| && forall i :: 0 <= i < |rels| ==> common[i] == Pair(dir1, dir2, rels[i]).left
    requires Sorted(common) && Differences(fs, dir1, dir2, rels, sha1).Ok?
    ensures forall x :: x in Differences(fs, dir1, dir2, rels, sha1).value ==> x.left in common
    ensures Sorted(Lefts(Differences(fs, dir1, dir2, rels, sha1).value))
    ensures StrictlySorted(common) ==> StrictlySorted(Lefts(Differences(fs, dir1, dir2, rels, sha1).value))
    decreases |rels|
  {
    if rels != [] {
      var n := |rels| - 1;
      var init, before := rels[..n], common[..n];
      DifferencesOrdered(fs, dir1, dir2, init, sha1, before);
      var ds := Differences(fs, dir1, dir2, init, sha1).value;
      var r := Differences(fs, dir1, dir2, rels, sha1).value;
      assert r == ds || r == ds + [Pair(dir1, dir2, rels[n])];
      forall x | x in ds ensures x.left in common && Below(x.left, common[n]) && (StrictlySorted(common) ==> x.left != common[n]) {
        var k :| 0 <= k < n && before[k] == x.left;
      }
      if r != ds {
        LeftsSnoc(ds, Pair(dir1, dir2, rels[n]), common[n], StrictlySorted(common));
      }
    }
  }

  /** One more pair whose left path comes after all recorded ones keeps the left paths sorted. */
  lemma LeftsSnoc(ds: seq<Difference>, y: Difference, last: string, strict: bool)
    requires Sorted(Lefts(ds)) && (strict ==> StrictlySorted(Lefts(ds))) && y.left == last
    requires forall x :: x in ds ==> Below(x.left, last) && (strict ==> x.left != last)
    ensures Sorted(Lefts(ds + [y])) && (strict ==> StrictlySorted(Lefts(ds + [y])))
  {
    var ls := Lefts(ds + [y]);
    forall i, j | 0 <= i < j < |ls| ensures Below(ls[i], ls[j]) && (strict ==> ls[i] != ls[j]) {
      assert ls[i] == ds[i].left && ds[i] in ds;
      if j < |ds| {
        assert ls[j] == Lefts(ds)[j] && ls[i] == Lefts(ds)[i];
      }
    }
  }

  /**
   * When the loop stops on a file it cannot open, that file is the left or
   * the right one of some pair, the left one being tried first, and every
   * earlier pair could be opened.
   */
  lemma {:induction false} DifferencesError(fs: map<string, Bytes>, dir1: string, dir2: string, rels: seq<string>, sha1: Bytes -> Sha1Digest)
    returns (i: nat)
    requires Differences(fs, dir1, dir2, rels, sha1).CannotOpen?
    ensures i < |rels| && AllOpen(fs, dir1, dir2, rels[..i])
    ensures Differences(fs, dir1, dir2, rels, sha1).path !in fs
    ensures Differences(fs, dir1, dir2, rels, sha1).path == Pair(dir1, dir2, rels[i]).left ||
      (Pair(dir1, dir2, rels[i]).left in fs && Differences(fs, dir1, dir2, rels, sha1).path == Pair(dir1, dir2, rels[i]).right)
    decreases |rels|
  {
    var init := rels[..|rels| - 1];
    if Differences(fs, dir1, dir2, init, sha1).CannotOpen? {
      i := DifferencesError(fs, dir1, dir2, init, sha1);
      assert rels[..i] == init[..i] && rels[i] == init[i];
    } else {
      i := |rels| - 1;
      DifferencesOk(fs, dir1, dir2, init, sha1);
      assert rels[..i] == init;
    }
  }

  /** `relativePathsCommonFiles`: every common path with `dir1` and the separator after it removed. */
  method RelativePaths(commonFiles: seq<string>, dir1: string) returns (rels: seq<string>)
    ensures RelativeTo(rels, commonFiles, dir1)
  {
    rels := [];
    for i := 0 to |commonFiles|
      invariant |rels| == i
      invariant forall k :: 0 <= k < i ==> rels[k] == StripRoot(dir1, commonFiles[k])
    {
      rels := rels + [StripRoot(dir1, commonFiles[i])];
    }
  }

  /** `rels` holds, position by position, the paths of `paths` with the root `dir1` stripped off. */
  ghost predicate RelativeTo(rels: seq<string>, paths: seq<string>, dir1: string)
  {
    |rels| == |paths| && forall i :: 0 <= i < |rels| ==> rels[i] == StripRoot(dir1, paths[i])
  }

  /** Each relative path of the sorted common list is that of a common file, and strips back to its path. */
  lemma RelativeIsCommon(dir1: string, d: DirCmp, common: seq<string>, rels: seq<string>, i: nat) returns (names: seq<string>)
    requires Shaped(d) && multiset(common) == CommonFilesOf(dir1, d) && RelativeTo(rels, common, dir1)
    requires i < |rels|
    ensures CommonFileAt(d.a, d.b, names) && rels[i] == Rel(names) && common[i] == dir1 + "/" + rels[i]
  {
    assert common[i] in multiset(common);
    names := CommonFilesWitness(dir1, d, common[i]);
    StripRootOfJoined(dir1, Rel(names));
  }

  /** Every common file has its relative path in the list. */
  lemma CommonIsRelative(dir1: string, d: DirCmp, common: seq<string>, rels: seq<string>, names: seq<string>) returns (i: nat)
    requires Shaped(d) && multiset(common) == CommonFilesOf(dir1, d) && RelativeTo(rels, common, dir1)
    requires CommonFileAt(d.a, d.b, names)
    ensures i < |rels| && rels[i] == Rel(names)
  {
    CommonFilesHas(dir1, d, names);
    assert dir1 + "/" + Rel(names) in common;
    i :| 0 <= i < |common| && common[i] == dir1 + "/" + Rel(names);
    StripRootOfJoined(dir1, Rel(names));
  }

  /** Both files of every common position can be opened, under `dir1` and under `dir2`. */
  ghost predicate CommonOpen(a: map<string, Node>, b: map<string, Node>, fs: map<string, Bytes>, dir1: string, dir2: string)
  {
    forall names :: CommonFileAt(a, b, names) ==> dir1 + "/" + Rel(names) in fs && dir2 + "/" + Rel(names) in fs
  }

  /** Both files of the pair exist and SHA-1 gives them different digests. */
  ghost predicate DigestsDiffer(fs: map<string, Bytes>, sha1: Bytes -> Sha1Digest, x: Difference)
  {
    x.left in fs && x.right in fs && sha1(fs[x.left]) != sha1(fs[x.right])
  }

  /**
   * The two trees agree as far as the script can tell: no entry on one
   * side only at any depth, and every common file has the same digest on
   * both sides.
   */
  ghost predicate Alike(a: map<string, Node>, b: map<string, Node>, fs: map<string, Bytes>, dir1: string, dir2: string, sha1: Bytes -> Sha1Digest)
  {
    (forall names :: !LeftOnlyAt(a, b, names)) &&
    (forall names :: !RightOnlyAt(a, b, names)) &&
    (forall names :: CommonFileAt(a, b, names) ==> !DigestsDiffer(fs, sha1, Pair(dir1, dir2, Rel(names))))
  }

  /** The loop opens every file it needs exactly when every common position can be opened on both sides. */
  lemma OpenExactlyWhenCommonOpen(dir1: string, dir2: string, d: DirCmp, common: seq<string>, rels: seq<string>, fs: map<string, Bytes>)
    requires Shaped(d) && multiset(common) == CommonFilesOf(dir1, d) && RelativeTo(rels, common, dir1)
    ensures AllOpen(fs, dir1, dir2, rels) <==> CommonOpen(d.a, d.b, fs, dir1, dir2)
  {
    if AllOpen(fs, dir1, dir2, rels) {
      forall names | CommonFileAt(d.a, d.b, names) ensures dir1 + "/" + Rel(names) in fs && dir2 + "/" + Rel(names) in fs {
        var i := CommonIsRelative(dir1, d, common, rels, names);
      }
    }
    if CommonOpen(d.a, d.b, fs, dir1, dir2) {
      forall i | 0 <= i < |rels| ensures Pair(dir1, dir2, rels[i]).left in fs && Pair(dir1, dir2, rels[i]).right in fs {
        var names := RelativeIsCommon(dir1, d, common, rels, i);
      }
    }
  }

  /** A recorded pair is that of a common position whose two files have different digests, and every such pair is recorded. */
  lemma DifferentExactly(dir1: string, dir2: string, d: DirCmp, common: seq<string>, rels: seq<string>, fs: map<string, Bytes>,
                         sha1: Bytes -> Sha1Digest, x: Difference)
    requires Shaped(d) && multiset(common) == CommonFilesOf(dir1, d) && RelativeTo(rels, common, dir1)
    requires Differences(fs, dir1, dir2, rels, sha1).Ok?
    ensures x in Differences(fs, dir1, dir2, rels, sha1).value <==>
      exists names :: CommonFileAt(d.a, d.b, names) && x == Pair(dir1, dir2, Rel(names)) && DigestsDiffer(fs, sha1, x)
  {
    DifferencesMembers(fs, dir1, dir2, rels, sha1, x);
    if x in Differences(fs, dir1, dir2, rels, sha1).value {
      var i :| 0 <= i < |rels| && x == Pair(dir1, dir2, rels[i]) && sha1(fs[x.left]) != sha1(fs[x.right]);
      var names := RelativeIsCommon(dir1, d, common, rels, i);
    }
    if exists names :: CommonFileAt(d.a, d.b, names) && x == Pair(dir1, dir2, Rel(names)) && DigestsDiffer(fs, sha1, x) {
      var names :| CommonFileAt(d.a, d.b, names) && x == Pair(dir1, dir2, Rel(names)) && DigestsDiffer(fs, sha1, x);
      var i := CommonIsRelative(dir1, d, common, rels, names);
    }
  }

  /**
   * Both files of every common position whose left path comes strictly
   * before `p` in the sorted common list can be opened.
   */
  ghost predicate OpenBefore(a: map<string, Node>, b: map<string, Node>, fs: map<string, Bytes>, dir1: string, dir2: string, p: string)
  {
    forall names :: CommonFileAt(a, b, names) && Below(dir1 + "/" + Rel(names), p) && dir1 + "/" + Rel(names) != p ==>
      dir1 + "/" + Rel(names) in fs && dir2 + "/" + Rel(names) in fs
  }

  /**
   * The file the loop stops on does not exist and belongs to a common
   * position: its left file, or its right file when the left one opened.
   * Every common position earlier in the sorted list opened on both sides.
   */
  lemma ErrorAtCommon(dir1: string, dir2: string, d: DirCmp, common: seq<string>, rels: seq<string>, fs: map<string, Bytes>,
                      sha1: Bytes -> Sha1Digest)
    requires Shaped(d) && Sorted(common) && multiset(common) == CommonFilesOf(dir1, d) && RelativeTo(rels, common, dir1)
    requires Differences(fs, dir1, dir2, rels, sha1).CannotOpen?
    ensures var p := Differences(fs, dir1, dir2, rels, sha1).path;
      p !in fs &&
      exists names :: CommonFileAt(d.a, d.b, names) && OpenBefore(d.a, d.b, fs, dir1, dir2, dir1 + "/" + Rel(names)) &&
        (p == dir1 + "/" + Rel(names) || (dir1 + "/" + Rel(names) in fs && p == dir2 + "/" + Rel(names)))
  {
    var i := DifferencesError(fs, dir1, dir2, rels, sha1);
    var names := RelativeIsCommon(dir1, d, common, rels, i);
    forall other | CommonFileAt(d.a, d.b, other) && Below(dir1 + "/" + Rel(other), common[i]) && dir1 + "/" + Rel(other) != common[i]
      ensures dir1 + "/" + Rel(other) in fs && dir2 + "/" + Rel(other) in fs
    {
      var k := CommonIsRelative(dir1, d, common, rels, other);
      var _ := RelativeIsCommon(dir1, d, common, rels, k);
      if k > i {
        BelowAntisymmetric(common[k], common[i]);
      }
      assert k < i;
      assert rels[..i][k] == rels[k];
    }
  }

  /** Everything `print` and the final verdict are computed from. */
  datatype Report = Report(uniqueLeft: seq<string>, uniqueRight: seq<string>, filesDifferent: seq<Difference>)

  /** The script reports "NO DIFFERENCE FOUND" exactly when nothing is unique and no pair differs. */
  predicate NoDifferenceFound(r: Report)
  {
    |r.filesDifferent| + |r.uniqueLeft| + |r.uniqueRight| == 0
  }

  /**
   * The main part of the script: compares `dir1`, listed as `a`, with
   * `dir2`, listed as `b`, reading file contents from `fs`. It stops with
   * `CannotOpen` on the first file of a common position it cannot open.
   */
  method CompareFolders(dir1: string, dir2: string, a: map<string, Node>, b: map<string, Node>, fs: map<string, Bytes>,
                        sha1: Bytes -> Sha1Digest)
    returns (r: Result<Report>)
    ensures r.Ok? <==> CommonOpen(a, b, fs, dir1, dir2)
    ensures r.CannotOpen? ==> r.path !in fs
    ensures r.CannotOpen? ==>
      exists names :: CommonFileAt(a, b, names) && OpenBefore(a, b, fs, dir1, dir2, dir1 + "/" + Rel(names)) &&
        (r.path == dir1 + "/" + Rel(names) || (dir1 + "/" + Rel(names) in fs && r.path == dir2 + "/" + Rel(names)))
    ensures r.Ok? ==> Sorted(r.value.uniqueLeft) && Sorted(r.value.uniqueRight) && Sorted(Lefts(r.value.filesDifferent))
    ensures r.Ok? && ValidEntries(a) ==> StrictlySorted(r.value.uniqueLeft) && StrictlySorted(Lefts(r.value.filesDifferent))
    ensures r.Ok? && ValidEntries(b) ==> StrictlySorted(r.value.uniqueRight)
    ensures r.Ok? ==> OneSidedListed(r.value.uniqueLeft, a, b, dir1) && OneSidedListed(r.value.uniqueRight, b, a, dir2)
    ensures r.Ok? ==> DifferencesListed(r.value.filesDifferent, a, b, fs, dir1, dir2, sha1)
    ensures r.Ok? ==> (NoDifferenceFound(r.value) <==> Alike(a, b, fs, dir1, dir2, sha1))
  {
    var dcmp := Compare(dir1, dir2, a, b);
    var uniqueLeft, uniqueRight := FindUniqueFiles(dcmp);
    if ValidEntries(a) {
      UniqueLeftStrict(dcmp, uniqueLeft);
    }
    if ValidEntries(b) {
      UniqueRightStrict(dcmp, uniqueRight);
    }
    ValidShaped(dcmp);
    var commonFiles := BuildCommonFiles(dcmp);
    var rels := RelativePaths(commonFiles, dir1);
    var filesDifferent := FindDifferent(fs, dir1, dir2, rels, sha1);
    OpenExactlyWhenCommonOpen(dir1, dir2, dcmp, commonFiles, rels, fs);
    DifferencesOk(fs, dir1, dir2, rels, sha1);
    if filesDifferent.CannotOpen? {
      ErrorAtCommon(dir1, dir2, dcmp, commonFiles, rels, fs, sha1);
      return CannotOpen(filesDifferent.path);
    }
    DifferencesInOrder(dir1, dir2, dcmp, commonFiles, rels, fs, sha1);
    var report := Report(uniqueLeft, uniqueRight, filesDifferent.value);
    LeftListed(dcmp, uniqueLeft);
    RightListed(dcmp, uniqueRight);
    DifferentListed(dir1, dir2, dcmp, commonFiles, rels, fs, sha1);
    Verdict(a, b, fs, dir1, dir2, sha1, report);
    return Ok(report);
  }

  /**
   * A completed loop records its pairs in the order of the sorted common
   * list: their left paths are sorted, and strictly so when the names of
   * the left tree are valid.
   */
  lemma DifferencesInOrder(dir1: string, dir2: string, d: DirCmp, common: seq<string>, rels: seq<string>, fs: map<string, Bytes>,
                           sha1: Bytes -> Sha1Digest)
    requires Shaped(d) && Sorted(common) && multiset(common) == CommonFilesOf(dir1, d) && RelativeTo(rels, common, dir1)
    requires Differences(fs, dir1, dir2, rels, sha1).Ok?
    ensures Sorted(Lefts(Differences(fs, dir1, dir2, rels, sha1).value))
    ensures ValidEntries(d.a) ==> StrictlySorted(Lefts(Differences(fs, dir1, dir2, rels, sha1).value))
  {
    forall i | 0 <= i < |rels| ensures common[i] == Pair(dir1, dir2, rels[i]).left {
      var _ := RelativeIsCommon(dir1, d, common, rels, i);
    }
    if ValidEntries(d.a) {
      CommonFilesDistinct(dir1, d);
      SortedDistinct(common);
    }
    DifferencesOrdered(fs, dir1, dir2, rels, sha1, common);
  }

  /**
   * A name that is a regular file on one side and a directory on the other
   * is in no list: neither unique list nor the common-file list holds the
   * path of a clashing position.
   */
  lemma FunnyNotListed(d: DirCmp, names: seq<string>)
    requires Valid(d) && ValidEntries(d.a) && ValidEntries(d.b) && KindsDifferAt(d.a, d.b, names)
    ensures UniquePath(d.left, names) !in UniqueLeft(d)
    ensures UniquePath(d.right, names) !in UniqueRight(d)
    ensures d.left + "/" + Rel(names) !in CommonFilesOf(d.left, d)
  {
    FunnyNotLeft(d, names);
    FunnyNotRight(d, names);
    ValidShaped(d);
    var p := d.left + "/" + Rel(names);
    CommonFilesPositions(d.left, d, p);
    if p in CommonFilesOf(d.left, d) {
      var other :| CommonFileAt(d.a, d.b, other) && p == d.left + "/" + Rel(other);
      SameEntry(d.left, Rel(names), Rel(other));
      PositionNamesValid(d.a, d.b, names);
      PositionNamesValid(d.a, d.b, other);
      RelInjective(names, other);
      PositionKindsExclusive(d.a, d.b, names);
      assert false;
    }
  }

  /**
   * The script does not descend into a directory present on one side only:
   * no path strictly below a one-sided position is in that side's list,
   * and no path at or below it is in the common-file list.
   */
  lemma BelowOneSidedNotListed(d: DirCmp, names: seq<string>, k: nat)
    requires Valid(d) && ValidEntries(d.a) && ValidEntries(d.b) && 0 < k <= |names|
    requires forall i :: 0 <= i < |names| ==> ValidName(names[i])
    requires LeftOnlyAt(d.a, d.b, names[..k]) || RightOnlyAt(d.a, d.b, names[..k])
    ensures k < |names| && LeftOnlyAt(d.a, d.b, names[..k]) ==> UniquePath(d.left, names) !in UniqueLeft(d)
    ensures k < |names| && RightOnlyAt(d.a, d.b, names[..k]) ==> UniquePath(d.right, names) !in UniqueRight(d)
    ensures d.left + "/" + Rel(names) !in CommonFilesOf(d.left, d)
  {
    if k < |names| && LeftOnlyAt(d.a, d.b, names[..k]) {
      BelowLeftOnlyNotLeft(d, names, k);
    }
    if k < |names| && RightOnlyAt(d.a, d.b, names[..k]) {
      BelowRightOnlyNotRight(d, names, k);
    }
    ValidShaped(d);
    var p := d.left + "/" + Rel(names);
    CommonFilesPositions(d.left, d, p);
    if p in CommonFilesOf(d.left, d) {
      var other :| CommonFileAt(d.a, d.b, other) && p == d.left + "/" + Rel(other);
      SameEntry(d.left, Rel(names), Rel(other));
      PositionNamesValid(d.a, d.b, other);
      RelInjective(names, other);
      CommonFileNotOneSided(d.a, d.b, names, k);
      assert false;
    }
  }

  /**
   * A one-sided position, and anything below it, is not in the other
   * side's unique list: the two unique lists never share a position.
   */
  lemma OneSidedNotOtherList(d: DirCmp, names: seq<string>, k: nat)
    requires Valid(d) && ValidEntries(d.a) && ValidEntries(d.b) && 0 < k <= |names|
    requires forall i :: 0 <= i < |names| ==> ValidName(names[i])
    ensures LeftOnlyAt(d.a, d.b, names[..k]) ==> UniquePath(d.right, names) !in UniqueRight(d)
    ensures RightOnlyAt(d.a, d.b, names[..k]) ==> UniquePath(d.left, names) !in UniqueLeft(d)
  {
    if UniquePath(d.right, names) in UniqueRight(d) {
      RightListedIsPosition(d, names);
      OneSidedPrefixes(d.a, d.b, names, k);
    }
    if UniquePath(d.left, names) in UniqueLeft(d) {
      ListedIsPosition(d, names);
      OneSidedPrefixes(d.a, d.b, names, k);
    }
  }

  /**
   * The clash is not reported: a tree holding a regular file `n` and a tree
   * holding a directory `n` differ, yet they are alike as far as the script
   * can tell, so it finds no difference.
   */
  lemma KindClashAlike(n: string, content: Bytes, entries: map<string, Node>, fs: map<string, Bytes>, dir1: string, dir2: string,
                       sha1: Bytes -> Sha1Digest)
    ensures KindsDifferAt(map[n := File(content)], map[n := Dir(entries)], [n])
    ensures Alike(map[n := File(content)], map[n := Dir(entries)], fs, dir1, dir2, sha1)
  {
    var a, b := map[n := File(content)], map[n := Dir(entries)];
    forall names ensures !LeftOnlyAt(a, b, names) && !LeftOnlyAt(b, a, names) && !CommonFileAt(a, b, names) {
      if |names| > 1 {
        assert !BothDirs(a, b, names[0]);
      }
    }
  }

  /**
   * `list` holds exactly the paths of the positions present under `a` and
   * missing under `b`, rooted at `root`.
   */
  ghost predicate OneSidedListed(list: seq<string>, a: map<string, Node>, b: map<string, Node>, root: string)
  {
    forall p :: p in list <==> exists names :: LeftOnlyAt(a, b, names) && p == UniquePath(root, names)
  }

  /** `list` holds exactly the pairs of the common positions whose two files have different digests. */
  ghost predicate DifferencesListed(list: seq<Difference>, a: map<string, Node>, b: map<string, Node>, fs: map<string, Bytes>,
                                    dir1: string, dir2: string, sha1: Bytes -> Sha1Digest)
  {
    forall x :: x in list <==> exists names :: CommonFileAt(a, b, names) && x == Pair(dir1, dir2, Rel(names)) && DigestsDiffer(fs, sha1, x)
  }

  /** The sorted left list of `find_unique_files` holds the paths of the left-only positions. */
  lemma LeftListed(d: DirCmp, uniqueLeft: seq<string>)
    requires Valid(d) && multiset(uniqueLeft) == UniqueLeft(d)
    ensures OneSidedListed(uniqueLeft, d.a, d.b, d.left)
  {
    forall p ensures p in uniqueLeft <==> exists names :: LeftOnlyAt(d.a, d.b, names) && p == UniquePath(d.left, names) {
      assert p in uniqueLeft <==> p in multiset(uniqueLeft);
      UniqueLeftPositions(d, p);
    }
  }

  /** The sorted right list of `find_unique_files` holds the paths of the right-only positions. */
  lemma RightListed(d: DirCmp, uniqueRight: seq<string>)
    requires Valid(d) && multiset(uniqueRight) == UniqueRight(d)
    ensures OneSidedListed(uniqueRight, d.b, d.a, d.right)
  {
    forall p ensures p in uniqueRight <==> exists names :: LeftOnlyAt(d.b, d.a, names) && p == UniquePath(d.right, names) {
      assert p in uniqueRight <==> p in multiset(uniqueRight);
      UniqueRightPositions(d, p);
    }
  }

  /** A completed loop lists exactly the pairs of the common positions whose digests differ. */
  lemma DifferentListed(dir1: string, dir2: string, d: DirCmp, common: seq<string>, rels: seq<string>, fs: map<string, Bytes>,
                        sha1: Bytes -> Sha1Digest)
    requires Shaped(d) && multiset(common) == CommonFilesOf(dir1, d) && RelativeTo(rels, common, dir1)
    requires Differences(fs, dir1, dir2, rels, sha1).Ok?
    ensures DifferencesListed(Differences(fs, dir1, dir2, rels, sha1).value, d.a, d.b, fs, dir1, dir2, sha1)
  {
    forall x ensures x in Differences(fs, dir1, dir2, rels, sha1).value <==>
      exists names :: CommonFileAt(d.a, d.b, names) && x == Pair(dir1, dir2, Rel(names)) && DigestsDiffer(fs, sha1, x) {
      DifferentExactly(dir1, dir2, d, common, rels, fs, sha1, x);
    }
  }

  /**
   * The verdict of lines 125-126: with lists that hold exactly the one-sided
   * positions and the pairs whose digests differ, the script finds no
   * difference exactly when the trees are alike.
   */
  lemma Verdict(a: map<string, Node>, b: map<string, Node>, fs: map<string, Bytes>, dir1: string, dir2: string,
                sha1: Bytes -> Sha1Digest, report: Report)
    requires OneSidedListed(report.uniqueLeft, a, b, dir1) && OneSidedListed(report.uniqueRight, b, a, dir2)
    requires DifferencesListed(report.filesDifferent, a, b, fs, dir1, dir2, sha1)
    ensures NoDifferenceFound(report) <==> Alike(a, b, fs, dir1, dir2, sha1)
  {
    if !Alike(a, b, fs, dir1, dir2, sha1) {
      if exists names :: LeftOnlyAt(a, b, names) {
        var names :| LeftOnlyAt(a, b, names);
        assert UniquePath(dir1, names) in report.uniqueLeft;
      } else if exists names :: RightOnlyAt(a, b, names) {
        var names :| RightOnlyAt(a, b, names);
        assert UniquePath(dir2, names) in report.uniqueRight;
      } else {
        var names :| CommonFileAt(a, b, names) && DigestsDiffer(fs, sha1, Pair(dir1, dir2, Rel(names)));
        assert Pair(dir1, dir2, Rel(names)) in report.filesDifferent;
      }
    }
    if !NoDifferenceFound(report) {
      if |report.uniqueLeft| > 0 {
        assert report.uniqueLeft[0] in report.uniqueLeft;
      } else if |report.uniqueRight| > 0 {
        assert report.uniqueRight[0] in report.uniqueRight;
        var names :| LeftOnlyAt(b, a, names) && report.uniqueRight[0] == UniquePath(dir2, names);
        assert RightOnlyAt(a, b, names);
      } else {
        assert report.filesDifferent[0] in report.filesDifferent;
      }
    }
  }

  /** `fs` holds every regular file of `tree` at its path under `dir`, with its content. */
  ghost predicate Mounted(fs: map<string, Bytes>, dir: string, tree: map<string, Node>)
  {
    forall names :: |names| > 0 && Lookup(tree, names).Some? && Lookup(tree, names).value.File? ==>
      dir + "/" + Rel(names) in fs && fs[dir + "/" + Rel(names)] == Lookup(tree, names).value.content
  }

  /** When the two listings are those of the files in `fs`, every common file can be opened. */
  lemma MountedOpen(a: map<string, Node>, b: map<string, Node>, fs: map<string, Bytes>, dir1: string, dir2: string)
    requires Mounted(fs, dir1, a) && Mounted(fs, dir2, b)
    ensures CommonOpen(a, b, fs, dir1, dir2)
  {
    forall names | CommonFileAt(a, b, names) ensures dir1 + "/" + Rel(names) in fs && dir2 + "/" + Rel(names) in fs {
      CommonFileLookup(a, b, names);
    }
  }

  /**
   * Two copies of the same tree are alike whatever SHA-1 is: nothing is one
   * sided and every common file has the same content on both sides.
   */
  lemma CopiesAlike(a: map<string, Node>, fs: map<string, Bytes>, dir1: string, dir2: string, sha1: Bytes -> Sha1Digest)
    requires Mounted(fs, dir1, a) && Mounted(fs, dir2, a)
    ensures CommonOpen(a, a, fs, dir1, dir2) && Alike(a, a, fs, dir1, dir2, sha1)
  {
    MountedOpen(a, a, fs, dir1, dir2);
    forall names ensures !LeftOnlyAt(a, a, names) && !RightOnlyAt(a, a, names) {
      NothingOneSidedInSameTree(a, names);
    }
    forall names | CommonFileAt(a, a, names) ensures !DigestsDiffer(fs, sha1, Pair(dir1, dir2, Rel(names))) {
      CommonFileLookup(a, a, names);
    }
  }
}
