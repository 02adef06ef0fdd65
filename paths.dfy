/**
 * POSIX path strings as the comparison script builds and takes them apart.
 *
 * The script itself writes `parent + "/" + name`; `filecmp.dircmp` names
 * its sub-comparisons with `os.path.join(parent, name)`, which on POSIX
 * adds no separator when `parent` is empty or already ends with one.
 */
module Paths {
  import opened LexOrder

  /** A name `os.listdir` can return: not empty, no separator inside. */
  predicate ValidName(n: string)
  {
    |n| > 0 && '/' !in n
  }

  /** What `os.path.join(dir, name)` puts before a relative `name`. */
  function DirPrefix(dir: string): string
  {
    if dir == [] || dir[|dir| - 1] == '/' then dir else dir + "/"
  }

  /** `os.path.join(dir, name)` for a relative `name` (posixpath). */
  function JoinPath(dir: string, name: string): string
  {
    DirPrefix(dir) + name
  }

  /** The relative path of a sequence of names: the names joined by '/'. */
  function Rel(names: seq<string>): string
    requires |names| > 0
    decreases |names|
  {
    if |names| == 1 then names[0] else names[0] + "/" + Rel(names[1..])
  }

  /** `path[len(root)+1:]`, Python slicing included: too short a path gives "". */
  function StripRoot(root: string, path: string): (rel: string)
    ensures |rel| == if |path| > |root| then |path| - |root| - 1 else 0
  {
    if |path| >= |root| + 1 then path[|root| + 1..] else ""
  }

  /** Joining a valid name gives a directory path that does not end in '/'. */
  lemma JoinedPrefix(dir: string, name: string)
    requires ValidName(name)
    ensures DirPrefix(JoinPath(dir, name)) == JoinPath(dir, name) + "/"
  {
    var j := JoinPath(dir, name);
    assert j[|j| - 1] == name[|name| - 1];
    assert name[|name| - 1] in name;
  }

  /** For valid names, a relative path holds a separator exactly when it has several names. */
  lemma RelSeparator(names: seq<string>)
    requires |names| > 0 && forall i :: 0 <= i < |names| ==> ValidName(names[i])
    ensures '/' in Rel(names) <==> |names| > 1
  {
    if |names| > 1 {
      var r := Rel(names);
      assert r[|names[0]|] == '/';
    } else {
      assert ValidName(names[0]);
    }
  }

  /** No separator occurs in `p` over the span of a valid name placed at `k`. */
  lemma NameSpan(p: string, k: nat, s: string)
    requires ValidName(s) && k + |s| <= |p| && p[k..k + |s|] == s
    ensures forall i :: k <= i < k + |s| ==> p[i] != '/'
  {
    forall i | k <= i < k + |s| ensures p[i] != '/' {
      assert p[i] == s[i - k];
      assert s[i - k] in s;
    }
  }

  /**
   * The separator after a valid name is the first one: when two names
   * followed by '/' both begin `p` right after `x`, they are the same name.
   */
  lemma SiblingsApart(x: string, s: string, t: string, p: string)
    requires ValidName(s) && ValidName(t)
    requires x + s + "/" <= p && x + t + "/" <= p
    ensures s == t
  {
    var k := |x|;
    assert p[k..k + |s|] == s && p[k + |s|] == '/';
    assert p[k..k + |t|] == t && p[k + |t|] == '/';
    NameSpan(p, k, s);
    NameSpan(p, k, t);
    assert |s| == |t|;
  }

  /** A valid name does not hold a deeper path. */
  lemma NameNotUnderName(x: string, n: string, s: string)
    requires ValidName(n)
    ensures !(x + s + "/" <= x + n)
  {
    var p, q := x + n, x + s + "/";
    if |q| <= |p| {
      assert q[|x| + |s|] == '/';
      assert p[|x| + |s|] == n[|s|];
      assert n[|s|] in n;
    }
  }

  /**
   * A path `dir + "/" + n` written at one level is never under a
   * sub-directory joined with `os.path.join` at the same level.
   */
  lemma EntryNotUnderJoined(dir: string, n: string, s: string)
    requires ValidName(n) && ValidName(s)
    ensures !(DirPrefix(dir) + s + "/" <= dir + "/" + n)
  {
    if DirPrefix(dir) == dir + "/" {
      NameNotUnderName(dir + "/", n, s);
    } else {
      var p, q := dir + "/" + n, dir + s + "/";
      assert q[|dir|] == s[0] && p[|dir|] == '/';
      assert s[0] in s;
    }
  }

  /** Two entries written below the same directory are the same path only for the same name. */
  lemma SameEntry(dir: string, s: string, t: string)
    requires dir + "/" + s == dir + "/" + t
    ensures s == t
  {
    assert (dir + "/" + s)[|dir| + 1..] == s;
    assert (dir + "/" + t)[|dir| + 1..] == t;
  }

  /** A path `dir + "/" + n` lies under the directory `dir`. */
  lemma EntryUnder(dir: string, n: string)
    ensures DirPrefix(dir) <= dir + "/" + n
  {
    var p := dir + "/" + n;
    assert p[..|dir| + 1] == dir + "/";
  }

  /** A path under the sub-directory `x + s + "/"` is under `x`. */
  lemma UnderSubdir(x: string, s: string, p: string)
    requires x + s + "/" <= p
    ensures x <= p
  {
    assert p[..|x|] == (x + s + "/")[..|x|];
  }

  /** Distinct sequences of valid names have distinct relative paths. */
  lemma {:induction false} RelInjective(xs: seq<string>, ys: seq<string>)
    requires |xs| > 0 && |ys| > 0
    requires forall i :: 0 <= i < |xs| ==> ValidName(xs[i])
    requires forall i :: 0 <= i < |ys| ==> ValidName(ys[i])
    requires Rel(xs) == Rel(ys)
    ensures xs == ys
    decreases |xs|
  {
    RelSeparator(xs);
    RelSeparator(ys);
    if |xs| > 1 {
      var p := Rel(xs);
      assert [] + xs[0] + "/" <= p;
      assert [] + ys[0] + "/" <= p;
      SiblingsApart([], xs[0], ys[0], p);
      assert Rel(xs[1..]) == p[|xs[0]| + 1..] == Rel(ys[1..]);
      RelInjective(xs[1..], ys[1..]);
      assert xs == [xs[0]] + xs[1..];
      assert ys == [ys[0]] + ys[1..];
    }
  }

  /** Stripping the root from a path built under it gives the relative part back. */
  lemma StripRootOfJoined(root: string, rel: string)
    ensures StripRoot(root, root + "/" + rel) == rel
  {
    assert (root + "/" + rel)[|root| + 1..] == rel;
  }

  /** Re-prefixing a stripped path reproduces the path, for every path under the root. */
  lemma JoinStripped(root: string, path: string)
    requires root + "/" <= path
    ensures root + "/" + StripRoot(root, path) == path
  {
    assert path == path[..|root| + 1] + path[|root| + 1..];
  }

  /** `parent + "/" + n` for every name `n`, in order: what the script appends for one directory level. */
  function Entries(parent: string, names: seq<string>): seq<string>
  {
    if names == [] then [] else Entries(parent, names[..|names| - 1]) + [parent + "/" + names[|names| - 1]]
  }

  /** `Entries` has one path per name, each the parent, a separator and that name. */
  lemma {:induction false} EntriesShape(parent: string, names: seq<string>)
    ensures |Entries(parent, names)| == |names|
    ensures forall i :: 0 <= i < |names| ==> Entries(parent, names)[i] == parent + "/" + names[i]
    decreases |names|
  {
    if names != [] {
      EntriesShape(parent, names[..|names| - 1]);
    }
  }

  /**
   * The loop `for filename in names: paths.append(parent + "/" + filename)`
   * both `find_unique_files` and `build_common_files` run over one level.
   */
  method AppendEntries(paths: seq<string>, parent: string, names: seq<string>) returns (r: seq<string>)
    ensures r == paths + Entries(parent, names)
  {
    r := paths;
    for i := 0 to |names|
      invariant r == paths + Entries(parent, names[..i])
    {
      assert names[..i + 1][..i] == names[..i];
      r := r + [parent + "/" + names[i]];
    }
    assert names[..|names|] == names;
  }

  /** Every path in `m` starts with `dir`. */
  ghost predicate AllUnder(m: multiset<string>, dir: string)
  {
    forall p :: p in m ==> dir <= p
  }

  /** Paths written at one level for distinct names are distinct. */
  lemma EntriesDistinct(parent: string, names: seq<string>)
    requires forall i, j :: 0 <= i < j < |names| ==> names[i] != names[j]
    ensures NoDuplicates(multiset(Entries(parent, names)))
  {
    EntriesShape(parent, names);
    var e := Entries(parent, names);
    forall i, j | 0 <= i < j < |e| ensures e[i] != e[j] {
      assert e[i][|parent| + 1..] == names[i];
      assert e[j][|parent| + 1..] == names[j];
    }
    DistinctNoDuplicates(e);
  }
}
