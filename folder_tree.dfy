/** The directory tree the folder-size reporter walks, the walk itself
    (os.walk from the root, top-down, with the caller's pruning of dirnames),
    and the sizes the walk is meant to compute: for every directory, the total
    size of the files under it that the exclusion pattern does not match. */
module FolderTree {
  import opened Common
  import opened PosixPath

  /** A directory listing entry: a file with its size in bytes, or a
      subdirectory with its own listing (in the order os.scandir gives). */
  datatype Entry = File(name: string, size: nat) | Dir(name: string, children: seq<Entry>)

  /** What os.walk yields for one directory: its path relative to the root (as
      components) and its listing. */
  datatype Visit = Visit(path: seq<string>, listing: seq<Entry>)

  /** Real file systems: every name is a single non-empty path segment and
      no two entries of one directory share a name. */
  predicate WellFormed(cs: seq<Entry>)
  {
    && (forall i :: 0 <= i < |cs| ==> IsName(cs[i].name))
    && (forall i, j :: 0 <= i < j < |cs| ==> cs[i].name != cs[j].name)
    && (forall i :: 0 <= i < |cs| && cs[i].Dir? ==> WellFormed(cs[i].children))
  }

  /** A subdirectory the walk descends into. */
  predicate Kept(e: Entry, pruned: string -> bool)
  {
    e.Dir? && !pruned(e.name)
  }

  // ---------------------------------------------------------------------------
  // The walk

  /** os.walk below a directory at `path` with listing cs: every kept
      subdirectory is yielded and then walked, before its next sibling. */
  function WalkBelow(path: seq<string>, cs: seq<Entry>, pruned: string -> bool): seq<Visit>
    decreases cs
  {
    if cs == [] then []
    else
      (if Kept(cs[0], pruned)
       then [Visit(path + [cs[0].name], cs[0].children)] + WalkBelow(path + [cs[0].name], cs[0].children, pruned)
       else [])
      + WalkBelow(path, cs[1..], pruned)
  }

  /** os.walk of a directory: itself first, then everything below it. */
  function Walk(path: seq<string>, cs: seq<Entry>, pruned: string -> bool): seq<Visit>
  {
    [Visit(path, cs)] + WalkBelow(path, cs, pruned)
  }

  function Paths(vs: seq<Visit>): (ps: seq<seq<string>>)
    ensures |ps| == |vs| && forall k :: 0 <= k < |vs| ==> ps[k] == vs[k].path
  {
    if vs == [] then [] else [vs[0].path] + Paths(vs[1..])
  }

  // ---------------------------------------------------------------------------
  // Sizes

  /** Size of the files directly in a listing that the pattern does not match
      (lines 130 and 133 of the source). */
  function FilesSize(cs: seq<Entry>, pruned: string -> bool): (n: nat)
  {
    if cs == [] then 0
    else (if cs[0].File? && !pruned(cs[0].name) then cs[0].size else 0) + FilesSize(cs[1..], pruned)
  }

  /** Total size of the counted files anywhere below a listing: a matched file
      counts nothing, a matched directory contributes nothing at all. */
  function Total(cs: seq<Entry>, pruned: string -> bool): nat
    decreases cs
  {
    if cs == [] then 0
    else
      (match cs[0]
       case File(n, s) => if pruned(n) then 0 else s
       case Dir(n, ch) => if pruned(n) then 0 else Total(ch, pruned))
      + Total(cs[1..], pruned)
  }

  /** The sizes of all counted files below a listing, depth first. */
  function CountedFiles(cs: seq<Entry>, pruned: string -> bool): seq<int>
    decreases cs
  {
    if cs == [] then []
    else
      (match cs[0]
       case File(n, s) => if pruned(n) then [] else [s]
       case Dir(n, ch) => if pruned(n) then [] else CountedFiles(ch, pruned))
      + CountedFiles(cs[1..], pruned)
  }

  /** The total is the sum of the sizes of all counted files. */
  lemma {:induction false} TotalIsSumOfCountedFiles(cs: seq<Entry>, pruned: string -> bool)
    ensures Total(cs, pruned) == Sum(CountedFiles(cs, pruned))
    decreases cs
  {
    if cs != [] {
      var head := match cs[0]
        case File(n, s) => if pruned(n) then [] else [s]
        case Dir(n, ch) => if pruned(n) then [] else CountedFiles(ch, pruned);
      SumAppend(head, CountedFiles(cs[1..], pruned));
      TotalIsSumOfCountedFiles(cs[1..], pruned);
      if cs[0].Dir? && !pruned(cs[0].name) {
        TotalIsSumOfCountedFiles(cs[0].children, pruned);
      } else if cs[0].File? && !pruned(cs[0].name) {
        assert Sum(head) == cs[0].size;
      }
    }
  }

  /** Sum of the totals of the kept subdirectories of a listing. */
  function SubdirTotals(cs: seq<Entry>, pruned: string -> bool): nat
    decreases cs
  {
    if cs == [] then 0
    else (if Kept(cs[0], pruned) then Total(cs[0].children, pruned) else 0) + SubdirTotals(cs[1..], pruned)
  }

  /** A directory's total is its own counted files plus the totals of its kept
      subdirectories. */
  lemma {:induction false} TotalSplit(cs: seq<Entry>, pruned: string -> bool)
    ensures Total(cs, pruned) == FilesSize(cs, pruned) + SubdirTotals(cs, pruned)
  {
    if cs != [] {
      TotalSplit(cs[1..], pruned);
    }
  }

  /** The total of the directory at a relative path below a listing (the sum
      over all directories at that path, of which a well-formed tree has at
      most one). */
  function TotalAt(cs: seq<Entry>, rel: seq<string>, pruned: string -> bool): nat
    decreases cs, 1
  {
    if rel == [] then Total(cs, pruned) else TotalAtChild(cs, rel[0], rel[1..], pruned)
  }

  function TotalAtChild(cs: seq<Entry>, n: string, rest: seq<string>, pruned: string -> bool): nat
    decreases cs, 0
  {
    if cs == [] then 0
    else
      (if Kept(cs[0], pruned) && cs[0].name == n then TotalAt(cs[0].children, rest, pruned) else 0)
      + TotalAtChild(cs[1..], n, rest, pruned)
  }

  // ---------------------------------------------------------------------------
  // What the walk's visits add up to

  predicate IsPrefix(p: seq<string>, q: seq<string>)
  {
    |p| <= |q| && q[..|p|] == p
  }

  /** Sum of the counted direct file sizes of the visits whose path lies at or
      below p: what the ancestor loop adds to the entry of p. */
  function SumBelow(vs: seq<Visit>, p: seq<string>, pruned: string -> bool): int
  {
    if vs == [] then 0
    else (if IsPrefix(p, vs[0].path) then FilesSize(vs[0].listing, pruned) else 0) + SumBelow(vs[1..], p, pruned)
  }

  lemma {:induction false} SumBelowAppend(a: seq<Visit>, b: seq<Visit>, p: seq<string>, pruned: string -> bool)
    ensures SumBelow(a + b, p, pruned) == SumBelow(a, p, pruned) + SumBelow(b, p, pruned)
  {
    if a == [] {
      assert a + b == b;
    } else {
      assert (a + b)[1..] == a[1..] + b;
      SumBelowAppend(a[1..], b, p, pruned);
    }
  }

  /** Every visit of a walk below `path` lies strictly below it. */
  lemma {:induction false} WalkBelowPaths(path: seq<string>, cs: seq<Entry>, pruned: string -> bool)
    ensures forall v :: v in WalkBelow(path, cs, pruned) ==> |v.path| > |path| && v.path[..|path|] == path
    decreases cs
  {
    if cs != [] {
      WalkBelowPaths(path, cs[1..], pruned);
      if Kept(cs[0], pruned) {
        var q := path + [cs[0].name];
        WalkBelowPaths(q, cs[0].children, pruned);
        forall v | v in WalkBelow(q, cs[0].children, pruned)
          ensures v.path[..|path|] == path
        {
          assert v.path[..|path|] == v.path[..|q|][..|path|];
        }
      }
    }
  }

  /** When no visit lies at or below p, they add nothing to p. */
  lemma {:induction false} SumBelowNone(vs: seq<Visit>, p: seq<string>, pruned: string -> bool)
    requires forall v :: v in vs ==> !IsPrefix(p, v.path)
    ensures SumBelow(vs, p, pruned) == 0
  {
    if vs != [] {
      assert vs[0] in vs;
      assert forall v :: v in vs[1..] ==> v in vs;
      SumBelowNone(vs[1..], p, pruned);
    }
  }

  /** The direct file sizes of all visits of a walk below a listing add up to
      the totals of its kept subdirectories. */
  lemma {:induction false} WalkBelowFiles(path: seq<string>, cs: seq<Entry>, pruned: string -> bool)
    ensures SumBelow(WalkBelow(path, cs, pruned), path, pruned) == SubdirTotals(cs, pruned)
    decreases cs, 0
  {
    if cs != [] {
      var first := if Kept(cs[0], pruned)
        then [Visit(path + [cs[0].name], cs[0].children)] + WalkBelow(path + [cs[0].name], cs[0].children, pruned)
        else [];
      SumBelowAppend(first, WalkBelow(path, cs[1..], pruned), path, pruned);
      WalkBelowFiles(path, cs[1..], pruned);
      if Kept(cs[0], pruned) {
        var q := path + [cs[0].name];
        WalkTotal(q, cs[0].children, pruned);
        WalkPathsBelow(q, cs[0].children, pruned);
        assert first == Walk(q, cs[0].children, pruned);
        SumBelowPrefixWiden(Walk(q, cs[0].children, pruned), path, q, pruned);
      }
    }
  }

  /** All visits of a walk from `path` add up to the total of its listing. */
  lemma {:induction false} WalkTotal(path: seq<string>, cs: seq<Entry>, pruned: string -> bool)
    ensures SumBelow(Walk(path, cs, pruned), path, pruned) == Total(cs, pruned)
    decreases cs, 1
  {
    WalkBelowFiles(path, cs, pruned);
    TotalSplit(cs, pruned);
    assert Walk(path, cs, pruned)[1..] == WalkBelow(path, cs, pruned);
  }

  /** Visits that all lie at or below q also lie at or below any prefix of q. */
  lemma {:induction false} SumBelowPrefixWiden(vs: seq<Visit>, p: seq<string>, q: seq<string>, pruned: string -> bool)
    requires IsPrefix(p, q)
    requires forall v :: v in vs ==> IsPrefix(q, v.path)
    ensures SumBelow(vs, p, pruned) == SumBelow(vs, q, pruned)
  {
    if vs != [] {
      assert vs[0] in vs;
      assert vs[0].path[..|p|] == vs[0].path[..|q|][..|p|];
      assert forall v :: v in vs[1..] ==> v in vs;
      SumBelowPrefixWiden(vs[1..], p, q, pruned);
    }
  }

  lemma WalkPathsBelow(path: seq<string>, cs: seq<Entry>, pruned: string -> bool)
    ensures forall v :: v in Walk(path, cs, pruned) ==> IsPrefix(path, v.path)
  {
    WalkBelowPaths(path, cs, pruned);
  }

  /** The walk's visits at or below path + rel add up to the total at rel. */
  lemma {:induction false} WalkSumAt(path: seq<string>, cs: seq<Entry>, rel: seq<string>, pruned: string -> bool)
    ensures SumBelow(Walk(path, cs, pruned), path + rel, pruned) == TotalAt(cs, rel, pruned)
    decreases cs, 1
  {
    if rel == [] {
      assert path + rel == path;
      WalkTotal(path, cs, pruned);
    } else {
      SumBelowAppend([Visit(path, cs)], WalkBelow(path, cs, pruned), path + rel, pruned);
      assert !IsPrefix(path + rel, path);
      WalkBelowSumAt(path, cs, rel[0], rel[1..], pruned);
      assert path + [rel[0]] + rel[1..] == path + rel;
    }
  }

  lemma {:induction false} WalkBelowSumAt(path: seq<string>, cs: seq<Entry>, n: string, rest: seq<string>, pruned: string -> bool)
    ensures SumBelow(WalkBelow(path, cs, pruned), path + [n] + rest, pruned) == TotalAtChild(cs, n, rest, pruned)
    decreases cs, 0
  {
    if cs != [] {
      var target := path + [n] + rest;
      var first := if Kept(cs[0], pruned)
        then [Visit(path + [cs[0].name], cs[0].children)] + WalkBelow(path + [cs[0].name], cs[0].children, pruned)
        else [];
      SumBelowAppend(first, WalkBelow(path, cs[1..], pruned), target, pruned);
      WalkBelowSumAt(path, cs[1..], n, rest, pruned);
      if Kept(cs[0], pruned) {
        var q := path + [cs[0].name];
        assert first == Walk(q, cs[0].children, pruned);
        if cs[0].name == n {
          assert target == q + rest;
          WalkSumAt(q, cs[0].children, rest, pruned);
        } else {
          WalkPathsBelow(q, cs[0].children, pruned);
          forall v | v in first ensures !IsPrefix(target, v.path) {
            assert IsPrefix(q, v.path);
            assert v.path[|path|] == v.path[..|q|][|path|] == cs[0].name;
            assert target[|path|] == n;
          }
          SumBelowNone(first, target, pruned);
        }
      }
    }
  }

  // ---------------------------------------------------------------------------
  // Path strings

  predicate AllNames(rel: seq<string>)
  {
    forall i :: 0 <= i < |rel| ==> IsName(rel[i])
  }

  /** The dirpath os.walk reports for the directory at rel below root: each
      level joins a name onto its parent's dirpath. */
  function DirPath(root: string, rel: seq<string>): string
  {
    if rel == [] then root else Join(DirPath(root, rel[..|rel| - 1]), rel[|rel| - 1])
  }

  /** Below a normalized root, every dirpath is normalized and longer than the
      root. */
  lemma {:induction false} DirPathShape(root: string, rel: seq<string>)
    requires Normalized(root) && AllNames(rel)
    ensures Normalized(DirPath(root, rel))
    ensures |DirPath(root, rel)| >= |root| + |rel|
  {
    if rel != [] {
      var n := rel[|rel| - 1];
      DirPathShape(root, rel[..|rel| - 1]);
      var r := DirPath(root, rel);
      assert n[|n| - 1] in n;
      assert r[|r| - |n|..] == n;
      assert r[|r| - 1] == n[|n| - 1];
    }
  }

  /** dirname steps from a directory's dirpath to its parent's, and basename
      gives back the last name. */
  lemma DirPathParent(root: string, rel: seq<string>)
    requires Normalized(root) && AllNames(rel) && rel != []
    ensures Dirname(DirPath(root, rel)) == DirPath(root, rel[..|rel| - 1])
    ensures Basename(DirPath(root, rel)) == rel[|rel| - 1]
  {
    DirPathShape(root, rel[..|rel| - 1]);
    DirnameJoin(DirPath(root, rel[..|rel| - 1]), rel[|rel| - 1]);
  }

  /** dirname of the dirpath of a path's prefix of length j is that of its
      prefix of length j - 1. */
  lemma DirPathPrefixParent(root: string, rel: seq<string>, j: int)
    requires Normalized(root) && AllNames(rel) && 0 < j <= |rel|
    ensures Dirname(DirPath(root, rel[..j])) == DirPath(root, rel[..j - 1])
  {
    DirPathParent(root, rel[..j]);
    assert rel[..j][..j - 1] == rel[..j - 1];
  }

  /** Different directories have different dirpaths. */
  lemma {:induction false} DirPathInjective(root: string, a: seq<string>, b: seq<string>)
    requires Normalized(root) && AllNames(a) && AllNames(b)
    requires DirPath(root, a) == DirPath(root, b)
    ensures a == b
    decreases |a|
  {
    if a == [] || b == [] {
      OnlyRootIsRoot(root, a, b);
    } else {
      var a', b' := a[..|a| - 1], b[..|b| - 1];
      assert AllNames(a') && AllNames(b');
      SameParent(root, a, b);
      DirPathInjective(root, a', b');
      SameInitAndLast(a, b);
    }
  }

  /** Sequences agreeing on all but their last elements, and on those, are
      equal. */
  lemma SameInitAndLast(a: seq<string>, b: seq<string>)
    requires a != [] && b != []
    requires a[..|a| - 1] == b[..|b| - 1] && a[|a| - 1] == b[|b| - 1]
    ensures a == b
  {
    assert a == a[..|a| - 1] + [a[|a| - 1]];
    assert b == b[..|b| - 1] + [b[|b| - 1]];
  }

  /** Two directories with the same dirpath have the same name and parents
      with the same dirpath. */
  lemma SameParent(root: string, a: seq<string>, b: seq<string>)
    requires Normalized(root) && AllNames(a) && AllNames(b) && a != [] && b != []
    requires DirPath(root, a) == DirPath(root, b)
    ensures DirPath(root, a[..|a| - 1]) == DirPath(root, b[..|b| - 1])
    ensures a[|a| - 1] == b[|b| - 1]
  {
    DirPathParent(root, a);
    DirPathParent(root, b);
  }

  /** The root's dirpath is no other directory's. */
  lemma OnlyRootIsRoot(root: string, a: seq<string>, b: seq<string>)
    requires Normalized(root) && AllNames(a) && AllNames(b)
    requires DirPath(root, a) == DirPath(root, b) && (a == [] || b == [])
    ensures a == b == []
  {
    DirPathShape(root, a);
    DirPathShape(root, b);
  }

  /** The ancestor loop's exit test: a dirpath equals the root exactly for the
      root itself. */
  lemma DirPathIsRoot(root: string, rel: seq<string>)
    requires Normalized(root) && AllNames(rel)
    ensures DirPath(root, rel) == root <==> rel == []
  {
    DirPathShape(root, rel);
  }

  // ---------------------------------------------------------------------------
  // The walk is top-down: a directory comes before everything below it

  /** No visit lies at or above an earlier one, and from depth b on every
      ancestor of a visit was visited before it. */
  predicate PreOrderFrom(vs: seq<Visit>, b: nat)
  {
    && (forall k, l {:trigger IsPrefix(vs[l].path, vs[k].path)} :: 0 <= k < l < |vs| ==> !IsPrefix(vs[l].path, vs[k].path))
    && (forall l, j :: 0 <= l < |vs| && b <= j <= |vs[l].path| ==>
          exists k :: 0 <= k <= l && vs[k].path == vs[l].path[..j])
  }

  predicate PreOrder(vs: seq<Visit>)
  {
    PreOrderFrom(vs, 0)
  }

  lemma PreOrderConcat(a: seq<Visit>, c: seq<Visit>, b: nat)
    requires PreOrderFrom(a, b) && PreOrderFrom(c, b)
    requires forall x, y :: x in a && y in c ==> !IsPrefix(y.path, x.path)
    ensures PreOrderFrom(a + c, b)
  {
    var vs := a + c;
    forall k, l | 0 <= k < l < |vs| ensures !IsPrefix(vs[l].path, vs[k].path) {
      if l < |a| {
        assert vs[l] == a[l] && vs[k] == a[k];
      } else if k >= |a| {
        assert vs[l] == c[l - |a|] && vs[k] == c[k - |a|];
      } else {
        assert vs[k] == a[k] && a[k] in a;
        assert vs[l] == c[l - |a|] && c[l - |a|] in c;
      }
    }
    forall l, j | 0 <= l < |vs| && b <= j <= |vs[l].path|
      ensures exists k :: 0 <= k <= l && vs[k].path == vs[l].path[..j]
    {
      if l < |a| {
        assert vs[l] == a[l];
        var k :| 0 <= k <= l && a[k].path == a[l].path[..j];
        assert vs[k] == a[k];
      } else {
        assert vs[l] == c[l - |a|];
        var k :| 0 <= k <= l - |a| && c[k].path == c[l - |a|].path[..j];
        assert vs[k + |a|] == c[k];
      }
    }
  }

  /** Every visit below a listing goes through one of its kept subdirectories. */
  lemma {:induction false} WalkBelowHeads(path: seq<string>, cs: seq<Entry>, pruned: string -> bool)
    ensures forall v :: v in WalkBelow(path, cs, pruned) ==>
      |v.path| > |path| && exists i :: 0 <= i < |cs| && Kept(cs[i], pruned) && v.path[|path|] == cs[i].name
    decreases cs
  {
    WalkBelowPaths(path, cs, pruned);
    if cs != [] {
      WalkBelowHeads(path, cs[1..], pruned);
      forall v | v in WalkBelow(path, cs, pruned)
        ensures exists i :: 0 <= i < |cs| && Kept(cs[i], pruned) && v.path[|path|] == cs[i].name
      {
        if v in WalkBelow(path, cs[1..], pruned) {
          var i :| 0 <= i < |cs[1..]| && Kept(cs[1..][i], pruned) && v.path[|path|] == cs[1..][i].name;
          assert cs[1..][i] == cs[i + 1];
        } else {
          var q := path + [cs[0].name];
          WalkBelowPaths(q, cs[0].children, pruned);
          assert Kept(cs[0], pruned);
          if v != Visit(q, cs[0].children) {
            assert v in WalkBelow(q, cs[0].children, pruned);
            assert v.path[|path|] == v.path[..|q|][|path|];
          }
          assert v.path[|path|] == cs[0].name;
        }
      }
    }
  }

  lemma {:induction false} WalkBelowPreOrder(path: seq<string>, cs: seq<Entry>, pruned: string -> bool)
    requires WellFormed(cs)
    ensures PreOrderFrom(WalkBelow(path, cs, pruned), |path| + 1)
    decreases cs, 0
  {
    if cs != [] {
      assert WellFormed(cs[1..]);
      WalkBelowPreOrder(path, cs[1..], pruned);
      if Kept(cs[0], pruned) {
        var q := path + [cs[0].name];
        var a := Walk(q, cs[0].children, pruned);
        WalkPreOrder(q, cs[0].children, pruned);
        WalkPathsBelow(q, cs[0].children, pruned);
        WalkBelowHeads(path, cs[1..], pruned);
        forall x, y | x in a && y in WalkBelow(path, cs[1..], pruned)
          ensures !IsPrefix(y.path, x.path)
        {
          var i :| 0 <= i < |cs[1..]| && Kept(cs[1..][i], pruned) && y.path[|path|] == cs[1..][i].name;
          assert cs[1..][i] == cs[i + 1];
          assert x.path[|path|] == x.path[..|q|][|path|] == cs[0].name;
        }
        PreOrderConcat(a, WalkBelow(path, cs[1..], pruned), |path| + 1);
      } else {
        assert WalkBelow(path, cs, pruned) == WalkBelow(path, cs[1..], pruned);
      }
    }
  }

  /** A walk from `path` is top-down from that depth on. */
  lemma {:induction false} WalkPreOrder(path: seq<string>, cs: seq<Entry>, pruned: string -> bool)
    requires WellFormed(cs)
    ensures PreOrderFrom(Walk(path, cs, pruned), |path|)
    decreases cs, 1
  {
    WalkBelowPreOrder(path, cs, pruned);
    WalkBelowPaths(path, cs, pruned);
    WalkNotAbove(path, cs, pruned);
    WalkAncestors(path, cs, pruned);
  }

  lemma WalkNotAbove(path: seq<string>, cs: seq<Entry>, pruned: string -> bool)
    requires PreOrderFrom(WalkBelow(path, cs, pruned), |path| + 1)
    requires forall v :: v in WalkBelow(path, cs, pruned) ==> |v.path| > |path| && v.path[..|path|] == path
    ensures var vs := Walk(path, cs, pruned);
      forall k, l :: 0 <= k < l < |vs| ==> !IsPrefix(vs[l].path, vs[k].path)
  {
    var below := WalkBelow(path, cs, pruned);
    var vs := Walk(path, cs, pruned);
    forall k, l | 0 <= k < l < |vs| ensures !IsPrefix(vs[l].path, vs[k].path) {
      assert vs[l] == below[l - 1] && below[l - 1] in below;
      if k > 0 {
        assert vs[k] == below[k - 1];
      }
    }
  }

  lemma WalkAncestors(path: seq<string>, cs: seq<Entry>, pruned: string -> bool)
    requires PreOrderFrom(WalkBelow(path, cs, pruned), |path| + 1)
    requires forall v :: v in WalkBelow(path, cs, pruned) ==> |v.path| > |path| && v.path[..|path|] == path
    ensures var vs := Walk(path, cs, pruned);
      forall l, j :: 0 <= l < |vs| && |path| <= j <= |vs[l].path| ==>
        exists k :: 0 <= k <= l && vs[k].path == vs[l].path[..j]
  {
    var below := WalkBelow(path, cs, pruned);
    forall l, j | 0 <= l < 1 + |below| && |path| <= j <= |([Visit(path, cs)] + below)[l].path|
      ensures exists k :: 0 <= k <= l && ([Visit(path, cs)] + below)[k].path == ([Visit(path, cs)] + below)[l].path[..j]
    {
      ConsAncestor(Visit(path, cs), below, l, j);
    }
  }

  /** One ancestor of one visit, for a directory followed by the walk below it. */
  lemma ConsAncestor(first: Visit, below: seq<Visit>, l: nat, j: nat)
    requires PreOrderFrom(below, |first.path| + 1)
    requires forall v :: v in below ==> |v.path| > |first.path| && v.path[..|first.path|] == first.path
    requires l < 1 + |below|
    requires |first.path| <= j <= |([first] + below)[l].path|
    ensures exists k :: 0 <= k <= l && ([first] + below)[k].path == ([first] + below)[l].path[..j]
  {
    var vs := [first] + below;
    if l == 0 {
      assert vs[0].path == vs[0].path[..j];
    } else if j == |first.path| {
      assert vs[l] == below[l - 1] && below[l - 1] in below;
      assert vs[0].path == vs[l].path[..j];
    } else {
      assert vs[l] == below[l - 1];
      var k :| 0 <= k <= l - 1 && below[k].path == below[l - 1].path[..j];
      assert vs[k + 1] == below[k];
    }
  }

  /** Every name on a visited path is a real name the pattern does not match:
      a matched directory is never entered. */
  lemma {:induction false} WalkBelowNames(path: seq<string>, cs: seq<Entry>, pruned: string -> bool)
    requires WellFormed(cs)
    ensures forall v :: v in WalkBelow(path, cs, pruned) ==>
      forall i :: |path| <= i < |v.path| ==> IsName(v.path[i]) && !pruned(v.path[i])
    decreases cs
  {
    WalkBelowPaths(path, cs, pruned);
    if cs != [] {
      assert WellFormed(cs[1..]);
      WalkBelowNames(path, cs[1..], pruned);
      if Kept(cs[0], pruned) {
        var q := path + [cs[0].name];
        WalkBelowNames(q, cs[0].children, pruned);
        WalkBelowPaths(q, cs[0].children, pruned);
        forall v, i | v in WalkBelow(path, cs, pruned) && v !in WalkBelow(path, cs[1..], pruned) && |path| <= i < |v.path|
          ensures IsName(v.path[i]) && !pruned(v.path[i])
        {
          if i == |path| {
            if v != Visit(q, cs[0].children) {
              assert v.path[i] == v.path[..|q|][i];
            }
          }
        }
      }
    }
  }

  /** The visits of a walk from the root of a well-formed tree: top-down, and
      every path made of unmatched names. */
  lemma WalkFromRoot(cs: seq<Entry>, pruned: string -> bool)
    requires WellFormed(cs)
    ensures PreOrder(Walk([], cs, pruned))
    ensures Walk([], cs, pruned)[0].path == []
    ensures forall v :: v in Walk([], cs, pruned) ==> AllNames(v.path)
    ensures forall v, i :: v in Walk([], cs, pruned) && 0 <= i < |v.path| ==> !pruned(v.path[i])
  {
    WalkPreOrder([], cs, pruned);
    WalkBelowNames([], cs, pruned);
  }

  // ---------------------------------------------------------------------------
  // Each visited directory's figure is its own subtree total

  /** Nothing below a listing is reached through a name no entry carries. */
  lemma {:induction false} TotalAtChildAbsent(cs: seq<Entry>, n: string, rest: seq<string>, pruned: string -> bool)
    requires forall i :: 0 <= i < |cs| ==> cs[i].name != n
    ensures TotalAtChild(cs, n, rest, pruned) == 0
  {
    if cs != [] {
      TotalAtChildAbsent(cs[1..], n, rest, pruned);
    }
  }

  /** For a well-formed tree, the total at a visited directory's relative path
      is the total of that directory's own listing. */
  lemma {:induction false} VisitTotal(path: seq<string>, cs: seq<Entry>, v: Visit, pruned: string -> bool)
    requires WellFormed(cs) && v in Walk(path, cs, pruned)
    ensures |path| <= |v.path|
    ensures TotalAt(cs, v.path[|path|..], pruned) == Total(v.listing, pruned)
    decreases cs, 1
  {
    WalkPathsBelow(path, cs, pruned);
    if v != Visit(path, cs) {
      WalkBelowPaths(path, cs, pruned);
      assert v in WalkBelow(path, cs, pruned);
      VisitBelowTotal(path, cs, v, pruned);
      assert v.path[|path|..][1..] == v.path[|path| + 1..];
    }
  }

  lemma {:induction false} VisitBelowTotal(path: seq<string>, cs: seq<Entry>, v: Visit, pruned: string -> bool)
    requires WellFormed(cs) && v in WalkBelow(path, cs, pruned)
    ensures |path| < |v.path|
    ensures TotalAtChild(cs, v.path[|path|], v.path[|path| + 1..], pruned) == Total(v.listing, pruned)
    decreases cs, 0
  {
    WalkBelowPaths(path, cs, pruned);
    var n := v.path[|path|];
    var rest := v.path[|path| + 1..];
    assert WellFormed(cs[1..]);
    if v in WalkBelow(path, cs[1..], pruned) {
      VisitBelowTotal(path, cs[1..], v, pruned);
      WalkBelowHeads(path, cs[1..], pruned);
      var i :| 0 <= i < |cs[1..]| && Kept(cs[1..][i], pruned) && n == cs[1..][i].name;
      assert cs[1..][i] == cs[i + 1];
    } else {
      var q := path + [cs[0].name];
      assert Kept(cs[0], pruned) && v in Walk(q, cs[0].children, pruned);
      WalkPathsBelow(q, cs[0].children, pruned);
      assert n == v.path[..|q|][|path|] == cs[0].name;
      VisitTotal(q, cs[0].children, v, pruned);
      assert v.path[|q|..] == rest;
      forall i | 0 <= i < |cs[1..]| ensures cs[1..][i].name != n {
        assert cs[1..][i] == cs[i + 1];
      }
      TotalAtChildAbsent(cs[1..], n, rest, pruned);
    }
  }

  /** Adding one more visit adds its own files to every directory it lies
      at or below. */
  lemma SumBelowSnoc(vs: seq<Visit>, v: Visit, p: seq<string>, pruned: string -> bool)
    ensures SumBelow(vs + [v], p, pruned)
         == SumBelow(vs, p, pruned) + (if IsPrefix(p, v.path) then FilesSize(v.listing, pruned) else 0)
  {
    SumBelowAppend(vs, [v], p, pruned);
  }

  /** A directory's figure is never smaller than that of any directory
      below it. */
  lemma {:induction false} SumBelowMonotone(vs: seq<Visit>, p: seq<string>, q: seq<string>, pruned: string -> bool)
    requires IsPrefix(p, q)
    ensures SumBelow(vs, q, pruned) <= SumBelow(vs, p, pruned)
  {
    if vs != [] {
      SumBelowMonotone(vs[1..], p, q, pruned);
      if IsPrefix(q, vs[0].path) {
        assert vs[0].path[..|p|] == vs[0].path[..|q|][..|p|];
      }
    }
  }
}
