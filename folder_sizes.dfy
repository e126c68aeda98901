/** list_folder_sizes: the per-directory sizes gathered over the walk, the
    threshold filter, the descending sort and the rendered table rows. */
module FolderSizes {
  import opened Common
  import opened PosixPath
  import opened FolderTree

  // ---------------------------------------------------------------------------
  // The sizes dictionary (a defaultdict(int): keys in insertion order)

  /** `sizes[d] += x` on a defaultdict: a missing key starts at 0 and is
      appended to the key order. */
  function Increment(keys: seq<string>, sizes: map<string, int>, d: string, x: int): (r: (seq<string>, map<string, int>))
    ensures d in r.1 && r.1[d] == (if d in sizes then sizes[d] else 0) + x
    ensures forall e :: e != d ==> (e in r.1 <==> e in sizes) && (e in sizes ==> r.1[e] == sizes[e])
    ensures r.0 == if d in sizes then keys else keys + [d]
  {
    if d in sizes then (keys, sizes[d := sizes[d] + x]) else (keys + [d], sizes[d := x])
  }

  /** The root is normalized and the visits are a top-down walk over real
      names. */
  predicate WalkReady(root: string, visits: seq<Visit>)
  {
    Normalized(root) && PreOrder(visits) && forall v :: v in visits ==> AllNames(v.path)
  }

  /** The first i visits have their keys, in order, and nothing else is a key. */
  ghost predicate Recorded(root: string, visits: seq<Visit>, i: int, keys: seq<string>, sizes: map<string, int>)
  {
    && 0 <= i <= |visits| && i <= |keys|
    && (forall k :: 0 <= k < i ==> keys[k] == DirPath(root, visits[k].path))
    && (forall d :: d in sizes <==> d in keys)
  }

  /** After i visits: their directories, each with the size of the counted
      files of the visits so far at or below it. */
  ghost predicate Gathered(root: string, visits: seq<Visit>, pruned: string -> bool, i: int,
                     keys: seq<string>, sizes: map<string, int>)
  {
    && Recorded(root, visits, i, keys, sizes) && |keys| == i
    && (forall k :: 0 <= k < i ==> sizes[keys[k]] == SumBelow(visits[..i], visits[k].path, pruned))
  }

  /** Contribution x of the visit at cur still owed to the directory at q once
      the ancestor loop has come up to depth j. */
  function Pending(q: seq<string>, cur: seq<string>, j: int, x: int): int
  {
    if IsPrefix(q, cur) && |q| > j then x else 0
  }

  /** Inside the ancestor loop of visit i, with its own size x, at depth j. */
  ghost predicate Climbing(root: string, visits: seq<Visit>, pruned: string -> bool, i: int, j: int, x: int,
                     keys: seq<string>, sizes: map<string, int>)
  {
    && 0 <= i < |visits| && 0 <= j <= |visits[i].path|
    && Recorded(root, visits, i, keys, sizes)
    && |keys| == (if j < |visits[i].path| then i + 1 else i)
    && (j < |visits[i].path| ==> keys[i] == DirPath(root, visits[i].path) && sizes[keys[i]] == x)
    && (forall k :: 0 <= k < i ==>
          sizes[keys[k]] == SumBelow(visits[..i], visits[k].path, pruned) + Pending(visits[k].path, visits[i].path, j, x))
  }

  /** The accumulation loop (lines 125-140 of the source): for every visit,
      the size of its counted files is added to its own entry and to that of
      every ancestor up to the root. The result: every visited directory is a
      key, in the order the walk reaches it, and its value is the size of the
      counted files in it or in any visited directory below it. */
  method AccumulateSizes(root: string, visits: seq<Visit>, pruned: string -> bool)
    returns (keys: seq<string>, sizes: map<string, int>)
    requires WalkReady(root, visits)
    ensures |keys| == |visits|
    ensures forall k :: 0 <= k < |visits| ==> keys[k] == DirPath(root, visits[k].path)
    ensures forall d :: d in sizes <==> d in keys
    ensures forall k :: 0 <= k < |visits| ==> sizes[keys[k]] == SumBelow(visits, visits[k].path, pruned)
  {
    keys, sizes := [], map[];
    for i := 0 to |visits|
      invariant Gathered(root, visits, pruned, i, keys, sizes)
    {
      var folderSize := FilesSize(visits[i].listing, pruned);
      assert visits[i] in visits;
      ghost var after := AfterVisit(keys, sizes, root, visits[i].path, folderSize);
      assert Gathered(root, visits, pruned, i + 1, after.0, after.1) by {
        VisitGathered(root, visits, pruned, i, folderSize, keys, sizes);
      }
      keys, sizes := AddToAncestors(root, visits[i].path, folderSize, keys, sizes);
    }
    assert visits[..|visits|] == visits;
  }

  /** The body of the accumulation loop for the visit at path below root:
      folder_size is added to the entry of the visited directory and of each
      directory above it, stepping up with dirname until the root, and
      finally to the root. */
  method AddToAncestors(root: string, path: seq<string>, folderSize: int,
                        keys0: seq<string>, sizes0: map<string, int>)
    returns (keys: seq<string>, sizes: map<string, int>)
    requires Normalized(root) && AllNames(path)
    ensures (keys, sizes) == AfterVisit(keys0, sizes0, root, path, folderSize)
  {
    keys, sizes := keys0, sizes0;
    var dirpath := DirPath(root, path);
    ghost var j := |path|;
    assert path[..j] == path;
    while dirpath != root
      invariant 0 <= j <= |path|
      invariant dirpath == DirPath(root, path[..j])
      invariant Climb(keys, sizes, root, path, j, folderSize) == Climb(keys0, sizes0, root, path, |path|, folderSize)
      decreases j
    {
      assert path[..0] == [];
      DirPathPrefixParent(root, path, j);
      var bumped := Increment(keys, sizes, dirpath, folderSize);
      keys, sizes := bumped.0, bumped.1;
      dirpath := Dirname(dirpath);
      j := j - 1;
    }
    var bumped := Increment(keys, sizes, root, folderSize);
    keys, sizes := bumped.0, bumped.1;
  }

  /** Lines 136-140 for the visit at path: the keys and sizes after
      folder_size is added to every directory from the visited one up to and
      including the root. */
  function AfterVisit(keys: seq<string>, sizes: map<string, int>, root: string, path: seq<string>, x: int)
    : (r: (seq<string>, map<string, int>))
  {
    var c := Climb(keys, sizes, root, path, |path|, x);
    Increment(c.0, c.1, root, x)
  }

  /** Each visit keeps the sizes gathered so far: after it, the first i + 1
      visits have their keys, in walk order, and each entry holds the size of
      the counted files at or below it among them. */
  lemma VisitGathered(root: string, visits: seq<Visit>, pruned: string -> bool, i: int, x: int,
                      keys: seq<string>, sizes: map<string, int>)
    requires WalkReady(root, visits) && 0 <= i < |visits|
    requires x == FilesSize(visits[i].listing, pruned)
    requires Gathered(root, visits, pruned, i, keys, sizes)
    ensures var r := AfterVisit(keys, sizes, root, visits[i].path, x);
            Gathered(root, visits, pruned, i + 1, r.0, r.1)
  {
    var c := Climb(keys, sizes, root, visits[i].path, |visits[i].path|, x);
    StartClimb(root, visits, pruned, i, x, keys, sizes);
    ClimbDone(root, visits, pruned, i, |visits[i].path|, x, keys, sizes, c);
  }

  /** The ancestor loop as a function: the keys and sizes once x has been
      added to every dirpath from depth j of path up to, but not including,
      the root. */
  function Climb(keys: seq<string>, sizes: map<string, int>, root: string, path: seq<string>, j: nat, x: int)
    : (r: (seq<string>, map<string, int>))
    requires j <= |path|
    decreases j
  {
    var d := DirPath(root, path[..j]);
    if d == root then (keys, sizes)
    else
      assert path[..0] == [];
      var bumped := Increment(keys, sizes, d, x);
      Climb(bumped.0, bumped.1, root, path, j - 1, x)
  }

  /** Climbing from depth j to the root and then adding x to the root
      completes visit i. */
  lemma {:induction false} ClimbDone(root: string, visits: seq<Visit>, pruned: string -> bool, i: int, j: int, x: int,
                                     keys: seq<string>, sizes: map<string, int>, c: (seq<string>, map<string, int>))
    requires WalkReady(root, visits)
    requires Climbing(root, visits, pruned, i, j, x, keys, sizes)
    requires x == FilesSize(visits[i].listing, pruned)
    requires 0 <= j <= |visits[i].path| && c == Climb(keys, sizes, root, visits[i].path, j, x)
    ensures var r := Increment(c.0, c.1, root, x);
            Gathered(root, visits, pruned, i + 1, r.0, r.1)
    decreases j
  {
    if DirPath(root, visits[i].path[..j]) == root {
      RootStep(root, visits, pruned, i, j, x, keys, sizes);
    } else {
      var bumped := Increment(keys, sizes, DirPath(root, visits[i].path[..j]), x);
      assert Climbing(root, visits, pruned, i, j - 1, x, bumped.0, bumped.1) by {
        ClimbStep(root, visits, pruned, i, j, x, keys, sizes);
      }
      ClimbDone(root, visits, pruned, i, j - 1, x, bumped.0, bumped.1, c);
    }
  }

  lemma StartClimb(root: string, visits: seq<Visit>, pruned: string -> bool, i: int, x: int,
                   keys: seq<string>, sizes: map<string, int>)
    requires WalkReady(root, visits) && 0 <= i < |visits|
    requires Gathered(root, visits, pruned, i, keys, sizes)
    ensures Climbing(root, visits, pruned, i, |visits[i].path|, x, keys, sizes)
  {
  }

  /** One pass of the ancestor loop keeps the loop's bookkeeping. */
  lemma ClimbStep(root: string, visits: seq<Visit>, pruned: string -> bool, i: int, j: int, x: int,
                  keys: seq<string>, sizes: map<string, int>)
    requires WalkReady(root, visits)
    requires Climbing(root, visits, pruned, i, j, x, keys, sizes)
    requires DirPath(root, visits[i].path[..j]) != root
    ensures 0 < j <= |visits[i].path|
    ensures var r := Increment(keys, sizes, DirPath(root, visits[i].path[..j]), x);
      Climbing(root, visits, pruned, i, j - 1, x, r.0, r.1)
  {
    var cur := visits[i].path;
    assert AllNames(cur) by { assert visits[i] in visits; }
    assert 0 < j by { DirPathIsRoot(root, cur[..j]); }
    if j == |cur| {
      FirstClimbStep(root, visits, pruned, i, x, keys, sizes);
    } else {
      var k0 := EarlierAncestor(visits, i, j);
      LaterClimbStep(root, visits, pruned, i, j, x, keys, sizes, k0);
    }
  }

  /** The pass for the visited directory itself: its key is new. */
  lemma FirstClimbStep(root: string, visits: seq<Visit>, pruned: string -> bool, i: int, x: int,
                       keys: seq<string>, sizes: map<string, int>)
    requires WalkReady(root, visits) && 0 <= i < |visits| && |visits[i].path| > 0
    requires Climbing(root, visits, pruned, i, |visits[i].path|, x, keys, sizes)
    ensures var r := Increment(keys, sizes, DirPath(root, visits[i].path[..|visits[i].path|]), x);
      Climbing(root, visits, pruned, i, |visits[i].path| - 1, x, r.0, r.1)
  {
    assert Recorded(root, visits, i, keys, sizes);
    FreshVisit(root, visits, i, keys);
    ClimbFromVisit(root, visits, pruned, i, x, keys, sizes);
  }

  /** No earlier visit is at the directory of visit i, nor has its key. */
  lemma FreshVisit(root: string, visits: seq<Visit>, i: int, keys: seq<string>)
    requires WalkReady(root, visits) && 0 <= i < |visits| && |keys| >= i
    requires forall k :: 0 <= k < i ==> keys[k] == DirPath(root, visits[k].path)
    ensures forall k :: 0 <= k < i ==> visits[k].path != visits[i].path
    ensures forall k :: 0 <= k < i ==> (keys[k] == DirPath(root, visits[i].path) <==> visits[k].path == visits[i].path)
  {
    var cur := visits[i].path;
    assert AllNames(cur) by { assert visits[i] in visits; }
    NotYetVisited(visits, i);
    forall k | 0 <= k < i ensures visits[k].path != cur {
      assert visits[..i][k] == visits[k];
      assert IsPrefix(cur, cur);
    }
    KeysMatch(root, visits, i, keys, cur);
  }

  /** A pass for a proper ancestor, which an earlier visit reached. */
  lemma LaterClimbStep(root: string, visits: seq<Visit>, pruned: string -> bool, i: int, j: int, x: int,
                       keys: seq<string>, sizes: map<string, int>, k0: int)
    requires WalkReady(root, visits) && 0 <= i < |visits| && 0 < j < |visits[i].path|
    requires Climbing(root, visits, pruned, i, j, x, keys, sizes)
    requires 0 <= k0 < i && visits[k0].path == visits[i].path[..j]
    ensures var r := Increment(keys, sizes, DirPath(root, visits[i].path[..j]), x);
      Climbing(root, visits, pruned, i, j - 1, x, r.0, r.1)
  {
    var q := visits[i].path[..j];
    assert AllNames(visits[i].path) by { assert visits[i] in visits; }
    assert forall k :: 0 <= k < i ==> (keys[k] == DirPath(root, q) <==> visits[k].path == q) by {
      KeysMatch(root, visits, i, keys, q);
    }
    ClimbToAncestor(root, visits, pruned, i, j, x, keys, sizes, k0);
  }

  /** The first pass adds a new key for the visited directory itself. */
  lemma ClimbFromVisit(root: string, visits: seq<Visit>, pruned: string -> bool, i: int, x: int,
                       keys: seq<string>, sizes: map<string, int>)
    requires 0 <= i < |visits| && |visits[i].path| > 0
    requires Climbing(root, visits, pruned, i, |visits[i].path|, x, keys, sizes)
    requires forall k :: 0 <= k < i ==> visits[k].path != visits[i].path
    requires forall k :: 0 <= k < i ==> (keys[k] == DirPath(root, visits[i].path) <==> visits[k].path == visits[i].path)
    ensures var r := Increment(keys, sizes, DirPath(root, visits[i].path[..|visits[i].path|]), x);
      Climbing(root, visits, pruned, i, |visits[i].path| - 1, x, r.0, r.1)
  {
    var cur := visits[i].path;
    var j := |cur|;
    assert cur[..j] == cur;
    var d := DirPath(root, cur);
    assert d !in keys;
    var r := Increment(keys, sizes, d, x);
    assert r.0 == keys + [d] && r.1 == sizes[d := x];
    assert Recorded(root, visits, i, r.0, r.1);
    forall k | 0 <= k < i
      ensures r.1[r.0[k]] == SumBelow(visits[..i], visits[k].path, pruned) + Pending(visits[k].path, cur, j - 1, x)
    {
      assert r.0[k] == keys[k] != d;
      assert Pending(visits[k].path, cur, j - 1, x) == 0;
    }
  }

  /** A later pass adds to the key of an ancestor visited earlier. */
  lemma ClimbToAncestor(root: string, visits: seq<Visit>, pruned: string -> bool, i: int, j: int, x: int,
                        keys: seq<string>, sizes: map<string, int>, k0: int)
    requires Normalized(root) && 0 <= i < |visits| && 0 < j < |visits[i].path| && AllNames(visits[i].path)
    requires Climbing(root, visits, pruned, i, j, x, keys, sizes)
    requires 0 <= k0 < i && visits[k0].path == visits[i].path[..j]
    requires forall k :: 0 <= k < i ==> (keys[k] == DirPath(root, visits[i].path[..j]) <==> visits[k].path == visits[i].path[..j])
    ensures var r := Increment(keys, sizes, DirPath(root, visits[i].path[..j]), x);
      Climbing(root, visits, pruned, i, j - 1, x, r.0, r.1)
  {
    var cur := visits[i].path;
    var q := cur[..j];
    var d := DirPath(root, q);
    assert keys[k0] == d;
    assert d in sizes;
    assert keys[i] != d by {
      if keys[i] == d {
        DirPathInjective(root, cur, q);
      }
    }
    var r := Increment(keys, sizes, d, x);
    assert r.0 == keys && r.1 == sizes[d := sizes[d] + x];
    assert Recorded(root, visits, i, r.0, r.1);
    assert r.1[r.0[i]] == x;
    forall k | 0 <= k < i
      ensures r.1[r.0[k]] == SumBelow(visits[..i], visits[k].path, pruned) + Pending(visits[k].path, cur, j - 1, x)
    {
      var p := visits[k].path;
      if p != q {
        assert r.1[r.0[k]] == sizes[keys[k]];
        assert Pending(p, cur, j - 1, x) == Pending(p, cur, j, x);
      } else {
        assert IsPrefix(p, cur);
        assert Pending(p, cur, j, x) == 0 && Pending(p, cur, j - 1, x) == x;
      }
    }
  }

  /** The final add to the root completes the visit. */
  lemma RootStep(root: string, visits: seq<Visit>, pruned: string -> bool, i: int, j: int, x: int,
                 keys: seq<string>, sizes: map<string, int>)
    requires WalkReady(root, visits)
    requires Climbing(root, visits, pruned, i, j, x, keys, sizes)
    requires DirPath(root, visits[i].path[..j]) == root
    requires x == FilesSize(visits[i].listing, pruned)
    ensures var r := Increment(keys, sizes, root, x);
      Gathered(root, visits, pruned, i + 1, r.0, r.1)
  {
    var cur := visits[i].path;
    assert visits[i] in visits;
    DirPathIsRoot(root, cur[..j]);
    assert j == 0;
    NotYetVisited(visits, i);
    SumBelowNone(visits[..i], cur, pruned);
    if i == 0 {
      assert cur == visits[0].path[..0];
      RootFirst(root, visits, pruned, x, keys, sizes);
    } else {
      KeysMatch(root, visits, i, keys, []);
      var k0 := EarlierAncestor(visits, i, 0);
      assert keys[k0] == root;
      DirPathIsRoot(root, cur);
      RootAgain(root, visits, pruned, i, x, keys, sizes, k0);
    }
  }

  /** The first visit (the root itself) creates the root's key. */
  lemma RootFirst(root: string, visits: seq<Visit>, pruned: string -> bool, x: int,
                  keys: seq<string>, sizes: map<string, int>)
    requires |visits| > 0 && visits[0].path == []
    requires Climbing(root, visits, pruned, 0, 0, x, keys, sizes)
    requires x == FilesSize(visits[0].listing, pruned)
    ensures var r := Increment(keys, sizes, root, x);
      Gathered(root, visits, pruned, 1, r.0, r.1)
  {
    assert keys == [];
    assert visits[..1] == [visits[0]];
    assert IsPrefix([], visits[0].path);
  }

  /** A later visit adds to the root's existing key. */
  lemma RootAgain(root: string, visits: seq<Visit>, pruned: string -> bool, i: int, x: int,
                  keys: seq<string>, sizes: map<string, int>, k0: int)
    requires 0 < i < |visits| && |visits[i].path| > 0
    requires Climbing(root, visits, pruned, i, 0, x, keys, sizes)
    requires x == FilesSize(visits[i].listing, pruned)
    requires 0 <= k0 < i && visits[k0].path == [] && keys[k0] == root && keys[i] != root
    requires forall k :: 0 <= k < i ==> (keys[k] == root <==> visits[k].path == [])
    requires SumBelow(visits[..i], visits[i].path, pruned) == 0
    ensures var r := Increment(keys, sizes, root, x);
      Gathered(root, visits, pruned, i + 1, r.0, r.1)
  {
    var cur := visits[i].path;
    var r := Increment(keys, sizes, root, x);
    assert r.0 == keys && r.1 == sizes[root := sizes[root] + x];
    assert Recorded(root, visits, i + 1, r.0, r.1);
    assert forall k :: 0 <= k <= i ==> keys[k] in sizes by {
      assert forall k :: 0 <= k <= i ==> keys[k] in keys;
    }
    RootSizes(root, visits, pruned, i, x, keys, sizes);
  }

  /** The sizes after the add to the root, key by key. */
  lemma RootSizes(root: string, visits: seq<Visit>, pruned: string -> bool, i: int, x: int,
                  keys: seq<string>, sizes: map<string, int>)
    requires 0 <= i < |visits| && |keys| == i + 1 && |visits[i].path| > 0
    requires x == FilesSize(visits[i].listing, pruned)
    requires root in sizes && forall k :: 0 <= k <= i ==> keys[k] in sizes
    requires keys[i] != root && sizes[keys[i]] == x && SumBelow(visits[..i], visits[i].path, pruned) == 0
    requires forall k :: 0 <= k < i ==> (keys[k] == root <==> visits[k].path == [])
    requires forall k :: 0 <= k < i ==>
      sizes[keys[k]] == SumBelow(visits[..i], visits[k].path, pruned) + Pending(visits[k].path, visits[i].path, 0, x)
    ensures forall k :: 0 <= k <= i ==>
      sizes[root := sizes[root] + x][keys[k]] == SumBelow(visits[..i + 1], visits[k].path, pruned)
  {
    assert visits[..i + 1] == visits[..i] + [visits[i]];
    forall k | 0 <= k <= i
      ensures sizes[root := sizes[root] + x][keys[k]] == SumBelow(visits[..i + 1], visits[k].path, pruned)
    {
      SettleRoot(visits[..i], visits[i], visits[k].path, pruned, x, sizes[keys[k]]);
    }
  }

  /** What the final add to the root leaves in the entry of directory p,
      which held `before` while the visit v was still pending. */
  lemma SettleRoot(vs: seq<Visit>, v: Visit, p: seq<string>, pruned: string -> bool, x: int, before: int)
    requires x == FilesSize(v.listing, pruned)
    requires before == SumBelow(vs, p, pruned) + Pending(p, v.path, 0, x)
    ensures (if p == [] then before + x else before) == SumBelow(vs + [v], p, pruned)
  {
    SumBelowSnoc(vs, v, p, pruned);
    assert IsPrefix([], v.path);
  }

  /** Before visit i, the keys present name exactly the earlier visits. */
  lemma KeysMatch(root: string, visits: seq<Visit>, i: int, keys: seq<string>, q: seq<string>)
    requires Normalized(root) && 0 <= i <= |visits| && |keys| >= i
    requires forall v :: v in visits ==> AllNames(v.path)
    requires AllNames(q)
    requires forall k :: 0 <= k < i ==> keys[k] == DirPath(root, visits[k].path)
    ensures forall k :: 0 <= k < i ==> (keys[k] == DirPath(root, q) <==> visits[k].path == q)
  {
    forall k | 0 <= k < i && keys[k] == DirPath(root, q) ensures visits[k].path == q {
      assert visits[k] in visits;
      DirPathInjective(root, visits[k].path, q);
    }
  }

  /** No earlier visit lies at or below the current one. */
  lemma NotYetVisited(visits: seq<Visit>, i: int)
    requires PreOrder(visits) && 0 <= i < |visits|
    ensures forall v :: v in visits[..i] ==> !IsPrefix(visits[i].path, v.path)
  {
    forall v | v in visits[..i] ensures !IsPrefix(visits[i].path, v.path) {
      var k :| 0 <= k < i && visits[..i][k] == v;
      assert visits[k] == v;
    }
  }

  /** The ancestor at depth j of the current visit was visited earlier (the
      root included, once the walk is past its first visit). */
  lemma EarlierAncestor(visits: seq<Visit>, i: int, j: int) returns (k: int)
    requires PreOrder(visits) && 0 <= i < |visits|
    requires 0 <= j < |visits[i].path| || (i > 0 && j == 0)
    ensures 0 <= k < i && visits[k].path == visits[i].path[..j]
  {
    var first := visits[0].path[..0];
    assert exists k0 :: 0 <= k0 <= 0 && visits[k0].path == first;
    if i > 0 {
      assert !IsPrefix(visits[i].path, visits[0].path);
    }
    k :| 0 <= k <= i && visits[k].path == visits[i].path[..j];
  }
}
