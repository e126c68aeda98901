/** The report list_folder_sizes returns: the directories whose size reaches
    the threshold, largest first, one rendered row each. */
module FolderReport {
  import opened Common
  import opened PosixPath
  import opened FolderTree
  import opened FolderSizes
  import opened FolderFlags

  type Row = (string, int)

  // ---------------------------------------------------------------------------
  // Threshold

  /** The dictionary comprehension over the sizes: the (folder, size) items
      whose size is at least the threshold, in key order. */
  function AtLeast(keys: seq<string>, sizes: map<string, int>, threshold: int): (rows: seq<Row>)
    requires forall k :: k in keys ==> k in sizes
    ensures |rows| <= |keys|
    ensures forall r :: r in rows <==> r.0 in keys && r.0 in sizes && r.1 == sizes[r.0] && r.1 >= threshold
  {
    if keys == [] then []
    else
      (if sizes[keys[0]] >= threshold then [(keys[0], sizes[keys[0]])] else [])
      + AtLeast(keys[1..], sizes, threshold)
  }

  /** Raising the threshold only drops rows. */
  lemma AtLeastMonotone(keys: seq<string>, sizes: map<string, int>, low: int, high: int)
    requires forall k :: k in keys ==> k in sizes
    requires low <= high
    ensures forall r :: r in AtLeast(keys, sizes, high) ==> r in AtLeast(keys, sizes, low)
  {
  }

  // ---------------------------------------------------------------------------
  // sorted(items, key=size, reverse=True): stable, largest first

  predicate Descending(rows: seq<Row>)
  {
    forall i, j :: 0 <= i < j < |rows| ==> rows[i].1 >= rows[j].1
  }

  /** The rows of one size, in order. */
  function OfSize(rows: seq<Row>, v: int): (r: seq<Row>)
    ensures |r| <= |rows|
    ensures forall i :: 0 <= i < |r| ==> r[i].1 == v
  {
    if rows == [] then []
    else (if rows[0].1 == v then [rows[0]] else []) + OfSize(rows[1..], v)
  }

  lemma {:induction false} OfSizeAppend(a: seq<Row>, b: seq<Row>, v: int)
    ensures OfSize(a + b, v) == OfSize(a, v) + OfSize(b, v)
  {
    if a == [] {
      assert a + b == b;
    } else {
      assert (a + b)[1..] == a[1..] + b;
      OfSizeAppend(a[1..], b, v);
    }
  }

  /** No row of size v, nothing of size v. */
  lemma {:induction false} OfSizeNone(rows: seq<Row>, v: int)
    requires forall i :: 0 <= i < |rows| ==> rows[i].1 != v
    ensures OfSize(rows, v) == []
  {
    if rows != [] {
      OfSizeNone(rows[1..], v);
    }
  }

  /** Places x after every row at least as large. */
  function Insert(x: Row, s: seq<Row>): (r: seq<Row>)
    ensures |r| == |s| + 1
  {
    if s == [] then [x]
    else if s[0].1 >= x.1 then [s[0]] + Insert(x, s[1..])
    else [x] + s
  }

  lemma {:induction false} InsertPermutes(x: Row, s: seq<Row>)
    ensures multiset(Insert(x, s)) == multiset(s) + multiset{x}
  {
    if s != [] && s[0].1 >= x.1 {
      InsertPermutes(x, s[1..]);
      assert s == [s[0]] + s[1..];
    }
  }

  lemma {:induction false} InsertDescending(x: Row, s: seq<Row>)
    requires Descending(s)
    ensures Descending(Insert(x, s))
  {
    InsertPermutes(x, s);
    if s != [] && s[0].1 >= x.1 {
      InsertDescending(x, s[1..]);
      InsertPermutes(x, s[1..]);
      var r := Insert(x, s);
      assert r == [s[0]] + Insert(x, s[1..]);
      forall j | 0 < j < |r| ensures r[0].1 >= r[j].1 {
        assert r[j] in Insert(x, s[1..]);
        assert r[j] in multiset(Insert(x, s[1..]));
        if r[j] != x {
          assert r[j] in multiset(s[1..]);
          assert r[j] in s[1..];
        }
      }
    }
  }

  lemma {:induction false} InsertStable(x: Row, s: seq<Row>, v: int)
    requires Descending(s)
    ensures OfSize(Insert(x, s), v) == OfSize(s, v) + OfSize([x], v)
  {
    if s == [] {
    } else if s[0].1 >= x.1 {
      assert OfSize(Insert(x, s[1..]), v) == OfSize(s[1..], v) + OfSize([x], v) by {
        assert Descending(s[1..]);
        InsertStable(x, s[1..], v);
      }
      InsertBehindFirst(x, s, v);
    } else {
      InsertInFront(x, s, v);
    }
  }

  /** The step of InsertStable where x goes past the first row. */
  lemma InsertBehindFirst(x: Row, s: seq<Row>, v: int)
    requires s != [] && s[0].1 >= x.1
    requires OfSize(Insert(x, s[1..]), v) == OfSize(s[1..], v) + OfSize([x], v)
    ensures OfSize(Insert(x, s), v) == OfSize(s, v) + OfSize([x], v)
  {
    var ins, lead := Insert(x, s[1..]), if s[0].1 == v then [s[0]] else [];
    var t := [s[0]] + ins;
    assert Insert(x, s) == t;
    assert OfSize(s, v) == lead + OfSize(s[1..], v);
    assert OfSize(t, v) == lead + OfSize(ins, v) by {
      assert t[0] == s[0] && t[1..] == ins;
    }
    Regroup(lead, OfSize(s[1..], v), OfSize([x], v));
  }

  /** The step of InsertStable where x is larger than every row. */
  lemma InsertInFront(x: Row, s: seq<Row>, v: int)
    requires Descending(s) && s != [] && s[0].1 < x.1
    ensures OfSize(Insert(x, s), v) == OfSize(s, v) + OfSize([x], v)
  {
    assert Insert(x, s) == [x] + s;
    OfSizeAppend([x], s, v);
    if x.1 == v {
      forall j | 0 <= j < |s| ensures s[j].1 != v {
        assert s[0].1 >= s[j].1;
      }
      OfSizeNone(s, v);
    }
  }

  /** sorted(..., reverse=True) by size: each row is inserted, in input order,
      after the rows already placed that are at least as large. */
  function SortBySize(rows: seq<Row>): (r: seq<Row>)
  {
    if rows == [] then [] else Insert(rows[|rows| - 1], SortBySize(rows[..|rows| - 1]))
  }

  /** The sort returns the same rows, largest first, and rows of equal size
      keep their input order. */
  lemma {:induction false} SortBySizeCorrect(rows: seq<Row>)
    ensures Descending(SortBySize(rows))
    ensures multiset(SortBySize(rows)) == multiset(rows)
    ensures forall v :: OfSize(SortBySize(rows), v) == OfSize(rows, v)
  {
    if rows != [] {
      var init := rows[..|rows| - 1];
      var x := rows[|rows| - 1];
      SortBySizeCorrect(init);
      InsertDescending(x, SortBySize(init));
      InsertPermutes(x, SortBySize(init));
      assert rows == init + [x];
      forall v ensures OfSize(SortBySize(rows), v) == OfSize(rows, v) {
        InsertStable(x, SortBySize(init), v);
        OfSizeAppend(init, [x], v);
      }
    }
  }

  // ---------------------------------------------------------------------------
  // Rows of the table

  /** One line of the table: the size converted to the unit (bytes times 8,
      floor-divided by the unit's size in bits), the unit, a tab and the folder. */
  function FormatRow(size: int, unitKey: string, divisor: nat, folder: string): string
    requires divisor > 0
  {
    IntToString(size * 8 / divisor) + " " + unitKey + ":\t" + folder
  }

  /** A row reads back: its leading digits are the converted size, followed by
      a space, and it ends with the folder. */
  lemma FormatRowFields(size: nat, unitKey: string, divisor: nat, folder: string)
    requires divisor > 0
    ensures FormatRow(size, unitKey, divisor, folder) == NatToString(size * 8 / divisor) + " " + unitKey + ":\t" + folder
    ensures var row := FormatRow(size, unitKey, divisor, folder);
      var n := |NatToString(size * 8 / divisor)|;
      && n < |row| && row[n] == ' '
      && AllDigits(row[..n]) && DigitsValue(row[..n]) == size * 8 / divisor
      && |folder| < |row| && row[|row| - |folder|..] == folder
  {
    var row := FormatRow(size, unitKey, divisor, folder);
    var digits := NatToString(size * 8 / divisor);
    assert row[..|digits|] == digits;
    NatToStringValue(size * 8 / divisor);
  }

  /** In bytes the figure is the size itself; in bits it is eight times it. */
  lemma FormatRowUnits(size: nat, folder: string)
    ensures FormatRow(size, "B", 8, folder) == NatToString(size) + " B:\t" + folder
    ensures FormatRow(size, "bit", 1, folder) == NatToString(8 * size) + " bit:\t" + folder
  {
    assert size * 8 / 8 == size;
    assert size * 8 / 1 == 8 * size;
    assert IntToString(size) == NatToString(size);
    assert IntToString(8 * size) == NatToString(8 * size);
  }

  /** A larger size never shows a smaller figure. */
  lemma ConvertedMonotone(a: int, b: int, divisor: nat)
    requires divisor > 0 && a <= b
    ensures a * 8 / divisor <= b * 8 / divisor
  {
    var m, n := a * 8, b * 8;
    var qa, qb := m / divisor, n / divisor;
    assert qa * divisor + m % divisor == m;
    assert qb * divisor + n % divisor == n;
    if qa > qb {
      MulMonotone(qb + 1, qa, divisor);
    }
  }

  lemma MulMonotone(x: int, y: int, d: nat)
    requires x <= y
    ensures x * d <= y * d
  {
    var k := y - x;
    assert y * d == x * d + k * d;
  }

  /** The table: the rows' lines, each appended after those before it. */
  function Render(rows: seq<Row>, unitKey: string, divisor: nat): (table: seq<string>)
    requires divisor > 0
    ensures |table| == |rows|
    ensures forall i :: 0 <= i < |rows| ==> table[i] == FormatRow(rows[i].1, unitKey, divisor, rows[i].0)
  {
    if rows == [] then []
    else
      var last := rows[|rows| - 1];
      Render(rows[..|rows| - 1], unitKey, divisor) + [FormatRow(last.1, unitKey, divisor, last.0)]
  }

  // ---------------------------------------------------------------------------
  // The whole report

  /** The directories the exclusion pattern keeps out: with an empty or
      absent pattern nothing is matched (no regex is compiled); otherwise a
      name is matched when the pattern is found anywhere in it. */
  function Matcher(exclude: Option<string>, search: (string, string) -> bool): (pruned: string -> bool)
    ensures forall n :: pruned(n) <==> exclude.Some? && exclude.value != "" && search(exclude.value, n)
  {
    n => exclude.Some? && exclude.value != "" && search(exclude.value, n)
  }

  /** Without a pattern, or with an empty one, nothing is pruned. */
  lemma NoPatternPrunesNothing(search: (string, string) -> bool, name: string)
    ensures !Matcher(None, search)(name) && !Matcher(Some(""), search)(name)
  {
  }

  /** The rows the report is meant to hold: every visited directory, in walk
      order, with the total of its counted files, when that reaches the
      threshold. */
  function FolderRows(top: string, vs: seq<Visit>, pruned: string -> bool, threshold: int): (rows: seq<Row>)
    ensures forall i :: 0 <= i < |rows| ==> rows[i].1 >= threshold && rows[i].1 >= 0
    ensures forall v :: v in vs && Total(v.listing, pruned) >= threshold ==> (DirPath(top, v.path), Total(v.listing, pruned) as int) in rows
    ensures |rows| <= |vs|
  {
    if vs == [] then []
    else
      var rest := FolderRows(top, vs[1..], pruned, threshold);
      (if Total(vs[0].listing, pruned) >= threshold then [(DirPath(top, vs[0].path), Total(vs[0].listing, pruned) as int)] else [])
      + rest
  }

  /** Every row is the path and total of a visited directory. */
  lemma {:induction false} FolderRowsFromVisits(top: string, vs: seq<Visit>, pruned: string -> bool, threshold: int)
    ensures forall r :: r in FolderRows(top, vs, pruned, threshold) ==>
              exists v :: v in vs && r == (DirPath(top, v.path), Total(v.listing, pruned) as int)
  {
    if vs != [] {
      FolderRowsFromVisits(top, vs[1..], pruned, threshold);
      assert forall v :: v in vs[1..] ==> v in vs;
    }
  }

  /** The rows keep the walk's order: the rows of two stretches of the walk
      are those of the first followed by those of the second. */
  lemma {:induction false} FolderRowsAppend(top: string, a: seq<Visit>, b: seq<Visit>, pruned: string -> bool, threshold: int)
    ensures FolderRows(top, a + b, pruned, threshold) == FolderRows(top, a, pruned, threshold) + FolderRows(top, b, pruned, threshold)
  {
    if a == [] {
      assert a + b == b;
    } else {
      assert (a + b)[0] == a[0] && (a + b)[1..] == a[1..] + b;
      FolderRowsAppend(top, a[1..], b, pruned, threshold);
    }
  }

  /** The report's root directory: trailing separators removed unless the
      path is made of separators only. */
  function NormalizeDir(root: string): (r: string)
    requires root != []
    ensures Normalized(r)
    ensures Normalized(root) ==> r == root
  {
    if AllSlashes(root) then root else RStrip(root, '/')
  }

  /** list_folder_sizes with the root's trailing separators removed. A
      non-empty pattern is compiled first; one that does not compile
      (`compiles` false) raises re.error and no table is produced (None).
      Otherwise the table is one row per visited directory whose total of
      counted files reaches the threshold, largest first, equal sizes in
      walk order. */
  method ListFolderSizes(cfg: Config, tree: seq<Entry>, search: (string, string) -> bool, compiles: string -> bool)
    returns (report: Option<seq<string>>)
    requires cfg.root != [] && cfg.divisor > 0
    requires WellFormed(tree)
    ensures report.None? <==> cfg.exclude.Some? && cfg.exclude.value != "" && !compiles(cfg.exclude.value)
    ensures var pruned := Matcher(cfg.exclude, search);
      report.Some? ==>
        report.value == Render(SortBySize(FolderRows(NormalizeDir(cfg.root), Walk([], tree, pruned), pruned, cfg.threshold)),
                               cfg.unitKey, cfg.divisor)
  {
    if cfg.exclude.Some? && cfg.exclude.value != "" && !compiles(cfg.exclude.value) {
      return None;
    }
    var top := NormalizeDir(cfg.root);
    var pruned := Matcher(cfg.exclude, search);
    var visits := Walk([], tree, pruned);
    assert WalkReady(top, visits) by { WalkFromRoot(tree, pruned); }
    var keys, sizes := AccumulateSizes(top, visits, pruned);
    var filtered := AtLeast(keys, sizes, cfg.threshold);
    assert filtered == FolderRows(top, visits, pruned, cfg.threshold) by {
      AccumulatedTotals(top, tree, pruned, keys, sizes);
      SameRows(top, visits, pruned, keys, sizes, cfg.threshold);
    }
    var ordered := SortBySize(filtered);
    var table := FormatRows(ordered, cfg.unitKey, cfg.divisor);
    report := Some(table);
  }

  /** The printing loop: one formatted line per row, in order. */
  method FormatRows(rows: seq<Row>, unitKey: string, divisor: nat) returns (table: seq<string>)
    requires divisor > 0
    ensures table == Render(rows, unitKey, divisor)
  {
    table := [];
    for i := 0 to |rows|
      invariant table == Render(rows[..i], unitKey, divisor)
    {
      var line := FormatRow(rows[i].1, unitKey, divisor, rows[i].0);
      RenderSnoc(rows, i, unitKey, divisor);
      table := table + [line];
    }
    assert rows[..|rows|] == rows;
  }

  /** Rendering one more row appends its line. */
  lemma RenderSnoc(rows: seq<Row>, i: nat, unitKey: string, divisor: nat)
    requires i < |rows| && divisor > 0
    ensures Render(rows[..i + 1], unitKey, divisor)
         == Render(rows[..i], unitKey, divisor) + [FormatRow(rows[i].1, unitKey, divisor, rows[i].0)]
  {
    assert rows[..i + 1][..i] == rows[..i];
  }

  /** For a well-formed tree, each directory's accumulated figure is the
      total of the counted files in its subtree. */
  lemma AccumulatedTotals(top: string, tree: seq<Entry>, pruned: string -> bool,
                          keys: seq<string>, sizes: map<string, int>)
    requires WellFormed(tree)
    requires |keys| == |Walk([], tree, pruned)|
    requires forall k :: 0 <= k < |keys| ==> keys[k] in sizes
    requires var vs := Walk([], tree, pruned);
      forall k :: 0 <= k < |vs| ==> sizes[keys[k]] == SumBelow(vs, vs[k].path, pruned)
    ensures var vs := Walk([], tree, pruned);
      forall k :: 0 <= k < |vs| ==> sizes[keys[k]] == Total(vs[k].listing, pruned)
  {
    var vs := Walk([], tree, pruned);
    forall k | 0 <= k < |vs| ensures sizes[keys[k]] == Total(vs[k].listing, pruned) {
      WalkSumAt([], tree, vs[k].path, pruned);
      assert [] + vs[k].path == vs[k].path;
      VisitTotal([], tree, vs[k], pruned);
      assert vs[k].path[0..] == vs[k].path;
    }
  }

  /** The comprehension over the accumulated dictionary yields exactly the
      intended rows. */
  lemma {:induction false} SameRows(top: string, vs: seq<Visit>, pruned: string -> bool,
                                    keys: seq<string>, sizes: map<string, int>, threshold: int)
    requires |keys| == |vs|
    requires forall k :: k in keys ==> k in sizes
    requires forall k :: 0 <= k < |vs| ==> keys[k] == DirPath(top, vs[k].path)
    requires forall k :: 0 <= k < |vs| ==> sizes[keys[k]] == Total(vs[k].listing, pruned)
    ensures AtLeast(keys, sizes, threshold) == FolderRows(top, vs, pruned, threshold)
  {
    if vs != [] {
      assert forall k :: k in keys[1..] ==> k in keys;
      SameRows(top, vs[1..], pruned, keys[1..], sizes, threshold);
    }
  }

  /** The root comes first in the walk and has the largest total. */
  lemma RootIsLargest(tree: seq<Entry>, pruned: string -> bool)
    requires WellFormed(tree)
    ensures Walk([], tree, pruned)[0] == Visit([], tree)
    ensures forall v :: v in Walk([], tree, pruned) ==> Total(v.listing, pruned) <= Total(tree, pruned)
  {
    var vs := Walk([], tree, pruned);
    forall v | v in vs ensures Total(v.listing, pruned) <= Total(tree, pruned) {
      VisitTotal([], tree, v, pruned);
      assert v.path[0..] == v.path;
      WalkSumAt([], tree, v.path, pruned);
      WalkSumAt([], tree, [], pruned);
      assert [] + v.path == v.path;
      assert IsPrefix([], v.path);
      SumBelowMonotone(vs, [], v.path, pruned);
    }
  }

  /** What lies inside a matched entry never counts: replacing it by any
      other matched entry leaves the total unchanged. */
  lemma {:induction false} MatchedEntryIgnored(cs: seq<Entry>, i: int, e: Entry, pruned: string -> bool)
    requires 0 <= i < |cs| && pruned(cs[i].name) && pruned(e.name)
    ensures Total(cs[i := e], pruned) == Total(cs, pruned)
  {
    if i > 0 {
      MatchedEntryIgnored(cs[1..], i - 1, e, pruned);
      assert cs[i := e][1..] == cs[1..][i - 1 := e];
    }
  }

  // ---------------------------------------------------------------------------
  // A root given with a trailing separator

  /** As written, with the root "foo/" and a subdirectory "a", the ancestor
      loop starts from the dirpath "foo/a" and steps to "foo", then to "",
      which is its own dirname: no step ever reaches the root "foo/", so the
      loop never ends. */
  lemma TrailingSlashRootNeverReached()
    ensures DirPath("foo/", ["a"]) == "foo/a"
    ensures Dirname("foo/a") == "foo"
    ensures Dirname("foo") == "" && Dirname("") == ""
    ensures "foo/a" != "foo/" && "foo" != "foo/" && "" != "foo/"
  {
    assert "foo/a" != "foo/" by { assert |"foo/a"| == 5 && |"foo/"| == 4; }
    assert "foo" != "foo/" by { assert |"foo"| == 3 && |"foo/"| == 4; }
    assert "" != "foo/" by { assert |"foo/"| == 4; }
    assert DirPath("foo/", ["a"]) == "foo/a" by { TrailingSlashJoin(); }
    assert Dirname("foo/a") == "foo" by { TrailingSlashDirname(); }
    assert Dirname("foo") == "" by { DirnameOfName("foo"); }
    assert Dirname("") == "" by { DirnameOfName(""); }
  }

  /** "a" joined under "foo/" is "foo/a". */
  lemma TrailingSlashJoin()
    ensures DirPath("foo/", ["a"]) == "foo/a"
  {
    assert ["a"][..0] == [];
    assert DirPath("foo/", []) == "foo/";
  }

  /** The dirname of "foo/a" is "foo", without the trailing separator. */
  lemma TrailingSlashDirname()
    ensures Dirname("foo/a") == "foo"
  {
    RFindAt("foo/a", '/', 3);
    assert "foo/a"[..4] == "foo/";
    assert "foo/"[0] != '/';
    assert "foo/"[..3] == "foo";
    assert RStrip("foo/", '/') == RStrip("foo", '/') == "foo";
  }
}
