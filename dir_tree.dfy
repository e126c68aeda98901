/** directory_structure.py: get_directory_structure / build_tree, which read
    a directory into a nested dictionary, and tree_string / build_string,
    which draw that dictionary as a tree. */
module DirTree {
  import opened Common
  import opened PosixPath
  import opened FolderTree

  /** The nested dictionary: a file maps to None, a directory to the
      dictionary of its own entries, in listing order. */
  datatype Node = FileLeaf(name: string) | Folder(name: string, children: seq<Node>)

  // ---------------------------------------------------------------------------
  // build_tree

  /** build_tree over a directory's listing: the entries `excluded` rejects
      are skipped with everything below them, directories always recurse,
      and files are kept only when `includeFiles` is set. The counter starts
      at 1 for the directory itself and adds each kept entry's own count. */
  function BuildTree(cs: seq<Entry>, includeFiles: bool, excluded: string -> bool): (r: (seq<Node>, nat))
    ensures r.1 >= 1
    decreases cs
  {
    if cs == [] then ([], 1)
    else
      var rest := BuildTree(cs[1..], includeFiles, excluded);
      var e := cs[0];
      if excluded(e.name) then rest
      else if e.Dir? then
        var sub := BuildTree(e.children, includeFiles, excluded);
        ([Folder(e.name, sub.0)] + rest.0, rest.1 + sub.1)
      else if includeFiles then ([FileLeaf(e.name)] + rest.0, rest.1 + 1)
      else rest
  }

  /** re.match of an optional pattern: nothing is excluded without one.
      `matchesAtStart` stands for the regular-expression engine. */
  function Excluder(pattern: Option<string>, matchesAtStart: (string, string) -> bool): string -> bool
  {
    name => pattern.Some? && matchesAtStart(pattern.value, name)
  }

  /** get_directory_structure: a one-key dictionary named after the last
      component of the path, and the counter without the root itself. */
  function GetDirectoryStructure(path: string, listing: seq<Entry>, includeFiles: bool,
                                 pattern: Option<string>, matchesAtStart: (string, string) -> bool): (r: (Node, nat))
    ensures r.0.Folder? && r.0.name == Basename(path)
  {
    var built := BuildTree(listing, includeFiles, Excluder(pattern, matchesAtStart));
    (Folder(Basename(path), built.0), built.1 - 1)
  }

  /** The number of dictionary entries at every depth. */
  function Count(fs: seq<Node>): nat
    decreases fs
  {
    if fs == [] then 0
    else 1 + (if fs[0].Folder? then Count(fs[0].children) else 0) + Count(fs[1..])
  }

  lemma CountCons(n: Node, fs: seq<Node>)
    ensures Count([n] + fs) == 1 + (if n.Folder? then Count(n.children) else 0) + Count(fs)
  {
    assert ([n] + fs)[0] == n && ([n] + fs)[1..] == fs;
  }

  /** The counter build_tree returns is one more than the number of entries
      in the dictionary it returns. */
  lemma {:induction false} BuildTreeCount(cs: seq<Entry>, includeFiles: bool, excluded: string -> bool)
    ensures BuildTree(cs, includeFiles, excluded).1 == 1 + Count(BuildTree(cs, includeFiles, excluded).0)
    decreases cs
  {
    if cs != [] {
      var rest := BuildTree(cs[1..], includeFiles, excluded);
      BuildTreeCount(cs[1..], includeFiles, excluded);
      var e := cs[0];
      if !excluded(e.name) {
        if e.Dir? {
          BuildTreeCount(e.children, includeFiles, excluded);
          CountCons(Folder(e.name, BuildTree(e.children, includeFiles, excluded).0), rest.0);
        } else if includeFiles {
          CountCons(FileLeaf(e.name), rest.0);
        }
      }
    }
  }

  /** The "elements found" counter is the number of entries below the root. */
  lemma ScannedCount(path: string, listing: seq<Entry>, includeFiles: bool,
                     pattern: Option<string>, matchesAtStart: (string, string) -> bool)
    ensures GetDirectoryStructure(path, listing, includeFiles, pattern, matchesAtStart).1
         == Count(GetDirectoryStructure(path, listing, includeFiles, pattern, matchesAtStart).0.children)
  {
    BuildTreeCount(listing, includeFiles, Excluder(pattern, matchesAtStart));
  }

  /** The first entry of a listing with a given name. */
  function Find(cs: seq<Entry>, name: string): Option<Entry>
  {
    if cs == [] then None else if cs[0].name == name then Some(cs[0]) else Find(cs[1..], name)
  }

  function FindNode(fs: seq<Node>, name: string): Option<Node>
  {
    if fs == [] then None else if fs[0].name == name then Some(fs[0]) else FindNode(fs[1..], name)
  }

  /** The entry a path of names leads to from a listing. */
  function EntryAt(cs: seq<Entry>, p: seq<string>): Option<Entry>
    decreases |p|
  {
    if p == [] then None
    else match Find(cs, p[0])
      case None => None
      case Some(e) =>
        if |p| == 1 then Some(e)
        else if e.Dir? then EntryAt(e.children, p[1..])
        else None
  }

  function NodeAt(fs: seq<Node>, p: seq<string>): Option<Node>
    decreases |p|
  {
    if p == [] then None
    else match FindNode(fs, p[0])
      case None => None
      case Some(n) =>
        if |p| == 1 then Some(n)
        else if n.Folder? then NodeAt(n.children, p[1..])
        else None
  }

  /** No component of the path is excluded. */
  predicate Unexcluded(p: seq<string>, excluded: string -> bool)
  {
    forall k :: 0 <= k < |p| ==> !excluded(p[k])
  }

  lemma FindIn(cs: seq<Entry>, name: string)
    ensures Find(cs, name).Some? ==> Find(cs, name).value in cs && Find(cs, name).value.name == name
  {
    if cs != [] && cs[0].name != name {
      FindIn(cs[1..], name);
    }
  }

  /** One level of the tree: the node named `name` is there exactly when the
      listing has an entry of that name which is not excluded and is a
      directory or a file with files included; it is a folder exactly when
      the entry is a directory, and holds what that directory builds to. */
  lemma {:induction false} BuildFind(cs: seq<Entry>, includeFiles: bool, excluded: string -> bool, name: string)
    requires WellFormed(cs)
    ensures var n := FindNode(BuildTree(cs, includeFiles, excluded).0, name);
            var e := Find(cs, name);
            && (n.Some? <==> e.Some? && !excluded(name) && (e.value.Dir? || includeFiles))
            && (n.Some? ==> n.value.Folder? == e.value.Dir?)
            && (n.Some? && n.value.Folder? ==> n.value.children == BuildTree(e.value.children, includeFiles, excluded).0)
    decreases cs
  {
    if cs != [] {
      var rest := BuildTree(cs[1..], includeFiles, excluded);
      var e := cs[0];
      assert WellFormed(cs[1..]) by {
        forall i | 0 <= i < |cs[1..]| ensures cs[1..][i] == cs[i + 1] { }
      }
      BuildFind(cs[1..], includeFiles, excluded, name);
      if e.name == name {
        // No later entry has this name.
        NotFound(cs[1..], name);
        NotFoundNode(cs[1..], includeFiles, excluded, name);
      }
      var built := BuildTree(cs, includeFiles, excluded).0;
      if !excluded(e.name) && (e.Dir? || includeFiles) {
        assert built[0].name == e.name && built[1..] == rest.0;
      } else {
        assert built == rest.0;
      }
    }
  }

  /** In a well-formed listing, a name taken by the first entry is not found
      again in the rest. */
  lemma NotFound(rest: seq<Entry>, name: string)
    requires forall i :: 0 <= i < |rest| ==> rest[i].name != name
    ensures Find(rest, name) == None
  {
    if rest != [] {
      NotFound(rest[1..], name);
    }
  }

  lemma {:induction false} NotFoundNode(rest: seq<Entry>, includeFiles: bool, excluded: string -> bool, name: string)
    requires forall i :: 0 <= i < |rest| ==> rest[i].name != name
    ensures FindNode(BuildTree(rest, includeFiles, excluded).0, name) == None
    decreases rest
  {
    if rest != [] {
      NotFoundNode(rest[1..], includeFiles, excluded, name);
    }
  }

  /** A path leads to a node of the built tree exactly when it leads to an
      entry, no component on it is excluded, and the entry is a directory or
      files are included; a node is a folder exactly when its entry is a
      directory. So an excluded name disappears with its whole subtree, and
      without files every node is a folder. */
  lemma {:induction false} BuildTreeVisible(cs: seq<Entry>, includeFiles: bool, excluded: string -> bool, p: seq<string>)
    requires WellFormed(cs)
    ensures var n := NodeAt(BuildTree(cs, includeFiles, excluded).0, p);
            var e := EntryAt(cs, p);
            && (n.Some? <==> e.Some? && Unexcluded(p, excluded) && (e.value.Dir? || includeFiles))
            && (n.Some? ==> n.value.Folder? == e.value.Dir?)
    decreases |p|
  {
    if p != [] {
      BuildFind(cs, includeFiles, excluded, p[0]);
      var found := Find(cs, p[0]);
      FindIn(cs, p[0]);
      assert Unexcluded(p, excluded) <==> !excluded(p[0]) && Unexcluded(p[1..], excluded) by {
        if !excluded(p[0]) && Unexcluded(p[1..], excluded) {
          forall k | 0 <= k < |p| ensures !excluded(p[k]) {
            if k > 0 { assert p[k] == p[1..][k - 1]; }
          }
        }
      }
      if |p| > 1 && found.Some? && found.value.Dir? {
        var i :| 0 <= i < |cs| && cs[i] == found.value;
        BuildTreeVisible(found.value.children, includeFiles, excluded, p[1..]);
      }
    }
  }

  // ---------------------------------------------------------------------------
  // tree_string

  const Corner: char := '\U{2514}'
  const VerticalBranch: char := '\U{251C}'

  /** Python's string repetition: empty for a count below one. */
  function Repeat(c: char, n: int): (r: string)
    ensures |r| == if n <= 0 then 0 else n
    ensures forall k :: 0 <= k < |r| ==> r[k] == c
  {
    if n <= 0 then [] else [c] + Repeat(c, n - 1)
  }

  /** The prefix the children of a directory are drawn with. */
  function Deeper(prefix: string, isLast: bool, children: seq<Node>, tab: nat): string
  {
    if children != [] then prefix + [if isLast then ' ' else '|'] + Repeat(' ', tab) else prefix
  }

  /** One row: prefix, edge, tab-1 dashes, a space and the name. */
  function Row(prefix: string, isLast: bool, tab: nat, name: string): string
  {
    prefix + [if isLast then Corner else VerticalBranch] + Repeat('-', tab - 1) + " " + name
  }

  /** A row reads: the prefix, the edge (a corner for the last entry, a
      branch otherwise), max(tab - 1, 0) dashes, one space, the name. */
  lemma RowShape(prefix: string, isLast: bool, tab: nat, name: string)
    ensures var r := Row(prefix, isLast, tab, name);
            var d := if tab >= 1 then tab - 1 else 0;
            && |r| == |prefix| + 2 + d + |name|
            && r[..|prefix|] == prefix
            && r[|prefix|] == (if isLast then Corner else VerticalBranch)
            && (forall k :: |prefix| < k <= |prefix| + d ==> r[k] == '-')
            && r[|prefix| + 1 + d] == ' '
            && r[|prefix| + 2 + d..] == name
  {
    var d := if tab >= 1 then tab - 1 else 0;
    var dashes := Repeat('-', tab - 1);
    var r := Row(prefix, isLast, tab, name);
    assert r == prefix + [if isLast then Corner else VerticalBranch] + dashes + " " + name;
    assert |dashes| == d;
    forall k | |prefix| < k <= |prefix| + d
      ensures r[k] == '-'
    {
      assert r[k] == dashes[k - |prefix| - 1];
    }
  }

  /** The horizontal_tab spacer lines before a row. */
  function Spacers(prefix: string, count: nat): string
  {
    if count == 0 then [] else prefix + "|" + "\n" + Spacers(prefix, count - 1)
  }

  /** build_string: the rows of the entries in dictionary order, each
      directory's rows right after its own. */
  function BuildString(fs: seq<Node>, prefix: string, tab: nat, htab: nat): string
    decreases fs
  {
    if fs == [] then []
    else
      var isLast := |fs| == 1;
      var n := fs[0];
      Spacers(prefix, htab) + Row(prefix, isLast, tab, n.name)
      + (match n
         case Folder(_, ch) => "/\n" + BuildString(ch, Deeper(prefix, isLast, ch, tab), tab, htab)
         case FileLeaf(_) => "\n")
      + BuildString(fs[1..], prefix, tab, htab)
  }

  /** tree_string of the one-key dictionary {name: children}. */
  function TreeString(name: string, children: seq<Node>, tab: nat, htab: nat): string
  {
    name + "\n" + BuildString(children, "", tab, htab)
  }

  /** The same drawing as a list of lines without their "\n". */
  function BuildLines(fs: seq<Node>, prefix: string, tab: nat, htab: nat): seq<string>
    decreases fs
  {
    if fs == [] then []
    else
      var isLast := |fs| == 1;
      var n := fs[0];
      SpacerLines(prefix, htab)
      + (match n
         case Folder(_, ch) => [Row(prefix, isLast, tab, n.name) + "/"] + BuildLines(ch, Deeper(prefix, isLast, ch, tab), tab, htab)
         case FileLeaf(_) => [Row(prefix, isLast, tab, n.name)])
      + BuildLines(fs[1..], prefix, tab, htab)
  }

  function JoinLines(ls: seq<string>): string
  {
    if ls == [] then [] else ls[0] + "\n" + JoinLines(ls[1..])
  }

  lemma {:induction false} JoinLinesAppend(a: seq<string>, b: seq<string>)
    ensures JoinLines(a + b) == JoinLines(a) + JoinLines(b)
  {
    if a == [] {
      assert a + b == b;
    } else {
      assert (a + b)[0] == a[0] && (a + b)[1..] == a[1..] + b;
      JoinLinesAppend(a[1..], b);
    }
  }

  /** The spacer lines without their "\n". */
  function SpacerLines(prefix: string, count: nat): (r: seq<string>)
    ensures |r| == count
  {
    if count == 0 then [] else [prefix + "|"] + SpacerLines(prefix, count - 1)
  }

  lemma {:induction false} SpacerLinesShape(prefix: string, count: nat)
    ensures forall l :: l in SpacerLines(prefix, count) ==> l == prefix + "|"
  {
    if count > 0 {
      SpacerLinesShape(prefix, count - 1);
    }
  }

  lemma {:induction false} SpacersJoined(prefix: string, count: nat)
    ensures Spacers(prefix, count) == JoinLines(SpacerLines(prefix, count))
  {
    if count > 0 {
      SpacersJoined(prefix, count - 1);
      var rest := SpacerLines(prefix, count - 1);
      assert ([prefix + "|"] + rest)[0] == prefix + "|" && ([prefix + "|"] + rest)[1..] == rest;
    }
  }

  /** Joining the lines of one entry and of what follows it. */
  lemma JoinEntry(spacers: seq<string>, first: string, sub: seq<string>, tail: seq<string>)
    ensures JoinLines(spacers + ([first] + sub + tail))
         == JoinLines(spacers) + first + "\n" + JoinLines(sub) + JoinLines(tail)
  {
    var a, s, t := JoinLines(spacers), JoinLines(sub), JoinLines(tail);
    assert JoinLines([first]) == first + "\n" by {
      assert [first][1..] == [];
    }
    assert JoinLines([first] + sub) == first + "\n" + s by {
      JoinLinesAppend([first], sub);
    }
    assert JoinLines([first] + sub + tail) == first + "\n" + s + t by {
      JoinLinesAppend([first] + sub, tail);
    }
    assert JoinLines(spacers + ([first] + sub + tail)) == a + (first + "\n" + s + t) by {
      JoinLinesAppend(spacers, [first] + sub + tail);
    }
  }

  /** One entry of the drawing, as a string and as lines, for a directory. */
  lemma UnfoldFolder(fs: seq<Node>, prefix: string, tab: nat, htab: nat)
    requires fs != [] && fs[0].Folder?
    ensures var isLast := |fs| == 1;
            var row := Row(prefix, isLast, tab, fs[0].name);
            var deeper := Deeper(prefix, isLast, fs[0].children, tab);
            && BuildString(fs, prefix, tab, htab)
               == Spacers(prefix, htab) + (row + "/") + "\n" + BuildString(fs[0].children, deeper, tab, htab)
                  + BuildString(fs[1..], prefix, tab, htab)
            && BuildLines(fs, prefix, tab, htab)
               == SpacerLines(prefix, htab) + ([row + "/"] + BuildLines(fs[0].children, deeper, tab, htab)
                  + BuildLines(fs[1..], prefix, tab, htab))
  {
    var isLast := |fs| == 1;
    var row := Row(prefix, isLast, tab, fs[0].name);
    var deeper := Deeper(prefix, isLast, fs[0].children, tab);
    var inner := BuildString(fs[0].children, deeper, tab, htab);
    var rest := BuildString(fs[1..], prefix, tab, htab);
    assert BuildString(fs, prefix, tab, htab) == Spacers(prefix, htab) + (row + "/") + "\n" + inner + rest by {
      assert BuildString(fs, prefix, tab, htab) == Spacers(prefix, htab) + row + ("/\n" + inner) + rest;
      RegroupFolderRow(Spacers(prefix, htab), row, inner, rest);
    }
    var lines := BuildLines(fs[0].children, deeper, tab, htab);
    var later := BuildLines(fs[1..], prefix, tab, htab);
    assert BuildLines(fs, prefix, tab, htab) == SpacerLines(prefix, htab) + ([row + "/"] + lines) + later;
  }

  lemma RegroupFolderRow(spacers: string, row: string, inner: string, rest: string)
    ensures spacers + row + ("/\n" + inner) + rest == spacers + (row + "/") + "\n" + inner + rest
  {
    var l := spacers + row + ("/\n" + inner) + rest;
    var r := spacers + (row + "/") + "\n" + inner + rest;
    assert |l| == |r|;
    forall k | 0 <= k < |l| ensures l[k] == r[k] {
    }
  }

  /** One entry of the drawing, as a string and as lines, for a file. */
  lemma UnfoldFile(fs: seq<Node>, prefix: string, tab: nat, htab: nat)
    requires fs != [] && fs[0].FileLeaf?
    ensures var row := Row(prefix, |fs| == 1, tab, fs[0].name);
            && BuildString(fs, prefix, tab, htab)
               == Spacers(prefix, htab) + row + "\n" + BuildString(fs[1..], prefix, tab, htab)
            && BuildLines(fs, prefix, tab, htab)
               == SpacerLines(prefix, htab) + ([row] + [] + BuildLines(fs[1..], prefix, tab, htab))
  {
    var row := Row(prefix, |fs| == 1, tab, fs[0].name);
    var rest := BuildString(fs[1..], prefix, tab, htab);
    assert BuildString(fs, prefix, tab, htab) == Spacers(prefix, htab) + row + "\n" + rest;
    var later := BuildLines(fs[1..], prefix, tab, htab);
    assert BuildLines(fs, prefix, tab, htab) == SpacerLines(prefix, htab) + [row] + later;
    assert [row] + [] == [row];
  }

  /** The drawing is its lines, each ended by "\n". */
  lemma {:induction false} BuildStringLines(fs: seq<Node>, prefix: string, tab: nat, htab: nat)
    ensures BuildString(fs, prefix, tab, htab) == JoinLines(BuildLines(fs, prefix, tab, htab))
    decreases fs
  {
    if fs != [] {
      var isLast := |fs| == 1;
      var row := Row(prefix, isLast, tab, fs[0].name);
      var spacers := SpacerLines(prefix, htab);
      SpacersJoined(prefix, htab);
      BuildStringLines(fs[1..], prefix, tab, htab);
      var tail := BuildLines(fs[1..], prefix, tab, htab);
      if fs[0].Folder? {
        var deeper := Deeper(prefix, isLast, fs[0].children, tab);
        BuildStringLines(fs[0].children, deeper, tab, htab);
        UnfoldFolder(fs, prefix, tab, htab);
        JoinEntry(spacers, row + "/", BuildLines(fs[0].children, deeper, tab, htab), tail);
      } else {
        UnfoldFile(fs, prefix, tab, htab);
        JoinEntry(spacers, row, [], tail);
        assert JoinLines([]) == [];
      }
    }
  }

  /** Each entry draws horizontal_tab spacer lines and one row. */
  lemma {:induction false} BuildLinesCount(fs: seq<Node>, prefix: string, tab: nat, htab: nat)
    ensures |BuildLines(fs, prefix, tab, htab)| == (htab + 1) * Count(fs)
    decreases fs
  {
    if fs != [] {
      var isLast := |fs| == 1;
      BuildLinesCount(fs[1..], prefix, tab, htab);
      var inner := if fs[0].Folder? then Count(fs[0].children) else 0;
      if fs[0].Folder? {
        BuildLinesCount(fs[0].children, Deeper(prefix, isLast, fs[0].children, tab), tab, htab);
      }
      Distribute(htab + 1, inner, Count(fs[1..]));
    }
  }

  lemma Distribute(h: nat, a: nat, b: nat)
    ensures h * (1 + a + b) == h + h * a + h * b
  {
  }

  /** Every line of a subtree starts with the subtree's prefix. */
  lemma {:induction false} BuildLinesPrefix(fs: seq<Node>, prefix: string, tab: nat, htab: nat)
    ensures forall l :: l in BuildLines(fs, prefix, tab, htab) ==> prefix <= l
    decreases fs
  {
    if fs != [] {
      var isLast := |fs| == 1;
      BuildLinesPrefix(fs[1..], prefix, tab, htab);
      var row := Row(prefix, isLast, tab, fs[0].name);
      assert prefix <= row;
      SpacerLinesShape(prefix, htab);
      if fs[0].Folder? {
        var ch := fs[0].children;
        var deeper := Deeper(prefix, isLast, ch, tab);
        BuildLinesPrefix(ch, deeper, tab, htab);
        assert prefix <= deeper;
        assert prefix <= row + "/";
      }
    }
  }

  /** No name anywhere in the tree holds a newline. */
  predicate OneLineNames(fs: seq<Node>)
    decreases fs
  {
    forall i :: 0 <= i < |fs| ==> '\n' !in fs[i].name && (fs[i].Folder? ==> OneLineNames(fs[i].children))
  }

  /** With one-line names and prefix, no line holds a newline. */
  lemma {:induction false} BuildLinesOneLine(fs: seq<Node>, prefix: string, tab: nat, htab: nat)
    requires OneLineNames(fs) && '\n' !in prefix
    ensures forall l :: l in BuildLines(fs, prefix, tab, htab) ==> '\n' !in l
    decreases fs
  {
    if fs != [] {
      var isLast := |fs| == 1;
      assert OneLineNames(fs[1..]) by {
        forall i | 0 <= i < |fs[1..]| ensures fs[1..][i] == fs[i + 1] { }
      }
      BuildLinesOneLine(fs[1..], prefix, tab, htab);
      assert '\n' !in fs[0].name;
      var row := Row(prefix, isLast, tab, fs[0].name);
      assert '\n' !in row;
      SpacerLinesShape(prefix, htab);
      if fs[0].Folder? {
        var ch := fs[0].children;
        var deeper := Deeper(prefix, isLast, ch, tab);
        assert '\n' !in deeper;
        BuildLinesOneLine(ch, deeper, tab, htab);
        assert '\n' !in row + "/";
      }
    }
  }

  lemma {:induction false} JoinLinesNewlines(ls: seq<string>)
    requires forall l :: l in ls ==> '\n' !in l
    ensures CountNewlines(JoinLines(ls)) == |ls|
  {
    if ls != [] {
      assert ls[0] in ls;
      JoinLinesNewlines(ls[1..]);
      CountNewlinesNone(ls[0]);
      CountNewlinesAppend(ls[0], "\n" + JoinLines(ls[1..]));
      CountNewlinesAppend("\n", JoinLines(ls[1..]));
      assert ls[0] + "\n" + JoinLines(ls[1..]) == ls[0] + ("\n" + JoinLines(ls[1..]));
    }
  }

  /** tree_string draws one line for the root name and horizontal_tab + 1
      lines for every entry below it. */
  lemma TreeStringLines(name: string, children: seq<Node>, tab: nat, htab: nat)
    requires '\n' !in name && OneLineNames(children)
    ensures CountNewlines(TreeString(name, children, tab, htab)) == 1 + (htab + 1) * Count(children)
  {
    var ls := BuildLines(children, "", tab, htab);
    BuildStringLines(children, "", tab, htab);
    BuildLinesCount(children, "", tab, htab);
    BuildLinesOneLine(children, "", tab, htab);
    JoinLinesNewlines(ls);
    CountNewlinesNone(name);
    CountNewlinesAppend(name, "\n");
    CountNewlinesAppend(name + "\n", JoinLines(ls));
  }
}
