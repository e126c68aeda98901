/** file_diff.py: loading the two line lists, choosing the name of the
    difference file, and grouping the compared lines into blocks with
    DIFFERENCE / FROM FILE / END headers. */
module FileDiff {
  import opened Common
  import opened PosixPath

  // ---------------------------------------------------------------------------
  // script_init

  datatype InitError =
    | WrongArgumentCount(given: nat)  // fewer than three arguments
    | ReadFailed                      // the read step raised (an empty file has no last line)

  /** The lines of a file with "\n" added to the last one. */
  function WithFinalNewline(lines: seq<string>): (r: seq<string>)
    requires lines != []
    ensures |r| == |lines|
    ensures r[..|r| - 1] == lines[..|lines| - 1]
    ensures r[|r| - 1] == lines[|lines| - 1] + "\n"
  {
    lines[..|lines| - 1] + [lines[|lines| - 1] + "\n"]
  }

  /** script_init once the files exist and have the same MIME type: the
      argument count is checked, then "\n" is added to the last line of each
      list, whether or not it already ends with one. */
  function LoadLines(args: seq<string>, lines1: seq<string>, lines2: seq<string>): (r: Result<(seq<string>, seq<string>), InitError>)
    ensures |args| < 3 ==> r == Err(WrongArgumentCount(|args|))
    ensures r.Ok? <==> |args| >= 3 && lines1 != [] && lines2 != []
    ensures r.Ok? ==> r.value == (WithFinalNewline(lines1), WithFinalNewline(lines2))
    ensures r.Ok? ==> |r.value.0| == |lines1| && |r.value.1| == |lines2|
    ensures r.Ok? ==> CountNewlines(r.value.0[|lines1| - 1]) == CountNewlines(lines1[|lines1| - 1]) + 1
    ensures r.Ok? ==> CountNewlines(r.value.1[|lines2| - 1]) == CountNewlines(lines2[|lines2| - 1]) + 1
  {
    if |args| < 3 then Err(WrongArgumentCount(|args|))
    else if lines1 == [] || lines2 == [] then Err(ReadFailed)
    else
      CountNewlinesAppend(lines1[|lines1| - 1], "\n");
      CountNewlinesAppend(lines2[|lines2| - 1], "\n");
      Ok((WithFinalNewline(lines1), WithFinalNewline(lines2)))
  }

  // ---------------------------------------------------------------------------
  // create_diff_file

  /** The name the difference file is meant to have. */
  function DiffName(file1Path: string, file2Path: string): (n: string)
    ensures '/' !in n
  {
    var base := Basename(file1Path);
    var stem := SplitExt(base).0;
    assert '/' !in stem by {
      assert stem <= base;
      assert forall c :: c in stem ==> c in base;
    }
    var n := "difference_" + stem + "_" + Basename(file2Path);
    assert '/' !in "difference_" && '/' !in "_";
    n
  }

  /** The difference file's path as the source builds it: the directory of
      the first file is put in front of the name and the name is then joined
      under that directory again. */
  function DiffPathAsWritten(file1Path: string, file2Path: string): string
  {
    var dir := Dirname(file1Path);
    Join(dir, dir + DiffName(file1Path, file2Path))
  }

  /** The difference file's path as intended: the name joined under the
      directory of the first file. */
  function DiffPath(file1Path: string, file2Path: string): string
  {
    Join(Dirname(file1Path), DiffName(file1Path, file2Path))
  }

  /** The first file's path split into a directory and a name. */
  lemma FirstFileParts(dir: string, file1: string)
    requires dir != [] && dir[|dir| - 1] != '/' && IsName(file1)
    ensures Dirname(dir + "/" + file1) == dir && Basename(dir + "/" + file1) == file1
  {
    assert !StartsWithSlash(file1) by { assert file1[0] in file1; }
    assert Join(dir, file1) == dir + "/" + file1;
    DirnameJoin(dir, file1);
  }

  /** As written, a relative directory is repeated inside the file name:
      "docs/a.txt" and "b.txt" give "docs/docsdifference_a_b.txt", where
      "docs/difference_a_b.txt" is meant. */
  lemma DiffPathAsWrittenDoubled(dir: string, file1: string, file2Path: string)
    requires dir != [] && dir[0] != '/' && dir[|dir| - 1] != '/' && IsName(file1)
    ensures DiffPathAsWritten(dir + "/" + file1, file2Path) == dir + "/" + dir + DiffName(dir + "/" + file1, file2Path)
    ensures DiffPath(dir + "/" + file1, file2Path) == dir + "/" + DiffName(dir + "/" + file1, file2Path)
  {
    var p1 := dir + "/" + file1;
    FirstFileParts(dir, file1);
    var n := DiffName(p1, file2Path);
    assert Join(dir, dir + n) == dir + "/" + (dir + n) by {
      assert (dir + n)[0] == dir[0];
    }
    assert Join(dir, n) == dir + "/" + n by {
      DiffNameRelative(p1, file2Path);
    }
    assert dir + "/" + (dir + n) == dir + "/" + dir + n;
  }

  /** The difference file's name never starts with a separator. */
  lemma DiffNameRelative(file1Path: string, file2Path: string)
    ensures !StartsWithSlash(DiffName(file1Path, file2Path))
  {
    var n := DiffName(file1Path, file2Path);
    assert n[0] == 'd';
  }

  /** As written, an absolute directory is glued to the name, and the join
      then keeps only that absolute name: "/x/a.txt" and "b.txt" give
      "/xdifference_a_b.txt", a file in the parent of "/x" whose name starts
      with "x". */
  lemma DiffPathAsWrittenEscapes(dir: string, file1: string, file2Path: string)
    requires dir != [] && dir[0] == '/' && dir[|dir| - 1] != '/' && IsName(file1)
    ensures DiffPathAsWritten(dir + "/" + file1, file2Path) == dir + DiffName(dir + "/" + file1, file2Path)
    ensures Basename(DiffPathAsWritten(dir + "/" + file1, file2Path)) == Basename(dir) + DiffName(dir + "/" + file1, file2Path)
  {
    var p1 := dir + "/" + file1;
    FirstFileParts(dir, file1);
    var n := DiffName(p1, file2Path);
    GluedBasename(dir, n);
    assert (dir + n)[0] == '/';
    assert Join(dir, dir + n) == dir + n;
  }

  /** A name glued to an absolute directory ends up in the directory's parent. */
  lemma GluedBasename(dir: string, n: string)
    requires dir != [] && dir[0] == '/' && '/' !in n
    ensures Basename(dir + n) == Basename(dir) + n
  {
    var i := RFind(dir, '/');
    LastSlashGlued(dir, n);
    assert (dir + n)[i + 1..] == dir[i + 1..] + n;
    assert Split(dir + n).1 == (dir + n)[i + 1..];
    assert Split(dir).1 == dir[i + 1..];
  }

  /** The last separator of a name glued to a directory is the directory's. */
  lemma LastSlashGlued(dir: string, n: string)
    requires '/' !in n
    ensures RFind(dir + n, '/') == RFind(dir, '/')
  {
    var p := dir + n;
    var i := RFind(dir, '/');
    forall j | i < j < |p| ensures p[j] != '/' {
      if j >= |dir| {
        assert p[j] == n[j - |dir|] && n[j - |dir|] in n;
      }
    }
    RFindAt(p, '/', i);
  }

  /** A directory part of a path is empty or normalized. */
  lemma DirnameShape(p: string)
    ensures Dirname(p) == [] || Normalized(Dirname(p))
  {
    var i := RFind(p, '/') + 1;
    var head := p[..i];
    if head != [] && !AllSlashes(head) {
      var j :| 0 <= j < |head| && head[j] != '/';
      var r := RStrip(head, '/');
      assert Dirname(p) == r;
      assert |r| > j;
    } else {
      assert Dirname(p) == head;
    }
  }

  /** The intended path lies in the first file's directory and carries the
      intended name. */
  lemma DiffPathPlacement(file1Path: string, file2Path: string)
    ensures Dirname(DiffPath(file1Path, file2Path)) == Dirname(file1Path)
    ensures Basename(DiffPath(file1Path, file2Path)) == DiffName(file1Path, file2Path)
  {
    var dir := Dirname(file1Path);
    var n := DiffName(file1Path, file2Path);
    DirnameShape(file1Path);
    if dir == [] {
      assert Join(dir, n) == n;
      DirnameOfName(n);
      BasenameOfName(n);
    } else {
      DirnameJoin(dir, n);
    }
  }

  lemma BasenameOfName(p: string)
    requires '/' !in p
    ensures Basename(p) == p
  {
    forall j | 0 <= j < |p| ensures p[j] != '/' {
      assert p[j] in p;
    }
    assert RFind(p, '/') == -1;
  }

  /** The n-th alternative name: "_n" inserted before the extension. */
  function Numbered(path: string, n: nat): string
  {
    var parts := SplitExt(path);
    parts.0 + "_" + NatToString(n) + parts.1
  }

  /** Distinct numerals give distinct names. */
  lemma NumberedInjective(path: string, m: nat, n: nat)
    requires Numbered(path, m) == Numbered(path, n)
    ensures m == n
  {
    var parts := SplitExt(path);
    var a, b := NatToString(m), NatToString(n);
    var k := |parts.0| + 1;
    assert Numbered(path, m)[k..] == a + parts.1;
    assert Numbered(path, n)[k..] == b + parts.1;
    assert |a| == |b|;
    assert a == (a + parts.1)[..|a|];
    assert b == (b + parts.1)[..|b|];
    NatToStringInjective(m, n);
  }

  /** The names for 1..n-1 are n-1 distinct names, all among `taken`, so at
      most |taken| numerals can be refused. */
  lemma NumberedBound(path: string, n: nat, taken: set<string>)
    requires n >= 1
    requires forall k :: 1 <= k < n ==> Numbered(path, k) in taken
    ensures n - 1 <= |taken|
  {
    var names := set k: nat | 1 <= k < n :: Numbered(path, k);
    assert names <= taken;
    NamesCount(path, n);
    SubsetCard(names, taken);
  }

  lemma SubsetCard(a: set<string>, b: set<string>)
    requires a <= b
    ensures |a| <= |b|
  {
    assert b == a + (b - a);
  }

  lemma {:induction false} NamesCount(path: string, n: nat)
    requires n >= 1
    ensures |set k: nat | 1 <= k < n :: Numbered(path, k)| == n - 1
  {
    if n > 1 {
      NamesCount(path, n - 1);
      NamesSplit(path, n);
    } else {
      assert (set k: nat | 1 <= k < n :: Numbered(path, k)) == {};
    }
  }

  /** The names below n are those below n - 1 and one more, new, name. */
  lemma NamesSplit(path: string, n: nat)
    requires n > 1
    ensures var smaller := set k: nat | 1 <= k < n - 1 :: Numbered(path, k);
      && (set k: nat | 1 <= k < n :: Numbered(path, k)) == smaller + {Numbered(path, n - 1)}
      && Numbered(path, n - 1) !in smaller
  {
    var smaller := set k: nat | 1 <= k < n - 1 :: Numbered(path, k);
    if Numbered(path, n - 1) in smaller {
      var k :| 1 <= k < n - 1 && Numbered(path, k) == Numbered(path, n - 1);
      NumberedInjective(path, k, n - 1);
    }
  }

  /** The numbering loop of create_diff_file: the first numeral n >= 1 whose
      name is not taken. */
  method FirstFreeNumbered(base: string, existing: set<string>) returns (n: nat, path: string)
    ensures n >= 1 && path == Numbered(base, n) && path !in existing
    ensures forall k :: 1 <= k < n ==> Numbered(base, k) in existing
  {
    n := 1;
    while Numbered(base, n) in existing
      invariant n >= 1
      invariant forall k :: 1 <= k < n ==> Numbered(base, k) in existing
      decreases |existing| + 1 - n
    {
      NumberedBound(base, n + 1, existing);
      n := n + 1;
    }
    path := Numbered(base, n);
  }

  /** create_diff_file's choice of path, given the path it built (the
      source builds DiffPathAsWritten; DiffPath is the corrected one) and the
      paths that already exist: that path if it is free, otherwise the first
      free numbered name. */
  method ChooseDiffPath(base: string, existing: set<string>) returns (path: string)
    ensures path !in existing
    ensures base !in existing ==> path == base
    ensures base in existing ==>
      exists n: nat :: n >= 1 && path == Numbered(base, n)
        && forall k :: 1 <= k < n ==> Numbered(base, k) in existing
  {
    path := base;
    if base in existing {
      var n;
      n, path := FirstFreeNumbered(base, existing);
    }
  }

  // ---------------------------------------------------------------------------
  // process_diff

  /** What one line of the comparison is, by its two-character prefix. */
  datatype Kind = Common | OnlyIn1 | OnlyIn2 | Other

  function KindOf(line: string): Kind
  {
    if StartsWith(line, "  ") then Common
    else if StartsWith(line, "- ") then OnlyIn1
    else if StartsWith(line, "+ ") then OnlyIn2
    else Other
  }

  function Payload(line: string): string
  {
    if |line| >= 2 then line[2..] else []
  }

  /** The pieces of the output: the four header strings and the payloads. */
  datatype Piece = DifferenceTop | FromFile1 | FromFile2 | DifferenceBot | Text(s: string)

  /** Which side's lines the current block is collecting, if any. */
  datatype Side = Neutral | In1 | In2

  /** The output, written as it streams: a common line closes an open block
      and is copied; a line of one side opens a block (or switches side)
      and is copied; other lines are dropped; an open block is closed at the
      end. */
  function Stream(lines: seq<string>, side: Side): seq<Piece>
  {
    if lines == [] then Close(side)
    else Emit(lines[0], side) + Stream(lines[1..], Next(lines[0], side))
  }

  /** The END footer that closes an open block. */
  function Close(side: Side): seq<Piece>
  {
    if side == Neutral then [] else [DifferenceBot]
  }

  /** What one line writes, given the block that is open before it. */
  function Emit(line: string, side: Side): seq<Piece>
  {
    match KindOf(line)
    case Common => Close(side) + [Text(Payload(line))]
    case OnlyIn1 =>
      (if side == Neutral then [DifferenceTop, FromFile1] else if side == In2 then [FromFile1] else [])
      + [Text(Payload(line))]
    case OnlyIn2 =>
      (if side == Neutral then [DifferenceTop, FromFile2] else if side == In1 then [FromFile2] else [])
      + [Text(Payload(line))]
    case Other => []
  }

  /** The block that is open after one line. */
  function Next(line: string, side: Side): Side
  {
    match KindOf(line)
    case Common => Neutral
    case OnlyIn1 => In1
    case OnlyIn2 => In2
    case Other => side
  }

  function PieceText(p: Piece, name1: string, name2: string): string
  {
    match p
    case DifferenceTop => "\n##### DIFFERENCE IN FILES #####\n"
    case FromFile1 => "\nFROM FILE " + name1 + " :\n"
    case FromFile2 => "\nFROM FILE " + name2 + " :\n"
    case DifferenceBot => "\n############# END #############\n\n"
    case Text(s) => s
  }

  function Texts(ps: seq<Piece>, name1: string, name2: string): (r: seq<string>)
    ensures |r| == |ps|
    ensures forall k :: 0 <= k < |ps| ==> r[k] == PieceText(ps[k], name1, name2)
  {
    seq(|ps|, k requires 0 <= k < |ps| => PieceText(ps[k], name1, name2))
  }

  /** Kept text written on its own comes out unchanged. */
  lemma TextsOfText(ss: seq<string>, name1: string, name2: string)
    ensures Texts(TextPieces(ss), name1, name2) == ss
  {
  }

  lemma TextsAppend(a: seq<Piece>, b: seq<Piece>, name1: string, name2: string)
    ensures Texts(a + b, name1, name2) == Texts(a, name1, name2) + Texts(b, name1, name2)
  {
  }

  function SideOf(from1: bool, from2: bool): Side
  {
    if from1 then In1 else if from2 then In2 else Neutral
  }

  lemma TextsSnoc(a: seq<Piece>, p: Piece, name1: string, name2: string)
    ensures Texts(a + [p], name1, name2) == Texts(a, name1, name2) + [PieceText(p, name1, name2)]
  {
  }

  lemma StreamCons(lines: seq<string>, i: nat, side: Side)
    requires i < |lines|
    ensures Stream(lines[i..], side) == Emit(lines[i], side) + Stream(lines[i + 1..], Next(lines[i], side))
  {
    assert lines[i..][1..] == lines[i + 1..];
  }

  lemma OpenStep(written: seq<Piece>, pending0: seq<Piece>, pending: seq<Piece>, added: seq<Piece>)
    requires pending == pending0 + added
    ensures written + pending == (written + pending0) + added
  {
  }

  /** Both flags are never set together, and the buffer holds something
      exactly while one of them is set. */
  predicate FlagsAgree(pending: seq<Piece>, fromList1: bool, fromList2: bool)
  {
    !(fromList1 && fromList2) && (pending != [] <==> fromList1 || fromList2)
  }

  /** One turn of process_diff's loop: the buffer and flags after one line.
      What is written and what is buffered together grow by the line's
      streamed output, and the flags name the block the line leaves open. */
  method ConsumeLine(line: string, name1: string, name2: string,
                     finalList: seq<string>, buffer: seq<string>, fromList1: bool, fromList2: bool,
                     ghost written: seq<Piece>, ghost pending: seq<Piece>)
    returns (finalList': seq<string>, buffer': seq<string>, fromList1': bool, fromList2': bool,
             ghost written': seq<Piece>, ghost pending': seq<Piece>)
    requires FlagsAgree(pending, fromList1, fromList2)
    requires finalList == Texts(written, name1, name2) && buffer == Texts(pending, name1, name2)
    ensures FlagsAgree(pending', fromList1', fromList2')
    ensures finalList' == Texts(written', name1, name2) && buffer' == Texts(pending', name1, name2)
    ensures SideOf(fromList1', fromList2') == Next(line, SideOf(fromList1, fromList2))
    ensures written' + pending' == written + pending + Emit(line, SideOf(fromList1, fromList2))
    ensures StartsWith(line, "  ") ==>
      buffer' == [] && finalList' == finalList + buffer
        + (if fromList1 || fromList2 then [PieceText(DifferenceBot, name1, name2)] else []) + [Payload(line)]
  {
    if StartsWith(line, "  ") {
      finalList', buffer', fromList1', fromList2', written', pending' :=
        ConsumeCommon(line, name1, name2, finalList, buffer, fromList1, fromList2, written, pending);
    } else if StartsWith(line, "- ") {
      finalList', buffer', fromList1', fromList2', written', pending' :=
        ConsumeRemoved(line, name1, name2, finalList, buffer, fromList1, fromList2, written, pending);
    } else if StartsWith(line, "+ ") {
      finalList', buffer', fromList1', fromList2', written', pending' :=
        ConsumeAdded(line, name1, name2, finalList, buffer, fromList1, fromList2, written, pending);
    } else {
      finalList', buffer', fromList1', fromList2' := finalList, buffer, fromList1, fromList2;
      written', pending' := written, pending;
    }
  }

  /** A common line: close an open block, flush the buffer, write the payload. */
  method ConsumeCommon(line: string, name1: string, name2: string,
                       finalList: seq<string>, buffer: seq<string>, fromList1: bool, fromList2: bool,
                       ghost written: seq<Piece>, ghost pending: seq<Piece>)
    returns (finalList': seq<string>, buffer': seq<string>, fromList1': bool, fromList2': bool,
             ghost written': seq<Piece>, ghost pending': seq<Piece>)
    requires StartsWith(line, "  ")
    requires FlagsAgree(pending, fromList1, fromList2)
    requires finalList == Texts(written, name1, name2) && buffer == Texts(pending, name1, name2)
    ensures FlagsAgree(pending', fromList1', fromList2')
    ensures finalList' == Texts(written', name1, name2) && buffer' == Texts(pending', name1, name2)
    ensures SideOf(fromList1', fromList2') == Next(line, SideOf(fromList1, fromList2))
    ensures written' + pending' == written + pending + Emit(line, SideOf(fromList1, fromList2))
    ensures buffer' == [] && finalList' == finalList + buffer
      + (if fromList1 || fromList2 then [PieceText(DifferenceBot, name1, name2)] else []) + [Payload(line)]
  {
    var bot := PieceText(DifferenceBot, name1, name2);
    ghost var side := SideOf(fromList1, fromList2);
    finalList', buffer', fromList1', fromList2' := finalList, buffer, fromList1, fromList2;
    written', pending' := written, pending;
    if fromList1' {
      TextsSnoc(pending', DifferenceBot, name1, name2);
      buffer', pending' := buffer' + [bot], pending' + [DifferenceBot];
      fromList1' := false;
    }
    if fromList2' {
      TextsSnoc(pending', DifferenceBot, name1, name2);
      buffer', pending' := buffer' + [bot], pending' + [DifferenceBot];
      fromList2' := false;
    }
    if buffer' != [] {
      TextsAppend(written', pending', name1, name2);
      finalList', written' := finalList' + buffer', written' + pending';
      buffer', pending' := [], [];
    }
    assert written' + pending' == written + pending + Close(side);
    TextsSnoc(written', Text(Payload(line)), name1, name2);
    finalList', written' := finalList' + [Payload(line)], written' + [Text(Payload(line))];
  }

  /** A line only in the first file: open its block if needed, buffer the payload. */
  method ConsumeRemoved(line: string, name1: string, name2: string,
                       finalList: seq<string>, buffer: seq<string>, fromList1: bool, fromList2: bool,
                       ghost written: seq<Piece>, ghost pending: seq<Piece>)
    returns (finalList': seq<string>, buffer': seq<string>, fromList1': bool, fromList2': bool,
             ghost written': seq<Piece>, ghost pending': seq<Piece>)
    requires !StartsWith(line, "  ") && StartsWith(line, "- ")
    requires FlagsAgree(pending, fromList1, fromList2)
    requires finalList == Texts(written, name1, name2) && buffer == Texts(pending, name1, name2)
    ensures FlagsAgree(pending', fromList1', fromList2')
    ensures finalList' == Texts(written', name1, name2) && buffer' == Texts(pending', name1, name2)
    ensures SideOf(fromList1', fromList2') == Next(line, SideOf(fromList1, fromList2))
    ensures written' + pending' == written + pending + Emit(line, SideOf(fromList1, fromList2))
  {
    var top := PieceText(DifferenceTop, name1, name2);
    var from1 := PieceText(FromFile1, name1, name2);
    ghost var side := SideOf(fromList1, fromList2);
    finalList', buffer', fromList1', fromList2' := finalList, buffer, fromList1, fromList2;
    written', pending' := written, pending;
    if !fromList1' {
      if !fromList2' {
        TextsSnoc(pending', DifferenceTop, name1, name2);
        buffer', pending' := buffer' + [top], pending' + [DifferenceTop];
      }
      TextsSnoc(pending', FromFile1, name1, name2);
      buffer', pending' := buffer' + [from1], pending' + [FromFile1];
      fromList1' := true;
      fromList2' := false;
    }
    TextsSnoc(pending', Text(Payload(line)), name1, name2);
    buffer', pending' := buffer' + [Payload(line)], pending' + [Text(Payload(line))];
    OpenStep(written, pending, pending', Emit(line, side));
  }

  /** A line only in the second file: open its block if needed, buffer the payload. */
  method ConsumeAdded(line: string, name1: string, name2: string,
                       finalList: seq<string>, buffer: seq<string>, fromList1: bool, fromList2: bool,
                       ghost written: seq<Piece>, ghost pending: seq<Piece>)
    returns (finalList': seq<string>, buffer': seq<string>, fromList1': bool, fromList2': bool,
             ghost written': seq<Piece>, ghost pending': seq<Piece>)
    requires !StartsWith(line, "  ") && !StartsWith(line, "- ") && StartsWith(line, "+ ")
    requires FlagsAgree(pending, fromList1, fromList2)
    requires finalList == Texts(written, name1, name2) && buffer == Texts(pending, name1, name2)
    ensures FlagsAgree(pending', fromList1', fromList2')
    ensures finalList' == Texts(written', name1, name2) && buffer' == Texts(pending', name1, name2)
    ensures SideOf(fromList1', fromList2') == Next(line, SideOf(fromList1, fromList2))
    ensures written' + pending' == written + pending + Emit(line, SideOf(fromList1, fromList2))
  {
    var top := PieceText(DifferenceTop, name1, name2);
    var from2 := PieceText(FromFile2, name1, name2);
    ghost var side := SideOf(fromList1, fromList2);
    finalList', buffer', fromList1', fromList2' := finalList, buffer, fromList1, fromList2;
    written', pending' := written, pending;
    if !fromList2' {
      if !fromList1' {
        TextsSnoc(pending', DifferenceTop, name1, name2);
        buffer', pending' := buffer' + [top], pending' + [DifferenceTop];
      }
      TextsSnoc(pending', FromFile2, name1, name2);
      buffer', pending' := buffer' + [from2], pending' + [FromFile2];
      fromList2' := true;
      fromList1' := false;
    }
    TextsSnoc(pending', Text(Payload(line)), name1, name2);
    buffer', pending' := buffer' + [Payload(line)], pending' + [Text(Payload(line))];
    OpenStep(written, pending, pending', Emit(line, side));
  }

  /** process_diff: lines are grouped into blocks through a buffer that is
      flushed when a common line arrives and at the end. The buffering does
      not change what is written: the result is the streamed output. */
  method ProcessDiff(difference: seq<string>, name1: string, name2: string) returns (finalList: seq<string>)
    ensures finalList == Texts(Stream(difference, Neutral), name1, name2)
  {
    finalList := [];
    var buffer: seq<string> := [];
    var fromList1, fromList2 := false, false;
    ghost var written: seq<Piece> := [];
    ghost var pending: seq<Piece> := [];
    for i := 0 to |difference|
      invariant FlagsAgree(pending, fromList1, fromList2)
      invariant finalList == Texts(written, name1, name2) && buffer == Texts(pending, name1, name2)
      invariant written + pending + Stream(difference[i..], SideOf(fromList1, fromList2)) == Stream(difference, Neutral)
    {
      ghost var side := SideOf(fromList1, fromList2);
      ghost var before := written + pending;
      StreamCons(difference, i, side);
      Regroup(before, Emit(difference[i], side), Stream(difference[i + 1..], Next(difference[i], side)));
      finalList, buffer, fromList1, fromList2, written, pending :=
        ConsumeLine(difference[i], name1, name2, finalList, buffer, fromList1, fromList2, written, pending);
    }
    assert difference[|difference|..] == [];
    if buffer != [] {
      TextsAppend(written, pending, name1, name2);
      TextsSnoc(written + pending, DifferenceBot, name1, name2);
      finalList := finalList + buffer;
      finalList := finalList + [PieceText(DifferenceBot, name1, name2)];
    }
  }

  // ---------------------------------------------------------------------------
  // What the streamed output says

  /** The payloads among the pieces, in order. */
  function Payloads(ps: seq<Piece>): seq<string>
  {
    if ps == [] then []
    else (if ps[0].Text? then [ps[0].s] else []) + Payloads(ps[1..])
  }

  lemma {:induction false} PayloadsAppend(a: seq<Piece>, b: seq<Piece>)
    ensures Payloads(a + b) == Payloads(a) + Payloads(b)
  {
    if a != [] {
      assert (a + b)[0] == a[0] && (a + b)[1..] == a[1..] + b;
      var h := if a[0].Text? then [a[0].s] else [];
      assert Payloads(a + b) == h + Payloads(a[1..] + b);
      PayloadsAppend(a[1..], b);
    } else {
      assert a + b == b;
    }
  }

  /** The text of the lines that are kept: common lines and the lines of
      either file, without their two-character prefix. */
  function KeptText(lines: seq<string>): seq<string>
  {
    if lines == [] then []
    else (if KindOf(lines[0]) != Other then [Payload(lines[0])] else []) + KeptText(lines[1..])
  }

  /** With the headers and footers taken away, the output is the text of the
      kept lines in their order: nothing is lost, added or reordered. */
  lemma {:induction false} StreamPayloads(lines: seq<string>, side: Side)
    ensures Payloads(Stream(lines, side)) == KeptText(lines)
  {
    if lines != [] {
      var e := Emit(lines[0], side);
      PayloadsAppend(e, Stream(lines[1..], Next(lines[0], side)));
      StreamPayloads(lines[1..], Next(lines[0], side));
      EmitPayloads(lines[0], side);
    }
  }

  lemma EmitPayloads(line: string, side: Side)
    ensures Payloads(Emit(line, side)) == if KindOf(line) != Other then [Payload(line)] else []
  {
    var t := [Text(Payload(line))];
    assert Payloads(t) == [Payload(line)] by {
      assert t[1..] == [];
    }
    if KindOf(line) != Other {
      var e := Emit(line, side);
      var h := e[..|e| - 1];
      assert e == h + t;
      assert forall k :: 0 <= k < |h| ==> !h[k].Text?;
      HeadersOnly(h);
      PayloadsAppend(h, t);
    }
  }

  lemma {:induction false} HeadersOnly(ps: seq<Piece>)
    requires forall k :: 0 <= k < |ps| ==> !ps[k].Text?
    ensures Payloads(ps) == []
  {
    if ps != [] {
      HeadersOnly(ps[1..]);
    }
  }

  /** Whether some line belongs to only one of the files. */
  predicate HasDifference(lines: seq<string>)
  {
    exists k :: 0 <= k < |lines| && KindOf(lines[k]) in {OnlyIn1, OnlyIn2}
  }

  /** The output carries a DIFFERENCE header exactly when some line belongs
      to only one file; otherwise it is the kept text alone. */
  lemma {:induction false} StreamHeaders(lines: seq<string>)
    ensures DifferenceTop in Stream(lines, Neutral) <==> HasDifference(lines)
    ensures !HasDifference(lines) ==> Stream(lines, Neutral) == TextPieces(KeptText(lines))
  {
    if lines != [] {
      var rest := lines[1..];
      if KindOf(lines[0]) in {OnlyIn1, OnlyIn2} {
        assert HasDifference(lines);
        assert Stream(lines, Neutral)[0] == DifferenceTop;
      } else {
        assert HasDifference(lines) <==> HasDifference(rest) by {
          if HasDifference(rest) {
            var k :| 0 <= k < |rest| && KindOf(rest[k]) in {OnlyIn1, OnlyIn2};
            assert lines[k + 1] == rest[k];
          }
          if HasDifference(lines) {
            var k :| 0 <= k < |lines| && KindOf(lines[k]) in {OnlyIn1, OnlyIn2};
            assert rest[k - 1] == lines[k];
          }
        }
        var head := if KindOf(lines[0]) != Other then [Payload(lines[0])] else [];
        assert Next(lines[0], Neutral) == Neutral;
        assert Stream(lines, Neutral) == Emit(lines[0], Neutral) + Stream(rest, Neutral);
        assert Emit(lines[0], Neutral) == TextPieces(head);
        assert KeptText(lines) == head + KeptText(rest);
        StreamHeaders(rest);
        if !HasDifference(lines) {
          TextPiecesAppend(head, KeptText(rest));
        }
      }
    }
  }

  function TextPieces(ss: seq<string>): (ps: seq<Piece>)
    ensures |ps| == |ss|
    ensures forall k :: 0 <= k < |ss| ==> ps[k] == Text(ss[k])
  {
    seq(|ss|, k requires 0 <= k < |ss| => Text(ss[k]))
  }

  lemma TextPiecesAppend(a: seq<string>, b: seq<string>)
    ensures TextPieces(a + b) == TextPieces(a) + TextPieces(b)
  {
  }

  /** Reading the pieces left to right from a block being open or not: the
      state after them, or None when a header or footer comes where it may
      not (DIFFERENCE only outside a block, FROM FILE and END only inside). */
  function Track(ps: seq<Piece>, open: bool): Option<bool>
  {
    if ps == [] then Some(open)
    else if Admits(ps[0], open) then Track(ps[1..], OpenAfter(ps[0], open))
    else None
  }

  /** Whether a piece may come while a block is open (or not). */
  predicate Admits(p: Piece, open: bool)
  {
    match p
    case DifferenceTop => !open
    case Text(_) => true
    case _ => open
  }

  function OpenAfter(p: Piece, open: bool): bool
  {
    match p
    case DifferenceTop => true
    case DifferenceBot => false
    case Text(_) => open
    case _ => true
  }

  lemma {:induction false} TrackAppend(a: seq<Piece>, b: seq<Piece>, open: bool)
    ensures Track(a + b, open) == if Track(a, open).None? then None else Track(b, Track(a, open).value)
  {
    if a != [] {
      assert (a + b)[0] == a[0] && (a + b)[1..] == a[1..] + b;
      TrackAppend(a[1..], b, OpenAfter(a[0], open));
    } else {
      assert a + b == b;
    }
  }

  /** Which headers and footers one line writes: DIFFERENCE only when a
      block opens, END only when a common line closes one, and a switch of
      side only the other FROM FILE header. */
  lemma EmitHeaders(line: string, side: Side)
    ensures DifferenceTop in Emit(line, side) <==> side == Neutral && KindOf(line) in {OnlyIn1, OnlyIn2}
    ensures DifferenceBot in Emit(line, side) <==> side != Neutral && KindOf(line) == Common
    ensures KindOf(line) == OnlyIn1 && side == In2 ==> Emit(line, side) == [FromFile1, Text(Payload(line))]
    ensures KindOf(line) == OnlyIn2 && side == In1 ==> Emit(line, side) == [FromFile2, Text(Payload(line))]
  {
  }

  /** The pieces one line writes are accepted from the block that is open
      before it, and leave open the block Next says. */
  lemma EmitTrack(line: string, side: Side)
    ensures Track(Emit(line, side), side != Neutral) == Some(Next(line, side) != Neutral)
  {
    var e := Emit(line, side);
    match KindOf(line)
    case Common =>
      if side != Neutral {
        assert e == [DifferenceBot, Text(Payload(line))];
        assert e[1..] == [Text(Payload(line))] && e[1..][1..] == [];
        assert Track(e[1..], false) == Some(false);
      } else {
        assert e == [Text(Payload(line))] && e[1..] == [];
      }
    case OnlyIn1 =>
      if side == Neutral {
        assert e == [DifferenceTop, FromFile1, Text(Payload(line))];
        assert e[1..][1..] == [Text(Payload(line))];
        assert e[1..][1..][1..] == [];
        assert Track(e[1..][1..], true) == Some(true);
        assert Track(e[1..], true) == Some(true);
      } else if side == In2 {
        assert e == [FromFile1, Text(Payload(line))];
        assert e[1..] == [Text(Payload(line))] && e[1..][1..] == [];
        assert Track(e[1..], true) == Some(true);
      } else {
        assert e == [Text(Payload(line))] && e[1..] == [];
      }
    case OnlyIn2 =>
      if side == Neutral {
        assert e == [DifferenceTop, FromFile2, Text(Payload(line))];
        assert e[1..][1..] == [Text(Payload(line))];
        assert e[1..][1..][1..] == [];
        assert Track(e[1..][1..], true) == Some(true);
        assert Track(e[1..], true) == Some(true);
      } else if side == In1 {
        assert e == [FromFile2, Text(Payload(line))];
        assert e[1..] == [Text(Payload(line))] && e[1..][1..] == [];
        assert Track(e[1..], true) == Some(true);
      } else {
        assert e == [Text(Payload(line))] && e[1..] == [];
      }
    case Other =>
  }

  /** Every block is opened by one DIFFERENCE header and closed by one END
      footer, FROM FILE headers occur only inside a block, and no block is
      left open at the end. */
  lemma {:induction false} StreamBalanced(lines: seq<string>, side: Side)
    ensures Track(Stream(lines, side), side != Neutral) == Some(false)
  {
    if lines != [] {
      var next := Next(lines[0], side);
      EmitTrack(lines[0], side);
      StreamBalanced(lines[1..], next);
      TrackAppend(Emit(lines[0], side), Stream(lines[1..], next), side != Neutral);
    } else if side != Neutral {
      assert Stream(lines, side) == [DifferenceBot];
    }
  }

  function Count(ps: seq<Piece>, p: Piece): nat
  {
    if ps == [] then 0 else (if ps[0] == p then 1 else 0) + Count(ps[1..], p)
  }

  lemma {:induction false} TrackCounts(ps: seq<Piece>, open: bool)
    requires Track(ps, open).Some?
    ensures Count(ps, DifferenceTop) + (if open then 1 else 0)
         == Count(ps, DifferenceBot) + (if Track(ps, open).value then 1 else 0)
  {
    if ps != [] {
      TrackCounts(ps[1..], OpenAfter(ps[0], open));
    }
  }

  /** The output has as many END footers as DIFFERENCE headers. */
  lemma OneFooterPerBlock(lines: seq<string>)
    ensures Count(Stream(lines, Neutral), DifferenceTop) == Count(Stream(lines, Neutral), DifferenceBot)
  {
    StreamBalanced(lines, Neutral);
    TrackCounts(Stream(lines, Neutral), false);
  }
}
