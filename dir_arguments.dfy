/** directory_structure.py: process_arguments, the command-line parser of the
    tree printer. */
module DirArguments {
  import opened Common
  import opened PosixPath

  /** The options dictionary of the source: one field per key. */
  datatype DirOptions = DirOptions(
    directory: string,
    output2file: bool,
    verticalTab: nat,
    horizontalTab: nat,
    excluded: Option<string>,
    noFiles: bool)

  /** cwd stands for os.getcwd(). */
  function Defaults(cwd: string): DirOptions
  {
    DirOptions(cwd, false, 4, 0, None, false)
  }

  /** The loop's state: the options and the pending number of levels to go up. */
  datatype ArgState = ArgState(options: DirOptions, levelsUp: nat)

  /** How process_arguments ends. Every case but Options is a process exit. */
  datatype ArgsOutcome =
    | Options(options: DirOptions)
    | HelpShown
    | InvalidPath                  // "-p" without an existing path after it
    | NotAnInteger(flag: string)   // "-u", "-vt" or "-ht" without digits after it
    | InvalidPattern(pattern: string)
    | MissingPattern               // "-e" as the last argument
    | InvalidArgument(token: string)

  /** str.isdigit, for ASCII digits. */
  predicate IsDecimal(s: string)
  {
    s != [] && AllDigits(s)
  }

  /** The keys of the state a flag may set. */
  datatype Key = PathKey | UpKey | FileKey | VerticalKey | HorizontalKey | ExcludeKey | NoFilesKey

  /** The key a token names, if it is a flag. */
  function KeyOf(token: string): Option<Key>
  {
    if token == "-p" || token == "--path" then Some(PathKey)
    else if token == "-u" || token == "--up" then Some(UpKey)
    else if token == "-f" then Some(FileKey)
    else if token == "-vt" then Some(VerticalKey)
    else if token == "-ht" then Some(HorizontalKey)
    else if token == "-e" then Some(ExcludeKey)
    else if token == "-d" then Some(NoFilesKey)
    else None
  }

  /** The value held under one key. */
  datatype Setting = Path(path: string) | Number(n: nat) | Switch(on: bool) | Pattern(pattern: Option<string>)

  function Get(st: ArgState, k: Key): Setting
  {
    match k
    case PathKey => Path(st.options.directory)
    case UpKey => Number(st.levelsUp)
    case FileKey => Switch(st.options.output2file)
    case VerticalKey => Number(st.options.verticalTab)
    case HorizontalKey => Number(st.options.horizontalTab)
    case ExcludeKey => Pattern(st.options.excluded)
    case NoFilesKey => Switch(st.options.noFiles)
  }

  /** One turn of the loop on a token and the one after it (None at the end):
      the new state and how many tokens were used, or the exit. A flag
      changes its own key and no other. */
  function Step(token: string, next: Option<string>, st: ArgState, existing: set<string>, isRegex: string -> bool)
    : (r: Result<(ArgState, nat), ArgsOutcome>)
    ensures KeyOf(token).None? ==> r == Err(InvalidArgument(token))
    ensures r.Ok? ==> KeyOf(token).Some? && 1 <= r.value.1 <= 2 && (r.value.1 == 2 ==> next.Some?)
    ensures r.Ok? ==> forall k :: k != KeyOf(token).value ==> Get(r.value.0, k) == Get(st, k)
  {
    var o := st.options;
    if token == "-p" || token == "--path" then
      if next.Some? && next.value in existing then Ok((st.(options := o.(directory := next.value)), 2))
      else Err(InvalidPath)
    else if token == "-u" || token == "--up" then
      if next.Some? && IsDecimal(next.value) then Ok((st.(levelsUp := DigitsValue(next.value)), 2))
      else Err(NotAnInteger("-u"))
    else if token == "-f" then Ok((st.(options := o.(output2file := true)), 1))
    else if token == "-vt" then
      if next.Some? && IsDecimal(next.value) then Ok((st.(options := o.(verticalTab := DigitsValue(next.value))), 2))
      else Err(NotAnInteger("-vt"))
    else if token == "-ht" then
      if next.Some? && IsDecimal(next.value) then Ok((st.(options := o.(horizontalTab := DigitsValue(next.value))), 2))
      else Err(NotAnInteger("-ht"))
    else if token == "-e" then
      if next.None? then Err(MissingPattern)
      else if isRegex(next.value) then Ok((st.(options := o.(excluded := Some(next.value))), 2))
      else Err(InvalidPattern(next.value))
    else if token == "-d" then Ok((st.(options := o.(noFiles := true)), 1))
    else Err(InvalidArgument(token))
  }

  /** What each flag demands of the token after it, the exit it takes
      otherwise, and the value it stores when it succeeds. */
  lemma StepOutcomes(token: string, next: Option<string>, st: ArgState, existing: set<string>, isRegex: string -> bool)
    ensures
      var r := Step(token, next, st, existing, isRegex);
      // -p / --path: an existing path is taken as the directory; anything else is an invalid path.
      && ((token == "-p" || token == "--path") ==>
            && (r.Ok? <==> next.Some? && next.value in existing)
            && (r.Err? ==> r.error == InvalidPath)
            && (r.Ok? ==> r.value.1 == 2 && Get(r.value.0, PathKey) == Path(next.value)))
      // -u / --up, -vt, -ht: a token of digits is read as a number; otherwise the flag's error.
      && ((token == "-u" || token == "--up" || token == "-vt" || token == "-ht") ==>
            && (r.Ok? <==> next.Some? && IsDecimal(next.value))
            && (r.Err? ==> r.error == NotAnInteger(if token == "--up" then "-u" else token))
            && (r.Ok? ==> r.value.1 == 2 && Get(r.value.0, KeyOf(token).value) == Number(DigitsValue(next.value))))
      // -e: the pattern must be there and compile.
      && (token == "-e" && next.None? ==> r == Err(MissingPattern))
      && (token == "-e" && next.Some? ==>
            && (r.Ok? <==> isRegex(next.value))
            && (r.Err? ==> r.error == InvalidPattern(next.value))
            && (r.Ok? ==> r.value.1 == 2 && Get(r.value.0, ExcludeKey) == Pattern(Some(next.value))))
      // -f and -d: switches that take no value.
      && ((token == "-f" || token == "-d") ==>
            r.Ok? && r.value.1 == 1 && Get(r.value.0, KeyOf(token).value) == Switch(true))
  {
  }

  function NextOf(arg: seq<string>, i: nat): Option<string>
  {
    if i + 1 < |arg| then Some(arg[i + 1]) else None
  }

  /** The loop from index i on, as a recursive specification. An unknown
      argument it stops at is one of the tokens it was given. */
  function ParseFrom(arg: seq<string>, i: nat, st: ArgState, existing: set<string>, isRegex: string -> bool)
    : (r: Result<ArgState, ArgsOutcome>)
    ensures r.Err? && r.error.InvalidArgument? ==>
      KeyOf(r.error.token).None? && exists j :: i <= j < |arg| && arg[j] == r.error.token
    ensures r.Err? ==> !r.error.Options? && !r.error.HelpShown?
    decreases |arg| - i
  {
    if i >= |arg| then Ok(st)
    else
      match Step(arg[i], NextOf(arg, i), st, existing, isRegex)
      case Err(e) => Err(e)
      case Ok(next) =>
        ParseFrom(arg, i + next.1, next.0, existing, isRegex)
  }

  /** os.path.dirname applied n times. */
  function DirnameN(d: string, n: nat): string
  {
    if n == 0 then d else Dirname(DirnameN(d, n - 1))
  }

  /** The whole of process_arguments: help first, then the flag loop from
      index 1, then the levels up applied to the directory. */
  function ArgumentsSpec(arg: seq<string>, cwd: string, existing: set<string>, isRegex: string -> bool): ArgsOutcome
  {
    if "-h" in arg || "--help" in arg then HelpShown
    else
      match ParseFrom(arg, 1, ArgState(Defaults(cwd), 0), existing, isRegex)
      case Err(e) => e
      case Ok(st) => Options(st.options.(directory := DirnameN(st.options.directory, st.levelsUp)))
  }

  /** process_arguments: arg[0] is the script name, `existing` the paths
      os.path.exists accepts and `isRegex` the patterns re.compile accepts. */
  method ProcessArguments(arg: seq<string>, cwd: string, existing: set<string>, isRegex: string -> bool)
    returns (out: ArgsOutcome)
    ensures out == ArgumentsSpec(arg, cwd, existing, isRegex)
  {
    if "-h" in arg || "--help" in arg {
      return HelpShown;
    }
    var options := Defaults(cwd);
    var levelsUp: nat := 0;
    var i := 1;
    while i < |arg|
      invariant 1 <= i
      invariant ParseFrom(arg, i, ArgState(options, levelsUp), existing, isRegex)
             == ParseFrom(arg, 1, ArgState(Defaults(cwd), 0), existing, isRegex)
      decreases |arg| - i
    {
      if arg[i] == "-p" || arg[i] == "--path" {
        if i + 1 < |arg| && arg[i + 1] in existing {
          options := options.(directory := arg[i + 1]);
          i := i + 2;
        } else {
          return InvalidPath;
        }
      } else if arg[i] == "-u" || arg[i] == "--up" {
        if i + 1 < |arg| && IsDecimal(arg[i + 1]) {
          levelsUp := DigitsValue(arg[i + 1]);
          i := i + 2;
        } else {
          return NotAnInteger("-u");
        }
      } else if arg[i] == "-f" {
        options := options.(output2file := true);
        i := i + 1;
      } else if arg[i] == "-vt" {
        if i + 1 < |arg| && IsDecimal(arg[i + 1]) {
          options := options.(verticalTab := DigitsValue(arg[i + 1]));
          i := i + 2;
        } else {
          return NotAnInteger("-vt");
        }
      } else if arg[i] == "-ht" {
        if i + 1 < |arg| && IsDecimal(arg[i + 1]) {
          options := options.(horizontalTab := DigitsValue(arg[i + 1]));
          i := i + 2;
        } else {
          return NotAnInteger("-ht");
        }
      } else if arg[i] == "-e" {
        if i + 1 < |arg| {
          if isRegex(arg[i + 1]) {
            options := options.(excluded := Some(arg[i + 1]));
            i := i + 2;
          } else {
            return InvalidPattern(arg[i + 1]);
          }
        } else {
          return MissingPattern;
        }
      } else if arg[i] == "-d" {
        options := options.(noFiles := true);
        i := i + 1;
      } else {
        return InvalidArgument(arg[i]);
      }
    }
    ghost var parsed := options;
    for k := 0 to levelsUp
      invariant options == parsed.(directory := DirnameN(parsed.directory, k))
    {
      options := options.(directory := Dirname(options.directory));
    }
    out := Options(options);
  }

  // ---------------------------------------------------------------------------
  // What the parse says about its arguments

  /** A key no token names keeps its value: each flag overwrites only its
      own key. */
  lemma {:induction false} ParseUntouched(arg: seq<string>, i: nat, st: ArgState, st': ArgState,
                                          existing: set<string>, isRegex: string -> bool, k: Key)
    requires ParseFrom(arg, i, st, existing, isRegex) == Ok(st')
    requires forall j :: i <= j < |arg| ==> KeyOf(arg[j]) != Some(k)
    ensures Get(st', k) == Get(st, k)
    decreases |arg| - i
  {
    if i < |arg| {
      var next := Step(arg[i], NextOf(arg, i), st, existing, isRegex).value;
      ParseUntouched(arg, i + next.1, next.0, st', existing, isRegex, k);
    }
  }

  /** The parse depends only on the arguments from where it starts. */
  lemma {:induction false} ParseFromSuffix(a: seq<string>, i: nat, b: seq<string>, j: nat, st: ArgState,
                                           existing: set<string>, isRegex: string -> bool)
    requires i <= |a| && j <= |b| && a[i..] == b[j..]
    ensures ParseFrom(a, i, st, existing, isRegex) == ParseFrom(b, j, st, existing, isRegex)
    decreases |a| - i
  {
    if i < |a| {
      assert a[i] == a[i..][0] == b[j];
      assert NextOf(a, i) == NextOf(b, j) by {
        if i + 1 < |a| {
          assert a[i + 1] == a[i..][1] == b[j + 1];
        }
      }
      var step := Step(a[i], NextOf(a, i), st, existing, isRegex);
      assert step == Step(b[j], NextOf(b, j), st, existing, isRegex);
      match step
      case Err(e) =>
        assert ParseFrom(a, i, st, existing, isRegex) == Err(e);
        assert ParseFrom(b, j, st, existing, isRegex) == Err(e);
      case Ok(next) =>
        assert a[i + next.1..] == a[i..][next.1..] == b[j + next.1..];
        ParseFromSuffix(a, i + next.1, b, j + next.1, next.0, existing, isRegex);
        assert ParseFrom(a, i, st, existing, isRegex) == ParseFrom(a, i + next.1, next.0, existing, isRegex);
        assert ParseFrom(b, j, st, existing, isRegex) == ParseFrom(b, j + next.1, next.0, existing, isRegex);
    }
  }

  /** "-p d -u n" and "-u n -p d" leave the loop in the same state. */
  lemma PathUpCommute(a: seq<string>, b: seq<string>, i: nat, st: ArgState, existing: set<string>, isRegex: string -> bool)
    requires i + 4 <= |a| && |a| == |b| && a[i + 4..] == b[i + 4..]
    requires a[i] == "-p" && a[i + 2] == "-u" && b[i] == "-u" && b[i + 2] == "-p"
    requires a[i + 1] == b[i + 3] && a[i + 3] == b[i + 1]
    requires a[i + 1] in existing && IsDecimal(a[i + 3])
    ensures ParseFrom(a, i, st, existing, isRegex) == ParseFrom(b, i, st, existing, isRegex)
  {
    var d, n := a[i + 1], a[i + 3];
    var both := st.(options := st.options.(directory := d), levelsUp := DigitsValue(n));
    var pa := st.(options := st.options.(directory := d));
    var pb := st.(levelsUp := DigitsValue(n));
    assert ParseFrom(a, i, st, existing, isRegex) == ParseFrom(a, i + 2, pa, existing, isRegex);
    assert ParseFrom(a, i + 2, pa, existing, isRegex) == ParseFrom(a, i + 4, both, existing, isRegex);
    assert ParseFrom(b, i, st, existing, isRegex) == ParseFrom(b, i + 2, pb, existing, isRegex);
    assert ParseFrom(b, i + 2, pb, existing, isRegex) == ParseFrom(b, i + 4, both, existing, isRegex);
    ParseFromSuffix(a, i + 4, b, i + 4, both, existing, isRegex);
  }

  /** The levels up are applied after the whole loop, so the place of "-p"
      relative to "-u" does not matter. */
  lemma UpAppliedAfterParsing(script: string, d: string, n: string, rest: seq<string>,
                              cwd: string, existing: set<string>, isRegex: string -> bool)
    requires d in existing && IsDecimal(n)
    ensures ArgumentsSpec([script] + ["-p", d, "-u", n] + rest, cwd, existing, isRegex)
         == ArgumentsSpec([script] + ["-u", n, "-p", d] + rest, cwd, existing, isRegex)
  {
    var a := [script] + ["-p", d, "-u", n] + rest;
    var b := [script] + ["-u", n, "-p", d] + rest;
    assert a[5..] == rest == b[5..];
    assert forall t :: t in a <==> t in b by {
      forall t ensures t in a <==> t in b {
        assert t in a <==> t == script || t == d || t == n || t == "-p" || t == "-u" || t in rest;
        assert t in b <==> t == script || t == d || t == n || t == "-p" || t == "-u" || t in rest;
      }
    }
    PathUpCommute(a, b, 1, ArgState(Defaults(cwd), 0), existing, isRegex);
  }

  /** The state the loop ends in when process_arguments returns options. */
  lemma ParsedState(arg: seq<string>, cwd: string, existing: set<string>, isRegex: string -> bool, o: DirOptions)
    returns (st: ArgState)
    requires ArgumentsSpec(arg, cwd, existing, isRegex) == Options(o)
    ensures "-h" !in arg && "--help" !in arg
    ensures ParseFrom(arg, 1, ArgState(Defaults(cwd), 0), existing, isRegex) == Ok(st)
    ensures o == st.options.(directory := DirnameN(st.options.directory, st.levelsUp))
  {
    st := ParseFrom(arg, 1, ArgState(Defaults(cwd), 0), existing, isRegex).value;
  }

  /** A key that no token names keeps its default. */
  predicate NotNamed(arg: seq<string>, k: Key)
  {
    forall j :: 1 <= j < |arg| ==> KeyOf(arg[j]) != Some(k)
  }

  /** A parse that goes through ends with every key either at its default or
      set by a token that names it; without "-u" and "-p" the directory is
      the working directory. */
  lemma ParsedDefaults(arg: seq<string>, cwd: string, existing: set<string>, isRegex: string -> bool, o: DirOptions)
    requires ArgumentsSpec(arg, cwd, existing, isRegex) == Options(o)
    ensures "-h" !in arg && "--help" !in arg
    ensures NotNamed(arg, UpKey) && NotNamed(arg, PathKey) ==> o.directory == cwd
    ensures NotNamed(arg, VerticalKey) ==> o.verticalTab == 4
    ensures NotNamed(arg, HorizontalKey) ==> o.horizontalTab == 0
    ensures NotNamed(arg, ExcludeKey) ==> o.excluded == None
    ensures NotNamed(arg, FileKey) ==> !o.output2file
    ensures NotNamed(arg, NoFilesKey) ==> !o.noFiles
  {
    var st := ParsedState(arg, cwd, existing, isRegex, o);
    LoopDefaults(arg, cwd, existing, isRegex, st);
  }

  /** The loop's end state keeps the default of every key no token names. */
  lemma LoopDefaults(arg: seq<string>, cwd: string, existing: set<string>, isRegex: string -> bool, st: ArgState)
    requires ParseFrom(arg, 1, ArgState(Defaults(cwd), 0), existing, isRegex) == Ok(st)
    ensures NotNamed(arg, UpKey) ==> st.levelsUp == 0
    ensures NotNamed(arg, PathKey) ==> st.options.directory == cwd
    ensures NotNamed(arg, VerticalKey) ==> st.options.verticalTab == 4
    ensures NotNamed(arg, HorizontalKey) ==> st.options.horizontalTab == 0
    ensures NotNamed(arg, ExcludeKey) ==> st.options.excluded == None
    ensures NotNamed(arg, FileKey) ==> !st.options.output2file
    ensures NotNamed(arg, NoFilesKey) ==> !st.options.noFiles
  {
    var st0 := ArgState(Defaults(cwd), 0);
    if NotNamed(arg, UpKey) {
      assert st.levelsUp == 0 by {
        ParseUntouched(arg, 1, st0, st, existing, isRegex, UpKey);
      }
    }
    if NotNamed(arg, PathKey) {
      assert st.options.directory == cwd by {
        ParseUntouched(arg, 1, st0, st, existing, isRegex, PathKey);
      }
    }
    if NotNamed(arg, VerticalKey) {
      assert st.options.verticalTab == 4 by {
        ParseUntouched(arg, 1, st0, st, existing, isRegex, VerticalKey);
      }
    }
    if NotNamed(arg, HorizontalKey) {
      assert st.options.horizontalTab == 0 by {
        ParseUntouched(arg, 1, st0, st, existing, isRegex, HorizontalKey);
      }
    }
    if NotNamed(arg, ExcludeKey) {
      assert st.options.excluded == None by {
        ParseUntouched(arg, 1, st0, st, existing, isRegex, ExcludeKey);
      }
    }
    if NotNamed(arg, FileKey) {
      assert !st.options.output2file by {
        ParseUntouched(arg, 1, st0, st, existing, isRegex, FileKey);
      }
    }
    if NotNamed(arg, NoFilesKey) {
      assert !st.options.noFiles by {
        ParseUntouched(arg, 1, st0, st, existing, isRegex, NoFilesKey);
      }
    }
  }
}
