/** Command-line handling of the folder-size reporter
    (Python_Scripts/size_of_folders/size_of_folders.py): the case-insensitive
    dictionary lookup, Python's int() on the threshold, the flag loop and the
    unit table. */
module FolderFlags {
  import opened Common

  // ---------------------------------------------------------------------------
  // get_case_insensitive_item

  /** Index of the first key whose lower-case form equals the lower-cased
      target, or -1 when no key does. */
  function FirstKeyIndex<V>(d: seq<(string, V)>, target: string): (k: int)
    ensures -1 <= k < |d|
    ensures 0 <= k ==> Lower(d[k].0) == Lower(target)
    ensures forall j :: 0 <= j < |d| && (k < 0 || j < k) ==> Lower(d[j].0) != Lower(target)
  {
    if d == [] then -1
    else if Lower(d[0].0) == Lower(target) then 0
    else
      var k := FirstKeyIndex(d[1..], target);
      assert forall j :: 1 <= j < |d| ==> d[j] == d[1..][j - 1];
      if k < 0 then -1 else k + 1
  }

  /** The first (key, value) pair, in the dictionary's order, whose key matches
      the target ignoring case; None when no key matches. */
  function GetCaseInsensitiveItem<V>(d: seq<(string, V)>, target: string): (r: Option<(string, V)>)
    ensures r.Some? ==> exists k :: 0 <= k < |d| && d[k] == r.value && Lower(d[k].0) == Lower(target)
                          && forall j :: 0 <= j < k ==> Lower(d[j].0) != Lower(target)
    ensures r.None? <==> forall j :: 0 <= j < |d| ==> Lower(d[j].0) != Lower(target)
  {
    var k := FirstKeyIndex(d, target);
    if k < 0 then None else Some(d[k])
  }

  // ---------------------------------------------------------------------------
  // The unit table: divisors in bits.

  const Units: seq<(string, nat)> :=
    [("bit", 1),
     ("B", 8), ("KB", 8 * 1000), ("MB", 8 * 1000 * 1000), ("GB", 8 * 1000 * 1000 * 1000),
     ("TB", 8 * 1000 * 1000 * 1000 * 1000),
     ("KiB", 8 * 1024), ("MiB", 8 * 1024 * 1024), ("GiB", 8 * 1024 * 1024 * 1024),
     ("TiB", 8 * 1024 * 1024 * 1024 * 1024)]

  /** The unit names the reporter accepts, in lower case. */
  const UnitNames: seq<string> := ["bit", "b", "kb", "mb", "gb", "tb", "kib", "mib", "gib", "tib"]

  lemma UnitKeysLowered()
    ensures forall k :: 0 <= k < |Units| ==> Lower(Units[k].0) == UnitNames[k]
  {
    assert Lower("bit") == "bit";
    assert Lower("B") == "b";
    assert Lower("KB") == "kb";
    assert Lower("MB") == "mb";
    assert Lower("GB") == "gb";
    assert Lower("TB") == "tb";
    assert Lower("KiB") == "kib";
    assert Lower("MiB") == "mib";
    assert Lower("GiB") == "gib";
    assert Lower("TiB") == "tib";
  }

  /** A unit resolves, whatever its case, exactly when it is one of the ten
      names; "b" resolves to bytes (divisor 8) and "bit" to bits (divisor 1). */
  lemma UnitLookup(u: string)
    ensures GetCaseInsensitiveItem(Units, u).Some? <==> Lower(u) in UnitNames
    ensures GetCaseInsensitiveItem(Units, u).Some? ==> GetCaseInsensitiveItem(Units, u).value in Units
    ensures Lower(u) == "b" ==> GetCaseInsensitiveItem(Units, u) == Some(("B", 8))
    ensures Lower(u) == "bit" ==> GetCaseInsensitiveItem(Units, u) == Some(("bit", 1))
    ensures Lower(u) == "mib" ==> GetCaseInsensitiveItem(Units, u) == Some(("MiB", 8 * 1024 * 1024))
  {
    if Lower(u) == "b" {
      assert GetCaseInsensitiveItem(Units, u) == Some(Units[1]) by {
        assert UnitNames[0] != "b" by { assert |UnitNames[0]| == 3; }
        FirstUnit(u, 1);
      }
    } else if Lower(u) == "bit" {
      assert GetCaseInsensitiveItem(Units, u) == Some(Units[0]) by { FirstUnit(u, 0); }
    } else if Lower(u) == "mib" {
      assert GetCaseInsensitiveItem(Units, u) == Some(Units[7]) by {
        assert forall j :: 0 <= j < 7 ==> UnitNames[j] != "mib" by {
          assert forall j :: 0 <= j < 7 ==> |UnitNames[j]| != 3 || UnitNames[j][0] != 'm';
        }
        FirstUnit(u, 7);
      }
    } else {
      UnitFound(u);
    }
  }

  /** The lookup in the unit table finds an entry exactly when the lowered
      unit is one of the names, and what it finds is a table entry. */
  lemma UnitFound(u: string)
    ensures GetCaseInsensitiveItem(Units, u).Some? <==> Lower(u) in UnitNames
    ensures GetCaseInsensitiveItem(Units, u).Some? ==> GetCaseInsensitiveItem(Units, u).value in Units
  {
    UnitKeysLowered();
    var r := GetCaseInsensitiveItem(Units, u);
    if r.Some? {
      var k :| 0 <= k < |Units| && Units[k] == r.value && Lower(Units[k].0) == Lower(u);
      assert Lower(u) == UnitNames[k];
    } else {
      assert forall j :: 0 <= j < |Units| ==> UnitNames[j] != Lower(u);
    }
  }

  /** A unit whose lowered form is the k-th name, no earlier name being the
      same, resolves to the k-th entry. */
  lemma FirstUnit(u: string, k: nat)
    requires k < |Units| && Lower(u) == UnitNames[k]
    requires forall j :: 0 <= j < k ==> UnitNames[j] != UnitNames[k]
    ensures GetCaseInsensitiveItem(Units, u) == Some(Units[k])
  {
    UnitKeysLowered();
    var r := GetCaseInsensitiveItem(Units, u);
    assert r.Some?;
    var i :| 0 <= i < |Units| && Units[i] == r.value && Lower(Units[i].0) == Lower(u)
             && forall j :: 0 <= j < i ==> Lower(Units[j].0) != Lower(u);
    assert UnitNames[i] == UnitNames[k];
  }

  // ---------------------------------------------------------------------------
  // Python's int() on a decimal string.

  /** Characters int() strips around its argument. */
  predicate IsPySpace(c: char)
  {
    c == ' ' || '\t' <= c <= '\r' || 0x1c <= c as int <= 0x1f
  }

  function StripSpaces(s: string): (r: string)
    ensures |r| <= |s|
  {
    if s != [] && IsPySpace(s[0]) then StripSpaces(s[1..])
    else if s != [] && IsPySpace(s[|s| - 1]) then StripSpaces(s[..|s| - 1])
    else s
  }

  /** Digits, with single underscores allowed between two digits. */
  predicate DigitGroups(b: string)
  {
    && |b| >= 1 && IsDigit(b[0]) && IsDigit(b[|b| - 1])
    && (forall j :: 0 <= j < |b| ==> IsDigit(b[j]) || b[j] == '_')
    && (forall j :: 0 <= j < |b| - 1 ==> !(b[j] == '_' && b[j + 1] == '_'))
  }

  function DropUnderscores(b: string): (r: string)
    requires forall j :: 0 <= j < |b| ==> IsDigit(b[j]) || b[j] == '_'
    ensures AllDigits(r)
  {
    if b == [] then []
    else (if b[0] == '_' then [] else [b[0]]) + DropUnderscores(b[1..])
  }

  /** int(s) in base 10: None where Python raises ValueError. */
  function PyInt(s: string): (r: Option<int>)
  {
    var t := StripSpaces(s);
    var negative := |t| > 0 && t[0] == '-';
    var body := if |t| > 0 && (t[0] == '-' || t[0] == '+') then t[1..] else t;
    if DigitGroups(body) then
      var n: int := DigitsValue(DropUnderscores(body));
      Some(if negative then -n else n)
    else None
  }

  lemma DropUnderscoresOfDigits(s: string)
    requires AllDigits(s)
    ensures DropUnderscores(s) == s
  {
    if s != [] {
      DropUnderscoresOfDigits(s[1..]);
    }
  }

  /** int() reads back what str() of an integer writes. */
  lemma PyIntOfIntToString(i: int)
    ensures PyInt(IntToString(i)) == Some(i)
  {
    var m: nat := if i < 0 then -i else i;
    var digits := NatToString(m);
    var s := IntToString(i);
    assert StripSpaces(s) == s by {
      assert !IsPySpace(s[0]) && !IsPySpace(s[|s| - 1]);
    }
    assert (if s[0] == '-' || s[0] == '+' then s[1..] else s) == digits by {
      if i < 0 {
        assert s[1..] == digits;
      } else {
        assert IsDigit(s[0]);
      }
    }
    assert DigitGroups(digits) by {
      assert IsDigit(digits[0]) && IsDigit(digits[|digits| - 1]);
      forall j | 0 <= j < |digits| - 1 ensures !(digits[j] == '_' && digits[j + 1] == '_') {
        assert IsDigit(digits[j]);
      }
    }
    assert DropUnderscores(digits) == digits by { DropUnderscoresOfDigits(digits); }
    assert DigitsValue(digits) == m by { NatToStringValue(m); }
    assert (|s| > 0 && s[0] == '-') == (i < 0);
  }

  // ---------------------------------------------------------------------------
  // process_flags

  /** The flags dictionary of the source: one field per key. */
  datatype Flags = Flags(unit: string, dir: string, exclude: Option<string>, threshold: int)

  function DefaultFlags(cwd: string): Flags
  {
    Flags("mib", cwd, None, 0)
  }

  /** What process_flags hands to the report: root folder, the unit key as
      spelled in the table, its divisor in bits, the exclusion pattern and the
      threshold in bytes. */
  datatype Config = Config(root: string, unitKey: string, divisor: nat, exclude: Option<string>, threshold: int)

  /** How process_flags ends. Every case but Parsed is a process exit; the
      last is the UnboundLocalError that an empty "-d" value raises. */
  datatype FlagsOutcome =
    | Parsed(cfg: Config)
    | HelpExit
    | UnknownArgument(token: string)
    | InvalidThreshold(token: string)
    | InvalidUnit(unit: string)
    | RootFolderUnbound

  predicate IsFlag(t: string)
  {
    t == "-u" || t == "-d" || t == "-e" || t == "-t"
  }

  /** What one accepted flag/value pair does to the flags. */
  function Apply(f: Flags, flag: string, value: string): Flags
  {
    if flag == "-u" then f.(unit := Lower(value))
    else if flag == "-d" then f.(dir := value)
    else if flag == "-e" then f.(exclude := Some(value))
    else f.(threshold := PyInt(value).GetOr(f.threshold))
  }

  /** The flag loop from index i on, as a recursive specification. It stops
      only at an unknown argument (or a flag with nothing after it) and at a
      threshold int() rejects. */
  function ParseFrom(argv: seq<string>, i: nat, f: Flags): (r: Result<Flags, FlagsOutcome>)
    ensures r.Err? ==> r.error.UnknownArgument? || r.error.InvalidThreshold?
    decreases |argv| - i
  {
    if i >= |argv| then Ok(f)
    else if IsFlag(argv[i]) && i + 1 < |argv| then
      if argv[i] == "-t" && PyInt(argv[i + 1]).None? then Err(InvalidThreshold(argv[i + 1]))
      else ParseFrom(argv, i + 2, Apply(f, argv[i], argv[i + 1]))
    else Err(UnknownArgument(argv[i]))
  }

  /** The validation after the loop: resolve the unit, scale the threshold. */
  function Finish(f: Flags): FlagsOutcome
  {
    match GetCaseInsensitiveItem(Units, f.unit)
    case None => InvalidUnit(f.unit)
    case Some(item) =>
      if f.dir == "" then RootFolderUnbound
      else Parsed(Config(f.dir, item.0, item.1, f.exclude, f.threshold * 1000))
  }

  function FlagsSpec(argv: seq<string>, cwd: string): FlagsOutcome
  {
    if "-h" in argv then HelpExit
    else match ParseFrom(argv, 1, DefaultFlags(cwd))
         case Err(e) => e
         case Ok(f) => Finish(f)
  }

  /** process_flags: argv[0] is the script name; cwd stands for os.getcwd(). */
  method ProcessFlags(argv: seq<string>, cwd: string) returns (out: FlagsOutcome)
    ensures out == FlagsSpec(argv, cwd)
  {
    if "-h" in argv {
      return HelpExit;
    }
    var flags := DefaultFlags(cwd);
    var i := 1;
    while i < |argv|
      invariant 1 <= i
      invariant ParseFrom(argv, i, flags) == ParseFrom(argv, 1, DefaultFlags(cwd))
      decreases |argv| - i
    {
      if argv[i] == "-u" && i + 1 < |argv| {
        flags := flags.(unit := Lower(argv[i + 1]));
        i := i + 1;
      } else if argv[i] == "-d" && i + 1 < |argv| {
        flags := flags.(dir := argv[i + 1]);
        i := i + 1;
      } else if argv[i] == "-e" && i + 1 < |argv| {
        flags := flags.(exclude := Some(argv[i + 1]));
        i := i + 1;
      } else if argv[i] == "-t" && i + 1 < |argv| {
        var t := PyInt(argv[i + 1]);
        if t.None? {
          return InvalidThreshold(argv[i + 1]);
        }
        flags := flags.(threshold := t.value);
        i := i + 1;
      } else {
        return UnknownArgument(argv[i]);
      }
      i := i + 1;
    }
    var item := GetCaseInsensitiveItem(Units, flags.unit);
    if item.None? {
      return InvalidUnit(flags.unit);
    }
    if flags.dir == "" {
      return RootFolderUnbound;
    }
    out := Parsed(Config(flags.dir, item.value.0, item.value.1, flags.exclude, flags.threshold * 1000));
  }

  // ---------------------------------------------------------------------------
  // What a successful parse says about argv.

  /** Consecutive flag/value pairs of an argument list (a last unpaired
      argument is left out). */
  function Pairs(args: seq<string>): seq<(string, string)>
  {
    if |args| < 2 then [] else [(args[0], args[1])] + Pairs(args[2..])
  }

  /** The value of the last pair whose flag is the given one, if any. */
  function LastValue(ps: seq<(string, string)>, flag: string): Option<string>
  {
    if ps == [] then None
    else if ps[|ps| - 1].0 == flag then Some(ps[|ps| - 1].1)
    else LastValue(ps[..|ps| - 1], flag)
  }

  lemma {:induction false} LastValueCons(p: (string, string), ps: seq<(string, string)>, flag: string)
    ensures LastValue([p] + ps, flag) == if LastValue(ps, flag).Some? then LastValue(ps, flag)
                                         else if p.0 == flag then Some(p.1) else None
  {
    if ps != [] {
      assert ([p] + ps)[..|ps|] == [p] + ps[..|ps| - 1];
      LastValueCons(p, ps[..|ps| - 1], flag);
    }
  }

  /** Every argument at an odd position is one of the four flags. */
  predicate FlagsAtOddPositions(argv: seq<string>, i: nat)
  {
    forall j :: i <= j < |argv| && (j - i) % 2 == 0 ==> IsFlag(argv[j])
  }

  /** Numbers two apart have the same parity. */
  lemma TwoApart(x: int, y: int)
    requires x == y + 2
    ensures x % 2 == y % 2
  {
  }

  /** A positive even number is at least 2. */
  lemma EvenGap(n: int)
    requires n > 0 && n % 2 == 0
    ensures n >= 2
  {
  }

  /** One step of a successful loop: a flag with a value after it. */
  lemma ParseStep(argv: seq<string>, i: nat, f: Flags, g: Flags)
    requires i < |argv| && ParseFrom(argv, i, f) == Ok(g)
    ensures i + 1 < |argv| && IsFlag(argv[i])
    ensures argv[i] == "-t" ==> PyInt(argv[i + 1]).Some?
    ensures ParseFrom(argv, i + 2, Apply(f, argv[i], argv[i + 1])) == Ok(g)
  {
  }

  /** A successful loop consumed whole flag/value pairs, and each field holds
      the value of its own flag's last pair (or what it held before). */
  lemma {:induction false} ParseFromOk(argv: seq<string>, i: nat, f: Flags, g: Flags)
    requires i <= |argv| && ParseFrom(argv, i, f) == Ok(g)
    ensures (|argv| - i) % 2 == 0 && FlagsAtOddPositions(argv, i)
    ensures
      var ps := Pairs(argv[i..]);
      && g.dir == LastValue(ps, "-d").GetOr(f.dir)
      && g.unit == (if LastValue(ps, "-u").Some? then Lower(LastValue(ps, "-u").value) else f.unit)
      && g.exclude == (if LastValue(ps, "-e").Some? then LastValue(ps, "-e") else f.exclude)
      && (LastValue(ps, "-t").None? ==> g.threshold == f.threshold)
      && (LastValue(ps, "-t").Some? ==> PyInt(LastValue(ps, "-t").value) == Some(g.threshold))
    decreases |argv| - i
  {
    if i == |argv| {
      assert argv[i..] == [];
    } else {
      ParseStep(argv, i, f, g);
      var p := (argv[i], argv[i + 1]);
      var f' := Apply(f, p.0, p.1);
      ParseFromOk(argv, i + 2, f', g);
      assert (|argv| - i) % 2 == 0 by {
        TwoApart(|argv| - i, |argv| - (i + 2));
      }
      assert FlagsAtOddPositions(argv, i) by {
        forall j | i <= j < |argv| && (j - i) % 2 == 0
          ensures IsFlag(argv[j])
        {
          if j > i {
            TwoApart(j - i, j - (i + 2));
          }
        }
      }
      var ps := Pairs(argv[i + 2..]);
      assert Pairs(argv[i..]) == [p] + ps by {
        assert argv[i..][2..] == argv[i + 2..];
      }
      LastValueCons(p, ps, "-d");
      LastValueCons(p, ps, "-u");
      LastValueCons(p, ps, "-e");
      LastValueCons(p, ps, "-t");
    }
  }

  /** The alternation of flags and values, and the "-t" values int() accepts,
      carry over from index i to the next pair at i + 2. */
  lemma PairsAfter(argv: seq<string>, i: nat)
    requires i + 2 <= |argv|
    requires (|argv| - i) % 2 == 0 && FlagsAtOddPositions(argv, i)
    requires forall j :: i <= j < |argv| - 1 && (j - i) % 2 == 0 && argv[j] == "-t" ==> PyInt(argv[j + 1]).Some?
    ensures (|argv| - (i + 2)) % 2 == 0 && FlagsAtOddPositions(argv, i + 2)
    ensures forall j :: i + 2 <= j < |argv| - 1 && (j - (i + 2)) % 2 == 0 && argv[j] == "-t" ==> PyInt(argv[j + 1]).Some?
  {
    TwoApart(|argv| - i, |argv| - (i + 2));
    forall j | i + 2 <= j < |argv| && (j - (i + 2)) % 2 == 0
      ensures IsFlag(argv[j])
    {
      TwoApart(j - i, j - (i + 2));
    }
    forall j | i + 2 <= j < |argv| - 1 && (j - (i + 2)) % 2 == 0 && argv[j] == "-t"
      ensures PyInt(argv[j + 1]).Some?
    {
      TwoApart(j - i, j - (i + 2));
    }
  }

  /** The converse of ParseFromOk: when flags and values alternate, with a
      value int() accepts after every "-t", the parse succeeds. */
  lemma {:induction false} ParseFromSucceeds(argv: seq<string>, i: nat, f: Flags)
    requires i <= |argv|
    requires (|argv| - i) % 2 == 0 && FlagsAtOddPositions(argv, i)
    requires forall j :: i <= j < |argv| - 1 && (j - i) % 2 == 0 && argv[j] == "-t" ==> PyInt(argv[j + 1]).Some?
    ensures ParseFrom(argv, i, f).Ok?
    decreases |argv| - i
  {
    if i < |argv| {
      assert IsFlag(argv[i]);
      assert i + 2 <= |argv| by {
        EvenGap(|argv| - i);
      }
      assert argv[i] == "-t" ==> PyInt(argv[i + 1]).Some?;
      var f' := Apply(f, argv[i], argv[i + 1]);
      var i' := i + 2;
      PairsAfter(argv, i);
      ParseFromSucceeds(argv, i', f');
      assert ParseFrom(argv, i, f) == ParseFrom(argv, i', f');
    }
  }

  /** A parsed configuration: no "-h", whole flag/value pairs after the script
      name, the last "-d", "-u", "-e" and "-t" values win over the defaults, the
      unit is a key of the table with its own divisor, and the threshold is the
      parsed kilobytes times 1000. */
  lemma FlagsSpecParsed(argv: seq<string>, cwd: string, cfg: Config)
    requires |argv| >= 1 && FlagsSpec(argv, cwd) == Parsed(cfg)
    ensures "-h" !in argv && (|argv| - 1) % 2 == 0 && FlagsAtOddPositions(argv, 1)
    ensures
      var ps := Pairs(argv[1..]);
      && cfg.root == LastValue(ps, "-d").GetOr(cwd) && cfg.root != ""
      && cfg.exclude == LastValue(ps, "-e")
      && (LastValue(ps, "-t").None? ==> cfg.threshold == 0)
      && (LastValue(ps, "-t").Some? ==>
            PyInt(LastValue(ps, "-t").value).Some? && cfg.threshold == 1000 * PyInt(LastValue(ps, "-t").value).value)
  {
    SpecParsedSteps(argv, cwd, cfg);
    var g := ParseFrom(argv, 1, DefaultFlags(cwd)).value;
    FinishParsed(g, cfg);
    ParsedFields(argv, DefaultFlags(cwd), g, Units, (cfg.unitKey, cfg.divisor));
  }

  /** The unit of a parsed configuration is what the table gives, ignoring
      case, for the last "-u" value, or for "mib" when there is none. */
  lemma FlagsSpecUnit(argv: seq<string>, cwd: string, cfg: Config)
    requires |argv| >= 1 && FlagsSpec(argv, cwd) == Parsed(cfg)
    ensures
      GetCaseInsensitiveItem(Units, LastValue(Pairs(argv[1..]), "-u").GetOr("mib")) == Some((cfg.unitKey, cfg.divisor))
  {
    SpecParsedSteps(argv, cwd, cfg);
    var g := ParseFrom(argv, 1, DefaultFlags(cwd)).value;
    FinishParsed(g, cfg);
    ParsedFields(argv, DefaultFlags(cwd), g, Units, (cfg.unitKey, cfg.divisor));
  }

  /** FlagsSpecParsed from any starting flags f0. */
  lemma ParsedFields(argv: seq<string>, f0: Flags, g: Flags, table: seq<(string, nat)>, item: (string, nat))
    requires |argv| >= 1 && ParseFrom(argv, 1, f0) == Ok(g)
    requires GetCaseInsensitiveItem(table, g.unit) == Some(item)
    ensures (|argv| - 1) % 2 == 0 && FlagsAtOddPositions(argv, 1)
    ensures
      var ps := Pairs(argv[1..]);
      && g.dir == LastValue(ps, "-d").GetOr(f0.dir)
      && GetCaseInsensitiveItem(table, LastValue(ps, "-u").GetOr(f0.unit)) == Some(item)
      && g.exclude == (if LastValue(ps, "-e").Some? then LastValue(ps, "-e") else f0.exclude)
      && (LastValue(ps, "-t").None? ==> g.threshold == f0.threshold)
      && (LastValue(ps, "-t").Some? ==> PyInt(LastValue(ps, "-t").value) == Some(g.threshold))
  {
    ParseFromOk(argv, 1, f0, g);
    var ps := Pairs(argv[1..]);
    var u := LastValue(ps, "-u").GetOr(f0.unit);
    assert g.unit == Lower(u) || g.unit == u;
    assert GetCaseInsensitiveItem(table, u) == Some(item) by {
      LookupTransfer(table, g.unit, u, item);
    }
  }

  /** A lookup that succeeds for a string succeeds alike for any string with
      the same lower-case form. */
  lemma LookupTransfer<V>(d: seq<(string, V)>, gu: string, u: string, item: (string, V))
    requires GetCaseInsensitiveItem(d, gu) == Some(item) && (gu == Lower(u) || gu == u)
    ensures GetCaseInsensitiveItem(d, u) == Some(item)
  {
    LowerIdempotent(u);
    LookupIgnoresCase(d, u, gu);
  }

  lemma SpecParsedSteps(argv: seq<string>, cwd: string, cfg: Config)
    requires FlagsSpec(argv, cwd) == Parsed(cfg)
    ensures "-h" !in argv && ParseFrom(argv, 1, DefaultFlags(cwd)).Ok?
    ensures Finish(ParseFrom(argv, 1, DefaultFlags(cwd)).value) == Parsed(cfg)
  {
  }

  lemma FinishParsed(g: Flags, cfg: Config)
    requires Finish(g) == Parsed(cfg)
    ensures cfg.root == g.dir && g.dir != ""
    ensures GetCaseInsensitiveItem(Units, g.unit) == Some((cfg.unitKey, cfg.divisor))
    ensures cfg.exclude == g.exclude && cfg.threshold == g.threshold * 1000
  {
  }

  /** The lookup depends on the target only through its lower-case form. */
  lemma {:induction false} LookupIgnoresCase<V>(d: seq<(string, V)>, a: string, b: string)
    requires Lower(a) == Lower(b)
    ensures FirstKeyIndex(d, a) == FirstKeyIndex(d, b)
  {
    if d != [] {
      LookupIgnoresCase(d[1..], a, b);
    }
  }
}
