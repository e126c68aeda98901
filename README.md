# UtilityScripts core, modelled in Dafny

This project models the logic of five small utilities from the UtilityScripts
repository and proves properties about the model:

- **size_of_folders.py** (modules `FolderFlags`, `FolderTree`, `FolderSizes`,
  `FolderReport`). It parses `-u`/`-d`/`-e`/`-t` flags and looks the unit up
  case-insensitively in a table of ten units. It walks a directory tree
  top-down, prunes the names the exclusion pattern finds, and adds each
  directory's file sizes to the directory and to every ancestor up to the
  root. It then keeps the totals at or above the threshold, sorts them
  largest first (stably) and formats each as `(size*8)//divisor unit:\tfolder`.
- **file_diff.py** (module `FileDiff`). The argument-count check and the
  "\n" added to the last line of each file. The name of the difference file,
  and the first free `_n` numbered name when it exists. The `process_diff`
  state machine: a buffer and two flags that group Differ-style lines into
  DIFFERENCE / FROM FILE / END blocks.
- **directory_structure.py** (modules `DirArguments`, `DirTree`). The flag
  parser with its error exits and the `-u` levels applied after parsing.
  `build_tree` over an abstract directory listing, with its element counter.
  `tree_string`, which draws the tree with `├`/`└`, dashes, prefixes and
  spacer lines.
- **cpp_Scripts/break_reminder/Break_reminder.cpp** (modules `CppInt`,
  `BreakTimer`, `BreakReminder`). The work/break countdown stepped once a
  minute until Enter is pressed. `getValidInt`, which reads whole lines with
  `getline` and answers `nullopt` on an empty one, and which never returns
  when a rejected last line has no newline after it. The fall-back intervals
  45 and 15.
- **cpp_Scripts/Break_reminder.cpp** (modules `CppInt`, `BreakTimer`,
  `LegacyBreakReminder`). The same countdown, in a loop that never ends.
  `getValidInt`, which reads with `cin >> value` and clears and skips the
  line on failure.

`Common` and `PosixPath` hold the pieces of the Python runtime that the
scripts use: `str.lower`, `int()`, `str()` of an integer and the `posixpath`
functions `split`, `dirname`, `basename`, `join` and `splitext`.

Where the code works by changing state step by step, the model is a method
with loop invariants proved against a recursive specification function.
Examples: `ProcessFlags`, `AccumulateSizes`, `ProcessDiff`,
`ProcessArguments`, both `GetValidInt`s and both `StartTimer`s. The
properties are then proved as lemmas about that function. `build_tree` and
`build_string` recurse over the tree, so they are recursive functions.

## Model

| member | source | states |
|---|---|---|
| Common.Lower | Python_Scripts/size_of_folders/size_of_folders.py:11 | Lower-casing keeps the length, maps each character by its lower-case form, and leaves no capital letter |
| Common.LowerIdempotent | Python_Scripts/size_of_folders/size_of_folders.py:71 | Lower-casing an already lower-cased unit changes nothing, so the lookup at line 110 sees the same key again |
| PosixPath.Split | Scripts/file_diff.py:44-45 | The tail of a split is everything after the last "/" and holds no "/" |
| PosixPath.Basename | Scripts/file_diff.py:45-46 | The base name is a suffix of the path and holds no "/" |
| PosixPath.Join | Python_Scripts/size_of_folders/size_of_folders.py:133 | Joining onto an absolute path gives that path; otherwise the result starts with the first part and ends with the second |
| PosixPath.DirnameJoin | Python_Scripts/size_of_folders/size_of_folders.py:138 | For a normalized directory and a plain name, dirname of their join is the directory and basename is the name |
| PosixPath.SplitExt | Scripts/file_diff.py:60 | The stem and the extension concatenate to the path, and the extension is empty or starts with "." |
| FolderFlags.GetCaseInsensitiveItem | Python_Scripts/size_of_folders/size_of_folders.py:8-13 | The item returned is the first entry in order whose lower-cased key equals the lower-cased target; there is none exactly when no key matches |
| FolderFlags.LookupIgnoresCase | Python_Scripts/size_of_folders/size_of_folders.py:10-11 | Two targets that lower-case alike find the same entry |
| FolderFlags.UnitLookup | Python_Scripts/size_of_folders/size_of_folders.py:104-116 | A unit resolves exactly when its lower-case form is one of the ten table names; "b" resolves to ("B", 8), "bit" to ("bit", 1) and "mib" to ("MiB", 8·2^20) |
| FolderFlags.PyIntOfIntToString | Python_Scripts/size_of_folders/size_of_folders.py:87 | int() reads every decimal numeral back as its value |
| FolderFlags.ProcessFlags | Python_Scripts/size_of_folders/size_of_folders.py:38-116 | The flag loop and the validation after it end exactly as the specification FlagsSpec says: help, unknown argument, invalid threshold, invalid unit, unbound root folder, or the parsed configuration |
| FolderFlags.ParseStep | Python_Scripts/size_of_folders/size_of_folders.py:68-97 | A parse that goes through reads a flag with a value at each step, and the threshold value is one int() accepts |
| FolderFlags.ParseFromOk | Python_Scripts/size_of_folders/size_of_folders.py:68-97 | A successful parse consumes flag/value pairs; each key ends with the value of its last occurrence (the unit lower-cased, the threshold as int() reads it) or keeps its initial value |
| FolderFlags.ParseFromSucceeds | Python_Scripts/size_of_folders/size_of_folders.py:68-97 | Flag/value pairs whose thresholds int() accepts always parse |
| FolderFlags.FlagsSpecParsed | Python_Scripts/size_of_folders/size_of_folders.py:60-109 | A returned configuration means no "-h", pairs of known flags, a non-empty root that is the last "-d" value or the working directory, the last "-e" pattern, and a threshold of 1000 times the last "-t" value (0 without one) |
| FolderFlags.FlagsSpecUnit | Python_Scripts/size_of_folders/size_of_folders.py:104-113 | The returned unit key and divisor are the table entry that the last "-u" value (default "mib") resolves to, whatever its case |
| FolderFlags.FinishParsed | Python_Scripts/size_of_folders/size_of_folders.py:101-116 | After the loop, a configuration is returned only for a non-empty directory and a resolvable unit, with the threshold scaled by 1000 |
| FolderTree.TotalIsSumOfCountedFiles | Python_Scripts/size_of_folders/size_of_folders.py:130-133 | A directory's total is the sum of the sizes of all files below it that no pruning hides |
| FolderTree.TotalSplit | Python_Scripts/size_of_folders/size_of_folders.py:133-137 | A total is the directory's own counted files plus the totals of its kept subdirectories |
| FolderTree.WalkTotal | Python_Scripts/size_of_folders/size_of_folders.py:126-140 | The per-visit file sizes of a whole walk add up to the total of the tree |
| FolderTree.WalkSumAt | Python_Scripts/size_of_folders/size_of_folders.py:126-140 | The file sizes of the visits at or below a relative path add up to the total there |
| FolderTree.WalkPathsBelow | Python_Scripts/size_of_folders/size_of_folders.py:126 | Every directory the walk visits lies below its starting point |
| FolderTree.WalkPreOrder | Python_Scripts/size_of_folders/size_of_folders.py:126 | os.walk is top-down: every directory is visited after all of its ancestors |
| FolderTree.WalkAncestors | Python_Scripts/size_of_folders/size_of_folders.py:136-138 | Every ancestor of a visited directory, up to the start, was visited no later than it |
| FolderTree.WalkNotAbove | Python_Scripts/size_of_folders/size_of_folders.py:126 | No directory is visited after one of its descendants |
| FolderTree.WalkFromRoot | Python_Scripts/size_of_folders/size_of_folders.py:126-130 | The walk from the root is top-down, visits the root first, and never enters a directory whose name is pruned |
| FolderTree.VisitTotal | Python_Scripts/size_of_folders/size_of_folders.py:126-133 | A visit's listing is the directory found at its path, so its total is the total there |
| FolderTree.SumBelowMonotone | Python_Scripts/size_of_folders/size_of_folders.py:136-140 | The sum gathered for a directory is at least the sum gathered for any directory below it |
| FolderTree.DirPathParent | Python_Scripts/size_of_folders/size_of_folders.py:138 | dirname of a visited directory's path is its parent's path, and basename is its own name |
| FolderTree.DirPathInjective | Python_Scripts/size_of_folders/size_of_folders.py:137 | Distinct directories have distinct dictionary keys |
| FolderTree.DirPathIsRoot | Python_Scripts/size_of_folders/size_of_folders.py:136 | A directory's path equals the root folder exactly when it is the root |
| FolderSizes.Increment | Python_Scripts/size_of_folders/size_of_folders.py:137 | The defaultdict `+=` adds to the key (from 0 when new, appending it to the insertion order) and leaves every other key as it was |
| FolderSizes.AccumulateSizes | Python_Scripts/size_of_folders/size_of_folders.py:123-140 | Every visited directory gets a key, even with size 0, in walk order; its entry is the sum of the file sizes of all visits at or below it |
| FolderSizes.AddToAncestors | Python_Scripts/size_of_folders/size_of_folders.py:136-140 | The dirname loop followed by the add to the root leaves exactly the keys and sizes of AfterVisit: folder_size added to the visited directory and each ancestor up to and including the root |
| FolderSizes.VisitGathered | Python_Scripts/size_of_folders/size_of_folders.py:126-140 | After each visit, the first visits so far have their keys in walk order, nothing else is a key, and each entry is the size of the counted files of those visits at or below it |
| FolderSizes.EarlierAncestor | Python_Scripts/size_of_folders/size_of_folders.py:136-138 | Each ancestor the loop climbs through was visited before, so its key already exists |
| FolderReport.AtLeast | Python_Scripts/size_of_folders/size_of_folders.py:143 | A row is kept exactly when its folder has a size at or above the threshold |
| FolderReport.AtLeastMonotone | Python_Scripts/size_of_folders/size_of_folders.py:143 | Raising the threshold never adds a row |
| FolderReport.InsertPermutes | Python_Scripts/size_of_folders/size_of_folders.py:150 | Inserting a row adds exactly that row |
| FolderReport.InsertDescending | Python_Scripts/size_of_folders/size_of_folders.py:150 | Inserting into rows sorted largest first keeps them sorted |
| FolderReport.InsertStable | Python_Scripts/size_of_folders/size_of_folders.py:150 | Inserting puts a row after every row of the same size |
| FolderReport.SortBySizeCorrect | Python_Scripts/size_of_folders/size_of_folders.py:150 | The sort is a permutation, largest size first, and rows of equal size keep their original order |
| FolderReport.FormatRowFields | Python_Scripts/size_of_folders/size_of_folders.py:151 | A row starts with the decimal numeral of (size*8)//divisor, then a space, and ends with the folder |
| FolderReport.FormatRowUnits | Python_Scripts/size_of_folders/size_of_folders.py:151 | With unit B a row shows the size in bytes; with unit bit, 8 times the size |
| FolderReport.ConvertedMonotone | Python_Scripts/size_of_folders/size_of_folders.py:151 | Converting by a divisor keeps the order of sizes |
| FolderReport.Render | Python_Scripts/size_of_folders/size_of_folders.py:149-151 | One formatted line per row, in row order |
| FolderReport.NoPatternPrunesNothing | Python_Scripts/size_of_folders/size_of_folders.py:124-130 | With no pattern, or an empty one, no file or directory name is pruned |
| FolderReport.FolderRows | Python_Scripts/size_of_folders/size_of_folders.py:143 | Every visited directory whose total reaches the threshold has its row, every row reaches the threshold, and there are no more rows than visits |
| FolderReport.FolderRowsFromVisits | Python_Scripts/size_of_folders/size_of_folders.py:143 | Every row is the path and total of some visited directory |
| FolderReport.FolderRowsAppend | Python_Scripts/size_of_folders/size_of_folders.py:143 | The rows of two runs of visits are the rows of each, in visit order |
| FolderReport.NormalizeDir | Python_Scripts/size_of_folders/size_of_folders.py:122 | The root folder is made normalized, and a normalized one is left as it is |
| FolderReport.ListFolderSizes | Python_Scripts/size_of_folders/size_of_folders.py:119-154 | There is no table exactly when a non-empty pattern does not compile; otherwise the table is the rows of the walk at or above the threshold, sorted largest first and formatted with the unit |
| FolderReport.FormatRows | Python_Scripts/size_of_folders/size_of_folders.py:149-151 | The formatting loop writes one line per row, in order, with the scaled size, the unit and the path |
| FolderReport.AccumulatedTotals | Python_Scripts/size_of_folders/size_of_folders.py:133-140 | Each entry gathered by the walk is the total of its directory |
| FolderReport.SameRows | Python_Scripts/size_of_folders/size_of_folders.py:143 | Filtering the gathered dictionary gives the same rows as filtering the directory totals in walk order |
| FolderReport.RootIsLargest | Python_Scripts/size_of_folders/size_of_folders.py:136-140 | The root is visited first, and no directory's total exceeds the root's |
| FolderReport.MatchedEntryIgnored | Python_Scripts/size_of_folders/size_of_folders.py:128-130 | Replacing a pruned entry by anything else pruned leaves every total unchanged |
| FolderReport.TrailingSlashRootNeverReached | Python_Scripts/size_of_folders/size_of_folders.py:136-138 | With root "foo/", the ancestors climbed from "foo/a" are "foo/a", "foo", "", "", …, none equal to the root |
| FileDiff.WithFinalNewline | Scripts/file_diff.py:34-35 | Only the last line changes, and it gains a "\n" |
| FileDiff.LoadLines | Scripts/file_diff.py:11-37 | Fewer than three arguments is an error; otherwise the lists loaded are exactly the two files' lines with WithFinalNewline applied, so both keep their lengths and their last lines gain one newline, even when they already end with one |
| FileDiff.DiffName | Scripts/file_diff.py:49 | The intended file name holds no "/" |
| FileDiff.FirstFileParts | Scripts/file_diff.py:44-45 | The first file's path splits into its directory and its name |
| FileDiff.DiffPathAsWrittenDoubled | Scripts/file_diff.py:49-52 | As written, the relative directory "dir" turns "dir/a.txt" into "dir/dirdifference_a_…", not "dir/difference_a_…" |
| FileDiff.DiffPathAsWrittenEscapes | Scripts/file_diff.py:49-52 | As written, an absolute directory is glued to the name, so the file lands in that directory's parent |
| FileDiff.DiffPathPlacement | Scripts/file_diff.py:44-52 | The corrected path is the intended name placed in the first file's directory |
| FileDiff.NumberedInjective | Scripts/file_diff.py:62 | Different numerals give different names |
| FileDiff.NumberedBound | Scripts/file_diff.py:58-66 | The numerals refused are all distinct taken names, so there are at most as many as the names taken |
| FileDiff.FirstFreeNumbered | Scripts/file_diff.py:58-66 | The loop ends with the smallest numeral n >= 1 whose name is free |
| FileDiff.ChooseDiffPath | Scripts/file_diff.py:55-66 | For the base path it is given (the one the source builds, or the corrected one) the chosen path is free; it is the base itself when free, otherwise the base with the smallest free numeral |
| FileDiff.TextsOfText | Scripts/file_diff.py:91-101 | Lines written as plain text come out unchanged, one string per line |
| FileDiff.EmitHeaders | Scripts/file_diff.py:91-121 | The DIFFERENCE header is written exactly when a differing line arrives with no block open; END exactly when a common line arrives with a block open; a switch of side writes only the other FROM header before the line |
| FileDiff.ConsumeLine | Scripts/file_diff.py:89-121 | One line keeps both flags from being set together and the buffer non-empty exactly while one is set, and adds the line's output; a common line first flushes the buffer, with an END if a block was open, then appends its payload |
| FileDiff.ProcessDiff | Scripts/file_diff.py:76-128 | The buffered output equals the streamed specification Stream: buffering changes nothing in what is written |
| FileDiff.StreamPayloads | Scripts/file_diff.py:89-121 | Without the headers, the output is the payloads of the "  ", "- " and "+ " lines in input order; other lines are dropped |
| FileDiff.EmitPayloads | Scripts/file_diff.py:101-121 | A line contributes its payload when it is one of the three kinds, and nothing otherwise |
| FileDiff.StreamHeaders | Scripts/file_diff.py:98-124 | A DIFFERENCE header appears exactly when some line is "- " or "+ "; without such lines the output is just the common payloads |
| FileDiff.EmitTrack | Scripts/file_diff.py:105-119 | What one line writes is accepted from the block open before it (a header only from the neutral state, END only with a block open), and leaves open the block the next state says |
| FileDiff.StreamBalanced | Scripts/file_diff.py:92-126 | Blocks open and close in turn, and none is left open at the end |
| FileDiff.TrackCounts | Scripts/file_diff.py:92-126 | In a balanced sequence, DIFFERENCE headers and END footers differ only by the block left open |
| FileDiff.OneFooterPerBlock | Scripts/file_diff.py:92-126 | Every block is closed by exactly one END footer |
| DirArguments.Step | Python_Scripts/directory_structure/directory_structure.py:91-145 | An unknown token is an error; a flag consumes one or two tokens and changes its own key and no other |
| DirArguments.StepOutcomes | Python_Scripts/directory_structure/directory_structure.py:91-140 | "-p" succeeds exactly when an existing path follows, "-u", "-vt", "-ht" exactly when a decimal follows, "-e" exactly when a compiling pattern follows, each else with its own error; on success the flag stores the parsed value under its key; "-f" and "-d" always succeed and set their switch |
| DirArguments.ParseFrom | Python_Scripts/directory_structure/directory_structure.py:89-145 | An invalid argument the loop stops at is one of the given tokens and names no flag |
| DirArguments.ProcessArguments | Python_Scripts/directory_structure/directory_structure.py:42-151 | The loop and the levels-up loop end exactly as the specification ArgumentsSpec says |
| DirArguments.ParseUntouched | Python_Scripts/directory_structure/directory_structure.py:89-145 | A key no token names keeps its value |
| DirArguments.ParseFromSuffix | Python_Scripts/directory_structure/directory_structure.py:89-145 | The rest of the parse depends only on the tokens still to come |
| DirArguments.PathUpCommute | Python_Scripts/directory_structure/directory_structure.py:91-105 | "-p d -u n" and "-u n -p d" leave the loop in the same state |
| DirArguments.UpAppliedAfterParsing | Python_Scripts/directory_structure/directory_structure.py:147-149 | With "-p d" and "-u n" as the first four arguments, their order does not matter: "-p d -u n" and "-u n -p d" give the same options |
| DirArguments.ParsedState | Python_Scripts/directory_structure/directory_structure.py:147-151 | Returned options mean no help flag, a parse that went through, and the directory taken up the parsed number of levels |
| DirArguments.ParsedDefaults | Python_Scripts/directory_structure/directory_structure.py:64-71 | Every option no flag names keeps its default: the working directory, tab 4, horizontal tab 0, no pattern, console output, files shown |
| DirTree.BuildTree | Python_Scripts/directory_structure/directory_structure.py:168-188 | The counter is at least 1, for the directory itself |
| DirTree.GetDirectoryStructure | Python_Scripts/directory_structure/directory_structure.py:190-191 | The result is one directory named after the path's last component |
| DirTree.BuildTreeCount | Python_Scripts/directory_structure/directory_structure.py:170-188 | The counter is one more than the number of entries in the built tree, at every depth |
| DirTree.ScannedCount | Python_Scripts/directory_structure/directory_structure.py:190-191 | The counter returned is the number of entries below the root |
| DirTree.BuildFind | Python_Scripts/directory_structure/directory_structure.py:174-186 | A name appears exactly when it is listed, not matched by the pattern, and a directory or included file; directories map to their own built subtree |
| DirTree.BuildTreeVisible | Python_Scripts/directory_structure/directory_structure.py:175-186 | An entry at any depth appears exactly when it exists, no component of its path is matched, and it is a directory or files are included |
| DirTree.Repeat | Python_Scripts/directory_structure/directory_structure.py:229 | Repeating a character gives that many copies, and none for a count below one |
| DirTree.RowShape | Python_Scripts/directory_structure/directory_structure.py:222-229 | A row is the prefix, "└" for the last entry or "├" otherwise, tab-1 dashes, a space and the name |
| DirTree.SpacersJoined | Python_Scripts/directory_structure/directory_structure.py:226-227 | The spacer text is horizontal_tab lines, each the prefix followed by a vertical bar |
| DirTree.BuildStringLines | Python_Scripts/directory_structure/directory_structure.py:214-247 | The drawing is its list of lines, each followed by "\n" |
| DirTree.BuildLinesCount | Python_Scripts/directory_structure/directory_structure.py:226-245 | Each entry draws horizontal_tab + 1 lines |
| DirTree.BuildLinesPrefix | Python_Scripts/directory_structure/directory_structure.py:226-242 | Every line drawn below a prefix starts with it |
| DirTree.TreeStringLines | Python_Scripts/directory_structure/directory_structure.py:249-250 | The drawing has 1 + (horizontal_tab + 1) · entries lines: the root name, then the entries |
| CppInt.Decrement | cpp_Scripts/break_reminder/Break_reminder.cpp:40 | The decrement stays within int and takes exactly one off every value but the lowest |
| CppInt.Extract | cpp_Scripts/break_reminder/Break_reminder.cpp:69-70 | Reading stops at the end or at a non-digit; a value read is an int, taken from the longest digit run after the white space and optional sign, and negated after a "-"; with no digit there, the read fails where the digits should start |
| CppInt.ExtractIntToString | cpp_Scripts/break_reminder/Break_reminder.cpp:69-72 | An int written in decimal and followed by a non-digit is read back as itself, ending right after the numeral |
| BreakTimer.Tick | cpp_Scripts/break_reminder/Break_reminder.cpp:40-56 | A minute takes one off the count; the phase flips exactly when the count was 1 or less, and a new phase starts with its whole interval |
| BreakTimer.AfterInPhase | cpp_Scripts/break_reminder/Break_reminder.cpp:19-56 | With both intervals at least 1, the count shown stays between 1 and the current phase's interval |
| BreakTimer.AfterAdd | cpp_Scripts/break_reminder/Break_reminder.cpp:22-56 | m minutes and then n more are m + n minutes |
| BreakTimer.CountDown | cpp_Scripts/break_reminder/Break_reminder.cpp:40 | Within a phase the count goes down by one a minute |
| BreakTimer.PhaseEnds | cpp_Scripts/break_reminder/Break_reminder.cpp:43-55 | When the count runs out, the other phase starts with its whole interval |
| BreakTimer.Period | cpp_Scripts/break_reminder/Break_reminder.cpp:18-55 | One work interval and one break bring the timer back to its start |
| BreakTimer.Cycle | cpp_Scripts/break_reminder/Break_reminder.cpp:22-56 | The timer repeats itself every work + break minutes |
| BreakTimer.FirstCycle | cpp_Scripts/break_reminder/Break_reminder.cpp:18-55 | In the first cycle minute n is work with work - n left, or break with the rest of the cycle left |
| BreakTimer.Schedule | cpp_Scripts/break_reminder/Break_reminder.cpp:18-56 | At any minute, the phase and count are given by the minute's position in the cycle |
| BreakTimer.CyclePositionMod | cpp_Scripts/break_reminder/Break_reminder.cpp:22-56 | That position is the minute modulo work + break |
| BreakReminder.Judge | cpp_Scripts/break_reminder/Break_reminder.cpp:67-77 | A line is judged empty exactly when it is empty, and an accepted line holds an int in the range |
| BreakReminder.JudgeReads | cpp_Scripts/break_reminder/Break_reminder.cpp:69-77 | A non-empty line is accepted exactly when `>>` reads an int in the range right up to its end (and the answer is that int), out of range exactly when it reads the whole line as an int outside the range, and malformed exactly when the read fails or stops early |
| BreakReminder.JudgeWritten | cpp_Scripts/break_reminder/Break_reminder.cpp:69-77 | A line holding just a numeral in the range is accepted as its value |
| BreakReminder.Answer | cpp_Scripts/break_reminder/Break_reminder.cpp:60-79 | An answer lies in the range and comes from the last line read, which was accepted; nullopt comes from an empty line or the end of input; a loop that never ends needs an unended last line |
| BreakReminder.StuckExactly | cpp_Scripts/break_reminder/Break_reminder.cpp:63-78 | The call never returns exactly when the last line has no newline after it and every line, that one included, is malformed or out of range |
| BreakReminder.GetValidInt | cpp_Scripts/break_reminder/Break_reminder.cpp:60-79 | Lines are read until one is empty (nullopt), is accepted (its value, in the range) or is a rejected unended last line (no return); every line before it was malformed or out of range |
| BreakReminder.Intervals | cpp_Scripts/break_reminder/Break_reminder.cpp:93-95 | When both questions return, both intervals lie in 1..1440, and an empty answer keeps 45 for work and 15 for the break; with the input ended by a newline they always return |
| BreakReminder.Configure | cpp_Scripts/break_reminder/Break_reminder.cpp:92-95 | main asks for work and then break, as Intervals says, and gets no intervals when a question never returns |
| BreakReminder.StartTimer | cpp_Scripts/break_reminder/Break_reminder.cpp:14-58 | The loop runs until the minute in which Enter is first pressed, counts that minute too, and leaves the timer as that many minutes make it, within its phase |
| BreakReminder.ConfiguredTimer | cpp_Scripts/break_reminder/Break_reminder.cpp:93-105 | Whatever is typed, once main gets past its questions the timer it starts stays within its phase and repeats every work + break minutes |
| LegacyBreakReminder.SkipLine | cpp_Scripts/Break_reminder.cpp:50 | Skipping stops right after the next newline, or at the end of the input |
| LegacyBreakReminder.ReadValid | cpp_Scripts/Break_reminder.cpp:42-59 | A value read lies in the range and is an int; it is what `>>` extracts at some later position, and the input then stands just past the newline after it; an endless retry leaves the input at its end |
| LegacyBreakReminder.SkipUnreadableLine | cpp_Scripts/Break_reminder.cpp:46-51 | A line that cannot start a number makes the read fail; its rest is discarded and the question is answered from the next line on |
| LegacyBreakReminder.GetValidInt | cpp_Scripts/Break_reminder.cpp:42-59 | The retry loop ends as ReadValid says, with any value in the range |
| LegacyBreakReminder.ReadWrittenLine | cpp_Scripts/Break_reminder.cpp:46-56 | A line holding a numeral in the range is read as its value, and reading resumes at the next line |
| LegacyBreakReminder.Intervals | cpp_Scripts/Break_reminder.cpp:71-73 | When main gets past its questions, both intervals lie in 1..1440 |
| LegacyBreakReminder.Configure | cpp_Scripts/Break_reminder.cpp:70-73 | main asks for work and then break, as Intervals says |
| LegacyBreakReminder.StartTimer | cpp_Scripts/Break_reminder.cpp:11-40 | The first n minutes of the endless loop leave the timer as n ticks make it, within its phase |
| LegacyBreakReminder.ConfiguredTimer | cpp_Scripts/Break_reminder.cpp:71-82 | Once main starts the timer, it stays within its phase and repeats every work + break minutes |

## Left out

- The filesystem is an input value. `os.walk`, `os.listdir`, `os.path.getsize`/`isdir`/`isfile` become a tree of named directories and sized files. `os.path.exists` becomes a set of existing paths. Opening, writing, closing and removing files is not modelled.
- FolderReport.ListFolderSizes: the walk, the keys and the printed paths use the root as NormalizeDir spells it (trailing slashes removed unless the root is all slashes). The program keys its totals by the root exactly as given: for `-d foo/` with no subdirectory it prints `foo/` where the model prints `foo`, and with a subdirectory it never finishes (see Findings); the model reports the corrected climb instead.
- FolderTree.Walk: a pure pre-order listing of the given tree. Walk errors, symbolic links and a tree that changes during the walk are not modelled.
- The regular-expression engine is a parameter. `search` (size_of_folders) and `match` at the start of the name (directory_structure) are abstract predicates, and whether a pattern compiles is a predicate on it. An invalid `-e` pattern makes `re.compile` raise `re.error` in size_of_folders (size_of_folders.py:124) and gives the "Invalid regular expression" exit in directory_structure (directory_structure.py:134-135); both are modelled as an error outcome (`None` from `FolderReport.ListFolderSizes`, `InvalidPattern` from `DirArguments.Step`), not as an exception with a traceback.
- `difflib.Differ` (file_diff.py `create_diff`) is a foreign library: `process_diff` takes its output lines as input.
- `are_files_identical`, the existence check and the MIME-type check in `script_init` only read files and exit. Reading the files is an input; `FileDiff.LoadLines` covers the argument count and the appended newline.
- Printing, the help texts, `get_terminal_size_windows`, `paginate`, the line truncation and the console output of all five programs are not modelled.
- The output-file naming loop in directory_structure.py's main block (lines 272-276) is interleaved with file creation. It is not part of this model.
- `os.getcwd()` is a parameter `cwd`.
- PosixPath: paths follow `posixpath`. The Windows `ntpath` rules (drive letters, backslashes) are not modelled.
- Common.Lower: ASCII letters only. Python's `str.lower` also maps other Unicode letters.
- FolderFlags.PyInt: ASCII digits, ASCII white space, an optional sign and single underscores between digits. `int()` also accepts other Unicode digits and white space.
- DirArguments.IsDecimal: ASCII digits only. `str.isdigit` also accepts other Unicode digits, for which `int()` would then raise.
- google_takeout_parser.py only drives a loading bar with sleeps and has no logic to model.
- Sleeping, `_kbhit`/`_getch` and `MessageBoxA` notifications are left out. BreakReminder.StartTimer takes one boolean per minute that says whether Enter was pressed during that minute.
- BreakReminder.StartTimer requires that Enter is pressed at some minute. Without a press the loop never ends, like the older program's loop.
- LegacyBreakReminder.StartTimer: the loop has no exit, so the model states only its first `minutes` minutes, for every number of minutes.
- LegacyBreakReminder.ReadValid: once the input is exhausted, the clear-and-retry loop spins forever without reading. The model reports this as `Spins`, and Configure then gives no intervals.
- CppInt.Decrement: decrementing the lowest `int` is undefined in C++. The model wraps it to the highest value; with valid intervals the count never gets there.
- CppInt.Extract: the C locale only. No locale-specific digit grouping.
- BreakReminder.GetValidInt: standard input is the sequence of lines still to come, plus whether the last of them is ended by a newline. After the last ended line, `getline` yields an empty line and the answer is nullopt. A rejected unended last line makes the source loop for ever; the model reports this as `Stuck`, and Configure then gives no intervals.

## Findings

| source | as written | input that shows it | evidently intended | confidence | as-written member | corrected member |
|---|---|---|---|---|---|---|
| Scripts/file_diff.py:49-52 | The first file's directory is written into the file name and the name is then joined under that directory again | `docs/a.txt b.txt` gives `docs/docsdifference_a_b.txt`; `/tmp/a.txt b.txt` gives `/tmpdifference_a_b.txt` in `/` | `docs/difference_a_b.txt`, next to the first file | not executed | FileDiff.DiffPathAsWrittenDoubled | FileDiff.DiffPathPlacement |
| Python_Scripts/size_of_folders/size_of_folders.py:136-138 | The ancestor loop stops only when the path equals the root folder's spelling | `-d foo/` with a subdirectory `a`: the loop goes `foo/a`, `foo`, `""`, `""`, … and never meets `foo/` | The climb stops at the root however it is spelled | not executed | FolderReport.TrailingSlashRootNeverReached | FolderReport.NormalizeDir |
