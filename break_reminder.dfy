/** cpp_Scripts/break_reminder/Break_reminder.cpp: the reminder that stops
    when Enter is pressed and keeps its default intervals on an empty
    answer. */
module BreakReminder {
  import opened Common
  import opened CppInt
  import opened BreakTimer

  /** How getValidInt judges one line read with getline. */
  datatype Verdict = Empty | Malformed | OutOfRange | Accepted(value: int)

  /** An empty line is the end of the questioning; otherwise the line must
      be read as an int by `>>` right up to its end, and the int must lie in
      the range. */
  function Judge(line: string, minVal: int, maxVal: int): (v: Verdict)
    ensures v == Empty <==> line == []
    ensures v.Accepted? ==> minVal <= v.value <= maxVal && IsInt32(v.value)
  {
    if line == [] then Empty
    else match Extract(line, 0)
      case Failed(_) => Malformed
      case Extracted(value, next) =>
        if next != |line| then Malformed
        else if value < minVal || value > maxVal then OutOfRange
        else Accepted(value)
  }

  /** The verdicts by what `>>` reads from a non-empty line: accepted when
      it reads an int right up to the end of the line and the int is in the
      range; out of range when it reads the whole line but the int is not
      in the range; malformed when it fails or stops before the end. */
  lemma JudgeReads(line: string, minVal: int, maxVal: int)
    ensures var v := Judge(line, minVal, maxVal);
      v.Accepted? <==> line != [] && Extract(line, 0).Extracted? && Extract(line, 0).next == |line|
                       && minVal <= Extract(line, 0).value <= maxVal
    ensures var v := Judge(line, minVal, maxVal);
      v.Accepted? ==> Extract(line, 0) == Extracted(v.value, |line|)
    ensures var v := Judge(line, minVal, maxVal);
      v == OutOfRange <==> line != [] && Extract(line, 0).Extracted? && Extract(line, 0).next == |line|
                           && !(minVal <= Extract(line, 0).value <= maxVal)
    ensures var v := Judge(line, minVal, maxVal);
      v == Malformed <==> line != [] && (Extract(line, 0).Failed? || Extract(line, 0).next != |line|)
  {
  }

  /** A line getValidInt answers with an error message and another read. */
  predicate Rejected(line: string, minVal: int, maxVal: int)
  {
    Judge(line, minVal, maxVal) in {Malformed, OutOfRange}
  }

  /** A number in the range, typed on its own, is accepted as itself. */
  lemma JudgeWritten(v: int, minVal: int, maxVal: int)
    requires IsInt32(v) && minVal <= v <= maxVal
    ensures Judge(IntToString(v), minVal, maxVal) == Accepted(v)
  {
    ExtractIntToString(v, []);
    assert IntToString(v) + [] == IntToString(v);
  }

  /** What a call of getValidInt comes to: the optional answer and the
      number of lines it read, or a loop that never ends. */
  datatype Outcome = Answered(answer: Option<int>, used: nat) | Stuck

  /** The same outcome, counted after n more lines read first. */
  function Shifted(o: Outcome, n: nat): Outcome
  {
    match o
    case Answered(a, u) => Answered(a, u + n)
    case Stuck => Stuck
  }

  /** getValidInt over the lines still to come on standard input;
      `endsInNewline` says whether the last of them is ended by a newline.
      Once the input is exhausted, getline leaves `input` empty, so the
      answer is nullopt. But getline that hits the end of input while
      reading an unended last line sets eofbit; every later getline then
      fails without touching `input`, so a rejected unended last line is
      judged again and again for ever. */
  function Answer(lines: seq<string>, endsInNewline: bool, minVal: int, maxVal: int): (r: Outcome)
    ensures r.Answered? ==> r.used <= |lines|
    ensures r.Answered? && r.answer.Some? ==>
              minVal <= r.answer.value <= maxVal && IsInt32(r.answer.value)
              && r.used >= 1 && Judge(lines[r.used - 1], minVal, maxVal) == Accepted(r.answer.value)
    ensures r.Answered? && r.answer.None? ==> r.used == |lines| || (r.used >= 1 && lines[r.used - 1] == [])
    ensures r.Stuck? ==> !endsInNewline && lines != []
  {
    if lines == [] then Answered(None, 0)
    else match Judge(lines[0], minVal, maxVal)
      case Empty => Answered(None, 1)
      case Accepted(v) => Answered(Some(v), 1)
      case _ =>
        if |lines| == 1 && !endsInNewline then Stuck
        else Shifted(Answer(lines[1..], endsInNewline, minVal, maxVal), 1)
  }

  /** Answer over the lines from index i on, by the verdict on line i. */
  lemma AnswerAt(lines: seq<string>, endsInNewline: bool, i: nat, minVal: int, maxVal: int)
    requires i < |lines|
    ensures
      var a := Answer(lines[i..], endsInNewline, minVal, maxVal);
      var rest := Answer(lines[i + 1..], endsInNewline, minVal, maxVal);
      match Judge(lines[i], minVal, maxVal)
      case Empty => a == Answered(None, 1)
      case Accepted(v) => a == Answered(Some(v), 1)
      case _ => a == if i + 1 == |lines| && !endsInNewline then Stuck else Shifted(rest, 1)
  {
    assert lines[i..][0] == lines[i];
    assert lines[i..][1..] == lines[i + 1..];
  }

  /** One more line read: the outcome over the whole input in terms of the
      verdict on line i, given that the lines before it were rejected. */
  lemma AnswerStep(lines: seq<string>, endsInNewline: bool, i: nat, minVal: int, maxVal: int)
    requires i < |lines|
    requires Shifted(Answer(lines[i..], endsInNewline, minVal, maxVal), i) == Answer(lines, endsInNewline, minVal, maxVal)
    ensures
      var a := Answer(lines, endsInNewline, minVal, maxVal);
      match Judge(lines[i], minVal, maxVal)
      case Empty => a == Answered(None, i + 1)
      case Accepted(v) => a == Answered(Some(v), i + 1)
      case _ =>
        if i + 1 == |lines| && !endsInNewline then a == Stuck
        else a == Shifted(Answer(lines[i + 1..], endsInNewline, minVal, maxVal), i + 1)
  {
    AnswerAt(lines, endsInNewline, i, minVal, maxVal);
    var rest := Answer(lines[i + 1..], endsInNewline, minVal, maxVal);
    match Judge(lines[i], minVal, maxVal)
    case Empty =>
    case Accepted(_) =>
    case _ =>
      if !(i + 1 == |lines| && !endsInNewline) {
        assert Shifted(Shifted(rest, 1), i) == Shifted(rest, i + 1);
      }
  }

  /** getValidInt never returns exactly when the input's last line is
      unended and it and every line before it are rejected. */
  lemma {:induction false} StuckExactly(lines: seq<string>, endsInNewline: bool, minVal: int, maxVal: int)
    ensures Answer(lines, endsInNewline, minVal, maxVal).Stuck?
        <==> !endsInNewline && lines != []
             && forall k :: 0 <= k < |lines| ==> Rejected(lines[k], minVal, maxVal)
  {
    if lines != [] && Rejected(lines[0], minVal, maxVal) && |lines| > 1 {
      StuckExactly(lines[1..], endsInNewline, minVal, maxVal);
      assert Answer(lines, endsInNewline, minVal, maxVal)
          == Shifted(Answer(lines[1..], endsInNewline, minVal, maxVal), 1);
      RejectedFromSecond(lines, minVal, maxVal);
    }
  }

  /** Every line is rejected when the first is and every line after it is. */
  lemma RejectedFromSecond(lines: seq<string>, minVal: int, maxVal: int)
    requires |lines| > 1 && Rejected(lines[0], minVal, maxVal)
    ensures (forall k :: 0 <= k < |lines| ==> Rejected(lines[k], minVal, maxVal))
        <==> (forall k :: 0 <= k < |lines[1..]| ==> Rejected(lines[1..][k], minVal, maxVal))
  {
    forall k | 1 <= k < |lines| ensures lines[k] == lines[1..][k - 1] { }
  }

  /** getValidInt: reads lines until one is empty (nullopt) or holds an int
      in the range (that int); every other line is answered with an error
      message and another read. The endless loop on a rejected unended last
      line is reported as Stuck. */
  method GetValidInt(lines: seq<string>, endsInNewline: bool, minVal: int, maxVal: int) returns (r: Outcome)
    ensures r == Answer(lines, endsInNewline, minVal, maxVal)
    ensures r.Answered? ==> r.used <= |lines|
    ensures r.Answered? ==> forall k :: 0 <= k < r.used - 1 ==> Rejected(lines[k], minVal, maxVal)
    ensures r.Answered? && r.answer.Some? ==>
              minVal <= r.answer.value <= maxVal && Judge(lines[r.used - 1], minVal, maxVal) == Accepted(r.answer.value)
    ensures r.Answered? && r.answer.None? ==> r.used == |lines| || (r.used >= 1 && lines[r.used - 1] == [])
    ensures r.Stuck? ==> !endsInNewline && lines != []
                         && forall k :: 0 <= k < |lines| ==> Rejected(lines[k], minVal, maxVal)
  {
    var used: nat := 0;
    while true
      invariant used <= |lines|
      invariant forall k :: 0 <= k < used ==> Rejected(lines[k], minVal, maxVal)
      invariant Shifted(Answer(lines[used..], endsInNewline, minVal, maxVal), used)
                == Answer(lines, endsInNewline, minVal, maxVal)
      decreases |lines| - used
    {
      if used == |lines| {
        // getline at the end of input leaves the line empty.
        return Answered(None, used);
      }
      var input := lines[used];
      AnswerStep(lines, endsInNewline, used, minVal, maxVal);
      used := used + 1;
      if input == [] {
        return Answered(None, used);
      }
      var verdict := Judge(input, minVal, maxVal);
      if verdict.Accepted? {
        return Answered(Some(verdict.value), used);
      }
      if used == |lines| && !endsInNewline {
        // getline stopped at the end of input and set eofbit: every later
        // getline fails at once and leaves `input` as it is, so this line
        // is judged again and again.
        assert Answer(lines, endsInNewline, minVal, maxVal) == Stuck;
        StuckExactly(lines, endsInNewline, minVal, maxVal);
        return Stuck;
      }
    }
  }

  /** The intervals main settles on: the work interval and then the break
      interval are asked for in the range 1..1440, and an empty answer keeps
      the default 45 or 15. None when one of the questions never returns. */
  function Intervals(lines: seq<string>, endsInNewline: bool): (r: Option<(int, int)>)
    ensures r.Some? ==> 1 <= r.value.0 <= 1440 && 1 <= r.value.1 <= 1440
    ensures endsInNewline ==> r.Some?
    ensures var first := Answer(lines, endsInNewline, 1, 1440);
      r.Some? && first.Answered? && first.answer.None? ==> r.value.0 == 45
    ensures var first := Answer(lines, endsInNewline, 1, 1440);
      first.Answered? ==>
        var second := Answer(lines[first.used..], endsInNewline, 1, 1440);
        r.Some? && second.Answered? && second.answer.None? ==> r.value.1 == 15
  {
    var first := Answer(lines, endsInNewline, 1, 1440);
    if first.Stuck? then None
    else
      var second := Answer(lines[first.used..], endsInNewline, 1, 1440);
      if second.Stuck? then None
      else Some((first.answer.GetOr(45), second.answer.GetOr(15)))
  }

  /** main, up to the start of the timer. */
  method Configure(lines: seq<string>, endsInNewline: bool) returns (r: Option<(int, int)>)
    ensures r == Intervals(lines, endsInNewline)
  {
    var first := GetValidInt(lines, endsInNewline, 1, 1440);
    if first.Stuck? {
      return None;
    }
    var second := GetValidInt(lines[first.used..], endsInNewline, 1, 1440);
    if second.Stuck? {
      return None;
    }
    r := Some((first.answer.GetOr(45), second.answer.GetOr(15)));
  }

  /** startTimer. `enter[i]` says whether Enter is pressed while minute i
      is being waited out; the loop runs until it is. Pressing Enter stops
      the wait, but the minute is still counted down, and may still switch
      the phase, before the loop ends. Returns the timer as the loop leaves
      it and the number of minutes counted. */
  method StartTimer(work: int, brk: int, enter: seq<bool>) returns (final: Timer, minutes: nat)
    requires IsInt32(work) && IsInt32(brk)
    requires true in enter
    ensures 1 <= minutes <= |enter| && enter[minutes - 1]
    ensures forall k :: 0 <= k < minutes - 1 ==> !enter[k]
    ensures final == After(Start(work), work, brk, minutes)
    ensures ValidIntervals(work, brk) ==> InPhase(final, work, brk)
  {
    ghost var pressed :| 0 <= pressed < |enter| && enter[pressed];
    var ifWorking := true;
    var minutesLeft := work;
    var running := true;
    minutes := 0;
    while running
      invariant minutes <= |enter|
      invariant running ==> minutes <= pressed
      invariant running <==> forall k :: 0 <= k < minutes ==> !enter[k]
      invariant !running ==> minutes >= 1 && enter[minutes - 1]
      invariant forall k :: 0 <= k < minutes - 1 ==> !enter[k]
      invariant IsInt32(minutesLeft)
      invariant Timer(ifWorking, minutesLeft) == After(Start(work), work, brk, minutes)
      decreases |enter| - minutes
    {
      if enter[minutes] {
        running := false;
      }
      minutesLeft := Decrement(minutesLeft);
      if minutesLeft <= 0 {
        if ifWorking {
          ifWorking := false;
          minutesLeft := brk;
        } else {
          ifWorking := true;
          minutesLeft := work;
        }
      }
      minutes := minutes + 1;
    }
    final := Timer(ifWorking, minutesLeft);
    if ValidIntervals(work, brk) {
      AfterInPhase(Start(work), work, brk, minutes);
    }
  }

  /** Whatever is typed, main starts the timer with intervals for which the
      minutes shown stay between 1 and the current phase's length, and the
      phases follow each other on a fixed cycle. */
  lemma ConfiguredTimer(lines: seq<string>, endsInNewline: bool, work: int, brk: int, n: nat)
    requires Intervals(lines, endsInNewline) == Some((work, brk))
    ensures InPhase(After(Start(work), work, brk, n), work, brk)
    ensures After(Start(work), work, brk, n + work + brk) == After(Start(work), work, brk, n)
  {
    assert ValidIntervals(work, brk);
    AfterInPhase(Start(work), work, brk, n);
    Cycle(work, brk, n);
  }
}
