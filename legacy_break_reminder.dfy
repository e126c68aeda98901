/** cpp_Scripts/Break_reminder.cpp: the first break reminder, whose timer
    never stops and whose questions are answered with `cin >> value`. */
module LegacyBreakReminder {
  import opened Common
  import opened CppInt
  import opened BreakTimer

  /** What a call of getValidInt comes to: an int, or an endless retry once
      the input is exhausted (every read then fails without consuming
      anything, and the failure is cleared and the read repeated). */
  datatype Reading = Value(value: int) | Spins

  /** cin.ignore(max, '\n'): the position after the next newline from i, or
      the end of the input when there is none. */
  function SkipLine(s: string, i: nat): (j: nat)
    requires i <= |s|
    ensures i <= j <= |s|
    ensures forall k :: i <= k < j - 1 ==> s[k] != '\n'
    ensures j < |s| ==> j > i && s[j - 1] == '\n'
    decreases |s| - i
  {
    if i == |s| then i
    else if s[i] == '\n' then i + 1
    else SkipLine(s, i + 1)
  }

  /** Whether a newline is left at or after i. */
  predicate LineLeft(s: string, i: nat)
    requires i <= |s|
  {
    exists k :: i <= k < |s| && s[k] == '\n'
  }

  /** getValidInt reading the standard input `s` from position `pos`: the
      reading and where the input stands afterwards. A failed read discards
      the rest of its line and asks again; a number out of the range is
      dropped and the read goes on from just after it; a number in the range
      is returned and the rest of its line discarded. */
  function ReadValid(s: string, pos: nat, minVal: int, maxVal: int): (r: (Reading, nat))
    requires pos <= |s|
    ensures pos <= r.1 <= |s|
    ensures r.0.Value? ==> minVal <= r.0.value <= maxVal && IsInt32(r.0.value)
    ensures r.0.Value? ==> exists p :: pos <= p <= |s| && Extract(s, p).Extracted? && Extract(s, p).value == r.0.value
                                       && r.1 == SkipLine(s, Extract(s, p).next)
    ensures r.0.Spins? ==> r.1 == |s|
    decreases |s| - pos
  {
    match Extract(s, pos)
      case Failed(next) =>
        if LineLeft(s, next) then
          var after := SkipLine(s, next);
          assert after > pos by {
            assert after > next || next < |s|;
          }
          ReadValid(s, after, minVal, maxVal)
        else (Spins, |s|)
      case Extracted(value, next) =>
        if value < minVal || value > maxVal then ReadValid(s, next, minVal, maxVal)
        else (Value(value), SkipLine(s, next))
  }

  /** getValidInt, as the loop the source runs. */
  method GetValidInt(s: string, pos: nat, minVal: int, maxVal: int) returns (r: Reading, pos': nat)
    requires pos <= |s|
    ensures (r, pos') == ReadValid(s, pos, minVal, maxVal)
    ensures r.Value? ==> minVal <= r.value <= maxVal
  {
    var p := pos;
    while true
      invariant pos <= p <= |s|
      invariant ReadValid(s, p, minVal, maxVal) == ReadValid(s, pos, minVal, maxVal)
      decreases |s| - p
    {
      var read := Extract(s, p);
      if read.Failed? {
        // clear, then ignore the rest of the line.
        if !LineLeft(s, read.next) {
          r, pos' := Spins, |s|;
          return;
        }
        p := SkipLine(s, read.next);
      } else if read.value < minVal || read.value > maxVal {
        p := read.next;
      } else {
        r, pos' := Value(read.value), SkipLine(s, read.next);
        return;
      }
    }
  }

  /** A line holding just a number in the range is read as that number,
      and the input then stands at the start of the next line. */
  lemma ReadWrittenLine(v: int, rest: string, minVal: int, maxVal: int)
    requires IsInt32(v) && minVal <= v <= maxVal
    ensures ReadValid(IntToString(v) + "\n" + rest, 0, minVal, maxVal)
         == (Value(v), |IntToString(v)| + 1)
  {
    var t := IntToString(v);
    var s := t + "\n" + rest;
    ExtractIntToString(v, "\n" + rest);
    assert t + ("\n" + rest) == s;
    assert s[|t|] == '\n';
  }

  /** A line that cannot start a number (its first character is no white
      space, digit or sign) makes `>>` fail at once; the rest of the line is
      discarded and the question is asked again from the next line. */
  lemma SkipUnreadableLine(line: string, rest: string, minVal: int, maxVal: int)
    requires '\n' !in line
    requires line != [] && !IsSpace(line[0]) && !IsDigit(line[0]) && line[0] != '+' && line[0] != '-'
    ensures ReadValid(line + "\n" + rest, 0, minVal, maxVal)
         == ReadValid(line + "\n" + rest, |line| + 1, minVal, maxVal)
  {
    var s := line + "\n" + rest;
    assert s[0] == line[0];
    assert Extract(s, 0) == Failed(0);
    assert s[|line|] == '\n';
    assert LineLeft(s, 0);
    var j := SkipLine(s, 0);
    assert j == |line| + 1 by {
      assert forall k :: 0 <= k < |line| ==> s[k] == line[k] && s[k] != '\n';
    }
  }

  /** The intervals main starts the timer with, asked for in turn in the
      range 1..1440; None when the input runs out first, and the program
      never gets past its questions. */
  function Intervals(s: string): (r: Option<(int, int)>)
    ensures r.Some? ==> 1 <= r.value.0 <= 1440 && 1 <= r.value.1 <= 1440
  {
    var (work, p) := ReadValid(s, 0, 1, 1440);
    match work
      case Spins => None
      case Value(w) =>
        match ReadValid(s, p, 1, 1440).0
          case Spins => None
          case Value(b) => Some((w, b))
  }

  /** main, up to the start of the timer. */
  method Configure(s: string) returns (r: Option<(int, int)>)
    ensures r == Intervals(s)
  {
    var work, p := GetValidInt(s, 0, 1, 1440);
    if work.Spins? {
      return None;
    }
    var brk, q := GetValidInt(s, p, 1, 1440);
    if brk.Spins? {
      return None;
    }
    r := Some((work.value, brk.value));
  }

  /** startTimer. Its loop has no exit; this runs its first `minutes`
      minutes and returns the timer as it then stands. */
  method StartTimer(work: int, brk: int, minutes: nat) returns (final: Timer)
    requires IsInt32(work) && IsInt32(brk)
    ensures final == After(Start(work), work, brk, minutes)
    ensures ValidIntervals(work, brk) ==> InPhase(final, work, brk)
  {
    var ifWorking := true;
    var minutesLeft := work;
    var i := 0;
    while i < minutes
      invariant i <= minutes
      invariant IsInt32(minutesLeft)
      invariant Timer(ifWorking, minutesLeft) == After(Start(work), work, brk, i)
    {
      minutesLeft := Decrement(minutesLeft);
      if minutesLeft <= 0 {
        if ifWorking {
          ifWorking := false;
          minutesLeft := brk;
        } else {
          ifWorking := true;
          minutesLeft := work;
        }
      }
      i := i + 1;
    }
    final := Timer(ifWorking, minutesLeft);
    if ValidIntervals(work, brk) {
      AfterInPhase(Start(work), work, brk, minutes);
    }
  }

  /** Whenever main gets to start the timer, the minutes shown stay between
      1 and the current phase's length, and the phases repeat on a fixed
      cycle. */
  lemma ConfiguredTimer(s: string, work: int, brk: int, n: nat)
    requires Intervals(s) == Some((work, brk))
    ensures InPhase(After(Start(work), work, brk, n), work, brk)
    ensures After(Start(work), work, brk, n + work + brk) == After(Start(work), work, brk, n)
  {
    assert ValidIntervals(work, brk);
    AfterInPhase(Start(work), work, brk, n);
    Cycle(work, brk, n);
  }
}
