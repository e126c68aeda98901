/** The countdown inside startTimer, which both break reminders share
    (cpp_Scripts/Break_reminder.cpp and
    cpp_Scripts/break_reminder/Break_reminder.cpp): a work phase and a break
    phase, each counted down one minute at a time. */
module BreakTimer {
  import opened CppInt

  /** The loop variables ifWorking and minutesLeft. */
  datatype Timer = Timer(working: bool, minutesLeft: int)

  /** Before the first minute: working, with the whole work interval left. */
  function Start(work: int): Timer
  {
    Timer(true, work)
  }

  /** The length of a phase. */
  function Interval(working: bool, work: int, brk: int): int
  {
    if working then work else brk
  }

  /** The end of one minute: minutesLeft is decremented, and once it is no
      longer positive the other phase starts with its whole interval. */
  function Tick(t: Timer, work: int, brk: int): (r: Timer)
    requires IsInt32(t.minutesLeft) && IsInt32(work) && IsInt32(brk)
    ensures IsInt32(r.minutesLeft)
    ensures t.minutesLeft > IntMin ==> (r.working != t.working <==> t.minutesLeft <= 1)
    ensures r.working == t.working && t.minutesLeft > IntMin ==> r.minutesLeft == t.minutesLeft - 1
    ensures r.working != t.working ==> r.minutesLeft == Interval(r.working, work, brk)
  {
    var m := Decrement(t.minutesLeft);
    if m > 0 then Timer(t.working, m)
    else if t.working then Timer(false, brk)
    else Timer(true, work)
  }

  /** The timer after n minutes. */
  function After(t: Timer, work: int, brk: int, n: nat): (r: Timer)
    requires IsInt32(t.minutesLeft) && IsInt32(work) && IsInt32(brk)
    ensures IsInt32(r.minutesLeft)
  {
    if n == 0 then t else Tick(After(t, work, brk, n - 1), work, brk)
  }

  /** The value shown at the top of the loop lies between 1 and the length
      of the current phase. */
  predicate InPhase(t: Timer, work: int, brk: int)
  {
    1 <= t.minutesLeft <= Interval(t.working, work, brk)
  }

  predicate ValidIntervals(work: int, brk: int)
  {
    1 <= work <= IntMax && 1 <= brk <= IntMax
  }

  /** With both intervals at least one minute, every minute keeps the timer
      within its phase. */
  lemma {:induction false} AfterInPhase(t: Timer, work: int, brk: int, n: nat)
    requires ValidIntervals(work, brk) && InPhase(t, work, brk)
    ensures InPhase(After(t, work, brk, n), work, brk)
  {
    if n > 0 {
      AfterInPhase(t, work, brk, n - 1);
    }
  }

  /** Minutes compose: m minutes and then n more are m + n minutes. */
  lemma {:induction false} AfterAdd(t: Timer, work: int, brk: int, m: nat, n: nat)
    requires IsInt32(t.minutesLeft) && IsInt32(work) && IsInt32(brk)
    ensures After(t, work, brk, m + n) == After(After(t, work, brk, m), work, brk, n)
  {
    if n > 0 {
      AfterAdd(t, work, brk, m, n - 1);
    }
  }

  /** Within a phase the count goes down by one each minute. */
  lemma {:induction false} CountDown(t: Timer, work: int, brk: int, k: nat)
    requires IsInt32(t.minutesLeft) && IsInt32(work) && IsInt32(brk)
    requires k < t.minutesLeft
    ensures After(t, work, brk, k) == Timer(t.working, t.minutesLeft - k)
  {
    if k > 0 {
      CountDown(t, work, brk, k - 1);
    }
  }

  /** When the count reaches zero, the other phase starts in full. */
  lemma {:induction false} PhaseEnds(t: Timer, work: int, brk: int)
    requires IsInt32(work) && IsInt32(brk) && 1 <= t.minutesLeft <= IntMax
    ensures After(t, work, brk, t.minutesLeft)
         == Timer(!t.working, Interval(!t.working, work, brk))
  {
    var m: nat := t.minutesLeft;
    CountDown(t, work, brk, m - 1);
    assert After(t, work, brk, m) == Tick(After(t, work, brk, m - 1), work, brk);
  }

  /** After one work interval and one break the timer is back where it
      started. */
  lemma {:induction false} Period(work: int, brk: int)
    requires ValidIntervals(work, brk)
    ensures After(Start(work), work, brk, work + brk) == Start(work)
  {
    PhaseEnds(Start(work), work, brk);
    AfterAdd(Start(work), work, brk, work, brk);
    PhaseEnds(Timer(false, brk), work, brk);
  }

  /** The timer repeats itself every work + brk minutes. */
  lemma Cycle(work: int, brk: int, n: nat)
    requires ValidIntervals(work, brk)
    ensures After(Start(work), work, brk, n + work + brk) == After(Start(work), work, brk, n)
  {
    AfterAdd(Start(work), work, brk, work + brk, n);
    Period(work, brk);
  }

  /** Where in its cycle a minute falls. */
  function CyclePosition(work: int, brk: int, n: nat): (r: nat)
    requires ValidIntervals(work, brk)
    ensures r < work + brk
    ensures n < work + brk ==> r == n
    ensures n >= work + brk ==> r == CyclePosition(work, brk, n - (work + brk))
    decreases n
  {
    if n < work + brk then n else CyclePosition(work, brk, n - (work + brk))
  }

  /** Within the first cycle, the timer is as the schedule says. */
  lemma FirstCycle(work: int, brk: int, n: nat)
    requires ValidIntervals(work, brk) && n < work + brk
    ensures After(Start(work), work, brk, n)
            == if n < work then Timer(true, work - n) else Timer(false, work + brk - n)
  {
    if n < work {
      CountDown(Start(work), work, brk, n);
    } else {
      PhaseEnds(Start(work), work, brk);
      AfterAdd(Start(work), work, brk, work, n - work);
      CountDown(Timer(false, brk), work, brk, n - work);
    }
  }

  /** The whole schedule from the start: minute n falls r minutes into a
      cycle of work + brk minutes; the first `work` minutes of a cycle are
      work with work - r left, the rest are break with the rest of the cycle
      left. */
  lemma {:induction false} Schedule(work: int, brk: int, n: nat)
    requires ValidIntervals(work, brk)
    ensures var r := CyclePosition(work, brk, n);
            After(Start(work), work, brk, n)
            == if r < work then Timer(true, work - r) else Timer(false, work + brk - r)
    decreases n
  {
    var p := work + brk;
    if n < p {
      FirstCycle(work, brk, n);
    } else {
      var m: nat := n - p;
      Schedule(work, brk, m);
      assert After(Start(work), work, brk, n) == After(Start(work), work, brk, m) by {
        AfterAdd(Start(work), work, brk, p, m);
        Period(work, brk);
        assert p + m == n;
      }
      assert CyclePosition(work, brk, n) == CyclePosition(work, brk, m);
    }
  }

  /** The position in the cycle is the remainder modulo its length. */
  lemma {:induction false} CyclePositionMod(work: int, brk: int, n: nat)
    requires ValidIntervals(work, brk)
    ensures CyclePosition(work, brk, n) == n % (work + brk)
    decreases n
  {
    var p := work + brk;
    if n < p {
      ModSmall(n, p);
    } else {
      var m: nat := n - p;
      assert CyclePosition(work, brk, m) == m % p by {
        CyclePositionMod(work, brk, m);
      }
      assert m % p == n % p by {
        ModShift(m, p);
        assert m + p == n;
      }
    }
  }

  lemma ModSmall(n: nat, p: nat)
    requires n < p
    ensures n % p == n
  {
    var q := n / p;
    assert n == q * p + n % p;
    if q > 0 {
      MulAtLeast(q, p);
    }
  }

  lemma ModShift(m: nat, p: nat)
    requires p > 0
    ensures (m + p) % p == m % p
  {
    var q, r := m / p, m % p;
    var q', r' := (m + p) / p, (m + p) % p;
    assert (q' - q - 1) * p == r - r' by {
      assert m == q * p + r;
      assert m + p == q' * p + r';
    }
    if q' - q - 1 > 0 {
      MulAtLeast(q' - q - 1, p);
    } else if q' - q - 1 < 0 {
      MulAtLeast(q + 1 - q', p);
    }
  }

  lemma {:induction false} MulAtLeast(k: int, p: int)
    requires k >= 1 && p > 0
    ensures k * p >= p
    decreases k
  {
    if k > 1 {
      MulAtLeast(k - 1, p);
      assert k * p == (k - 1) * p + p;
    }
  }
}
