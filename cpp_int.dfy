/** The C++ `int` both break reminders read and count down with: its 32-bit
    range, the decrement on it, and reading one with `operator>>`. */
module CppInt {
  import opened Common

  const IntMin: int := -0x8000_0000
  const IntMax: int := 0x7fff_ffff

  predicate IsInt32(x: int)
  {
    IntMin <= x <= IntMax
  }

  /** `x--` on a 32-bit int. Signed overflow is undefined in C++; the model
      wraps the lowest value round to the highest, as the hardware does. */
  function Decrement(x: int): (r: int)
    requires IsInt32(x)
    ensures IsInt32(r)
    ensures x > IntMin ==> r == x - 1
    ensures x == IntMin ==> r == IntMax
  {
    if x == IntMin then IntMax else x - 1
  }

  /** White space as the C locale's isspace sees it. */
  predicate IsSpace(c: char)
  {
    c == ' ' || c == '\t' || c == '\n' || c == '\U{B}' || c == '\U{C}' || c == '\r'
  }

  /** The end of the run of white space starting at i. */
  function SkipSpace(s: string, i: nat): (j: nat)
    requires i <= |s|
    ensures i <= j <= |s|
    ensures forall k :: i <= k < j ==> IsSpace(s[k])
    ensures j < |s| ==> !IsSpace(s[j])
    decreases |s| - i
  {
    if i < |s| && IsSpace(s[i]) then SkipSpace(s, i + 1) else i
  }

  /** The end of the run of decimal digits starting at i. */
  function DigitsEnd(s: string, i: nat): (j: nat)
    requires i <= |s|
    ensures i <= j <= |s|
    ensures AllDigits(s[i..j])
    ensures j < |s| ==> !IsDigit(s[j])
    decreases |s| - i
  {
    if i < |s| && IsDigit(s[i]) then
      var j := DigitsEnd(s, i + 1);
      assert s[i..j] == [s[i]] + s[i + 1..j];
      j
    else i
  }

  /** What one `stream >> value` into an int does: the value read, or a
      failure, and in both cases where reading stopped. */
  datatype Extraction = Extracted(value: int, next: nat) | Failed(next: nat)

  /** Where the digits start once the white space before them ends at a:
      one '+' or '-' may come first. */
  function SignEnd(s: string, a: nat): (b: nat)
    requires a <= |s|
    ensures a <= b <= |s| && b <= a + 1
    ensures b == a + 1 <==> a < |s| && (s[a] == '+' || s[a] == '-')
  {
    if a < |s| && (s[a] == '+' || s[a] == '-') then a + 1 else a
  }

  /** The number a run of digits stands for, negated after a '-'. */
  function SignedValue(minus: bool, digits: string): int
    requires AllDigits(digits)
  {
    var magnitude: int := DigitsValue(digits);
    if minus then -magnitude else magnitude
  }

  /** `operator>>` into an int, reading from position i: leading white
      space is skipped, then an optional sign and the longest run of decimal
      digits are read. It fails when there is no digit, and when the number
      does not fit in an int. */
  function Extract(s: string, i: nat): (r: Extraction)
    requires i <= |s|
    ensures i <= r.next <= |s|
    ensures r.next == |s| || !IsDigit(s[r.next])
    ensures r.Extracted? ==> IsInt32(r.value) && r.next > i && IsDigit(s[r.next - 1])
    ensures var a := SkipSpace(s, i); var b := SignEnd(s, a);
      r.Extracted? ==> b < r.next && AllDigits(s[b..r.next])
                       && r.value == SignedValue(b > a && s[a] == '-', s[b..r.next])
    ensures var b := SignEnd(s, SkipSpace(s, i));
      (b == |s| || !IsDigit(s[b])) ==> r == Failed(b)
  {
    var a := SkipSpace(s, i);
    var b := SignEnd(s, a);
    var c := DigitsEnd(s, b);
    if c == b then Failed(b)
    else
      assert IsDigit(s[b..c][c - 1 - b]);
      var v := SignedValue(b > a && s[a] == '-', s[b..c]);
      if IsInt32(v) then Extracted(v, c) else Failed(c)
  }

  /** The digit run from i ends at j when s[i..j] are digits and s[j] is not. */
  lemma {:induction false} DigitsEndAt(s: string, i: nat, j: nat)
    requires i <= j <= |s| && AllDigits(s[i..j])
    requires j < |s| ==> !IsDigit(s[j])
    ensures DigitsEnd(s, i) == j
    decreases j - i
  {
    if i < j {
      assert s[i..j][0] == s[i];
      assert s[i + 1..j] == s[i..j][1..];
      DigitsEndAt(s, i + 1, j);
    }
  }

  /** Reading back what std::to_string writes: every int written in decimal
      and followed by anything but a digit is read as itself, and reading
      stops right after it. */
  lemma ExtractIntToString(v: int, rest: string)
    requires IsInt32(v)
    requires rest != [] ==> !IsDigit(rest[0])
    ensures Extract(IntToString(v) + rest, 0) == Extracted(v, |IntToString(v)|)
  {
    var t := IntToString(v);
    var s := t + rest;
    var digits := NatToString(if v < 0 then -v else v);
    NatToStringValue(if v < 0 then -v else v);
    assert s[0] == t[0];
    assert !IsSpace(s[0]);
    var b := if v < 0 then 1 else 0;
    assert s[b..|t|] == t[b..] == digits;
    assert |t| < |s| ==> s[|t|] == rest[0];
    DigitsEndAt(s, b, |t|);
  }
}
