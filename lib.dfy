/**
 * The shared helpers of the timer (lib.ts): zero padding, `MM:SS` and
 * `HH:MM` formatting, the session context and the progress calculator.
 *
 * Timestamps are integer milliseconds. The length of a minute is a
 * parameter of the progress calculator, because the front ends shorten it
 * to one second in their debug runs; the formatting here uses the fixed
 * constants of lib.ts.
 */
module Lib {
  import opened Wrappers
  import opened Decimal
  import opened Phases

  const SECOND: nat := 1000
  const MINUTE: nat := 60 * SECOND

  /**
   * JavaScript's one-argument `s.substr(start)`: always a suffix of s. A
   * non-negative start drops that many characters (all of them when start
   * is past the end); a negative start keeps that many from the end (all of
   * s when it asks for more).
   */
  function Substr(s: string, start: int): (r: string)
    ensures |r| <= |s| && r == s[|s| - |r|..]
    ensures start >= 0 ==> |r| == if start <= |s| then |s| - start else 0
    ensures start < 0 ==> |r| == if -start <= |s| then -start else |s|
  {
    var from := if start < 0 then (if |s| + start < 0 then 0 else |s| + start)
                else if start > |s| then |s| else start;
    s[from..]
  }

  /**
   * lib.ts `pad`: a number below 10^size is rendered through the nine-zero
   * prefix and cut to its last `size` characters; a larger one is returned
   * as it is and so rendered in full.
   */
  function Pad(num: nat, size: nat): (r: string)
    ensures AllDigits(r)
  {
    if num >= Pow10(size) then Digits(num)
    else
      var s := Zeros(9) + Digits(num);
      Substr(s, |s| - size)
  }

  /** A number that fits is left-padded with zeros to exactly `size` digits denoting it. */
  lemma PadFits(num: nat, size: nat)
    requires 1 <= size <= 10 && num < Pow10(size)
    ensures |Digits(num)| <= size
    ensures Pad(num, size) == Zeros(size - |Digits(num)|) + Digits(num)
    ensures |Pad(num, size)| == size && AllDigits(Pad(num, size)) && Value(Pad(num, size)) == num
  {
    var d := Digits(num);
    DigitsFit(num, size);
    PaddedSuffix(d, size);
    ValueIgnoresLeadingZeros(size - |d|, d);
  }

  /**
   * The last `size` characters of nine zeros and at most `size` digits are
   * zeros and then the digits, as long as the prefix covers the gap.
   */
  lemma PaddedSuffix(d: string, size: nat)
    requires |d| <= size <= 9 + |d|
    ensures Substr(Zeros(9) + d, |Zeros(9) + d| - size) == Zeros(size - |d|) + d
  {
    var s := Zeros(9) + d;
    var start := |s| - size;
    assert Substr(s, start) == s[start..];
    assert s[start..] == Zeros(9)[start..] + d;
    assert Zeros(9)[start..] == Zeros(size - |d|);
  }

  /** A number too wide for `size` digits is not truncated: all its digits appear. */
  lemma PadOverflows(num: nat, size: nat)
    requires num >= Pow10(size)
    ensures Pad(num, size) == Digits(num)
    ensures |Pad(num, size)| > size && Value(Pad(num, size)) == num
  {
    if size == 0 {
    } else {
      DigitsFit(num, size);
    }
  }

  /** Whole minutes of a duration in milliseconds. */
  function MinutesOf(millis: nat): nat {
    millis / MINUTE
  }

  /** Whole seconds left over after the whole minutes. */
  function SecondsOf(millis: nat): nat {
    (millis % MINUTE) / SECOND
  }

  /** lib.ts `formatMillis`: `MM:SS` for a non-negative number of milliseconds. */
  function FormatMillis(millis: nat): string {
    Pad(MinutesOf(millis), 2) + ":" + Pad(SecondsOf(millis), 2)
  }

  /**
   * The minutes and seconds shown are the whole minutes and the whole
   * seconds left over: together they are `millis` rounded down to a second.
   */
  lemma MinutesAndSeconds(millis: nat)
    ensures SecondsOf(millis) < 60
    ensures MinutesOf(millis) * MINUTE + SecondsOf(millis) * SECOND <= millis
    ensures millis < MinutesOf(millis) * MINUTE + SecondsOf(millis) * SECOND + SECOND
  {
    var m, rest := millis / MINUTE, millis % MINUTE;
    assert millis == m * MINUTE + rest;
    var s, sub := rest / SECOND, rest % SECOND;
    assert rest == s * SECOND + sub;
  }

  /**
   * Under 100 minutes the result is `MM:SS`: five characters with the colon
   * in the middle, two digits denoting the minutes and two the seconds.
   */
  lemma FormatMillisShort(millis: nat)
    requires MinutesOf(millis) < 100
    ensures |FormatMillis(millis)| == 5 && FormatMillis(millis)[2] == ':'
    ensures AllDigits(FormatMillis(millis)[..2]) && Value(FormatMillis(millis)[..2]) == MinutesOf(millis)
    ensures AllDigits(FormatMillis(millis)[3..]) && Value(FormatMillis(millis)[3..]) == SecondsOf(millis)
  {
    MinutesAndSeconds(millis);
    PadFits(MinutesOf(millis), 2);
    PadFits(SecondsOf(millis), 2);
    var r := FormatMillis(millis);
    assert r[..2] == Pad(MinutesOf(millis), 2);
    assert r[3..] == Pad(SecondsOf(millis), 2);
  }

  /** From 100 minutes on, the minutes are printed in full before `:SS`. */
  lemma FormatMillisLong(millis: nat)
    requires MinutesOf(millis) >= 100
    ensures |FormatMillis(millis)| > 5
    ensures FormatMillis(millis) == Digits(MinutesOf(millis)) + ":" + Pad(SecondsOf(millis), 2)
    ensures Value(Digits(MinutesOf(millis))) == MinutesOf(millis)
  {
    MinutesAndSeconds(millis);
    PadOverflows(MinutesOf(millis), 2);
    PadFits(SecondsOf(millis), 2);
  }

  /** lib.ts `formatTime`: `HH:MM` of a wall-clock hour and minute. */
  function FormatTime(hour: nat, minute: nat): string {
    Pad(hour, 2) + ":" + Pad(minute, 2)
  }

  /** Any time of day is rendered as five characters, `HH:MM`, denoting the hour and the minute. */
  lemma FormatTimeLayout(hour: nat, minute: nat)
    requires hour < 24 && minute < 60
    ensures |FormatTime(hour, minute)| == 5 && FormatTime(hour, minute)[2] == ':'
    ensures AllDigits(FormatTime(hour, minute)[..2]) && Value(FormatTime(hour, minute)[..2]) == hour
    ensures AllDigits(FormatTime(hour, minute)[3..]) && Value(FormatTime(hour, minute)[3..]) == minute
  {
    PadFits(hour, 2);
    PadFits(minute, 2);
    var r := FormatTime(hour, minute);
    assert r[..2] == Pad(hour, 2);
    assert r[3..] == Pad(minute, 2);
  }

  /** 9:09 is shown as "09:09". */
  lemma FormatTimeExample()
    ensures FormatTime(9, 9) == "09:09"
  {
    PadFits(9, 2);
    assert Digits(9) == ['9'];
    assert Zeros(1) == ['0'];
  }

  /** lib.ts `PomodoroContext`: the durations in minutes and the start of the running interval. */
  datatype Context = Context(workDuration: nat, breakDuration: nat, startTime: Option<int>)

  /** A machine's current state together with its context, as the interpreters of both front ends hold them. */
  datatype State = State(phase: Phase, context: Context)

  /** Durations the progress calculator can divide by. */
  predicate ValidDurations(c: Context) {
    c.workDuration > 0 && c.breakDuration > 0
  }

  /** Remaining milliseconds and the fraction of the interval still to go. */
  datatype Progress = Progress(millis: int, percent: real)

  function Max(a: real, b: real): real {
    if a >= b then a else b
  }

  /** The duration in minutes of the interval a state name times. */
  function DurationOf(state: string, c: Context): nat {
    if state == "work" then c.workDuration else c.breakDuration
  }

  /**
   * lib.ts `getProgress`: only the "work" and "break" states with a start
   * time have a progress. Outside them the result is undefined, and inside
   * them without a start time the function falls off its end, which is
   * undefined too.
   */
  function GetProgress(minute: nat, state: string, c: Context, now: int): (r: Option<Progress>)
    requires minute > 0
    requires state == "work" ==> c.workDuration > 0
    requires state == "break" ==> c.breakDuration > 0
    ensures r.Some? <==> (state == "work" || state == "break") && c.startTime.Some?
    ensures r.Some? ==> r.value.percent >= 0.0
    ensures r.Some? && now >= c.startTime.value ==> r.value.percent <= 1.0
    ensures r.Some? ==> (r.value.percent == 0.0 <==> r.value.millis <= 0)
    ensures r.Some? ==> (r.value.percent == 0.0 <==> now - c.startTime.value >= DurationOf(state, c) * minute)
    ensures r.Some? ==> r.value.millis == DurationOf(state, c) * minute - (now - c.startTime.value)
    ensures r.Some? ==> r.value.percent == Max(r.value.millis as real / (DurationOf(state, c) * minute) as real, 0.0)
  {
    if state == "work" || state == "break" then
      var duration := if state == "work" then c.workDuration else c.breakDuration;
      if c.startTime.Some? then
        var difference := now - c.startTime.value;
        var minutesPassed := difference as real / minute as real;
        var percent := Max(1.0 - minutesPassed / duration as real, 0.0);
        ElapsedRatio(difference, minute, duration);
        Some(Progress(duration * minute - difference, percent))
      else
        None
    else
      None
  }

  /**
   * The elapsed share of an interval reaches 1 exactly when the elapsed
   * time reaches its length, and one minus that share is the share of the
   * interval still to go.
   */
  lemma ElapsedRatio(difference: int, minute: nat, duration: nat)
    requires minute > 0 && duration > 0
    ensures (difference as real / minute as real) / duration as real >= 1.0 <==> difference >= duration * minute
    ensures difference >= 0 ==> (difference as real / minute as real) / duration as real >= 0.0
    ensures 1.0 - (difference as real / minute as real) / duration as real
         == (duration * minute - difference) as real / (duration * minute) as real
  {
    var d, m, n := difference as real, minute as real, duration as real;
    var b := m * n;
    assert (d / m) / n == d / b;
    assert (duration * minute) as real == b;
    QuotientAtLeastOne(d, b);
    if difference >= 0 {
      assert d / b >= 0.0;
    }
    RemainingShare(d, b);
  }

  lemma RemainingShare(d: real, b: real)
    requires b > 0.0
    ensures 1.0 - d / b == (b - d) / b
  {
    assert b / b == 1.0;
    assert (b - d) / b == b / b - d / b;
  }

  lemma QuotientAtLeastOne(a: real, b: real)
    requires b > 0.0
    ensures a / b >= 1.0 <==> a >= b
  {
    var x := a / b;
    assert a == x * b;
    if x >= 1.0 {
      assert x * b >= 1.0 * b;
    } else {
      assert x * b < 1.0 * b;
    }
  }

  /**
   * Progress is a pure function of absolute timestamps: the remaining time
   * falls by exactly the time that passed and starts at the full interval,
   * so it strictly decreases as `now` grows, and the fraction never grows.
   */
  lemma {:induction false} ProgressDrains(minute: nat, state: string, c: Context, now: int, later: int)
    requires minute > 0 && ValidDurations(c)
    requires (state == "work" || state == "break") && c.startTime.Some?
    requires now < later
    ensures GetProgress(minute, state, c, c.startTime.value).value.millis == DurationOf(state, c) * minute
    ensures GetProgress(minute, state, c, later).value.millis
         == GetProgress(minute, state, c, now).value.millis - (later - now)
    ensures GetProgress(minute, state, c, later).value.millis < GetProgress(minute, state, c, now).value.millis
    ensures GetProgress(minute, state, c, later).value.percent <= GetProgress(minute, state, c, now).value.percent
  {
    var b := (DurationOf(state, c) * minute) as real;
    var p1 := GetProgress(minute, state, c, now).value;
    var p2 := GetProgress(minute, state, c, later).value;
    assert p2.millis as real <= p1.millis as real;
    DivideMonotone(p2.millis as real, p1.millis as real, b);
  }

  lemma DivideMonotone(x: real, y: real, b: real)
    requires x <= y && b > 0.0
    ensures x / b <= y / b
  {
  }
}
