/** src/utils.c: the clock, the polling sleep with its three-tier pause written inline, the
    elapsed time and the unguarded ft_atoi. */
module SrcUtils {
  import opened CStrings
  import Clock

  /** -1 when gettimeofday fails, otherwise the reading in milliseconds. */
  function GetTime(clockOk: bool, sec: int, usec: nat): (ms: int)
    ensures !clockOk ==> ms == -1
    ensures clockOk && usec < 1_000_000 ==> ms / 1000 == sec && ms % 1000 == usec / 1000
  {
    if clockOk then Clock.Millis(sec, usec) else -1
  }

  /** Skips white space, reads at most one sign and accumulates digits up to the first
      non-digit; a string with no digits there reads as 0. */
  method FtAtoi(s: string) returns (r: int)
    ensures r == AtoiValue(s)
    ensures Digits(s) == [] ==> r == 0
  {
    var i, sign := SkipSignPrefix(s);
    var start := i;
    var result := 0;
    assert s[start..start] == [];
    while i < |s| && IsDigit(s[i])
      invariant start <= i <= |s| && DigitsEnd(s, i) == DigitsEnd(s, start)
      invariant AllDigits(s[start..i]) && result == Value(s[start..i])
    {
      DigitStep(s, start, i);
      result := result * 10 + DigitValue(s[i]);
      i := i + 1;
    }
    r := result * sign;
  }

  /** Milliseconds from `startTime` to `now`. */
  function TimeElapsed(startTime: int, now: int): (e: int)
    ensures startTime + e == now
  {
    now - startTime
  }

  /** The pause, in microseconds, that ft_usleep takes with `remaining` milliseconds to go. */
  function Pause(remaining: int): (us: int)
  {
    if remaining > 50 then 500 else if remaining > 10 then 200 else 50
  }

  /** The pause never outlasts the time still to wait, and a longer wait never gets a
      shorter pause. */
  lemma PauseBounds(remaining: int, more: int)
    requires 1 <= remaining <= more
    ensures Pause(remaining) < remaining * 1000
    ensures Pause(remaining) <= Pause(more)
  {
  }

  /** Polls the clock until at least `time` ms have elapsed since the first reading, pausing
      by Pause of the time still to wait after each poll that falls short.  `done`
      says whether the readings reached the exit; `pauses` are the pauses taken. */
  method FtUsleep(time: int, readings: seq<int>) returns (done: bool, pauses: seq<int>)
    requires |readings| >= 1
    ensures done <==> Clock.ExitPoll(time, readings, 1) < |readings|
    ensures |pauses| == Clock.ExitPoll(time, readings, 1) - 1
    ensures forall k :: 0 <= k < |pauses| ==>
      readings[k + 1] - readings[0] < time && pauses[k] == Pause(time - (readings[k + 1] - readings[0]))
  {
    var start := readings[0];
    var k := 1;
    pauses := [];
    while k < |readings|
      invariant 1 <= k <= Clock.ExitPoll(time, readings, 1)
      invariant |pauses| == k - 1
      invariant forall j :: 0 <= j < |pauses| ==> pauses[j] == Pause(time - (readings[j + 1] - readings[0]))
    {
      var elapsed := readings[k] - start;
      if elapsed >= time {
        return true, pauses;
      }
      pauses := pauses + [Pause(time - elapsed)];
      k := k + 1;
    }
    done := false;
  }
}
