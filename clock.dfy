/** The millisecond clock every variant reads, and the exit rule shared by its polling sleeps.
    A run of the clock is a sequence of readings: the first is taken when the sleep starts and
    each later one at the next poll. */
module Clock {

  /** `tv_sec * 1000 + tv_usec / 1000` for a valid gettimeofday result: the seconds and the
      whole milliseconds of the reading can be read back from it. */
  function Millis(sec: int, usec: nat): (ms: int)
    ensures usec < 1_000_000 ==> ms / 1000 == sec && ms % 1000 == usec / 1000
  {
    var whole := usec / 1000;
    assert usec < 1_000_000 ==> 0 <= whole < 1000;
    sec * 1000 + whole
  }

  /** The index of the first poll (after the starting reading) at which at least `time`
      milliseconds have elapsed, or |readings| when no poll gets that far. */
  function ExitPoll(time: int, readings: seq<int>, from: nat): (k: nat)
    requires 1 <= from <= |readings|
    ensures from <= k <= |readings|
    ensures forall j :: from <= j < k ==> readings[j] - readings[0] < time
    ensures k < |readings| ==> readings[k] - readings[0] >= time
    decreases |readings| - from
  {
    if from == |readings| then from
    else if readings[from] - readings[0] >= time then from
    else ExitPoll(time, readings, from + 1)
  }
}
