/** time.c of the root variant: the millisecond clock, the starvation test and smart_sleep,
    which polls both the simulation state and the clock. */
module TimeC {
  import opened RootData
  import Clock
  import Monitor

  /** -1 when gettimeofday fails, otherwise the reading in milliseconds. */
  function GetTimeInMs(clockOk: bool, sec: int, usec: nat): (ms: int)
    ensures !clockOk ==> ms == -1
    ensures clockOk && usec < 1_000_000 ==> ms / 1000 == sec && ms % 1000 == usec / 1000
  {
    if clockOk then Clock.Millis(sec, usec)
    else -1
  }

  function TimeDiffMs(endTime: int, startTime: int): (d: int)
    ensures startTime + d == endTime
  {
    endTime - startTime
  }

  /** Strictly more than `time_to_die` milliseconds since the last meal. */
  predicate IsPhilosopherDead(p: Philosopher, timeToDie: int, now: int): (dead: bool)
    ensures dead <==> now > p.lastMealTime + timeToDie
  {
    TimeDiffMs(now, p.lastMealTime) > timeToDie
  }

  /** The monitor's scan in files/monitor.c applies this test: the philosopher it declares dead
      is the first one for whom is_philosopher_dead holds, and it declares nobody dead exactly
      when the test holds for nobody. */
  lemma ScanSelectsFirstDead(ps: seq<Philosopher>, timeToDie: int, now: int)
    ensures var fs := Monitor.FirstStarving(ps, timeToDie, now, 0);
      (fs.None? <==> forall k :: 0 <= k < |ps| ==> !IsPhilosopherDead(ps[k], timeToDie, now))
      && (fs.Some? ==> IsPhilosopherDead(ps[fs.value], timeToDie, now)
                       && forall k :: 0 <= k < fs.value ==> !IsPhilosopherDead(ps[k], timeToDie, now))
  {
  }

  /** The pause, in microseconds, with `remaining` milliseconds to go: a whole millisecond
      while more than 5 ms remain, a tenth of one after that. */
  function Pause(remaining: int): (us: int)
    ensures us == 100 || us == 1000
    ensures us == 1000 <==> remaining > 5
  {
    if remaining > 5 then 1000 else 100
  }

  /** One turn of smart_sleep's loop: the simulation state it read and, when that state was
      RUNNING, the clock reading taken after it. */
  datatype Poll = Poll(state: RootState, clock: int)

  /** A poll ends the sleep when the simulation has left RUNNING or `time` ms have elapsed
      since `start`. */
  predicate Ends(time: int, start: int, q: Poll)
  {
    q.state != Running || q.clock - start >= time
  }

  /** The index of the first poll at or after `from` that ends the sleep, or |polls|. */
  function SmartExit(time: int, start: int, polls: seq<Poll>, from: nat): (k: nat)
    requires from <= |polls|
    ensures from <= k <= |polls|
    ensures forall j :: from <= j < k ==> !Ends(time, start, polls[j])
    ensures k < |polls| ==> Ends(time, start, polls[k])
    decreases |polls| - from
  {
    if from == |polls| then from
    else if Ends(time, start, polls[from]) then from
    else SmartExit(time, start, polls, from + 1)
  }

  /** Polls until the simulation stops running or `time` ms have elapsed since the reading
      `start`, pausing by Pause of the time still to wait after every poll that ends
      nothing.  `done` says whether the polls reached the exit; `pauses` are the pauses. */
  method SmartSleep(time: int, start: int, polls: seq<Poll>) returns (done: bool, pauses: seq<int>)
    ensures done <==> SmartExit(time, start, polls, 0) < |polls|
    ensures |pauses| == SmartExit(time, start, polls, 0)
    ensures forall k :: 0 <= k < |pauses| ==>
      polls[k].state == Running && polls[k].clock - start < time
      && pauses[k] == Pause(time - (polls[k].clock - start))
  {
    var k := 0;
    pauses := [];
    while k < |polls|
      invariant 0 <= k <= SmartExit(time, start, polls, 0)
      invariant |pauses| == k
      invariant forall j :: 0 <= j < k ==> pauses[j] == Pause(time - (polls[j].clock - start))
    {
      if polls[k].state != Running {
        return true, pauses;
      }
      var elapsed := TimeDiffMs(polls[k].clock, start);
      if elapsed >= time {
        return true, pauses;
      }
      pauses := pauses + [Pause(time - elapsed)];
      k := k + 1;
    }
    done := false;
  }

  function Clocks(polls: seq<Poll>): (r: seq<int>)
    ensures |r| == |polls| && forall j :: 0 <= j < |polls| ==> r[j] == polls[j].clock
  {
    if polls == [] then [] else Clocks(polls[..|polls| - 1]) + [polls[|polls| - 1].clock]
  }

  /** While the simulation keeps running, smart_sleep leaves at the same poll as a sleep that
      watches only the clock; a state change can only make it leave earlier. */
  lemma {:induction false} SmartExitMatchesClock(time: int, start: int, polls: seq<Poll>, from: nat)
    requires from <= |polls|
    ensures SmartExit(time, start, polls, from) + 1 <= Clock.ExitPoll(time, [start] + Clocks(polls), from + 1)
    ensures (forall j :: from <= j < |polls| ==> polls[j].state == Running) ==>
      SmartExit(time, start, polls, from) + 1 == Clock.ExitPoll(time, [start] + Clocks(polls), from + 1)
    decreases |polls| - from
  {
    var rs := [start] + Clocks(polls);
    if from < |polls| {
      assert rs[from + 1] == polls[from].clock && rs[0] == start;
      if !Ends(time, start, polls[from]) {
        SmartExitMatchesClock(time, start, polls, from + 1);
      }
    }
  }
}
