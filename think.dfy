/** philo/src/think.c: the thinking step and the wait chosen after it. */
module Think {
  import opened Base
  import opened PhiloData
  import Status

  /** The wait adjust_think_time asks for, in milliseconds: 5 for an even ring and for an odd
      ring with a short time to die; otherwise a quarter of the time to eat for even ids and no
      wait for odd ids. */
  function ThinkWait(numPhilos: int, timeToDie: int, timeToEat: int, id: int): (wait: int)
  {
    if numPhilos % 2 == 1 then
      if timeToDie <= 410 then 5
      else if id % 2 == 0 then CDiv(timeToEat, 4)
      else 0
    else 5
  }

  /** In an odd ring with a long time to die, of any two neighbours that are not the wrap-around
      pair exactly one waits, which staggers the next attempts to eat; the wrap-around pair
      (ids n and 1, both odd) both go straight back. */
  lemma ThinkStaggers(n: int, timeToDie: int, timeToEat: int, id: int)
    requires n % 2 == 1 && timeToDie > 410 && timeToEat >= 4 && 1 <= id < n
    ensures (ThinkWait(n, timeToDie, timeToEat, id) > 0) != (ThinkWait(n, timeToDie, timeToEat, id + 1) > 0)
    ensures ThinkWait(n, timeToDie, timeToEat, n) == 0 && ThinkWait(n, timeToDie, timeToEat, 1) == 0
  {
  }

  /** Every philosopher of an even ring, and of an odd ring with a short time to die, waits the
      same 5 ms. */
  lemma ThinkWaitUniform(n: int, timeToDie: int, timeToEat: int, a: int, b: int)
    requires n % 2 == 0 || timeToDie <= 410
    ensures ThinkWait(n, timeToDie, timeToEat, a) == ThinkWait(n, timeToDie, timeToEat, b) == 5
  {
  }

  /** Nothing happens once somebody has died; otherwise the philosopher is thinking, "is
      thinking" is printed after the state change, and the wait of ThinkWait follows. */
  method PhiloThink(t: Table, i: int, now: int) returns (wait: int)
    requires t.Valid() && 0 <= i < t.numPhilos
    modifies t.philos, t`log
    ensures t.Valid()
    ensures t.isDead ==> wait == 0 && t.philos[..] == old(t.philos[..]) && t.log == old(t.log)
    ensures !t.isDead ==>
      t.philos[..] == old(t.philos[..])[i := old(t.philos[i]).(state := Thinking)]
      && t.log == old(t.log) + [Line(now - t.startTime, t.philos[i].id, StartedThinking)]
      && wait == ThinkWait(t.numPhilos, t.timeToDie, t.timeToEat, t.philos[i].id)
  {
    var dead := Status.CheckDeath(t);
    if dead {
      return 0;
    }
    t.philos[i] := t.philos[i].(state := Thinking);
    assert t.Valid();
    Status.PrintStatus(t, i, StartedThinking, now);
    wait := AdjustThinkTime(t, i);
  }

  method AdjustThinkTime(t: Table, i: int) returns (wait: int)
    requires 0 <= i < t.philos.Length
    ensures wait == ThinkWait(t.numPhilos, t.timeToDie, t.timeToEat, t.philos[i].id)
  {
    if t.numPhilos % 2 == 1 {
      if t.timeToDie <= 410 {
        wait := 5;
      } else if t.philos[i].id % 2 == 0 {
        wait := CDiv(t.timeToEat, 4);
      } else {
        wait := 0;
      }
    } else {
      wait := 5;
    }
  }
}
