/** philo/src/sleep.c: the sleeping step. */
module Sleep {
  import opened Base
  import opened PhiloData
  import Status

  /** Nothing happens once somebody has died; otherwise the philosopher is sleeping, "is
      sleeping" is printed after the state change, and the wait asked for is the time to
      sleep. */
  method PhiloSleep(t: Table, i: int, now: int) returns (wait: int)
    requires t.Valid() && 0 <= i < t.numPhilos
    modifies t.philos, t`log
    ensures t.Valid()
    ensures t.isDead ==> wait == 0 && t.philos[..] == old(t.philos[..]) && t.log == old(t.log)
    ensures !t.isDead ==>
      t.philos[..] == old(t.philos[..])[i := old(t.philos[i]).(state := Sleeping)]
      && t.log == old(t.log) + [Line(now - t.startTime, t.philos[i].id, StartedSleeping)]
      && wait == t.timeToSleep
  {
    var dead := Status.CheckDeath(t);
    if dead {
      return 0;
    }
    t.philos[i] := t.philos[i].(state := Sleeping);
    assert t.Valid();
    Status.PrintStatus(t, i, StartedSleeping, now);
    wait := t.timeToSleep;
  }
}
