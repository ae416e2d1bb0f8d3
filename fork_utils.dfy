/** philo/src/fork_utils.c: fork takes that also refuse once somebody has died, the meal-time
    queries that measure from the start of the simulation before the first meal, and the
    parity-ordered two-fork acquisition. */
module ForkUtils {
  import opened Base
  import opened PhiloData
  import Status
  import Threading
  import RootThreading

  method CanTakeFork(t: Table, k: int) returns (canTake: bool)
    requires 0 <= k < t.forks.Length
    ensures canTake <==> t.forks[k].state == Available
  {
    canTake := t.forks[k].state == Available;
  }

  /** Takes fork `k` exactly when it is available and nobody has died; otherwise nothing
      changes. */
  method TakeForkSafe(t: Table, i: int, k: int, now: int) returns (taken: bool)
    requires t.Valid() && 0 <= i < t.numPhilos && 0 <= k < t.numPhilos
    modifies t.forks, t`log, t`history
    ensures t.Valid()
    ensures taken <==> old(t.forks[k].state) == Available && !t.isDead
    ensures t.forks[..] == if taken then old(t.forks[..])[k := Fork(InUse, t.philos[i].id)] else old(t.forks[..])
    ensures t.history == old(t.history) + if taken then [(k, Fork(InUse, t.philos[i].id))] else []
    ensures t.log == old(t.log) + if taken then [Line(now - t.startTime, t.philos[i].id, TookFork)] else []
  {
    var dead := Threading.IsDead(t);
    if t.forks[k].state == Available && !dead {
      t.WriteFork(k, Fork(InUse, t.philos[i].id));
      Status.PrintStatus(t, i, TookFork, now);
      taken := true;
    } else {
      taken := false;
    }
  }

  /** Milliseconds since the last meal; a `last_eat_time` of 0 means "has not eaten yet" and
      the time is measured from the start of the simulation instead. */
  function TimeSinceLastMeal(p: Philo, startTime: int, now: int): (r: int)
    ensures p.lastEatTime == 0 ==> startTime + r == now
    ensures p.lastEatTime != 0 ==> p.lastEatTime + r == now
  {
    if p.lastEatTime == 0 then now - startTime else now - p.lastEatTime
  }

  /** Starving strictly after `time_to_die` milliseconds past the last meal, or past the start
      before the first meal. */
  predicate IsTimeToDie(p: Philo, startTime: int, timeToDie: int, now: int): (dead: bool)
    ensures dead <==> now > (if p.lastEatTime == 0 then startTime else p.lastEatTime) + timeToDie
  {
    TimeSinceLastMeal(p, startTime, now) > timeToDie
  }

  /** Once a philosopher has eaten, this test and the one in the root threading.c agree; before
      the first meal they disagree: at `start_time + time_to_die` this one still grants the
      full allowance while the root one, measuring from time 0, already reports starvation. */
  lemma DeathTestsCompared(p: Philo, startTime: int, timeToDie: int, now: int)
    ensures p.lastEatTime != 0 ==>
      (IsTimeToDie(p, startTime, timeToDie, now) <==> RootThreading.IsTimeToDie(p, timeToDie, now))
    ensures p.lastEatTime == 0 && startTime > 0 ==>
      !IsTimeToDie(p, startTime, timeToDie, startTime + timeToDie)
      && RootThreading.IsTimeToDie(p, timeToDie, startTime + timeToDie)
  {
  }

  /** Parity order as in forks.c; nothing is taken once somebody has died. */
  method CheckAndTakeBothForks(t: Table, i: int, now: int) returns (ok: bool)
    requires t.Valid() && 0 <= i < t.numPhilos
    modifies t.forks, t`log, t`history
    ensures t.Valid()
    ensures ok <==> !t.isDead && BothFree(old(t.forks[..]), t.philos[i])
    ensures t.forks[..] == if t.isDead then old(t.forks[..]) else AfterAttempt(old(t.forks[..]), t.philos[i])
    ensures t.history == old(t.history) + if t.isDead then [] else AttemptWrites(old(t.forks[..]), t.philos[i])
    ensures t.log == old(t.log) + if t.isDead then [] else AttemptLines(old(t.forks[..]), t.philos[i], now - t.startTime)
  {
    SeatOf(t, i);
    var p := t.philos[i];
    var first, second := if p.id % 2 == 0 then p.rightFork else p.leftFork,
                         if p.id % 2 == 0 then p.leftFork else p.rightFork;
    var gotFirst := TakeForkSafe(t, i, first, now);
    if !gotFirst {
      return false;
    }
    var gotSecond := TakeForkSafe(t, i, second, now);
    if !gotSecond {
      t.WriteFork(first, Free);
      return false;
    }
    return true;
  }
}
