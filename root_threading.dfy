/** threading.c (the loose copy at the repository root, written against the philo/ types): the
    same queries as philo/src/threading.c, plus a fork take that keeps the fork's mutex locked
    on success and the two meal-time queries that measure from `last_eat_time`. */
module RootThreading {
  import opened Base
  import opened PhiloData
  import Status

  method IsState(t: Table, target: SimState) returns (r: bool)
    ensures r <==> t.simState == target
  {
    r := t.simState == target;
  }

  method IsDead(t: Table) returns (r: bool)
    ensures r == t.isDead
  {
    r := t.isDead;
  }

  method UpdateMealCount(t: Table, i: int, now: int) returns (updated: bool)
    requires t.Valid() && 0 <= i < t.numPhilos
    modifies t.philos
    ensures t.Valid()
    ensures updated == !t.isDead
    ensures t.philos[..] == if updated
      then old(t.philos[..])[i := old(t.philos[i]).(eatCount := old(t.philos[i]).eatCount + 1, lastEatTime := now)]
      else old(t.philos[..])
  {
    var dead := IsDead(t);
    if !dead {
      t.philos[i] := t.philos[i].(eatCount := t.philos[i].eatCount + 1, lastEatTime := now);
      updated := true;
    } else {
      updated := false;
    }
  }

  function BidirectionalLock(m1: int, m2: int): (trace: seq<LockAction>)
    ensures |trace| == 2 && trace[0].Lock? && trace[1].Lock?
    ensures trace[0].m <= trace[1].m
    ensures multiset{trace[0].m, trace[1].m} == multiset{m1, m2}
  {
    if m1 < m2 then [Lock(m1), Lock(m2)] else [Lock(m2), Lock(m1)]
  }

  function BidirectionalUnlock(m1: int, m2: int): (trace: seq<LockAction>)
    ensures |trace| == 2 && trace[0].Unlock? && trace[1].Unlock?
    ensures trace[0].m >= trace[1].m
    ensures multiset{trace[0].m, trace[1].m} == multiset{m1, m2}
  {
    if m1 < m2 then [Unlock(m2), Unlock(m1)] else [Unlock(m1), Unlock(m2)]
  }

  lemma LockPairOrder(m1: int, m2: int)
    ensures BidirectionalLock(m1, m2) == BidirectionalLock(m2, m1)
    ensures BidirectionalUnlock(m1, m2) == [Unlock(BidirectionalLock(m1, m2)[1].m), Unlock(BidirectionalLock(m1, m2)[0].m)]
  {
  }

  method CanTakeFork(t: Table, k: int) returns (r: bool)
    requires 0 <= k < t.forks.Length
    ensures r <==> t.forks[k].state == Available
  {
    r := t.forks[k].state == Available;
  }

  /** Takes fork `k` when it is available and nobody has died.  On success the fork's mutex
      stays locked for the caller to release; on failure it is unlocked again. */
  method TakeForkSafe(t: Table, i: int, k: int, now: int) returns (taken: bool)
    requires t.Valid() && 0 <= i < t.numPhilos && 0 <= k < t.numPhilos
    requires k !in t.held
    modifies t.forks, t`log, t`history, t`held
    ensures t.Valid()
    ensures taken <==> old(t.forks[k].state) == Available && !t.isDead
    ensures t.forks[..] == if taken then old(t.forks[..])[k := Fork(InUse, t.philos[i].id)] else old(t.forks[..])
    ensures t.history == old(t.history) + if taken then [(k, Fork(InUse, t.philos[i].id))] else []
    ensures t.log == old(t.log) + if taken then [Line(now - t.startTime, t.philos[i].id, TookFork)] else []
    ensures t.held == if taken then old(t.held) + {k} else old(t.held)
  {
    var dead := IsDead(t);
    if t.forks[k].state == Available && !dead {
      t.WriteFork(k, Fork(InUse, t.philos[i].id));
      Status.PrintStatus(t, i, TookFork, now);
      t.held := t.held + {k};
      taken := true;
    } else {
      taken := false;
    }
  }

  /** Milliseconds since the last meal, measured from `last_eat_time` even before the first
      meal. */
  function TimeSinceLastMeal(p: Philo, now: int): (r: int)
    ensures p.lastEatTime + r == now
  {
    now - p.lastEatTime
  }

  /** Strictly more than `time_to_die` milliseconds since the last meal. */
  predicate IsTimeToDie(p: Philo, timeToDie: int, now: int): (dead: bool)
    ensures dead <==> now > p.lastEatTime + timeToDie
  {
    TimeSinceLastMeal(p, now) > timeToDie
  }

}
