/** philo/src/threading.c: locked queries, the meal-count update, and the address-ordered
    acquisition and release of a pair of mutexes. */
module Threading {
  import opened Base
  import opened PhiloData

  method IsState(t: Table, target: SimState) returns (r: bool)
    ensures r <==> t.simState == target
  {
    r := t.simState == target;
  }

  method IsDead(t: Table) returns (r: bool)
    ensures r == t.isDead
  {
    r := t.isDead;
  }

  /** Counts a meal and restamps the last meal only while nobody has died; reports which. */
  method UpdateMealCount(t: Table, i: int, now: int) returns (updated: bool)
    requires t.Valid() && 0 <= i < t.numPhilos
    modifies t.philos
    ensures t.Valid()
    ensures updated == !t.isDead
    ensures t.philos[..] == if updated
      then old(t.philos[..])[i := old(t.philos[i]).(eatCount := old(t.philos[i]).eatCount + 1, lastEatTime := now)]
      else old(t.philos[..])
  {
    var dead := IsDead(t);
    if !dead {
      t.philos[i] := t.philos[i].(eatCount := t.philos[i].eatCount + 1, lastEatTime := now);
      updated := true;
    } else {
      updated := false;
    }
  }

  /** The two lock calls: the lower address first, whatever the argument order. */
  function BidirectionalLock(m1: int, m2: int): (trace: seq<LockAction>)
    ensures |trace| == 2 && trace[0].Lock? && trace[1].Lock?
    ensures trace[0].m <= trace[1].m
    ensures multiset{trace[0].m, trace[1].m} == multiset{m1, m2}
  {
    if m1 < m2 then [Lock(m1), Lock(m2)] else [Lock(m2), Lock(m1)]
  }

  /** The two unlock calls: the higher address first. */
  function BidirectionalUnlock(m1: int, m2: int): (trace: seq<LockAction>)
    ensures |trace| == 2 && trace[0].Unlock? && trace[1].Unlock?
    ensures trace[0].m >= trace[1].m
    ensures multiset{trace[0].m, trace[1].m} == multiset{m1, m2}
  {
    if m1 < m2 then [Unlock(m2), Unlock(m1)] else [Unlock(m1), Unlock(m2)]
  }

  /** Both orders of the arguments give the same calls, and the unlocks undo the locks in
      reverse order. */
  lemma LockPairOrder(m1: int, m2: int)
    ensures BidirectionalLock(m1, m2) == BidirectionalLock(m2, m1)
    ensures BidirectionalUnlock(m1, m2) == BidirectionalUnlock(m2, m1)
    ensures BidirectionalUnlock(m1, m2) == [Unlock(BidirectionalLock(m1, m2)[1].m), Unlock(BidirectionalLock(m1, m2)[0].m)]
  {
  }
}
