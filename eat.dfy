/** philo/src/eat.c: one meal (take both forks, eat, put them back), the "everyone has eaten
    enough" test and the completion announcement. */
module Eat {
  import opened Base
  import opened PhiloData
  import Status
  import Threading
  import ForkUtils
  import ForkExtra

  /** A meal takes place exactly when nobody has died, there is more than one philosopher and
      both of the philosopher's forks are free at the start. */
  predicate Eats(t: Table, fs: seq<Fork>, i: int)
    reads t, t.philos
    requires t.Valid() && 0 <= i < t.numPhilos && |fs| == t.numPhilos
  {
    SeatOf(t, i);
    !t.isDead && !t.singlePhilo && BothFree(fs, t.philos[i])
  }

  /** After a meal the philosopher is eating, its last meal is `now`, its count has grown by one
      and both forks are back; the trace shows the two takes and the "is eating" line, the
      fork history the two takes and the two releases, and the meal asks for a `time_to_eat`
      wait.  When no meal takes place the philosopher's record is untouched and the outcome is
      that of the guarded acquisition, wait included.  On a consistent table with more than one
      seat the fork table ends exactly as it began. */
  method Eat(t: Table, i: int, now: int) returns (wait: int)
    requires t.Valid() && 0 <= i < t.numPhilos
    modifies t.forks, t.philos, t`log, t`history
    ensures t.Valid()
    ensures Eats(t, old(t.forks[..]), i) ==>
      var p := old(t.philos[i]);
      t.philos[..] == old(t.philos[..])[i := p.(state := Eating, lastEatTime := now, eatCount := p.eatCount + 1)]
      && t.forks[..] == Released(Acquired(old(t.forks[..]), p), p)
      && t.history == old(t.history) + AttemptWrites(old(t.forks[..]), p) + [(SecondFork(p), Free), (FirstFork(p), Free)]
      && t.log == old(t.log) + [Line(now - t.startTime, p.id, TookFork), Line(now - t.startTime, p.id, TookFork),
                                Line(now - t.startTime, p.id, StartedEating)]
      && wait == t.timeToEat
    ensures !Eats(t, old(t.forks[..]), i) ==>
      t.philos[..] == old(t.philos[..])
      && t.forks[..] == SafeAttempt(old(t.forks[..]), t.philos[i], t.isDead, t.singlePhilo)
      && t.history == old(t.history) + SafeWrites(old(t.forks[..]), t.philos[i], t.isDead, t.singlePhilo)
      && t.log == old(t.log) + SafeLines(old(t.forks[..]), t.philos[i], t.isDead, t.singlePhilo, now - t.startTime)
      && wait == if !t.isDead && t.singlePhilo then t.timeToDie + 1 else 0
    ensures !t.singlePhilo && ForksConsistent(old(t.forks[..])) ==> t.forks[..] == old(t.forks[..])
  {
    SeatOf(t, i);
    ghost var fs := t.forks[..];
    var ok;
    ok, wait := CheckAndTakeBothForksSafe(t, i, now);
    if !ok {
      if !t.isDead && !t.singlePhilo && ForksConsistent(fs) {
        AttemptBothOrNothing(fs, t.philos[i]);
      }
      return;
    }
    var p := t.philos[i];
    t.philos[i] := p.(state := Eating);
    Status.PrintStatus(t, i, StartedEating, now);
    t.philos[i] := t.philos[i].(lastEatTime := now);
    wait := t.timeToEat;
    t.philos[i] := t.philos[i].(eatCount := t.philos[i].eatCount + 1);
    assert t.Valid();
    ForkExtra.ReleaseBothForks(t, i);
    if ForksConsistent(fs) {
      AcquireReleaseRoundTrip(fs, p);
    }
  }

  /** eat.c's own copy of the guarded acquisition, identical to fork_extra.c's: a lone
      philosopher also asks for a `time_to_die + 1` wait before reporting failure. */
  method CheckAndTakeBothForksSafe(t: Table, i: int, now: int) returns (ok: bool, wait: int)
    requires t.Valid() && 0 <= i < t.numPhilos
    modifies t.forks, t`log, t`history
    ensures t.Valid()
    ensures ok <==> !t.isDead && !t.singlePhilo && BothFree(old(t.forks[..]), t.philos[i])
    ensures t.forks[..] == SafeAttempt(old(t.forks[..]), t.philos[i], t.isDead, t.singlePhilo)
    ensures t.history == old(t.history) + SafeWrites(old(t.forks[..]), t.philos[i], t.isDead, t.singlePhilo)
    ensures t.log == old(t.log) + SafeLines(old(t.forks[..]), t.philos[i], t.isDead, t.singlePhilo, now - t.startTime)
    ensures wait == if !t.isDead && t.singlePhilo then t.timeToDie + 1 else 0
  {
    SeatOf(t, i);
    var dead := Threading.IsDead(t);
    if dead {
      return false, 0;
    }
    if t.singlePhilo {
      var p := t.philos[i];
      var _ := ForkUtils.TakeForkSafe(t, i, p.leftFork, now);
      return false, t.timeToDie + 1;
    }
    ok := ForkUtils.CheckAndTakeBothForks(t, i, now);
    wait := 0;
  }

  /** False when no meal target was given (a negative `must_eat`); otherwise true exactly when
      every philosopher has eaten at least `must_eat` times.  The scan stops at the first
      philosopher still short of the target. */
  method CheckAllAte(t: Table) returns (allAte: bool)
    requires t.Valid()
    ensures allAte <==> t.mustEat >= 0 && EveryoneAte(t.philos[..], t.mustEat)
  {
    if t.mustEat < 0 {
      return false;
    }
    var j := 0;
    allAte := true;
    while j < t.numPhilos
      invariant 0 <= j <= t.numPhilos
      invariant forall k :: 0 <= k < j ==> t.philos[k].eatCount >= t.mustEat
    {
      if t.philos[j].eatCount < t.mustEat {
        allAte := false;
        break;
      }
      j := j + 1;
    }
  }

  /** Announces completion with the elapsed time and moves the simulation to COMPLETED; the
      death flag is left as it was. */
  method HandleMealCompletion(t: Table, now: int)
    modifies t`log, t`simState, t`isDead
    ensures t.log == old(t.log) + [Completion(now - t.startTime, "All philosophers have eaten enough")]
    ensures t.simState == Completed && t.isDead == old(t.isDead)
  {
    t.log := t.log + [Completion(now - t.startTime, "All philosophers have eaten enough")];
    var _ := Status.SetSimulationState(t, Completed);
  }
}
