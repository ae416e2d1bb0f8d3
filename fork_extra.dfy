/** philo/src/fork_extra.c: the guarded two-fork acquisition built on fork_utils.c and the
    release that puts back the first fork of the pair before the second. */
module ForkExtra {
  import opened Base
  import opened PhiloData
  import Threading
  import ForkUtils

  /** Nothing is taken once somebody has died; a lone philosopher takes its only fork (when it
      is free), asks for a `time_to_die + 1` wait and reports failure; otherwise the two-fork
      attempt of fork_utils.c decides. */
  method CheckAndTakeBothForksSafe(t: Table, i: int, now: int) returns (ok: bool, wait: int)
    requires t.Valid() && 0 <= i < t.numPhilos
    modifies t.forks, t`log, t`history
    ensures t.Valid()
    ensures ok <==> !t.isDead && !t.singlePhilo && BothFree(old(t.forks[..]), t.philos[i])
    ensures t.forks[..] == SafeAttempt(old(t.forks[..]), t.philos[i], t.isDead, t.singlePhilo)
    ensures t.history == old(t.history) + SafeWrites(old(t.forks[..]), t.philos[i], t.isDead, t.singlePhilo)
    ensures t.log == old(t.log) + SafeLines(old(t.forks[..]), t.philos[i], t.isDead, t.singlePhilo, now - t.startTime)
    ensures wait == if !t.isDead && t.singlePhilo then t.timeToDie + 1 else 0
  {
    SeatOf(t, i);
    var dead := Threading.IsDead(t);
    if dead {
      return false, 0;
    }
    if t.singlePhilo {
      var p := t.philos[i];
      var _ := ForkUtils.TakeForkSafe(t, i, p.leftFork, now);
      return false, t.timeToDie + 1;
    }
    ok := ForkUtils.CheckAndTakeBothForks(t, i, now);
    wait := 0;
  }

  /** Even ids put back left then right, odd ids right then left; no other fork changes. */
  method ReleaseBothForks(t: Table, i: int)
    requires t.Valid() && 0 <= i < t.numPhilos
    modifies t.forks, t`history
    ensures t.Valid()
    ensures t.forks[..] == Released(old(t.forks[..]), t.philos[i])
    ensures t.history == old(t.history) + [(SecondFork(t.philos[i]), Free), (FirstFork(t.philos[i]), Free)]
  {
    SeatOf(t, i);
    var p := t.philos[i];
    var first, second := if p.id % 2 == 0 then p.leftFork else p.rightFork,
                         if p.id % 2 == 0 then p.rightFork else p.leftFork;
    t.WriteFork(first, Free);
    t.WriteFork(second, Free);
  }
}
