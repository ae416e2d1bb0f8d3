/** philo/src/forks.c: fork queries and takes that do not consult the death flag, the
    parity-ordered two-fork acquisition with rollback, and the reverse-order release. */
module Forks {
  import opened Base
  import opened PhiloData
  import Status
  import Condition

  method CanTakeFork(t: Table, k: int) returns (canTake: bool)
    requires 0 <= k < t.forks.Length
    ensures canTake <==> t.forks[k].state == Available
  {
    canTake := t.forks[k].state == Available;
  }

  /** Takes fork `k` exactly when it is available, whatever the death flag says; a fork in use
      is left untouched. */
  method TakeForkSafe(t: Table, i: int, k: int, now: int) returns (taken: bool)
    requires t.Valid() && 0 <= i < t.numPhilos && 0 <= k < t.numPhilos
    modifies t.forks, t`log, t`history
    ensures t.Valid()
    ensures taken <==> old(t.forks[k].state) == Available
    ensures t.forks[..] == if taken then old(t.forks[..])[k := Fork(InUse, t.philos[i].id)] else old(t.forks[..])
    ensures t.history == old(t.history) + if taken then [(k, Fork(InUse, t.philos[i].id))] else []
    ensures t.log == old(t.log) + if taken then [Line(now - t.startTime, t.philos[i].id, TookFork)] else []
  {
    if t.forks[k].state == Available {
      t.WriteFork(k, Fork(InUse, t.philos[i].id));
      Status.PrintStatus(t, i, TookFork, now);
      taken := true;
    } else {
      taken := false;
    }
  }

  /** Returns 0 at once when somebody has died; a lone philosopher takes its only fork, asks for
      a `time_to_die + 1` wait and never gets a second one; otherwise the two-fork attempt
      decides. */
  method CheckAndTakeBothForksSafe(t: Table, i: int, now: int) returns (ok: bool, wait: int)
    requires t.Valid() && 0 <= i < t.numPhilos
    modifies t.forks, t`log, t`history
    ensures t.Valid()
    ensures ok <==> !t.isDead && !t.singlePhilo && BothFree(old(t.forks[..]), t.philos[i])
    ensures t.forks[..] == SafeAttempt(old(t.forks[..]), t.philos[i], t.isDead, t.singlePhilo)
    ensures t.history == old(t.history) + SafeWrites(old(t.forks[..]), t.philos[i], t.isDead, t.singlePhilo)
    ensures t.log == old(t.log) + SafeLines(old(t.forks[..]), t.philos[i], t.isDead, t.singlePhilo, now - t.startTime)
    ensures wait == if !t.isDead && t.singlePhilo then t.timeToDie + 1 else 0
  {
    SeatOf(t, i);
    var dead := Condition.IsDead(t);
    if dead {
      return false, 0;
    }
    if t.singlePhilo {
      var p := t.philos[i];
      var _ := TakeForkSafe(t, i, p.leftFork, now);
      return false, t.timeToDie + 1;
    }
    ok := CheckAndTakeBothForks(t, i, now);
    wait := 0;
  }

  /** Even ids take the right fork first, odd ids the left one.  When the second fork cannot be
      taken the first is put back, so the philosopher never ends up holding just one fork. */
  method CheckAndTakeBothForks(t: Table, i: int, now: int) returns (ok: bool)
    requires t.Valid() && 0 <= i < t.numPhilos
    modifies t.forks, t`log, t`history
    ensures t.Valid()
    ensures ok <==> BothFree(old(t.forks[..]), t.philos[i])
    ensures t.forks[..] == AfterAttempt(old(t.forks[..]), t.philos[i])
    ensures t.history == old(t.history) + AttemptWrites(old(t.forks[..]), t.philos[i])
    ensures t.log == old(t.log) + AttemptLines(old(t.forks[..]), t.philos[i], now - t.startTime)
  {
    SeatOf(t, i);
    var p := t.philos[i];
    var first, second := if p.id % 2 == 0 then p.rightFork else p.leftFork,
                         if p.id % 2 == 0 then p.leftFork else p.rightFork;
    var gotFirst := TakeForkSafe(t, i, first, now);
    if !gotFirst {
      return false;
    }
    var gotSecond := TakeForkSafe(t, i, second, now);
    if !gotSecond {
      t.WriteFork(first, Free);
      return false;
    }
    return true;
  }

  /** Even ids put back left then right, odd ids right then left; no other fork changes. */
  method ReleaseBothForks(t: Table, i: int)
    requires t.Valid() && 0 <= i < t.numPhilos
    modifies t.forks, t`history
    ensures t.Valid()
    ensures t.forks[..] == Released(old(t.forks[..]), t.philos[i])
    ensures t.history == old(t.history) + [(SecondFork(t.philos[i]), Free), (FirstFork(t.philos[i]), Free)]
  {
    SeatOf(t, i);
    var p := t.philos[i];
    var first, second := if p.id % 2 == 0 then p.leftFork else p.rightFork,
                         if p.id % 2 == 0 then p.rightFork else p.leftFork;
    t.WriteFork(first, Free);
    t.WriteFork(second, Free);
  }
}
