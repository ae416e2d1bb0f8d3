/** philo/src/condition.c: the two locked queries and the release of both forks. */
module Condition {
  import opened PhiloData

  method IsState(t: Table, target: SimState) returns (r: bool)
    ensures r <==> t.simState == target
  {
    r := t.simState == target;
  }

  method IsDead(t: Table) returns (r: bool)
    ensures r == t.isDead
  {
    r := t.isDead;
  }

  /** Puts back the second fork taken and then the first: even ids release left then right,
      odd ids right then left.  No other fork changes. */
  method ReleaseBothForks(t: Table, i: int)
    requires t.Valid() && 0 <= i < t.numPhilos
    modifies t.forks, t`history
    ensures t.Valid()
    ensures t.forks[..] == Released(old(t.forks[..]), t.philos[i])
    ensures t.history == old(t.history) + [(SecondFork(t.philos[i]), Free), (FirstFork(t.philos[i]), Free)]
  {
    SeatOf(t, i);
    var p := t.philos[i];
    var first, second := if p.id % 2 == 0 then p.leftFork else p.rightFork,
                         if p.id % 2 == 0 then p.rightFork else p.leftFork;
    t.WriteFork(first, Free);
    t.WriteFork(second, Free);
  }
}
