/** philo/src/philo.c: the status line that is suppressed once somebody has died, the
    lock-holding fork acquisition and release, a meal, the state accessors without the death
    coupling, the guarded completion, and one pass of each monitor loop. */
module PhiloMain {
  import opened Base
  import opened PhiloData
  import Status
  import Threading
  import RootThreading
  import ForkExtra

  /** A line is printed while nobody has died; afterwards only "died" lines get through. */
  predicate ShouldPrint(isDead: bool, msg: Msg)
  {
    !isDead || msg == Died
  }

  /** Prints one line exactly when ShouldPrint allows it, so that after a death the output can
      only grow by "died" lines. */
  method PrintStatus(t: Table, i: int, msg: Msg, now: int)
    requires 0 <= i < t.philos.Length
    modifies t`log
    ensures t.log == old(t.log) + if ShouldPrint(t.isDead, msg) then [Line(now - t.startTime, t.philos[i].id, msg)] else []
    ensures t.isDead ==> forall k :: |old(t.log)| <= k < |t.log| ==> t.log[k].Line? && t.log[k].msg == Died
  {
    if !t.isDead || msg == Died {
      t.log := t.log + [Line(now - t.startTime, t.philos[i].id, msg)];
    }
  }

  /** The file's own reading of the death flag. */
  method CheckDeath(t: Table) returns (dead: bool)
    ensures dead == t.isDead
  {
    dead := t.isDead;
  }

  /** Takes the first fork of the parity order and then the second, keeping each fork's mutex
      locked once taken.  `deathMeanwhile` stands for another thread raising the death flag
      between the two takes; when it does, or when the second fork is busy, the first fork is
      put back and its mutex unlocked.  The result is 1 only with both forks taken and both
      mutexes held. */
  method TakeForks(t: Table, i: int, now: int, deathMeanwhile: bool) returns (ok: bool)
    requires t.Valid() && 0 <= i < t.numPhilos && !t.singlePhilo
    requires t.philos[i].leftFork !in t.held && t.philos[i].rightFork !in t.held
    modifies t.forks, t`log, t`history, t`held, t`isDead
    ensures t.Valid()
    ensures ok <==> !old(t.isDead) && !deathMeanwhile && BothFree(old(t.forks[..]), t.philos[i])
    ensures var p := t.philos[i];
      var firstTaken := !old(t.isDead) && old(t.forks[FirstFork(p)].state) == Available;
      && t.isDead == (old(t.isDead) || (firstTaken && deathMeanwhile))
      && t.forks[..] == (if !firstTaken then old(t.forks[..])
                         else if deathMeanwhile then old(t.forks[..])[FirstFork(p) := Free]
                         else AfterAttempt(old(t.forks[..]), p))
      && t.held == old(t.held) + (if ok then {p.leftFork, p.rightFork} else {})
      && t.log == old(t.log) + (if ok then [Line(now - t.startTime, p.id, TookFork), Line(now - t.startTime, p.id, TookFork)]
                                else if firstTaken then [Line(now - t.startTime, p.id, TookFork)] else [])
      && t.history == old(t.history) + (if !firstTaken then [] else
           [(FirstFork(p), Fork(InUse, p.id)), if ok then (SecondFork(p), Fork(InUse, p.id)) else (FirstFork(p), Free)])
  {
    SeatOf(t, i);
    var dead := Threading.IsDead(t);
    if dead {
      return false;
    }
    var p := t.philos[i];
    var first, second := if p.id % 2 == 0 then p.rightFork else p.leftFork,
                         if p.id % 2 == 0 then p.leftFork else p.rightFork;
    var gotFirst := RootThreading.TakeForkSafe(t, i, first, now);
    if !gotFirst {
      return false;
    }
    ok := TakeSecondFork(t, i, now, deathMeanwhile);
  }

  /** The second half of TakeForks, entered holding the first fork: a death seen now, or a busy
      second fork, puts the first fork back and unlocks it. */
  method TakeSecondFork(t: Table, i: int, now: int, deathMeanwhile: bool) returns (ok: bool)
    requires t.Valid() && 0 <= i < t.numPhilos && !t.singlePhilo && !t.isDead
    requires t.forks[FirstFork(t.philos[i])] == Fork(InUse, t.philos[i].id)
    requires FirstFork(t.philos[i]) in t.held && SecondFork(t.philos[i]) !in t.held
    modifies t.forks, t`log, t`history, t`held, t`isDead
    ensures t.Valid()
    ensures var p := t.philos[i];
      && (ok <==> !deathMeanwhile && old(t.forks[SecondFork(p)].state) == Available)
      && t.isDead == deathMeanwhile
      && t.forks[..] == (if ok then old(t.forks[..])[SecondFork(p) := Fork(InUse, p.id)]
                         else old(t.forks[..])[FirstFork(p) := Free])
      && t.held == (if ok then old(t.held) + {SecondFork(p)} else old(t.held) - {FirstFork(p)})
      && t.log == old(t.log) + (if ok then [Line(now - t.startTime, p.id, TookFork)] else [])
      && t.history == old(t.history) + [if ok then (SecondFork(p), Fork(InUse, p.id)) else (FirstFork(p), Free)]
  {
    SeatOf(t, i);
    var p := t.philos[i];
    var first, second := FirstFork(p), SecondFork(p);
    if deathMeanwhile {
      t.isDead := true;
    }
    var dead := Threading.IsDead(t);
    if dead {
      t.WriteFork(first, Free);
      t.held := t.held - {first};
      return false;
    }
    var gotSecond := RootThreading.TakeForkSafe(t, i, second, now);
    if !gotSecond {
      t.WriteFork(first, Free);
      t.held := t.held - {first};
      return false;
    }
    return true;
  }

  /** Puts back the second fork taken and then the first, unlocking each mutex after its
      write; no other fork changes. */
  method ReleaseForks(t: Table, i: int)
    requires t.Valid() && 0 <= i < t.numPhilos
    requires t.philos[i].leftFork in t.held && t.philos[i].rightFork in t.held
    modifies t.forks, t`history, t`held
    ensures t.Valid()
    ensures t.forks[..] == Released(old(t.forks[..]), t.philos[i])
    ensures t.history == old(t.history) + [(SecondFork(t.philos[i]), Free), (FirstFork(t.philos[i]), Free)]
    ensures t.held == old(t.held) - {t.philos[i].leftFork, t.philos[i].rightFork}
  {
    SeatOf(t, i);
    var p := t.philos[i];
    var first, second := if p.id % 2 == 0 then p.leftFork else p.rightFork,
                         if p.id % 2 == 0 then p.rightFork else p.leftFork;
    t.WriteFork(first, Free);
    t.held := t.held - {first};
    t.WriteFork(second, Free);
    t.held := t.held - {second};
  }

  /** Taking both forks with TakeForks and putting them back with ReleaseForks restores a
      consistent fork table and the set of held mutexes. */
  method TakeThenRelease(t: Table, i: int, now: int) returns (ok: bool)
    requires t.Valid() && 0 <= i < t.numPhilos && !t.singlePhilo && ForksConsistent(t.forks[..])
    requires t.philos[i].leftFork !in t.held && t.philos[i].rightFork !in t.held
    modifies t.forks, t`log, t`history, t`held, t`isDead
    ensures t.Valid() && t.isDead == old(t.isDead)
    ensures ok <==> !old(t.isDead) && BothFree(old(t.forks[..]), t.philos[i])
    ensures t.forks[..] == old(t.forks[..]) && t.held == old(t.held)
  {
    SeatOf(t, i);
    ghost var fs := t.forks[..];
    ok := TakeForks(t, i, now, false);
    if ok {
      ReleaseForks(t, i);
      AcquireReleaseRoundTrip(fs, t.philos[i]);
    } else {
      AttemptBothOrNothing(fs, t.philos[i]);
    }
  }

  /** A meal: the same transitions as eat.c, printing through this file's filtered status
      line, which lets "is eating" through because a meal only starts while nobody has died.
      A meal asks for a `time_to_eat` wait; otherwise the outcome, wait included, is that of
      fork_extra.c's guarded acquisition. */
  method Eat(t: Table, i: int, now: int) returns (wait: int)
    requires t.Valid() && 0 <= i < t.numPhilos
    modifies t.forks, t.philos, t`log, t`history
    ensures t.Valid()
    ensures !t.isDead && !t.singlePhilo && BothFree(old(t.forks[..]), t.philos[i]) ==>
      var p := old(t.philos[i]);
      t.philos[..] == old(t.philos[..])[i := p.(state := Eating, lastEatTime := now, eatCount := p.eatCount + 1)]
      && t.forks[..] == Released(Acquired(old(t.forks[..]), p), p)
      && t.history == old(t.history) + AttemptWrites(old(t.forks[..]), p) + [(SecondFork(p), Free), (FirstFork(p), Free)]
      && t.log == old(t.log) + [Line(now - t.startTime, p.id, TookFork), Line(now - t.startTime, p.id, TookFork),
                                Line(now - t.startTime, p.id, StartedEating)]
      && wait == t.timeToEat
    ensures !(!t.isDead && !t.singlePhilo && BothFree(old(t.forks[..]), t.philos[i])) ==>
      t.philos[..] == old(t.philos[..])
      && t.forks[..] == SafeAttempt(old(t.forks[..]), t.philos[i], t.isDead, t.singlePhilo)
      && t.history == old(t.history) + SafeWrites(old(t.forks[..]), t.philos[i], t.isDead, t.singlePhilo)
      && t.log == old(t.log) + SafeLines(old(t.forks[..]), t.philos[i], t.isDead, t.singlePhilo, now - t.startTime)
      && wait == if !t.isDead && t.singlePhilo then t.timeToDie + 1 else 0
    ensures !t.singlePhilo && ForksConsistent(old(t.forks[..])) ==> t.forks[..] == old(t.forks[..])
  {
    SeatOf(t, i);
    ghost var fs := t.forks[..];
    var ok;
    ok, wait := ForkExtra.CheckAndTakeBothForksSafe(t, i, now);
    if !ok {
      if !t.isDead && !t.singlePhilo && ForksConsistent(fs) {
        AttemptBothOrNothing(fs, t.philos[i]);
      }
      return;
    }
    var p := t.philos[i];
    t.philos[i] := p.(state := Eating);
    PrintStatus(t, i, StartedEating, now);
    t.philos[i] := t.philos[i].(lastEatTime := now);
    wait := t.timeToEat;
    t.philos[i] := t.philos[i].(eatCount := t.philos[i].eatCount + 1);
    assert t.Valid();
    ForkExtra.ReleaseBothForks(t, i);
    if ForksConsistent(fs) {
      AcquireReleaseRoundTrip(fs, p);
    }
  }

  /** Stores the state and nothing else: in this file stopping does not raise the death flag. */
  method SetSimulationState(t: Table, s: SimState) returns (r: int)
    modifies t`simState
    ensures r == 0 && t.simState == s
  {
    t.simState := s;
    r := 0;
  }

  method GetSimulationState(t: Table) returns (s: SimState)
    ensures s == t.simState
  {
    s := t.simState;
  }

  /** Reading the state back returns what was last stored, and the death flag is untouched. */
  method SetThenGet(t: Table, s: SimState) returns (got: SimState)
    modifies t`simState
    ensures got == s && t.isDead == old(t.isDead)
  {
    var _ := SetSimulationState(t, s);
    got := GetSimulationState(t);
  }

  /** Only a `must_eat` of exactly -1 means "no target"; any other value is compared against
      every philosopher's count, stopping at the first one short of it. */
  method CheckAllAte(t: Table) returns (allAte: bool)
    requires t.Valid()
    ensures allAte <==> t.mustEat != -1 && EveryoneAte(t.philos[..], t.mustEat)
  {
    if t.mustEat == -1 {
      return false;
    }
    allAte := true;
    var j := 0;
    while j < t.numPhilos
      invariant 0 <= j <= t.numPhilos
      invariant forall k :: 0 <= k < j ==> t.philos[k].eatCount >= t.mustEat
    {
      if t.philos[j].eatCount < t.mustEat {
        allAte := false;
        break;
      }
      j := j + 1;
    }
  }

  const CompleteText: string := "All philosophers have eaten enough meals"

  /** Announces completion and moves to COMPLETED only while the simulation is still running,
      so a stopped or failed simulation keeps its state and prints nothing. */
  method HandleMealCompletion(t: Table, now: int)
    modifies t`log, t`simState
    ensures old(t.simState) == Running ==> t.simState == Completed && t.log == old(t.log) + [Completion(now - t.startTime, CompleteText)]
    ensures old(t.simState) != Running ==> t.simState == old(t.simState) && t.log == old(t.log)
  {
    if t.simState == Running {
      t.log := t.log + [Completion(now - t.startTime, CompleteText)];
      var _ := SetSimulationState(t, Completed);
    }
  }

  /** The death threshold of the monitor, including the two configurations for which it is ten
      times the time to die. */
  function DeathThreshold(n: int, timeToDie: int, timeToEat: int, timeToSleep: int): (threshold: int)
  {
    if (n == 5 && timeToDie == 800 && timeToEat == 200 && timeToSleep == 200)
       || (n == 4 && timeToDie == 410 && timeToEat == 200 && timeToSleep == 200)
    then timeToDie * 10 else timeToDie
  }

  /** `last_eat_time` holds an absolute clock reading here, so the time since the last meal
      is `now - last_eat_time`, compared strictly. */
  predicate Starved(p: Philo, now: int, threshold: int)
  {
    now - p.lastEatTime > threshold
  }

  /** Outside the two configurations with the factor-ten threshold, the scan applies threading.c's
      is_time_to_die: it selects the first philosopher for whom that test holds, and nobody
      exactly when it holds for nobody. */
  lemma ScanAppliesTimeToDie(ps: seq<Philo>, now: int, n: int, timeToDie: int, timeToEat: int, timeToSleep: int)
    requires DeathThreshold(n, timeToDie, timeToEat, timeToSleep) == timeToDie
    ensures var fb := FirstBreach(ps, now, DeathThreshold(n, timeToDie, timeToEat, timeToSleep), 0);
      (fb.None? <==> forall k :: 0 <= k < |ps| ==> !RootThreading.IsTimeToDie(ps[k], timeToDie, now))
      && (fb.Some? ==> RootThreading.IsTimeToDie(ps[fb.value], timeToDie, now)
                       && forall k :: 0 <= k < fb.value ==> !RootThreading.IsTimeToDie(ps[k], timeToDie, now))
  {
  }

  /** The lowest index at or after `from` of a starved philosopher, if any. */
  function FirstBreach(ps: seq<Philo>, now: int, threshold: int, from: nat): (r: Option<int>)
    requires from <= |ps|
    ensures r.Some? ==> from <= r.value < |ps| && Starved(ps[r.value], now, threshold)
    ensures r.Some? ==> forall k :: from <= k < r.value ==> !Starved(ps[k], now, threshold)
    ensures r.None? ==> forall k :: from <= k < |ps| ==> !Starved(ps[k], now, threshold)
    decreases |ps| - from
  {
    if from == |ps| then None
    else if Starved(ps[from], now, threshold) then Some(from)
    else FirstBreach(ps, now, threshold, from + 1)
  }

  /** The inner scan of both monitor loops.  While nobody has died, the lowest-indexed starved
      philosopher is marked dead, the death flag is raised, "died" is printed for it and the
      simulation is stopped; nobody else is touched.  With the flag already raised nobody is
      marked.  `checkRunning` selects the loop that also stops once the state is not RUNNING. */
  method ScanForDeath(t: Table, now: int, checkRunning: bool) returns (died: bool)
    requires t.Valid()
    modifies t.philos, t`isDead, t`log, t`simState
    ensures t.Valid()
    ensures var fb := FirstBreach(old(t.philos[..]), now, DeathThreshold(t.numPhilos, t.timeToDie, t.timeToEat, t.timeToSleep), 0);
      && (died <==> (!checkRunning || old(t.simState) == Running) && !old(t.isDead) && fb.Some?)
      && (died ==> var j := fb.value;
                   t.philos[..] == old(t.philos[..])[j := old(t.philos[j]).(state := Dead)]
                   && t.isDead && t.simState == Stopped
                   && t.log == old(t.log) + [Line(now - t.startTime, old(t.philos[j]).id, Died)])
      && (!died ==> t.philos[..] == old(t.philos[..]) && t.isDead == old(t.isDead)
                    && t.log == old(t.log) && t.simState == old(t.simState))
  {
    var threshold := DeathThreshold(t.numPhilos, t.timeToDie, t.timeToEat, t.timeToSleep);
    var j := 0;
    while j < t.numPhilos && (!checkRunning || t.simState == Running)
      invariant 0 <= j <= t.numPhilos
      invariant t.philos[..] == old(t.philos[..]) && t.isDead == old(t.isDead)
      invariant t.log == old(t.log) && t.simState == old(t.simState)
      invariant !t.isDead ==> forall k :: 0 <= k < j ==> !Starved(t.philos[k], now, threshold)
    {
      if now - t.philos[j].lastEatTime > threshold {
        if !t.isDead {
          t.philos[j] := t.philos[j].(state := Dead);
          t.isDead := true;
          PrintStatus(t, j, Died, now);
          var _ := SetSimulationState(t, Stopped);
          return true;
        }
      }
      j := j + 1;
    }
    died := false;
  }

  /** One pass of monitor_routine.  A lone philosopher is declared dead after a wait of
      `time_to_die + 10` (`now` is the clock reading once it is over).  Otherwise the scan runs;
      without a death, a simulation still running whose every philosopher has met the target
      is completed.  `stop` tells whether the monitor returns; a pass that does not stop ends
      with a 1 ms wait. */
  method MonitorRoutinePass(t: Table, now: int) returns (stop: bool, waitMs: int)
    requires t.Valid()
    modifies t.philos, t`isDead, t`log, t`simState
    ensures t.Valid()
    ensures waitMs == if t.singlePhilo then t.timeToDie + 10 else if stop then 0 else 1
    ensures t.singlePhilo ==>
      stop && t.isDead && t.simState == Stopped
      && t.philos[..] == old(t.philos[..])[0 := old(t.philos[0]).(state := Dead)]
      && t.log == old(t.log) + [Line(now - t.startTime, 1, Died)]
    ensures !t.singlePhilo ==>
      var fb := FirstBreach(old(t.philos[..]), now, DeathThreshold(t.numPhilos, t.timeToDie, t.timeToEat, t.timeToSleep), 0);
      var dies := old(t.simState) == Running && !old(t.isDead) && fb.Some?;
      var completes := !dies && old(t.simState) == Running && t.mustEat != -1 && EveryoneAte(old(t.philos[..]), t.mustEat);
      && (stop <==> dies || completes)
      && (dies ==> t.philos[..] == old(t.philos[..])[fb.value := old(t.philos[fb.value]).(state := Dead)]
                   && t.isDead && t.simState == Stopped
                   && t.log == old(t.log) + [Line(now - t.startTime, old(t.philos[fb.value]).id, Died)])
      && (completes ==> t.philos[..] == old(t.philos[..]) && t.isDead == old(t.isDead) && t.simState == Completed
                        && t.log == old(t.log) + [Completion(now - t.startTime, CompleteText)])
      && (!stop ==> t.philos[..] == old(t.philos[..]) && t.isDead == old(t.isDead)
                    && t.simState == old(t.simState) && t.log == old(t.log))
  {
    if t.singlePhilo {
      SeatOf(t, 0);
      t.isDead := true;
      t.philos[0] := t.philos[0].(state := Dead);
      PrintStatus(t, 0, Died, now);
      var _ := SetSimulationState(t, Stopped);
      return true, t.timeToDie + 10;
    }
    var died := ScanForDeath(t, now, true);
    if died {
      return true, 0;
    }
    var allAte := CheckAllAte(t);
    var running := Threading.IsState(t, Running);
    if allAte && running {
      HandleMealCompletion(t, now);
      return true, 0;
    }
    stop, waitMs := false, 1;
  }

  /** One pass of monitor_philos: the same scan without the RUNNING test, and a completed
      meal target stops the simulation instead of completing it, printing nothing; a pass that
      does not stop ends with a 1 ms wait. */
  method MonitorPhilosPass(t: Table, now: int) returns (stop: bool, waitMs: int)
    requires t.Valid()
    modifies t.philos, t`isDead, t`log, t`simState
    ensures t.Valid()
    ensures waitMs == if stop then 0 else 1
    ensures var fb := FirstBreach(old(t.philos[..]), now, DeathThreshold(t.numPhilos, t.timeToDie, t.timeToEat, t.timeToSleep), 0);
      var dies := !old(t.isDead) && fb.Some?;
      var completes := !dies && t.mustEat != -1 && EveryoneAte(old(t.philos[..]), t.mustEat);
      && (stop <==> dies || completes)
      && (dies ==> t.philos[..] == old(t.philos[..])[fb.value := old(t.philos[fb.value]).(state := Dead)]
                   && t.isDead && t.simState == Stopped
                   && t.log == old(t.log) + [Line(now - t.startTime, old(t.philos[fb.value]).id, Died)])
      && (completes ==> t.philos[..] == old(t.philos[..]) && t.isDead == old(t.isDead) && t.simState == Stopped
                        && t.log == old(t.log))
      && (!stop ==> t.philos[..] == old(t.philos[..]) && t.isDead == old(t.isDead)
                    && t.simState == old(t.simState) && t.log == old(t.log))
  {
    var died := ScanForDeath(t, now, false);
    if died {
      return true, 0;
    }
    var allAte := CheckAllAte(t);
    if allAte {
      var _ := SetSimulationState(t, Stopped);
      return true, 0;
    }
    stop, waitMs := false, 1;
  }
}
