/** philo/src/philo_utils.c: the state accessors with the death coupling, the meal-target
    test, the completion announcement and the termination scan.  The scan appears twice: as
    written, where the time since the start is compared with an absolute meal time, and
    corrected, where the clock reading is compared with it. */
module PhiloUtils {
  import opened Base
  import opened PhiloData
  import Status

  /** Stores `s`; SIM_STOPPED also raises the death flag, and no state lowers it. */
  method SetSimulationState(t: Table, s: SimState) returns (r: int)
    modifies t`simState, t`isDead
    ensures r == 0 && t.simState == s
    ensures t.isDead == (old(t.isDead) || s == Stopped)
  {
    t.simState := s;
    if s == Stopped {
      t.isDead := true;
    }
    r := 0;
  }

  method GetSimulationState(t: Table) returns (s: SimState)
    ensures s == t.simState
  {
    s := t.simState;
  }

  /** Two writes in a row: the state read back is the last one written, and the death flag is
      raised exactly when either write was SIM_STOPPED or it was already up. */
  method SetSetGet(t: Table, s1: SimState, s2: SimState) returns (got: SimState)
    modifies t`simState, t`isDead
    ensures got == s2
    ensures t.isDead == (old(t.isDead) || s1 == Stopped || s2 == Stopped)
  {
    var _ := SetSimulationState(t, s1);
    var _ := SetSimulationState(t, s2);
    got := GetSimulationState(t);
  }

  /** False for a negative target; otherwise true exactly when every count has reached it. */
  method CheckAllAte(t: Table) returns (allAte: bool)
    requires t.Valid()
    ensures allAte <==> t.mustEat >= 0 && EveryoneAte(t.philos[..], t.mustEat)
  {
    if t.mustEat < 0 {
      return false;
    }
    allAte := true;
    var j := 0;
    while j < t.numPhilos
      invariant 0 <= j <= t.numPhilos
      invariant forall k :: 0 <= k < j ==> t.philos[k].eatCount >= t.mustEat
    {
      if t.philos[j].eatCount < t.mustEat {
        allAte := false;
        break;
      }
      j := j + 1;
    }
  }

  /** Prints the completion line and moves to COMPLETED, whatever the state was. */
  method HandleMealCompletion(t: Table, now: int)
    modifies t`log, t`simState, t`isDead
    ensures t.log == old(t.log) + [Completion(now - t.startTime, "All philosophers have eaten enough")]
    ensures t.simState == Completed && t.isDead == old(t.isDead)
  {
    t.log := t.log + [Completion(now - t.startTime, "All philosophers have eaten enough")];
    var _ := SetSimulationState(t, Completed);
  }

  /** The termination test for one philosopher: more than `time_to_die` since its last meal
      on the clock reading `clock`, and not already marked dead. */
  predicate Breach(p: Philo, timeToDie: int, clock: int)
  {
    clock - p.lastEatTime > timeToDie && p.state != Dead
  }

  /** The lowest index at or after `from` that passes the termination test, if any. */
  function FirstBreach(ps: seq<Philo>, timeToDie: int, clock: int, from: nat): (r: Option<int>)
    requires from <= |ps|
    ensures r.Some? ==> from <= r.value < |ps| && Breach(ps[r.value], timeToDie, clock)
    ensures r.Some? ==> forall k :: from <= k < r.value ==> !Breach(ps[k], timeToDie, clock)
    ensures r.None? ==> forall k :: from <= k < |ps| ==> !Breach(ps[k], timeToDie, clock)
    decreases |ps| - from
  {
    if from == |ps| then None
    else if Breach(ps[from], timeToDie, clock) then Some(from)
    else FirstBreach(ps, timeToDie, clock, from + 1)
  }

  /** The scan shared by both versions, testing against `clock`: the first philosopher that
      passes the test is marked dead, "died" is printed for it and the simulation stops (which
      raises the death flag); nobody else is touched.  Without a breach nothing changes. */
  method TerminationScan(t: Table, now: int, clock: int)
    requires t.Valid()
    modifies t.philos, t`log, t`simState, t`isDead
    ensures t.Valid()
    ensures var fb := FirstBreach(old(t.philos[..]), t.timeToDie, clock, 0);
      && (fb.Some? ==>
           t.philos[..] == old(t.philos[..])[fb.value := old(t.philos[fb.value]).(state := Dead)]
           && t.log == old(t.log) + [Line(now - t.startTime, old(t.philos[fb.value]).id, Died)]
           && t.simState == Stopped && t.isDead)
      && (fb.None? ==>
           t.philos[..] == old(t.philos[..]) && t.log == old(t.log)
           && t.simState == old(t.simState) && t.isDead == old(t.isDead))
  {
    var j := 0;
    while j < t.numPhilos
      invariant 0 <= j <= t.numPhilos
      invariant t.philos[..] == old(t.philos[..]) && t.log == old(t.log)
      invariant t.simState == old(t.simState) && t.isDead == old(t.isDead)
      invariant forall k :: 0 <= k < j ==> !Breach(t.philos[k], t.timeToDie, clock)
    {
      if clock - t.philos[j].lastEatTime > t.timeToDie && t.philos[j].state != Dead {
        t.philos[j] := t.philos[j].(state := Dead);
        Status.PrintStatus(t, j, Died, now);
        var _ := SetSimulationState(t, Stopped);
        return;
      }
      j := j + 1;
    }
  }

  /** handle_termination as written: the test subtracts the absolute `last_eat_time` from the
      time elapsed since the start, which is the corrected test run `start_time` milliseconds
      in the past. */
  method HandleTerminationAsWritten(t: Table, now: int)
    requires t.Valid()
    modifies t.philos, t`log, t`simState, t`isDead
    ensures t.Valid()
    ensures var fb := FirstBreach(old(t.philos[..]), t.timeToDie, now - t.startTime, 0);
      && (fb.Some? ==>
           t.philos[..] == old(t.philos[..])[fb.value := old(t.philos[fb.value]).(state := Dead)]
           && t.log == old(t.log) + [Line(now - t.startTime, old(t.philos[fb.value]).id, Died)]
           && t.simState == Stopped && t.isDead)
      && (fb.None? ==>
           t.philos[..] == old(t.philos[..]) && t.log == old(t.log)
           && t.simState == old(t.simState) && t.isDead == old(t.isDead))
  {
    TerminationScan(t, now, now - t.startTime);
  }

  /** handle_termination with the test it evidently intends: the time since the last meal is
      the clock reading minus the absolute `last_eat_time`. */
  method HandleTermination(t: Table, now: int)
    requires t.Valid()
    modifies t.philos, t`log, t`simState, t`isDead
    ensures t.Valid()
    ensures var fb := FirstBreach(old(t.philos[..]), t.timeToDie, now, 0);
      && (fb.Some? ==>
           t.philos[..] == old(t.philos[..])[fb.value := old(t.philos[fb.value]).(state := Dead)]
           && t.log == old(t.log) + [Line(now - t.startTime, old(t.philos[fb.value]).id, Died)]
           && t.simState == Stopped && t.isDead)
      && (fb.None? ==>
           t.philos[..] == old(t.philos[..]) && t.log == old(t.log)
           && t.simState == old(t.simState) && t.isDead == old(t.isDead))
  {
    TerminationScan(t, now, now);
  }

  /** The philosopher table as launched: one philosopher whose last meal was stamped with the
      absolute launch time 1000. */
  function LaunchedAt1000(): seq<Philo>
  {
    [Philo(1, Thinking, 0, 0, 0, 1000)]
  }

  /** With the simulation started at 1000, a philosopher last fed at 1000 has starved for
      1000 ms at clock 2000 with a time to die of 500, yet the test as written (which sees
      0 > 500) does not fire; the corrected test selects it. */
  lemma AsWrittenMissesStarvation()
    ensures FirstBreach(LaunchedAt1000(), 500, 2000 - 1000, 0) == None
    ensures FirstBreach(LaunchedAt1000(), 500, 2000, 0) == Some(0)
  {
    assert !Breach(LaunchedAt1000()[0], 500, 1000);
    assert Breach(LaunchedAt1000()[0], 500, 2000);
  }

  /** In general the test as written only fires `start_time` milliseconds later than the
      corrected one: it equals the corrected test with that much added to the time to die. */
  lemma AsWrittenIsLate(p: Philo, timeToDie: int, startTime: int, now: int)
    ensures Breach(p, timeToDie, now - startTime) <==> Breach(p, timeToDie + startTime, now)
  {
  }

  /** The corrected test agrees with the strict starvation test `now - last_eat_time >
      time_to_die` on every philosopher not yet marked dead, so the corrected scan selects the
      first such starving philosopher. */
  lemma CorrectedScanSelectsFirstStarving(ps: seq<Philo>, timeToDie: int, now: int)
    requires forall k :: 0 <= k < |ps| ==> ps[k].state != Dead
    ensures FirstBreach(ps, timeToDie, now, 0).Some? <==>
      exists k :: 0 <= k < |ps| && now - ps[k].lastEatTime > timeToDie
  {
  }
}
