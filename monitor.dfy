/** files/monitor.c: the flag queries, the death check and its marking, the meal-target check
    with its summary line, the adaptive check interval and one pass of the monitor loop.  The
    monitor never changes a philosopher record: a death shows only in `anyone_died`, the state
    and the output. */
module Monitor {
  import opened Base
  import opened RootData
  import RootUtils
  import FilesMain

  method CheckIfAnyoneDied(t: RootTable) returns (died: bool)
    ensures died == t.anyoneDied
  {
    died := t.anyoneDied;
  }

  method CheckIfAllAte(t: RootTable) returns (done: bool)
    ensures done == t.allAte
  {
    done := t.allAte;
  }

  /** Raises `anyone_died`, finishes the simulation and then prints "died" for `j`, a line that
      the finished state always lets through. */
  method MarkPhilosopherDeath(t: RootTable, j: int, now: int)
    modifies t`anyoneDied, t`simulationState, t`log
    ensures t.anyoneDied && t.simulationState == Finished
    ensures t.log == old(t.log) + [Printed(now - t.startTime, j + 1, Died)]
  {
    t.anyoneDied := true;
    FilesMain.SetSimulationState(t, Finished);
    RootUtils.PrintStatus(t, j, Died, now);
  }

  /** The strict starvation test: more than `time_to_die` since the last meal. */
  predicate Starving(p: Philosopher, timeToDie: int, now: int)
  {
    now - p.lastMealTime > timeToDie
  }

  /** Nothing happens unless the simulation is running; then philosopher `j` is declared dead
      exactly when it is starving. */
  method CheckDeath(t: RootTable, j: int, now: int) returns (died: bool)
    requires t.Valid() && 0 <= j < t.nbrOfPhilos
    modifies t`anyoneDied, t`simulationState, t`log
    ensures died <==> old(t.simulationState) == Running && Starving(t.philosophers[j], t.timeToDie, now)
    ensures died ==> t.anyoneDied && t.simulationState == Finished
                     && t.log == old(t.log) + [Printed(now - t.startTime, j + 1, Died)]
    ensures !died ==> t.anyoneDied == old(t.anyoneDied) && t.simulationState == old(t.simulationState)
                      && t.log == old(t.log)
  {
    var state := FilesMain.GetSimulationState(t);
    if state != Running {
      return false;
    }
    if now - t.philosophers[j].lastMealTime > t.timeToDie {
      MarkPhilosopherDeath(t, j, now);
      return true;
    }
    return false;
  }

  /** Every philosopher has eaten at least `target` meals. */
  predicate AllFull(ps: seq<Philosopher>, target: int)
  {
    forall j :: 0 <= j < |ps| ==> ps[j].mealsEaten >= target
  }

  lemma SumMealsSnoc(ps: seq<Philosopher>, j: int)
    requires 0 <= j < |ps|
    ensures SumMeals(ps[..j + 1]) == SumMeals(ps[..j]) + ps[j].mealsEaten
  {
    assert ps[..j + 1][..j] == ps[..j];
  }

  /** Without a target or outside RUNNING nothing happens.  Otherwise, when everybody has
      reached the target, `all_ate` is raised, the summary reports the target and the sum of
      all meal counts, and the simulation finishes; when somebody has not, nothing changes. */
  method CheckAllAte(t: RootTable)
    requires t.Valid()
    modifies t`allAte, t`log, t`simulationState
    ensures var fires := t.nbrTimesToEat != -1 && old(t.simulationState) == Running
                         && AllFull(t.philosophers[..], t.nbrTimesToEat);
      && (fires ==> t.allAte && t.simulationState == Finished
                    && t.log == old(t.log) + [MealSummary(t.nbrTimesToEat, SumMeals(t.philosophers[..]))])
      && (!fires ==> t.allAte == old(t.allAte) && t.simulationState == old(t.simulationState)
                     && t.log == old(t.log))
  {
    var state := FilesMain.GetSimulationState(t);
    if t.nbrTimesToEat == -1 || state != Running {
      return;
    }
    var allFull := true;
    var total := 0;
    var i := 0;
    while i < t.nbrOfPhilos
      invariant 0 <= i <= t.nbrOfPhilos
      invariant total == SumMeals(t.philosophers[..i])
      invariant AllFull(t.philosophers[..i], t.nbrTimesToEat) && allFull
      invariant t.log == old(t.log) && t.allAte == old(t.allAte) && t.simulationState == old(t.simulationState)
    {
      SumMealsSnoc(t.philosophers[..], i);
      total := total + t.philosophers[i].mealsEaten;
      if t.philosophers[i].mealsEaten < t.nbrTimesToEat {
        assert t.philosophers[..][i].mealsEaten < t.nbrTimesToEat;
        allFull := false;
        break;
      }
      i := i + 1;
    }
    if allFull {
      assert t.philosophers[..i] == t.philosophers[..];
      t.allAte := true;
      t.log := t.log + [MealSummary(t.nbrTimesToEat, total)];
      FilesMain.SetSimulationState(t, Finished);
    }
  }

  /** Milliseconds until the earliest predicted death, LLONG_MAX for nobody. */
  function MinRemaining(ps: seq<Philosopher>, timeToDie: int, now: int): (m: int)
  {
    if ps == [] then LLONG_MAX
    else
      var rest := MinRemaining(ps[..|ps| - 1], timeToDie, now);
      var last := ps[|ps| - 1].lastMealTime + timeToDie - now;
      if last < rest then last else rest
  }

  /** The earliest predicted death comes no later than anybody's. */
  lemma {:induction false} MinRemainingBelow(ps: seq<Philosopher>, timeToDie: int, now: int, j: int)
    requires 0 <= j < |ps|
    ensures MinRemaining(ps, timeToDie, now) <= ps[j].lastMealTime + timeToDie - now
    decreases |ps|
  {
    if j < |ps| - 1 {
      MinRemainingBelow(ps[..|ps| - 1], timeToDie, now, j);
    }
  }

  /** Keeps a pause in microseconds within [100, 10000]. */
  function Clamp(us: int): (r: int)
    ensures 100 <= r <= 10000
  {
    if us > 10000 then 10000 else if us < 100 then 100 else us
  }

  /** The pause before the next pass: a thousand times the earliest predicted death, clamped
      to [100, 10000] microseconds. */
  method CalculateNextCheckInterval(t: RootTable, now: int) returns (intervalUs: int)
    requires t.Valid()
    ensures intervalUs == Clamp(MinRemaining(t.philosophers[..], t.timeToDie, now) * 1000)
  {
    var next := LLONG_MAX;
    var i := 0;
    while i < t.nbrOfPhilos
      invariant 0 <= i <= t.nbrOfPhilos
      invariant next == MinRemaining(t.philosophers[..i], t.timeToDie, now)
    {
      assert t.philosophers[..i + 1][..i] == t.philosophers[..i];
      var remaining := (t.philosophers[i].lastMealTime + t.timeToDie) - now;
      if remaining < next {
        next := remaining;
      }
      i := i + 1;
    }
    assert t.philosophers[..i] == t.philosophers[..];
    intervalUs := next * 1000;
    if intervalUs > 10000 {
      intervalUs := 10000;
    } else if intervalUs < 100 {
      intervalUs := 100;
    }
  }

  /** The monitor never sleeps past a predicted death by more than its 100 µs floor: the pause
      is at most a thousand times any philosopher's remaining time, or 100. */
  lemma IntervalNoLaterThanDeath(ps: seq<Philosopher>, timeToDie: int, now: int, j: int)
    requires 0 <= j < |ps|
    ensures var r := ps[j].lastMealTime + timeToDie - now;
      Clamp(MinRemaining(ps, timeToDie, now) * 1000) <= (if r * 1000 > 100 then r * 1000 else 100)
  {
    MinRemainingBelow(ps, timeToDie, now, j);
  }

  /** The lowest index at or after `from` of a starving philosopher, if any. */
  function FirstStarving(ps: seq<Philosopher>, timeToDie: int, now: int, from: nat): (r: Option<int>)
    requires from <= |ps|
    ensures r.Some? ==> from <= r.value < |ps| && Starving(ps[r.value], timeToDie, now)
    ensures r.Some? ==> forall k :: from <= k < r.value ==> !Starving(ps[k], timeToDie, now)
    ensures r.None? ==> forall k :: from <= k < |ps| ==> !Starving(ps[k], timeToDie, now)
    decreases |ps| - from
  {
    if from == |ps| then None
    else if Starving(ps[from], timeToDie, now) then Some(from)
    else FirstStarving(ps, timeToDie, now, from + 1)
  }

  /** One pass of monitor_routine.  While running, the philosophers are checked in index order
      and the lowest starving index is the one declared dead, which ends the routine.
      Otherwise the meal target is checked, and the pause before the next pass is computed. */
  method MonitorPass(t: RootTable, now: int) returns (died: bool, intervalUs: int)
    requires t.Valid()
    modifies t`anyoneDied, t`allAte, t`log, t`simulationState
    ensures var fs := FirstStarving(t.philosophers[..], t.timeToDie, now, 0);
      && (died <==> old(t.simulationState) == Running && fs.Some?)
      && (died ==> t.anyoneDied && t.simulationState == Finished && t.allAte == old(t.allAte)
                   && t.log == old(t.log) + [Printed(now - t.startTime, fs.value + 1, Died)])
    ensures !died ==>
      var fires := t.nbrTimesToEat != -1 && old(t.simulationState) == Running
                   && AllFull(t.philosophers[..], t.nbrTimesToEat);
      && t.anyoneDied == old(t.anyoneDied)
      && (fires ==> t.allAte && t.simulationState == Finished
                    && t.log == old(t.log) + [MealSummary(t.nbrTimesToEat, SumMeals(t.philosophers[..]))])
      && (!fires ==> t.allAte == old(t.allAte) && t.simulationState == old(t.simulationState) && t.log == old(t.log))
      && intervalUs == Clamp(MinRemaining(t.philosophers[..], t.timeToDie, now) * 1000)
  {
    var i := 0;
    while i < t.nbrOfPhilos && t.simulationState == Running
      invariant 0 <= i <= t.nbrOfPhilos
      invariant t.anyoneDied == old(t.anyoneDied) && t.allAte == old(t.allAte)
      invariant t.simulationState == old(t.simulationState) && t.log == old(t.log)
      invariant forall k :: 0 <= k < i ==> !Starving(t.philosophers[k], t.timeToDie, now)
    {
      died := CheckDeath(t, i, now);
      if died {
        return died, 0;
      }
      i := i + 1;
    }
    died := false;
    CheckAllAte(t);
    intervalUs := CalculateNextCheckInterval(t, now);
  }
}
