/** philosopher.c of the root variant: the stop test, the lone philosopher, the parity-ordered
    fork mutexes and the eat, sleep and think steps of a philosopher thread.  The fork mutexes
    carry no data, so taking and releasing them shows only in the ghost `lockTrace`; the waits
    smart_sleep would perform are returned as the number of milliseconds requested. */
module RootPhilosopher {
  import opened Base
  import opened RootData
  import RootUtils
  import FilesMain
  import Monitor

  /** The simulation has left RUNNING, somebody died or everybody is full. */
  predicate Stopping(t: RootTable)
    reads t
  {
    t.simulationState != Running || t.anyoneDied || t.allAte
  }

  method ShouldStop(t: RootTable) returns (stop: bool)
    ensures stop <==> Stopping(t)
  {
    var state := FilesMain.GetSimulationState(t);
    var died := Monitor.CheckIfAnyoneDied(t);
    var full := Monitor.CheckIfAllAte(t);
    stop := state != Running || died || full;
  }

  /** Even ids lock the right fork first, odd ids the left one. */
  function FirstFork(p: Philosopher): (k: int) { if p.id % 2 == 0 then p.rightForkId else p.leftForkId }

  function SecondFork(p: Philosopher): (k: int) { if p.id % 2 == 0 then p.leftForkId else p.rightForkId }

  /** The mutexes a run of lock actions leaves held, innermost last, starting from `held`;
      None when an unlock does not release the innermost held mutex. */
  function Run(trace: seq<LockAction>, held: seq<int>): (after: Option<seq<int>>)
    decreases |trace|
  {
    if trace == [] then Some(held)
    else match trace[0]
      case Lock(m) => Run(trace[1..], held + [m])
      case Unlock(m) =>
        if held != [] && held[|held| - 1] == m then Run(trace[1..], held[..|held| - 1]) else None
  }

  /** Running two traces one after the other is running their concatenation. */
  lemma {:induction false} RunAppend(a: seq<LockAction>, b: seq<LockAction>, held: seq<int>)
    ensures Run(a + b, held) == match Run(a, held) case None => None case Some(h) => Run(b, h)
    decreases |a|
  {
    if a != [] {
      assert (a + b)[0] == a[0] && (a + b)[1..] == a[1..] + b;
      match a[0]
      case Lock(m) => RunAppend(a[1..], b, held + [m]);
      case Unlock(m) =>
        if held != [] && held[|held| - 1] == m {
          RunAppend(a[1..], b, held[..|held| - 1]);
        }
    } else {
      assert a + b == b;
    }
  }

  /** What take_forks and release_forks do to the fork mutexes. */
  function TakeTrace(p: Philosopher): (trace: seq<LockAction>) { [Lock(FirstFork(p)), Lock(SecondFork(p))] }

  function ReleaseTrace(p: Philosopher): (trace: seq<LockAction>) { [Unlock(SecondFork(p)), Unlock(FirstFork(p))] }

  /** Releasing undoes taking, innermost first: a meal leaves exactly the mutexes held before
      it held, whatever came earlier in the trace. */
  lemma MealIsNested(pre: seq<LockAction>, p: Philosopher, held: seq<int>)
    ensures Run(pre + TakeTrace(p) + ReleaseTrace(p), held) == Run(pre, held)
  {
    RunAppend(pre, TakeTrace(p) + ReleaseTrace(p), held);
    assert pre + TakeTrace(p) + ReleaseTrace(p) == pre + (TakeTrace(p) + ReleaseTrace(p));
    match Run(pre, held)
    case None =>
    case Some(h) =>
      var meal := TakeTrace(p) + ReleaseTrace(p);
      var a, b := FirstFork(p), SecondFork(p);
      assert meal == [Lock(a), Lock(b), Unlock(b), Unlock(a)];
      assert (h + [a] + [b])[..|h| + 1] == h + [a];
      assert (h + [a])[..|h|] == h;
      assert Run(meal[3..], h + [a]) == Run([], h);
      assert Run(meal[2..], h + [a] + [b]) == Run(meal[3..], h + [a]);
      assert Run(meal[1..], h + [a]) == Run(meal[2..], h + [a] + [b]);
  }

  /** Locks the only fork, announces it and waits `time_to_die` for death before unlocking it;
      the lone philosopher never eats. */
  method HandleSinglePhilosopher(t: RootTable, i: int, now: int) returns (wait: int)
    requires t.Valid() && 0 <= i < t.nbrOfPhilos
    modifies t`log, t`lockTrace
    ensures wait == t.timeToDie
    ensures t.lockTrace == old(t.lockTrace) + [Lock(t.philosophers[i].leftForkId), Unlock(t.philosophers[i].leftForkId)]
    ensures t.log == old(t.log) + if RootUtils.Visible(t.simulationState, t.allAte, TookFork)
      then [Printed(now - t.startTime, t.philosophers[i].id + 1, TookFork)] else []
  {
    var left := t.philosophers[i].leftForkId;
    t.lockTrace := t.lockTrace + [Lock(left)];
    RootUtils.PrintStatus(t, t.philosophers[i].id, TookFork, now);
    wait := t.timeToDie;
    t.lockTrace := t.lockTrace + [Unlock(left)];
  }

  /** The two "has taken a fork" lines of take_forks: both, or neither when the print filter
      refuses them. */
  function ForkLines(t: RootTable, p: Philosopher, now: int): (lines: seq<RootEvent>)
    reads t
  {
    if RootUtils.Visible(t.simulationState, t.allAte, TookFork)
    then [Printed(now - t.startTime, p.id + 1, TookFork), Printed(now - t.startTime, p.id + 1, TookFork)]
    else []
  }

  /** Locks the first and then the second fork of the parity order, announcing each. */
  method TakeForks(t: RootTable, i: int, now: int)
    requires t.Valid() && 0 <= i < t.nbrOfPhilos
    modifies t`log, t`lockTrace
    ensures t.lockTrace == old(t.lockTrace) + TakeTrace(t.philosophers[i])
    ensures t.log == old(t.log) + ForkLines(t, t.philosophers[i], now)
  {
    var p := t.philosophers[i];
    if p.id % 2 == 0 {
      t.lockTrace := t.lockTrace + [Lock(p.rightForkId)];
      RootUtils.PrintStatus(t, p.id, TookFork, now);
      t.lockTrace := t.lockTrace + [Lock(p.leftForkId)];
      RootUtils.PrintStatus(t, p.id, TookFork, now);
    } else {
      t.lockTrace := t.lockTrace + [Lock(p.leftForkId)];
      RootUtils.PrintStatus(t, p.id, TookFork, now);
      t.lockTrace := t.lockTrace + [Lock(p.rightForkId)];
      RootUtils.PrintStatus(t, p.id, TookFork, now);
    }
  }

  /** Unlocks the second and then the first fork of the parity order. */
  method ReleaseForks(t: RootTable, i: int)
    requires t.Valid() && 0 <= i < t.nbrOfPhilos
    modifies t`lockTrace
    ensures t.lockTrace == old(t.lockTrace) + ReleaseTrace(t.philosophers[i])
  {
    var p := t.philosophers[i];
    if p.id % 2 == 0 {
      t.lockTrace := t.lockTrace + [Unlock(p.leftForkId)];
      t.lockTrace := t.lockTrace + [Unlock(p.rightForkId)];
    } else {
      t.lockTrace := t.lockTrace + [Unlock(p.rightForkId)];
      t.lockTrace := t.lockTrace + [Unlock(p.leftForkId)];
    }
  }

  /** The record after one meal eaten at `now`: the meal time is refreshed, the count goes up
      by one and the "full" flag is raised once a target exists and is reached. */
  function AfterMeal(p: Philosopher, target: int, now: int): (q: Philosopher)
    ensures q.id == p.id && q.leftForkId == p.leftForkId && q.rightForkId == p.rightForkId
    ensures q.lastMealTime == now && q.mealsEaten == p.mealsEaten + 1
    ensures q.isFull <==> p.isFull || (target != -1 && p.mealsEaten + 1 >= target)
  {
    p.(lastMealTime := now, mealsEaten := p.mealsEaten + 1,
       isFull := p.isFull || (target != -1 && p.mealsEaten + 1 >= target))
  }

  /** Once full, always full, and a philosopher with a target is full exactly when its count
      has reached the target. */
  lemma {:induction false} FullIsStable(p: Philosopher, target: int, now: int, meals: nat)
    requires target != -1 && (p.isFull <==> p.mealsEaten >= target)
    ensures var q := Meals(p, target, now, meals);
      (p.isFull ==> q.isFull) && (q.isFull <==> q.mealsEaten >= target) && q.mealsEaten == p.mealsEaten + meals
    decreases meals
  {
    if meals > 0 {
      FullIsStable(p, target, now, meals - 1);
    }
  }

  /** `meals` meals in a row, all at `now`. */
  function Meals(p: Philosopher, target: int, now: int, meals: nat): (q: Philosopher)
    decreases meals
  {
    if meals == 0 then p else AfterMeal(Meals(p, target, now, meals - 1), target, now)
  }

  /** One meal: the forks are taken in parity order, the meal time is refreshed and "is eating"
      printed, then (after the `time_to_eat` wait) the count goes up and the forks are released
      in the reverse order.  Nothing else in the table changes. */
  method Eating(t: RootTable, i: int, now: int) returns (wait: int)
    requires t.Valid() && 0 <= i < t.nbrOfPhilos
    modifies t.philosophers, t`log, t`lockTrace
    ensures wait == t.timeToEat
    ensures t.philosophers[..] == old(t.philosophers[..])[i := AfterMeal(old(t.philosophers[i]), t.nbrTimesToEat, now)]
    ensures t.lockTrace == old(t.lockTrace) + TakeTrace(old(t.philosophers[i])) + ReleaseTrace(old(t.philosophers[i]))
    ensures t.log == old(t.log) + ForkLines(t, old(t.philosophers[i]), now)
      + if RootUtils.Visible(t.simulationState, t.allAte, StartedEating)
        then [Printed(now - t.startTime, old(t.philosophers[i]).id + 1, StartedEating)] else []
  {
    TakeForks(t, i, now);
    var p := t.philosophers[i];
    t.philosophers[i] := p.(lastMealTime := now);
    RootUtils.PrintStatus(t, p.id, StartedEating, now);
    wait := t.timeToEat;
    var q := t.philosophers[i];
    q := q.(mealsEaten := q.mealsEaten + 1);
    if t.nbrTimesToEat != -1 && q.mealsEaten >= t.nbrTimesToEat {
      q := q.(isFull := true);
    }
    t.philosophers[i] := q;
    ReleaseForks(t, i);
  }

  /** eating as written.  "is eating" is printed while meal_check is held, and in the FINISHED
      state print_status asks check_if_all_ate, which locks meal_check again.  The mutex is not
      recursive, so the thread blocks there for good: it has taken both forks and refreshed
      its meal time, but it never counts the meal, never asks for the wait and never releases
      the forks.  In any other state the meal is the one Eating describes. */
  method EatingAsWritten(t: RootTable, i: int, now: int) returns (blocked: bool, wait: int)
    requires t.Valid() && 0 <= i < t.nbrOfPhilos
    modifies t.philosophers, t`log, t`lockTrace
    ensures blocked <==> t.simulationState == Finished
    ensures blocked ==>
      wait == 0
      && t.philosophers[..] == old(t.philosophers[..])[i := old(t.philosophers[i]).(lastMealTime := now)]
      && t.lockTrace == old(t.lockTrace) + TakeTrace(old(t.philosophers[i]))
      && t.log == old(t.log) + ForkLines(t, old(t.philosophers[i]), now)
    ensures !blocked ==>
      wait == t.timeToEat
      && t.philosophers[..] == old(t.philosophers[..])[i := AfterMeal(old(t.philosophers[i]), t.nbrTimesToEat, now)]
      && t.lockTrace == old(t.lockTrace) + TakeTrace(old(t.philosophers[i])) + ReleaseTrace(old(t.philosophers[i]))
      && t.log == old(t.log) + ForkLines(t, old(t.philosophers[i]), now)
         + if RootUtils.Visible(t.simulationState, t.allAte, StartedEating)
           then [Printed(now - t.startTime, old(t.philosophers[i]).id + 1, StartedEating)] else []
  {
    if t.simulationState == Finished {
      TakeForks(t, i, now);
      t.philosophers[i] := t.philosophers[i].(lastMealTime := now);
      return true, 0;
    }
    blocked := false;
    wait := Eating(t, i, now);
  }

  /** A thread blocked inside its meal keeps both forks locked, the second innermost, so no
      later unlock of the first fork can succeed until the second is released; a completed
      meal (MealIsNested) leaves the held mutexes as they were. */
  lemma BlockedMealKeepsForks(pre: seq<LockAction>, p: Philosopher, held: seq<int>)
    requires Run(pre, held).Some?
    ensures Run(pre + TakeTrace(p), held) == Some(Run(pre, held).value + [FirstFork(p), SecondFork(p)])
    ensures FirstFork(p) != SecondFork(p) ==> Run(pre + TakeTrace(p) + [Unlock(FirstFork(p))], held) == None
  {
    var h := Run(pre, held).value;
    var a, b := FirstFork(p), SecondFork(p);
    RunAppend(pre, TakeTrace(p), held);
    assert TakeTrace(p)[1..] == [Lock(b)] && [Lock(b)][1..] == [];
    assert Run(TakeTrace(p), h) == Run([Lock(b)], h + [a]) == Run([], h + [a] + [b]);
    assert h + [a] + [b] == h + [a, b];
    RunAppend(pre + TakeTrace(p), [Unlock(a)], held);
    assert [Unlock(a)][1..] == [];
  }

  /** Unless the philosopher should stop, prints "is sleeping" and asks for a `time_to_sleep`
      wait; otherwise nothing happens. */
  method Sleeping(t: RootTable, i: int, now: int) returns (wait: int)
    requires t.Valid() && 0 <= i < t.nbrOfPhilos
    modifies t`log
    ensures Stopping(t) ==> wait == 0 && t.log == old(t.log)
    ensures !Stopping(t) ==>
      wait == t.timeToSleep && t.log == old(t.log) + [Printed(now - t.startTime, t.philosophers[i].id + 1, StartedSleeping)]
  {
    var stop := ShouldStop(t);
    if stop {
      return 0;
    }
    RootUtils.PrintStatus(t, t.philosophers[i].id, StartedSleeping, now);
    wait := t.timeToSleep;
  }

  /** Unless the philosopher should stop, prints "is thinking" and pauses 500 µs for even ids;
      otherwise nothing happens. */
  method Thinking(t: RootTable, i: int, now: int) returns (pauseUs: int)
    requires t.Valid() && 0 <= i < t.nbrOfPhilos
    modifies t`log
    ensures Stopping(t) ==> pauseUs == 0 && t.log == old(t.log)
    ensures !Stopping(t) ==>
      (pauseUs == if t.philosophers[i].id % 2 == 0 then 500 else 0) && t.log == old(t.log) + [Printed(now - t.startTime, t.philosophers[i].id + 1, StartedThinking)]
  {
    var stop := ShouldStop(t);
    if stop {
      return 0;
    }
    RootUtils.PrintStatus(t, t.philosophers[i].id, StartedThinking, now);
    pauseUs := if t.philosophers[i].id % 2 == 0 then 500 else 0;
  }

  /** The start of philosopher_routine: the meal clock starts at `start_time`; a lone
      philosopher takes the single-philosopher path, and otherwise odd ids first wait half of
      `time_to_eat` (in microseconds, `time_to_eat * 500`). */
  method StartRoutine(t: RootTable, i: int) returns (single: bool, staggerUs: int)
    requires t.Valid() && 0 <= i < t.nbrOfPhilos
    modifies t.philosophers
    ensures t.philosophers[..] == old(t.philosophers[..])[i := old(t.philosophers[i]).(lastMealTime := t.startTime)]
    ensures single <==> t.nbrOfPhilos == 1
    ensures staggerUs == if !single && t.philosophers[i].id % 2 != 0 then t.timeToEat * 500 else 0
  {
    t.philosophers[i] := t.philosophers[i].(lastMealTime := t.startTime);
    single := t.nbrOfPhilos == 1;
    staggerUs := if !single && t.philosophers[i].id % 2 != 0 then t.timeToEat * 500 else 0;
  }
}
