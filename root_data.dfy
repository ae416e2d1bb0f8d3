/** The shared state of the root variant, as declared in the root philo.h: philosopher records
    with a meal count and a "full" flag, plain fork mutexes, and the `anyone_died` and
    `all_ate` flags beside the simulation state.  Fork mutexes carry no data; the order in
    which they are locked and unlocked is kept in the ghost `lockTrace`. */
module RootData {
  import opened Base

  /** STATE_RUNNING, STATE_FINISHED, STATE_ERROR. */
  datatype RootState = Running | Finished | Error

  /** A `t_philosopher` without its thread handle and back pointer. */
  datatype Philosopher = Philosopher(id: int, mealsEaten: int, leftForkId: int, rightForkId: int,
                                     lastMealTime: int, isFull: bool)

  /** A line on standard output: a status line showing `shownId`, or the meal summary. */
  datatype RootEvent = Printed(elapsed: int, shownId: int, msg: Msg) | MealSummary(target: int, total: int)

  /** SUCCESS and ERROR of the root header. */
  const SUCCESS: int := 0
  const ERROR: int := 1

  /** Total of the meal counts, summed in index order. */
  function SumMeals(ps: seq<Philosopher>): (total: int)
  {
    if ps == [] then 0 else SumMeals(ps[..|ps| - 1]) + ps[|ps| - 1].mealsEaten
  }

  class RootTable {
    var nbrOfPhilos: int
    var timeToDie: int
    var timeToEat: int
    var timeToSleep: int
    var nbrTimesToEat: int
    var allAte: bool
    var anyoneDied: bool
    var simulationState: RootState
    var startTime: int
    var philosophers: array<Philosopher>
    /** Lines written to standard output, oldest first. */
    var log: seq<RootEvent>
    /** Every lock and unlock of a fork mutex, oldest first. */
    ghost var lockTrace: seq<LockAction>

    /** One record per philosopher, each naming forks that exist. */
    ghost predicate Valid()
      reads this, philosophers
    {
      philosophers.Length == nbrOfPhilos
      && forall j :: 0 <= j < philosophers.Length ==>
           0 <= philosophers[j].leftForkId < nbrOfPhilos && 0 <= philosophers[j].rightForkId < nbrOfPhilos
    }

    /** The zeroed `t_data` that main declares. */
    constructor ()
      ensures Valid() && nbrOfPhilos == 0 && simulationState == Running
      ensures !allAte && !anyoneDied && log == [] && lockTrace == []
    {
      nbrOfPhilos, timeToDie, timeToEat, timeToSleep, nbrTimesToEat := 0, 0, 0, 0, 0;
      allAte, anyoneDied, simulationState, startTime := false, false, Running, 0;
      philosophers := new Philosopher[0];
      log, lockTrace := [], [];
    }
  }
}
