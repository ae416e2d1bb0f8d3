# Dining philosophers, verified model

This project models the sequential core of a C dining-philosophers simulation. N philosophers
sit in a ring with one fork between neighbours. Each philosopher repeatedly takes two forks,
eats, sleeps and thinks. A monitor declares a philosopher dead once more than `time_to_die`
milliseconds have passed since its last meal, or ends the simulation once everybody has eaten
the optional number of meals.

The repository holds several near-duplicate variants of the same logic. Each C file is modelled
in its own Dafny module, so that the small differences between copies stay visible. For example:

- `take_fork_safe` checks the death flag in one copy and not in another, and a third copy keeps
  the fork's mutex locked;
- `set_simulation_state` raises the death flag on SIM_STOPPED in some copies and not in others;
- `handle_meal_completion` is guarded by SIM_RUNNING in one copy only.

How the C program is turned into something Dafny can reason about:

- **State.** Shared state is a class whose fields the methods update in place. The fork table
  and the philosopher records are arrays. `PhiloData.Table` follows `philo/philo.h`;
  `RootData.RootTable` follows the root `philo.h`.
- **Clock.** The clock is a `now` parameter. A polling sleep takes the sequence of clock
  readings, or of (state, clock) polls, that its loop would see.
- **Output.** `printf` appends an event (elapsed time, id, message) to the `log` field.
- **Mutexes.** Mutexes carry no data. Where a lock outlives the call that took it, a ghost
  `held` set tracks it. In the root `philosopher.c`, the ghost `lockTrace` records every lock
  and unlock so that their nesting can be stated.
- **Write order.** The order of fork writes is kept in the ghost `history`.
- **Strings and pointers.** A C string is the sequence of characters before its NUL, and
  `argv` is a sequence of strings. Pointers are integers, with 0 for NULL.

Modules:

| module | file |
|---|---|
| `Base` | shared vocabulary |
| `CStrings` | digit and white-space rules shared by every `ft_atoi` |
| `Clock` | millisecond clock and polling exit rule |
| `PhiloData` | `philo/philo.h` |
| `Forks` | `philo/src/forks.c` |
| `ForkUtils` | `philo/src/fork_utils.c` |
| `ForkExtra` | `philo/src/fork_extra.c` |
| `Condition` | `philo/src/condition.c` |
| `Threading` | `philo/src/threading.c` |
| `RootThreading` | `threading.c` |
| `Status` | `philo/src/status.c` |
| `Eat` | `philo/src/eat.c` |
| `Think` | `philo/src/think.c` |
| `Sleep` | `philo/src/sleep.c` |
| `PhiloUtils` | `philo/src/philo_utils.c` |
| `PhiloMain` | `philo/src/philo.c` |
| `PhiloSrcUtils` | `philo/src/utils.c` |
| `SrcUtils` | `src/utils.c` |
| `FilesUtils` | `files/utils.c` |
| `RootData` | root `philo.h` |
| `RootUtils` | `utils.c` |
| `TimeC` | `time.c` |
| `RootPhilosopher` | `philosopher.c` |
| `Monitor` | `files/monitor.c` |
| `FilesMain` | `files/main.c` |
| `Init` | `files/init.c` |
| `Cleanup` | `philo/src/cleanup.c` |

Where the code and its documentation disagree, the model follows the code. Three cases:

- **Philosopher ids in `philosopher.c`.** The root `philosopher.c` prints `id + 1` and takes
  the fork order from the parity of `id`. The modelled root files never assign `id`, so the model
  keeps it as a field of the record.
- **`handle_meal_completion` in `eat.c` and `philo_utils.c`.** These copies move to
  SIM_COMPLETED whatever the state was; only the `philo.c` copy checks for SIM_RUNNING first.
- **`check_all_ate` in `philo.c`.** This copy treats only `must_eat == -1` as "no target".
  The `eat.c` and `philo_utils.c` copies treat every negative value that way.

## Model

| member | source | states |
|---|---|---|
| PhiloData.Acquired | philo/src/forks.c:53-79 | after taking both forks in parity order, both of the philosopher's forks are IN_USE with its id and every other fork is unchanged |
| PhiloData.Released | philo/src/forks.c:81-104 | after release, both of the philosopher's forks are AVAILABLE with owner -1 and every other fork is unchanged |
| PhiloData.AfterAttempt | philo/src/forks.c:53-79 | a two-fork attempt keeps the table length |
| PhiloData.AttemptBothOrNothing | philo/src/forks.c:53-79 | on a consistent table, an attempt either leaves the philosopher holding both forks or leaves the table exactly as it was, and the table stays consistent; nobody ends up holding exactly one fork |
| PhiloData.AcquireReleaseRoundTrip | philo/src/forks.c:53-104 | taking two free forks and then releasing them restores a consistent table exactly |
| PhiloData.AcquireReleaseConsistent | philo/src/forks.c:53-104 | acquisition and release keep "AVAILABLE iff owner -1" true on every fork |
| PhiloData.RingNeighbours | files/init.c:159-187 | in the ring, a philosopher's right fork is its right neighbour's left fork, and the two forks coincide exactly when there is one seat |
| PhiloData.FirstForksCollide | philo/src/forks.c:58-67 | with two or more seats, the parity rule makes two different philosophers reach first for the same fork, so a circular wait in which everybody holds a distinct first fork cannot form |
| PhiloData.SafeWritesReplay | philo/src/forks.c:40-51 | replaying the write history of the guarded acquisition on the table it started from yields the table it leaves |
| PhiloData.LoneForkKept | philo/src/fork_extra.c:19-24 | a lone philosopher on a consistent table never succeeds, ends holding its only fork, changes no other fork, and a second attempt writes nothing: the fork is never put back |
| Forks.CanTakeFork | philo/src/forks.c:15-23 | true iff the fork is AVAILABLE; nothing changes |
| Forks.TakeForkSafe | philo/src/forks.c:25-38 | takes the fork, setting IN_USE and the philosopher's id, iff it is AVAILABLE, whatever the death flag says; a busy fork is left unchanged; one "has taken a fork" line per take |
| Forks.CheckAndTakeBothForksSafe | philo/src/forks.c:40-51 | succeeds iff nobody has died, there are at least two philosophers and both forks are free; the table, the write history and the printed lines are SafeAttempt, SafeWrites and SafeLines: nothing after a death, for a lone philosopher at most its left fork taken (one write, one line), otherwise the two-fork attempt; the wait is `time_to_die + 1` on the lone philosopher's path and none otherwise |
| Forks.CheckAndTakeBothForks | philo/src/forks.c:53-79 | succeeds iff both forks are free; the table becomes AfterAttempt (right fork first for even ids, rollback of the first fork on failure); the write history and the printed lines follow the same order |
| Forks.ReleaseBothForks | philo/src/forks.c:81-104 | both forks become AVAILABLE/-1, second-taken first, and no other fork changes |
| ForkUtils.CanTakeFork | philo/src/fork_utils.c:15-23 | true iff the fork is AVAILABLE; nothing changes |
| ForkUtils.TakeForkSafe | philo/src/fork_utils.c:25-38 | takes the fork iff it is AVAILABLE and nobody has died; otherwise state and owner are unchanged |
| ForkUtils.DeathTestsCompared | philo/src/fork_utils.c:40-61 | once a philosopher has eaten, this death test agrees with the one in threading.c; before the first meal it measures from the start time and grants the full allowance |
| ForkUtils.TimeSinceLastMeal | philo/src/fork_utils.c:48-61 | measured from the start while `last_eat_time` is 0, otherwise from the last meal |
| ForkUtils.IsTimeToDie | philo/src/fork_utils.c:40-46 | true iff the clock is strictly past `time_to_die` after the last meal, or after the start before the first meal |
| ForkUtils.CheckAndTakeBothForks | philo/src/fork_utils.c:63-88 | after a death nothing is taken; otherwise the parity-ordered attempt with rollback; succeeds iff not dead and both forks free |
| ForkExtra.CheckAndTakeBothForksSafe | philo/src/fork_extra.c:15-26 | the same guarded acquisition over fork_utils.c: succeeds iff nobody has died, there are at least two philosophers and both forks are free; the table, the write history and the printed lines are SafeAttempt, SafeWrites and SafeLines: nothing after a death, for a lone philosopher at most its left fork taken (one write, one line), otherwise the two-fork attempt; the wait is `time_to_die + 1` on the lone philosopher's path and none otherwise |
| ForkExtra.ReleaseBothForks | philo/src/fork_extra.c:28-52 | even ids release left then right, odd ids right then left; both forks become AVAILABLE/-1 and no other fork changes |
| Condition.IsState | philo/src/condition.c:3-11 | true iff the simulation state equals the target; nothing changes |
| Condition.IsDead | philo/src/condition.c:13-21 | returns the death flag; nothing changes |
| Condition.ReleaseBothForks | philo/src/condition.c:23-47 | the second-taken fork is released first, then the first; both become AVAILABLE/-1 and nothing else changes |
| Threading.IsState | philo/src/threading.c:15-23 | true iff the state equals the target; read only |
| Threading.IsDead | philo/src/threading.c:25-33 | returns the death flag; read only |
| Threading.UpdateMealCount | philo/src/threading.c:35-50 | while nobody has died, the count grows by exactly one and the last meal becomes `now`, with result 1; once dead, nothing changes and the result is 0 |
| Threading.BidirectionalLock | philo/src/threading.c:52-70 | two lock calls on the same two mutexes, the lower address first |
| Threading.BidirectionalUnlock | philo/src/threading.c:72-89 | two unlock calls on the same two mutexes, the higher address first |
| Threading.LockPairOrder | philo/src/threading.c:52-89 | both argument orders give the same calls, and the unlocks undo the locks in reverse order |
| RootThreading.IsState | threading.c:23-32 | true iff the state equals the target; read only |
| RootThreading.IsDead | threading.c:41-50 | returns the death flag; read only |
| RootThreading.UpdateMealCount | threading.c:59-74 | count plus one and last meal `now` iff not dead (result 1); otherwise unchanged (result 0) |
| RootThreading.BidirectionalLock | threading.c:84-106 | the lower address is locked first, whatever the argument order |
| RootThreading.BidirectionalUnlock | threading.c:115-136 | the higher address is unlocked first |
| RootThreading.LockPairOrder | threading.c:84-136 | argument order does not matter, and unlocking is the exact reverse of locking |
| RootThreading.CanTakeFork | threading.c:146-157 | true iff the fork is AVAILABLE; nothing changes |
| RootThreading.TakeForkSafe | threading.c:167-186 | takes the fork iff AVAILABLE and not dead; on success its mutex stays held for the caller, on failure nothing changes and no mutex stays held |
| RootThreading.TimeSinceLastMeal | threading.c:213-222 | the last meal time plus the result is the clock reading |
| RootThreading.IsTimeToDie | threading.c:195-205 | true iff the clock is strictly past `last_eat_time + time_to_die` |
| Status.PrintStatus | philo/src/status.c:3-11 | every call appends exactly one line (elapsed, id, message), whatever the state |
| Status.CheckDeath | philo/src/status.c:13-21 | returns the death flag; nothing changes |
| Status.SetSimulationState | philo/src/status.c:23-31 | stores the state; SIM_STOPPED also raises the death flag, and no state lowers it |
| Eat.Eat | philo/src/eat.c:3-18 | when the meal happens, the philosopher is EATING, its last meal is `now` and its count is one higher, the forks go through take then release, the write history is the two takes then the two releases, the lines are two forks then "is eating", and the wait is `time_to_eat`; without a meal no record changes and the table, history, lines and wait are those of the guarded acquisition (a lone philosopher keeps its left fork IN_USE and waits `time_to_die + 1`); on a consistent table with two or more seats the forks end as they began |
| Eat.CheckAndTakeBothForksSafe | philo/src/eat.c:20-31 | eat.c's copy of the guarded acquisition: succeeds iff nobody has died, there are at least two philosophers and both forks are free; the table, the write history and the printed lines are SafeAttempt, SafeWrites and SafeLines: nothing after a death, for a lone philosopher at most its left fork taken (one write, one line), otherwise the two-fork attempt; the wait is `time_to_die + 1` on the lone philosopher's path and none otherwise |
| Eat.CheckAllAte | philo/src/eat.c:33-54 | true iff the target is non-negative and every count has reached it |
| Eat.HandleMealCompletion | philo/src/eat.c:56-63 | prints the completion line and moves to SIM_COMPLETED unconditionally; the death flag is untouched |
| Think.AdjustThinkTime | philo/src/think.c:16-41 | the wait is ThinkWait: 5 ms for an even ring or a short time to die, otherwise `time_to_eat / 4` for even ids and 0 for odd ids |
| Think.ThinkStaggers | philo/src/think.c:16-41 | in an odd ring with a long time to die, of two adjacent ids (apart from the wrap-around) exactly one waits, and ids 1 and n do not |
| Think.ThinkWaitUniform | philo/src/think.c:16-41 | in an even ring, or with a time to die of at most 410, everybody waits the same 5 ms |
| Think.PhiloThink | philo/src/think.c:3-14 | nothing happens once dead; otherwise the state becomes THINKING, "is thinking" is printed and the wait is ThinkWait |
| Sleep.PhiloSleep | philo/src/sleep.c:3-14 | nothing happens once dead; otherwise the state becomes SLEEPING, "is sleeping" is printed after the state change and the wait is `time_to_sleep` |
| PhiloUtils.SetSimulationState | philo/src/philo_utils.c:15-23 | stores the state; SIM_STOPPED raises the death flag, which nothing lowers |
| PhiloUtils.GetSimulationState | philo/src/philo_utils.c:25-33 | returns the stored state |
| PhiloUtils.SetSetGet | philo/src/philo_utils.c:15-33 | after two writes the last one is read back, and the flag is up iff it was up or either write was SIM_STOPPED |
| PhiloUtils.CheckAllAte | philo/src/philo_utils.c:35-56 | false for a negative target; otherwise true iff every count has reached it |
| PhiloUtils.HandleMealCompletion | philo/src/philo_utils.c:58-65 | completion line, then SIM_COMPLETED whatever the state was |
| PhiloUtils.FirstBreach | philo/src/philo_utils.c:74-88 | the lowest index passing the termination test (strictly over the time to die and not already DEAD), or none |
| PhiloUtils.TerminationScan | philo/src/philo_utils.c:74-88 | only the first philosopher in index order that passes the test is marked DEAD, "died" is printed for it and the simulation stops; without one nothing changes |
| PhiloUtils.HandleTerminationAsWritten | philo/src/philo_utils.c:67-89 | the scan with the test as written, i.e. FirstBreach on the clock reading `now - start_time`: the selected philosopher becomes DEAD, a "died" line with the real elapsed time is printed, the state is STOPPED and the death flag raised; when nobody is selected no record, line, state or flag changes |
| PhiloUtils.AsWrittenMissesStarvation | philo/src/philo_utils.c:77 | concrete case: started at 1000, last fed at 1000, checked at 2000 with time to die 500; the test as written finds nobody, the corrected one finds philosopher 0 |
| PhiloUtils.AsWrittenIsLate | philo/src/philo_utils.c:77 | the test as written equals the corrected test with `start_time` added to the time to die |
| PhiloUtils.HandleTermination | philo/src/philo_utils.c:67-89 | the corrected scan: the first philosopher with `now - last_eat_time > time_to_die` that is not DEAD is marked, "died" is printed and the simulation stops; nobody else changes |
| PhiloUtils.CorrectedScanSelectsFirstStarving | philo/src/philo_utils.c:74-88 | when nobody is DEAD, the corrected scan finds someone iff some philosopher is starving |
| PhiloMain.PrintStatus | philo/src/philo.c:19-40 | a line is printed iff nobody has died or the message is "died"; after a death the log can only grow by "died" lines |
| PhiloMain.CheckDeath | philo/src/philo.c:42-51 | returns the death flag |
| PhiloMain.TakeForks | philo/src/philo.c:53-103 | returns 1 iff not dead before, no death between the takes and both forks free; the first fork is taken in parity order and rolled back, with its mutex released, when death is seen or the second is busy; on success both mutexes stay held; the write history gains nothing if the first take fails, else the first take followed by the second take or the first fork's release |
| PhiloMain.TakeSecondFork | philo/src/philo.c:80-102 | holding the first fork: a death seen now, or a busy second fork, puts the first fork back and unlocks it; otherwise the second fork is taken and its mutex kept; exactly that one write (the release or the take) is appended to the history |
| PhiloMain.ReleaseForks | philo/src/philo.c:105-132 | releases the second-taken fork and then the first, unlocking both mutexes; no other fork changes |
| PhiloMain.TakeThenRelease | philo/src/philo.c:53-132 | taking and then releasing leaves a consistent fork table and the set of held mutexes exactly as before |
| PhiloMain.Eat | philo/src/philo.c:134-160 | on a successful acquisition: EATING, last meal `now`, count plus one, forks taken and released, a history of two takes and two releases, lines for two forks and the meal, and a `time_to_eat` wait; otherwise no record changes and the table, history, lines and wait are those of fork_extra.c's guarded acquisition |
| PhiloMain.SetSimulationState | philo/src/philo.c:236-242 | stores the state only; this copy does not touch the death flag |
| PhiloMain.GetSimulationState | philo/src/philo.c:245-254 | returns the stored state |
| PhiloMain.SetThenGet | philo/src/philo.c:236-254 | the state written is read back and the death flag is unchanged |
| PhiloMain.CheckAllAte | philo/src/philo.c:295-320 | true iff the target is not -1 and every count has reached it |
| PhiloMain.HandleMealCompletion | philo/src/philo.c:323-332 | only a running simulation is completed and announced; any other state is kept and nothing is printed |
| PhiloMain.FirstBreach | philo/src/philo.c:414-461 | the lowest index whose time since the last meal exceeds the threshold, or none |
| PhiloMain.ScanForDeath | philo/src/philo.c:414-461 | at most one death per scan: while the flag is down, the first philosopher over the threshold becomes DEAD, the flag is raised, "died" is printed and the simulation stops; nobody else changes |
| PhiloMain.MonitorRoutinePass | philo/src/philo.c:386-474 | a lone philosopher is declared dead; otherwise the first death wins, else a running simulation whose everybody has met the target is completed; `stop` iff one of these happened, and nothing changes otherwise; the wait is `time_to_die + 10` for a lone philosopher, 1 ms after a pass that does not stop, and none otherwise |
| PhiloMain.MonitorPhilosPass | philo/src/philo.c:476-540 | the same scan without the RUNNING test; a met target stops the simulation (raising no flag and printing nothing); a pass that does not stop ends with a 1 ms wait |
| PhiloMain.ScanAppliesTimeToDie | threading.c:195-205 | outside the two factor-ten configurations, the monitor scan of philo/src/philo.c selects the first philosopher for whom is_time_to_die holds, and nobody iff it holds for nobody |
| PhiloSrcUtils.GetTime | philo/src/utils.c:3-10 | -1 on clock failure; otherwise the seconds and the milliseconds of the reading can be read back from the result |
| PhiloSrcUtils.FtAtoi | philo/src/utils.c:12-35 | the value of the white space, optional sign and digit run, and 0 when there are no digits |
| PhiloSrcUtils.TimeElapsed | philo/src/utils.c:37-40 | start plus the result is `now` |
| PhiloSrcUtils.SleepStrategyBounds | philo/src/utils.c:42-50 | the slice (500/200/50 µs) never outlasts the remaining wait, and a longer wait never gets a shorter slice |
| PhiloSrcUtils.FtUsleep | philo/src/utils.c:52-67 | exits at the first reading at least `time` ms after the first one; every earlier poll pauses by sleep_strategy of the remaining time |
| SrcUtils.GetTime | src/utils.c:8-15 | -1 on failure; otherwise seconds and milliseconds are recoverable |
| SrcUtils.FtUsleep | src/utils.c:23-48 | exits once at least `time` ms have elapsed; each earlier poll pauses 500, 200 or 50 µs by the remaining time |
| SrcUtils.PauseBounds | src/utils.c:23-48 | the three-tier slice never outlasts the remaining wait and is monotone in it |
| SrcUtils.TimeElapsed | src/utils.c:56-59 | start plus the result is `now` |
| SrcUtils.FtAtoi | src/utils.c:61-84 | white space, optional sign, digits up to the first non-digit; 0 without digits |
| FilesUtils.GetTime | files/utils.c:8-15 | -1 on failure; otherwise seconds and milliseconds are recoverable |
| FilesUtils.FtUsleep | files/utils.c:23-41 | exits once at least `time` ms have elapsed; each earlier poll pauses 1000 µs with more than 5 ms left, else 100 µs |
| FilesUtils.PauseBounds | files/utils.c:23-41 | the two-tier slice never outlasts the remaining wait and is monotone in it |
| FilesUtils.TimeElapsed | files/utils.c:49-52 | start plus the result is `now` |
| FilesUtils.FtAtoi | files/utils.c:54-77 | white space, optional sign, digits up to the first non-digit; 0 without digits |
| CStrings.SkipSignPrefix | utils.c:51-60 | the digits start after the white space and at most one sign, and the sign is -1 iff that sign is '-' |
| CStrings.AtoiOfDecimal | philo/src/utils.c:12-35 | reading back a decimal number, after any white space and an optional '-', gives the number back |
| Clock.ExitPoll | philo/src/utils.c:59-66 | the first poll at which at least `time` ms have elapsed since the first reading; every earlier poll falls short |
| RootUtils.FtIsdigit | utils.c:15-18 | true iff the character is '0'..'9' |
| RootUtils.FtIsNumber | utils.c:24-40 | accepts exactly an optional single leading '+' followed by one or more digits |
| RootUtils.FtAtoi | utils.c:46-69 | the signed value when it fits an int, otherwise -1 |
| RootUtils.FtAtoll | utils.c:75-98 | -1 once the digits exceed LLONG_MAX, otherwise the signed value |
| RootUtils.OverflowGuard | utils.c:92-93 | the guard `result > (LLONG_MAX - d) / 10` refuses a digit iff appending it would pass LLONG_MAX |
| RootUtils.Refused | utils.c:92-93 | when the guard refuses a digit, the whole digit run is beyond LLONG_MAX |
| RootUtils.PrintStatus | utils.c:102-130 | a line showing `id + 1` is appended iff the print filter allows it: not in STATE_ERROR, and while running, for a death, or once finished with everybody fed |
| RootUtils.OnlyDeathsAfterFinish | utils.c:102-130 | after a finish without everybody fed only "died" lines appear, and nothing appears in STATE_ERROR |
| RootUtils.ValidateArg | utils.c:141-161 | the code is ArgCode: not a number 1, not positive 2, beyond INT_MAX 3, philosopher count beyond 200 4, else 0, in that order |
| RootUtils.NumeralIsPositive | utils.c:24-40 | a string ft_is_number accepts reads with sign + |
| RootUtils.ArgCodeAccepts | utils.c:141-161 | an argument passes iff it is a numeral with value in 1..INT_MAX, and at most 200 for the first argument |
| RootUtils.ArgCodeOfLargeNumerals | utils.c:141-161 | a numeral beyond LLONG_MAX reads as -1 and is reported as code 2; one within LLONG_MAX but beyond INT_MAX is code 3 |
| RootUtils.DecimalAccepted | utils.c:141-161 | every decimal number in 1..INT_MAX passes (up to 200 for the philosopher count) |
| RootUtils.FirstFailure | utils.c:167-181 | the leftmost failing argument; every one before it passes |
| RootUtils.CheckArgs | utils.c:167-181 | the code of the first failing argument from the left, or 0 when all pass |
| TimeC.GetTimeInMs | time.c:22-29 | -1 on clock failure; otherwise the seconds and milliseconds of the reading are recoverable |
| TimeC.TimeDiffMs | time.c:47-50 | start plus the difference is the end |
| TimeC.IsPhilosopherDead | time.c:60-71 | true iff the clock is strictly past `last_meal_time + time_to_die` |
| TimeC.ScanSelectsFirstDead | time.c:60-71 | the monitor's scan of files/monitor.c (FirstStarving) selects the first philosopher for whom is_philosopher_dead holds, and nobody iff it holds for nobody |
| TimeC.Pause | time.c:101-104 | 1000 µs iff more than 5 ms remain, otherwise 100 µs |
| TimeC.SmartExit | time.c:81-106 | the first poll that saw a state other than RUNNING or at least `time` ms elapsed |
| TimeC.SmartSleep | time.c:81-106 | leaves at SmartExit; every earlier poll pauses by Pause of the remaining time |
| TimeC.SmartExitMatchesClock | time.c:81-106 | smart_sleep never leaves later than a sleep watching only the clock, and leaves at the same poll while the simulation keeps running |
| RootPhilosopher.ShouldStop | philosopher.c:19-27 | true iff the state is not RUNNING, somebody died or everybody ate |
| RootPhilosopher.HandleSinglePhilosopher | philosopher.c:33-49 | locks and unlocks only the left fork, prints at most one fork line and waits `time_to_die`; the lone philosopher never eats |
| RootPhilosopher.TakeForks | philosopher.c:56-77 | locks right then left for even ids, left then right for odd ids, with one fork line per lock |
| RootPhilosopher.ReleaseForks | philosopher.c:82-99 | unlocks in the reverse order of TakeForks |
| RootPhilosopher.MealIsNested | philosopher.c:56-99 | a take followed by a release leaves exactly the mutexes held before, whatever came earlier |
| RootPhilosopher.AfterMeal | philosopher.c:116-129 | last meal `now`, count plus one, full iff it was full or a target exists and is reached |
| RootPhilosopher.FullIsStable | philosopher.c:127-129 | over any number of further meals, once full stays full, and full iff the count has reached the target |
| RootPhilosopher.Eating | philosopher.c:106-134 | the corrected meal (see Findings): only philosopher `i` changes, to AfterMeal; the lock trace is take then release; the lines are the two fork lines then "is eating", each as the print filter allows; the wait is `time_to_eat` |
| RootPhilosopher.EatingAsWritten | philosopher.c:106-134 | blocked iff the state is FINISHED; then both forks are locked and never unlocked, only the meal time is refreshed, the count is not raised, only the fork lines are printed and there is no wait; in any other state the outcome is exactly Eating's |
| RootPhilosopher.BlockedMealKeepsForks | philosopher.c:112-118 | after the takes of a blocked meal both forks stay held, the second innermost, so an unlock of the first fork next is a nesting error |
| RootPhilosopher.Sleeping | philosopher.c:140-152 | does nothing when ShouldStop holds; otherwise "is sleeping" (filtered) and a `time_to_sleep` wait |
| RootPhilosopher.Thinking | philosopher.c:158-174 | does nothing when ShouldStop holds; otherwise "is thinking" (filtered) and a 500 µs pause for even ids |
| RootPhilosopher.StartRoutine | philosopher.c:189-200 | the last meal starts at `start_time`; a lone philosopher takes the single path; otherwise odd ids wait half a meal |
| Monitor.CheckIfAnyoneDied | files/monitor.c:20-28 | returns `anyone_died` |
| Monitor.MarkPhilosopherDeath | files/monitor.c:34-47 | `anyone_died` is raised, the state becomes FINISHED, and then "died" is printed |
| Monitor.CheckIfAllAte | files/monitor.c:54-62 | returns `all_ate` |
| Monitor.CheckDeath | files/monitor.c:69-93 | death iff the simulation is running and `now - last_meal_time > time_to_die`, and then the philosopher is marked; otherwise nothing changes |
| Monitor.CheckAllAte | files/monitor.c:100-137 | with a target and while running: when everybody reached it, `all_ate`, FINISHED and a summary carrying the sum of all meal counts; otherwise nothing changes |
| Monitor.Clamp | files/monitor.c:169-177 | the pause is kept within 100..10000 µs |
| Monitor.CalculateNextCheckInterval | files/monitor.c:144-178 | the interval is the clamp of 1000 times the least remaining time to death |
| Monitor.MinRemainingBelow | files/monitor.c:144-178 | the least remaining time is at most every philosopher's own |
| Monitor.IntervalNoLaterThanDeath | files/monitor.c:144-178 | the pause never exceeds a thousand times anybody's remaining time, or the 100 µs floor |
| Monitor.FirstStarving | files/monitor.c:193-210 | the lowest starving index, every earlier one not starving |
| Monitor.MonitorPass | files/monitor.c:186-212 | the lowest starving index dies first and ends the pass; without a death the meal target is checked and the next interval computed |
| FilesMain.GetSimulationState | files/main.c:21-29 | returns the stored state |
| FilesMain.SetSimulationState | files/main.c:34-39 | stores the state and nothing else |
| FilesMain.SetThenGet | files/main.c:21-39 | the state written is the state read back |
| FilesMain.ParseArguments | files/main.c:95-120 | SUCCESS iff there are 4 or 5 arguments and each passes validate_arg; ERROR otherwise |
| Init.ValidateArgs | files/init.c:3-30 | 0 iff there are 4 or 5 arguments made only of digits (empty allowed, signs rejected); otherwise 1 |
| Init.DigitArgValue | files/init.c:45-52 | a digit-only argument reads as its decimal value, which is non-negative |
| Init.StoreArguments | files/init.c:45-52 | stores the four values, and the meal target or -1 |
| Init.InitForks | files/init.c:124-157 | a fresh table with one fork per philosopher, each AVAILABLE with owner -1 |
| Init.InitData | files/init.c:32-87 | refused arguments give 1 with nothing stored; otherwise the values are stored and the result is 0 iff they are in range, after which nobody is dead, the simulation runs, the lone-philosopher flag is right and the forks are free |
| Init.StartState | files/init.c:64-69 | no death, RUNNING, lone-philosopher flag iff one philosopher, start time `now`, fresh free forks |
| Init.InitDataAccepts | files/init.c:55-61 | the range check passes iff no argument spells zero |
| Init.InitPhilos | files/init.c:159-187 | a fresh ring: id i+1, left i, right (i+1) mod n, THINKING, counts and meal times 0; with matching forks the table is valid |
| Cleanup.Inventory.constructor | philo/src/cleanup.c:44 | a zeroed, uninitialized inventory |
| Cleanup.Inventory.InitResourceInventory | philo/src/cleanup.c:51-64 | idempotent once initialized; -1 when the mutex cannot be made; otherwise an empty initialized table |
| Cleanup.FirstInactive | philo/src/cleanup.c:95-109 | the lowest inactive slot, all earlier ones active |
| Cleanup.Inventory.RegisterResource | philo/src/cleanup.c:74-127 | 0 iff the pointer is non-NULL, the inventory is initialized, the pointer is not already active and a slot is free; the lowest free slot receives it; the count becomes max(count, slot + 1); the pointer joins the active set; on -1 nothing changes |
| Cleanup.ActivateAdds | philo/src/cleanup.c:95-122 | filling an inactive slot adds exactly its pointer to the active set |
| Cleanup.Inventory.UnregisterResource | philo/src/cleanup.c:135-162 | 0 iff the pointer is non-NULL and active; its entry is deactivated, never erased, and it leaves the active set |
| Cleanup.DeactivateRemoves | philo/src/cleanup.c:147-161 | deactivating a pointer's only active entry removes exactly that pointer |
| Cleanup.Inventory.VerifyCleanup | philo/src/cleanup.c:424-472 | -1 iff data is NULL, forks or philos are still allocated, or an initialized inventory still has an active entry |
| Cleanup.Inventory.CleanupAllResourcesByType | philo/src/cleanup.c:554-592 | for thread entries, every active one is deactivated and their number returned; a mutex entry whose destroy fails is skipped, stays active and is not counted; uninitialized or other types change nothing |

## Left out

- Threads, joining and the start gate are left out, because they are concurrency plumbing. This covers `main`, `philo_routine`, `sleep_and_think`, `start_simulation`, the signal handler, and the outer `while` loops of the monitors. Each monitor is modelled as one pass of its loop body; the RUNNING test that guards the next pass belongs to the caller.
- Mutual exclusion and deadlock freedom across threads are not proved. Mutexes are ghost state, and only the lock order and nesting are stated.
- The real clock and sleeping are left out. A clock reading is a parameter. A step that sleeps returns the length of the wait it asks for, and the clock is not advanced by it. The waits returned are: `time_to_eat` and the lone philosopher's `time_to_die + 1` (`Eat.Eat`, `PhiloMain.Eat` and the three `CheckAndTakeBothForksSafe` copies); `time_to_sleep` (`Sleep.PhiloSleep`, `RootPhilosopher.Sleeping`); the thinking waits (`Think.PhiloThink`, `RootPhilosopher.Thinking`); `time_to_die + 10` and the 1 ms pause of the monitors (`PhiloMain.MonitorRoutinePass`, `PhiloMain.MonitorPhilosPass`); the root philosopher's `time_to_die`, `time_to_eat` and start-up stagger (`RootPhilosopher.HandleSinglePhilosopher`, `RootPhilosopher.Eating`, `RootPhilosopher.StartRoutine`); and the root monitor's interval (`Monitor.MonitorPass`). The polling loops of `ft_usleep` and `smart_sleep` are modelled on given clock readings. The waits in `sleep_and_think` and `philo_routine` (philo/src/philo.c:170-230 and 270-283) belong to code left out above.
- The `printf` format is left out. A line is an event. The text of the meal summary in files/monitor.c is reduced to its meal total.
- The cleanup wrappers (root cleanup.c, philo/src/resource_mgmt.c, philo/src/cleanup_utils.c, philo/src/cleanup_extra.c) and files/error_handling.c are not part of this model. They only call `free`, `pthread_*` or print usage text.
- The unlock of a mutex that is not held (philo/src/fork_utils.c:82-84) has no sequential meaning, so it is not modelled.
- Cleanup.Inventory.CleanupAllResourcesByType: requires that an initialized inventory holds no active MEMORY entry, and no active MUTEX entry whose pthread_mutex_destroy succeeds. For those entries the C code reaches unregister_resource (philo/src/cleanup.c:223 and :544), which locks the inventory mutex again while already holding it and self-deadlocks. The destroy outcome is the `destroyFails` parameter; an entry whose destroy fails (philo/src/cleanup.c:214-220) is modelled.
- The unguarded `ft_atoi` copies (philo/src/utils.c, src/utils.c, files/utils.c) are modelled on mathematical integers. Their signed overflow is undefined behaviour in C.
- Memory-allocation and mutex-initialisation failures are left out. `init_mutex` and the inventory registrations made by `init_mutex`, `init_forks` and `init_philos` are not part of this model.
- Monitor.CalculateNextCheckInterval: computes on unbounded integers. The C code's `LLONG_MAX * 1000` for an empty table, and any `int` overflow of the meal total, are not modelled.
- The timing special cases in philo/src/philo.c (192-209 and 280-283) belong to `sleep_and_think` and `philo_routine`, which are left out. The factor-ten death threshold at 429-434 is modelled literally in `PhiloMain.DeathThreshold`.
- `cleanup_all_resources` and the other inventory functions of philo/src/cleanup.c are not part of this model. The modelled ones are: initialisation, register, unregister, verify, and cleanup by type.
- The tests/ directory and the headers supply constants and expected behaviour only.
- RootPhilosopher.Eating: models the evidently intended meal, in which printing "is eating" does not lock `meal_check` again. The self-deadlock of the code as written in the FINISHED state is modelled by RootPhilosopher.EatingAsWritten (see Findings).
- PhiloMain.TakeForks: requires more than one philosopher. With one seat both forks are fork 0. The take_fork_safe of threading.c:167-186 keeps a taken fork's mutex locked, so the second take (philo/src/philo.c:91) locks that mutex again and the thread hangs. The hang is not modelled.
- PhiloMain.TakeThenRelease: excludes a lone philosopher for the same reason as PhiloMain.TakeForks.

## Findings

| source | as written | input that shows it | evidently intended | confidence | as-written member | corrected member |
|---|---|---|---|---|---|---|
| philo/src/philo_utils.c:77 | `time_elapsed(start_time) - last_eat_time > time_to_die` subtracts an absolute `last_eat_time` from a time relative to the start | start 1000, last meal 1000, now 2000, time to die 500: starved 1000 ms, yet no death is found | `now - last_eat_time > time_to_die` | not executed | PhiloUtils.HandleTerminationAsWritten (PhiloUtils.AsWrittenMissesStarvation, PhiloUtils.AsWrittenIsLate) | PhiloUtils.HandleTermination (PhiloUtils.CorrectedScanSelectsFirstStarving) |
| philosopher.c:115-118 | `eating` prints "is eating" while holding `meal_check`; in the FINISHED state print_status asks check_if_all_ate (utils.c:121-123), which locks `meal_check` again (files/monitor.c:58) | the monitor finishes the simulation (a death, or everybody full) after a philosopher's stop test and before its "is eating" line: that thread blocks for good holding both forks and `meal_check`, so its neighbours and every later `meal_check` lock block too | the status line is printed without locking `meal_check` a second time, and the meal completes | not executed | RootPhilosopher.EatingAsWritten (RootPhilosopher.BlockedMealKeepsForks) | RootPhilosopher.Eating (RootPhilosopher.MealIsNested) |
