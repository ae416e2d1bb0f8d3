/** The shared state of the philo/ variant, as declared in philo/philo.h: the fork table, the
    philosopher records and the simulation flags, all reached through one `t_data`.  Mutexes
    carry no data here; where a lock outlives a call it is tracked in the ghost `held` set. */
module PhiloData {
  import opened Base

  /** SIM_RUNNING, SIM_STOPPED, SIM_ERROR, SIM_COMPLETED. */
  datatype SimState = Running | Stopped | Error | Completed

  /** PHILO_THINKING, PHILO_EATING, PHILO_SLEEPING, PHILO_DEAD. */
  datatype PhiloState = Thinking | Eating | Sleeping | Dead

  /** FORK_AVAILABLE, FORK_IN_USE. */
  datatype ForkState = Available | InUse

  /** A `t_fork` without its mutex. */
  datatype Fork = Fork(state: ForkState, owner: int)

  /** What every release and every rollback stores: FORK_AVAILABLE with owner_id -1. */
  const Free: Fork := Fork(Available, -1)

  /** A `t_philo` without its thread handle and back pointer. */
  datatype Philo = Philo(id: int, state: PhiloState, leftFork: int, rightFork: int,
                         eatCount: int, lastEatTime: int)

  /** One line on standard output: "<elapsed> <id> <status>", or a meal-completion line. */
  datatype Event = Line(elapsed: int, id: int, msg: Msg) | Completion(elapsed: int, text: string)

  /** The ring layout init_philos gives seat `j` of `n`. */
  predicate Seated(p: Philo, j: int, n: int)
  {
    0 <= j < n && p.id == j + 1 && p.leftFork == j && p.rightFork == (j + 1) % n
  }

  predicate Ring(ps: seq<Philo>)
  {
    forall j :: 0 <= j < |ps| ==> Seated(ps[j], j, |ps|)
  }

  /** Even ids reach for the right fork first, odd ids for the left one. */
  function FirstFork(p: Philo): (k: int) { if p.id % 2 == 0 then p.rightFork else p.leftFork }

  function SecondFork(p: Philo): (k: int) { if p.id % 2 == 0 then p.leftFork else p.rightFork }

  predicate ForksOf(fs: seq<Fork>, p: Philo)
  {
    0 <= p.leftFork < |fs| && 0 <= p.rightFork < |fs|
  }

  /** Every free fork has owner -1 and every fork in use names an owner. */
  predicate ForksConsistent(fs: seq<Fork>)
  {
    forall k :: 0 <= k < |fs| ==> (fs[k].state == Available <==> fs[k].owner == -1)
  }

  /** Fork `k` is in use by `id`. */
  predicate Holds(fs: seq<Fork>, k: int, id: int)
  {
    0 <= k < |fs| && fs[k] == Fork(InUse, id)
  }

  /** Both of `p`'s forks are distinct and available: the only case in which a two-fork
      acquisition can succeed. */
  predicate BothFree(fs: seq<Fork>, p: Philo)
    requires ForksOf(fs, p)
  {
    p.leftFork != p.rightFork && fs[p.leftFork].state == Available && fs[p.rightFork].state == Available
  }

  /** The fork table after `p` has taken its first and then its second fork. */
  function Acquired(fs: seq<Fork>, p: Philo): (r: seq<Fork>)
    requires ForksOf(fs, p)
    ensures |r| == |fs| && Holds(r, p.leftFork, p.id) && Holds(r, p.rightFork, p.id)
    ensures forall k :: 0 <= k < |fs| && k != p.leftFork && k != p.rightFork ==> r[k] == fs[k]
  {
    fs[FirstFork(p) := Fork(InUse, p.id)][SecondFork(p) := Fork(InUse, p.id)]
  }

  /** The fork table after `p` has put back its second and then its first fork. */
  function Released(fs: seq<Fork>, p: Philo): (r: seq<Fork>)
    requires ForksOf(fs, p)
    ensures |r| == |fs| && r[p.leftFork] == Free && r[p.rightFork] == Free
    ensures forall k :: 0 <= k < |fs| && k != p.leftFork && k != p.rightFork ==> r[k] == fs[k]
  {
    fs[SecondFork(p) := Free][FirstFork(p) := Free]
  }

  /** The fork table after `p` tries to take its first and then its second fork, putting the
      first one back when the second cannot be taken. */
  function AfterAttempt(fs: seq<Fork>, p: Philo): (r: seq<Fork>)
    requires ForksOf(fs, p)
    ensures |r| == |fs|
  {
    if BothFree(fs, p) then Acquired(fs, p)
    else if fs[FirstFork(p)].state == Available then fs[FirstFork(p) := Free]
    else fs
  }

  /** The fork writes of that attempt, in order. */
  function AttemptWrites(fs: seq<Fork>, p: Philo): (writes: seq<(int, Fork)>)
    requires ForksOf(fs, p)
  {
    if BothFree(fs, p) then [(FirstFork(p), Fork(InUse, p.id)), (SecondFork(p), Fork(InUse, p.id))]
    else if fs[FirstFork(p)].state == Available then [(FirstFork(p), Fork(InUse, p.id)), (FirstFork(p), Free)]
    else []
  }

  /** The "has taken a fork" lines of that attempt: one per fork actually taken. */
  function AttemptLines(fs: seq<Fork>, p: Philo, elapsed: int): (lines: seq<Event>)
    requires ForksOf(fs, p)
  {
    if BothFree(fs, p) then [Line(elapsed, p.id, TookFork), Line(elapsed, p.id, TookFork)]
    else if fs[FirstFork(p)].state == Available then [Line(elapsed, p.id, TookFork)]
    else []
  }

  /** The fork table after the guarded acquisition: untouched once somebody has died, a lone
      philosopher's only fork taken when it is free, otherwise the two-fork attempt. */
  function SafeAttempt(fs: seq<Fork>, p: Philo, dead: bool, single: bool): (r: seq<Fork>)
    requires ForksOf(fs, p)
    ensures |r| == |fs|
  {
    if dead then fs
    else if single then (if fs[p.leftFork].state == Available then fs[p.leftFork := Fork(InUse, p.id)] else fs)
    else AfterAttempt(fs, p)
  }

  /** The fork writes of the guarded acquisition, in order. */
  function SafeWrites(fs: seq<Fork>, p: Philo, dead: bool, single: bool): (writes: seq<(int, Fork)>)
    requires ForksOf(fs, p)
  {
    if dead then []
    else if single then (if fs[p.leftFork].state == Available then [(p.leftFork, Fork(InUse, p.id))] else [])
    else AttemptWrites(fs, p)
  }

  /** The "has taken a fork" lines of the guarded acquisition. */
  function SafeLines(fs: seq<Fork>, p: Philo, dead: bool, single: bool, elapsed: int): (lines: seq<Event>)
    requires ForksOf(fs, p)
  {
    if dead then []
    else if single then (if fs[p.leftFork].state == Available then [Line(elapsed, p.id, TookFork)] else [])
    else AttemptLines(fs, p, elapsed)
  }

  /** The table after storing each write in turn; a write naming no fork is skipped. */
  function Replay(fs: seq<Fork>, writes: seq<(int, Fork)>): (r: seq<Fork>)
    decreases |writes|
  {
    if writes == [] then fs
    else if 0 <= writes[0].0 < |fs| then Replay(fs[writes[0].0 := writes[0].1], writes[1..])
    else Replay(fs, writes[1..])
  }

  /** The history explains the table: replaying the writes of the guarded acquisition, in
      order, on the table it started from yields the table it leaves. */
  lemma SafeWritesReplay(fs: seq<Fork>, p: Philo, dead: bool, single: bool)
    requires ForksOf(fs, p)
    ensures Replay(fs, SafeWrites(fs, p, dead, single)) == SafeAttempt(fs, p, dead, single)
  {
    var w := SafeWrites(fs, p, dead, single);
    if |w| == 1 {
      assert Replay(fs, w) == Replay(fs[w[0].0 := w[0].1], []);
    } else if |w| == 2 {
      var fs1 := fs[w[0].0 := w[0].1];
      assert w[1..][1..] == [];
      assert Replay(fs, w) == Replay(fs1, w[1..]) == Replay(fs1[w[1].0 := w[1].1], []);
    }
  }

  /** A lone philosopher (whose two forks are one) on a consistent table ends holding that
      fork whether or not it was free, never succeeds, and a second attempt changes nothing:
      the fork is never put back. */
  lemma LoneForkKept(fs: seq<Fork>, p: Philo)
    requires ForksOf(fs, p) && ForksConsistent(fs) && p.id != -1 && p.leftFork == p.rightFork
    ensures !BothFree(fs, p)
    ensures var r := SafeAttempt(fs, p, false, true);
      ForksConsistent(r) && r[p.leftFork].state == InUse
      && (forall k :: 0 <= k < |fs| && k != p.leftFork ==> r[k] == fs[k])
    ensures SafeAttempt(SafeAttempt(fs, p, false, true), p, false, true) == SafeAttempt(fs, p, false, true)
    ensures SafeWrites(SafeAttempt(fs, p, false, true), p, false, true) == []
  {
    if fs[p.leftFork].state != Available {
      assert fs[p.leftFork].owner != -1;
    }
  }

  /** Both or nothing: on a consistent table an attempt either leaves `p` holding both of its
      forks or leaves the table exactly as it was, and the table stays consistent. */
  lemma AttemptBothOrNothing(fs: seq<Fork>, p: Philo)
    requires ForksOf(fs, p) && ForksConsistent(fs) && p.id != -1
    ensures ForksConsistent(AfterAttempt(fs, p))
    ensures BothFree(fs, p) ==> Holds(AfterAttempt(fs, p), p.leftFork, p.id) && Holds(AfterAttempt(fs, p), p.rightFork, p.id)
    ensures !BothFree(fs, p) ==> AfterAttempt(fs, p) == fs
  {
    if !BothFree(fs, p) && fs[FirstFork(p)].state == Available {
      assert fs[FirstFork(p)] == Free;
    }
  }

  /** Taking both free forks and putting them back restores a consistent table exactly. */
  lemma AcquireReleaseRoundTrip(fs: seq<Fork>, p: Philo)
    requires ForksOf(fs, p) && ForksConsistent(fs) && BothFree(fs, p)
    ensures Released(Acquired(fs, p), p) == fs
  {
    var r := Released(Acquired(fs, p), p);
    forall k | 0 <= k < |fs| ensures r[k] == fs[k] {
      if k == p.leftFork || k == p.rightFork {
        assert fs[k].state == Available;
      }
    }
  }

  /** Acquisition and release keep the table consistent as long as the owner is a real id. */
  lemma AcquireReleaseConsistent(fs: seq<Fork>, p: Philo)
    requires ForksOf(fs, p) && ForksConsistent(fs) && p.id != -1
    ensures ForksConsistent(Acquired(fs, p)) && ForksConsistent(Released(fs, p))
  {
  }

  /** In the ring, a philosopher's right fork is its right neighbour's left fork, and a lone
      philosopher's two forks are the same fork. */
  lemma RingNeighbours(ps: seq<Philo>, j: int)
    requires Ring(ps) && 0 <= j < |ps|
    ensures ps[j].rightFork == ps[(j + 1) % |ps|].leftFork
    ensures |ps| == 1 <==> ps[j].leftFork == ps[j].rightFork
  {
    assert Seated(ps[(j + 1) % |ps|], (j + 1) % |ps|, |ps|);
  }

  /** The parity rule breaks the circular wait: with two or more seats, two different
      philosophers reach first for the same fork, so the philosophers cannot each be holding a
      distinct first fork while waiting for their second one. */
  lemma FirstForksCollide(ps: seq<Philo>)
    requires Ring(ps) && |ps| >= 2
    ensures exists a, b :: 0 <= a < b < |ps| && FirstFork(ps[a]) == FirstFork(ps[b])
  {
    var n := |ps|;
    assert Seated(ps[n - 1], n - 1, n) && Seated(ps[n - 2], n - 2, n) && Seated(ps[0], 0, n);
    if n % 2 == 0 {
      assert FirstFork(ps[0]) == 0 == FirstFork(ps[n - 1]);
    } else {
      assert FirstFork(ps[n - 2]) == n - 1 == FirstFork(ps[n - 1]);
    }
  }

  /** Every philosopher has eaten at least `mustEat` times. */
  predicate EveryoneAte(ps: seq<Philo>, mustEat: int)
  {
    forall j :: 0 <= j < |ps| ==> ps[j].eatCount >= mustEat
  }

  class Table {
    var numPhilos: int
    var timeToDie: int
    var timeToEat: int
    var timeToSleep: int
    var mustEat: int
    var isDead: bool
    var simState: SimState
    var singlePhilo: bool
    var startTime: int
    var forks: array<Fork>
    var philos: array<Philo>
    /** Lines written to standard output, oldest first. */
    var log: seq<Event>
    /** Every write to a fork record, oldest first, so that the order of writes is observable. */
    ghost var history: seq<(int, Fork)>
    /** Fork mutexes that stay locked after the call that locked them has returned. */
    ghost var held: set<int>

    /** The table as init_data and init_philos leave it: one fork per seat, the ring layout
        and the single-philosopher flag. */
    ghost predicate Valid()
      reads this, philos
    {
      forks.Length == numPhilos && philos.Length == numPhilos
      && singlePhilo == (numPhilos == 1)
      && forall j :: 0 <= j < philos.Length ==> Seated(philos[j], j, numPhilos)
    }

    /** The zeroed `t_data` that main declares. */
    constructor ()
      ensures Valid() && numPhilos == 0 && !isDead && simState == Running && startTime == 0
      ensures log == [] && history == [] && held == {}
    {
      numPhilos, timeToDie, timeToEat, timeToSleep, mustEat := 0, 0, 0, 0, 0;
      isDead, simState, singlePhilo, startTime := false, Running, false, 0;
      forks := new Fork[0];
      philos := new Philo[0];
      log, history, held := [], [], {};
    }

    /** Store `f` into fork `k` (under that fork's mutex in the C code). */
    method WriteFork(k: int, f: Fork)
      requires 0 <= k < forks.Length
      modifies forks, this`history
      ensures forks[..] == old(forks[..])[k := f]
      ensures history == old(history) + [(k, f)]
    {
      forks[k] := f;
      history := history + [(k, f)];
    }
  }

  /** Under Valid, seat `i`'s record is in the ring and its forks index the table. */
  lemma SeatOf(t: Table, i: int)
    requires t.Valid() && 0 <= i < t.numPhilos
    ensures Seated(t.philos[i], i, t.numPhilos) && ForksOf(t.forks[..], t.philos[i])
    ensures t.philos[i].id == i + 1 && t.philos[i].id != -1
    ensures (t.philos[i].leftFork == t.philos[i].rightFork) == t.singlePhilo
  {
  }
}
