/** files/init.c: the argument check, init_data's parsing and range checks, and the forks and
    philosopher arrays of the philo/ data layout.  The resource-inventory registrations and
    mutex creation that init.c performs along the way are not part of this model. */
module Init {
  import opened CStrings
  import opened PhiloData
  import FilesUtils

  /** An argument list validate_args accepts: four or five arguments after the program name,
      each made of digits only (an empty argument passes). */
  predicate DigitArgs(argv: seq<string>)
  {
    (|argv| == 5 || |argv| == 6) && forall i :: 1 <= i < |argv| ==> AllDigits(argv[i])
  }

  /** 1 for a wrong argument count or any character outside '0'..'9', signs included; 0
      otherwise. */
  method ValidateArgs(argv: seq<string>) returns (r: int)
    ensures r == 0 || r == 1
    ensures r == 0 <==> DigitArgs(argv)
  {
    if |argv| != 5 && |argv| != 6 {
      return 1;
    }
    var i := 1;
    while i < |argv|
      invariant 1 <= i <= |argv|
      invariant forall k :: 1 <= k < i ==> AllDigits(argv[k])
    {
      var j := 0;
      while j < |argv[i]|
        invariant 0 <= j <= |argv[i]|
        invariant AllDigits(argv[i][..j])
      {
        if argv[i][j] < '0' || argv[i][j] > '9' {
          return 1;
        }
        assert argv[i][..j + 1] == argv[i][..j] + [argv[i][j]];
        j := j + 1;
      }
      assert argv[i][..j] == argv[i];
      i := i + 1;
    }
    return 0;
  }

  /** A digit-only argument reads as its decimal value: there is no white space or sign to
      skip, so ft_atoi takes every character. */
  lemma DigitArgValue(s: string)
    requires AllDigits(s)
    ensures AtoiValue(s) == Value(s) && AtoiValue(s) >= 0
  {
    assert SkipSpaces(s, 0) == 0 by {
      if s != [] { assert IsDigit(s[0]); }
    }
    DigitsEndOfDigits(s, 0);
    assert s[0..] == s;
    assert Digits(s) == s;
  }

  /** The values init_data stores before its range check. */
  predicate Parsed(t: Table, argv: seq<string>)
    requires |argv| >= 5
    reads t
  {
    t.numPhilos == AtoiValue(argv[1]) && t.timeToDie == AtoiValue(argv[2])
    && t.timeToEat == AtoiValue(argv[3]) && t.timeToSleep == AtoiValue(argv[4])
    && t.mustEat == (if |argv| == 6 then AtoiValue(argv[5]) else -1)
  }

  /** The range check: every count and duration positive, and a meal target, when given,
      positive too. */
  predicate InRange(t: Table, argc: int)
    reads t
  {
    t.numPhilos > 0 && t.timeToDie > 0 && t.timeToEat > 0 && t.timeToSleep > 0
    && (argc == 6 ==> t.mustEat > 0)
  }

  /** Reads the four arguments, and the meal target when there is a fifth, into the table
      (-1 for no target). */
  method StoreArguments(t: Table, argv: seq<string>)
    requires |argv| == 5 || |argv| == 6
    modifies t`numPhilos, t`timeToDie, t`timeToEat, t`timeToSleep, t`mustEat
    ensures Parsed(t, argv)
  {
    t.numPhilos := FilesUtils.FtAtoi(argv[1]);
    t.timeToDie := FilesUtils.FtAtoi(argv[2]);
    t.timeToEat := FilesUtils.FtAtoi(argv[3]);
    t.timeToSleep := FilesUtils.FtAtoi(argv[4]);
    if |argv| == 6 {
      t.mustEat := FilesUtils.FtAtoi(argv[5]);
    } else {
      t.mustEat := -1;
    }
  }

  /** Allocates one fork per philosopher, each FORK_AVAILABLE with owner -1. */
  method InitForks(t: Table) returns (r: int)
    requires t.numPhilos >= 0
    modifies t`forks
    ensures r == 0 && fresh(t.forks) && t.forks.Length == t.numPhilos
    ensures forall k :: 0 <= k < t.forks.Length ==> t.forks[k] == Free
  {
    var forks := new Fork[t.numPhilos];
    var i := 0;
    while i < t.numPhilos
      invariant 0 <= i <= t.numPhilos
      invariant forall k :: 0 <= k < i ==> forks[k] == Free
    {
      forks[i] := Fork(Available, -1);
      i := i + 1;
    }
    t.forks := forks;
    r := 0;
  }

  /** 1 for arguments validate_args refuses, with nothing stored; 1 after storing the parsed
      values when one of them is out of range; otherwise 0, with the simulation running, no
      death, the single-philosopher flag set for exactly one seat, the clock started at `now`
      and every fork free. */
  method InitData(t: Table, argv: seq<string>, now: int) returns (r: int)
    modifies t`numPhilos, t`timeToDie, t`timeToEat, t`timeToSleep, t`mustEat
    modifies t`isDead, t`simState, t`singlePhilo, t`startTime, t`forks
    ensures r == 0 || r == 1
    ensures !DigitArgs(argv) ==> r == 1 && unchanged(t)
    ensures DigitArgs(argv) ==> Parsed(t, argv) && (r == 0 <==> InRange(t, |argv|))
    ensures r == 0 ==>
      !t.isDead && t.simState == Running && t.singlePhilo == (t.numPhilos == 1) && t.startTime == now
      && fresh(t.forks) && t.forks.Length == t.numPhilos
      && (forall k :: 0 <= k < t.forks.Length ==> t.forks[k] == Free)
  {
    r := ValidateArgs(argv);
    if r != 0 {
      return 1;
    }
    StoreArguments(t, argv);
    if t.numPhilos <= 0 || t.timeToDie <= 0 || t.timeToEat <= 0 || t.timeToSleep <= 0
      || (|argv| == 6 && t.mustEat <= 0) {
      return 1;
    }
    r := StartState(t, now);
  }

  /** What init_data sets once the arguments are in range: no death, the simulation running,
      the single-philosopher flag, the start of the clock and the forks. */
  method StartState(t: Table, now: int) returns (r: int)
    requires t.numPhilos > 0
    modifies t`isDead, t`simState, t`singlePhilo, t`startTime, t`forks
    ensures r == 0
    ensures !t.isDead && t.simState == Running && t.singlePhilo == (t.numPhilos == 1) && t.startTime == now
    ensures fresh(t.forks) && t.forks.Length == t.numPhilos
    ensures forall k :: 0 <= k < t.forks.Length ==> t.forks[k] == Free
  {
    t.isDead := false;
    t.simState := Running;
    t.singlePhilo := t.numPhilos == 1;
    t.startTime := now;
    r := InitForks(t);
  }

  /** init_data accepts exactly four or five digit-only arguments none of which spells zero
      (the empty argument reads as zero). */
  lemma InitDataAccepts(t: Table, argv: seq<string>)
    requires DigitArgs(argv) && Parsed(t, argv)
    ensures InRange(t, |argv|) <==> forall i :: 1 <= i < |argv| ==> Value(argv[i]) > 0
  {
    forall i | 1 <= i < |argv| ensures AtoiValue(argv[i]) == Value(argv[i]) {
      DigitArgValue(argv[i]);
    }
  }

  /** Seats philosopher `i` at place `i` of the ring: id i + 1, left fork i, right fork
      (i + 1) mod n, thinking, no meals and no meal time yet. */
  method InitPhilos(t: Table) returns (r: int)
    requires t.numPhilos >= 0
    modifies t`philos
    ensures r == 0 && fresh(t.philos) && t.philos.Length == t.numPhilos
    ensures Ring(t.philos[..])
    ensures forall j :: 0 <= j < t.philos.Length ==>
      t.philos[j].state == Thinking && t.philos[j].eatCount == 0 && t.philos[j].lastEatTime == 0
    ensures t.forks.Length == t.numPhilos && t.singlePhilo == (t.numPhilos == 1) ==> t.Valid()
  {
    var philos := new Philo[t.numPhilos];
    var i := 0;
    while i < t.numPhilos
      invariant 0 <= i <= t.numPhilos
      invariant forall j :: 0 <= j < i ==>
        Seated(philos[j], j, t.numPhilos) && philos[j].state == Thinking
        && philos[j].eatCount == 0 && philos[j].lastEatTime == 0
    {
      philos[i] := Philo(i + 1, Thinking, i, (i + 1) % t.numPhilos, 0, 0);
      i := i + 1;
    }
    t.philos := philos;
    r := 0;
  }
}
