/** utils.c (root): the digit and number tests, the overflow-checked ft_atoi and ft_atoll, the
    filtered status line and the argument validation with its error codes. */
module RootUtils {
  import opened Base
  import opened CStrings
  import opened RootData

  /** ERROR_NOT_NUMBER, ERROR_NEGATIVE_OR_ZERO, ERROR_TOO_LARGE, ERROR_PHILO_COUNT. */
  const ERROR_NOT_NUMBER: int := 1
  const ERROR_NEGATIVE_OR_ZERO: int := 2
  const ERROR_TOO_LARGE: int := 3
  const ERROR_PHILO_COUNT: int := 4
  const MAX_PHILOSOPHERS: int := 200

  function FtIsdigit(c: char): (r: bool)
    ensures r <==> IsDigit(c)
  {
    c >= '0' && c <= '9'
  }

  /** What ft_is_number accepts: an optional single leading '+' and then one or more digits. */
  predicate IsNumeral(s: string)
  {
    var body := if |s| > 0 && s[0] == '+' then s[1..] else s;
    |body| > 0 && AllDigits(body)
  }

  method FtIsNumber(s: string) returns (r: bool)
    ensures r <==> IsNumeral(s)
  {
    var i := 0;
    if i < |s| && s[i] == '+' {
      i := i + 1;
    }
    if i == |s| {
      return false;
    }
    while i < |s|
      invariant 0 <= i <= |s|
      invariant forall k :: (if |s| > 0 && s[0] == '+' then 1 else 0) <= k < i ==> IsDigit(s[k])
      invariant i >= (if |s| > 0 && s[0] == '+' then 1 else 0)
    {
      if !FtIsdigit(s[i]) {
        return false;
      }
      i := i + 1;
    }
    return true;
  }

  /** The largest magnitude that still fits an `int` with the given sign. */
  function IntLimit(sign: int): (limit: int)
  {
    if sign == 1 then INT_MAX else -INT_MIN
  }

  /** The reading of ft_atoi when it fits an `int`, and -1 as soon as a partial value leaves
      [INT_MIN, INT_MAX]; since partial values only grow, that happens exactly when the whole
      value is out of range. */
  method FtAtoi(s: string) returns (r: int)
    ensures r == if INT_MIN <= AtoiValue(s) <= INT_MAX then AtoiValue(s) else -1
  {
    var i, sign := SkipSignPrefix(s);
    var start := i;
    var result := 0;
    assert s[start..start] == [];
    while i < |s| && IsDigit(s[i])
      invariant start <= i <= |s| && DigitsEnd(s, i) == DigitsEnd(s, start)
      invariant AllDigits(s[start..i]) && result == Value(s[start..i])
      invariant result <= IntLimit(sign)
    {
      DigitStep(s, start, i);
      result := result * 10 + DigitValue(s[i]);
      IntFit(sign, result);
      if result * sign > INT_MAX || result * sign < INT_MIN {
        PrefixBelowMagnitude(s, i + 1);
        IntFit(sign, Magnitude(s));
        return -1;
      }
      i := i + 1;
    }
    assert s[start..i] == Digits(s);
    IntFit(sign, result);
    r := result * sign;
  }

  /** A magnitude `v` read with `sign` fits an `int` exactly when it is at most IntLimit. */
  lemma IntFit(sign: int, v: int)
    requires (sign == 1 || sign == -1) && v >= 0
    ensures (INT_MIN <= v * sign <= INT_MAX) <==> v <= IntLimit(sign)
    ensures v * sign == sign * v
  {
  }

  /** What ft_atoll returns: -1 once the digits exceed LLONG_MAX, the signed value otherwise. */
  function AtollValue(s: string): (v: int)
  {
    if Magnitude(s) > LLONG_MAX then -1 else SignOf(s) * Magnitude(s)
  }

  /** Refuses the next digit whenever it would carry the magnitude beyond LLONG_MAX. */
  method FtAtoll(s: string) returns (r: int)
    ensures r == AtollValue(s)
  {
    var i, sign := SkipSignPrefix(s);
    var start := i;
    var result := 0;
    assert s[start..start] == [];
    while i < |s| && IsDigit(s[i])
      invariant start <= i <= |s| && DigitsEnd(s, i) == DigitsEnd(s, start)
      invariant AllDigits(s[start..i]) && result == Value(s[start..i])
      invariant result <= LLONG_MAX
    {
      var d := DigitValue(s[i]);
      DigitStep(s, start, i);
      if result > (LLONG_MAX - d) / 10 {
        Refused(s, i, result, d);
        return -1;
      }
      OverflowGuard(result, d, result * 10 + d);
      result := result * 10 + d;
      i := i + 1;
    }
    assert s[start..i] == Digits(s);
    r := result * sign;
  }

  /** When the guard refuses a digit, the whole digit run is beyond LLONG_MAX. */
  lemma Refused(s: string, i: nat, result: int, d: nat)
    requires SignEnd(s) <= i < DigitsEnd(s, SignEnd(s)) && d <= 9
    requires AllDigits(s[SignEnd(s)..i + 1]) && Value(s[SignEnd(s)..i + 1]) == result * 10 + d
    requires result > (LLONG_MAX - d) / 10
    ensures Magnitude(s) > LLONG_MAX
  {
    OverflowGuard(result, d, Value(s[SignEnd(s)..i + 1]));
    PrefixBelowMagnitude(s, i + 1);
  }

  /** ft_atoll's guard refuses the digit `d` exactly when appending it, which gives `next`,
      would pass LLONG_MAX. */
  lemma OverflowGuard(result: int, d: nat, next: int)
    requires d <= 9 && next == result * 10 + d
    ensures result > (LLONG_MAX - d) / 10 <==> next > LLONG_MAX
  {
    DivTenCompare(result, LLONG_MAX - d);
  }

  /** A status line is shown unless the state is STATE_ERROR, and then only while running, for
      a death, or once finished with everybody fed. */
  predicate Visible(state: RootState, allAte: bool, msg: Msg)
  {
    state != Error && (state == Running || msg == Died || (state == Finished && allAte))
  }

  /** Prints "<elapsed> <id + 1> <status>" exactly when Visible allows it. */
  method PrintStatus(t: RootTable, id: int, msg: Msg, now: int)
    modifies t`log
    ensures t.log == old(t.log) + if Visible(t.simulationState, t.allAte, msg)
      then [Printed(now - t.startTime, id + 1, msg)] else []
  {
    var elapsed := now - t.startTime;
    var state := t.simulationState;
    if state == Error {
      return;
    }
    if state == Running || msg == Died || (state == Finished && t.allAte) {
      t.log := t.log + [Printed(elapsed, id + 1, msg)];
    }
  }

  /** After a death has finished the simulation without everybody fed, only "died" lines can
      still appear. */
  lemma OnlyDeathsAfterFinish(allAte: bool, msg: Msg)
    requires !allAte
    ensures Visible(Finished, allAte, msg) <==> msg == Died
    ensures !Visible(Error, allAte, msg)
  {
  }

  /** The code validate_arg returns for argument `idx`: not a number, then not positive, then
      beyond INT_MAX, then a philosopher count beyond 200, checked in that order. */
  function ArgCode(s: string, idx: int): (code: int)
  {
    if !IsNumeral(s) then ERROR_NOT_NUMBER
    else
      var num := AtollValue(s);
      if num <= 0 then ERROR_NEGATIVE_OR_ZERO
      else if num > INT_MAX then ERROR_TOO_LARGE
      else if idx == 1 && (num < 1 || num > MAX_PHILOSOPHERS) then ERROR_PHILO_COUNT
      else SUCCESS
  }

  method ValidateArg(s: string, idx: int) returns (code: int)
    ensures code == ArgCode(s, idx)
  {
    var isNumber := FtIsNumber(s);
    if !isNumber {
      return ERROR_NOT_NUMBER;
    }
    var num := FtAtoll(s);
    if num <= 0 {
      return ERROR_NEGATIVE_OR_ZERO;
    }
    if num > INT_MAX {
      return ERROR_TOO_LARGE;
    }
    if idx == 1 && (num < 1 || num > MAX_PHILOSOPHERS) {
      return ERROR_PHILO_COUNT;
    }
    return SUCCESS;
  }

  /** A numeral starts with '+' or a digit, so no white space is skipped and its sign is +. */
  lemma NumeralIsPositive(s: string)
    requires IsNumeral(s)
    ensures SignOf(s) == 1
  {
    assert s[0] == '+' || IsDigit(s[0]);
    assert SkipSpaces(s, 0) == 0;
  }

  /** An argument passes exactly when it is a numeral whose value lies in 1..INT_MAX, and in
      1..200 for the philosopher count. */
  lemma ArgCodeAccepts(s: string, idx: int)
    ensures ArgCode(s, idx) == SUCCESS <==>
      IsNumeral(s) && 1 <= Magnitude(s) <= INT_MAX && (idx == 1 ==> Magnitude(s) <= MAX_PHILOSOPHERS)
  {
    if IsNumeral(s) {
      NumeralIsPositive(s);
    }
  }

  /** A digit string too long for ft_atoll reads as -1 and is reported as not positive rather
      than as too large; one that fits a `long long` but not an `int` is too large. */
  lemma ArgCodeOfLargeNumerals(s: string, idx: int)
    requires IsNumeral(s) && Magnitude(s) > INT_MAX
    ensures Magnitude(s) > LLONG_MAX ==> ArgCode(s, idx) == ERROR_NEGATIVE_OR_ZERO
    ensures Magnitude(s) <= LLONG_MAX ==> ArgCode(s, idx) == ERROR_TOO_LARGE
  {
    NumeralIsPositive(s);
  }

  /** Every number 1..INT_MAX written in decimal is accepted, for the philosopher count when
      it is at most 200. */
  lemma DecimalAccepted(n: nat, idx: int)
    requires 1 <= n <= INT_MAX && (idx == 1 ==> n <= MAX_PHILOSOPHERS)
    ensures ArgCode(Decimal(n), idx) == SUCCESS
  {
    var s := Decimal(n);
    assert IsNumeral(s) by {
      assert s[0] != '+';
    }
    AtoiOfDecimal("", false, n);
    assert "" + "" + s == s;
    NumeralIsPositive(s);
    ArgCodeAccepts(s, idx);
  }

  /** The first argument, from the left, that does not pass, or None. */
  function FirstFailure(argv: seq<string>, from: nat): (r: Option<int>)
    requires 1 <= from <= |argv| || from == |argv|
    ensures r.Some? ==> from <= r.value < |argv| && ArgCode(argv[r.value], r.value) != SUCCESS
    ensures r.Some? ==> forall j :: from <= j < r.value ==> ArgCode(argv[j], j) == SUCCESS
    ensures r.None? ==> forall j :: from <= j < |argv| ==> ArgCode(argv[j], j) == SUCCESS
    decreases |argv| - from
  {
    if from >= |argv| then None
    else if ArgCode(argv[from], from) != SUCCESS then Some(from)
    else FirstFailure(argv, from + 1)
  }

  /** Scans the arguments left to right and returns the code of the first one that fails, or
      SUCCESS when all pass. */
  method CheckArgs(argv: seq<string>) returns (code: int)
    ensures |argv| <= 1 ==> code == SUCCESS
    ensures |argv| > 1 ==> code == match FirstFailure(argv, 1)
                                     case None => SUCCESS
                                     case Some(j) => ArgCode(argv[j], j)
  {
    var i := 1;
    while i < |argv|
      invariant 1 <= i
      invariant |argv| > 1 ==> i <= |argv| && FirstFailure(argv, i) == FirstFailure(argv, 1)
    {
      code := ValidateArg(argv[i], i);
      if code != SUCCESS {
        return code;
      }
      i := i + 1;
    }
    return SUCCESS;
  }
}
