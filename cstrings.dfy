/** The character classes and the decimal reading shared by every ft_atoi, ft_atoll and
    ft_is_number copy.  A C string is modelled as the characters before its terminating NUL,
    so "the end of the sequence" plays the role of the NUL test in the C loops. */
module CStrings {

  /** ' ' and '\t' through '\r', the white space skipped by every ft_atoi copy. */
  predicate IsSpace(c: char) { c == ' ' || ('\t' <= c <= '\r') }

  predicate IsDigit(c: char) { '0' <= c <= '9' }

  predicate AllDigits(s: string) { forall k :: 0 <= k < |s| ==> IsDigit(s[k]) }

  predicate AllSpaces(s: string) { forall k :: 0 <= k < |s| ==> IsSpace(s[k]) }

  function DigitValue(c: char): (d: nat)
    requires IsDigit(c)
    ensures d <= 9
  {
    c as int - '0' as int
  }

  function DigitChar(d: nat): (c: char)
    requires d <= 9
    ensures IsDigit(c) && DigitValue(c) == d
  {
    ('0' as int + d) as char
  }

  /** The value of a digit string, accumulated left to right as `result * 10 + digit`. */
  function Value(ds: string): (v: nat)
    requires AllDigits(ds)
  {
    if ds == [] then 0 else Value(ds[..|ds| - 1]) * 10 + DigitValue(ds[|ds| - 1])
  }

  /** One accumulation step of the C loops. */
  lemma ValueSnoc(ds: string, c: char)
    requires AllDigits(ds) && IsDigit(c)
    ensures AllDigits(ds + [c]) && Value(ds + [c]) == Value(ds) * 10 + DigitValue(c)
  {
    assert (ds + [c])[..|ds|] == ds;
  }

  /** Reading more digits never makes the accumulated value smaller. */
  lemma {:induction false} ValuePrefixMonotone(ds: string, i: nat)
    requires AllDigits(ds) && i <= |ds|
    ensures Value(ds[..i]) <= Value(ds)
    decreases |ds| - i
  {
    if i < |ds| {
      var longer := ds[..i + 1];
      assert longer[..i] == ds[..i];
      assert Value(longer) == Value(ds[..i]) * 10 + DigitValue(ds[i]);
      ValuePrefixMonotone(ds, i + 1);
    } else {
      assert ds[..i] == ds;
    }
  }

  /** Index of the first character at or after `i` that is not white space. */
  function SkipSpaces(s: string, i: nat): (j: nat)
    requires i <= |s|
    ensures i <= j <= |s|
    ensures forall k :: i <= k < j ==> IsSpace(s[k])
    ensures j < |s| ==> !IsSpace(s[j])
    decreases |s| - i
  {
    if i < |s| && IsSpace(s[i]) then SkipSpaces(s, i + 1) else i
  }

  /** Index of the first character at or after `i` that is not a digit. */
  function DigitsEnd(s: string, i: nat): (j: nat)
    requires i <= |s|
    ensures i <= j <= |s|
    ensures AllDigits(s[i..j])
    ensures j < |s| ==> !IsDigit(s[j])
    decreases |s| - i
  {
    if i < |s| && IsDigit(s[i]) then
      var j := DigitsEnd(s, i + 1);
      assert forall k :: 0 <= k < j - i ==> s[i..j][k] == s[k + i];
      assert forall k :: 1 <= k < j - i ==> s[i..j][k] == s[i + 1..j][k - 1];
      j
    else i
  }

  /** Where the digits start: after the white space and at most one '+' or '-'. */
  function SignEnd(s: string): (j: nat)
    ensures j <= |s|
  {
    var j := SkipSpaces(s, 0);
    if j < |s| && (s[j] == '-' || s[j] == '+') then j + 1 else j
  }

  /** -1 exactly when the sign read after the white space is '-'. */
  function SignOf(s: string): (sign: int)
    ensures sign == 1 || sign == -1
  {
    var j := SkipSpaces(s, 0);
    if j < |s| && s[j] == '-' then -1 else 1
  }

  /** The digit run that every ft_atoi copy accumulates. */
  function Digits(s: string): (ds: string)
    ensures AllDigits(ds)
  {
    s[SignEnd(s)..DigitsEnd(s, SignEnd(s))]
  }

  function Magnitude(s: string): (m: nat) { Value(Digits(s)) }

  /** What an ft_atoi copy without overflow checks computes, on mathematical integers. */
  function AtoiValue(s: string): (v: int) { SignOf(s) * Magnitude(s) }

  /** The shortest decimal spelling of `n`. */
  function Decimal(n: nat): (r: string)
    ensures |r| >= 1 && AllDigits(r) && Value(r) == n
    ensures n >= 10 ==> r[0] != '0'
    decreases n
  {
    if n < 10 then [DigitChar(n)]
    else
      var r := Decimal(n / 10) + [DigitChar(n % 10)];
      ValueSnoc(Decimal(n / 10), DigitChar(n % 10));
      r
  }

  /** One step of a digit-accumulating loop that started at `start`: reading `s[i]` extends
      the digit run by one and multiplies the value read so far by ten before adding it. */
  lemma DigitStep(s: string, start: nat, i: nat)
    requires start <= i < |s| && IsDigit(s[i]) && AllDigits(s[start..i])
    ensures AllDigits(s[start..i + 1])
    ensures Value(s[start..i + 1]) == Value(s[start..i]) * 10 + DigitValue(s[i])
    ensures DigitsEnd(s, i + 1) == DigitsEnd(s, i)
  {
    assert s[start..i] + [s[i]] == s[start..i + 1];
    ValueSnoc(s[start..i], s[i]);
  }

  /** While a loop reads the digit run, the value accumulated so far is a prefix of it and so
      never exceeds the value of the whole run. */
  lemma PrefixBelowMagnitude(s: string, i: nat)
    requires SignEnd(s) <= i <= DigitsEnd(s, SignEnd(s))
    ensures AllDigits(s[SignEnd(s)..i]) && Value(s[SignEnd(s)..i]) <= Magnitude(s)
  {
    var e := SignEnd(s);
    var ds := Digits(s);
    assert s[e..i] == ds[..i - e];
    ValuePrefixMonotone(ds, i - e);
  }

  /** `r > x / 10` exactly when `10 * r > x`: the overflow guard of ft_atoll. */
  lemma DivTenCompare(r: int, x: nat)
    ensures r > x / 10 <==> r * 10 > x
  {
    var q := x / 10;
    assert x == q * 10 + x % 10 && 0 <= x % 10 < 10;
    if r > q {
      assert r * 10 >= q * 10 + 10;
    } else {
      assert r * 10 <= q * 10;
    }
  }

  /** The opening shared by every ft_atoi copy and ft_atoll: skips the white space and reads at most one sign,
      returning where the digits start and the sign read. */
  method SkipSignPrefix(s: string) returns (i: nat, sign: int)
    ensures i == SignEnd(s) && sign == SignOf(s)
  {
    i := 0;
    while i < |s| && IsSpace(s[i])
      invariant 0 <= i <= |s| && SkipSpaces(s, i) == SkipSpaces(s, 0)
    {
      i := i + 1;
    }
    sign := 1;
    if i < |s| && (s[i] == '-' || s[i] == '+') {
      if s[i] == '-' {
        sign := -1;
      }
      i := i + 1;
    }
  }

  lemma {:induction false} SkipLeadingSpaces(ws: string, rest: string, i: nat)
    requires AllSpaces(ws) && i <= |ws|
    requires rest != [] ==> !IsSpace(rest[0])
    ensures SkipSpaces(ws + rest, i) == |ws|
    decreases |ws| - i
  {
    var s := ws + rest;
    if i < |ws| {
      assert s[i] == ws[i];
      SkipLeadingSpaces(ws, rest, i + 1);
    } else if rest != [] {
      assert s[i] == rest[0];
    }
  }

  lemma {:induction false} DigitsEndOfDigits(s: string, i: nat)
    requires i <= |s| && AllDigits(s[i..])
    ensures DigitsEnd(s, i) == |s|
    decreases |s| - i
  {
    if i < |s| {
      assert s[i] == s[i..][0];
      assert s[i + 1..] == s[i..][1..];
      DigitsEndOfDigits(s, i + 1);
    }
  }

  /** Reading back what Decimal writes, after any white space and an optional '-', gives the
      number back: ft_atoi inverts decimal formatting. */
  lemma AtoiOfDecimal(ws: string, negative: bool, n: nat)
    requires AllSpaces(ws)
    ensures AtoiValue(ws + (if negative then "-" else "") + Decimal(n)) == if negative then -(n as int) else n
  {
    var sign := if negative then "-" else "";
    var s := ws + sign + Decimal(n);
    var rest := sign + Decimal(n);
    assert s == ws + rest;
    assert rest[0] == if negative then '-' else Decimal(n)[0];
    SkipLeadingSpaces(ws, rest, 0);
    var start := |ws| + |sign|;
    assert SignEnd(s) == start;
    assert s[start..] == Decimal(n);
    DigitsEndOfDigits(s, start);
    assert Digits(s) == Decimal(n);
  }
}
