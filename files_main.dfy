/** files/main.c: the locked accessors of the simulation state and the argument check run
    before anything is initialised. */
module FilesMain {
  import opened Base
  import opened RootData
  import RootUtils

  method GetSimulationState(t: RootTable) returns (s: RootState)
    ensures s == t.simulationState
  {
    s := t.simulationState;
  }

  /** Stores the state and nothing else. */
  method SetSimulationState(t: RootTable, s: RootState)
    modifies t`simulationState
    ensures t.simulationState == s
  {
    t.simulationState := s;
  }

  /** Reading the state back returns what was last stored. */
  method SetThenGet(t: RootTable, s: RootState) returns (got: RootState)
    modifies t`simulationState
    ensures got == s
  {
    SetSimulationState(t, s);
    got := GetSimulationState(t);
  }

  /** ERROR for a wrong argument count, before any argument is looked at; otherwise ERROR at the
      first argument whose validate_arg code is not SUCCESS; SUCCESS exactly when the count is
      right and every argument passes. */
  method ParseArguments(argv: seq<string>) returns (r: int)
    ensures r == SUCCESS || r == ERROR
    ensures r == SUCCESS <==>
      (|argv| == 5 || |argv| == 6) && forall j :: 1 <= j < |argv| ==> RootUtils.ArgCode(argv[j], j) == SUCCESS
  {
    if |argv| != 5 && |argv| != 6 {
      return ERROR;
    }
    var i := 1;
    while i < |argv|
      invariant 1 <= i <= |argv|
      invariant forall j :: 1 <= j < i ==> RootUtils.ArgCode(argv[j], j) == SUCCESS
    {
      var code := RootUtils.ValidateArg(argv[i], i);
      if code != SUCCESS {
        return ERROR;
      }
      i := i + 1;
    }
    return SUCCESS;
  }
}
