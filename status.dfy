/** philo/src/status.c: the unfiltered status line, the death-flag query and the state write
    that also raises the death flag when the simulation stops. */
module Status {
  import opened Base
  import opened PhiloData

  /** Every call prints exactly one line, whatever the simulation state. */
  method PrintStatus(t: Table, i: int, msg: Msg, now: int)
    requires 0 <= i < t.philos.Length
    modifies t`log
    ensures t.log == old(t.log) + [Line(now - t.startTime, t.philos[i].id, msg)]
  {
    t.log := t.log + [Line(now - t.startTime, t.philos[i].id, msg)];
  }

  method CheckDeath(t: Table) returns (dead: bool)
    ensures dead == t.isDead
  {
    dead := t.isDead;
  }

  /** Stores `s`; stopping the simulation also raises the death flag, and nothing lowers it. */
  method SetSimulationState(t: Table, s: SimState) returns (r: int)
    modifies t`simState, t`isDead
    ensures r == 0 && t.simState == s
    ensures t.isDead == (old(t.isDead) || s == Stopped)
  {
    t.simState := s;
    if s == Stopped {
      t.isDead := true;
    }
    r := 0;
  }
}
