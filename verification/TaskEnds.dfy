/** How an execution of a scheduled task ends (celery_scheduler/tasks/task_autotest_case.py), over every run that goes on
  * afterwards. */
module TaskEnds {
  import opened Options
  import opened TaskExecution

  /** The execution has been refused, has returned or raised, or was killed. */
  predicate Over(s: System, e: nat) {
    e in s.runs && (s.runs[e].phase == Ignored || s.runs[e].phase == Ended || s.runs[e].phase == Killed)
  }

  lemma {:induction false} OverStep(l: Limits, s: System, ev: Event, e: nat)
    requires Enabled(l, s, ev) && Over(s, e)
    ensures e in Next(l, s, ev).runs && Next(l, s, ev).runs[e] == s.runs[e]
  {
  }

  /** Nothing happens to it any more. */
  lemma {:induction false} OverStays(l: Limits, s: System, es: seq<Event>, e: nat)
    requires IsRun(l, s, es) && Over(s, e)
    ensures Over(After(l, s, es), e) && After(l, s, es).runs[e] == s.runs[e]
    decreases |es|
  {
    if es != [] {
      OverStep(l, s, es[0], e);
      OverStays(l, Next(l, s, es[0]), es[1..], e);
    }
  }

  /** A claim that finds the row running, and its time not older than the window, is refused for good: the row is as it
    * was, and the execution has written nothing and is recorded as a failure in all that follows. */
  lemma {:induction false} RefusedForGood(l: Limits, s: System, e: nat, clock: int, es: seq<Event>)
    requires Enabled(l, s, Claim(e, clock)) && s.row.state == Some(Running)
    requires s.row.time.Some? && clock - s.row.time.value <= l.stale
    requires IsRun(l, Next(l, s, Claim(e, clock)), es)
    ensures Next(l, s, Claim(e, clock)).row == s.row
    ensures var x := s.runs[e].(phase := Ignored, record := Some(Failure));
            e in After(l, Next(l, s, Claim(e, clock)), es).runs && After(l, Next(l, s, Claim(e, clock)), es).runs[e] == x
  {
    OverStays(l, Next(l, s, Claim(e, clock)), es, e);
  }

  /** Any other claim takes the row: it is running since the execution was stamped. */
  lemma {:induction false} ClaimTakesRow(l: Limits, s: System, e: nat, clock: int)
    requires Enabled(l, s, Claim(e, clock))
    requires s.row.state == Some(Running) ==> s.row.time.None? || clock - s.row.time.value > l.stale
    ensures var s' := Next(l, s, Claim(e, clock));
            s'.row == Row(Some(Running), Some(s.runs[e].started)) && s'.runs == s.runs[e := s.runs[e].(phase := Holding)]
  {
  }

  lemma {:induction false} StartedStays(l: Limits, s: System, es: seq<Event>, e: nat)
    requires IsRun(l, s, es) && e in s.runs && s.runs[e].phase != Begun
    ensures e in After(l, s, es).runs && After(l, s, es).runs[e].phase != Begun
    ensures After(l, s, es).runs[e].started == s.runs[e].started
    decreases |es|
  {
    if es != [] {
      StartedStays(l, Next(l, s, es[0]), es[1..], e);
    }
  }

  /** A claim that succeeds shows the time at which its execution was stamped, however long ago that is. */
  lemma {:induction false} ClaimShowsStamp(l: Limits, s: System, e: nat, es: seq<Event>, clock: int)
    requires Enabled(l, s, Stamp(e)) && IsRun(l, Next(l, s, Stamp(e)), es)
    requires var s' := After(l, Next(l, s, Stamp(e)), es);
             Enabled(l, s', Claim(e, clock)) && In(Next(l, s', Claim(e, clock)), e, Holding)
    ensures Next(l, After(l, Next(l, s, Stamp(e)), es), Claim(e, clock)).row == Row(Some(Running), Some(s.now))
  {
    StartedStays(l, Next(l, s, Stamp(e)), es, e);
  }

  /** A killed execution stays as it was, with its record and its last write; the row keeps its claim, if it had one. */
  lemma {:induction false} KilledForGood(l: Limits, s: System, e: nat, es: seq<Event>)
    requires Enabled(l, s, Kill(e)) && IsRun(l, Next(l, s, Kill(e)), es)
    ensures Next(l, s, Kill(e)).row == s.row
    ensures e in After(l, Next(l, s, Kill(e)), es).runs
    ensures After(l, Next(l, s, Kill(e)), es).runs[e] == s.runs[e].(phase := Killed)
  {
    OverStays(l, Next(l, s, Kill(e)), es, e);
  }
}
