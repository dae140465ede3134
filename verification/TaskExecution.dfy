/** Execution of scheduled tasks (celery_scheduler/tasks/task_autotest_case.py): at-least-once delivery,
  * the claim on the task row (applications/autotest/services/autotest_task_crud.py), the terminal state
  * each claim writes, and the two time limits (configure/celery_config.py), as a state machine over the
  * steps that touch the row or the execution record.
  *
  * The body of the task is a coroutine on the event loop of another thread, while the worker's main thread
  * waits for its result (common/async_or_sync_convert.py). The hard limit kills the process and the
  * coroutine with it; the soft limit raises in the main thread alone: the delivery ends as a failure and is
  * acknowledged, and the coroutine goes on, with its claim and without a limit. */
module TaskExecution {
  import opened Options

  datatype State = Running | Success | PartialSuccess | Failure

  /** last_execute_state and last_execute_time of the task row. */
  datatype Row = Row(state: Option<State>, time: Option<int>)

  /** Where one delivery of the message stands. */
  datatype Phase =
    | Begun          // the worker has the message
    | Stamped        // run_started_at is taken
    | Holding        // the claim succeeded, no terminal state is written yet
    | Failing        // in the exception handler, before its write
    | Closing        // the terminal state is written, the schedule may be closed
    | Handled        // the handler has written, and may still close the schedule
    | Ignored        // the claim failed
    | Ended          // the claimed run has returned or raised
    | Killed         // at the hard limit

  /** An execution: whether its coroutine is left to itself, how often and what it last wrote to the task row,
    * the status its end will have recorded, and the status of its record. */
  datatype Execution = Execution(phase: Phase, begin: int, started: int, detached: bool, writes: nat, wrote: Option<State>,
                                 due: State, record: Option<State>)

  /** The time limits, and how old a RUNNING state must be to be taken over. */
  datatype Limits = Limits(hard: nat, soft: nat, stale: nat)

  /** AUTOTEST_TASK_TIME_LIMIT, AUTOTEST_TASK_SOFT_TIME_LIMIT, and the first with RUN_STATE_STALE_GRACE_SECONDS. */
  const CONFIGURED := Limits(28800, 25200, 28800 + 60)

  datatype System = System(now: int, row: Row, runs: map<nat, Execution>)

  datatype Event =
    | Deliver(e: nat)                 // first delivery or redelivery, at any time
    | Stamp(e: nat)
    | Claim(e: nat, clock: int)       // clock is the time the claim compares with
    | Finish(e: nat, state: State, told: bool) // the terminal state of the batch; told if its result has a
                                               // case count or says that the batch failed
    | FinishEmpty(e: nat)             // a task without cases
    | Raise(e: nat)                   // the batch or its save raises
    | FailureWritten(e: nat)          // the handler's write
    | SaveRaises(e: nat)              // the only write of the empty task or of the handler fails
    | Close(e: nat)                   // the rest of the run
    | CloseRaises(e: nat)             // closing the schedule raises inside the try block
    | SoftTimeout(e: nat)             // SoftTimeLimitExceeded in the main thread
    | Kill(e: nat)                    // with the process, at the hard limit or for another reason
    | Tick

  predicate Live(x: Execution) {
    x.phase !in {Ignored, Ended, Killed}
  }

  /** The execution has the claim and has not given it back. */
  predicate Holds(x: Execution) {
    x.phase == Holding || x.phase == Failing
  }

  /** The condition of the UPDATE in claim_execution. */
  predicate Claimable(l: Limits, row: Row, clock: int) {
    row.state.None? || row.state != Some(Running) || row.time.None? || row.time.value < clock - l.stale
  }

  predicate In(s: System, e: nat, phase: Phase) {
    e in s.runs && s.runs[e].phase == phase
  }

  /** A batch without a case count is a failed one to the task row. */
  predicate BatchEnd(state: State, told: bool) {
    state != Running && (told || state == Failure)
  }

  /** What the record of a batch gets when its task returns. */
  function BatchRecord(state: State, told: bool): State {
    if told then state else Success
  }

  predicate Enabled(l: Limits, s: System, ev: Event) {
    match ev
    case Deliver(e) => e !in s.runs
    case Stamp(e) => In(s, e, Begun)
    case Claim(e, clock) => In(s, e, Stamped) && s.runs[e].started <= clock <= s.now
    case Finish(e, state, told) => In(s, e, Holding) && BatchEnd(state, told)
    case FinishEmpty(e) => In(s, e, Holding)
    case Raise(e) => In(s, e, Holding)
    case FailureWritten(e) => In(s, e, Failing)
    case SaveRaises(e) => In(s, e, Holding) || In(s, e, Failing)
    case Close(e) => In(s, e, Closing) || In(s, e, Handled)
    case CloseRaises(e) => In(s, e, Closing)
    case SoftTimeout(e) => Attached(s, e) && l.soft <= s.now - s.runs[e].begin < l.hard
    case Kill(e) => e in s.runs && Live(s.runs[e])
    case Tick => forall e :: e in s.runs && Attached(s, e) ==> s.now + 1 - s.runs[e].begin <= l.hard
  }

  /** A live execution that the worker waits for. */
  predicate Attached(s: System, e: nat) {
    e in s.runs && Live(s.runs[e]) && !s.runs[e].detached
  }

  function Move(s: System, e: nat, phase: Phase): System
    requires e in s.runs
  {
    s.(runs := s.runs[e := s.runs[e].(phase := phase)])
  }

  /** A save of last_execute_state alone; `due` is what the record gets if all goes well from there. */
  function Write(s: System, e: nat, state: State, due: State, phase: Phase): System
    requires e in s.runs
  {
    var x := s.runs[e].(phase := phase, writes := s.runs[e].writes + 1, wrote := Some(state), due := due);
    s.(row := s.row.(state := Some(state)), runs := s.runs[e := x])
  }

  /** The end of the coroutine. A worker that waits for it records the status. */
  function Leave(s: System, e: nat, status: State): System
    requires e in s.runs
  {
    var x := s.runs[e];
    s.(runs := s.runs[e := x.(phase := Ended, record := if x.detached then x.record else Some(status))])
  }

  /** The claim failed: the delivery returns at once and is recorded as a failure. */
  function Refuse(s: System, e: nat): System
    requires e in s.runs
  {
    s.(runs := s.runs[e := s.runs[e].(phase := Ignored, record := Some(Failure))])
  }

  function Next(l: Limits, s: System, ev: Event): System
    requires Enabled(l, s, ev)
  {
    match ev
    case Deliver(e) => s.(runs := s.runs[e := Execution(Begun, s.now, s.now, false, 0, None, Failure, None)])
    case Stamp(e) => s.(runs := s.runs[e := s.runs[e].(phase := Stamped, started := s.now)])
    case Claim(e, clock) =>
      if Claimable(l, s.row, clock) then Move(s.(row := Row(Some(Running), Some(s.runs[e].started))), e, Holding)
      else Refuse(s, e)
    case Finish(e, state, told) => Write(s, e, state, BatchRecord(state, told), Closing)
    case FinishEmpty(e) => Leave(Write(s, e, Failure, Failure, Closing), e, Failure)
    case Raise(e) => Move(s, e, Failing)
    case FailureWritten(e) => Write(s, e, Failure, Failure, Handled)
    case SaveRaises(e) => Leave(s, e, Failure)
    case Close(e) => Leave(s, e, s.runs[e].due)
    case CloseRaises(e) => Move(s, e, Failing)
    case SoftTimeout(e) => s.(runs := s.runs[e := s.runs[e].(detached := true, record := Some(Failure))])
    case Kill(e) => Move(s, e, Killed)
    case Tick => s.(now := s.now + 1)
  }

  predicate IsRun(l: Limits, s: System, es: seq<Event>)
    decreases |es|
  {
    es == [] || (Enabled(l, s, es[0]) && IsRun(l, Next(l, s, es[0]), es[1..]))
  }

  function After(l: Limits, s: System, es: seq<Event>): System
    requires IsRun(l, s, es)
    decreases |es|
  {
    if es == [] then s else After(l, Next(l, s, es[0]), es[1..])
  }

  /** A task row whatever its past, and no delivery yet. */
  predicate Initial(s: System) {
    s.runs == map[] && (s.row.time.Some? ==> s.row.time.value <= s.now)
  }

  /** No two live executions hold the claim. */
  predicate Safe(s: System) {
    forall d, e :: d in s.runs && e in s.runs && Holds(s.runs[d]) && Holds(s.runs[e]) ==> d == e
  }

  // ---------------------------------------------------------------- safety

  /** Every live execution is waited for and younger than the hard limit, and the row shows the holder's claim. */
  predicate Invariant(l: Limits, s: System) {
    && Safe(s)
    && (forall e :: e in s.runs ==> !s.runs[e].detached)
    && (forall e :: e in s.runs && Live(s.runs[e]) ==>
          s.runs[e].begin <= s.runs[e].started <= s.now <= s.runs[e].begin + l.hard)
    && (forall e :: e in s.runs && Holds(s.runs[e]) ==> s.row == Row(Some(Running), Some(s.runs[e].started)))
  }

  predicate NoCloseRaises(es: seq<Event>) {
    forall i :: 0 <= i < |es| ==> !es[i].CloseRaises?
  }

  predicate NoSoftTimeouts(es: seq<Event>) {
    forall i :: 0 <= i < |es| ==> !es[i].SoftTimeout?
  }

  lemma {:induction false} ClaimedFromNobody(l: Limits, s: System, clock: int)
    requires Invariant(l, s) && l.hard <= l.stale && clock <= s.now && Claimable(l, s.row, clock)
    ensures forall e :: e in s.runs ==> !Holds(s.runs[e])
  {
  }

  lemma {:induction false} MoveKeeps(l: Limits, s: System, e: nat, phase: Phase)
    requires Invariant(l, s) && e in s.runs && Live(s.runs[e])
    requires phase == Holding || phase == Failing ==> Holds(s.runs[e])
    ensures Invariant(l, Move(s, e, phase))
  {
  }

  lemma {:induction false} LeaveKeeps(l: Limits, s: System, e: nat, status: State)
    requires Invariant(l, s) && e in s.runs
    ensures Invariant(l, Leave(s, e, status))
  {
  }

  lemma {:induction false} RefuseKeeps(l: Limits, s: System, e: nat)
    requires Invariant(l, s) && e in s.runs
    ensures Invariant(l, Refuse(s, e))
  {
  }

  lemma {:induction false} WriteKeeps(l: Limits, s: System, e: nat, state: State, due: State, phase: Phase)
    requires Invariant(l, s) && e in s.runs && Holds(s.runs[e]) && phase != Holding && phase != Failing
    ensures Invariant(l, Write(s, e, state, due, phase))
  {
  }

  lemma {:induction false} ClaimKeeps(l: Limits, s: System, e: nat, clock: int)
    requires Invariant(l, s) && l.hard <= l.stale && Enabled(l, s, Claim(e, clock)) && Claimable(l, s.row, clock)
    ensures Invariant(l, Next(l, s, Claim(e, clock)))
  {
    ClaimedFromNobody(l, s, clock);
  }

  lemma {:induction false} ArrivalKeeps(l: Limits, s: System, e: nat)
    requires Invariant(l, s)
    ensures e !in s.runs ==> Invariant(l, Next(l, s, Deliver(e)))
    ensures In(s, e, Begun) ==> Invariant(l, Next(l, s, Stamp(e)))
  {
  }

  lemma {:induction false} StepKeepsInvariant(l: Limits, s: System, ev: Event)
    requires Invariant(l, s) && l.hard <= l.stale && Enabled(l, s, ev) && !ev.CloseRaises? && !ev.SoftTimeout?
    ensures Invariant(l, Next(l, s, ev))
  {
    match ev
    case Deliver(e) => ArrivalKeeps(l, s, e);
    case Stamp(e) => ArrivalKeeps(l, s, e);
    case Claim(e, clock) =>
      if Claimable(l, s.row, clock) {
        ClaimKeeps(l, s, e, clock);
      } else {
        RefuseKeeps(l, s, e);
      }
    case Finish(e, state, told) => WriteKeeps(l, s, e, state, BatchRecord(state, told), Closing);
    case FinishEmpty(e) =>
      WriteKeeps(l, s, e, Failure, Failure, Closing);
      LeaveKeeps(l, Write(s, e, Failure, Failure, Closing), e, Failure);
    case FailureWritten(e) => WriteKeeps(l, s, e, Failure, Failure, Handled);
    case Raise(e) => MoveKeeps(l, s, e, Failing);
    case SaveRaises(e) => LeaveKeeps(l, s, e, Failure);
    case Close(e) => LeaveKeeps(l, s, e, s.runs[e].due);
    case Kill(e) => MoveKeeps(l, s, e, Killed);
    case Tick =>
  }

  /** Runs that keep the invariant: no execution is detached, and closing the schedule does not raise. */
  predicate Undisturbed(l: Limits, es: seq<Event>) {
    NoCloseRaises(es) && (l.hard <= l.soft || NoSoftTimeouts(es))
  }

  lemma {:induction false} RunKeepsInvariant(l: Limits, s: System, es: seq<Event>)
    requires Invariant(l, s) && l.hard <= l.stale && IsRun(l, s, es) && Undisturbed(l, es)
    ensures Invariant(l, After(l, s, es))
    decreases |es|
  {
    if es != [] {
      StepKeepsInvariant(l, s, es[0]);
      RunKeepsInvariant(l, Next(l, s, es[0]), es[1..]);
    }
  }

  /** With the configured limits no two executions hold the claim at once, over all deliveries,
    * redeliveries, kills and failures, unless the soft limit interrupts a delivery or closing the schedule
    * raises after the terminal write. */
  lemma {:induction false} NoTwoHolders(s: System, es: seq<Event>)
    requires Initial(s) && IsRun(CONFIGURED, s, es) && NoCloseRaises(es) && NoSoftTimeouts(es)
    ensures Safe(After(CONFIGURED, s, es))
  {
    RunKeepsInvariant(CONFIGURED, s, es);
  }

  // ---------------------------------------------------------------- runs with two holders

  function Ticks(n: nat): seq<Event> {
    if n == 0 then [] else [Tick] + Ticks(n - 1)
  }

  lemma {:induction false} Prepend(l: Limits, s: System, ev: Event, es: seq<Event>)
    requires Enabled(l, s, ev) && IsRun(l, Next(l, s, ev), es)
    ensures IsRun(l, s, [ev] + es) && After(l, s, [ev] + es) == After(l, Next(l, s, ev), es)
  {
    assert ([ev] + es)[1..] == es;
  }

  lemma {:induction false} Append(l: Limits, s: System, a: seq<Event>, b: seq<Event>)
    requires IsRun(l, s, a) && IsRun(l, After(l, s, a), b)
    ensures IsRun(l, s, a + b) && After(l, s, a + b) == After(l, After(l, s, a), b)
    decreases |a|
  {
    if a == [] {
      assert a + b == b;
    } else {
      Append(l, Next(l, s, a[0]), a[1..], b);
      Prepend(l, s, a[0], a[1..] + b);
      assert a + b == [a[0]] + (a[1..] + b);
    }
  }

  lemma {:induction false} Waiting(l: Limits, s: System, n: nat)
    requires forall e :: Attached(s, e) ==> s.now + n - s.runs[e].begin <= l.hard
    ensures IsRun(l, s, Ticks(n)) && After(l, s, Ticks(n)) == s.(now := s.now + n)
    decreases n
  {
    if n > 0 {
      assert forall e :: Attached(s.(now := s.now + 1), e) ==> Attached(s, e);
      Waiting(l, Next(l, s, Tick), n - 1);
      Prepend(l, s, Tick, Ticks(n - 1));
    }
  }

  /** One execution takes the message, and the claim if it can. */
  function Attempt(e: nat, now: int): seq<Event> { [Deliver(e), Stamp(e), Claim(e, now)] }

  function Holder(now: int): Execution { Execution(Holding, now, now, false, 0, None, Failure, None) }

  lemma {:induction false} Attempted(l: Limits, s: System, e: nat)
    requires e !in s.runs && Claimable(l, s.row, s.now)
    ensures IsRun(l, s, Attempt(e, s.now))
    ensures After(l, s, Attempt(e, s.now)) == System(s.now, Row(Some(Running), Some(s.now)), s.runs[e := Holder(s.now)])
  {
    var s1 := Next(l, s, Deliver(e));
    var s2 := Next(l, s1, Stamp(e));
    var s3 := Next(l, s2, Claim(e, s.now));
    assert IsRun(l, s3, []);
    Prepend(l, s2, Claim(e, s.now), []);
    Prepend(l, s1, Stamp(e), [Claim(e, s.now)] + []);
    Prepend(l, s, Deliver(e), [Stamp(e)] + ([Claim(e, s.now)] + []));
    assert Attempt(e, s.now) == [Deliver(e)] + ([Stamp(e)] + ([Claim(e, s.now)] + []));
    assert s3.runs == s.runs[e := Holder(s.now)];
  }

  lemma {:induction false} TwoHolders(s: System, d: nat, e: nat)
    requires d != e && d in s.runs && e in s.runs && Holds(s.runs[d]) && Holds(s.runs[e])
    ensures !Safe(s)
  {
  }

  lemma {:induction false} TicksOnly(n: nat)
    ensures forall i :: 0 <= i < |Ticks(n)| ==> Ticks(n)[i] == Tick
  {
    if n > 0 {
      TicksOnly(n - 1);
    }
  }

  const FRESH := System(0, Row(None, None), map[])

  /** If a RUNNING state may be taken over before the hard limit has killed its owner, two executions can
    * hold the claim at once. */
  function Overlap(l: Limits): seq<Event> {
    Attempt(0, 0) + (Ticks(l.stale + 1) + Attempt(1, l.stale + 1))
  }

  lemma {:induction false} ShortWindowOverlaps(l: Limits)
    requires l.stale < l.hard
    ensures IsRun(l, FRESH, Overlap(l)) && NoCloseRaises(Overlap(l)) && NoSoftTimeouts(Overlap(l))
    ensures BothHold(After(l, FRESH, Overlap(l)), 0, l.stale + 1)
  {
    OverlapRuns(l);
    OverlapQuiet(l);
  }

  lemma {:induction false} OverlapRuns(l: Limits)
    requires l.stale < l.hard
    ensures IsRun(l, FRESH, Overlap(l)) && BothHold(After(l, FRESH, Overlap(l)), 0, l.stale + 1)
  {
    Attempted(l, FRESH, 0);
    var s1 := After(l, FRESH, Attempt(0, 0));
    Waiting(l, s1, l.stale + 1);
    var s2 := After(l, s1, Ticks(l.stale + 1));
    Attempted(l, s2, 1);
    Append(l, s1, Ticks(l.stale + 1), Attempt(1, l.stale + 1));
    Append(l, FRESH, Attempt(0, 0), Ticks(l.stale + 1) + Attempt(1, l.stale + 1));
  }

  lemma {:induction false} OverlapQuiet(l: Limits)
    ensures NoCloseRaises(Overlap(l)) && NoSoftTimeouts(Overlap(l))
  {
    TicksOnly(l.stale + 1);
    var rest := Ticks(l.stale + 1) + Attempt(1, l.stale + 1);
    assert NoCloseRaises(rest) && NoSoftTimeouts(rest);
  }

  /** Execution 0 has held the claim from one time on, and 1 has taken it at another. */
  predicate BothHold(s: System, first: int, second: int) {
    && In(s, 0, Holding) && s.runs[0].started == first
    && In(s, 1, Holding) && s.runs[1].started == second && s.row == Row(Some(Running), Some(second))
  }

  /** How long a detached execution must go on until its claim can be taken over. */
  function Remaining(l: Limits): nat { if l.stale + 1 > l.soft then l.stale + 1 - l.soft else 0 }

  /** At the soft limit the first execution is left to itself; it outlives its claim. */
  function Outliving(l: Limits): seq<Event> {
    Attempt(0, 0) + (Ticks(l.soft) + ([SoftTimeout(0)] + (Ticks(Remaining(l)) + Attempt(1, l.soft + Remaining(l)))))
  }

  lemma {:induction false} DetachedOverlaps(l: Limits)
    requires l.soft < l.hard
    ensures IsRun(l, FRESH, Outliving(l)) && NoCloseRaises(Outliving(l))
    ensures var s := After(l, FRESH, Outliving(l));
            BothHold(s, 0, l.soft + Remaining(l)) && s.runs[0].record == Some(Failure)
  {
    TakenOver(l);
    InterruptedRun(l, Ticks(Remaining(l)) + Attempt(1, l.soft + Remaining(l)));
    OutlivingQuiet(l);
  }

  lemma {:induction false} TakenOver(l: Limits)
    ensures var es := Ticks(Remaining(l)) + Attempt(1, l.soft + Remaining(l));
            && IsRun(l, Interruption(l), es)
            && var s := After(l, Interruption(l), es);
               BothHold(s, 0, l.soft + Remaining(l)) && s.runs[0].record == Some(Failure)
  {
    var w, s := Remaining(l), Interruption(l);
    Waiting(l, s, w);
    Attempted(l, s.(now := s.now + w), 1);
    Append(l, s, Ticks(w), Attempt(1, l.soft + w));
  }

  /** The state when the soft limit has interrupted the first execution. */
  function Interruption(l: Limits): System {
    System(l.soft, Row(Some(Running), Some(0)), map[0 := Holder(0).(detached := true, record := Some(Failure))])
  }

  lemma {:induction false} InterruptedRun(l: Limits, es: seq<Event>)
    requires l.soft < l.hard && IsRun(l, Interruption(l), es)
    ensures var all := Attempt(0, 0) + (Ticks(l.soft) + ([SoftTimeout(0)] + es));
            IsRun(l, FRESH, all) && After(l, FRESH, all) == After(l, Interruption(l), es)
  {
    Attempted(l, FRESH, 0);
    var s1 := After(l, FRESH, Attempt(0, 0));
    Waiting(l, s1, l.soft);
    var s2 := After(l, s1, Ticks(l.soft));
    assert Next(l, s2, SoftTimeout(0)).runs == Interruption(l).runs;
    assert Next(l, s2, SoftTimeout(0)) == Interruption(l);
    Prepend(l, s2, SoftTimeout(0), es);
    Append(l, s1, Ticks(l.soft), [SoftTimeout(0)] + es);
    Append(l, FRESH, Attempt(0, 0), Ticks(l.soft) + ([SoftTimeout(0)] + es));
  }

  lemma {:induction false} OutlivingQuiet(l: Limits)
    ensures NoCloseRaises(Outliving(l))
  {
    TicksOnly(l.soft);
    TicksOnly(Remaining(l));
    var late := Ticks(Remaining(l)) + Attempt(1, l.soft + Remaining(l));
    assert NoCloseRaises(late);
    assert NoCloseRaises([SoftTimeout(0)] + late);
    assert NoCloseRaises(Ticks(l.soft) + ([SoftTimeout(0)] + late));
  }

  /** With the configured limits an execution that is interrupted after 25200 seconds and still runs after
    * 28861 shares the claim with the next one. */
  lemma {:induction false} ConfiguredOverlaps()
    ensures IsRun(CONFIGURED, FRESH, Outliving(CONFIGURED)) && NoCloseRaises(Outliving(CONFIGURED))
    ensures BothHold(After(CONFIGURED, FRESH, Outliving(CONFIGURED)), 0, 28861)
    ensures !Safe(After(CONFIGURED, FRESH, Outliving(CONFIGURED)))
  {
    DetachedOverlaps(CONFIGURED);
    TwoHolders(After(CONFIGURED, FRESH, Outliving(CONFIGURED)), 0, 1);
  }

  /** The first run has written SUCCESS, a second has claimed the task; closing the schedule raises in the
    * first, whose handler is about to write FAILURE over the second's claim. */
  const CLOBBER: seq<Event> := Attempt(0, 0) + ([Finish(0, Success, true)] + (Attempt(1, 0) + ([CloseRaises(0)] + [])))

  lemma {:induction false} Clobbered(l: Limits)
    ensures IsRun(l, FRESH, CLOBBER) && After(l, FRESH, CLOBBER) == Clobbering()
  {
    Attempted(l, FRESH, 0);
    var s1 := After(l, FRESH, Attempt(0, 0));
    var s2 := Next(l, s1, Finish(0, Success, true));
    Attempted(l, s2, 1);
    var s3 := After(l, s2, Attempt(1, 0));
    ClosingRaised(l, s3);
    Append(l, s2, Attempt(1, 0), [CloseRaises(0)] + []);
    Prepend(l, s1, Finish(0, Success, true), Attempt(1, 0) + ([CloseRaises(0)] + []));
    Append(l, FRESH, Attempt(0, 0), [Finish(0, Success, true)] + (Attempt(1, 0) + ([CloseRaises(0)] + [])));
  }

  function Clobbering(): System {
    System(0, Row(Some(Running), Some(0)),
           map[0 := Holder(0).(phase := Failing, writes := 1, wrote := Some(Success), due := Success), 1 := Holder(0)])
  }

  lemma {:induction false} ClosingRaised(l: Limits, s: System)
    requires s == Clobbering().(runs := Clobbering().runs[0 := Clobbering().runs[0].(phase := Closing)])
    ensures IsRun(l, s, [CloseRaises(0)] + []) && After(l, s, [CloseRaises(0)] + []) == Clobbering()
  {
    assert Next(l, s, CloseRaises(0)).runs == Clobbering().runs;
    assert IsRun(l, Next(l, s, CloseRaises(0)), []);
    Prepend(l, s, CloseRaises(0), []);
  }

  /** If closing the schedule raises after the terminal write, the handler writes a second one over the next
    * claim, and a third execution gets in. */
  lemma {:induction false} CloseRaisingBreaksSafety(l: Limits)
    ensures var es := CLOBBER + ([FailureWritten(0)] + Attempt(2, 0));
            && IsRun(l, FRESH, es)
            && var s := After(l, FRESH, es); !Safe(s) && 0 in s.runs && s.runs[0].writes == 2
  {
    Clobbered(l);
    var s := After(l, FRESH, CLOBBER);
    var s1 := Next(l, s, FailureWritten(0));
    Attempted(l, s1, 2);
    Prepend(l, s, FailureWritten(0), Attempt(2, 0));
    Append(l, FRESH, CLOBBER, [FailureWritten(0)] + Attempt(2, 0));
    TwoHolders(After(l, FRESH, CLOBBER + ([FailureWritten(0)] + Attempt(2, 0))), 1, 2);
  }

  // ---------------------------------------------------------------- when the claim is exclusive

  /** Runs in which closing the schedule may raise, or may not. */
  predicate Allowed(l: Limits, s: System, es: seq<Event>, mayRaise: bool) {
    Initial(s) && IsRun(l, s, es) && (mayRaise || NoCloseRaises(es))
  }

  /** Limits under which a claim outlives no window and no worker. */
  predicate Guarded(l: Limits) { l.hard <= l.stale && l.hard <= l.soft }

  lemma {:induction false} GuardedRuns(l: Limits, s: System, es: seq<Event>)
    requires Guarded(l) && Allowed(l, s, es, false)
    ensures Invariant(l, After(l, s, es))
  {
    RunKeepsInvariant(l, s, es);
  }

  /** The claim is exclusive over every run exactly when a RUNNING state is taken over no sooner than the hard
    * limit, the soft limit does not come before the hard one, and closing the schedule cannot raise. */
  lemma {:induction false} ExclusiveIff(l: Limits, mayRaise: bool)
    ensures Guarded(l) && !mayRaise <==> forall s, es | Allowed(l, s, es, mayRaise) :: Safe(After(l, s, es))
  {
    assert Initial(FRESH);
    if mayRaise {
      CloseRaisingBreaksSafety(l);
      assert Allowed(l, FRESH, CLOBBER + ([FailureWritten(0)] + Attempt(2, 0)), true);
    } else if l.stale < l.hard {
      ShortWindowOverlaps(l);
      assert Allowed(l, FRESH, Overlap(l), false);
      TwoHolders(After(l, FRESH, Overlap(l)), 0, 1);
    } else if l.soft < l.hard {
      DetachedOverlaps(l);
      assert Allowed(l, FRESH, Outliving(l), false);
      TwoHolders(After(l, FRESH, Outliving(l)), 0, 1);
    } else {
      forall s, es | Allowed(l, s, es, false) ensures Safe(After(l, s, es)) {
        GuardedRuns(l, s, es);
      }
    }
  }

  predicate WritesState(ev: Event) { ev.Finish? || ev.FinishEmpty? || ev.FailureWritten? }

  /** The execution holds the claim the row shows, and no other does. */
  predicate OwnsClaim(s: System, e: nat) {
    && e in s.runs && Holds(s.runs[e]) && s.row == Row(Some(Running), Some(s.runs[e].started))
    && forall d :: d in s.runs && Holds(s.runs[d]) ==> d == e
  }

  /** And exactly then every terminal state is written by the execution whose claim the row shows. */
  lemma {:induction false} WriterIsHolderIff(l: Limits, mayRaise: bool)
    ensures Guarded(l) && !mayRaise <==>
            forall s, es, ev | Allowed(l, s, es, mayRaise) && Enabled(l, After(l, s, es), ev) && WritesState(ev) ::
              OwnsClaim(After(l, s, es), ev.e)
  {
    assert Initial(FRESH);
    if mayRaise {
      Clobbered(l);
      assert Allowed(l, FRESH, CLOBBER, true);
      NotOwned(l, FRESH, CLOBBER, FailureWritten(0), 1);
    } else if l.stale < l.hard {
      ShortWindowOverlaps(l);
      assert Allowed(l, FRESH, Overlap(l), false);
      NotOwned(l, FRESH, Overlap(l), Finish(0, Success, true), 1);
    } else if l.soft < l.hard {
      DetachedOverlaps(l);
      assert Allowed(l, FRESH, Outliving(l), false);
      NotOwned(l, FRESH, Outliving(l), Finish(0, Success, true), 1);
    } else {
      forall s, es, ev | Allowed(l, s, es, false) && Enabled(l, After(l, s, es), ev) && WritesState(ev)
        ensures OwnsClaim(After(l, s, es), ev.e)
      {
        GuardedRuns(l, s, es);
      }
    }
  }

  lemma {:induction false} NotOwned(l: Limits, s: System, es: seq<Event>, ev: Event, d: nat)
    requires IsRun(l, s, es) && Enabled(l, After(l, s, es), ev) && WritesState(ev)
    requires d != ev.e && d in After(l, s, es).runs && Holds(After(l, s, es).runs[d])
    ensures !OwnsClaim(After(l, s, es), ev.e)
  {
  }

  // ---------------------------------------------------------------- terminal writes

  /** The terminal writes of an execution by its phase, where closing its schedule has raised or not, and its
    * last write has failed or not. */
  predicate WritesFit(x: Execution, closeRaised: bool, saveRaised: bool) {
    var again := if closeRaised then 1 else 0;
    match x.phase
    case Begun => x.writes == 0 && !closeRaised && !saveRaised
    case Stamped => x.writes == 0 && !closeRaised && !saveRaised
    case Holding => x.writes == 0 && !closeRaised && !saveRaised
    case Failing => x.writes == again && !saveRaised
    case Closing => x.writes == 1 && !closeRaised && !saveRaised
    case Handled => x.writes == 1 + again && !saveRaised
    case Ignored => x.writes == 0 && !closeRaised && !saveRaised
    case Ended => x.writes == 1 + again - if saveRaised then 1 else 0
    case Killed => x.writes <= 1 + again && !saveRaised
  }

  /** What the events so far and the state say of an execution. */
  predicate Accounted(s: System, before: seq<Event>, e: nat) {
    if e in s.runs then WritesFit(s.runs[e], CloseRaises(e) in before, SaveRaises(e) in before)
    else CloseRaises(e) !in before && SaveRaises(e) !in before
  }

  lemma {:induction false} StepAccounted(l: Limits, s: System, before: seq<Event>, ev: Event, e: nat)
    requires Enabled(l, s, ev) && Accounted(s, before, e)
    ensures Accounted(Next(l, s, ev), before + [ev], e)
  {
    assert CloseRaises(e) in before + [ev] <==> CloseRaises(e) in before || ev == CloseRaises(e);
    assert SaveRaises(e) in before + [ev] <==> SaveRaises(e) in before || ev == SaveRaises(e);
  }

  lemma {:induction false} RunAccounted(l: Limits, s: System, before: seq<Event>, es: seq<Event>, e: nat)
    requires IsRun(l, s, es) && Accounted(s, before, e)
    ensures Accounted(After(l, s, es), before + es, e)
    decreases |es|
  {
    if es == [] {
      assert before + es == before;
    } else {
      StepAccounted(l, s, before, es[0], e);
      RunAccounted(l, Next(l, s, es[0]), before + [es[0]], es[1..], e);
      assert before + [es[0]] + es[1..] == before + es;
    }
  }

  /** A claimed execution that has ended wrote exactly one terminal state if and only if closing its schedule
    * and its last write both raised or neither did: an interrupted close adds a write, a failed save takes one
    * away. A refused one wrote none, and a killed one at most one, or two when closing raised. */
  lemma {:induction false} OneTerminalWriteIff(l: Limits, s: System, es: seq<Event>, e: nat)
    requires Initial(s) && IsRun(l, s, es) && e in After(l, s, es).runs
    ensures var x := After(l, s, es).runs[e];
            && (x.phase == Ended ==> (x.writes == 1 <==> (CloseRaises(e) in es <==> SaveRaises(e) in es)))
            && (x.phase == Ignored ==> x.writes == 0)
            && (x.phase == Killed ==> x.writes <= if CloseRaises(e) in es then 2 else 1)
  {
    RunAccounted(l, s, [], es, e);
    assert [] + es == es;
  }

  // ---------------------------------------------------------------- the record and the row

  /** What happened to an execution so far: the soft limit interrupted its delivery, its last write raised,
    * closing its schedule raised, and its batch ended without a case count or a word of failure. */
  datatype Past = Past(interrupted: bool, saveRaised: bool, closeRaised: bool, untold: bool) {
    predicate Disturbed() { interrupted || saveRaised || closeRaised }
  }

  function PastOf(es: seq<Event>, e: nat): Past {
    Past(SoftTimeout(e) in es, SaveRaises(e) in es, CloseRaises(e) in es, Finish(e, Failure, false) in es)
  }

  /** What is written and due in each phase. */
  predicate DueFits(x: Execution, p: Past) {
    match x.phase
    case Failing => !p.saveRaised && (p.untold ==> p.closeRaised)
    case Closing => !p.saveRaised && !p.closeRaised && EndFits(x.wrote, Some(x.due), p.untold)
    case Handled => !p.saveRaised && (p.untold ==> p.closeRaised) && x.wrote == Some(Failure) == Some(x.due)
    case Ignored => x.record == Some(Failure)
    case Ended => if p.Disturbed() then x.record == Some(Failure) else EndFits(x.wrote, x.record, p.untold)
    case Killed => !p.saveRaised
    case _ => !p.saveRaised && !p.closeRaised && !p.untold
  }

  /** The row's state and the record's, at the end of a batch. */
  predicate EndFits(wrote: Option<State>, record: Option<State>, untold: bool) {
    wrote.Some? && if untold then wrote == Some(Failure) && record == Some(Success) else record == wrote
  }

  predicate RecordFits(x: Execution, p: Past) {
    x.detached == p.interrupted && (p.interrupted ==> x.record == Some(Failure)) && DueFits(x, p)
  }

  predicate Recorded(s: System, before: seq<Event>, e: nat) {
    if e in s.runs then RecordFits(s.runs[e], PastOf(before, e)) else PastOf(before, e) == Past(false, false, false, false)
  }

  function Later(p: Past, ev: Event, e: nat): Past {
    Past(p.interrupted || ev == SoftTimeout(e), p.saveRaised || ev == SaveRaises(e),
         p.closeRaised || ev == CloseRaises(e), p.untold || ev == Finish(e, Failure, false))
  }

  lemma {:induction false} PastSnoc(before: seq<Event>, ev: Event, e: nat)
    ensures PastOf(before + [ev], e) == Later(PastOf(before, e), ev, e)
  {
  }

  /** The steps of one execution leave the others as they are. */
  lemma {:induction false} OthersStay(l: Limits, s: System, ev: Event, e: nat)
    requires Enabled(l, s, ev) && (ev.Tick? || ev.e != e)
    ensures e in Next(l, s, ev).runs <==> e in s.runs
    ensures e in s.runs ==> Next(l, s, ev).runs[e] == s.runs[e]
  {
  }

  lemma {:induction false} OwnStepFits(l: Limits, s: System, p: Past, ev: Event)
    requires Enabled(l, s, ev) && !ev.Tick? && ev.e in s.runs && RecordFits(s.runs[ev.e], p)
    ensures ev.e in Next(l, s, ev).runs && RecordFits(Next(l, s, ev).runs[ev.e], Later(p, ev, ev.e))
  {
  }

  lemma {:induction false} StepRecorded(l: Limits, s: System, before: seq<Event>, ev: Event, e: nat)
    requires Enabled(l, s, ev) && Recorded(s, before, e)
    ensures Recorded(Next(l, s, ev), before + [ev], e)
  {
    PastSnoc(before, ev, e);
    if ev.Tick? || ev.e != e {
      OthersStay(l, s, ev, e);
    } else if e in s.runs {
      OwnStepFits(l, s, PastOf(before, e), ev);
    }
  }

  lemma {:induction false} RunRecorded(l: Limits, s: System, before: seq<Event>, es: seq<Event>, e: nat)
    requires IsRun(l, s, es) && Recorded(s, before, e)
    ensures Recorded(After(l, s, es), before + es, e)
    decreases |es|
  {
    if es == [] {
      assert before + es == before;
    } else {
      StepRecorded(l, s, before, es[0], e);
      RunRecorded(l, Next(l, s, es[0]), before + [es[0]], es[1..], e);
      assert before + [es[0]] + es[1..] == before + es;
    }
  }

  /** Of a claimed execution that has ended, the record and the row got the same terminal status: if the soft
    * limit interrupted it, or its last write or closing its schedule raised, exactly when the last state
    * written is FAILURE; else exactly when its batch did not end without a case count and without a word of
    * failure. A refused one is recorded as a failure. */
  lemma {:induction false} RecordAgreesIff(l: Limits, s: System, es: seq<Event>, e: nat)
    requires Initial(s) && IsRun(l, s, es) && e in After(l, s, es).runs
    ensures var x := After(l, s, es).runs[e];
            && (x.phase == Ended ==>
                  x.record.Some? && (x.record == x.wrote <==>
                                     if SoftTimeout(e) in es || SaveRaises(e) in es || CloseRaises(e) in es
                                     then x.wrote == Some(Failure)
                                     else Finish(e, Failure, false) !in es))
            && (x.phase == Ignored ==> x.record == Some(Failure))
  {
    RunRecorded(l, s, [], es, e);
    assert [] + es == es;
  }

  /** At the soft limit the record says FAILURE, and the coroutine then writes SUCCESS to the row. */
  function Interrupted(l: Limits): seq<Event> {
    Attempt(0, 0) + (Ticks(l.soft) + ([SoftTimeout(0)] + ([Finish(0, Success, true)] + ([Close(0)] + []))))
  }

  lemma {:induction false} InterruptedDisagrees(l: Limits)
    requires l.soft < l.hard
    ensures IsRun(l, FRESH, Interrupted(l))
    ensures var s := After(l, FRESH, Interrupted(l));
            && In(s, 0, Ended) && s.runs[0].record == Some(Failure)
            && s.runs[0].wrote == Some(Success) && s.row.state == Some(Success)
  {
    var s := Interruption(l);
    var s' := Next(l, s, Finish(0, Success, true));
    assert IsRun(l, Next(l, s', Close(0)), []);
    Prepend(l, s', Close(0), []);
    Prepend(l, s, Finish(0, Success, true), [Close(0)] + []);
    InterruptedRun(l, [Finish(0, Success, true)] + ([Close(0)] + []));
  }
}
