/** The hand-off between the workspace monitor, the goroutine that forwards its
    error and the caller: internal/audit/build.go 1423-1476 with fail, stop and
    run of internal/audit/resource.go.

    Every interleaving is a run of this transition system: a step is one channel
    operation, one context operation or one assignment of one goroutine.  Turns of
    the monitor's loop that find nothing wrong change nothing here and are no
    steps. */
module MonitorHandoff {
  import opened Text

  type Error = string

  /** run(): Sent is past its one call of fail, Finished has closed `finished`. */
  datatype Monitor = Watching | Sent | Finished

  /** The forwarding goroutine: Received has an error in hand, Assigned has stored
      it, Leaving is past the select, Gone has closed forwardDone. */
  datatype Forwarder = Selecting | Received(error: Error) | Assigned(error: Error) | Leaving | Gone

  datatype Freeze = Frozen | FreezeError(error: Error)

  datatype Outcome = Success | MonitorFailed(error: Error) | FreezeFailed(error: Error) | Cancelled(cause: Error)

  /** Where the caller is: running the freeze, before stop, waiting for the monitor,
      before close(forwardStop), waiting for the forwarder, draining the channel,
      reading the cause, returning. */
  datatype Caller =
    | Freezing
    | Stopping(freeze: Freeze)
    | AwaitMonitor(freeze: Freeze)
    | AwaitForwarder(freeze: Freeze)
    | Draining(freeze: Freeze)
    | ReadingCause(freeze: Freeze, error: Option<Error>)
    | Returned(freeze: Freeze, outcome: Outcome)

  /** `slot` is the one-slot channel, `cause` the first cancellation cause of the
      freeze context.  `failure` records what the monitor passed to fail, `seen`
      the cause that the caller read. */
  datatype State = State(
    monitor: Monitor, slot: Option<Error>, done: bool, forwardStop: bool, forwarder: Forwarder,
    forwarded: Option<Error>, cause: Option<Error>, caller: Caller, failure: Option<Error>, seen: Option<Error>)

  datatype Step =
    | MonitorFails(error: Error) | MonitorStops | MonitorFinishes
    | Receive | Assign | CancelFreeze | SeeStop | SeeCancelled | Leave
    | FreezeReturns(freeze: Freeze) | CallStop | MonitorSeen | ForwarderSeen | Drain | Return
    | ParentCancels(error: Error)

  const INITIAL := State(Watching, None, false, false, Selecting, None, None, Freezing, None, None)

  function FirstCause(cause: Option<Error>, error: Error): Option<Error> {
    if cause.Some? then cause else Some(error)
  }

  function OutcomeOf(error: Option<Error>, freeze: Freeze, cause: Option<Error>): Outcome {
    if error.Some? then MonitorFailed(error.value)
    else if freeze.FreezeError? then FreezeFailed(freeze.error)
    else if cause.Some? then Cancelled(cause.value)
    else Success
  }

  function Apply(s: State, step: Step): Option<State> {
    match step
    case MonitorFails(e) =>
      // A send that does not block: into a full slot the error would be dropped.
      if !s.monitor.Watching? then None
      else Some(s.(monitor := Sent, slot := if s.slot.None? then Some(e) else s.slot, failure := Some(e)))
    case MonitorStops => if s.monitor.Watching? && s.done then Some(s.(monitor := Finished)) else None
    case MonitorFinishes => if s.monitor.Sent? then Some(s.(monitor := Finished)) else None
    case Receive =>
      if s.forwarder.Selecting? && s.slot.Some? then Some(s.(forwarder := Received(s.slot.value), slot := None))
        else None
    case Assign =>
      if s.forwarder.Received? then
        Some(s.(forwarded := Some(s.forwarder.error), forwarder := Assigned(s.forwarder.error)))
      else None
    case CancelFreeze =>
      if s.forwarder.Assigned? then Some(s.(cause := FirstCause(s.cause, s.forwarder.error), forwarder := Leaving))
        else None
    case SeeStop => if s.forwarder.Selecting? && s.forwardStop then Some(s.(forwarder := Leaving)) else None
    case SeeCancelled => if s.forwarder.Selecting? && s.cause.Some? then Some(s.(forwarder := Leaving)) else None
    case Leave => if s.forwarder.Leaving? then Some(s.(forwarder := Gone)) else None
    case FreezeReturns(freeze) => if s.caller.Freezing? then Some(s.(caller := Stopping(freeze))) else None
    case CallStop =>
      if s.caller.Stopping? then Some(s.(done := true, caller := AwaitMonitor(s.caller.freeze))) else None
    case MonitorSeen =>
      if s.caller.AwaitMonitor? && s.monitor.Finished? then
        Some(s.(forwardStop := true, caller := AwaitForwarder(s.caller.freeze)))
      else None
    case ForwarderSeen =>
      if s.caller.AwaitForwarder? && s.forwarder.Gone? then Some(s.(caller := Draining(s.caller.freeze))) else None
    case Drain =>
      if !s.caller.Draining? then None
      else if s.forwarded.Some? then Some(s.(caller := ReadingCause(s.caller.freeze, s.forwarded)))
      else Some(s.(caller := ReadingCause(s.caller.freeze, s.slot), slot := None))
    case Return =>
      if !s.caller.ReadingCause? then None
      else Some(s.(seen := s.cause, caller :=
        Returned(s.caller.freeze, OutcomeOf(s.caller.error, s.caller.freeze, s.cause))))
    case ParentCancels(e) => if s.cause.None? then Some(s.(cause := Some(e))) else None
  }

  function Run(s: State, steps: seq<Step>): Option<State>
    decreases |steps|
  {
    if steps == [] then Some(s)
    else match Apply(s, steps[0])
      case None => None
      case Some(next) => Run(next, steps[1..])
  }

  // ---------------------------------------------------------------- the error is never lost

  /** The failure is in exactly one place on its way to the caller. */
  ghost predicate OnItsWay(s: State) {
    match s.failure
    case None => s.slot.None? && s.forwarded.None? && !s.forwarder.Received? && !s.forwarder.Assigned?
    case Some(e) =>
      || (s.slot == Some(e) && s.forwarded.None? && !s.forwarder.Received? && !s.forwarder.Assigned?)
      || (s.slot.None? && s.forwarded.None? && s.forwarder == Received(e))
      || (s.slot.None? && s.forwarded == Some(e) && !s.forwarder.Received? && !s.forwarder.Selecting?
           && (s.forwarder.Assigned? ==> s.forwarder.error == e))
      || (s.slot.None? && s.forwarded.None? && s.forwarder.Gone? && CallerHas(s, e))
  }

  predicate CallerHas(s: State, e: Error) {
    (s.caller.ReadingCause? && s.caller.error == Some(e))
      || (s.caller.Returned? && s.caller.outcome == MonitorFailed(e))
  }

  ghost predicate Inv(s: State) {
    && OnItsWay(s)
    && (s.monitor.Watching? <==> s.failure.None? && !s.monitor.Finished?)
    && (s.failure.Some? ==> !s.monitor.Watching?)
    && (s.done <==> !s.caller.Freezing? && !s.caller.Stopping?)
    && (s.forwardStop <==> s.done && !s.caller.AwaitMonitor?)
    && (s.forwardStop ==> s.monitor.Finished?)
    && (s.caller.Draining? || s.caller.ReadingCause? || s.caller.Returned? ==> s.forwarder.Gone? && s.forwardStop)
    && (s.caller.ReadingCause? ==> s.caller.error == s.failure)
    && (s.caller.Returned? ==> s.caller.outcome == OutcomeOf(s.failure, s.caller.freeze, s.seen))
    && (s.forwarder.Leaving? || s.forwarder.Gone? ==> s.forwardStop || s.cause.Some?)
    && (s.seen.Some? ==> s.caller.Returned? && s.cause == s.seen)
    && (s.forwarded.Some? && (s.forwarder.Leaving? || s.forwarder.Gone?) ==> s.cause.Some?)
  }

  lemma StepKeepsInv(s: State, step: Step, t: State)
    requires Inv(s) && Apply(s, step) == Some(t)
    ensures Inv(t)
  {
  }

  lemma {:induction false} RunKeepsInv(s: State, steps: seq<Step>, t: State)
    requires Inv(s) && Run(s, steps) == Some(t)
    ensures Inv(t)
    decreases |steps|
  {
    hide Inv, Apply;
    if steps != [] {
      var next := Apply(s, steps[0]).value;
      StepKeepsInv(s, steps[0], next);
      RunKeepsInv(next, steps[1..], t);
    }
  }

  lemma InitiallyInv()
    ensures Inv(INITIAL)
  {
  }

  /** In every interleaving the outcome is decided by what really happened: a
      monitor failure is always the answer, then a failed freeze, then the recorded
      cancellation; success means that there was none of the three. */
  lemma OutcomeIsExact(steps: seq<Step>, s: State)
    requires Run(INITIAL, steps) == Some(s) && s.caller.Returned?
    ensures s.caller.outcome == OutcomeOf(s.failure, s.caller.freeze, s.seen)
    ensures s.failure.Some? ==> s.caller.outcome == MonitorFailed(s.failure.value)
    ensures s.failure.None? && s.caller.freeze.FreezeError? ==>
              s.caller.outcome == FreezeFailed(s.caller.freeze.error)
    ensures s.failure.None? && s.caller.freeze.Frozen? && s.seen.Some? ==>
              s.caller.outcome == Cancelled(s.seen.value)
    ensures s.caller.outcome.Success? <==> s.failure.None? && s.caller.freeze.Frozen? && s.seen.None?
    ensures s.monitor.Finished? && s.forwarder.Gone?
  {
    hide Run, Apply;
    InitiallyInv();
    RunKeepsInv(INITIAL, steps, s);
  }

  /** A cancellation cause, once recorded, stays; it is the parent's, or the monitor
      failure that the forwarder had in hand. */
  lemma CauseIsTheFirst(steps: seq<Step>, s: State, step: Step, t: State)
    requires Run(INITIAL, steps) == Some(s) && Apply(s, step) == Some(t)
    ensures s.cause.Some? ==> t.cause == s.cause
    ensures s.cause.None? && t.cause.Some? ==>
              step == ParentCancels(t.cause.value) || (step == CancelFreeze && t.cause == s.failure)
  {
    hide Run;
    InitiallyInv();
    RunKeepsInv(INITIAL, steps, s);
  }

  /** A failure that was received cancels the freeze before its forwarder is gone; one
      that was not is still in the channel when the caller drains it. */
  lemma FailureReachesTheFreeze(steps: seq<Step>, s: State)
    requires Run(INITIAL, steps) == Some(s) && s.failure.Some? && s.forwarder.Gone?
    ensures s.forwarded == s.failure ==> s.cause.Some?
    ensures s.forwarded.None? && (s.caller.AwaitForwarder? || s.caller.Draining?) ==> s.slot == s.failure
  {
    hide Run;
    InitiallyInv();
    RunKeepsInv(INITIAL, steps, s);
  }

  /** A failure can only come before the caller has seen the monitor finish, so
      nothing that happens after the caller returned can turn success into a lie. */
  lemma NothingFailsLate(steps: seq<Step>, s: State, step: Step, t: State)
    requires Run(INITIAL, steps) == Some(s) && s.caller.Returned? && Apply(s, step) == Some(t)
    ensures step.ParentCancels? && t.failure == s.failure && t.caller == s.caller
  {
    hide Run;
    InitiallyInv();
    RunKeepsInv(INITIAL, steps, s);
  }

  // ---------------------------------------------------------------- no deadlock, no livelock

  /** Steps the goroutines are bound to take once they can.  A monitor failure and
      the parent's cancellation may or may not happen. */
  predicate Obliged(step: Step) {
    !step.MonitorFails? && !step.ParentCancels?
  }

  /** What the model leaves open can always happen: a failure while the monitor
      watches, any end of the freeze, and a cancellation before any other. */
  lemma EnvironmentIsFree(s: State, error: Error, freeze: Freeze)
    ensures s.monitor == Watching <==>
            Apply(s, MonitorFails(error)).Some? && Apply(s, MonitorFails(error)).value.failure == Some(error)
    ensures s.caller == Freezing <==>
            Apply(s, FreezeReturns(freeze)).Some? && Apply(s, FreezeReturns(freeze)).value.caller == Stopping(freeze)
    ensures s.cause == None <==>
            Apply(s, ParentCancels(error)).Some? && Apply(s, ParentCancels(error)).value.cause == Some(error)
  {
  }

  /** While the caller has not returned, some goroutine can go on. */
  lemma NeverStuck(steps: seq<Step>, s: State) returns (step: Step)
    requires Run(INITIAL, steps) == Some(s) && !s.caller.Returned?
    ensures Obliged(step) && Apply(s, step).Some?
  {
    hide Run;
    InitiallyInv();
    RunKeepsInv(INITIAL, steps, s);
    step := match s.caller
      case Freezing => FreezeReturns(Frozen)
      case Stopping(_) => CallStop
      case AwaitMonitor(_) =>
        if s.monitor.Watching? then MonitorStops else if s.monitor.Sent? then MonitorFinishes else MonitorSeen
      case AwaitForwarder(_) =>
        (match s.forwarder
         case Selecting => SeeStop
         case Received(_) => Assign
         case Assigned(_) => CancelFreeze
         case Leaving => Leave
         case Gone => ForwarderSeen)
      case Draining(_) => Drain
      case ReadingCause(_, _) => Return
      case Returned(_, _) => Return;
  }

  function MonitorLeft(m: Monitor): nat {
    match m case Watching => 2 case Sent => 1 case Finished => 0
  }

  function ForwarderLeft(f: Forwarder): nat {
    match f case Selecting => 4 case Received(_) => 3 case Assigned(_) => 2 case Leaving => 1 case Gone => 0
  }

  function CallerLeft(c: Caller): nat {
    match c
    case Freezing => 6 case Stopping(_) => 5 case AwaitMonitor(_) => 4 case AwaitForwarder(_) => 3
    case Draining(_) => 2 case ReadingCause(_, _) => 1 case Returned(_, _) => 0
  }

  function StepsLeft(s: State): nat {
    MonitorLeft(s.monitor) + ForwarderLeft(s.forwarder) + CallerLeft(s.caller) + if s.cause.None? then 1 else 0
  }

  lemma StepMakesProgress(s: State, step: Step, t: State)
    requires Apply(s, step) == Some(t)
    ensures StepsLeft(t) < StepsLeft(s)
  {
  }

  /** Every run ends within thirteen steps; together with NeverStuck, the caller
      always returns, provided that the freeze itself returns. */
  lemma {:induction false} RunsAreShort(s: State, steps: seq<Step>)
    requires Run(s, steps).Some?
    ensures |steps| <= StepsLeft(s)
    ensures s == INITIAL ==> |steps| <= 13
    decreases |steps|
  {
    hide Apply, StepsLeft;
    if steps != [] {
      StepMakesProgress(s, steps[0], Apply(s, steps[0]).value);
      RunsAreShort(Apply(s, steps[0]).value, steps[1..]);
    }
    InitialSteps();
  }

  lemma InitialSteps()
    ensures StepsLeft(INITIAL) == 13
  {
  }
}
