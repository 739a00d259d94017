/** Timed requests over the scheduler: how a request that ends uses its option,
    and whether it can still be called back afterwards. */
module TransportContract {
  import opened Bytes
  import opened Framing
  import opened Options
  import opened SocketScheduler
  import opened SchedulerSafety
  import opened SchedulerPromises
  import T = TimedRequest

  /** What a step of the timed request did to its option: called it with a dirty
      bit, or destroyed it unused. */
  datatype Ending = Kept | Called(dirty: bool) | Destroyed

  function EndingOf(q: T.Request, q': T.Request): Ending {
    if |q'.exercised| > |q.exercised| then Called(q'.exercised[|q.exercised|])
    else if q'.dropped > q.dropped then Destroyed
    else Kept
  }

  /** Whether that has a meaning in the scheduler, and what it does there. */
  predicate MaySettle(p: Pool, r: Id, ending: Ending) {
    match ending
    case Kept => true
    case Called(dirty) => Enabled(p, Exercised(r, dirty))
    case Destroyed => Enabled(p, OptionDropped(r))
  }

  function Settled(p: Pool, r: Id, ending: Ending): Pool
    requires MaySettle(p, r, ending)
  {
    match ending
    case Kept => p
    case Called(dirty) => Exercise(p, r, dirty)
    case Destroyed => Drop(p, r)
  }

  /** The scheduler's request r is active, and its timed request q waits for it. */
  ghost predicate Waiting(accepts: Call -> bool, p: Pool, r: Id, q: T.Request) {
    && Invariant(p) && p.active == Some(r) && r !in p.exercised
    && T.Sound(accepts, q) && q.armed
  }

  lemma WaitingIsKnown(p: Pool, r: Id)
    requires Invariant(p) && p.active == Some(r)
    ensures r < |p.requests| && r in p.activated
  {
    QueueFacts(p);
    assert p.active.value in p.activated;
  }

  /** A response that ends a request calls its option, dirty exactly when it was an error. */
  lemma ResponseUsesOption(accepts: Call -> bool, q: T.Request, input: Input)
    requires T.Sound(accepts, q) && q.armed
    ensures var q' := T.Responded(accepts, q, input);
            EndingOf(q, q') == if q'.armed then Kept else Called(!input.error.NoError?)
    ensures !input.error.NoError? ==> !T.Responded(accepts, q, input).armed
  {
    var q' := T.Responded(accepts, q, input);
    assert !q.timedOut && q'.dropped == q.dropped;
    assert q'.exercised == if q'.armed then q.exercised else q.exercised + [!input.error.NoError?];
  }

  /** A timer event destroys the option exactly when it ends the request. */
  lemma ClockUsesOption(accepts: Call -> bool, q: T.Request, e: T.Event)
    requires T.Sound(accepts, q) && T.Enabled(q, e) && !e.Response?
    ensures var q' := T.Step(accepts, q, e);
            EndingOf(q, q') == if q.armed && !q'.armed then Destroyed else Kept
  {
  }

  /** Ending the active request silences it, except where it keeps its place and
      has an operation of its own outstanding. */
  lemma EndedIsSilent(p: Pool, r: Id, dirty: bool)
    requires Invariant(p) && p.active == Some(r) && r !in p.exercised
    requires dirty || p.shuttingDown ==> !HasOp(p, r)
    ensures r < |p.requests| && Enabled(p, Exercised(r, dirty))
    ensures Invariant(Exercise(p, r, dirty)) && Silent(Exercise(p, r, dirty), r)
  {
    WaitingIsKnown(p, r);
    QueueFacts(p);
    ExerciseKeeps(p, r, dirty);
    var p' := Exercise(p, r, dirty);
    if dirty || p.shuttingDown {
      forall op | op in p'.ops
        ensures op.recipient != r
      {
        var i :| 0 <= i < |p'.ops| && p'.ops[i] == op;
        assert p.ops[i].recipient == op.recipient;
      }
    }
  }

  /** The completion of an operation of the active request that calls it back. */
  predicate CallsActive(p: Pool, e: Event, r: Id) {
    && Enabled(p, e) && (e.ReadDone? || (e.WriteDone? && !e.error.NoError?)) && !e.error.OperationAborted?
    && p.active == Some(r) && p.ops[e.i].recipient == r
  }

  /** The input it brings. */
  function Brought(e: Event): Input
    requires e.ReadDone? || e.WriteDone?
  {
    Input(e.error, if e.ReadDone? && e.error.NoError? then e.data else [])
  }

  /** It calls nobody else, and leaves the request active, without an operation when it failed. */
  lemma CallbackStep(p: Pool, e: Event, r: Id)
    requires Invariant(p) && CallsActive(p, e, r)
    ensures var p', input := Step(p, e), Brought(e);
            && Invariant(p') && p'.active == Some(r) && p'.requests == p.requests
            && p'.exercised == p.exercised && p'.shuttingDown == p.shuttingDown
            && (HasOp(p', r) <==> e.error.NoError?)
            && |p'.callbacks| == |p.callbacks| + 1 && p'.callbacks[..|p.callbacks|] == p.callbacks
            && p'.callbacks[|p.callbacks|].recipient == r
            && p'.callbacks[|p.callbacks|].error == input.error && p'.callbacks[|p.callbacks|].data == input.data
  {
    StepKeepsInvariant(p, e);
    WithoutOpKeeps(p, e.i);
    if e.error.NoError? {
      NewOpIsHeld(WithoutOp(p, e.i), Op(Read, r, false), r);
    }
  }

  /** A completed read, or a failed write, that ends the active timed request
      rules out later callbacks, except exactly while shutting down: then an
      accepted reply leaves it active, with the next read outstanding. */
  lemma ResponseEndsForGood(accepts: Call -> bool, p: Pool, r: Id, q: T.Request, e: Event)
    requires Waiting(accepts, p, r, q) && CallsActive(p, e, r)
    requires !T.Responded(accepts, q, Brought(e)).armed
    ensures var ending := EndingOf(q, T.Responded(accepts, q, Brought(e)));
            && MaySettle(Step(p, e), r, ending)
            && (HearsAgain(Settled(Step(p, e), r, ending), r) <==> p.shuttingDown && e.error.NoError?)
  {
    CallbackStep(p, e, r);
    ResponseUsesOption(accepts, q, Brought(e));
    WaitingIsKnown(Step(p, e), r);
    ExercisedActiveHearsAgain(Step(p, e), r, !e.error.NoError?);
  }

  /** A timeout of the active request destroys its option, which hands the socket
      on as if the exchange had ended cleanly. It too rules out later callbacks,
      except exactly while shutting down with an operation outstanding. */
  lemma ActiveTimeoutEndsForGood(accepts: Call -> bool, p: Pool, r: Id, q: T.Request)
    requires Waiting(accepts, p, r, q) && q.timer.queue != [] && q.timer.queue[0].Expired?
    ensures var ending := EndingOf(q, T.CompletionRun(q));
            && ending == Destroyed && MaySettle(p, r, ending)
            && (HearsAgain(Settled(p, r, ending), r) <==> p.shuttingDown && HasOp(p, r))
  {
    WaitingIsKnown(p, r);
    ExercisedActiveHearsAgain(p, r, false);
  }

  /** A pending request told of the shutdown answers it by a dirty call of its
      option, which posts its dequeue task, and is never called again. */
  lemma ResetEndsForGood(accepts: Call -> bool, p: Pool, r: Id, q: T.Request)
    requires Invariant(p) && p.shuttingDown && r in p.pending && r !in p.exercised
    requires p.active.Some? && LiveDiffer(p)
    requires T.Sound(accepts, q) && q.armed
    ensures var ending := EndingOf(q, T.Responded(accepts, q, Input(NetworkReset, [])));
            && ending == Called(true) && MaySettle(p, r, ending)
            && Settled(p, r, ending).dequeues == p.dequeues + [r] && !HearsAgain(Settled(p, r, ending), r)
  {
    QueueFacts(p);
    assert p.active.value in p.activated;
    assert Live(p, p.active.value) && Live(p, r);
    ResponseUsesOption(accepts, q, Input(NetworkReset, []));
    ExercisedPendingHearsAgain(p, r, true);
  }

  /** The clock runs from dispatch, so any unfinished request may time out. Where
      live requests differ, the destruction of its option has a meaning exactly
      while it is the active one, and neither while it is pending nor once it has
      lost its place. */
  lemma TimeoutDefinedWhileActive(accepts: Call -> bool, p: Pool, r: Id, q: T.Request)
    requires Invariant(p) && LiveDiffer(p) && r < |p.requests| && r !in p.exercised
    requires T.Sound(accepts, q) && q.armed && q.timer.queue != [] && q.timer.queue[0].Expired?
    ensures MaySettle(p, r, EndingOf(q, T.CompletionRun(q))) <==> p.active == Some(r)
  {
    DropDefinedWhileActive(p, r);
  }
}
