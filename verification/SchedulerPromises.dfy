/** The scheduler against what transport.hxx promises of an option to terminate:
    after its exercise no further callback for the request, and never a callback
    as part of it. */
module SchedulerPromises {
  import opened Bytes
  import opened Options
  import opened SocketScheduler
  import opened SchedulerSafety

  /** Some run from p calls r's handler again. */
  ghost predicate HearsAgain(p: Pool, r: Id) {
    exists events, q :: Reaches(p, events, q) && |CallbacksTo(q.callbacks, r)| > |CallbacksTo(p.callbacks, r)|
  }

  lemma OneStepRun(p: Pool, e: Event)
    requires Enabled(p, e)
    ensures Reaches(p, [e], Step(p, e))
  {
    assert [e][1..] == [];
    assert Reaches(Step(p, e), [], Step(p, e));
  }

  lemma {:induction false} RunExtends(p: Pool, events: seq<Event>, q: Pool, e: Event)
    requires Reaches(p, events, q) && Enabled(q, e)
    ensures Reaches(p, events + [e], Step(q, e))
    decreases |events|
  {
    if events == [] {
      OneStepRun(q, e);
    } else {
      RunExtends(Step(p, events[0]), events[1..], q, e);
      assert (events + [e])[1..] == events[1..] + [e];
    }
  }

  /** An outstanding operation of the active request can still call its handler. */
  lemma OutstandingOpIsHeard(p: Pool, r: Id)
    requires p.active == Some(r) && HasOp(p, r)
    ensures HearsAgain(p, r)
  {
    var i :| 0 <= i < |p.ops| && p.ops[i].recipient == r;
    var e := if p.ops[i].kind.Read? then ReadDone(i, NoError, []) else WriteDone(i, SocketError(0));
    OneStepRun(p, e);
    CallbacksToGrows(p.callbacks, Step(p, e).callbacks[|p.callbacks|]);
  }

  lemma SilentNeverHears(p: Pool, r: Id)
    requires Invariant(p) && Silent(p, r)
    ensures !HearsAgain(p, r)
  {
    forall events, q | Reaches(p, events, q)
      ensures CallbacksTo(q.callbacks, r) == CallbacksTo(p.callbacks, r)
    {
      SilentHearNothing(p, events, q, r);
    }
  }

  /** Exercising the active request's option makes no callback, and rules out
      later ones exactly when it hands the socket on, or the request has no
      operation outstanding: a dirty exercise only asks for the cancellation of
      an operation whose completion may be queued already. */
  lemma ExercisedActiveHearsAgain(p: Pool, r: Id, dirty: bool)
    requires Invariant(p) && p.active == Some(r) && r !in p.exercised
    requires Enabled(p, Exercised(r, dirty))
    ensures Exercise(p, r, dirty).callbacks == p.callbacks
    ensures HearsAgain(Exercise(p, r, dirty), r) <==> (dirty || p.shuttingDown) && HasOp(p, r)
  {
    QueueFacts(p);
    var p' := Exercise(p, r, dirty);
    ExerciseKeeps(p, r, dirty);
    if (dirty || p.shuttingDown) && HasOp(p, r) {
      var i :| 0 <= i < |p.ops| && p.ops[i].recipient == r;
      assert p'.ops[i].recipient == r;
      OutstandingOpIsHeard(p', r);
    } else {
      assert Silent(p', r) by {
        if dirty || p.shuttingDown {
          forall op | op in p'.ops
            ensures op.recipient != r
          {
            var i :| 0 <= i < |p'.ops| && p'.ops[i] == op;
            assert p.ops[i].recipient == op.recipient;
          }
        }
      }
      SilentNeverHears(p', r);
    }
  }

  lemma DequeuedStep(p: Pool, e: Event, r: Id)
    requires Invariant(p) && Enabled(p, e) && r in p.dequeued
    ensures r in Step(p, e).dequeued
    ensures CallbacksTo(Step(p, e).callbacks, r) == CallbacksTo(p.callbacks, r)
  {
    QueueFacts(p);
    if p.active.Some? {
      assert p.active.value in p.activated;
    }
    OthersAreNotCalled(p, e, r);
  }

  /** Shutting down, a request that is not active never becomes so, and has been told already. */
  lemma {:induction false} ShutdownIsFinal(p: Pool, events: seq<Event>, q: Pool, r: Id)
    requires Invariant(p) && p.shuttingDown && p.active != Some(r) && Reaches(p, events, q)
    ensures CallbacksTo(q.callbacks, r) == CallbacksTo(p.callbacks, r)
    decreases |events|
  {
    if events != [] {
      ShutdownStep(p, events[0], r);
      StepKeepsInvariant(p, events[0]);
      ShutdownIsFinal(Step(p, events[0]), events[1..], q, r);
    }
  }

  lemma ShutdownStep(p: Pool, e: Event, r: Id)
    requires Enabled(p, e) && p.shuttingDown && p.active != Some(r)
    ensures Step(p, e).shuttingDown && Step(p, e).active != Some(r)
    ensures CallbacksTo(Step(p, e).callbacks, r) == CallbacksTo(p.callbacks, r)
  {
    OthersAreNotCalled(p, e, r);
  }

  /** A shutdown calls every pending request's handler. */
  lemma PendingHearsShutdown(p: Pool, r: Id)
    requires r in p.pending && !p.shuttingDown
    ensures HearsAgain(p, r)
  {
    OneStepRun(p, ShutdownBegan);
    ResetReaches(p.callbacks, p.pending, r);
  }

  lemma {:induction false} ResetReaches(callbacks: seq<Callback>, ids: seq<Id>, r: Id)
    ensures |CallbacksTo(callbacks + ResetPending(ids), r)|
            >= |CallbacksTo(callbacks, r)| + if r in ids then 1 else 0
  {
    if ids == [] {
      assert callbacks + ResetPending(ids) == callbacks;
    } else {
      var n := |ids| - 1;
      var all := callbacks + ResetPending(ids);
      ResetReaches(callbacks, ids[..n], r);
      assert all[..|all| - 1] == callbacks + ResetPending(ids[..n]);
      assert ids == ids[..n] + [ids[n]];
    }
  }

  /** A pending request whose option has been exercised can be called back
      exactly when the transport is not shut down yet: it is told of a shutdown
      before its dequeue task runs, or it has become active itself. */
  lemma ExercisedPendingHearsAgain(p: Pool, r: Id, dirty: bool)
    requires Invariant(p) && r in p.pending && r !in p.exercised
    requires Enabled(p, Exercised(r, dirty))
    ensures Exercise(p, r, dirty).callbacks == p.callbacks
    ensures HearsAgain(Exercise(p, r, dirty), r) <==> !p.shuttingDown
  {
    QueueFacts(p);
    var p' := Exercise(p, r, dirty);
    ExerciseKeeps(p, r, dirty);
    if p.shuttingDown {
      forall events, q | Reaches(p', events, q)
        ensures CallbacksTo(q.callbacks, r) == CallbacksTo(p'.callbacks, r)
      {
        ShutdownIsFinal(p', events, q, r);
      }
    } else if r in p'.pending {
      PendingHearsShutdown(p', r);
    } else {
      assert p.pending == [p.pending[0]] + p.pending[1..];
      assert p'.active == Some(r) && p'.ops[|p.ops|].recipient == r;
      OutstandingOpIsHeard(p', r);
    }
  }

  /** A dirty exercise with an operation outstanding can move the queue on: that
      operation comes back aborted, and the next request in line is activated. */
  lemma DirtyExerciseCanMoveOn(p: Pool, r: Id)
    requires Invariant(p) && p.active == Some(r) && r !in p.exercised && !p.shuttingDown
    requires Enabled(p, Exercised(r, true)) && HasOp(p, r)
    ensures exists events, q :: Reaches(Exercise(p, r, true), events, q) && q.callbacks == p.callbacks
                                && q.active == (if p.pending == [] then None else Some(p.pending[0]))
  {
    var i :| 0 <= i < |p.ops| && p.ops[i].recipient == r;
    var p' := Exercise(p, r, true);
    assert p'.ops[i].recipient == r && p'.ops[i].cancelled;
    var e := if p'.ops[i].kind.Read? then ReadDone(i, OperationAborted, []) else WriteDone(i, OperationAborted);
    OneStepRun(p', e);
    assert Step(p', e).callbacks == p.callbacks;
  }

  /** A request dequeued before it was active never hears anything. */
  lemma {:induction false} DequeuedHearNothing(p: Pool, events: seq<Event>, q: Pool, r: Id)
    requires Invariant(p) && r in p.dequeued && Reaches(p, events, q)
    ensures CallbacksTo(q.callbacks, r) == CallbacksTo(p.callbacks, r)
    decreases |events|
  {
    if events != [] {
      DequeuedStep(p, events[0], r);
      StepKeepsInvariant(p, events[0]);
      DequeuedHearNothing(Step(p, events[0]), events[1..], q, r);
    }
  }

  // ----- Requests with equal payloads -----

  /** A clean exercise takes the socket from the active request exactly when the
      payloads are equal, whether or not the request is the one meant. */
  lemma CleanExerciseEndsActive(p: Pool, r: Id)
    requires Invariant(p) && r !in p.exercised && !p.shuttingDown
    requires Enabled(p, Exercised(r, false))
    ensures Exercise(p, r, false).active != p.active <==> p.requests[p.active.value] == p.requests[r]
  {
    QueueFacts(p);
    assert p.active.value in p.activated;
  }

  /** A pending request's option posts the task that removes it exactly when the
      active payload differs. Otherwise it acts on the active request: the
      pending one stays queued with its option used up, unless the exercise is
      clean and it is next in line, when it becomes active itself. */
  lemma PendingExerciseMisses(p: Pool, r: Id, dirty: bool)
    requires Invariant(p) && r !in p.exercised && r in p.pending
    requires Enabled(p, Exercised(r, dirty))
    ensures var p' := Exercise(p, r, dirty);
            var twin := p.requests[p.active.value] == p.requests[r];
            var activated := twin && !dirty && !p.shuttingDown && p.pending[0] == r;
            && r in p'.exercised
            && p'.dequeues == (if twin then p.dequeues else p.dequeues + [r])
            && (p'.active == Some(r) <==> activated)
            && (r in p'.pending <==> !activated)
            && (!twin ==> p'.active == p.active && p'.ops == p.ops)
  {
    QueueFacts(p);
    assert p.pending == [p.pending[0]] + p.pending[1..];
    PendingDistinct(p);
  }

  lemma PendingDistinct(p: Pool)
    requires InOrder(p)
    ensures forall i, j :: 0 <= i < j < |p.pending| ==> p.pending[i] != p.pending[j]
  {
    SurvivingShape(|p.requests|, p.dequeued);
    var all, n := p.activated + p.pending, |p.activated|;
    forall k | 0 <= k < |p.pending|
      ensures all[n + k] == p.pending[k]
    {}
  }

  // ----- Where the queue stops -----

  /** Of the requests delivered by the time of q, none whose option is unused in p has r's payload. */
  ghost predicate NoUnusedTwin(p: Pool, q: Pool, r: Id) {
    forall x: Id :: x < |q.requests| && r < |q.requests| && x !in p.exercised && x != r ==> q.requests[x] != q.requests[r]
  }

  /** The active request's option is used up and nothing of it is outstanding. */
  ghost predicate Stalled(p: Pool, r: Id) {
    p.active == Some(r) && r in p.exercised && forall op :: op in p.ops ==> op.recipient != r
  }

  lemma {:induction false} RequestsGrow(p: Pool, events: seq<Event>, q: Pool)
    requires Reaches(p, events, q)
    ensures p.requests <= q.requests
    decreases |events|
  {
    if events != [] {
      RequestsGrow(Step(p, events[0]), events[1..], q);
    }
  }

  /** A stalled scheduler never activates another request, short of an unused
      option whose request has an equal payload. */
  lemma {:induction false} StalledForever(p: Pool, events: seq<Event>, q: Pool, r: Id)
    requires Invariant(p) && Stalled(p, r) && Reaches(p, events, q) && NoUnusedTwin(p, q, r)
    ensures q.activated == p.activated && Stalled(q, r)
    decreases |events|
  {
    if events != [] {
      var e, p' := events[0], Step(p, events[0]);
      RequestsGrow(p', events[1..], q);
      QueueFacts(p);
      assert r in p.activated;
      RequestsGrow(p, events, q);
      assert forall x: Id :: x < |p.requests| ==> p.requests[x] == q.requests[x];
      match e {
        case ReadDone(i, _, _) => WithoutOpKeeps(p, i);
        case WriteDone(i, _) => WithoutOpKeeps(p, i);
        case _ =>
      }
      StepKeepsInvariant(p, e);
      StalledForever(p', events[1..], q, r);
    }
  }

  /** A run without a new request that activates one. */
  ghost predicate MovesOn(p: Pool, events: seq<Event>, q: Pool) {
    Reaches(p, events, q) && q.requests == p.requests && q.activated != p.activated
  }

  lemma UnusedTwinMovesOn(p: Pool, r: Id, x: Id)
    requires Invariant(p) && Stalled(p, r) && p.pending != [] && !p.shuttingDown
    requires x < |p.requests| && r < |p.requests| && x !in p.exercised && p.requests[x] == p.requests[r]
    ensures Enabled(p, Exercised(x, false))
    ensures MovesOn(p, [Exercised(x, false)], Step(p, Exercised(x, false)))
  {
    var q := Step(p, Exercised(x, false));
    assert q.activated == p.activated + [p.pending[0]];
    assert |q.activated| > |p.activated|;
    OneStepRun(p, Exercised(x, false));
  }

  /** Such an option is exactly what gets it going again without a new request:
      exercised clean, it activates the next request in line. */
  lemma TwinsBreakTheStall(p: Pool, r: Id)
    requires Invariant(p) && Stalled(p, r) && p.pending != [] && !p.shuttingDown
    ensures (exists events, q :: MovesOn(p, events, q)) <==> !NoUnusedTwin(p, p, r)
  {
    if NoUnusedTwin(p, p, r) {
      forall events, q
        ensures !MovesOn(p, events, q)
      {
        if Reaches(p, events, q) && q.requests == p.requests {
          assert NoUnusedTwin(p, q, r);
          StalledForever(p, events, q, r);
        }
      }
    } else {
      var x: Id :| x < |p.requests| && r < |p.requests| && x !in p.exercised && x != r && p.requests[x] == p.requests[r];
      UnusedTwinMovesOn(p, r, x);
    }
  }

  /** The completion of an operation of r with an error that is not an abort. */
  predicate FailsActive(p: Pool, e: Event, r: Id) {
    && Enabled(p, e) && (e.ReadDone? || e.WriteDone?)
    && !e.error.NoError? && !e.error.OperationAborted?
    && p.active == Some(r) && p.ops[e.i].recipient == r
  }

  /** A socket error other than an abort, of a read or a write, answered the way
      request_with_timeout answers it, by a dirty exercise: no later request is
      ever activated. The cancellation finds nothing outstanding to abort, and
      only an aborted operation moves the queue on. */
  lemma SocketErrorStallsQueue(p: Pool, e: Event, r: Id, events: seq<Event>, q: Pool)
    requires Invariant(p) && r < |p.requests| && r !in p.exercised && FailsActive(p, e, r)
    requires Reaches(Exercise(Step(p, e), r, true), events, q) && NoUnusedTwin(p, q, r)
    ensures q.activated == p.activated && q.active == Some(r)
  {
    var failed := Step(p, e);
    WithoutOpKeeps(p, e.i);
    StepKeepsInvariant(p, e);
    ExerciseKeeps(failed, r, true);
    StalledForever(Exercise(failed, r, true), events, q, r);
  }

  // ----- Where a shutdown stops -----

  /** Shutting down, an active request with nothing outstanding stays active. */
  lemma {:induction false} StuckForever(p: Pool, events: seq<Event>, q: Pool, r: Id)
    requires Invariant(p) && p.shuttingDown && p.active == Some(r) && !HasOp(p, r) && Reaches(p, events, q)
    ensures q.active == Some(r)
    decreases |events|
  {
    if events != [] {
      StuckStep(p, events[0], r);
      StepKeepsInvariant(p, events[0]);
      StuckForever(Step(p, events[0]), events[1..], q, r);
    }
  }

  lemma StuckStep(p: Pool, e: Event, r: Id)
    requires Enabled(p, e) && Invariant(p) && p.shuttingDown && p.active == Some(r) && !HasOp(p, r)
    ensures Step(p, e).shuttingDown && Step(p, e).active == Some(r) && !HasOp(Step(p, e), r)
  {
    var p' := Step(p, e);
    if e.ReadDone? || e.WriteDone? {
      WithoutOpKeeps(p, e.i);
      assert p.ops[e.i].recipient != r;
      assert p' == WithoutOp(p, e.i);
    } else {
      CancelHolds(p, r);
    }
  }

  /** A run after which no request is active. */
  ghost predicate Finishes(p: Pool, events: seq<Event>, q: Pool) {
    Reaches(p, events, q) && q.active.None?
  }

  lemma AbortFinishes(p: Pool) returns (events: seq<Event>, q: Pool)
    requires p.shuttingDown && p.pending == [] && p.active.Some? && HasOp(p, p.active.value)
    ensures Finishes(p, events, q)
  {
    var i :| 0 <= i < |p.ops| && p.ops[i].recipient == p.active.value;
    var p' := Step(p, ShutdownCancelled);
    assert p'.ops[i] == p.ops[i].(cancelled := true);
    var e := if p.ops[i].kind.Read? then ReadDone(i, OperationAborted, []) else WriteDone(i, OperationAborted);
    OneStepRun(p, ShutdownCancelled);
    RunExtends(p, [ShutdownCancelled], p', e);
    events, q := [ShutdownCancelled] + [e], Step(p', e);
  }

  /** The destructor, once nothing is pending, cancels the socket and waits for
      no request to be active. That can come about exactly when none is, or the
      active one has an operation left to come back aborted. */
  lemma ShutdownCanFinish(p: Pool)
    requires Invariant(p) && p.shuttingDown && p.pending == []
    ensures (exists events, q :: Finishes(p, events, q)) <==> p.active.None? || HasOp(p, p.active.value)
  {
    if p.active.None? {
      assert Finishes(p, [], p);
    } else if HasOp(p, p.active.value) {
      var events, q := AbortFinishes(p);
    } else {
      forall events, q
        ensures !Finishes(p, events, q)
      {
        if Reaches(p, events, q) {
          StuckForever(p, events, q, p.active.value);
        }
      }
    }
  }

  // ----- The successor of a clean hand-over -----

  /** A clean exercise starts the next request's write and then cancels it with
      everything else. When it does come back aborted the next request has lost
      its place without its handler ever being called. */
  lemma HandOverCanLoseSuccessor(p: Pool, r: Id)
    requires Invariant(p) && p.active == Some(r) && r !in p.exercised
    requires !p.shuttingDown && p.pending != []
    requires Enabled(p, Exercised(r, false))
    ensures exists events, q :: Reaches(Exercise(p, r, false), events, q) && Silent(q, p.pending[0])
                                && q.active != Some(p.pending[0]) && q.callbacks == p.callbacks
  {
    QueueFacts(p);
    var next := p.pending[0];
    var p' := Exercise(p, r, false);
    ExerciseKeeps(p, r, false);
    var i := |p.ops|;
    assert p'.ops[i] == Op(Write, next, true);
    var e := WriteDone(i, OperationAborted);
    OneStepRun(p', e);
    StepKeepsInvariant(p', e);
    QueueFacts(p');
    assert p'.activated == p.activated + [next];
    assert next in Step(p', e).activated;
    assert Reaches(p', [e], Step(p', e)) && Silent(Step(p', e), next);
  }

  /** Two requests delivered to an idle scheduler: the first is active, the second waits. */
  function TwoDelivered(first: Bytes, second: Bytes): Pool {
    IDLE.(requests := [first, second], pending := [1], active := Some(0), activated := [0],
          ops := [Op(Write, 0, false)])
  }

  lemma TwoDeliveredReached(first: Bytes, second: Bytes)
    ensures Reaches(IDLE, [Delivered(first), Delivered(second)], TwoDelivered(first, second))
  {
    var p1 := Step(IDLE, Delivered(first));
    assert p1 == IDLE.(requests := [first], active := Some(0), activated := [0], ops := [Op(Write, 0, false)]);
    OneStepRun(IDLE, Delivered(first));
    RunExtends(IDLE, [Delivered(first)], p1, Delivered(second));
    assert [Delivered(first)] + [Delivered(second)] == [Delivered(first), Delivered(second)];
    assert Step(p1, Delivered(second)) == TwoDelivered(first, second);
  }

  /** The question left open where a dequeue task runs: yes, its request can
      have become active by then, and has no queue position left to erase. */
  lemma PostedDequeueCanBeActive(first: Bytes, second: Bytes)
    requires first != second
    ensures exists events, q :: Reaches(IDLE, events, q) && q.dequeues != [] && q.active == Some(q.dequeues[0])
                                && !Enabled(q, DequeueRan)
  {
    var events := [Delivered(first), Delivered(second)];
    var p2 := TwoDelivered(first, second);
    var p3 := p2.(dequeues := [1], exercised := {1});
    TwoDeliveredReached(first, second);
    assert Step(p2, Exercised(1, true)) == p3;
    RunExtends(IDLE, events, p2, Exercised(1, true));
    RunExtends(IDLE, events + [Exercised(1, true)], p3, Exercised(0, false));
    var p4 := Step(p3, Exercised(0, false));
    assert p4.active == Some(1) && p4.dequeues == [1] && p4.pending == [];
  }

  /** Posted tasks are for distinct requests whose options are used up and
      which are not dequeued yet; only such requests ever are. */
  ghost predicate TasksInOrder(p: Pool) {
    && (forall i, j :: 0 <= i < j < |p.dequeues| ==> p.dequeues[i] != p.dequeues[j])
    && (forall r :: r in p.dequeues ==> r < |p.requests| && r in p.exercised && r !in p.dequeued)
    && p.dequeued <= p.exercised
  }

  lemma SameTasksKeep(p: Pool, p': Pool)
    requires TasksInOrder(p) && p'.dequeues == p.dequeues && p'.dequeued == p.dequeued
    requires p.exercised <= p'.exercised && |p.requests| <= |p'.requests|
    ensures TasksInOrder(p')
  {
  }

  lemma ExerciseKeepsTasks(p: Pool, r: Id, dirty: bool)
    requires TasksInOrder(p) && Enabled(p, Exercised(r, dirty))
    ensures TasksInOrder(Exercise(p, r, dirty))
  {
    var p' := Exercise(p, r, dirty);
    if p'.dequeues == p.dequeues {
      SameTasksKeep(p, p');
    } else {
      assert p'.dequeues == p.dequeues + [r];
    }
  }

  lemma DequeueKeepsTasks(p: Pool)
    requires TasksInOrder(p) && Enabled(p, DequeueRan)
    ensures TasksInOrder(Dequeue(p))
  {
    assert p.dequeues == [p.dequeues[0]] + p.dequeues[1..];
  }

  lemma StepKeepsTasks(p: Pool, e: Event)
    requires TasksInOrder(p) && Enabled(p, e)
    ensures TasksInOrder(Step(p, e))
  {
    match e
    case Exercised(r, dirty) => ExerciseKeepsTasks(p, r, dirty);
    case OptionDropped(r) => ExerciseKeepsTasks(p, r, false);
    case DequeueRan => DequeueKeepsTasks(p);
    case _ => SameTasksKeep(p, Step(p, e));
  }

  lemma {:induction false} RunsKeepTasks(p: Pool, events: seq<Event>, q: Pool)
    requires TasksInOrder(p) && Reaches(p, events, q)
    ensures TasksInOrder(q)
    decreases |events|
  {
    if events != [] {
      StepKeepsTasks(p, events[0]);
      RunsKeepTasks(Step(p, events[0]), events[1..], q);
    }
  }

  lemma TaskRequestIsQueued(q: Pool)
    requires InOrder(q) && TasksInOrder(q) && q.dequeues != []
    ensures q.dequeues[0] in q.pending <==> q.dequeues[0] !in q.activated
  {
    QueueFacts(q);
    SurvivingShape(|q.requests|, q.dequeued);
    assert q.dequeues[0] in q.dequeues;
    assert q.dequeues[0] in q.activated + q.pending;
  }

  /** In every reachable state a posted task has its queue position to erase
      exactly when its request has not become active in the meantime. */
  lemma TaskDefinedUnlessActivated(events: seq<Event>, q: Pool)
    requires Reaches(IDLE, events, q) && q.dequeues != []
    ensures Enabled(q, DequeueRan) <==> q.dequeues[0] !in q.activated
  {
    RunsKeepInvariant(IDLE, events, q);
    RunsKeepTasks(IDLE, events, q);
    TaskRequestIsQueued(q);
  }

  // ----- Where exercising an option has no meaning -----

  lemma UnusedIsQueued(p: Pool, r: Id)
    requires InOrder(p) && p.dequeued <= p.exercised && r < |p.requests| && r !in p.exercised
    ensures r in p.activated || r in p.pending
  {
    SurvivingShape(|p.requests|, p.dequeued);
    assert r in p.activated + p.pending;
  }

  /** Where calling an unused option has no meaning, in any reachable state,
      nothing is active; and unless shutting down, nothing is waiting either, and
      the option's request has been active itself and lost its place. */
  lemma ExerciseDefinedWhileActive(events: seq<Event>, q: Pool, r: Id, dirty: bool)
    requires Reaches(IDLE, events, q) && r < |q.requests| && r !in q.exercised
    requires !Enabled(q, Exercised(r, dirty))
    ensures q.active.None? && (!q.shuttingDown ==> q.pending == [] && r in q.activated)
  {
    RunsKeepInvariant(IDLE, events, q);
    RunsKeepTasks(IDLE, events, q);
    ActiveIsKnown(q);
    UnusedIsQueued(q, r);
  }

  /** Such a state is reached: the second of two requests loses its place to the
      cancellation of the first, and its option then has no active request to
      compare with. */
  lemma UnusedOptionWithoutActive(first: Bytes, second: Bytes)
    requires first != second
    ensures exists events, q :: Reaches(IDLE, events, q) && q.active == None && 1 < |q.requests| && 1 !in q.exercised
                                && !Enabled(q, Exercised(1, true)) && !Enabled(q, OptionDropped(1))
  {
    var events, lost := [Delivered(first), Delivered(second)], WriteDone(1, OperationAborted);
    var p2 := TwoDelivered(first, second);
    var p3 := p2.(pending := [], active := Some(1), activated := [0, 1], exercised := {0},
                  ops := [Op(Write, 0, true), Op(Write, 1, true)]);
    TwoDeliveredReached(first, second);
    assert Step(p2, Exercised(0, false)) == p3;
    RunExtends(IDLE, events, p2, Exercised(0, false));
    RunExtends(IDLE, events + [Exercised(0, false)], p3, lost);
    assert Step(p3, lost).active == None;
  }

  /** Delivered, and its option unused or itself still the active one. */
  predicate Live(p: Pool, r: Id) {
    r < |p.requests| && (r !in p.exercised || p.active == Some(r))
  }

  /** No two live requests have the same payload. */
  ghost predicate LiveDiffer(p: Pool) {
    forall x: Id, y: Id :: Live(p, x) && Live(p, y) && x != y ==> p.requests[x] != p.requests[y]
  }

  /** Where live requests differ, destroying an unused option is defined exactly
      while its own request is the active one. */
  lemma DropDefinedWhileActive(p: Pool, r: Id)
    requires Invariant(p) && LiveDiffer(p) && r < |p.requests| && r !in p.exercised
    ensures Enabled(p, OptionDropped(r)) <==> p.active == Some(r)
  {
    QueueFacts(p);
    if p.active.Some? {
      assert p.active.value in p.activated;
      assert Live(p, p.active.value) && Live(p, r);
    }
  }
}
