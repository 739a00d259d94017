/** What every run of the single-socket scheduler keeps, and where its promises end. */
module SchedulerSafety {
  import opened Bytes
  import opened Options
  import opened SocketScheduler

  datatype Event =
    | Delivered(payload: Bytes)
    | ReadDone(i: nat, error: ErrorCode, data: Bytes)
    | WriteDone(i: nat, error: ErrorCode)
    | Exercised(r: Id, dirty: bool)  // the option of request r is called
    | OptionDropped(r: Id)           // the option of request r is destroyed
    | DequeueRan
    | ShutdownBegan                  // the destructor refuses further requests and tells the pending ones
    | ShutdownCancelled              // it finds none pending any more, and cancels the socket

  /** An operation comes back aborted only once it has been cancelled. An
      exercised option dereferences the active request, and a dequeue task the
      request's place among the pending ones. */
  predicate Enabled(p: Pool, e: Event) {
    match e
    case Delivered(_) => !p.shuttingDown
    case ReadDone(i, error, _) =>
      i < |p.ops| && p.ops[i].kind.Read? && (error.OperationAborted? ==> p.ops[i].cancelled)
    case WriteDone(i, error) =>
      i < |p.ops| && p.ops[i].kind.Write? && (error.OperationAborted? ==> p.ops[i].cancelled)
    case Exercised(r, _) =>
      r < |p.requests| && (r !in p.exercised ==> p.active.Some? && p.active.value < |p.requests|)
    case OptionDropped(r) => r < |p.requests| && DropDefined(p, r)
    case DequeueRan => p.dequeues != [] && p.dequeues[0] in p.pending
    case ShutdownBegan => !p.shuttingDown
    case ShutdownCancelled => p.shuttingDown && p.pending == []
  }

  function Step(p: Pool, e: Event): Pool
    requires Enabled(p, e)
  {
    match e
    case Delivered(payload) => Deliver(p, payload)
    case ReadDone(i, error, data) => OnRead(p, i, error, data)
    case WriteDone(i, error) => OnWrite(p, i, error)
    case Exercised(r, dirty) => Exercise(p, r, dirty)
    case OptionDropped(r) => Drop(p, r)
    case DequeueRan => Dequeue(p)
    case ShutdownBegan => BeginShutdown(p)
    case ShutdownCancelled => CancelSocket(p)
  }

  ghost predicate Reaches(p: Pool, events: seq<Event>, q: Pool)
    decreases |events|
  {
    if events == [] then q == p
    else Enabled(p, events[0]) && Reaches(Step(p, events[0]), events[1..], q)
  }

  // ----- The queue -----

  /** The first n requests but those dequeued, in order of delivery. */
  function Surviving(n: nat, dequeued: set<Id>): seq<Id> {
    if n == 0 then []
    else Surviving(n - 1, dequeued) + if n - 1 in dequeued then [] else [n - 1]
  }

  ghost predicate Increasing(ids: seq<Id>) {
    forall i, j :: 0 <= i < j < |ids| ==> ids[i] < ids[j]
  }

  lemma {:induction false} SurvivingShape(n: nat, dequeued: set<Id>)
    ensures Increasing(Surviving(n, dequeued))
    ensures forall r: Id :: r in Surviving(n, dequeued) <==> r < n && r !in dequeued
  {
    if n > 0 {
      SurvivingShape(n - 1, dequeued);
      var before := Surviving(n - 1, dequeued);
      assert forall i :: 0 <= i < |before| ==> before[i] in before;
    }
  }

  lemma {:induction false} WithoutAbsent(a: seq<Id>, r: Id)
    requires r !in a
    ensures Without(a, r) == a
  {
    if a != [] {
      WithoutAbsent(a[1..], r);
    }
  }

  lemma {:induction false} WithoutInFront(a: seq<Id>, b: seq<Id>, r: Id)
    requires r in a
    ensures Without(a + b, r) == Without(a, r) + b
  {
    assert (a + b)[1..] == a[1..] + b;
    if a[0] != r {
      WithoutInFront(a[1..], b, r);
    }
  }

  lemma {:induction false} WithoutBehind(a: seq<Id>, b: seq<Id>, r: Id)
    requires r !in a
    ensures Without(a + b, r) == a + Without(b, r)
  {
    if a == [] {
      assert a + b == b;
    } else {
      assert (a + b)[1..] == a[1..] + b;
      WithoutBehind(a[1..], b, r);
    }
  }

  lemma {:induction false} SurvivingWithout(n: nat, dequeued: set<Id>, r: Id)
    requires r !in dequeued
    ensures Surviving(n, dequeued + {r}) == Without(Surviving(n, dequeued), r)
  {
    if n > 0 {
      SurvivingWithout(n - 1, dequeued, r);
      SurvivingShape(n - 1, dequeued);
      var before, last: seq<Id> := Surviving(n - 1, dequeued), if n - 1 in dequeued then [] else [n - 1];
      if r in before {
        WithoutInFront(before, last, r);
      } else {
        WithoutBehind(before, last, r);
        WithoutAbsent(before, r);
      }
    }
  }

  /** Delivered requests less the dequeued ones are the activated ones followed by the pending ones. */
  ghost predicate InOrder(p: Pool) {
    && p.activated + p.pending == Surviving(|p.requests|, p.dequeued)
    && forall r :: r in p.dequeued ==> r < |p.requests|
  }

  /** The active request is the one activated last, and only a shutdown leaves requests waiting for none. */
  ghost predicate ActiveIsLatest(p: Pool) {
    && (p.active.Some? ==> p.activated != [] && p.active.value == p.activated[|p.activated| - 1])
    && (p.active.None? && !p.shuttingDown ==> p.pending == [])
  }

  /** Operations belong to activated requests, no two to the same one. */
  ghost predicate OneOpEach(p: Pool) {
    && (forall i :: 0 <= i < |p.ops| ==> p.ops[i].recipient in p.activated)
    && (forall i, j :: 0 <= i < j < |p.ops| ==> p.ops[i].recipient != p.ops[j].recipient)
  }

  /** Bytes went to the request whose read brought them. */
  ghost predicate Routed(p: Pool) {
    forall c :: c in p.callbacks && c.error.NoError? ==>
      c.via.Some? && c.via.value.kind.Read? && c.via.value.recipient == c.recipient
  }

  ghost predicate Invariant(p: Pool) {
    InOrder(p) && ActiveIsLatest(p) && OneOpEach(p) && Routed(p)
  }

  /** What the queue says of single requests. */
  lemma QueueFacts(p: Pool)
    requires InOrder(p)
    ensures Increasing(p.activated)
    ensures forall r :: r in p.activated ==> r < |p.requests| && r !in p.pending && r !in p.dequeued
    ensures forall r :: r in p.pending ==> r < |p.requests| && r !in p.dequeued
    ensures forall i, j :: 0 <= i < |p.activated| && 0 <= j < |p.pending| ==> p.activated[i] < p.pending[j]
  {
    var all := p.activated + p.pending;
    SurvivingShape(|p.requests|, p.dequeued);
    forall i | 0 <= i < |p.activated|
      ensures p.activated[i] == all[i]
    {}
    forall j | 0 <= j < |p.pending|
      ensures p.pending[j] == all[|p.activated| + j]
    {}
    forall r | r in p.activated || r in p.pending
      ensures r in all
    {}
  }

  lemma ActiveIsKnown(p: Pool)
    requires InOrder(p) && ActiveIsLatest(p)
    ensures p.active.Some? ==> p.active.value < |p.requests| && p.active.value in p.activated
  {
    QueueFacts(p);
    if p.active.Some? {
      assert p.activated[|p.activated| - 1] in p.activated;
    }
  }

  lemma RunNextKeeps(p: Pool)
    requires InOrder(p) && OneOpEach(p) && Routed(p)
    ensures Invariant(RunNextRequest(p))
  {
    QueueFacts(p);
    if p.pending != [] {
      assert p.activated + p.pending == (p.activated + [p.pending[0]]) + p.pending[1..];
    }
  }

  lemma CancelKeeps(p: Pool)
    requires InOrder(p) && OneOpEach(p) && Routed(p)
    ensures InOrder(CancelSocket(p)) && OneOpEach(CancelSocket(p)) && Routed(CancelSocket(p))
    ensures ActiveIsLatest(p) ==> ActiveIsLatest(CancelSocket(p))
  {
  }

  lemma WithoutOpKeeps(p: Pool, i: nat)
    requires Invariant(p) && i < |p.ops|
    ensures Invariant(WithoutOp(p, i))
    ensures forall op :: op in WithoutOp(p, i).ops ==> op.recipient != p.ops[i].recipient
  {
    var ops, rest := p.ops, WithoutOp(p, i).ops;
    forall k | 0 <= k < |rest|
      ensures rest[k] == ops[if k < i then k else k + 1]
    {}
  }

  lemma SocketErrorKeeps(p: Pool, error: ErrorCode)
    requires Invariant(p) && p.active.Some? && !error.NoError?
    ensures Invariant(HandleSocketError(p, error))
  {
    if error.OperationAborted? {
      CancelKeeps(p.(active := None));
      if !p.shuttingDown {
        RunNextKeeps(CancelSocket(p.(active := None)));
      }
    }
  }

  lemma DeliverKeeps(p: Pool, payload: Bytes)
    requires Invariant(p) && !p.shuttingDown
    ensures Invariant(Deliver(p, payload))
  {
    var n := |p.requests|;
    var queued := p.(requests := p.requests + [payload], pending := p.pending + [n]);
    assert queued.activated + queued.pending == (p.activated + p.pending) + [n];
    assert n !in p.dequeued;
    assert Surviving(n + 1, p.dequeued) == Surviving(n, p.dequeued) + [n];
    if p.active.None? {
      RunNextKeeps(queued);
    }
  }

  lemma DequeueKeeps(p: Pool)
    requires Invariant(p) && Enabled(p, DequeueRan)
    ensures Invariant(Dequeue(p))
  {
    var r := p.dequeues[0];
    QueueFacts(p);
    WithoutBehind(p.activated, p.pending, r);
    SurvivingWithout(|p.requests|, p.dequeued, r);
  }

  lemma ExerciseKeeps(p: Pool, r: Id, dirty: bool)
    requires Invariant(p) && Enabled(p, Exercised(r, dirty))
    ensures Invariant(Exercise(p, r, dirty))
  {
    RunNextKeeps(p);
    CancelKeeps(p);
    CancelKeeps(RunNextRequest(p));
  }

  lemma ReadKeeps(p: Pool, i: nat, error: ErrorCode, data: Bytes)
    requires Invariant(p) && i < |p.ops| && p.ops[i].kind.Read?
    ensures Invariant(OnRead(p, i, error, data))
  {
    WithoutOpKeeps(p, i);
    if p.active.Some? && !error.NoError? {
      SocketErrorKeeps(WithoutOp(p, i), error);
    }
  }

  lemma WriteKeeps(p: Pool, i: nat, error: ErrorCode)
    requires Invariant(p) && i < |p.ops| && p.ops[i].kind.Write?
    ensures Invariant(OnWrite(p, i, error))
  {
    WithoutOpKeeps(p, i);
    if p.active.Some? && !error.NoError? {
      SocketErrorKeeps(WithoutOp(p, i), error);
    }
  }

  lemma StepKeepsInvariant(p: Pool, e: Event)
    requires Invariant(p) && Enabled(p, e)
    ensures Invariant(Step(p, e))
  {
    match e
    case Delivered(payload) => DeliverKeeps(p, payload);
    case ReadDone(i, error, data) => ReadKeeps(p, i, error, data);
    case WriteDone(i, error) => WriteKeeps(p, i, error);
    case Exercised(r, dirty) => ExerciseKeeps(p, r, dirty);
    case OptionDropped(r) => ExerciseKeeps(p, r, false);
    case DequeueRan => DequeueKeeps(p);
    case ShutdownBegan =>
    case ShutdownCancelled => CancelKeeps(p);
  }

  lemma {:induction false} RunsKeepInvariant(p: Pool, events: seq<Event>, q: Pool)
    requires Invariant(p) && Reaches(p, events, q)
    ensures Invariant(q)
    decreases |events|
  {
    if events != [] {
      StepKeepsInvariant(p, events[0]);
      RunsKeepInvariant(Step(p, events[0]), events[1..], q);
    }
  }

  /** In every reachable state: requests leave the queue in delivery order, none
      is activated twice, the active one is the latest, unless shutting down an
      idle socket has nothing to do, no request has two operations outstanding,
      and bytes have only gone to the request whose read brought them. */
  lemma QueueIsFair(events: seq<Event>, q: Pool)
    requires Reaches(IDLE, events, q)
    ensures q.activated + q.pending == Surviving(|q.requests|, q.dequeued)
    ensures Increasing(q.activated)
    ensures q.active.Some? ==> q.activated != [] && q.active.value == q.activated[|q.activated| - 1]
    ensures q.active.None? && !q.shuttingDown ==> q.pending == []
    ensures OneOpEach(q) && Routed(q)
  {
    RunsKeepInvariant(IDLE, events, q);
    QueueFacts(q);
  }

  // ----- Who hears what -----

  /** The calls of one request's handler. */
  function CallbacksTo(callbacks: seq<Callback>, r: Id): seq<Callback> {
    if callbacks == [] then []
    else
      CallbacksTo(callbacks[..|callbacks| - 1], r)
      + if callbacks[|callbacks| - 1].recipient == r then [callbacks[|callbacks| - 1]] else []
  }

  lemma {:induction false} CallbacksToOthers(callbacks: seq<Callback>, more: seq<Callback>, r: Id)
    requires forall c :: c in more ==> c.recipient != r
    ensures CallbacksTo(callbacks + more, r) == CallbacksTo(callbacks, r)
  {
    if more == [] {
      assert callbacks + more == callbacks;
    } else {
      var all := callbacks + more;
      assert all[..|all| - 1] == callbacks + more[..|more| - 1];
      CallbacksToOthers(callbacks, more[..|more| - 1], r);
    }
  }

  lemma CallbacksToGrows(callbacks: seq<Callback>, c: Callback)
    ensures |CallbacksTo(callbacks + [c], c.recipient)| == |CallbacksTo(callbacks, c.recipient)| + 1
  {
    assert (callbacks + [c])[..|callbacks|] == callbacks;
  }

  /** A request that has been active and can hear nothing more: another is
      active, or none of its own operations is outstanding. */
  ghost predicate Silent(p: Pool, r: Id) {
    r in p.activated && (p.active != Some(r) || forall op :: op in p.ops ==> op.recipient != r)
  }

  lemma SocketErrorKeepsSilent(p: Pool, error: ErrorCode, r: Id)
    requires Invariant(p) && p.active.Some? && Silent(p, r)
    ensures Silent(HandleSocketError(p, error), r)
  {
    QueueFacts(p);
  }

  lemma CompletionKeepsSilent(p: Pool, i: nat, error: ErrorCode, data: Bytes, r: Id)
    requires Invariant(p) && i < |p.ops| && Silent(p, r)
    ensures p.ops[i].kind.Read? ==> Silent(OnRead(p, i, error, data), r)
    ensures p.ops[i].kind.Write? ==> Silent(OnWrite(p, i, error), r)
  {
    WithoutOpKeeps(p, i);
    assert p.ops[i] in p.ops;
    if p.active.Some? {
      SocketErrorKeepsSilent(WithoutOp(p, i), error, r);
    }
  }

  lemma ExerciseKeepsSilent(p: Pool, x: Id, dirty: bool, r: Id)
    requires Invariant(p) && Enabled(p, Exercised(x, dirty)) && Silent(p, r)
    ensures Silent(Exercise(p, x, dirty), r)
  {
    QueueFacts(p);
  }

  lemma StepKeepsSilent(p: Pool, e: Event, r: Id)
    requires Invariant(p) && Enabled(p, e) && Silent(p, r)
    ensures Silent(Step(p, e), r)
    ensures CallbacksTo(Step(p, e).callbacks, r) == CallbacksTo(p.callbacks, r)
  {
    QueueFacts(p);
    StepCallbacks(p, e, r);
    match e
    case ReadDone(i, error, data) => CompletionKeepsSilent(p, i, error, data, r);
    case WriteDone(i, error) => CompletionKeepsSilent(p, i, error, [], r);
    case Exercised(x, dirty) => ExerciseKeepsSilent(p, x, dirty, r);
    case OptionDropped(x) => ExerciseKeepsSilent(p, x, false, r);
    case _ =>
  }

  lemma StepCallbacks(p: Pool, e: Event, r: Id)
    requires Invariant(p) && Enabled(p, e) && Silent(p, r)
    ensures CallbacksTo(Step(p, e).callbacks, r) == CallbacksTo(p.callbacks, r)
  {
    QueueFacts(p);
    if e.ReadDone? || e.WriteDone? {
      assert p.ops[e.i] in p.ops;
    }
    OthersAreNotCalled(p, e, r);
  }

  /** What a step may call r for: its own operation while it is active, or a shutdown while it is pending. */
  predicate MayCall(p: Pool, e: Event, r: Id)
    requires Enabled(p, e)
  {
    || ((e.ReadDone? || e.WriteDone?) && p.active == Some(r) && p.ops[e.i].recipient == r)
    || (e.ShutdownBegan? && r in p.pending)
  }

  lemma OthersAreNotCalled(p: Pool, e: Event, r: Id)
    requires Enabled(p, e) && !MayCall(p, e, r)
    ensures CallbacksTo(Step(p, e).callbacks, r) == CallbacksTo(p.callbacks, r)
  {
    if Step(p, e).callbacks != p.callbacks {
      var more := Step(p, e).callbacks[|p.callbacks|..];
      assert Step(p, e).callbacks == p.callbacks + more;
      CallbacksToOthers(p.callbacks, more, r);
    }
  }

  /** Once superseded a request never hears anything again, bytes or errors,
      whatever stale completions arrive. */
  lemma {:induction false} SilentHearNothing(p: Pool, events: seq<Event>, q: Pool, r: Id)
    requires Invariant(p) && Silent(p, r) && Reaches(p, events, q)
    ensures CallbacksTo(q.callbacks, r) == CallbacksTo(p.callbacks, r)
    ensures Silent(q, r)
    decreases |events|
  {
    if events != [] {
      StepKeepsInvariant(p, events[0]);
      StepKeepsSilent(p, events[0], r);
      SilentHearNothing(Step(p, events[0]), events[1..], q, r);
    }
  }

  // ----- Bytes and progress -----

  /** The bytes a request's handler has been given. */
  function BytesHeard(callbacks: seq<Callback>, r: Id): Bytes {
    if callbacks == [] then []
    else
      var last := callbacks[|callbacks| - 1];
      BytesHeard(callbacks[..|callbacks| - 1], r) + if last.recipient == r then last.data else []
  }

  lemma {:induction false} BytesHeardAppend(callbacks: seq<Callback>, more: seq<Callback>, r: Id)
    requires forall c :: c in more ==> c.data == []
    ensures BytesHeard(callbacks + more, r) == BytesHeard(callbacks, r)
  {
    if more == [] {
      assert callbacks + more == callbacks;
    } else {
      var all := callbacks + more;
      assert all[..|all| - 1] == callbacks + more[..|more| - 1];
      BytesHeardAppend(callbacks, more[..|more| - 1], r);
    }
  }

  /** A step gives a request exactly the bytes of its own read, completed while
      it is active, and gives nobody anything otherwise. */
  lemma StepRoutesBytes(p: Pool, e: Event, r: Id)
    requires Enabled(p, e)
    ensures BytesHeard(Step(p, e).callbacks, r)
            == BytesHeard(p.callbacks, r)
               + if e.ReadDone? && e.error.NoError? && p.ops[e.i].recipient == r && p.active == Some(r) then e.data else []
  {
    if e.ReadDone? && e.error.NoError? && p.active == Some(p.ops[e.i].recipient) {
      var c := Callback(p.active.value, e.error, e.data, Some(p.ops[e.i]));
      assert Step(p, e).callbacks == p.callbacks + [c];
      assert (p.callbacks + [c])[..|p.callbacks|] == p.callbacks;
    } else {
      OtherStepsAreQuiet(p, e);
      BytesHeardAppend(p.callbacks, Step(p, e).callbacks[|p.callbacks|..], r);
    }
  }

  lemma OtherStepsAreQuiet(p: Pool, e: Event)
    requires Enabled(p, e)
    requires !(e.ReadDone? && e.error.NoError? && p.active == Some(p.ops[e.i].recipient))
    ensures var callbacks := Step(p, e).callbacks;
            && p.callbacks <= callbacks && callbacks == p.callbacks + callbacks[|p.callbacks|..]
            && forall c :: c in callbacks[|p.callbacks|..] ==> c.data == []
  {
  }

  /** The read that follows a completed operation of the active request is not
      aborted, unless it is cancelled first: as long as nothing else happens a
      request keeps its place however many chunks its reply comes in. */
  lemma NextReadIsNotAborted(p: Pool, e: Event, e': Event)
    requires Invariant(p) && Enabled(p, e) && (e.ReadDone? || e.WriteDone?) && e.error.NoError?
    requires p.active == Some(p.ops[e.i].recipient)
    requires Enabled(Step(p, e), e') && (e'.ReadDone? || e'.WriteDone?)
    requires Step(p, e).active == Some(Step(p, e).ops[e'.i].recipient)
    ensures e'.ReadDone? && !e'.error.OperationAborted? && Step(Step(p, e), e').active == p.active
  {
    var r, p' := p.active.value, Step(p, e);
    WithoutOpKeeps(p, e.i);
    assert p'.ops == WithoutOp(p, e.i).ops + [Op(Read, r, false)];
  }

  /** r still has a socket operation outstanding. */
  predicate HasOp(p: Pool, r: Id) {
    exists i :: 0 <= i < |p.ops| && p.ops[i].recipient == r
  }

  /** The handler of r was told of an error. */
  predicate ToldOfError(callbacks: seq<Callback>, r: Id) {
    exists i :: 0 <= i < |callbacks| && callbacks[i].recipient == r && !callbacks[i].error.NoError?
  }

  /** The active request's exchange is under way, unless its handler was told of an error. */
  ghost predicate UnderWay(p: Pool) {
    p.active.Some? ==> HasOp(p, p.active.value) || ToldOfError(p.callbacks, p.active.value)
  }

  lemma NewOpIsHeld(p: Pool, op: Op, r: Id)
    ensures HasOp(p.(ops := p.ops + [op]), r) <==> HasOp(p, r) || op.recipient == r
  {
    var ops := p.ops + [op];
    assert ops[|p.ops|] == op;
    if i :| 0 <= i < |p.ops| && p.ops[i].recipient == r {
      assert ops[i].recipient == r;
    }
  }

  lemma CancelHolds(p: Pool, r: Id)
    ensures HasOp(CancelSocket(p), r) <==> HasOp(p, r)
  {
    if i :| 0 <= i < |p.ops| && p.ops[i].recipient == r {
      assert CancelSocket(p).ops[i].recipient == r;
    }
  }

  lemma WithoutOpHolds(p: Pool, i: nat, r: Id)
    requires i < |p.ops| && p.ops[i].recipient != r && HasOp(p, r)
    ensures HasOp(WithoutOp(p, i), r)
  {
    var k :| 0 <= k < |p.ops| && p.ops[k].recipient == r;
    assert WithoutOp(p, i).ops[if k < i then k else k - 1] == p.ops[k];
  }

  lemma ToldStays(callbacks: seq<Callback>, more: seq<Callback>, r: Id)
    requires ToldOfError(callbacks, r)
    ensures ToldOfError(callbacks + more, r)
  {
    var i :| 0 <= i < |callbacks| && callbacks[i].recipient == r && !callbacks[i].error.NoError?;
    assert (callbacks + more)[i] == callbacks[i];
  }

  lemma RunNextIsUnderWay(p: Pool)
    ensures UnderWay(RunNextRequest(p))
  {
    if p.pending != [] {
      NewOpIsHeld(p, Op(Write, p.pending[0], false), p.pending[0]);
    }
  }

  /** A completion that is not the active request's own leaves it under way. */
  lemma StaleCompletionKeepsUnderWay(p: Pool, i: nat)
    requires UnderWay(p) && i < |p.ops| && p.active != Some(p.ops[i].recipient)
    ensures UnderWay(WithoutOp(p, i))
  {
    if p.active.Some? && HasOp(p, p.active.value) {
      WithoutOpHolds(p, i, p.active.value);
    }
  }

  lemma OwnCompletionKeepsUnderWay(p: Pool, e: Event)
    requires Enabled(p, e) && (e.ReadDone? || e.WriteDone?) && p.active == Some(p.ops[e.i].recipient)
    ensures UnderWay(Step(p, e))
  {
    var p', r := Step(p, e), p.active.value;
    if e.error.NoError? {
      NewOpIsHeld(WithoutOp(p, e.i), Op(Read, r, false), r);
    } else if e.error.OperationAborted? {
      RunNextIsUnderWay(CancelSocket(WithoutOp(p, e.i).(active := None)));
    } else {
      assert p'.callbacks[|p.callbacks|].recipient == r;
    }
  }

  lemma ExerciseKeepsUnderWay(p: Pool, r: Id, dirty: bool)
    requires UnderWay(p) && Enabled(p, Exercised(r, dirty))
    ensures UnderWay(Exercise(p, r, dirty))
  {
    RunNextIsUnderWay(p);
    if p.active.Some? {
      CancelHolds(p, p.active.value);
    }
    var next := RunNextRequest(p);
    if next.active.Some? {
      CancelHolds(next, next.active.value);
    }
  }

  lemma StepKeepsUnderWay(p: Pool, e: Event)
    requires UnderWay(p) && Enabled(p, e)
    ensures UnderWay(Step(p, e))
  {
    match e
    case Delivered(payload) =>
      RunNextIsUnderWay(p.(requests := p.requests + [payload], pending := p.pending + [|p.requests|]));
    case ReadDone(i, _, _) =>
      if p.active == Some(p.ops[i].recipient) {
        OwnCompletionKeepsUnderWay(p, e);
      } else {
        StaleCompletionKeepsUnderWay(p, i);
      }
    case WriteDone(i, _) =>
      if p.active == Some(p.ops[i].recipient) {
        OwnCompletionKeepsUnderWay(p, e);
      } else {
        StaleCompletionKeepsUnderWay(p, i);
      }
    case Exercised(r, dirty) => ExerciseKeepsUnderWay(p, r, dirty);
    case OptionDropped(r) => ExerciseKeepsUnderWay(p, r, false);
    case DequeueRan =>
    case ShutdownBegan =>
      if p.active.Some? && ToldOfError(p.callbacks, p.active.value) {
        ToldStays(p.callbacks, ResetPending(p.pending), p.active.value);
      }
    case ShutdownCancelled =>
      if p.active.Some? {
        CancelHolds(p, p.active.value);
      }
  }

  /** In every reachable state the active request has an operation outstanding,
      or its handler has been told of an error. */
  lemma {:induction false} ActiveIsUnderWay(p: Pool, events: seq<Event>, q: Pool)
    requires UnderWay(p) && Reaches(p, events, q)
    ensures UnderWay(q)
    decreases |events|
  {
    if events != [] {
      StepKeepsUnderWay(p, events[0]);
      ActiveIsUnderWay(Step(p, events[0]), events[1..], q);
    }
  }
}
