/** Runs of the scheduler together with the timed requests it serves: completions
    call the active timed request back, each request's clock runs on its own, a
    handler may send further requests from inside its call, and a shutdown tells
    the pending requests, which answer at once. */
module TransportRuns {
  import opened Bytes
  import opened Framing
  import opened Options
  import opened SocketScheduler
  import opened SchedulerSafety
  import opened SchedulerPromises
  import opened TransportContract
  import T = TimedRequest

  /** The scheduler, and the timed request of every request delivered to it. */
  datatype Net = Net(pool: Pool, timed: seq<T.Request>)

  const NO_REQUESTS := Net(IDLE, [])

  /** What happens next; sends are the payloads of the requests a handler called
      on the way dispatches, in order. */
  datatype NetEvent =
    | Sent(payload: Bytes)                              // a timed request is dispatched
    | Completed(done: Event, sends: seq<Bytes>)         // a socket operation completes
    | Ticked(r: Id, tick: T.Event, sends: seq<Bytes>)   // a wait expires, or the io_service runs its completion
    | TaskRan                                           // a dequeue task runs
    | Halted                                            // the destructor begins the shutdown
    | Stopped                                           // it finds nothing pending and cancels the socket

  const RESET := T.Response(NetworkReset, [])

  /** Whether a completion calls the active request back. */
  predicate Calls(p: Pool, e: Event)
    requires (e.ReadDone? || e.WriteDone?) && Enabled(p, e)
  {
    CallsActive(p, e, p.ops[e.i].recipient)
  }

  /** The request it belongs to. */
  function Owner(p: Pool, e: Event): Id
    requires (e.ReadDone? || e.WriteDone?) && Enabled(p, e)
  {
    p.ops[e.i].recipient
  }

  /** The response it brings. */
  function ResponseOf(e: Event): T.Event
    requires e.ReadDone? || e.WriteDone?
  {
    T.Response(Brought(e).error, Brought(e).data)
  }

  function SendOne(n: Net, payload: Bytes): Net
    requires !n.pool.shuttingDown
  {
    Net(Deliver(n.pool, payload), n.timed + [T.Dispatched(T.CREATED)])
  }

  /** Requests are dispatched one after the other; a transport that is shutting down takes none. */
  function SendAll(n: Net, sends: seq<Bytes>): (n': Net)
    ensures n.timed <= n'.timed
    decreases |sends|
  {
    if sends == [] || n.pool.shuttingDown then n else SendAll(SendOne(n, sends[0]), sends[1..])
  }

  /** Timed request r turns into q. A failed response uses the option before the
      handler is called, anything else after it, so that what the handler sends
      is delivered after that or before it. */
  predicate MayLand(n: Net, r: Id, q: T.Request, sends: seq<Bytes>)
    requires r < |n.timed|
  {
    var ending := EndingOf(n.timed[r], q);
    MaySettle(if ending == Called(true) then n.pool else SendAll(n, sends).pool, r, ending)
  }

  function Landed(n: Net, r: Id, q: T.Request, sends: seq<Bytes>): Net
    requires r < |n.timed| && MayLand(n, r, q, sends)
  {
    var ending := EndingOf(n.timed[r], q);
    if ending == Called(true) then SendAll(Net(Settled(n.pool, r, ending), n.timed[r := q]), sends)
    else
      var sent := SendAll(n, sends);
      Net(Settled(sent.pool, r, ending), sent.timed[r := q])
  }

  /** Pending requests are told of the shutdown one after the other. */
  predicate MayReset(accepts: Call -> bool, n: Net, ids: seq<Id>)
    decreases |ids|
  {
    ids == [] ||
    (&& ids[0] < |n.timed| && T.Enabled(n.timed[ids[0]], RESET)
     && var q := T.Step(accepts, n.timed[ids[0]], RESET);
        MayLand(n, ids[0], q, []) && MayReset(accepts, Landed(n, ids[0], q, []), ids[1..]))
  }

  function Reset(accepts: Call -> bool, n: Net, ids: seq<Id>): Net
    requires MayReset(accepts, n, ids)
    decreases |ids|
  {
    if ids == [] then n
    else Reset(accepts, Landed(n, ids[0], T.Step(accepts, n.timed[ids[0]], RESET), []), ids[1..])
  }

  /** Request r takes e, which calls its handler. */
  predicate HandlerCalled(accepts: Call -> bool, n: Net, r: Id, e: T.Event) {
    && r < |n.timed| && T.Enabled(n.timed[r], e)
    && |T.Step(accepts, n.timed[r], e).stream.calls| > |n.timed[r].stream.calls|
  }

  /** What may happen. A halted transport throws at whoever sends, which ends the run. */
  predicate Occurs(accepts: Call -> bool, n: Net, ev: NetEvent) {
    match ev
    case Sent(_) => !n.pool.shuttingDown
    case Completed(e, sends) =>
      && (e.ReadDone? || e.WriteDone?) && Enabled(n.pool, e)
      && (sends != [] ==>
            !n.pool.shuttingDown && Calls(n.pool, e) && HandlerCalled(accepts, n, Owner(n.pool, e), ResponseOf(e)))
    case Ticked(r, e, sends) =>
      && r < |n.timed| && !e.Response? && T.Enabled(n.timed[r], e)
      && (sends != [] ==> !n.pool.shuttingDown && HandlerCalled(accepts, n, r, e))
    case TaskRan => n.pool.dequeues != []
    case Halted => Enabled(n.pool, ShutdownBegan)
    case Stopped => Enabled(n.pool, ShutdownCancelled)
  }

  /** Whether it has a meaning: on_response asserts that the request is
      unfinished, and a request that ends must be able to use its option. */
  predicate Defined(accepts: Call -> bool, n: Net, ev: NetEvent)
    requires Occurs(accepts, n, ev)
  {
    match ev
    case Sent(_) => true
    case Completed(e, sends) =>
      Calls(n.pool, e) ==>
        var r := Owner(n.pool, e);
        && r < |n.timed| && T.Enabled(n.timed[r], ResponseOf(e))
        && MayLand(Net(SchedulerSafety.Step(n.pool, e), n.timed), r, T.Step(accepts, n.timed[r], ResponseOf(e)), sends)
    case Ticked(r, e, sends) => MayLand(n, r, T.Step(accepts, n.timed[r], e), sends)
    case TaskRan => Enabled(n.pool, DequeueRan)
    case Halted => MayReset(accepts, Net(BeginShutdown(n.pool), n.timed), n.pool.pending)
    case Stopped => true
  }

  function Next(accepts: Call -> bool, n: Net, ev: NetEvent): Net
    requires Occurs(accepts, n, ev) && Defined(accepts, n, ev)
  {
    match ev
    case Sent(payload) => SendOne(n, payload)
    case Completed(e, sends) =>
      var p := SchedulerSafety.Step(n.pool, e);
      if Calls(n.pool, e) then
        var r := Owner(n.pool, e);
        Landed(Net(p, n.timed), r, T.Step(accepts, n.timed[r], ResponseOf(e)), sends)
      else Net(p, n.timed)
    case Ticked(r, e, sends) => Landed(n, r, T.Step(accepts, n.timed[r], e), sends)
    case TaskRan => Net(Dequeue(n.pool), n.timed)
    case Halted => Reset(accepts, Net(BeginShutdown(n.pool), n.timed), n.pool.pending)
    case Stopped => Net(CancelSocket(n.pool), n.timed)
  }

  ghost predicate Runs(accepts: Call -> bool, n: Net, events: seq<NetEvent>, n': Net)
    decreases |events|
  {
    if events == [] then n' == n
    else
      && Occurs(accepts, n, events[0]) && Defined(accepts, n, events[0])
      && Runs(accepts, Next(accepts, n, events[0]), events[1..], n')
  }

  lemma {:induction false} RunExtends(accepts: Call -> bool, n: Net, events: seq<NetEvent>, n': Net, ev: NetEvent)
    requires Runs(accepts, n, events, n') && Occurs(accepts, n', ev) && Defined(accepts, n', ev)
    ensures Runs(accepts, n, events + [ev], Next(accepts, n', ev))
    decreases |events|
  {
    if events == [] {
      assert [ev][1..] == [] && [] + [ev] == [ev];
      assert Runs(accepts, Next(accepts, n', ev), [], Next(accepts, n', ev));
    } else {
      RunExtends(accepts, Next(accepts, n, events[0]), events[1..], n', ev);
      assert (events + [ev])[1..] == events[1..] + [ev];
    }
  }

  // ----- What is heard -----

  /** Nobody is called or ended who was not delivered, and errors bring no bytes. */
  ghost predicate Known(p: Pool) {
    && (forall c :: c in p.callbacks ==> c.recipient < |p.requests| && (!c.error.NoError? ==> c.data == []))
    && (forall r :: r in p.exercised ==> r < |p.requests|)
  }

  /** The timed requests are those of the scheduler, and each is sound. */
  ghost predicate Bound(accepts: Call -> bool, n: Net) {
    && Invariant(n.pool) && Known(n.pool)
    && |n.timed| == |n.pool.requests|
    && forall r :: 0 <= r < |n.timed| ==> T.Sound(accepts, n.timed[r])
  }

  /** What the scheduler has told request r, call by call. */
  function Told(callbacks: seq<Callback>, r: Id): seq<Input> {
    if callbacks == [] then []
    else
      var last := callbacks[|callbacks| - 1];
      Told(callbacks[..|callbacks| - 1], r) + if last.recipient == r then [Input(last.error, last.data)] else []
  }

  /** Every timed request has heard just that, but those still to be told of the shutdown. */
  ghost predicate SameInputs(n: Net, left: seq<Id>) {
    forall r :: 0 <= r < |n.timed| ==>
                  Told(n.pool.callbacks, r)
                  == T.FromTransport(n.timed[r]) + if r in left then [Input(RESET.error, RESET.data)] else []
  }

  ghost predicate Tied(accepts: Call -> bool, n: Net) {
    Bound(accepts, n) && SameInputs(n, [])
  }

  lemma {:induction false} UnknownToldNothing(callbacks: seq<Callback>, r: Id)
    requires forall c :: c in callbacks ==> c.recipient != r
    ensures Told(callbacks, r) == []
  {
    if callbacks != [] {
      UnknownToldNothing(callbacks[..|callbacks| - 1], r);
    }
  }

  /** The bytes among what it was told. */
  lemma {:induction false} BytesOfTold(callbacks: seq<Callback>, r: Id)
    requires forall c :: c in callbacks && !c.error.NoError? ==> c.data == []
    ensures Received(Told(callbacks, r)) == BytesHeard(callbacks, r)
  {
    if callbacks != [] {
      var before, last := callbacks[..|callbacks| - 1], callbacks[|callbacks| - 1];
      BytesOfTold(before, r);
      if last.recipient == r {
        ReceivedAppend(Told(before, r), Input(last.error, last.data));
      } else {
        assert Told(before, r) + [] == Told(before, r) && BytesHeard(before, r) + [] == BytesHeard(before, r);
      }
    }
  }

  lemma {:induction false} ResetsTell(callbacks: seq<Callback>, ids: seq<Id>, r: Id)
    requires forall i, j :: 0 <= i < j < |ids| ==> ids[i] != ids[j]
    ensures Told(callbacks + ResetPending(ids), r)
            == Told(callbacks, r) + if r in ids then [Input(RESET.error, RESET.data)] else []
  {
    if ids == [] {
      assert callbacks + ResetPending(ids) == callbacks;
    } else {
      var n, all := |ids| - 1, callbacks + ResetPending(ids);
      ResetsTell(callbacks, ids[..n], r);
      assert all[..|all| - 1] == callbacks + ResetPending(ids[..n]);
      assert all[|all| - 1] == Callback(ids[n], NetworkReset, [], None);
      assert r in ids <==> r in ids[..n] || r == ids[n];
    }
  }

  /** What a step tells a request: the input its own operation brings while it
      is active, or, pending, the shutdown. */
  lemma StepTells(p: Pool, e: Event, r: Id)
    requires Invariant(p) && Enabled(p, e)
    ensures Told(SchedulerSafety.Step(p, e).callbacks, r)
            == Told(p.callbacks, r)
               + if CallsActive(p, e, r) then [Brought(e)]
                 else if e.ShutdownBegan? && r in p.pending then [Input(RESET.error, RESET.data)]
                 else []
  {
    if e.ShutdownBegan? {
      PendingDistinct(p);
      ResetsTell(p.callbacks, p.pending, r);
    } else if (e.ReadDone? || e.WriteDone?) && Calls(p, e) {
      CallTells(p, e, r);
    } else {
      assert SchedulerSafety.Step(p, e).callbacks == p.callbacks;
      assert Told(p.callbacks, r) + [] == Told(p.callbacks, r);
    }
  }

  lemma CallTells(p: Pool, e: Event, r: Id)
    requires (e.ReadDone? || e.WriteDone?) && Enabled(p, e) && Calls(p, e)
    ensures Told(SchedulerSafety.Step(p, e).callbacks, r)
            == Told(p.callbacks, r) + if r == Owner(p, e) then [Brought(e)] else []
  {
    var callbacks := SchedulerSafety.Step(p, e).callbacks;
    var input := Brought(e);
    assert callbacks[..|callbacks| - 1] == p.callbacks;
    var last := callbacks[|callbacks| - 1];
    assert last.recipient == Owner(p, e) && last.error == input.error && last.data == input.data;
  }

  lemma StepKeepsKnown(p: Pool, e: Event)
    requires Invariant(p) && Known(p) && Enabled(p, e)
    ensures Known(SchedulerSafety.Step(p, e))
    ensures |SchedulerSafety.Step(p, e).requests| == |p.requests| + if e.Delivered? then 1 else 0
  {
    QueueFacts(p);
    ActiveIsKnown(p);
    var p' := SchedulerSafety.Step(p, e);
    forall c | c in p'.callbacks
      ensures c.recipient < |p'.requests| && (!c.error.NoError? ==> c.data == [])
    {
      if c !in p.callbacks && e.ShutdownBegan? {
        var i :| 0 <= i < |p.pending| && c == ResetPending(p.pending)[i];
        assert c.recipient == p.pending[i] && p.pending[i] in p.pending;
      }
    }
  }

  /** Settling an ended request gives nobody bytes. */
  lemma SettledKeeps(p: Pool, r: Id, ending: Ending)
    requires Invariant(p) && Known(p) && MaySettle(p, r, ending)
    ensures var p' := Settled(p, r, ending);
            && Invariant(p') && Known(p') && p'.shuttingDown == p.shuttingDown && p'.requests == p.requests
            && p'.callbacks == p.callbacks
  {
    match ending
    case Kept =>
    case Called(dirty) =>
      ExerciseKeeps(p, r, dirty);
      StepKeepsKnown(p, Exercised(r, dirty));
    case Destroyed =>
      ExerciseKeeps(p, r, false);
      StepKeepsKnown(p, OptionDropped(r));
  }

  lemma ReceivedAppend(inputs: seq<Input>, input: Input)
    ensures Received(inputs + [input]) == Received(inputs) + Payload(input)
  {
    assert (inputs + [input])[..|inputs|] == inputs;
  }

  /** n' is n with further requests just dispatched, and nobody called. */
  ghost predicate OnlySent(n: Net, n': Net) {
    && n'.pool.callbacks == n.pool.callbacks && n'.pool.shuttingDown == n.pool.shuttingDown
    && n.timed <= n'.timed
    && forall i :: |n.timed| <= i < |n'.timed| ==> n'.timed[i] == T.Dispatched(T.CREATED)
  }

  lemma SendOneKeepsBound(accepts: Call -> bool, n: Net, payload: Bytes)
    requires Bound(accepts, n) && !n.pool.shuttingDown
    ensures Bound(accepts, SendOne(n, payload)) && OnlySent(n, SendOne(n, payload))
  {
    StepKeepsInvariant(n.pool, Delivered(payload));
    StepKeepsKnown(n.pool, Delivered(payload));
    T.DispatchedIsSound(accepts);
  }

  lemma {:induction false} SendAllKeepsBound(accepts: Call -> bool, n: Net, sends: seq<Bytes>)
    requires Bound(accepts, n)
    ensures Bound(accepts, SendAll(n, sends)) && OnlySent(n, SendAll(n, sends))
    decreases |sends|
  {
    if sends != [] && !n.pool.shuttingDown {
      SendOneKeepsBound(accepts, n, sends[0]);
      SendAllKeepsBound(accepts, SendOne(n, sends[0]), sends[1..]);
    }
  }

  /** A landing keeps what is bound, and calls nobody itself. */
  lemma LandedKeepsBound(accepts: Call -> bool, n: Net, r: Id, q: T.Request, sends: seq<Bytes>)
    requires Bound(accepts, n) && r < |n.timed| && T.Sound(accepts, q) && MayLand(n, r, q, sends)
    ensures Bound(accepts, Landed(n, r, q, sends))
    ensures OnlySent(Net(n.pool, n.timed[r := q]), Landed(n, r, q, sends))
  {
    var ending := EndingOf(n.timed[r], q);
    if ending == Called(true) {
      SettledKeeps(n.pool, r, ending);
      SendAllKeepsBound(accepts, Net(Settled(n.pool, r, ending), n.timed[r := q]), sends);
    } else {
      SendAllKeepsBound(accepts, n, sends);
      SettledKeeps(SendAll(n, sends).pool, r, ending);
    }
  }

  lemma OnlySentKeepsSameInputs(n: Net, n': Net, left: seq<Id>)
    requires SameInputs(n, left) && Known(n.pool) && |n.pool.requests| == |n.timed| && OnlySent(n, n')
    requires forall r :: r in left ==> r < |n.timed|
    ensures SameInputs(n', left)
  {
    forall r | 0 <= r < |n'.timed|
      ensures Told(n'.pool.callbacks, r)
              == T.FromTransport(n'.timed[r]) + if r in left then [Input(RESET.error, RESET.data)] else []
    {
      if r >= |n.timed| {
        UnknownToldNothing(n.pool.callbacks, r);
      }
    }
  }

  /** A landing whose request has heard what the scheduler told it. */
  lemma LandedKeepsSameInputs(accepts: Call -> bool, n: Net, r: Id, q: T.Request, sends: seq<Bytes>, left: seq<Id>)
    requires Bound(accepts, n) && r < |n.timed| && T.Sound(accepts, q) && MayLand(n, r, q, sends)
    requires SameInputs(Net(n.pool, n.timed[r := q]), left) && forall x :: x in left ==> x < |n.timed|
    ensures Bound(accepts, Landed(n, r, q, sends)) && SameInputs(Landed(n, r, q, sends), left)
  {
    LandedKeepsBound(accepts, n, r, q, sends);
    OnlySentKeepsSameInputs(Net(n.pool, n.timed[r := q]), Landed(n, r, q, sends), left);
  }

  /** What a callback tells a timed request it hears. */
  lemma CallbackKeepsSameInputs(accepts: Call -> bool, n: Net, e: Event)
    requires Tied(accepts, n) && (e.ReadDone? || e.WriteDone?) && Enabled(n.pool, e) && Calls(n.pool, e)
    requires Owner(n.pool, e) < |n.timed| && n.timed[Owner(n.pool, e)].armed
    ensures var r := Owner(n.pool, e);
            SameInputs(Net(SchedulerSafety.Step(n.pool, e), n.timed[r := T.Responded(accepts, n.timed[r], Brought(e))]), [])
  {
    var r := Owner(n.pool, e);
    var timed := n.timed[r := T.Responded(accepts, n.timed[r], Brought(e))];
    T.ResponseIsTold(accepts, n.timed[r], Brought(e));
    forall x | 0 <= x < |timed|
      ensures Told(SchedulerSafety.Step(n.pool, e).callbacks, x) == T.FromTransport(timed[x])
    {
      TiedInputs(accepts, n, x);
      CallTells(n.pool, e, x);
      assert Told(n.pool.callbacks, x) + [] == Told(n.pool.callbacks, x);
    }
  }

  lemma StepKeepsBound(accepts: Call -> bool, n: Net, e: Event)
    requires Bound(accepts, n) && Enabled(n.pool, e) && !e.Delivered?
    ensures Bound(accepts, Net(SchedulerSafety.Step(n.pool, e), n.timed))
  {
    StepKeepsInvariant(n.pool, e);
    StepKeepsKnown(n.pool, e);
  }

  /** A step of the scheduler that calls nobody. */
  lemma QuietStepKeepsTied(accepts: Call -> bool, n: Net, e: Event)
    requires Tied(accepts, n) && Enabled(n.pool, e) && !e.Delivered? && !e.ShutdownBegan?
    requires e.ReadDone? || e.WriteDone? ==> !Calls(n.pool, e)
    ensures Tied(accepts, Net(SchedulerSafety.Step(n.pool, e), n.timed))
  {
    StepKeepsBound(accepts, n, e);
    forall r | 0 <= r < |n.timed|
      ensures Told(SchedulerSafety.Step(n.pool, e).callbacks, r) == T.FromTransport(n.timed[r])
    {
      StepTells(n.pool, e, r);
    }
  }

  lemma CompletedKeepsTied(accepts: Call -> bool, n: Net, e: Event, sends: seq<Bytes>)
    requires Tied(accepts, n) && Occurs(accepts, n, Completed(e, sends)) && Defined(accepts, n, Completed(e, sends))
    ensures Tied(accepts, Next(accepts, n, Completed(e, sends)))
  {
    if Calls(n.pool, e) {
      var p, r := SchedulerSafety.Step(n.pool, e), Owner(n.pool, e);
      StepKeepsBound(accepts, n, e);
      CallbackKeepsSameInputs(accepts, n, e);
      T.StepKeepsSound(accepts, n.timed[r], ResponseOf(e));
      LandedKeepsSameInputs(accepts, Net(p, n.timed), r, T.Step(accepts, n.timed[r], ResponseOf(e)), sends, []);
    } else {
      QuietStepKeepsTied(accepts, n, e);
    }
  }

  /** The transport says nothing by the clock. */
  lemma ClockSaysNothing(accepts: Call -> bool, q: T.Request, e: T.Event)
    requires T.Sound(accepts, q) && T.Enabled(q, e) && !e.Response?
    ensures T.FromTransport(T.Step(accepts, q, e)) == T.FromTransport(q)
  {
  }

  lemma TickedKeepsTied(accepts: Call -> bool, n: Net, r: Id, e: T.Event, sends: seq<Bytes>)
    requires Tied(accepts, n) && Occurs(accepts, n, Ticked(r, e, sends)) && Defined(accepts, n, Ticked(r, e, sends))
    ensures Tied(accepts, Next(accepts, n, Ticked(r, e, sends)))
  {
    T.StepKeepsSound(accepts, n.timed[r], e);
    ClockSaysNothing(accepts, n.timed[r], e);
    LandedKeepsSameInputs(accepts, n, r, T.Step(accepts, n.timed[r], e), sends, []);
  }

  /** The next pending request hears of the shutdown, as it was told. */
  lemma ResetIsHeard(accepts: Call -> bool, n: Net, left: seq<Id>)
    requires Bound(accepts, n) && SameInputs(n, left) && left != [] && left[0] !in left[1..]
    requires left[0] < |n.timed| && T.Enabled(n.timed[left[0]], RESET)
    ensures SameInputs(Net(n.pool, n.timed[left[0] := T.Step(accepts, n.timed[left[0]], RESET)]), left[1..])
  {
    var r := left[0];
    var q := T.Step(accepts, n.timed[r], RESET);
    assert left == [r] + left[1..];
    assert T.FromTransport(q) == T.FromTransport(n.timed[r]) + [Input(RESET.error, RESET.data)];
  }

  lemma {:induction false} ResetKeepsTied(accepts: Call -> bool, n: Net, left: seq<Id>)
    requires Bound(accepts, n) && SameInputs(n, left) && MayReset(accepts, n, left)
    requires forall i, j :: 0 <= i < j < |left| ==> left[i] != left[j]
    requires forall r :: r in left ==> r < |n.timed|
    ensures Tied(accepts, Reset(accepts, n, left))
    decreases |left|
  {
    if left != [] {
      var q := T.Step(accepts, n.timed[left[0]], RESET);
      forall r | r in left[1..]
        ensures r in left
      {
        var i :| 0 <= i < |left| - 1 && left[1..][i] == r;
        assert left[i + 1] == r;
      }
      ResetIsHeard(accepts, n, left);
      T.StepKeepsSound(accepts, n.timed[left[0]], RESET);
      LandedKeepsSameInputs(accepts, n, left[0], q, [], left[1..]);
      ResetKeepsTied(accepts, Landed(n, left[0], q, []), left[1..]);
    }
  }

  lemma HaltedKeepsTied(accepts: Call -> bool, n: Net)
    requires Tied(accepts, n) && Occurs(accepts, n, Halted) && Defined(accepts, n, Halted)
    ensures Tied(accepts, Next(accepts, n, Halted))
  {
    var begun := Net(BeginShutdown(n.pool), n.timed);
    StepKeepsBound(accepts, n, ShutdownBegan);
    forall r | 0 <= r < |n.timed|
      ensures Told(begun.pool.callbacks, r)
              == T.FromTransport(n.timed[r]) + if r in n.pool.pending then [Input(RESET.error, RESET.data)] else []
    {
      StepTells(n.pool, ShutdownBegan, r);
    }
    QueueFacts(n.pool);
    PendingDistinct(n.pool);
    ResetKeepsTied(accepts, begun, n.pool.pending);
  }

  lemma NextKeepsTied(accepts: Call -> bool, n: Net, ev: NetEvent)
    requires Tied(accepts, n) && Occurs(accepts, n, ev) && Defined(accepts, n, ev)
    ensures Tied(accepts, Next(accepts, n, ev))
  {
    match ev
    case Sent(payload) =>
      SendOneKeepsBound(accepts, n, payload);
      OnlySentKeepsSameInputs(n, SendOne(n, payload), []);
    case Completed(e, sends) => CompletedKeepsTied(accepts, n, e, sends);
    case Ticked(r, e, sends) => TickedKeepsTied(accepts, n, r, e, sends);
    case TaskRan => QuietStepKeepsTied(accepts, n, DequeueRan);
    case Halted => HaltedKeepsTied(accepts, n);
    case Stopped => QuietStepKeepsTied(accepts, n, ShutdownCancelled);
  }

  lemma {:induction false} RunsKeepTied(accepts: Call -> bool, n: Net, events: seq<NetEvent>, n': Net)
    requires Tied(accepts, n) && Runs(accepts, n, events, n')
    ensures Tied(accepts, n')
    decreases |events|
  {
    if events != [] {
      NextKeepsTied(accepts, n, events[0]);
      RunsKeepTied(accepts, Next(accepts, n, events[0]), events[1..], n');
    }
  }

  lemma NothingIsTied(accepts: Call -> bool)
    ensures Tied(accepts, NO_REQUESTS)
  {
  }

  lemma TiedInputs(accepts: Call -> bool, n: Net, r: Id)
    requires Tied(accepts, n) && r < |n.timed|
    ensures T.FromTransport(n.timed[r]) == Told(n.pool.callbacks, r)
  {
    assert T.FromTransport(n.timed[r]) + [] == T.FromTransport(n.timed[r]);
  }

  /** Bytes heard are bytes the scheduler gave it. */
  lemma TiedBytes(accepts: Call -> bool, n: Net, r: Id)
    requires Tied(accepts, n) && r < |n.timed|
    ensures T.ReplyBytes(n.timed[r]) == BytesHeard(n.pool.callbacks, r)
  {
    TiedInputs(accepts, n, r);
    BytesOfTold(n.pool.callbacks, r);
    TimeoutBringsNoBytes(accepts, n.timed[r]);
  }

  lemma TimeoutBringsNoBytes(accepts: Call -> bool, q: T.Request)
    requires T.Sound(accepts, q)
    ensures T.ReplyBytes(q) == Received(T.FromTransport(q))
  {
    if q.timedOut {
      var said := T.FromTransport(q);
      assert q.heard == said + [Input(ResponseTimeout, [])];
      ReceivedAppend(said, Input(ResponseTimeout, []));
      assert Received(said) + [] == Received(said);
    }
  }

  /** In every run a timed request has heard exactly what the scheduler told it,
      bytes and errors, but for its own timeout; the bytes are those of its own
      reads completed while it was active; and a handler that ends its request at
      the first frame has been called, first, with exactly the first complete
      frame of those, or with the error of the last thing it was told, or as a
      timeout. */
  lemma HandlersHearTheirOwnReads(accepts: Call -> bool, events: seq<NetEvent>, n: Net, r: Id)
    requires Runs(accepts, NO_REQUESTS, events, n) && r < |n.timed|
    requires forall c :: accepts(c)
    ensures T.FromTransport(n.timed[r]) == Told(n.pool.callbacks, r)
    ensures T.ReplyBytes(n.timed[r]) == BytesHeard(n.pool.callbacks, r)
    ensures !n.timed[r].armed ==> n.timed[r].stream.calls != []
    ensures !n.timed[r].armed && n.timed[r].stream.calls[0].error.NoError? ==>
              var frames := Frames(BytesHeard(n.pool.callbacks, r));
              frames != [] && n.timed[r].stream.calls[0].data == frames[0]
    ensures !n.timed[r].armed ==>
              n.timed[r].stream.calls[0].error == LastWord(Told(n.pool.callbacks, r), n.timed[r].dropped == 1)
  {
    NothingIsTied(accepts);
    RunsKeepTied(accepts, NO_REQUESTS, events, n);
    TiedInputs(accepts, n, r);
    TiedBytes(accepts, n, r);
    T.SoundCalls(accepts, n.timed[r]);
    EndsWithLastWord(accepts, n.timed[r], Told(n.pool.callbacks, r));
  }

  lemma EndsWithLastWord(accepts: Call -> bool, q: T.Request, told: seq<Input>)
    requires T.Sound(accepts, q) && T.FromTransport(q) == told
    ensures T.EndingError(q) == LastWord(told, q.dropped == 1)
    ensures !q.armed ==> q.stream.calls != []
  {
  }

  /** The error that a request which was told all this ended with. */
  function LastWord(told: seq<Input>, byClock: bool): ErrorCode {
    if byClock || told == [] then ResponseTimeout else told[|told| - 1].error
  }
}
