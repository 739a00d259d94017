/** What runs of the scheduler with its timed requests keep, where no request is
    sent while another with the same payload is still live: who may be called
    back, which tasks are posted, and how a shutdown comes to an end. */
module TransportSafety {
  import opened Bytes
  import opened Framing
  import opened Options
  import opened SocketScheduler
  import opened SchedulerSafety
  import SchedulerPromises
  import opened TransportContract
  import opened TransportRuns
  import T = TimedRequest

  // ----- Payloads -----

  /** No live request has this payload. */
  ghost predicate Unlike(p: Pool, payload: Bytes) {
    forall x: Id :: SchedulerPromises.Live(p, x) ==> p.requests[x] != payload
  }

  ghost predicate AllUnlike(n: Net, sends: seq<Bytes>)
    decreases |sends|
  {
    sends == [] || n.pool.shuttingDown
    || (Unlike(n.pool, sends[0]) && AllUnlike(SendOne(n, sends[0]), sends[1..]))
  }

  /** So for what is sent as a request lands, where it is delivered. */
  ghost predicate FreshLanding(n: Net, r: Id, q: T.Request, sends: seq<Bytes>)
    requires r < |n.timed|
  {
    var ending := EndingOf(n.timed[r], q);
    if ending == Called(true) then
      MaySettle(n.pool, r, ending) ==> AllUnlike(Net(Settled(n.pool, r, ending), n.timed[r := q]), sends)
    else AllUnlike(n, sends)
  }

  /** Whatever an event sends differs from every request that is live then. */
  ghost predicate Fresh(accepts: Call -> bool, n: Net, ev: NetEvent)
    requires Occurs(accepts, n, ev)
  {
    match ev
    case Sent(payload) => Unlike(n.pool, payload)
    case Completed(e, sends) =>
      Calls(n.pool, e) && Owner(n.pool, e) < |n.timed| && T.Enabled(n.timed[Owner(n.pool, e)], ResponseOf(e)) ==>
        var r := Owner(n.pool, e);
        FreshLanding(Net(SchedulerSafety.Step(n.pool, e), n.timed), r, T.Step(accepts, n.timed[r], ResponseOf(e)), sends)
    case Ticked(r, e, sends) => FreshLanding(n, r, T.Step(accepts, n.timed[r], e), sends)
    case _ => true
  }

  ghost predicate FreshRuns(accepts: Call -> bool, n: Net, events: seq<NetEvent>, n': Net)
    decreases |events|
  {
    if events == [] then n' == n
    else
      && Occurs(accepts, n, events[0]) && Defined(accepts, n, events[0]) && Fresh(accepts, n, events[0])
      && FreshRuns(accepts, Next(accepts, n, events[0]), events[1..], n')
  }

  // ----- What the steps keep -----

  /** It hears nothing more, unless it ended well or timed out while shutting down and kept its place. */
  ghost predicate Hushed(n: Net, r: Id)
    requires r < |n.timed|
  {
    Silent(n.pool, r)
    || (n.pool.shuttingDown && (n.pool.active == Some(r) ==> n.timed[r].succeeded || n.timed[r].timedOut))
  }

  /** Options are used up exactly with their requests, and who is over is hushed. */
  ghost predicate Settling(n: Net)
    requires |n.timed| == |n.pool.requests|
  {
    forall r :: 0 <= r < |n.timed| ==>
                  (n.timed[r].armed <==> r !in n.pool.exercised) && (!n.timed[r].armed ==> Hushed(n, r))
  }

  /** Tasks are posted for the requests pending at the shutdown, but for those still to be told of it. */
  ghost predicate Queued(p: Pool, left: seq<Id>) {
    && (if p.shuttingDown then p.pending == p.dequeues + left else p.dequeues == [] && left == [])
    && (left != [] ==> p.active.Some?)
    && forall r :: r in left ==> r !in p.exercised
  }

  ghost predicate Steady(n: Net, left: seq<Id>) {
    && Invariant(n.pool) && Known(n.pool) && |n.timed| == |n.pool.requests|
    && Settling(n) && SchedulerPromises.LiveDiffer(n.pool) && Queued(n.pool, left)
  }

  ghost predicate Orderly(accepts: Call -> bool, n: Net) {
    Tied(accepts, n) && Steady(n, [])
  }

  lemma HushedStays(n: Net, e: Event, r: Id)
    requires Invariant(n.pool) && Enabled(n.pool, e) && r < |n.timed| && Hushed(n, r)
    ensures Hushed(Net(SchedulerSafety.Step(n.pool, e), n.timed), r)
  {
    if Silent(n.pool, r) {
      StepKeepsSilent(n.pool, e, r);
    } else if n.pool.active != Some(r) {
      SchedulerPromises.ShutdownStep(n.pool, e, r);
    } else {
      ShuttingDownStays(n.pool, e);
    }
  }

  lemma ShuttingDownStays(p: Pool, e: Event)
    requires Enabled(p, e) && p.shuttingDown
    ensures SchedulerSafety.Step(p, e).shuttingDown
  {
  }

  /** A step that neither delivers a request nor uses an option. */
  lemma StepKeepsSettling(n: Net, e: Event)
    requires Invariant(n.pool) && |n.timed| == |n.pool.requests| && Settling(n) && Enabled(n.pool, e)
    requires !e.Delivered? && !e.Exercised? && !e.OptionDropped?
    ensures var p := SchedulerSafety.Step(n.pool, e);
            p.requests == n.pool.requests && p.exercised == n.pool.exercised && Settling(Net(p, n.timed))
  {
    forall r | 0 <= r < |n.timed| && !n.timed[r].armed
      ensures Hushed(Net(SchedulerSafety.Step(n.pool, e), n.timed), r)
    {
      HushedStays(n, e, r);
    }
  }

  /** Fewer requests are live: more options are used up, and whoever became active has an unused one. */
  lemma LiveShrinks(p: Pool, p': Pool)
    requires SchedulerPromises.LiveDiffer(p) && p'.requests == p.requests && p.exercised <= p'.exercised
    requires p'.active == p.active || p'.active.None? || p'.active.value !in p'.exercised
    ensures SchedulerPromises.LiveDiffer(p')
  {
    forall x: Id | SchedulerPromises.Live(p', x)
      ensures SchedulerPromises.Live(p, x)
    {}
  }

  lemma PendingIsUnused(n: Net)
    requires Steady(n, []) && !n.pool.shuttingDown
    ensures forall r :: r in n.pool.pending ==> r < |n.timed| && r !in n.pool.exercised
  {
    QueueFacts(n.pool);
  }

  lemma CompletionKeepsSteady(n: Net, e: Event)
    requires Steady(n, []) && (e.ReadDone? || e.WriteDone?) && Enabled(n.pool, e)
    ensures Steady(Net(SchedulerSafety.Step(n.pool, e), n.timed), [])
  {
    var p := SchedulerSafety.Step(n.pool, e);
    StepKeepsInvariant(n.pool, e);
    StepKeepsKnown(n.pool, e);
    StepKeepsSettling(n, e);
    CompletionActivates(n.pool, e);
    if !n.pool.shuttingDown {
      PendingIsUnused(n);
    }
    LiveShrinks(n.pool, p);
  }

  /** The queue under a completion. */
  lemma CompletionActivates(p: Pool, e: Event)
    requires (e.ReadDone? || e.WriteDone?) && Enabled(p, e)
    ensures var p' := SchedulerSafety.Step(p, e);
            && p'.dequeues == p.dequeues && p'.shuttingDown == p.shuttingDown
            && (p'.active == p.active || p'.active.None?
                || (!p.shuttingDown && p.pending != [] && p'.active == Some(p.pending[0])))
            && (p.shuttingDown ==> p'.pending == p.pending)
  {
  }

  lemma SendOneKeepsSteady(n: Net, payload: Bytes)
    requires Steady(n, []) && !n.pool.shuttingDown && Unlike(n.pool, payload)
    ensures Steady(SendOne(n, payload), [])
    ensures var p' := SendOne(n, payload).pool;
            && p'.exercised == n.pool.exercised && p'.shuttingDown == n.pool.shuttingDown
            && (p'.active == n.pool.active || p'.active == Some(|n.timed|))
            && (n.pool.active.Some? ==> p'.active == n.pool.active)
  {
    var e, n' := Delivered(payload), SendOne(n, payload);
    StepKeepsInvariant(n.pool, e);
    StepKeepsKnown(n.pool, e);
    assert n'.pool.active == n.pool.active || n'.pool.active == Some(|n.timed|);
    forall r | 0 <= r < |n'.timed|
      ensures (n'.timed[r].armed <==> r !in n'.pool.exercised) && (!n'.timed[r].armed ==> Hushed(n', r))
    {
      if r < |n.timed| && !n.timed[r].armed {
        HushedStays(n, e, r);
      }
    }
    SentDiffers(n.pool, payload);
  }

  lemma SentDiffers(p: Pool, payload: Bytes)
    requires Invariant(p) && Known(p) && !p.shuttingDown
    requires SchedulerPromises.LiveDiffer(p) && Unlike(p, payload)
    ensures SchedulerPromises.LiveDiffer(Deliver(p, payload))
  {
    var p', n := Deliver(p, payload), |p.requests|;
    assert p'.requests == p.requests + [payload];
    forall x: Id | SchedulerPromises.Live(p', x) && x != n
      ensures SchedulerPromises.Live(p, x) && p'.requests[x] == p.requests[x]
    {}
  }

  lemma {:induction false} SendAllKeepsSteady(n: Net, sends: seq<Bytes>)
    requires Steady(n, []) && AllUnlike(n, sends)
    ensures var n' := SendAll(n, sends);
            && Steady(n', []) && n'.pool.exercised == n.pool.exercised && n'.pool.shuttingDown == n.pool.shuttingDown
            && (n'.pool.active == n.pool.active || (n'.pool.active.Some? && n'.pool.active.value >= |n.timed|))
            && (n.pool.active.Some? ==> n'.pool.active == n.pool.active)
    decreases |sends|
  {
    if sends != [] && !n.pool.shuttingDown {
      SendOneKeepsSteady(n, sends[0]);
      SendAllKeepsSteady(SendOne(n, sends[0]), sends[1..]);
    }
  }

  // ----- Endings -----

  /** Ending the active request settles it. */
  lemma EndKeepsSettling(n: Net, r: Id, q: T.Request, dirty: bool)
    requires Steady(n, []) && r < |n.timed| && n.timed[r].armed && !q.armed && n.pool.active == Some(r)
    requires !(q.succeeded || q.timedOut) ==> dirty && !HasOp(n.pool, r)
    requires dirty ==> !HasOp(n.pool, r)
    ensures var p := Exercise(n.pool, r, dirty);
            && p.requests == n.pool.requests && p.exercised == n.pool.exercised + {r}
            && Settling(Net(p, n.timed[r := q]))
  {
    var n' := Net(Exercise(n.pool, r, dirty), n.timed[r := q]);
    assert n.timed[r].armed && r !in n.pool.exercised;
    if !n.pool.shuttingDown || !HasOp(n.pool, r) {
      EndedIsSilent(n.pool, r, dirty);
    }
    forall x | 0 <= x < |n.timed| && !n'.timed[x].armed
      ensures Hushed(n', x)
    {
      if x != r {
        HushedStays(n, Exercised(r, dirty), x);
        assert n'.timed[x] == n.timed[x];
      }
    }
  }

  lemma ExerciseActivates(p: Pool, r: Id, dirty: bool)
    requires p.active == Some(r) && r < |p.requests| && r !in p.exercised
    ensures var p' := Exercise(p, r, dirty);
            && p'.dequeues == p.dequeues && p'.shuttingDown == p.shuttingDown
            && (p'.active == p.active || p'.active.None?
                || (!p.shuttingDown && p.pending != [] && p'.active == Some(p.pending[0])))
            && (p.shuttingDown ==> p'.pending == p.pending)
  {
  }

  lemma EndKeepsSteady(n: Net, r: Id, q: T.Request, ending: Ending)
    requires Steady(n, []) && r < |n.timed| && n.timed[r].armed && !q.armed && n.pool.active == Some(r)
    requires ending.Destroyed? || ending.Called?
    requires !(q.succeeded || q.timedOut) ==> ending == Called(true)
    requires ending == Called(true) ==> !HasOp(n.pool, r)
    ensures MaySettle(n.pool, r, ending)
    ensures Steady(Net(Settled(n.pool, r, ending), n.timed[r := q]), [])
  {
    var dirty := ending.Called? && ending.dirty;
    ActiveIsKnown(n.pool);
    QueueFacts(n.pool);
    EndKeepsSettling(n, r, q, dirty);
    ExerciseKeeps(n.pool, r, dirty);
    StepKeepsKnown(n.pool, Exercised(r, dirty));
    ExerciseActivates(n.pool, r, dirty);
    if !n.pool.shuttingDown {
      PendingIsUnused(n);
    }
    LiveShrinks(n.pool, Exercise(n.pool, r, dirty));
  }

  /** A change that neither ends the request nor takes back how it ended. */
  lemma KeptKeepsSteady(n: Net, r: Id, q: T.Request)
    requires Steady(n, []) && r < |n.timed| && q.armed == n.timed[r].armed
    requires (n.timed[r].succeeded ==> q.succeeded) && (n.timed[r].timedOut ==> q.timedOut)
    ensures Steady(Net(n.pool, n.timed[r := q]), [])
  {
    var n' := Net(n.pool, n.timed[r := q]);
    forall x | 0 <= x < |n'.timed|
      ensures (n'.timed[x].armed <==> x !in n'.pool.exercised) && (!n'.timed[x].armed ==> Hushed(n', x))
    {
      assert !n.timed[x].armed ==> Hushed(n, x);
    }
  }

  lemma EndingsStay(accepts: Call -> bool, q: T.Request, e: T.Event)
    requires T.Sound(accepts, q) && T.Enabled(q, e)
    ensures var q' := T.Step(accepts, q, e);
            && (q.succeeded ==> q'.succeeded) && (q.timedOut ==> q'.timedOut) && (q'.armed ==> q.armed)
  {
  }

  /** How an event of a timed request ends it, if it does. */
  lemma EndingOfStep(accepts: Call -> bool, q: T.Request, e: T.Event)
    requires T.Sound(accepts, q) && T.Enabled(q, e)
    ensures var q' := T.Step(accepts, q, e);
            var ending := EndingOf(q, q');
            if q.armed && !q'.armed then
              if e.Response? then ending == Called(!e.error.NoError?) && (e.error.NoError? ==> q'.succeeded)
              else ending == Destroyed && q'.timedOut
            else ending == Kept && q'.armed == q.armed
  {
    EndingsStay(accepts, q, e);
    if e.Response? {
      ResponseUsesOption(accepts, q, Input(e.error, e.data));
    } else {
      ClockUsesOption(accepts, q, e);
    }
  }

  /** A response finds its request active, and one that failed left it no operation. */
  ghost predicate AtHand(n: Net, r: Id, e: T.Event) {
    e.Response? ==> n.pool.active == Some(r) && (!e.error.NoError? ==> !HasOp(n.pool, r))
  }

  /** A timed request takes an event and its handler sends: that has a meaning
      exactly when it is not a timeout that ends it away from the socket. */
  lemma LandingIsDefined(accepts: Call -> bool, n: Net, r: Id, e: T.Event, sends: seq<Bytes>)
    requires Steady(n, []) && r < |n.timed| && T.Sound(accepts, n.timed[r]) && T.Enabled(n.timed[r], e) && AtHand(n, r, e)
    requires FreshLanding(n, r, T.Step(accepts, n.timed[r], e), sends)
    ensures var q := T.Step(accepts, n.timed[r], e);
            MayLand(n, r, q, sends) <==> (n.timed[r].armed && !q.armed ==> n.pool.active == Some(r))
  {
    var q := T.Step(accepts, n.timed[r], e);
    EndingOfStep(accepts, n.timed[r], e);
    if n.timed[r].armed && !q.armed {
      if EndingOf(n.timed[r], q) == Called(true) {
        EndKeepsSteady(n, r, q, Called(true));
      } else {
        var sent := SendAll(n, sends);
        SendAllKeepsSteady(n, sends);
        if sent.pool.active == Some(r) {
          EndKeepsSteady(sent, r, q, EndingOf(n.timed[r], q));
        } else {
          SchedulerPromises.DropDefinedWhileActive(sent.pool, r);
        }
      }
    }
  }

  lemma LandingKeepsSteady(accepts: Call -> bool, n: Net, r: Id, e: T.Event, sends: seq<Bytes>)
    requires Steady(n, []) && r < |n.timed| && T.Sound(accepts, n.timed[r]) && T.Enabled(n.timed[r], e) && AtHand(n, r, e)
    requires FreshLanding(n, r, T.Step(accepts, n.timed[r], e), sends)
    requires MayLand(n, r, T.Step(accepts, n.timed[r], e), sends)
    ensures Steady(Landed(n, r, T.Step(accepts, n.timed[r], e), sends), [])
  {
    var q := T.Step(accepts, n.timed[r], e);
    var ending := EndingOf(n.timed[r], q);
    LandingIsDefined(accepts, n, r, e, sends);
    EndingOfStep(accepts, n.timed[r], e);
    EndingsStay(accepts, n.timed[r], e);
    if ending == Called(true) {
      EndKeepsSteady(n, r, q, ending);
      SendAllKeepsSteady(Net(Settled(n.pool, r, ending), n.timed[r := q]), sends);
    } else {
      SendAllKeepsSteady(n, sends);
      if ending == Kept {
        KeptKeepsSteady(SendAll(n, sends), r, q);
      } else {
        EndKeepsSteady(SendAll(n, sends), r, q, ending);
      }
    }
  }

  // ----- The shutdown -----

  lemma BeginKeepsSteady(n: Net)
    requires Steady(n, []) && !n.pool.shuttingDown
    ensures Steady(Net(BeginShutdown(n.pool), n.timed), n.pool.pending)
  {
    StepKeepsInvariant(n.pool, ShutdownBegan);
    StepKeepsKnown(n.pool, ShutdownBegan);
    StepKeepsSettling(n, ShutdownBegan);
    PendingIsUnused(n);
    LiveShrinks(n.pool, BeginShutdown(n.pool));
    assert [] + n.pool.pending == n.pool.pending;
  }

  /** The next pending request answers its reset: its task is posted. */
  lemma ResetPosts(n: Net, left: seq<Id>)
    requires Steady(n, left) && left != []
    ensures left[0] < |n.timed| && n.timed[left[0]].armed && left[0] !in n.pool.exercised
    ensures n.pool.shuttingDown && n.pool.active.Some? && n.pool.active != Some(left[0])
    ensures MaySettle(n.pool, left[0], Called(true))
    ensures Exercise(n.pool, left[0], true)
            == n.pool.(dequeues := n.pool.dequeues + [left[0]], exercised := n.pool.exercised + {left[0]})
  {
    var p, r := n.pool, left[0];
    QueueFacts(p);
    ActiveIsKnown(p);
    assert r in p.pending;
    assert SchedulerPromises.Live(p, r) && SchedulerPromises.Live(p, p.active.value);
  }

  lemma ResetKeepsSteady(n: Net, left: seq<Id>, q: T.Request)
    requires Steady(n, left) && left != [] && left[0] < |n.timed| && !q.armed
    requires MaySettle(n.pool, left[0], Called(true))
    ensures Steady(Net(Settled(n.pool, left[0], Called(true)), n.timed[left[0] := q]), left[1..])
  {
    var p, r := n.pool, left[0];
    ResetPosts(n, left);
    var p' := Exercise(p, r, true);
    ExerciseKeeps(p, r, true);
    StepKeepsKnown(p, Exercised(r, true));
    LiveShrinks(p, p');
    SchedulerPromises.PendingDistinct(p);
    assert p.pending == p'.dequeues + left[1..];
    assert r !in left[1..] by {
      var d := |p.dequeues|;
      assert p.pending[d] == r && forall i :: 0 <= i < |left| ==> left[i] == p.pending[d + i];
    }
    forall x | 0 <= x < |n.timed| && x != r && !n.timed[x].armed
      ensures Hushed(Net(p', n.timed[r := q]), x)
    {
      HushedStays(n, Exercised(r, true), x);
    }
  }

  /** Every reset has a meaning, and when all are answered every pending request has its task. */
  lemma {:induction false} ResetIsDefined(accepts: Call -> bool, n: Net, left: seq<Id>)
    requires Bound(accepts, n) && Steady(n, left)
    ensures MayReset(accepts, n, left)
    ensures Steady(Reset(accepts, n, left), []) && Reset(accepts, n, left).pool.pending == n.pool.pending
    ensures left != [] ==> Reset(accepts, n, left).pool.shuttingDown
    decreases |left|
  {
    if left != [] {
      var r := left[0];
      ResetPosts(n, left);
      var q := T.Step(accepts, n.timed[r], RESET);
      EndingOfStep(accepts, n.timed[r], RESET);
      ResponseUsesOption(accepts, n.timed[r], Input(NetworkReset, []));
      ResetKeepsSteady(n, left, q);
      var n' := Landed(n, r, q, []);
      T.StepKeepsSound(accepts, n.timed[r], RESET);
      LandedKeepsBound(accepts, n, r, q, []);
      ResetIsDefined(accepts, n', left[1..]);
      assert n'.pool.shuttingDown && n'.pool.pending == n.pool.pending;
    }
  }

  /** The oldest task's request is the first pending one. */
  lemma TaskKeepsSteady(n: Net)
    requires Steady(n, []) && n.pool.dequeues != []
    ensures Enabled(n.pool, DequeueRan) && Steady(Net(Dequeue(n.pool), n.timed), [])
    ensures Dequeue(n.pool).pending == n.pool.pending[1..] && n.pool.pending == n.pool.dequeues
  {
    StepKeepsInvariant(n.pool, DequeueRan);
    StepKeepsKnown(n.pool, DequeueRan);
    StepKeepsSettling(n, DequeueRan);
    LiveShrinks(n.pool, Dequeue(n.pool));
  }

  lemma StopKeepsSteady(n: Net)
    requires Steady(n, []) && Enabled(n.pool, ShutdownCancelled)
    ensures Steady(Net(CancelSocket(n.pool), n.timed), [])
  {
    StepKeepsInvariant(n.pool, ShutdownCancelled);
    StepKeepsKnown(n.pool, ShutdownCancelled);
    StepKeepsSettling(n, ShutdownCancelled);
    LiveShrinks(n.pool, CancelSocket(n.pool));
  }

  // ----- What is defined -----

  /** A completion calls back a request that is over: on_response's assertion fails. */
  predicate CallsOver(accepts: Call -> bool, n: Net, ev: NetEvent)
    requires Occurs(accepts, n, ev)
  {
    && ev.Completed? && Calls(n.pool, ev.done)
    && Owner(n.pool, ev.done) < |n.timed| && !n.timed[Owner(n.pool, ev.done)].armed
  }

  /** An unfinished request times out. */
  predicate EndsByClock(accepts: Call -> bool, n: Net, ev: NetEvent)
    requires Occurs(accepts, n, ev)
  {
    ev.Ticked? && n.timed[ev.r].armed && !T.Step(accepts, n.timed[ev.r], ev.tick).armed
  }

  lemma OwnerIsAtHand(accepts: Call -> bool, n: Net, e: Event)
    requires Orderly(accepts, n) && (e.ReadDone? || e.WriteDone?) && Enabled(n.pool, e) && Calls(n.pool, e)
    ensures var r := Owner(n.pool, e);
            && r < |n.timed| && AtHand(Net(SchedulerSafety.Step(n.pool, e), n.timed), r, ResponseOf(e))
            && (T.Enabled(n.timed[r], ResponseOf(e)) <==> n.timed[r].armed)
            && (!n.timed[r].armed ==> n.pool.shuttingDown && (n.timed[r].succeeded || n.timed[r].timedOut))
            && SchedulerSafety.Step(n.pool, e).active == Some(r)
  {
    var r := Owner(n.pool, e);
    ActiveIsKnown(n.pool);
    CallbackStep(n.pool, e, r);
    assert n.pool.ops[e.i] in n.pool.ops;
    assert !Silent(n.pool, r);
  }

  lemma OrderlyIsDefined(accepts: Call -> bool, n: Net, ev: NetEvent)
    requires Orderly(accepts, n) && Occurs(accepts, n, ev) && Fresh(accepts, n, ev)
    ensures CallsOver(accepts, n, ev) ==>
              && n.pool.shuttingDown
              && (n.timed[Owner(n.pool, ev.done)].succeeded || n.timed[Owner(n.pool, ev.done)].timedOut)
    ensures Defined(accepts, n, ev)
            <==> !CallsOver(accepts, n, ev) && (EndsByClock(accepts, n, ev) ==> n.pool.active == Some(ev.r))
  {
    match ev
    case Completed(e, sends) =>
      if Calls(n.pool, e) {
        OwnerIsAtHand(accepts, n, e);
        CompletionKeepsSteady(n, e);
        if n.timed[Owner(n.pool, e)].armed {
          LandingIsDefined(accepts, Net(SchedulerSafety.Step(n.pool, e), n.timed), Owner(n.pool, e), ResponseOf(e), sends);
        }
      }
    case Ticked(r, e, sends) => LandingIsDefined(accepts, n, r, e, sends);
    case TaskRan => TaskKeepsSteady(n);
    case Halted =>
      BeginKeepsSteady(n);
      StepKeepsBound(accepts, n, ShutdownBegan);
      ResetIsDefined(accepts, Net(BeginShutdown(n.pool), n.timed), n.pool.pending);
    case _ =>
  }

  lemma NextKeepsSteady(accepts: Call -> bool, n: Net, ev: NetEvent)
    requires Orderly(accepts, n) && Occurs(accepts, n, ev) && Fresh(accepts, n, ev) && Defined(accepts, n, ev)
    ensures Steady(Next(accepts, n, ev), [])
  {
    match ev
    case Sent(payload) => SendOneKeepsSteady(n, payload);
    case Completed(e, sends) =>
      CompletionKeepsSteady(n, e);
      if Calls(n.pool, e) {
        OwnerIsAtHand(accepts, n, e);
        LandingKeepsSteady(accepts, Net(SchedulerSafety.Step(n.pool, e), n.timed), Owner(n.pool, e), ResponseOf(e), sends);
      }
    case Ticked(r, e, sends) => LandingKeepsSteady(accepts, n, r, e, sends);
    case TaskRan => TaskKeepsSteady(n);
    case Halted =>
      BeginKeepsSteady(n);
      StepKeepsBound(accepts, n, ShutdownBegan);
      ResetIsDefined(accepts, Net(BeginShutdown(n.pool), n.timed), n.pool.pending);
    case Stopped => StopKeepsSteady(n);
  }

  lemma {:induction false} RunsKeepOrderly(accepts: Call -> bool, n: Net, events: seq<NetEvent>, n': Net)
    requires Orderly(accepts, n) && FreshRuns(accepts, n, events, n')
    ensures Orderly(accepts, n')
    decreases |events|
  {
    if events != [] {
      NextKeepsTied(accepts, n, events[0]);
      NextKeepsSteady(accepts, n, events[0]);
      RunsKeepOrderly(accepts, Next(accepts, n, events[0]), events[1..], n');
    }
  }

  lemma NothingIsOrderly(accepts: Call -> bool)
    ensures Orderly(accepts, NO_REQUESTS)
  {
  }

  /** In every run in which no request is sent while a live one has its payload:
      a request that is over is called back, so that its assertion fails, only
      while shutting down and only where it ended by an accepted reply or a
      timeout; and what occurs next has a meaning, except exactly such a call and
      the timeout of an unfinished request while it is not the active one. */
  lemma CallbacksMeetTheAssertion(accepts: Call -> bool, events: seq<NetEvent>, n: Net, ev: NetEvent)
    requires FreshRuns(accepts, NO_REQUESTS, events, n)
    requires Occurs(accepts, n, ev) && Fresh(accepts, n, ev)
    ensures CallsOver(accepts, n, ev) ==>
              && n.pool.shuttingDown
              && (n.timed[Owner(n.pool, ev.done)].succeeded || n.timed[Owner(n.pool, ev.done)].timedOut)
    ensures Defined(accepts, n, ev)
            <==> !CallsOver(accepts, n, ev) && (EndsByClock(accepts, n, ev) ==> n.pool.active == Some(ev.r))
  {
    NothingIsOrderly(accepts);
    RunsKeepOrderly(accepts, NO_REQUESTS, events, n);
    OrderlyIsDefined(accepts, n, ev);
  }

  /** In every such run dequeue tasks are posted by the pending requests told of
      the shutdown and by nobody else: before it there are none, and from it on
      one for every pending request, in the same order. */
  lemma TasksArePostedByResets(accepts: Call -> bool, events: seq<NetEvent>, n: Net)
    requires FreshRuns(accepts, NO_REQUESTS, events, n)
    ensures n.pool.dequeues == if n.pool.shuttingDown then n.pool.pending else []
    ensures Occurs(accepts, n, Halted) ==>
              && Defined(accepts, n, Halted)
              && Next(accepts, n, Halted).pool.pending == n.pool.pending
              && Next(accepts, n, Halted).pool.dequeues == n.pool.pending
    ensures Occurs(accepts, n, TaskRan) ==> Defined(accepts, n, TaskRan)
  {
    NothingIsOrderly(accepts);
    RunsKeepOrderly(accepts, NO_REQUESTS, events, n);
    assert n.pool.dequeues + [] == n.pool.dequeues;
    if Occurs(accepts, n, Halted) {
      OrderlyIsDefined(accepts, n, Halted);
      BeginKeepsSteady(n);
      StepKeepsBound(accepts, n, ShutdownBegan);
      ResetIsDefined(accepts, Net(BeginShutdown(n.pool), n.timed), n.pool.pending);
      NextKeepsSteady(accepts, n, Halted);
    }
    if Occurs(accepts, n, TaskRan) {
      OrderlyIsDefined(accepts, n, TaskRan);
    }
  }

  // ----- How a shutdown ends -----

  function TaskRuns(k: nat): seq<NetEvent> {
    if k == 0 then [] else [TaskRan] + TaskRuns(k - 1)
  }

  lemma {:induction false} TasksEmptyTheQueue(accepts: Call -> bool, n: Net) returns (n': Net)
    requires Steady(n, []) && n.pool.shuttingDown
    ensures Runs(accepts, n, TaskRuns(|n.pool.pending|), n') && Steady(n', [])
    ensures n' == Net(n.pool.(pending := [], dequeues := [], dequeued := n'.pool.dequeued), n.timed)
    decreases |n.pool.pending|
  {
    if n.pool.pending == [] {
      n' := n;
    } else {
      TaskKeepsSteady(n);
      n' := TasksEmptyTheQueue(accepts, Net(Dequeue(n.pool), n.timed));
      assert TaskRuns(|n.pool.pending|)[1..] == TaskRuns(|n.pool.pending| - 1);
    }
  }

  /** From any state while shutting down, running the posted tasks empties the
      queue and calls nobody. The destructor can then come to an end exactly when
      no request is active or the active one has an operation outstanding: not
      once the active one was told of an error. */
  lemma ShutdownDrains(accepts: Call -> bool, events: seq<NetEvent>, n: Net) returns (n': Net)
    requires FreshRuns(accepts, NO_REQUESTS, events, n) && n.pool.shuttingDown
    ensures Runs(accepts, n, TaskRuns(|n.pool.pending|), n')
    ensures n' == Net(n.pool.(pending := [], dequeues := [], dequeued := n'.pool.dequeued), n.timed)
    ensures (exists more, q :: SchedulerPromises.Finishes(n'.pool, more, q))
            <==> n.pool.active.None? || HasOp(n.pool, n.pool.active.value)
  {
    NothingIsOrderly(accepts);
    RunsKeepOrderly(accepts, NO_REQUESTS, events, n);
    n' := TasksEmptyTheQueue(accepts, n);
    SchedulerPromises.ShutdownCanFinish(n'.pool);
    if n.pool.active.Some? {
      SameOpsHold(n.pool, n'.pool, n.pool.active.value);
    }
  }

  lemma SameOpsHold(p: Pool, p': Pool, r: Id)
    requires p'.ops == p.ops
    ensures HasOp(p', r) <==> HasOp(p, r)
  {
  }

  // ----- Requests sent from inside a call -----

  /** The request that follows in line as the active one ends well: its write is
      cancelled as it starts, and when nothing was pending it is the one the
      handler has just sent. */
  lemma SuccessorStartsCancelled(accepts: Call -> bool, events: seq<NetEvent>, n: Net, e: Event, sends: seq<Bytes>)
    requires FreshRuns(accepts, NO_REQUESTS, events, n) && Occurs(accepts, n, Completed(e, sends))
    requires Defined(accepts, n, Completed(e, sends)) && Calls(n.pool, e) && e.error.NoError? && !n.pool.shuttingDown
    requires !Next(accepts, n, Completed(e, sends)).timed[Owner(n.pool, e)].armed && (n.pool.pending != [] || sends != [])
    ensures var next := if n.pool.pending != [] then n.pool.pending[0] else |n.timed|;
            var p' := Next(accepts, n, Completed(e, sends)).pool;
            && p'.active == Some(next)
            && p'.ops != [] && p'.ops[|p'.ops| - 1] == Op(Write, next, true)
  {
    NothingIsOrderly(accepts);
    RunsKeepOrderly(accepts, NO_REQUESTS, events, n);
    EndedCallHandsOn(accepts, n, e, sends);
  }

  lemma EndedCallHandsOn(accepts: Call -> bool, n: Net, e: Event, sends: seq<Bytes>)
    requires Orderly(accepts, n) && Occurs(accepts, n, Completed(e, sends))
    requires Defined(accepts, n, Completed(e, sends)) && Calls(n.pool, e) && e.error.NoError? && !n.pool.shuttingDown
    requires !Next(accepts, n, Completed(e, sends)).timed[Owner(n.pool, e)].armed && (n.pool.pending != [] || sends != [])
    ensures var next := if n.pool.pending != [] then n.pool.pending[0] else |n.timed|;
            var p' := Next(accepts, n, Completed(e, sends)).pool;
            p'.active == Some(next) && p'.ops != [] && p'.ops[|p'.ops| - 1] == Op(Write, next, true)
  {
    var r, p := Owner(n.pool, e), SchedulerSafety.Step(n.pool, e);
    CallbackStep(n.pool, e, r);
    ActiveIsKnown(p);
    assert n.timed[r].armed && r !in n.pool.exercised;
    assert p.pending == n.pool.pending;
    EndingHandsOn(accepts, Net(p, n.timed), r, ResponseOf(e), sends);
  }

  /** The same where the request lands. */
  lemma EndingHandsOn(accepts: Call -> bool, n: Net, r: Id, e: T.Event, sends: seq<Bytes>)
    requires r < |n.timed| == |n.pool.requests| && n.pool.active == Some(r) && !n.pool.shuttingDown
    requires T.Sound(accepts, n.timed[r]) && T.Enabled(n.timed[r], e) && e.Response? && e.error.NoError?
    requires MayLand(n, r, T.Step(accepts, n.timed[r], e), sends)
    requires !Landed(n, r, T.Step(accepts, n.timed[r], e), sends).timed[r].armed
    requires r !in n.pool.exercised && (n.pool.pending != [] || sends != [])
    ensures var next := if n.pool.pending != [] then n.pool.pending[0] else |n.timed|;
            var p' := Landed(n, r, T.Step(accepts, n.timed[r], e), sends).pool;
            p'.active == Some(next) && p'.ops != [] && p'.ops[|p'.ops| - 1] == Op(Write, next, true)
  {
    var q := T.Step(accepts, n.timed[r], e);
    assert Landed(n, r, q, sends).timed[r].armed == q.armed;
    EndingOfStep(accepts, n.timed[r], e);
    SendAllQueues(n, sends);
    HandOverStartsCancelled(SendAll(n, sends).pool, r);
  }

  lemma HandOverStartsCancelled(p: Pool, r: Id)
    requires p.active == Some(r) && r < |p.requests| && r !in p.exercised && !p.shuttingDown && p.pending != []
    ensures var p' := Exercise(p, r, false);
            && p'.active == Some(p.pending[0])
            && p'.ops != [] && p'.ops[|p'.ops| - 1] == Op(Write, p.pending[0], true)
  {
  }

  /** Behind an active request everything sent is queued. */
  lemma {:induction false} SendAllQueues(n: Net, sends: seq<Bytes>)
    requires n.pool.active.Some? && !n.pool.shuttingDown && |n.timed| == |n.pool.requests|
    ensures var p, p' := n.pool, SendAll(n, sends).pool;
            && p' == p.(requests := p.requests + sends, pending := p'.pending)
            && p'.pending == p.pending + seq(|sends|, i requires 0 <= i < |sends| => |n.timed| + i)
    decreases |sends|
  {
    if sends != [] {
      SendAllQueues(SendOne(n, sends[0]), sends[1..]);
    }
  }

  // ----- Where the assertion fails -----

  lemma {:induction false} FreshRunExtends(accepts: Call -> bool, n: Net, events: seq<NetEvent>, n': Net, ev: NetEvent)
    requires FreshRuns(accepts, n, events, n')
    requires Occurs(accepts, n', ev) && Defined(accepts, n', ev) && Fresh(accepts, n', ev)
    ensures FreshRuns(accepts, n, events + [ev], Next(accepts, n', ev))
    decreases |events|
  {
    if events == [] {
      assert [ev][1..] == [] && [] + [ev] == [ev];
      assert FreshRuns(accepts, Next(accepts, n', ev), [], Next(accepts, n', ev));
    } else {
      FreshRunExtends(accepts, Next(accepts, n, events[0]), events[1..], n', ev);
      assert (events + [ev])[1..] == events[1..] + [ev];
    }
  }

  /** The only request of a scheduler, with what is outstanding. */
  function OnlyRequest(payload: Bytes, op: Op): Net {
    Net(IDLE.(requests := [payload], active := Some(0), activated := [0], ops := [op]), [T.Dispatched(T.CREATED)])
  }

  /** It is sent, written, and read for. */
  lemma OnlyRequestReads(accepts: Call -> bool, payload: Bytes) returns (events: seq<NetEvent>)
    ensures FreshRuns(accepts, NO_REQUESTS, events, OnlyRequest(payload, Op(Read, 0, false)))
  {
    var n1 := OnlyRequest(payload, Op(Write, 0, false));
    assert SendOne(NO_REQUESTS, payload) == n1;
    assert FreshRuns(accepts, NO_REQUESTS, [], NO_REQUESTS);
    FreshRunExtends(accepts, NO_REQUESTS, [], NO_REQUESTS, Sent(payload));
    var e := Completed(WriteDone(0, NoError), []);
    FreshRunExtends(accepts, NO_REQUESTS, [] + [Sent(payload)], n1, e);
    assert Next(accepts, n1, e) == OnlyRequest(payload, Op(Read, 0, false));
    events := [] + [Sent(payload)] + [e];
  }

  /** A run to a state in which a finished request is called back. */
  ghost predicate FailsTheAssertion(accepts: Call -> bool, events: seq<NetEvent>, n: Net, ev: NetEvent) {
    Runs(accepts, NO_REQUESTS, events, n) && Occurs(accepts, n, ev) && CallsOver(accepts, n, ev)
  }

  lemma {:induction false} FreshRunIsRun(accepts: Call -> bool, n: Net, events: seq<NetEvent>, n': Net)
    requires FreshRuns(accepts, n, events, n')
    ensures Runs(accepts, n, events, n')
    decreases |events|
  {
    if events != [] {
      FreshRunIsRun(accepts, Next(accepts, n, events[0]), events[1..], n');
    }
  }

  /** The reply it gets while shutting down ends it well, and leaves it active
      with the next read outstanding. */
  lemma OnlyRequestAnswered(accepts: Call -> bool, n: Net, payload: Bytes, reply: Bytes) returns (q: T.Request)
    requires IsFrame(reply) && forall c :: accepts(c)
    requires n.pool == OnlyRequest(payload, Op(Read, 0, false)).pool.(shuttingDown := true)
    requires n.timed == [T.Dispatched(T.CREATED)]
    ensures var e := Completed(ReadDone(0, NoError, reply), []);
            && Occurs(accepts, n, e) && Defined(accepts, n, e) && Fresh(accepts, n, e)
            && Next(accepts, n, e).timed == [q] && !q.armed
            && Next(accepts, n, e).pool.shuttingDown
            && Next(accepts, n, e).pool.active == Some(0) && Next(accepts, n, e).pool.ops == [Op(Read, 0, true)]
  {
    FrontFrame(reply, []);
    assert reply + [] == reply;
    q := T.Responded(accepts, n.timed[0], Input(NoError, reply));
    assert EndingOf(n.timed[0], q) == Called(false);
    var p := SchedulerSafety.Step(n.pool, ReadDone(0, NoError, reply));
    assert p.ops == [Op(Read, 0, false)] && p.active == Some(0) && p.requests == [payload];
    assert Exercise(p, 0, false).ops == [Op(Read, 0, true)];
    assert n.timed[0 := q] == [q];
  }

  lemma OnlyRequestHalts(accepts: Call -> bool, payload: Bytes)
    ensures var n := OnlyRequest(payload, Op(Read, 0, false));
            && Occurs(accepts, n, Halted) && Defined(accepts, n, Halted)
            && Next(accepts, n, Halted) == Net(n.pool.(shuttingDown := true), n.timed)
  {
    var p := OnlyRequest(payload, Op(Read, 0, false)).pool;
    assert p.callbacks + ResetPending(p.pending) == p.callbacks;
  }

  lemma NextReadCallsOver(accepts: Call -> bool, n: Net, r: Id)
    requires n.pool.active == Some(r) && r < |n.timed| && !n.timed[r].armed
    requires |n.pool.ops| == 1 && n.pool.ops[0].kind.Read? && n.pool.ops[0].recipient == r
    ensures var ev := Completed(ReadDone(0, NoError, []), []);
            Occurs(accepts, n, ev) && CallsOver(accepts, n, ev)
  {
  }

  /** It is while shutting down: the next read of a request that was answered completes. */
  lemma ReplyDuringShutdownFails(accepts: Call -> bool, payload: Bytes, reply: Bytes)
    returns (events: seq<NetEvent>, n: Net, ev: NetEvent)
    requires IsFrame(reply) && forall c :: accepts(c)
    ensures FailsTheAssertion(accepts, events, n, ev) && FreshRuns(accepts, NO_REQUESTS, events, n) && n.pool.shuttingDown
  {
    var reading := OnlyRequest(payload, Op(Read, 0, false));
    var halted := Net(reading.pool.(shuttingDown := true), reading.timed);
    var answered := Completed(ReadDone(0, NoError, reply), []);
    var before := OnlyRequestReads(accepts, payload);
    OnlyRequestHalts(accepts, payload);
    FreshRunExtends(accepts, NO_REQUESTS, before, reading, Halted);
    var q := OnlyRequestAnswered(accepts, halted, payload, reply);
    FreshRunExtends(accepts, NO_REQUESTS, before + [Halted], halted, answered);
    events, n := before + [Halted] + [answered], Next(accepts, halted, answered);
    ev := Completed(ReadDone(0, NoError, []), []);
    FreshRunIsRun(accepts, NO_REQUESTS, events, n);
    NextReadCallsOver(accepts, n, 0);
  }

  /** A request whose write failed is over and still active; its retry is pending. */
  function Retried(payload: Bytes, q: T.Request): Net {
    Net(IDLE.(requests := [payload, payload], pending := [1], active := Some(0), exercised := {0}, activated := [0],
              callbacks := [Callback(0, SocketError(0), [], None)]),
        [q, T.Dispatched(T.CREATED)])
  }

  lemma WriteFailsAndIsRetried(accepts: Call -> bool, payload: Bytes) returns (events: seq<NetEvent>, q: T.Request)
    ensures Runs(accepts, NO_REQUESTS, events, Retried(payload, q))
  {
    var n1 := OnlyRequest(payload, Op(Write, 0, false));
    assert SendOne(NO_REQUESTS, payload) == n1;
    assert Runs(accepts, NO_REQUESTS, [], NO_REQUESTS);
    RunExtends(accepts, NO_REQUESTS, [], NO_REQUESTS, Sent(payload));
    q := T.Responded(accepts, n1.timed[0], Input(SocketError(0), []));
    var failed := Completed(WriteDone(0, SocketError(0)), [payload]);
    FailedWriteRetries(accepts, payload, q);
    RunExtends(accepts, NO_REQUESTS, [] + [Sent(payload)], n1, failed);
    events := [] + [Sent(payload)] + [failed];
  }

  lemma FailedWriteRetries(accepts: Call -> bool, payload: Bytes, q: T.Request)
    requires q == T.Responded(accepts, T.Dispatched(T.CREATED), Input(SocketError(0), []))
    ensures var n, failed := OnlyRequest(payload, Op(Write, 0, false)), Completed(WriteDone(0, SocketError(0)), [payload]);
            && Occurs(accepts, n, failed) && Defined(accepts, n, failed)
            && Next(accepts, n, failed) == Retried(payload, q)
  {
    var n1 := OnlyRequest(payload, Op(Write, 0, false));
    var e := WriteDone(0, SocketError(0));
    var n2 := Net(SchedulerSafety.Step(n1.pool, e), n1.timed);
    assert n2.pool == n1.pool.(ops := [], callbacks := [Callback(0, SocketError(0), [], None)]);
    assert EndingOf(n2.timed[0], q) == Called(true);
    var n3 := Net(Exercise(n2.pool, 0, true), [q]);
    assert n2.timed[0 := q] == [q];
    assert n3.pool == n2.pool.(exercised := {0});
    assert SendOne(n3, payload) == Retried(payload, q);
    assert SendAll(n3, [payload]) == SendAll(SendOne(n3, payload), []) by {
      assert [payload][1..] == [];
    }
  }

  /** The retry times out: its destroyed option activates it. */
  lemma RetryTimesOut(accepts: Call -> bool, payload: Bytes, q: T.Request) returns (events: seq<NetEvent>, n: Net)
    ensures Runs(accepts, Retried(payload, q), events, n)
    ensures |n.timed| == 2 && !n.timed[1].armed
    ensures n.pool.active == Some(1) && n.pool.ops == [Op(Write, 1, true)] && !n.pool.shuttingDown
  {
    var n0 := Retried(payload, q);
    var expire, run := Ticked(1, T.Expire, []), Ticked(1, T.RunCompletion, []);
    assert Runs(accepts, n0, [], n0);
    var q1 := T.Step(accepts, n0.timed[1], T.Expire);
    assert EndingOf(n0.timed[1], q1) == Kept;
    RunExtends(accepts, n0, [], n0, expire);
    var n1 := Next(accepts, n0, expire);
    assert n1 == Net(n0.pool, [q, q1]);
    var q2 := T.Step(accepts, q1, T.RunCompletion);
    assert EndingOf(q1, q2) == Destroyed;
    RunExtends(accepts, n0, [] + [expire], n1, run);
    events, n := [] + [expire] + [run], Next(accepts, n1, run);
    assert n.pool == Exercise(n1.pool, 1, false) && n.timed == [q, q2];
  }

  lemma {:induction false} RunsJoin(accepts: Call -> bool, n: Net, events: seq<NetEvent>, n': Net,
                                    more: seq<NetEvent>, n'': Net)
    requires Runs(accepts, n, events, n') && Runs(accepts, n', more, n'')
    ensures Runs(accepts, n, events + more, n'')
    decreases |events|
  {
    if events == [] {
      assert [] + more == more;
    } else {
      RunsJoin(accepts, Next(accepts, n, events[0]), events[1..], n', more, n'');
      assert (events + more)[1..] == events[1..] + more;
    }
  }

  lemma RetryIsWritten(accepts: Call -> bool, n: Net)
    requires n.pool.active == Some(1) && n.pool.ops == [Op(Write, 1, true)] && !n.pool.shuttingDown
    ensures var written := Completed(WriteDone(0, NoError), []);
            && Occurs(accepts, n, written) && Defined(accepts, n, written)
            && var n' := Next(accepts, n, written);
               n'.timed == n.timed && n'.pool.active == Some(1) && n'.pool.ops == [Op(Read, 1, false)]
               && !n'.pool.shuttingDown
  {
  }

  lemma RetryIsAnswered(accepts: Call -> bool, events: seq<NetEvent>, n: Net)
    returns (all: seq<NetEvent>, n': Net, ev: NetEvent)
    requires Runs(accepts, NO_REQUESTS, events, n) && |n.timed| == 2 && !n.timed[1].armed
    requires n.pool.active == Some(1) && n.pool.ops == [Op(Write, 1, true)] && !n.pool.shuttingDown
    ensures FailsTheAssertion(accepts, all, n', ev) && !n'.pool.shuttingDown
  {
    var written := Completed(WriteDone(0, NoError), []);
    RetryIsWritten(accepts, n);
    RunExtends(accepts, NO_REQUESTS, events, n, written);
    all, n', ev := events + [written], Next(accepts, n, written), Completed(ReadDone(0, NoError, []), []);
    NextReadCallsOver(accepts, n', 1);
  }

  /** And it is where a live payload is sent again: a request whose write failed
      is still active, its handler retries it, and the retry times out while
      pending. Its destroyed option is taken for the active one's and activates
      the retry itself, whose reply then finds it over. */
  lemma RetryFails(accepts: Call -> bool, payload: Bytes) returns (events: seq<NetEvent>, n: Net, ev: NetEvent)
    ensures FailsTheAssertion(accepts, events, n, ev) && !n.pool.shuttingDown
  {
    var failed, q := WriteFailsAndIsRetried(accepts, payload);
    var timedOut, over := RetryTimesOut(accepts, payload, q);
    RunsJoin(accepts, NO_REQUESTS, failed, Retried(payload, q), timedOut, over);
    events, n, ev := RetryIsAnswered(accepts, failed + timedOut, over);
  }
}
