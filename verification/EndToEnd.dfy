/** get_object over real wire requests: every request sent gets a timed request
    of its own, whose buffering handler calls the handler bound to it. Old
    requests keep their timers and may still receive anything their transport
    and the clock produce. */
module EndToEnd {
  import opened Bytes
  import opened Framing
  import opened Options
  import T = TimedRequest
  import G = GetObject

  /** The i-th wire request and what is bound to it. */
  datatype Wire = Wire(pending: G.Pending, request: T.Request)

  /** The exchange as the first call of every handler drives it, the wire
      requests, and the answers given by handlers that were called again. */
  datatype System = System(run: G.Run, wires: seq<Wire>, late: seq<G.Answer>)

  /** accept_get_response and its like always end the request. */
  const ALWAYS: Call -> bool := (c: Call) => true

  /** What happens next, to which wire request; the stale byte is used if its handler is called. */
  datatype Event = Event(wire: nat, event: T.Event, stale: Byte)

  /** encode, make_buffering_handler, dispatch_via. */
  function Launched(pending: G.Pending): Wire {
    Wire(pending, T.Dispatched(T.CREATED))
  }

  function Begin(bucket: G.Key, key: G.Key): System {
    var run := G.Start(bucket, key);
    System(run, [Launched(run.inFlight[0])], [])
  }

  /** Sends what the handler sent. */
  function WithNewWire(wires: seq<Wire>, action: G.Action): seq<Wire> {
    if action.Send? then wires + [Launched(action.pending)] else wires
  }

  /** An exception out of a handler ends the run. */
  predicate Enabled(s: System, e: Event) {
    && !s.run.threw
    && e.wire < |s.wires| && T.Enabled(s.wires[e.wire].request, e.event)
  }

  /** A wire request has become what it is now; if it called its handler on the
      way, the handler runs. Only the first call lands the request. */
  function Updated(c: G.Config, s: System, wire: nat, request: T.Request, stale: Byte): System
    requires wire < |s.wires|
  {
    var w := s.wires[wire];
    var wires := s.wires[wire := Wire(w.pending, request)];
    if |request.stream.calls| > |w.request.stream.calls| then
      var call := request.stream.calls[|request.stream.calls| - 1];
      var heard := G.Heard(call.error, call.data, stale);
      var action := G.Handle(c, w.pending.handler, heard);
      if w.request.armed then
        System(G.Invoke(c, s.run, w.pending, heard), WithNewWire(wires, action), s.late)
      else
        System(s.run.(threw := s.run.threw || action.Throw?), WithNewWire(wires, action),
               s.late + if action.Respond? then [action.answer] else [])
    else System(s.run, wires, s.late)
  }

  function Step(c: G.Config, s: System, e: Event): System
    requires Enabled(s, e)
  {
    Updated(c, s, e.wire, T.Step(ALWAYS, s.wires[e.wire].request, e.event), e.stale)
  }

  ghost predicate Reaches(c: G.Config, s: System, events: seq<Event>, s': System)
    decreases |events|
  {
    if events == [] then s' == s
    else Enabled(s, events[0]) && Reaches(c, Step(c, s, events[0]), events[1..], s')
  }

  lemma {:induction false} RunExtends(c: G.Config, s: System, events: seq<Event>, s': System, e: Event)
    requires Reaches(c, s, events, s') && Enabled(s', e)
    ensures Reaches(c, s, events + [e], Step(c, s', e))
    decreases |events|
  {
    if events == [] {
      assert [e][1..] == [] && [] + [e] == [e];
      assert Reaches(c, Step(c, s', e), [], Step(c, s', e));
    } else {
      RunExtends(c, Step(c, s, events[0]), events[1..], s', e);
      assert (events + [e])[1..] == events[1..] + [e];
    }
  }

  /** What the handler does when the event calls it. */
  function Reaction(c: G.Config, s: System, e: Event): Option<G.Action>
    requires Enabled(s, e)
  {
    var w := s.wires[e.wire];
    var calls := T.Step(ALWAYS, w.request, e.event).stream.calls;
    if |calls| > |w.request.stream.calls| then
      var call := calls[|calls| - 1];
      Some(G.Handle(c, w.pending.handler, G.Heard(call.error, call.data, e.stale)))
    else None
  }

  /** An event changes its own wire request, adds the one its handler sends, and
      ends the run when the handler throws. */
  lemma StepChangesWires(c: G.Config, s: System, e: Event)
    requires Enabled(s, e)
    ensures var s', reaction := Step(c, s, e), Reaction(c, s, e);
            var w := s.wires[e.wire];
            var wires := s.wires[e.wire := Wire(w.pending, T.Step(ALWAYS, w.request, e.event))];
            && s'.wires == (if reaction.Some? && reaction.value.Send? then wires + [Launched(reaction.value.pending)]
                            else wires)
            && (s'.run.threw <==> reaction.Some? && reaction.value.Throw?)
  {
  }

  /** Its own request has no expired wait queued as a response is handled. */
  predicate IsPrompt(s: System, e: Event)
    requires e.wire < |s.wires|
  {
    e.event.Response? ==> !s.wires[e.wire].request.timer.HasExpired()
  }

  ghost predicate ReachesPromptly(c: G.Config, s: System, events: seq<Event>, s': System)
    decreases |events|
  {
    if events == [] then s' == s
    else
      && Enabled(s, events[0]) && IsPrompt(s, events[0])
      && ReachesPromptly(c, Step(c, s, events[0]), events[1..], s')
  }

  /** The number of wire requests that timed out after their answer. */
  function AnsweredTwice(wires: seq<Wire>): nat {
    if wires == [] then 0
    else AnsweredTwice(wires[..|wires| - 1]) + if T.AnsweredTwice(wires[|wires| - 1].request) then 1 else 0
  }

  lemma {:induction false} AnsweredTwiceUpdate(wires: seq<Wire>, i: nat, w: Wire)
    requires i < |wires|
    ensures AnsweredTwice(wires[i := w])
            == AnsweredTwice(wires) - (if T.AnsweredTwice(wires[i].request) then 1 else 0)
               + if T.AnsweredTwice(w.request) then 1 else 0
  {
    var n := |wires| - 1;
    if i < n {
      AnsweredTwiceUpdate(wires[..n], i, w);
      assert wires[i := w][..n] == wires[..n][i := w];
    } else {
      assert wires[i := w][..n] == wires[..n];
    }
  }

  lemma AnsweredTwiceAppend(wires: seq<Wire>, w: Wire)
    ensures AnsweredTwice(wires + [w]) == AnsweredTwice(wires) + if T.AnsweredTwice(w.request) then 1 else 0
  {
    assert (wires + [w])[..|wires|] == wires;
  }

  /** The round is the handler's first call. */
  ghost predicate FirstCall(w: Wire, round: G.Round) {
    && !w.request.armed && w.request.stream.calls != []
    && round.request == w.pending.request
    && round.heard.error == w.request.stream.calls[0].error
    && round.heard.data == w.request.stream.calls[0].data
  }

  /** All requests but the one in flight are over; that one has not called its handler yet. */
  ghost predicate Linked(s: System) {
    && |s.wires| == |s.run.rounds| + |s.run.inFlight|
    && (forall i :: 0 <= i < |s.wires| ==> T.Sound(ALWAYS, s.wires[i].request))
    && (forall i :: 0 <= i < |s.run.rounds| ==> FirstCall(s.wires[i], s.run.rounds[i]))
    && (s.run.inFlight != [] ==>
          |s.run.inFlight| == 1 && s.wires[|s.run.rounds|].pending == s.run.inFlight[0]
          && s.wires[|s.run.rounds|].request.armed)
  }

  /** The wire requests are those of the rounds, in order, and the one in flight. */
  lemma RequestsInOrder(s: System)
    requires Linked(s)
    ensures forall i :: 0 <= i < |s.wires| ==> s.wires[i].pending.request == G.RequestAt(s.run, i)
  {
    forall i | 0 <= i < |s.run.rounds|
      ensures s.wires[i].pending.request == s.run.rounds[i].request
    {
      assert FirstCall(s.wires[i], s.run.rounds[i]);
    }
  }

  /** Every answer beyond the one the exchange comes to is a late timeout's. */
  ghost predicate LateAnswers(s: System) {
    && |s.late| == AnsweredTwice(s.wires)
    && forall a :: a in s.late ==> a.error.ResponseTimeout? && a.value.None?
  }

  ghost predicate Invariant(c: G.Config, bucket: G.Key, key: G.Key, s: System) {
    Linked(s) && LateAnswers(s) && G.Invariant(c, bucket, key, s.run)
  }

  lemma LaunchedIsSound(pending: G.Pending)
    ensures T.Sound(ALWAYS, Launched(pending).request) && Launched(pending).request.armed
    ensures T.Consistent(ALWAYS, Launched(pending).request)
  {
    T.DispatchedIsSound(ALWAYS);
  }

  /** Any handler answers an error with an error. */
  lemma ErrorIsAnswered(c: G.Config, handler: G.Handler, heard: G.Heard)
    requires !heard.error.NoError?
    ensures G.Handle(c, handler, heard).Respond?
    ensures G.Handle(c, handler, heard).answer.error == heard.error && G.Handle(c, handler, heard).answer.value.None?
  {
  }

  /** What an event does to a request that is over: nothing the handler sees, or a timeout after its answer. */
  lemma OverMayTimeOut(q: T.Request, e: T.Event)
    requires T.Sound(ALWAYS, q) && !q.armed && T.Enabled(q, e)
    ensures var q' := T.Step(ALWAYS, q, e);
            && T.Sound(ALWAYS, q') && !q'.armed && q.stream.calls <= q'.stream.calls
            && (q'.stream.calls == q.stream.calls ==> T.AnsweredTwice(q') == T.AnsweredTwice(q))
            && (q'.stream.calls != q.stream.calls ==>
                  q'.stream.calls == q.stream.calls + [Call(ResponseTimeout, 0, [])]
                  && !T.AnsweredTwice(q) && T.AnsweredTwice(q'))
  {
    T.StepKeepsSound(ALWAYS, q, e);
  }

  /** A request in flight either stays armed and silent, or makes its first call and is over. */
  lemma InFlightCallsOnce(q: T.Request, e: T.Event)
    requires T.Sound(ALWAYS, q) && q.armed && T.Enabled(q, e)
    ensures q.stream.calls == [] && !T.AnsweredTwice(q)
    ensures var q' := T.Step(ALWAYS, q, e);
            && T.Sound(ALWAYS, q') && !T.AnsweredTwice(q')
            && |q'.stream.calls| == if q'.armed then 0 else 1
  {
    T.StepKeepsSound(ALWAYS, q, e);
    T.SoundCalls(ALWAYS, q);
    T.SoundCalls(ALWAYS, T.Step(ALWAYS, q, e));
    OptionUsedInStep(q, e);
  }

  /** The step that ends an armed request uses its option. */
  lemma OptionUsedInStep(q: T.Request, e: T.Event)
    requires T.Sound(ALWAYS, q) && q.armed && T.Enabled(q, e)
    ensures !T.AnsweredTwice(T.Step(ALWAYS, q, e))
  {
  }

  /** A request that is over and calls nothing. */
  lemma SilentOverKeepsLinked(c: G.Config, s: System, i: nat, request: T.Request, stale: Byte)
    requires Linked(s) && LateAnswers(s) && i < |s.run.rounds|
    requires T.Sound(ALWAYS, request) && !request.armed && request.stream.calls == s.wires[i].request.stream.calls
    requires T.AnsweredTwice(request) == T.AnsweredTwice(s.wires[i].request)
    ensures Linked(Updated(c, s, i, request, stale)) && LateAnswers(Updated(c, s, i, request, stale))
    ensures Updated(c, s, i, request, stale).run == s.run
  {
    AnsweredTwiceUpdate(s.wires, i, Wire(s.wires[i].pending, request));
    var s' := Updated(c, s, i, request, stale);
    assert s' == s.(wires := s.wires[i := Wire(s.wires[i].pending, request)]);
    assert FirstCall(s.wires[i], s.run.rounds[i]);
    ReplacedKeepsLinked(s, s', i, request);
  }

  /** A finished wire request turns into another that made the same first call. */
  lemma ReplacedKeepsLinked(s: System, s': System, i: nat, request: T.Request)
    requires Linked(s) && i < |s.run.rounds| && T.Sound(ALWAYS, request)
    requires s'.run == s.run && s'.wires == s.wires[i := Wire(s.wires[i].pending, request)]
    requires FirstCall(s'.wires[i], s.run.rounds[i])
    ensures Linked(s')
  {
    forall j | 0 <= j < |s.run.rounds|
      ensures FirstCall(s'.wires[j], s.run.rounds[j])
    {
      assert j != i ==> FirstCall(s.wires[j], s.run.rounds[j]);
    }
  }

  /** A request that times out after its answer: the application is answered again. */
  lemma LateTimeoutUpdates(c: G.Config, s: System, i: nat, request: T.Request, stale: Byte)
    requires Linked(s) && i < |s.run.rounds|
    requires request.stream.calls == s.wires[i].request.stream.calls + [Call(ResponseTimeout, 0, [])]
    ensures var s' := Updated(c, s, i, request, stale);
            && s'.run == s.run && s'.wires == s.wires[i := Wire(s.wires[i].pending, request)]
            && |s'.late| == |s.late| + 1 && s'.late[..|s.late|] == s.late
            && s'.late[|s.late|].error.ResponseTimeout? && s'.late[|s.late|].value.None?
  {
    assert FirstCall(s.wires[i], s.run.rounds[i]);
    ErrorIsAnswered(c, s.wires[i].pending.handler, G.Heard(ResponseTimeout, [], stale));
  }

  lemma LateTimeoutKeepsLinked(c: G.Config, s: System, i: nat, request: T.Request, stale: Byte)
    requires Linked(s) && LateAnswers(s) && i < |s.run.rounds|
    requires T.Sound(ALWAYS, request) && !request.armed && T.AnsweredTwice(request)
    requires !T.AnsweredTwice(s.wires[i].request)
    requires request.stream.calls == s.wires[i].request.stream.calls + [Call(ResponseTimeout, 0, [])]
    ensures Linked(Updated(c, s, i, request, stale)) && LateAnswers(Updated(c, s, i, request, stale))
    ensures Updated(c, s, i, request, stale).run == s.run
  {
    LateTimeoutUpdates(c, s, i, request, stale);
    AnsweredTwiceUpdate(s.wires, i, Wire(s.wires[i].pending, request));
    var s' := Updated(c, s, i, request, stale);
    assert s'.late == s.late + [s'.late[|s.late|]];
    assert FirstCall(s.wires[i], s.run.rounds[i]);
    ReplacedKeepsLinked(s, s', i, request);
  }

  /** An event for a request that is over leaves the exchange as it was, but for a late answer. */
  lemma OverKeepsInvariant(c: G.Config, bucket: G.Key, key: G.Key, s: System, e: Event)
    requires Invariant(c, bucket, key, s) && Enabled(s, e) && e.wire < |s.run.rounds|
    ensures Invariant(c, bucket, key, Step(c, s, e)) && Step(c, s, e).run == s.run
  {
    var w := s.wires[e.wire];
    assert FirstCall(w, s.run.rounds[e.wire]);
    OverMayTimeOut(w.request, e.event);
    var request := T.Step(ALWAYS, w.request, e.event);
    if request.stream.calls == w.request.stream.calls {
      SilentOverKeepsLinked(c, s, e.wire, request, e.stale);
    } else {
      LateTimeoutKeepsLinked(c, s, e.wire, request, e.stale);
    }
  }

  /** What the call of the request in flight changes. */
  lemma CallUpdates(c: G.Config, s: System, request: T.Request, stale: Byte)
    requires Linked(s) && s.run.inFlight != []
    requires |request.stream.calls| == 1 && s.wires[|s.run.rounds|].request.stream.calls == []
    ensures var n, s' := |s.run.rounds|, Updated(c, s, |s.run.rounds|, request, stale);
            var w := s.wires[n];
            var heard := G.Heard(request.stream.calls[0].error, request.stream.calls[0].data, stale);
            var action := G.Handle(c, w.pending.handler, heard);
            && s'.run.rounds == s.run.rounds + [G.Round(w.pending.request, heard)]
            && s'.run.inFlight == (if action.Send? then [action.pending] else [])
            && s'.wires == WithNewWire(s.wires[n := Wire(w.pending, request)], action)
            && s'.late == s.late
  {
    assert s.run.inFlight == [s.wires[|s.run.rounds|].pending];
  }

  /** The call of the request in flight finishes its round and launches what the handler sends. */
  lemma CallKeepsLinked(c: G.Config, s: System, request: T.Request, stale: Byte)
    requires Linked(s) && s.run.inFlight != []
    requires T.Sound(ALWAYS, request) && !request.armed && |request.stream.calls| == 1
    requires s.wires[|s.run.rounds|].request.stream.calls == []
    ensures Linked(Updated(c, s, |s.run.rounds|, request, stale))
  {
    CallUpdates(c, s, request, stale);
    var n, s' := |s.run.rounds|, Updated(c, s, |s.run.rounds|, request, stale);
    var w := s.wires[n];
    assert FirstCall(Wire(w.pending, request), s'.run.rounds[n]);
    LandedKeepsLinked(s, s', request);
  }

  /** The wire request in flight has become the last round's, and perhaps there is a new one. */
  lemma LandedKeepsLinked(s: System, s': System, request: T.Request)
    requires Linked(s) && s.run.inFlight != [] && T.Sound(ALWAYS, request)
    requires var n, w := |s.run.rounds|, s.wires[|s.run.rounds|];
             && |s'.run.rounds| == n + 1 && s'.run.rounds[..n] == s.run.rounds && |s'.run.inFlight| <= 1
             && s'.wires == s.wires[n := Wire(w.pending, request)]
                            + (if s'.run.inFlight != [] then [Launched(s'.run.inFlight[0])] else [])
             && FirstCall(Wire(w.pending, request), s'.run.rounds[n])
    ensures Linked(s')
  {
    var n := |s.run.rounds|;
    if s'.run.inFlight != [] {
      LaunchedIsSound(s'.run.inFlight[0]);
    }
    forall i | 0 <= i < n
      ensures FirstCall(s'.wires[i], s'.run.rounds[i])
    {
      assert s'.run.rounds[i] == s'.run.rounds[..n][i];
      assert FirstCall(s.wires[i], s.run.rounds[i]);
    }
  }

  lemma CallKeepsLateAnswers(c: G.Config, s: System, request: T.Request, stale: Byte)
    requires Linked(s) && LateAnswers(s) && s.run.inFlight != []
    requires |request.stream.calls| == 1 && !T.AnsweredTwice(request)
    requires s.wires[|s.run.rounds|].request.stream.calls == [] && !T.AnsweredTwice(s.wires[|s.run.rounds|].request)
    ensures LateAnswers(Updated(c, s, |s.run.rounds|, request, stale))
  {
    CallUpdates(c, s, request, stale);
    var n, s' := |s.run.rounds|, Updated(c, s, |s.run.rounds|, request, stale);
    var wires := s.wires[n := Wire(s.wires[n].pending, request)];
    AnsweredTwiceUpdate(s.wires, n, Wire(s.wires[n].pending, request));
    if s'.wires != wires {
      AnsweredTwiceAppend(wires, Launched(s'.run.inFlight[0]));
    }
  }

  /** While it stays armed nothing else changes. */
  lemma QuietKeepsLinked(c: G.Config, s: System, request: T.Request, stale: Byte)
    requires Linked(s) && LateAnswers(s) && s.run.inFlight != []
    requires T.Sound(ALWAYS, request) && request.armed && request.stream.calls == [] && !T.AnsweredTwice(request)
    requires !T.AnsweredTwice(s.wires[|s.run.rounds|].request)
    ensures Linked(Updated(c, s, |s.run.rounds|, request, stale))
    ensures LateAnswers(Updated(c, s, |s.run.rounds|, request, stale))
  {
    var n := |s.run.rounds|;
    AnsweredTwiceUpdate(s.wires, n, Wire(s.wires[n].pending, request));
  }

  lemma InFlightKeepsInvariant(c: G.Config, bucket: G.Key, key: G.Key, s: System, e: Event)
    requires Invariant(c, bucket, key, s) && Enabled(s, e) && e.wire == |s.run.rounds|
    ensures Invariant(c, bucket, key, Step(c, s, e))
  {
    var w := s.wires[e.wire];
    var request := T.Step(ALWAYS, w.request, e.event);
    InFlightCallsOnce(w.request, e.event);
    if request.armed {
      QuietKeepsLinked(c, s, request, e.stale);
    } else {
      CallKeepsLinked(c, s, request, e.stale);
      CallKeepsLateAnswers(c, s, request, e.stale);
      var call := request.stream.calls[0];
      G.InvokeKeepsInvariant(c, bucket, key, s.run, w.pending, G.Heard(call.error, call.data, e.stale));
    }
  }

  lemma StepKeepsInvariant(c: G.Config, bucket: G.Key, key: G.Key, s: System, e: Event)
    requires Invariant(c, bucket, key, s) && Enabled(s, e)
    ensures Invariant(c, bucket, key, Step(c, s, e))
  {
    if e.wire < |s.run.rounds| {
      OverKeepsInvariant(c, bucket, key, s, e);
    } else {
      InFlightKeepsInvariant(c, bucket, key, s, e);
    }
  }

  lemma {:induction false} RunsKeepInvariant(c: G.Config, bucket: G.Key, key: G.Key,
                                            s: System, events: seq<Event>, s': System)
    requires Invariant(c, bucket, key, s) && Reaches(c, s, events, s')
    ensures Invariant(c, bucket, key, s')
    decreases |events|
  {
    if events != [] {
      StepKeepsInvariant(c, bucket, key, s, events[0]);
      RunsKeepInvariant(c, bucket, key, Step(c, s, events[0]), events[1..], s');
    }
  }

  lemma BeginIsInvariant(c: G.Config, bucket: G.Key, key: G.Key)
    ensures Invariant(c, bucket, key, Begin(bucket, key))
  {
    LaunchedIsSound(G.Start(bucket, key).inFlight[0]);
    AnsweredTwiceAppend([], Launched(G.Start(bucket, key).inFlight[0]));
  }

  /** For any chunking of the replies, any socket errors, any timeouts and any
      races between them, over any number of resolution rounds: requests in
      flight, answers and the exception add up to one, but for one more answer,
      a timeout, for every request whose expired wait ran after its answer; short
      of the exception a wire request is armed exactly while it is the one in
      flight; and what each finished one first called its handler with is, without error, exactly the
      first complete frame of its reply bytes. */
  lemma GetObjectEndToEnd(c: G.Config, bucket: G.Key, key: G.Key, events: seq<Event>, s: System)
    requires Reaches(c, Begin(bucket, key), events, s)
    ensures |s.run.inFlight| + |s.run.answers| + (if s.run.threw then 1 else 0) == 1
    ensures |s.late| == AnsweredTwice(s.wires) && forall a :: a in s.late ==> a.error.ResponseTimeout? && a.value.None?
    ensures |s.wires| == |s.run.rounds| + |s.run.inFlight|
    ensures !s.run.threw ==> forall i :: 0 <= i < |s.wires| ==> (s.wires[i].request.armed <==> i == |s.run.rounds|)
    ensures forall i :: 0 <= i < |s.run.rounds| ==> FirstCall(s.wires[i], s.run.rounds[i])
    ensures forall i :: 0 <= i < |s.run.rounds| ==> s.run.rounds[i].heard.error == T.EndingError(s.wires[i].request)
    ensures forall i :: 0 <= i < |s.run.rounds| && s.run.rounds[i].heard.error.NoError? ==>
                          var frames := Frames(T.ReplyBytes(s.wires[i].request));
                          frames != [] && s.run.rounds[i].heard.data == frames[0]
    ensures G.Alternates(c, bucket, key, s.run)
    ensures s.run.answers != [] ==>
              s.run.rounds != []
              && G.AnswerFits(c, bucket, key, s.run.rounds[|s.run.rounds| - 1], s.run.answers[0])
  {
    BeginIsInvariant(c, bucket, key);
    RunsKeepInvariant(c, bucket, key, Begin(bucket, key), events, s);
    forall i | 0 <= i < |s.run.rounds|
      ensures FirstCall(s.wires[i], s.run.rounds[i])
      ensures s.run.rounds[i].heard.error == T.EndingError(s.wires[i].request)
      ensures s.run.rounds[i].heard.error.NoError? ==>
                var frames := Frames(T.ReplyBytes(s.wires[i].request));
                frames != [] && s.run.rounds[i].heard.data == frames[0]
    {
      T.SoundCalls(ALWAYS, s.wires[i].request);
    }
  }

  // ----- Prompt runs -----

  ghost predicate AllConsistent(s: System) {
    forall i :: 0 <= i < |s.wires| ==> T.Consistent(ALWAYS, s.wires[i].request)
  }

  lemma NewWireKeepsConsistent(wires: seq<Wire>, action: G.Action)
    requires forall i :: 0 <= i < |wires| ==> T.Consistent(ALWAYS, wires[i].request)
    ensures forall i :: 0 <= i < |WithNewWire(wires, action)| ==>
                          T.Consistent(ALWAYS, WithNewWire(wires, action)[i].request)
  {
    if action.Send? {
      LaunchedIsSound(action.pending);
    }
  }

  lemma UpdatedKeepsConsistent(c: G.Config, s: System, wire: nat, request: T.Request, stale: Byte)
    requires AllConsistent(s) && wire < |s.wires| && T.Consistent(ALWAYS, request)
    ensures AllConsistent(Updated(c, s, wire, request, stale))
  {
    var w := s.wires[wire];
    var wires := s.wires[wire := Wire(w.pending, request)];
    if |request.stream.calls| > |w.request.stream.calls| {
      var call := request.stream.calls[|request.stream.calls| - 1];
      NewWireKeepsConsistent(wires, G.Handle(c, w.pending.handler, G.Heard(call.error, call.data, stale)));
    }
  }

  lemma StepKeepsConsistent(c: G.Config, s: System, e: Event)
    requires AllConsistent(s) && Enabled(s, e) && IsPrompt(s, e)
    ensures AllConsistent(Step(c, s, e))
  {
    var w := s.wires[e.wire];
    var request := T.Step(ALWAYS, w.request, e.event);
    T.StepKeepsConsistent(ALWAYS, w.request, e.event);
    UpdatedKeepsConsistent(c, s, e.wire, request, e.stale);
  }

  lemma {:induction false} PromptRunIsRun(c: G.Config, s: System, events: seq<Event>, s': System)
    requires ReachesPromptly(c, s, events, s') && AllConsistent(s)
    ensures Reaches(c, s, events, s') && AllConsistent(s')
    decreases |events|
  {
    if events != [] {
      StepKeepsConsistent(c, s, events[0]);
      PromptRunIsRun(c, Step(c, s, events[0]), events[1..], s');
    }
  }

  lemma {:induction false} NobodyAnsweredTwice(wires: seq<Wire>)
    requires forall i :: 0 <= i < |wires| ==> T.Consistent(ALWAYS, wires[i].request)
    ensures AnsweredTwice(wires) == 0
  {
    if wires != [] {
      NobodyAnsweredTwice(wires[..|wires| - 1]);
    }
  }

  /** In a prompt run there are no late answers: the application is answered at most once in all. */
  lemma PromptGetObjectAnswersOnce(c: G.Config, bucket: G.Key, key: G.Key, events: seq<Event>, s: System)
    requires ReachesPromptly(c, Begin(bucket, key), events, s)
    ensures s.late == []
    ensures |s.run.inFlight| + |s.run.answers + s.late| + (if s.run.threw then 1 else 0) == 1
  {
    LaunchedIsSound(G.Start(bucket, key).inFlight[0]);
    PromptRunIsRun(c, Begin(bucket, key), events, s);
    GetObjectEndToEnd(c, bucket, key, events, s);
    NobodyAnsweredTwice(s.wires);
  }
}
