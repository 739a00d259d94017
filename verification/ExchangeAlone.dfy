/** get_object with the transport to itself: its own traffic is of the kind whose
    runs TransportSafety is about, collisions and all. */
module ExchangeAlone {
  import opened Bytes
  import opened Options
  import opened SharedSocket
  import S = SchedulerSafety
  import SchedulerPromises
  import P = SocketScheduler
  import C = TransportContract
  import R = TransportRuns
  import Y = TransportSafety
  import T = TimedRequest
  import G = GetObject
  import E = EndToEnd

  /** Nobody sends but the handlers of the exchange. */
  predicate NobodyElseSends(c: Client, s: Shared, ev: Event)
    requires R.Occurs(E.ALWAYS, s.net, ev.on)
  {
    SendsOf(ev.on) != [] ==> IsOwn(s, ev) && Reaction(c, s, ev).Some? && Reaction(c, s, ev).value.Send?
  }

  ghost predicate RunsAlone(c: Client, s: Shared, events: seq<Event>, s': Shared)
    decreases |events|
  {
    if events == [] then s' == s
    else
      && Happens(c, s, events[0]) && NobodyElseSends(c, s, events[0]) && !Throws(c, s, events[0])
      && RunsAlone(c, Next(c, s, events[0]), events[1..], s')
  }

  /** What happened on the transport. */
  function OnTransport(events: seq<Event>): seq<R.NetEvent> {
    if events == [] then [] else [events[0].on] + OnTransport(events[1..])
  }

  /** The transport serves the exchange and nobody else. */
  ghost predicate Alone(c: Client, bucket: G.Key, key: G.Key, s: Shared) {
    && Follows(c, bucket, key, s) && Carried(c, s) && !s.exchange.run.threw
    && Y.Orderly(E.ALWAYS, s.net)
    && |s.net.timed| == |s.ids| && forall i :: 0 <= i < |s.ids| ==> s.ids[i] == i
  }

  /** A handler that sends has just heard the reply to the request in flight. */
  lemma SendingEndsTheReply(c: G.Config, x: E.System, e: E.Event)
    requires E.Linked(x) && E.Enabled(x, e) && E.Reaction(c, x, e).Some? && E.Reaction(c, x, e).value.Send?
    ensures e.wire == |x.run.rounds| && x.run.inFlight != [] && x.wires[e.wire].pending == x.run.inFlight[0]
    ensures e.event.Response? && e.event.error.NoError?
    ensures x.wires[e.wire].request.armed && !T.Step(E.ALWAYS, x.wires[e.wire].request, e.event).armed
    ensures exists heard :: E.Reaction(c, x, e).value == G.Handle(c, x.wires[e.wire].pending.handler, heard)
  {
    var w := x.wires[e.wire];
    var calls := T.Step(E.ALWAYS, w.request, e.event).stream.calls;
    var call := calls[|calls| - 1];
    var heard := G.Heard(call.error, call.data, e.stale);
    if !call.error.NoError? {
      E.ErrorIsAnswered(c, w.pending.handler, heard);
    }
    if e.wire < |x.run.rounds| {
      assert E.FirstCall(w, x.run.rounds[e.wire]);
      E.OverMayTimeOut(w.request, e.event);
    } else {
      E.InFlightCallsOnce(w.request, e.event);
    }
    assert E.Reaction(c, x, e).value == G.Handle(c, w.pending.handler, heard);
  }

  /** The next request of an exchange is of the other kind. */
  lemma NextIsOfTheOtherKind(c: Client, bucket: G.Key, key: G.Key, x: E.System, heard: G.Heard)
    requires E.Invariant(c.config, bucket, key, x) && x.run.inFlight != []
    requires G.Handle(c.config, x.run.inFlight[0].handler, heard).Send?
    ensures c.Encode(G.Handle(c.config, x.run.inFlight[0].handler, heard).pending.request)
            != c.Encode(x.run.inFlight[0].request)
  {
    assert G.RequestAt(x.run, |x.run.rounds|) == x.run.inFlight[0].request;
    G.HandledWell(c.config, bucket, key, x.run.inFlight[0], heard);
    CodeTellsRequest(c, x.run.inFlight[0].request, 0);
    CodeTellsRequest(c, G.Handle(c.config, x.run.inFlight[0].handler, heard).pending.request, 0);
  }

  /** As the exchange's request is called back, it is the only live one. */
  lemma OnlyParentIsLive(c: Client, bucket: G.Key, key: G.Key, s: Shared, e: S.Event, x: P.Id)
    requires Alone(c, bucket, key, s) && (e.ReadDone? || e.WriteDone?) && S.Enabled(s.net.pool, e)
    requires R.Calls(s.net.pool, e) && SchedulerPromises.Live(S.Step(s.net.pool, e), x)
    requires R.Owner(s.net.pool, e) == |s.exchange.run.rounds|
    ensures x == R.Owner(s.net.pool, e)
  {
    C.CallbackStep(s.net.pool, e, R.Owner(s.net.pool, e));
    if x !in s.net.pool.exercised {
      assert s.net.timed[x].armed && s.net.timed[s.ids[x]] == s.exchange.wires[x].request;
    }
  }

  /** What the handler sends as it is called by the reply is unlike what is live then. */
  lemma OwnSendIsUnlike(c: Client, bucket: G.Key, key: G.Key, s: Shared, ev: Event)
    requires Alone(c, bucket, key, s)
    requires Happens(c, s, ev) && NobodyElseSends(c, s, ev) && SendsOf(ev.on) != []
    ensures ev.on.Completed? && R.Calls(s.net.pool, ev.on.done) && |ev.on.sends| == 1
    ensures Y.Unlike(S.Step(s.net.pool, ev.on.done), ev.on.sends[0])
    ensures var e, r := ev.on.done, R.Owner(s.net.pool, ev.on.done);
            && r < |s.net.timed| && T.Enabled(s.net.timed[r], R.ResponseOf(e)) && e.error.NoError?
            && s.net.timed[r].armed && !T.Step(E.ALWAYS, s.net.timed[r], R.ResponseOf(e)).armed
  {
    var taken := TakenBy(s.net, ev.on).value;
    var own := Own(s, taken, ev.stale);
    SendingEndsTheReply(c.config, s.exchange, own);
    var heard :| Reaction(c, s, ev).value == G.Handle(c.config, s.exchange.wires[own.wire].pending.handler, heard);
    NextIsOfTheOtherKind(c, bucket, key, s.exchange, heard);
    var p := S.Step(s.net.pool, ev.on.done);
    assert taken.r == own.wire && p.requests == s.net.pool.requests;
    forall x: P.Id | SchedulerPromises.Live(p, x)
      ensures p.requests[x] != ev.on.sends[0]
    {
      OnlyParentIsLive(c, bucket, key, s, ev.on.done, x);
    }
  }

  lemma AloneIsFresh(c: Client, bucket: G.Key, key: G.Key, s: Shared, ev: Event)
    requires Alone(c, bucket, key, s)
    requires Happens(c, s, ev) && NobodyElseSends(c, s, ev) && !Throws(c, s, ev)
    ensures Y.Fresh(E.ALWAYS, s.net, ev.on)
  {
    if SendsOf(ev.on) != [] {
      OwnSendIsUnlike(c, bucket, key, s, ev);
      UnlikeIsFresh(s.net, ev.on.done, ev.on.sends);
    } else {
      NoSendsAreFresh(s.net, ev.on);
    }
  }

  lemma UnlikeIsFresh(n: R.Net, e: S.Event, sends: seq<Bytes>)
    requires R.Occurs(E.ALWAYS, n, R.Completed(e, sends)) && R.Calls(n.pool, e) && |sends| == 1
    requires Y.Unlike(S.Step(n.pool, e), sends[0])
    requires var r := R.Owner(n.pool, e);
             && r < |n.timed| && T.Sound(E.ALWAYS, n.timed[r]) && T.Enabled(n.timed[r], R.ResponseOf(e)) && e.error.NoError?
             && n.timed[r].armed && !T.Step(E.ALWAYS, n.timed[r], R.ResponseOf(e)).armed
    ensures Y.Fresh(E.ALWAYS, n, R.Completed(e, sends))
  {
    Y.EndingOfStep(E.ALWAYS, n.timed[R.Owner(n.pool, e)], R.ResponseOf(e));
    assert Y.AllUnlike(R.Net(S.Step(n.pool, e), n.timed), sends);
  }

  lemma NoSendsAreFresh(n: R.Net, ev: R.NetEvent)
    requires R.Occurs(E.ALWAYS, n, ev) && SendsOf(ev) == []
    ensures Y.Fresh(E.ALWAYS, n, ev)
  {
  }

  /** The transport gets a request exactly as the exchange does. */
  lemma NextIsCounted(c: Client, s: Shared, ev: Event)
    requires Carried(c, s) && |s.net.timed| == |s.ids|
    requires Happens(c, s, ev) && NobodyElseSends(c, s, ev) && !Throws(c, s, ev)
    ensures |Next(c, s, ev).net.timed| == |Next(c, s, ev).ids|
    ensures forall i :: |s.ids| <= i < |Next(c, s, ev).ids| ==> Next(c, s, ev).ids[i] == i
  {
    if TakenBy(s.net, ev.on).Some? {
      TakingLands(s.net, ev.on);
    } else if ev.on.Halted? {
      ResetAddsNone(R.Net(P.BeginShutdown(s.net.pool), s.net.timed), s.net.pool.pending);
    }
  }

  lemma NextIsOrderly(n: R.Net, ev: R.NetEvent)
    requires Y.Orderly(E.ALWAYS, n) && R.Occurs(E.ALWAYS, n, ev) && R.Defined(E.ALWAYS, n, ev) && Y.Fresh(E.ALWAYS, n, ev)
    ensures Y.Orderly(E.ALWAYS, R.Next(E.ALWAYS, n, ev))
  {
    R.NextKeepsTied(E.ALWAYS, n, ev);
    Y.NextKeepsSteady(E.ALWAYS, n, ev);
  }

  lemma StepStaysAlone(c: Client, bucket: G.Key, key: G.Key, s: Shared, ev: Event)
    requires Alone(c, bucket, key, s)
    requires Happens(c, s, ev) && NobodyElseSends(c, s, ev) && !Throws(c, s, ev)
    ensures Y.Fresh(E.ALWAYS, s.net, ev.on) && Alone(c, bucket, key, Next(c, s, ev))
  {
    AloneIsFresh(c, bucket, key, s, ev);
    NextIsOrderly(s.net, ev.on);
    NextFollows(c, bucket, key, s, ev);
    NextIsCounted(c, s, ev);
  }

  lemma NextFollows(c: Client, bucket: G.Key, key: G.Key, s: Shared, ev: Event)
    requires Follows(c, bucket, key, s) && Happens(c, s, ev) && !Throws(c, s, ev)
    ensures Follows(c, bucket, key, Next(c, s, ev)) && !Next(c, s, ev).exchange.run.threw
    ensures Next(c, s, ev).net == R.Next(E.ALWAYS, s.net, ev.on) && s.ids <= Next(c, s, ev).ids
  {
    var _ := StepFollows(c, bucket, key, s, ev, s.exchange, []);
  }

  lemma {:induction false} AloneRunsFresh(c: Client, bucket: G.Key, key: G.Key, s: Shared, events: seq<Event>, s': Shared)
    requires Alone(c, bucket, key, s) && RunsAlone(c, s, events, s')
    ensures Y.FreshRuns(E.ALWAYS, s.net, OnTransport(events), s'.net) && Alone(c, bucket, key, s')
    decreases |events|
  {
    if events != [] {
      StepStaysAlone(c, bucket, key, s, events[0]);
      AloneRunsFresh(c, bucket, key, Next(c, s, events[0]), events[1..], s');
      assert OnTransport(events)[1..] == OnTransport(events[1..]);
    }
  }

  lemma FirstStarts(c: Client, bucket: G.Key, key: G.Key)
    ensures var get := R.Sent(c.Encode(G.Get(bucket, key)));
            && Starts(c, bucket, key, R.NO_REQUESTS, get, 0) && Y.Fresh(E.ALWAYS, R.NO_REQUESTS, get)
            && |R.Next(E.ALWAYS, R.NO_REQUESTS, get).timed| == 1
  {
    var payload := c.Encode(G.Get(bucket, key));
    assert R.SendOne(R.NO_REQUESTS, payload) == Y.OnlyRequest(payload, P.Op(P.Write, 0, false));
  }

  /** The first request of an idle transport is the GET of an exchange. */
  lemma FirstIsAlone(c: Client, bucket: G.Key, key: G.Key)
    ensures var get := R.Sent(c.Encode(G.Get(bucket, key)));
            && R.Occurs(E.ALWAYS, R.NO_REQUESTS, get) && R.Defined(E.ALWAYS, R.NO_REQUESTS, get)
            && Y.Fresh(E.ALWAYS, R.NO_REQUESTS, get)
            && Alone(c, bucket, key, Started(bucket, key, R.Next(E.ALWAYS, R.NO_REQUESTS, get), 0))
  {
    var get := R.Sent(c.Encode(G.Get(bucket, key)));
    FirstStarts(c, bucket, key);
    Y.NothingIsOrderly(E.ALWAYS);
    R.NextKeepsTied(E.ALWAYS, R.NO_REQUESTS, get);
    Y.NextKeepsSteady(E.ALWAYS, R.NO_REQUESTS, get);
    StartFollows(c, bucket, key, R.NO_REQUESTS, get, 0);
  }

  /** The client's own traffic never sends a payload that is still live, though it
      sends the same GET again for every collision: whatever the server and the
      clock do, an exchange with the transport to itself keeps what the scheduler
      promises such traffic. Until a shutdown none of its finished requests is
      ever called back, and the assertion on a response holds. */
  lemma ExchangeAloneIsOrderly(c: Client, bucket: G.Key, key: G.Key, events: seq<Event>, s: Shared)
    requires RunsAlone(c, Started(bucket, key, R.SendOne(R.NO_REQUESTS, c.Encode(G.Get(bucket, key))), 0), events, s)
    ensures Y.FreshRuns(E.ALWAYS, R.NO_REQUESTS, [R.Sent(c.Encode(G.Get(bucket, key)))] + OnTransport(events), s.net)
    ensures forall ev :: R.Occurs(E.ALWAYS, s.net, ev) && Y.CallsOver(E.ALWAYS, s.net, ev) ==> s.net.pool.shuttingDown
  {
    var get := R.Sent(c.Encode(G.Get(bucket, key)));
    var s0 := Started(bucket, key, R.Next(E.ALWAYS, R.NO_REQUESTS, get), 0);
    FirstIsAlone(c, bucket, key);
    AloneRunsFresh(c, bucket, key, s0, events, s);
    assert ([get] + OnTransport(events))[1..] == OnTransport(events);
    forall ev | R.Occurs(E.ALWAYS, s.net, ev) && Y.CallsOver(E.ALWAYS, s.net, ev)
      ensures s.net.pool.shuttingDown
    {
      Y.OwnerIsAtHand(E.ALWAYS, s.net, ev.done);
    }
  }
}
