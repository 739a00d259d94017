/** get_object over the scheduler's one socket, shared with any other requests:
    every run of the scheduler with its timed requests is, for each exchange that
    takes place over it, a run of that exchange. */
module SharedSocket {
  import opened Bytes
  import opened Framing
  import opened Options
  import S = SchedulerSafety
  import P = SocketScheduler
  import C = TransportContract
  import R = TransportRuns
  import T = TimedRequest
  import G = GetObject
  import E = EndToEnd

  /** The client, and how the bodies of its requests are encoded, which the model does not look into. */
  datatype Client = Client(config: G.Config, body: G.WireRequest -> Bytes) {
    /** The package a request travels in. */
    function Package(request: G.WireRequest): WirePackage {
      WirePackage(if request.Get? then GET_REQUEST else PUT_REQUEST, body(request))
    }

    function Encode(request: G.WireRequest): Bytes {
      Package(request).Wire()
    }
  }

  /** A request is told by its code, 9 for GET and 11 for PUT, and its handler
      expects the next one. */
  lemma CodeTellsRequest(c: Client, request: G.WireRequest, stale: Byte)
    ensures c.Encode(request)[4] == if request.Get? then 9 else 11
    ensures c.Package(request).Fits() ==>
              ExtractCodeIfValid(|c.Encode(request)|, c.Encode(request), stale) == Some(c.Encode(request)[4])
    ensures (if request.Get? then GET_RESPONSE else PUT_RESPONSE) == c.Encode(request)[4] + 1
  {
    PackageReadsBack(c.Package(request), stale);
  }

  /** The transport, one exchange over it, and which of the transport's requests
      its wire requests are. */
  datatype Shared = Shared(net: R.Net, exchange: E.System, ids: seq<P.Id>)

  /** What happens on the transport, and the stale byte should it call a handler of the exchange. */
  datatype Event = Event(on: R.NetEvent, stale: Byte)

  /** A timed request takes an event. */
  datatype Taking = Taking(r: P.Id, e: T.Event)

  function TakenBy(n: R.Net, ev: R.NetEvent): Option<Taking>
    requires R.Occurs(E.ALWAYS, n, ev)
  {
    match ev
    case Completed(e, _) => if R.Calls(n.pool, e) then Some(Taking(R.Owner(n.pool, e), R.ResponseOf(e))) else None
    case Ticked(r, e, _) => Some(Taking(r, e))
    case _ => None
  }

  function SendsOf(ev: R.NetEvent): seq<Bytes> {
    match ev
    case Sent(payload) => [payload]
    case Completed(_, sends) => sends
    case Ticked(_, _, sends) => sends
    case _ => []
  }

  function IndexOf(ids: seq<P.Id>, r: P.Id): (i: nat)
    requires r in ids
    ensures i < |ids| && ids[i] == r
  {
    if ids[0] == r then 0 else 1 + IndexOf(ids[1..], r)
  }

  /** The event of the exchange that its own request's taking is. */
  function Own(s: Shared, taking: Taking, stale: Byte): E.Event
    requires taking.r in s.ids
  {
    E.Event(IndexOf(s.ids, taking.r), taking.e, stale)
  }

  /** The event is one of the exchange. */
  predicate IsOwn(s: Shared, ev: Event)
    requires R.Occurs(E.ALWAYS, s.net, ev.on)
  {
    var taken := TakenBy(s.net, ev.on);
    taken.Some? && taken.value.r in s.ids && E.Enabled(s.exchange, Own(s, taken.value, ev.stale))
  }

  /** What its handler does. */
  function Reaction(c: Client, s: Shared, ev: Event): Option<G.Action>
    requires R.Occurs(E.ALWAYS, s.net, ev.on) && IsOwn(s, ev)
  {
    E.Reaction(c.config, s.exchange, Own(s, TakenBy(s.net, ev.on).value, ev.stale))
  }

  /** A handler of the exchange that sends a request sends that one. Answering,
      it may find the application sending whatever it likes. */
  predicate SendsAsHandled(c: Client, s: Shared, ev: Event)
    requires R.Occurs(E.ALWAYS, s.net, ev.on)
  {
    IsOwn(s, ev) && Reaction(c, s, ev).Some? && Reaction(c, s, ev).value.Send? ==>
      SendsOf(ev.on) == [c.Encode(Reaction(c, s, ev).value.pending.request)]
  }

  predicate Throws(c: Client, s: Shared, ev: Event)
    requires R.Occurs(E.ALWAYS, s.net, ev.on)
  {
    IsOwn(s, ev) && Reaction(c, s, ev).Some? && Reaction(c, s, ev).value.Throw?
  }

  /** Until an exception out of a handler of the exchange ends the run. */
  predicate Happens(c: Client, s: Shared, ev: Event) {
    && !s.exchange.run.threw
    && R.Occurs(E.ALWAYS, s.net, ev.on) && SendsAsHandled(c, s, ev)
    && (Throws(c, s, ev) || R.Defined(E.ALWAYS, s.net, ev.on))
  }

  /** What the exchange makes of the reset of request r. */
  function AfterReset(c: Client, x: E.System, ids: seq<P.Id>, r: P.Id): E.System {
    if r in ids && E.Enabled(x, E.Event(IndexOf(ids, r), R.RESET, 0)) then
      E.Step(c.config, x, E.Event(IndexOf(ids, r), R.RESET, 0))
    else x
  }

  /** Pending requests of the exchange answer the shutdown. */
  function Resets(c: Client, x: E.System, ids: seq<P.Id>, pending: seq<P.Id>): E.System
    decreases |pending|
  {
    if pending == [] then x else Resets(c, AfterReset(c, x, ids, pending[0]), ids, pending[1..])
  }

  function Next(c: Client, s: Shared, ev: Event): Shared
    requires Happens(c, s, ev)
  {
    if IsOwn(s, ev) then
      var x := E.Step(c.config, s.exchange, Own(s, TakenBy(s.net, ev.on).value, ev.stale));
      if Throws(c, s, ev) then Shared(s.net, x, s.ids)
      else
        var sent := Reaction(c, s, ev).Some? && Reaction(c, s, ev).value.Send?;
        Shared(R.Next(E.ALWAYS, s.net, ev.on), x, s.ids + if sent then [|s.net.timed|] else [])
    else
      var x := if ev.on.Halted? then Resets(c, s.exchange, s.ids, s.net.pool.pending) else s.exchange;
      Shared(R.Next(E.ALWAYS, s.net, ev.on), x, s.ids)
  }

  ghost predicate Runs(c: Client, s: Shared, events: seq<Event>, s': Shared)
    decreases |events|
  {
    if events == [] then s' == s
    else Happens(c, s, events[0]) && Runs(c, Next(c, s, events[0]), events[1..], s')
  }

  // ----- The exchange follows the transport -----

  /** The wire requests are distinct requests of the transport, delivered as
      what they encode to. */
  ghost predicate Delivered(c: Client, s: Shared) {
    && |s.ids| == |s.exchange.wires| && |s.net.timed| == |s.net.pool.requests|
    && (forall i, j :: 0 <= i < j < |s.ids| ==> s.ids[i] != s.ids[j])
    && forall i :: 0 <= i < |s.ids| ==>
                     && s.ids[i] < |s.net.timed|
                     && s.net.pool.requests[s.ids[i]] == c.Encode(s.exchange.wires[i].pending.request)
  }

  /** And are in the same state there. */
  ghost predicate Carried(c: Client, s: Shared) {
    && Delivered(c, s)
    && forall i :: 0 <= i < |s.ids| ==> s.net.timed[s.ids[i]] == s.exchange.wires[i].request
  }

  /** What follows of a landing, whoever's it is. */
  lemma {:induction false} SendAllAppends(n: R.Net, sends: seq<Bytes>)
    requires |n.timed| == |n.pool.requests|
    ensures var n' := R.SendAll(n, sends);
            && n.timed <= n'.timed && n.pool.requests <= n'.pool.requests && |n'.timed| == |n'.pool.requests|
            && (sends == [] ==> n'.timed == n.timed)
    ensures |sends| == 1 && !n.pool.shuttingDown ==>
              && R.SendAll(n, sends).timed == n.timed + [T.Dispatched(T.CREATED)]
              && R.SendAll(n, sends).pool.requests == n.pool.requests + sends
    decreases |sends|
  {
    if sends != [] && !n.pool.shuttingDown {
      SendAllAppends(R.SendOne(n, sends[0]), sends[1..]);
    }
  }

  lemma LandedAppends(n: R.Net, r: P.Id, q: T.Request, sends: seq<Bytes>)
    requires |n.timed| == |n.pool.requests| && r < |n.timed| && R.MayLand(n, r, q, sends)
    ensures var n' := R.Landed(n, r, q, sends);
            && n.timed[r := q] <= n'.timed && n.pool.requests <= n'.pool.requests && |n'.timed| == |n'.pool.requests|
            && (sends == [] ==> n'.timed == n.timed[r := q])
    ensures |sends| == 1 && !n.pool.shuttingDown ==>
              && R.Landed(n, r, q, sends).timed == n.timed[r := q] + [T.Dispatched(T.CREATED)]
              && R.Landed(n, r, q, sends).pool.requests == n.pool.requests + sends
  {
    SendAllAppends(n, sends);
    var ending := C.EndingOf(n.timed[r], q);
    if ending == C.Called(true) {
      SendAllAppends(R.Net(C.Settled(n.pool, r, ending), n.timed[r := q]), sends);
    }
  }

  /** A request takes an event on the transport by landing there. */
  lemma TakingLands(n: R.Net, ev: R.NetEvent)
    requires |n.timed| == |n.pool.requests|
    requires R.Occurs(E.ALWAYS, n, ev) && R.Defined(E.ALWAYS, n, ev) && TakenBy(n, ev).Some?
    ensures var taken, n' := TakenBy(n, ev).value, R.Next(E.ALWAYS, n, ev);
            && taken.r < |n.timed| && T.Enabled(n.timed[taken.r], taken.e)
            && var timed := n.timed[taken.r := T.Step(E.ALWAYS, n.timed[taken.r], taken.e)];
               && timed <= n'.timed && n.pool.requests <= n'.pool.requests && |n'.timed| == |n'.pool.requests|
               && (SendsOf(ev) == [] ==> n'.timed == timed)
               && (|SendsOf(ev)| == 1 ==> n'.timed == timed + [T.Dispatched(T.CREATED)]
                                          && n'.pool.requests == n.pool.requests + SendsOf(ev))
  {
    match ev
    case Completed(e, sends) =>
      var p := S.Step(n.pool, e);
      assert p.requests == n.pool.requests && p.shuttingDown == n.pool.shuttingDown;
      var r := R.Owner(n.pool, e);
      LandedAppends(R.Net(p, n.timed), r, T.Step(E.ALWAYS, n.timed[r], R.ResponseOf(e)), sends);
    case Ticked(r, e, sends) => LandedAppends(n, r, T.Step(E.ALWAYS, n.timed[r], e), sends);
  }

  /** An event of the transport that no request takes leaves those there are. */
  lemma OthersStay(n: R.Net, ev: R.NetEvent)
    requires |n.timed| == |n.pool.requests| && !ev.Halted?
    requires R.Occurs(E.ALWAYS, n, ev) && R.Defined(E.ALWAYS, n, ev) && TakenBy(n, ev).None?
    ensures var n' := R.Next(E.ALWAYS, n, ev);
            n.timed <= n'.timed && n.pool.requests <= n'.pool.requests && |n'.timed| == |n'.pool.requests|
  {
  }

  /** An event its own request takes on the transport can be taken in the exchange. */
  lemma OwnIsEnabled(c: Client, s: Shared, ev: Event)
    requires Carried(c, s) && !s.exchange.run.threw
    requires R.Occurs(E.ALWAYS, s.net, ev.on) && R.Defined(E.ALWAYS, s.net, ev.on)
    requires TakenBy(s.net, ev.on).Some? && TakenBy(s.net, ev.on).value.r in s.ids
    ensures IsOwn(s, ev)
  {
    TakingLands(s.net, ev.on);
  }

  /** One wire request, and the transport's with it, turns into q. */
  lemma TurningCarries(c: Client, s: Shared, i: nat, q: T.Request, net: R.Net, x: E.System)
    requires Carried(c, s) && i < |s.ids|
    requires s.net.timed[s.ids[i] := q] <= net.timed && s.net.pool.requests <= net.pool.requests
    requires |net.timed| == |net.pool.requests|
    requires x.wires == s.exchange.wires[i := E.Wire(s.exchange.wires[i].pending, q)]
    ensures Carried(c, Shared(net, x, s.ids))
  {
    forall j | 0 <= j < |s.ids|
      ensures s.ids[j] < |net.timed| && net.pool.requests[s.ids[j]] == c.Encode(x.wires[j].pending.request)
      ensures net.timed[s.ids[j]] == x.wires[j].request
    {
      assert j != i ==> s.ids[j] != s.ids[i];
    }
  }

  /** A further one is sent, and with it one of the transport's. */
  lemma SendingCarries(c: Client, s: Shared, pending: G.Pending, net: R.Net, x: E.System)
    requires Carried(c, s) && x.wires == s.exchange.wires + [E.Launched(pending)]
    requires net.timed == s.net.timed + [T.Dispatched(T.CREATED)]
    requires net.pool.requests == s.net.pool.requests + [c.Encode(pending.request)]
    ensures Carried(c, Shared(net, x, s.ids + [|s.net.timed|]))
  {
  }

  lemma OwnStepCarries(c: Client, s: Shared, ev: Event)
    requires Carried(c, s) && Happens(c, s, ev) && IsOwn(s, ev) && !Throws(c, s, ev)
    ensures Carried(c, Next(c, s, ev))
  {
    var taken, net := TakenBy(s.net, ev.on).value, R.Next(E.ALWAYS, s.net, ev.on);
    var own := Own(s, taken, ev.stale);
    var w := s.exchange.wires[own.wire];
    var q := T.Step(E.ALWAYS, w.request, taken.e);
    TakingLands(s.net, ev.on);
    E.StepChangesWires(c.config, s.exchange, own);
    assert s.net.timed[taken.r] == w.request;
    var reaction, x := Reaction(c, s, ev), E.Step(c.config, s.exchange, own);
    if reaction.Some? && reaction.value.Send? {
      var turned := s.exchange.(wires := s.exchange.wires[own.wire := E.Wire(w.pending, q)]);
      var n := R.Net(s.net.pool, s.net.timed[taken.r := q]);
      TurningCarries(c, s, own.wire, q, n, turned);
      SendingCarries(c, Shared(n, turned, s.ids), reaction.value.pending, net, x);
    } else {
      TurningCarries(c, s, own.wire, q, net, x);
    }
  }

  lemma OtherStepCarries(c: Client, s: Shared, ev: Event)
    requires Carried(c, s) && Happens(c, s, ev) && !IsOwn(s, ev) && !ev.on.Halted?
    ensures Carried(c, Next(c, s, ev))
  {
    if TakenBy(s.net, ev.on).Some? {
      TakingLands(s.net, ev.on);
      if TakenBy(s.net, ev.on).value.r in s.ids {
        OwnIsEnabled(c, s, ev);
        assert false;
      }
    } else {
      OthersStay(s.net, ev.on);
    }
  }

  /** A reset is answered, whichever handler hears it. */
  lemma ResetIsAnswered(c: Client, x: E.System, i: nat)
    requires E.Enabled(x, E.Event(i, R.RESET, 0)) && T.Sound(E.ALWAYS, x.wires[i].request)
    ensures var reaction := E.Reaction(c.config, x, E.Event(i, R.RESET, 0));
            reaction.Some? ==> reaction.value.Respond?
  {
    E.ErrorIsAnswered(c.config, x.wires[i].pending.handler, G.Heard(NetworkReset, [], 0));
  }

  ghost predicate AllSound(x: E.System) {
    forall i :: 0 <= i < |x.wires| ==> T.Sound(E.ALWAYS, x.wires[i].request)
  }

  lemma OwnResetCarries(c: Client, s: Shared, r: P.Id)
    requires Carried(c, s) && !s.exchange.run.threw && AllSound(s.exchange) && r in s.ids
    requires T.Enabled(s.net.timed[r], R.RESET) && R.MayLand(s.net, r, T.Step(E.ALWAYS, s.net.timed[r], R.RESET), [])
    ensures E.Enabled(s.exchange, E.Event(IndexOf(s.ids, r), R.RESET, 0))
    ensures var net := R.Landed(s.net, r, T.Step(E.ALWAYS, s.net.timed[r], R.RESET), []);
            var x := AfterReset(c, s.exchange, s.ids, r);
            Carried(c, Shared(net, x, s.ids)) && !x.run.threw && AllSound(x)
  {
    var e := E.Event(IndexOf(s.ids, r), R.RESET, 0);
    var q := T.Step(E.ALWAYS, s.net.timed[r], R.RESET);
    LandedAppends(s.net, r, q, []);
    ResetIsAnswered(c, s.exchange, e.wire);
    ResetTurns(c, s.exchange, e.wire);
    TurningCarries(c, s, e.wire, q, R.Landed(s.net, r, q, []), E.Step(c.config, s.exchange, e));
  }

  lemma ResetTurns(c: Client, x: E.System, i: nat)
    requires E.Enabled(x, E.Event(i, R.RESET, 0)) && AllSound(x)
    requires var reaction := E.Reaction(c.config, x, E.Event(i, R.RESET, 0)); reaction.Some? ==> reaction.value.Respond?
    ensures var w, x' := x.wires[i], E.Step(c.config, x, E.Event(i, R.RESET, 0));
            && x'.wires == x.wires[i := E.Wire(w.pending, T.Step(E.ALWAYS, w.request, R.RESET))]
            && !x'.run.threw && AllSound(x')
  {
    E.StepChangesWires(c.config, x, E.Event(i, R.RESET, 0));
    T.StepKeepsSound(E.ALWAYS, x.wires[i].request, R.RESET);
  }

  lemma OtherResetCarries(c: Client, s: Shared, r: P.Id)
    requires Carried(c, s) && r < |s.net.timed| && r !in s.ids
    requires T.Enabled(s.net.timed[r], R.RESET) && R.MayLand(s.net, r, T.Step(E.ALWAYS, s.net.timed[r], R.RESET), [])
    ensures Carried(c, Shared(R.Landed(s.net, r, T.Step(E.ALWAYS, s.net.timed[r], R.RESET), []), s.exchange, s.ids))
  {
    LandedAppends(s.net, r, T.Step(E.ALWAYS, s.net.timed[r], R.RESET), []);
  }

  /** The pending requests of the exchange answer the shutdown there and here. */
  lemma {:induction false} ResetsCarry(c: Client, s: Shared, pending: seq<P.Id>, begun: E.System, events: seq<E.Event>)
    returns (more: seq<E.Event>)
    requires Carried(c, s) && !s.exchange.run.threw && AllSound(s.exchange) && R.MayReset(E.ALWAYS, s.net, pending)
    requires E.Reaches(c.config, begun, events, s.exchange)
    ensures var s' := Shared(R.Reset(E.ALWAYS, s.net, pending), Resets(c, s.exchange, s.ids, pending), s.ids);
            Carried(c, s') && !s'.exchange.run.threw && E.Reaches(c.config, begun, more, s'.exchange)
    decreases |pending|
  {
    if pending == [] {
      more := events;
    } else {
      var r := pending[0];
      var net := R.Landed(s.net, r, T.Step(E.ALWAYS, s.net.timed[r], R.RESET), []);
      var next, rest := events, pending[1..];
      if r in s.ids {
        OwnResetCarries(c, s, r);
        var e := E.Event(IndexOf(s.ids, r), R.RESET, 0);
        E.RunExtends(c.config, begun, events, s.exchange, e);
        next := events + [e];
      } else {
        OtherResetCarries(c, s, r);
      }
      more := ResetsCarry(c, Shared(net, AfterReset(c, s.exchange, s.ids, r), s.ids), rest, begun, next);
    }
  }

  lemma HaltCarries(c: Client, s: Shared, ev: Event, begun: E.System, events: seq<E.Event>) returns (more: seq<E.Event>)
    requires Carried(c, s) && Happens(c, s, ev) && ev.on.Halted?
    requires AllSound(s.exchange) && E.Reaches(c.config, begun, events, s.exchange)
    ensures Carried(c, Next(c, s, ev)) && !Next(c, s, ev).exchange.run.threw
    ensures E.Reaches(c.config, begun, more, Next(c, s, ev).exchange)
  {
    var net := R.Net(P.BeginShutdown(s.net.pool), s.net.timed);
    more := ResetsCarry(c, Shared(net, s.exchange, s.ids), s.net.pool.pending, begun, events);
  }

  /** What holds along a run: the exchange is one, and is carried by the transport until it throws. */
  ghost predicate Follows(c: Client, bucket: G.Key, key: G.Key, s: Shared) {
    E.Invariant(c.config, bucket, key, s.exchange) && Delivered(c, s) && (!s.exchange.run.threw ==> Carried(c, s))
  }

  /** An event, if anything of the exchange's own, is one of it. */
  lemma StepProjects(c: Client, s: Shared, ev: Event, begun: E.System, events: seq<E.Event>) returns (more: seq<E.Event>)
    requires Carried(c, s) && AllSound(s.exchange) && Happens(c, s, ev) && E.Reaches(c.config, begun, events, s.exchange)
    ensures Delivered(c, Next(c, s, ev)) && (!Throws(c, s, ev) ==> Carried(c, Next(c, s, ev)))
    ensures Next(c, s, ev).exchange.run.threw <==> Throws(c, s, ev)
    ensures E.Reaches(c.config, begun, more, Next(c, s, ev).exchange)
  {
    if IsOwn(s, ev) {
      var own := Own(s, TakenBy(s.net, ev.on).value, ev.stale);
      E.RunExtends(c.config, begun, events, s.exchange, own);
      E.StepChangesWires(c.config, s.exchange, own);
      more := events + [own];
      if !Throws(c, s, ev) {
        OwnStepCarries(c, s, ev);
      }
    } else if ev.on.Halted? {
      more := HaltCarries(c, s, ev, begun, events);
    } else {
      OtherStepCarries(c, s, ev);
      more := events;
    }
  }

  lemma StepFollows(c: Client, bucket: G.Key, key: G.Key, s: Shared, ev: Event, begun: E.System, events: seq<E.Event>)
    returns (more: seq<E.Event>)
    requires Follows(c, bucket, key, s) && Happens(c, s, ev) && E.Reaches(c.config, begun, events, s.exchange)
    ensures Follows(c, bucket, key, Next(c, s, ev)) && E.Reaches(c.config, begun, more, Next(c, s, ev).exchange)
    ensures Next(c, s, ev).exchange.run.threw <==> Throws(c, s, ev)
  {
    more := StepProjects(c, s, ev, begun, events);
    var alone := StepProjects(c, s, ev, s.exchange, []);
    E.RunsKeepInvariant(c.config, bucket, key, s.exchange, alone, Next(c, s, ev).exchange);
  }

  lemma {:induction false} RunsFollow(c: Client, bucket: G.Key, key: G.Key, s: Shared, events: seq<Event>, s': Shared,
                                      before: seq<E.Event>)
    returns (all: seq<E.Event>)
    requires Follows(c, bucket, key, s) && Runs(c, s, events, s')
    requires E.Reaches(c.config, E.Begin(bucket, key), before, s.exchange)
    ensures Follows(c, bucket, key, s') && E.Reaches(c.config, E.Begin(bucket, key), all, s'.exchange)
    decreases |events|
  {
    if events == [] {
      all := before;
    } else {
      var more := StepFollows(c, bucket, key, s, events[0], E.Begin(bucket, key), before);
      all := RunsFollow(c, bucket, key, Next(c, s, events[0]), events[1..], s', more);
    }
  }

  // ----- An exchange over the socket -----

  /** An event sends the GET of an exchange, as this request of the transport. */
  ghost predicate Starts(c: Client, bucket: G.Key, key: G.Key, n: R.Net, ev: R.NetEvent, id: P.Id) {
    && R.Occurs(E.ALWAYS, n, ev) && R.Defined(E.ALWAYS, n, ev)
    && var n' := R.Next(E.ALWAYS, n, ev);
       && |n.timed| <= id < |n'.timed| == |n'.pool.requests|
       && n'.pool.requests[id] == c.Encode(G.Get(bucket, key))
  }

  function Started(bucket: G.Key, key: G.Key, n: R.Net, id: P.Id): Shared {
    Shared(n, E.Begin(bucket, key), [id])
  }

  lemma NewIsDispatched(n: R.Net, ev: R.NetEvent, id: P.Id)
    requires R.Tied(E.ALWAYS, n) && R.Occurs(E.ALWAYS, n, ev) && R.Defined(E.ALWAYS, n, ev)
    requires |n.timed| <= id < |R.Next(E.ALWAYS, n, ev).timed|
    ensures R.Next(E.ALWAYS, n, ev).timed[id] == T.Dispatched(T.CREATED)
  {
    match ev
    case Sent(_) =>
    case Completed(e, sends) =>
      if R.Calls(n.pool, e) {
        var r := R.Owner(n.pool, e);
        S.StepKeepsInvariant(n.pool, e);
        R.StepKeepsKnown(n.pool, e);
        T.StepKeepsSound(E.ALWAYS, n.timed[r], R.ResponseOf(e));
        R.LandedKeepsBound(E.ALWAYS, R.Net(S.Step(n.pool, e), n.timed), r,
                           T.Step(E.ALWAYS, n.timed[r], R.ResponseOf(e)), sends);
      }
    case Ticked(r, e, sends) =>
      T.StepKeepsSound(E.ALWAYS, n.timed[r], e);
      R.LandedKeepsBound(E.ALWAYS, n, r, T.Step(E.ALWAYS, n.timed[r], e), sends);
    case Halted =>
      ResetAddsNone(R.Net(P.BeginShutdown(n.pool), n.timed), n.pool.pending);
    case _ =>
  }

  lemma {:induction false} ResetAddsNone(n: R.Net, ids: seq<P.Id>)
    requires R.MayReset(E.ALWAYS, n, ids)
    ensures |R.Reset(E.ALWAYS, n, ids).timed| == |n.timed|
    decreases |ids|
  {
    if ids != [] {
      ResetAddsNone(R.Landed(n, ids[0], T.Step(E.ALWAYS, n.timed[ids[0]], R.RESET), []), ids[1..]);
    }
  }

  lemma StartFollows(c: Client, bucket: G.Key, key: G.Key, n: R.Net, ev: R.NetEvent, id: P.Id)
    requires R.Tied(E.ALWAYS, n) && Starts(c, bucket, key, n, ev, id)
    ensures Follows(c, bucket, key, Started(bucket, key, R.Next(E.ALWAYS, n, ev), id))
  {
    E.BeginIsInvariant(c.config, bucket, key);
    NewIsDispatched(n, ev, id);
  }

  lemma NextKeepsTied(c: Client, s: Shared, ev: Event)
    requires R.Tied(E.ALWAYS, s.net) && Happens(c, s, ev)
    ensures R.Tied(E.ALWAYS, Next(c, s, ev).net)
  {
    if !Throws(c, s, ev) {
      R.NextKeepsTied(E.ALWAYS, s.net, ev.on);
    }
  }

  lemma {:induction false} RunsKeepTied(c: Client, s: Shared, events: seq<Event>, s': Shared)
    requires R.Tied(E.ALWAYS, s.net) && Runs(c, s, events, s')
    ensures R.Tied(E.ALWAYS, s'.net)
    decreases |events|
  {
    if events != [] {
      NextKeepsTied(c, s, events[0]);
      RunsKeepTied(c, Next(c, s, events[0]), events[1..], s');
    }
  }

  /** get_object over a socket that any other requests and exchanges share, sent
      at any point, through its shutdown: what happens to it is a run of the
      exchange by itself, so that all that holds of those holds of it. Its
      requests reach the transport encoded, alternating GET and PUT, as distinct
      requests; in flight, answers and the exception add up to one; and until
      then what each round heard without error is the first complete frame of the
      bytes that the scheduler's reads brought that very request. */
  lemma GetObjectOverSharedSocket(c: Client, bucket: G.Key, key: G.Key, before: seq<R.NetEvent>, n: R.Net,
                                  ev: R.NetEvent, id: P.Id, events: seq<Event>, s: Shared)
    requires R.Runs(E.ALWAYS, R.NO_REQUESTS, before, n) && Starts(c, bucket, key, n, ev, id)
    requires Runs(c, Started(bucket, key, R.Next(E.ALWAYS, n, ev), id), events, s)
    ensures exists all :: E.Reaches(c.config, E.Begin(bucket, key), all, s.exchange)
    ensures var run := s.exchange.run;
            && |run.inFlight| + |run.answers| + (if run.threw then 1 else 0) == 1
            && |s.ids| == |run.rounds| + |run.inFlight| && |s.net.timed| == |s.net.pool.requests|
            && G.Alternates(c.config, bucket, key, run)
    ensures forall i, j :: 0 <= i < j < |s.ids| ==> s.ids[i] != s.ids[j]
    ensures forall i :: 0 <= i < |s.ids| ==>
                          && s.ids[i] < |s.net.timed|
                          && s.net.pool.requests[s.ids[i]] == c.Encode(G.RequestAt(s.exchange.run, i))
    ensures !s.exchange.run.threw ==>
              forall i :: 0 <= i < |s.exchange.run.rounds| ==>
                            s.exchange.run.rounds[i].heard.error
                            == R.LastWord(R.Told(s.net.pool.callbacks, s.ids[i]), s.net.timed[s.ids[i]].dropped == 1)
    ensures !s.exchange.run.threw ==>
              forall i :: 0 <= i < |s.exchange.run.rounds| && s.exchange.run.rounds[i].heard.error.NoError? ==>
                            var frames := Frames(S.BytesHeard(s.net.pool.callbacks, s.ids[i]));
                            frames != [] && s.exchange.run.rounds[i].heard.data == frames[0]
  {
    R.NothingIsTied(E.ALWAYS);
    R.RunsKeepTied(E.ALWAYS, R.NO_REQUESTS, before, n);
    R.NextKeepsTied(E.ALWAYS, n, ev);
    var s0 := Started(bucket, key, R.Next(E.ALWAYS, n, ev), id);
    StartFollows(c, bucket, key, n, ev, id);
    assert E.Reaches(c.config, E.Begin(bucket, key), [], s0.exchange);
    var all := RunsFollow(c, bucket, key, s0, events, s, []);
    RunsKeepTied(c, s0, events, s);
    FollowedExchange(c, bucket, key, all, s);
  }

  /** What is known of an exchange, over the socket. */
  lemma FollowedExchange(c: Client, bucket: G.Key, key: G.Key, all: seq<E.Event>, s: Shared)
    requires E.Reaches(c.config, E.Begin(bucket, key), all, s.exchange)
    requires Follows(c, bucket, key, s) && R.Tied(E.ALWAYS, s.net)
    ensures var run := s.exchange.run;
            && |run.inFlight| + |run.answers| + (if run.threw then 1 else 0) == 1
            && |s.ids| == |run.rounds| + |run.inFlight|
            && G.Alternates(c.config, bucket, key, run)
    ensures forall i :: 0 <= i < |s.ids| ==>
                          s.net.pool.requests[s.ids[i]] == c.Encode(G.RequestAt(s.exchange.run, i))
    ensures !s.exchange.run.threw ==>
              forall i :: 0 <= i < |s.exchange.run.rounds| ==>
                            s.exchange.run.rounds[i].heard.error
                            == R.LastWord(R.Told(s.net.pool.callbacks, s.ids[i]), s.net.timed[s.ids[i]].dropped == 1)
    ensures !s.exchange.run.threw ==>
              forall i :: 0 <= i < |s.exchange.run.rounds| && s.exchange.run.rounds[i].heard.error.NoError? ==>
                            var frames := Frames(S.BytesHeard(s.net.pool.callbacks, s.ids[i]));
                            frames != [] && s.exchange.run.rounds[i].heard.data == frames[0]
  {
    E.GetObjectEndToEnd(c.config, bucket, key, all, s.exchange);
    PayloadsAlternate(c, s);
    if !s.exchange.run.threw {
      RepliesAreReads(c, s);
      RoundsAreTold(c, s);
    }
  }

  /** What the rounds have heard, by what the scheduler told their requests. */
  lemma RoundsAreTold(c: Client, s: Shared)
    requires R.Tied(E.ALWAYS, s.net) && Carried(c, s) && |s.exchange.run.rounds| <= |s.ids|
    requires forall i :: 0 <= i < |s.exchange.run.rounds| ==>
                           s.exchange.run.rounds[i].heard.error == T.EndingError(s.exchange.wires[i].request)
    ensures forall i :: 0 <= i < |s.exchange.run.rounds| ==>
                          s.exchange.run.rounds[i].heard.error
                          == R.LastWord(R.Told(s.net.pool.callbacks, s.ids[i]), s.net.timed[s.ids[i]].dropped == 1)
  {
    RepliesAreReads(c, s);
  }

  lemma RepliesAreReads(c: Client, s: Shared)
    requires R.Tied(E.ALWAYS, s.net) && Carried(c, s)
    ensures forall i :: 0 <= i < |s.ids| ==>
                          && T.ReplyBytes(s.exchange.wires[i].request) == S.BytesHeard(s.net.pool.callbacks, s.ids[i])
                          && T.FromTransport(s.exchange.wires[i].request) == R.Told(s.net.pool.callbacks, s.ids[i])
                          && s.exchange.wires[i].request.dropped == s.net.timed[s.ids[i]].dropped
  {
    forall i | 0 <= i < |s.ids|
      ensures T.ReplyBytes(s.net.timed[s.ids[i]]) == S.BytesHeard(s.net.pool.callbacks, s.ids[i])
      ensures T.FromTransport(s.net.timed[s.ids[i]]) == R.Told(s.net.pool.callbacks, s.ids[i])
    {
      R.TiedBytes(E.ALWAYS, s.net, s.ids[i]);
    }
  }

  lemma PayloadsAlternate(c: Client, s: Shared)
    requires Delivered(c, s) && E.Linked(s.exchange)
    ensures |s.ids| == |s.exchange.run.rounds| + |s.exchange.run.inFlight|
    ensures forall i :: 0 <= i < |s.ids| ==>
                          s.net.pool.requests[s.ids[i]] == c.Encode(G.RequestAt(s.exchange.run, i))
  {
    E.RequestsInOrder(s.exchange);
  }
}
