/** Fetching an object: GET, sibling resolution by PUT, and GET again for as long
    as the resolved value collides. Handlers are closures over the key and what
    was resolved; each ends in one request or one answer to the application. */
module GetObject {
  import opened Bytes
  import opened Framing
  import opened Options

  type Key = Bytes
  type VectorClock = Bytes
  type Object = Bytes

  /** The parsed body of a GET reply, and of a PUT reply. */
  datatype Reply = Reply(content: seq<Object>, vclock: Option<VectorClock>)

  /** What the client cannot see into: the application's resolver, where None
      stands for null, and the parsers of the message bodies. */
  datatype Config = Config(
    resolve: seq<Object> -> Option<Object>,
    parseGet: Bytes -> Option<Reply>,
    parsePut: Bytes -> Option<Reply>)

  datatype WireRequest =
    | Get(bucket: Key, key: Key)
    | Put(bucket: Key, key: Key, vclock: Option<VectorClock>, content: Object, returnHead: bool)

  /** The handlers bound for a whole response. */
  datatype Handler =
    | AcceptGetResponse(bucket: Key, key: Key)
    | ReturnResolvedOrRetry(bucket: Key, key: Key, cached: Object)

  /** A value_updater: put_with_vclock bound to a key and perhaps a clock. */
  datatype Updater = NoUpdater | Updater(bucket: Key, key: Key, vclock: Option<VectorClock>)

  datatype Answer = Answer(error: ErrorCode, value: Option<Object>, updater: Updater)

  /** A request on the wire with the handler that waits for its response. */
  datatype Pending = Pending(request: WireRequest, handler: Handler)

  /** A call of a whole-response handler. The stale byte is what the code
      variable holds when a frame brings no code. */
  datatype Heard = Heard(error: ErrorCode, data: Bytes, stale: Byte)

  /** How a handler ends. */
  datatype Action = Send(pending: Pending) | Respond(answer: Answer) | Throw

  function RunGetRequest(bucket: Key, key: Key): Action {
    Send(Pending(Get(bucket, key), AcceptGetResponse(bucket, key)))
  }

  function RetrieveGet(c: Config, h: Heard): Retrieval<Reply> {
    RetrieveBodyWithCode(GET_RESPONSE, c.parseGet, |h.data|, h.data, h.stale)
  }

  function RetrievePut(c: Config, h: Heard): Retrieval<Reply> {
    RetrieveBodyWithCode(PUT_RESPONSE, c.parsePut, |h.data|, h.data, h.stale)
  }

  function AcceptGet(c: Config, bucket: Key, key: Key, h: Heard): Action {
    if h.error.NoError? then
      match RetrieveGet(c, h)
      case OutOfRange => Throw
      case Unusable => Respond(Answer(UnparseableResponse, None, NoUpdater))
      case Retrieved(response) =>
        var addContent := Updater(bucket, key, None);
        if |response.content| > 1 then
          if response.vclock.Some? then ResolveSiblingsAndPut(c, bucket, key, response)
          else Respond(Answer(InappropriateResponseContent, None, NoUpdater))
        else if |response.content| == 1 then
          var theValue := Some(response.content[0]);
          if response.vclock.Some? then Respond(Answer(NoError, theValue, Updater(bucket, key, response.vclock)))
          else Respond(Answer(MissingVectorClock, theValue, addContent))
        else Respond(Answer(NoError, None, addContent))
    else Respond(Answer(h.error, None, NoUpdater))
  }

  function ResolveSiblingsAndPut(c: Config, bucket: Key, key: Key, response: Reply): Action
    requires |response.content| > 1 && response.vclock.Some?
  {
    match c.resolve(response.content)
    case Some(resolved) => PutResolvedSibling(bucket, key, response.vclock.value, resolved)
    case None => Respond(Answer(NoError, None, Updater(bucket, key, None)))
  }

  function PutResolvedSibling(bucket: Key, key: Key, vclock: VectorClock, content: Object): Action {
    Send(Pending(Put(bucket, key, Some(vclock), content, true), ReturnResolvedOrRetry(bucket, key, content)))
  }

  function ReturnSuccessfullyResolvedSiblingOrRetry(c: Config, bucket: Key, key: Key, cached: Object, h: Heard): Action {
    var addSibling := Updater(bucket, key, None);
    if h.error.NoError? then
      match RetrievePut(c, h)
      case OutOfRange => Throw
      case Unusable => Respond(Answer(UnparseableResponse, None, addSibling))
      case Retrieved(response) =>
        if |response.content| == 1 && response.vclock.Some? then
          Respond(Answer(NoError, Some(cached), Updater(bucket, key, response.vclock)))
        else RunGetRequest(bucket, key)
    else Respond(Answer(h.error, None, addSibling))
  }

  function Handle(c: Config, handler: Handler, h: Heard): Action {
    match handler
    case AcceptGetResponse(bucket, key) => AcceptGet(c, bucket, key, h)
    case ReturnResolvedOrRetry(bucket, key, cached) => ReturnSuccessfullyResolvedSiblingOrRetry(c, bucket, key, cached, h)
  }

  // ----- Runs -----

  /** A request with what its handler was called with. */
  datatype Round = Round(request: WireRequest, heard: Heard)

  /** One get_object: the finished rounds, what is in flight, what the
      application was answered, and whether an exception ended it. */
  datatype Run = Run(rounds: seq<Round>, inFlight: seq<Pending>, answers: seq<Answer>, threw: bool)

  function Perform(r: Run, a: Action): Run {
    match a
    case Send(pending) => r.(inFlight := r.inFlight + [pending])
    case Respond(answer) => r.(answers := r.answers + [answer])
    case Throw => r.(threw := true)
  }

  function Start(bucket: Key, key: Key): Run {
    Perform(Run([], [], [], false), RunGetRequest(bucket, key))
  }

  function Landed(inFlight: seq<Pending>, pending: Pending): seq<Pending> {
    if inFlight == [] then []
    else if inFlight[0] == pending then inFlight[1..]
    else [inFlight[0]] + Landed(inFlight[1..], pending)
  }

  /** The handler of a pending request is called. */
  function Invoke(c: Config, r: Run, pending: Pending, h: Heard): Run {
    Perform(r.(rounds := r.rounds + [Round(pending.request, h)], inFlight := Landed(r.inFlight, pending)),
            Handle(c, pending.handler, h))
  }

  /** Any handler in flight may be called with anything. */
  datatype Event = Event(pending: Pending, heard: Heard)

  ghost predicate Reaches(c: Config, r: Run, events: seq<Event>, r': Run)
    decreases |events|
  {
    if events == [] then r' == r
    else
      && events[0].pending in r.inFlight && !r.threw
      && Reaches(c, Invoke(c, r, events[0].pending, events[0].heard), events[1..], r')
  }

  /** The i-th request sent, the one in flight included. */
  function RequestAt(r: Run, i: nat): WireRequest
    requires i < |r.rounds| + |r.inFlight|
  {
    if i < |r.rounds| then r.rounds[i].request else r.inFlight[i - |r.rounds|].request
  }

  /** The GET reply of a round that was to be resolved, and what it was resolved to. */
  ghost predicate Resolves(c: Config, round: Round, vclock: VectorClock, obj: Object) {
    && round.request.Get? && round.heard.error.NoError?
    && RetrieveGet(c, round.heard).Retrieved?
    && var g := RetrieveGet(c, round.heard).message;
       |g.content| > 1 && g.vclock == Some(vclock) && c.resolve(g.content) == Some(obj)
  }

  /** Every even request is a GET, and every odd one the PUT that resolves the
      reply before it: that reply's clock, and the resolver's object. */
  ghost predicate Alternates(c: Config, bucket: Key, key: Key, r: Run) {
    forall i :: 0 <= i < |r.rounds| + |r.inFlight| ==>
                  if i % 2 == 0 then RequestAt(r, i) == Get(bucket, key)
                  else
                    var q := RequestAt(r, i);
                    q.Put? && q.vclock.Some? && q == Put(bucket, key, q.vclock, q.content, true)
                    && i - 1 < |r.rounds| && Resolves(c, r.rounds[i - 1], q.vclock.value, q.content)
  }

  /** The handler that belongs to a request. */
  function HandlerFor(request: WireRequest): Handler {
    match request
    case Get(bucket, key) => AcceptGetResponse(bucket, key)
    case Put(bucket, key, _, content, _) => ReturnResolvedOrRetry(bucket, key, content)
  }

  /** A round whose reply acknowledges a value under a clock: a GET reply with
      one object and a clock, or the reply to a PUT with one head and a clock. */
  ghost predicate Acknowledges(c: Config, round: Round, vclock: VectorClock, obj: Object) {
    && round.heard.error.NoError?
    && match round.request
       case Get(_, _) => RetrieveGet(c, round.heard) == Retrieved(Reply([obj], Some(vclock)))
       case Put(_, _, _, content, _) =>
         && RetrievePut(c, round.heard).Retrieved?
         && var p := RetrievePut(c, round.heard).message;
            |p.content| == 1 && p.vclock == Some(vclock) && obj == content
  }

  ghost predicate ClockAcknowledged(c: Config, round: Round, vclock: VectorClock) {
    exists o :: Acknowledges(c, round, vclock, o)
  }

  /** The frame that brings no code, where the stale variable held the code expected. */
  predicate Unreadable(round: Round) {
    && round.heard.error.NoError? && round.heard.data == [0, 0, 0, 0]
    && round.heard.stale == if round.request.Get? then GET_RESPONSE else PUT_RESPONSE
  }

  /** A GET reply with this many objects, with or without a clock. */
  ghost predicate Fetched(c: Config, round: Round, atLeast: nat, atMost: nat, clocked: bool) {
    && round.request.Get? && round.heard.error.NoError? && RetrieveGet(c, round.heard).Retrieved?
    && var g := RetrieveGet(c, round.heard).message;
       atLeast <= |g.content| <= atMost && g.vclock.Some? == clocked
  }

  /** Nothing is stored under the key, or the siblings resolve to null. */
  ghost predicate NothingToShow(c: Config, round: Round) {
    && round.request.Get? && round.heard.error.NoError? && RetrieveGet(c, round.heard).Retrieved?
    && var g := RetrieveGet(c, round.heard).message;
       g.content == [] || (|g.content| > 1 && g.vclock.Some? && c.resolve(g.content) == None)
  }

  ghost predicate Garbled(c: Config, round: Round) {
    && round.heard.error.NoError?
    && if round.request.Get? then RetrieveGet(c, round.heard).Unusable? else RetrievePut(c, round.heard).Unusable?
  }

  /** What the application is told about the last round. */
  ghost predicate AnswerFits(c: Config, bucket: Key, key: Key, last: Round, a: Answer) {
    && (forall v :: a.updater == Updater(bucket, key, Some(v)) <==> ClockAcknowledged(c, last, v))
    && (forall v, o :: Acknowledges(c, last, v, o) ==> a == Answer(NoError, Some(o), Updater(bucket, key, Some(v))))
    && (a.updater.Updater? ==> a.updater.bucket == bucket && a.updater.key == key)
    && (a.error.NoError? <==> (exists v :: ClockAcknowledged(c, last, v)) || NothingToShow(c, last))
    && (NothingToShow(c, last) ==> a == Answer(NoError, None, Updater(bucket, key, None)))
    && (!last.heard.error.NoError? ==> a.error == last.heard.error && a.value == None)
    && (Garbled(c, last) ==> a.error == UnparseableResponse && a.value == None)
    && (!last.heard.error.NoError? || Garbled(c, last) ==>
          a.updater == if last.request.Get? then NoUpdater else Updater(bucket, key, None))
    && (last.heard.error.NoError? ==>
          (a.error == MissingVectorClock <==> Fetched(c, last, 1, 1, false))
          && (a.error == MissingVectorClock ==>
                a.value == Some(RetrieveGet(c, last.heard).message.content[0]) && a.updater == Updater(bucket, key, None))
          && (a.error == InappropriateResponseContent <==> a.updater == NoUpdater && !Garbled(c, last))
          && (a.error == InappropriateResponseContent ==> a.value == None && RetrieveGet(c, last.heard).Retrieved?
                                                          && |RetrieveGet(c, last.heard).message.content| > 1
                                                          && RetrieveGet(c, last.heard).message.vclock == None))
  }

  ghost predicate Invariant(c: Config, bucket: Key, key: Key, r: Run) {
    && |r.inFlight| + |r.answers| + (if r.threw then 1 else 0) == 1
    && Alternates(c, bucket, key, r)
    && (forall p :: p in r.inFlight ==> p.handler == HandlerFor(p.request))
    && (r.inFlight == [] ==> r.rounds != [])
    && (r.threw ==> r.rounds != [])
    && (r.rounds != [] ==> (r.threw <==> Unreadable(r.rounds[|r.rounds| - 1])))
    && (r.answers != [] ==> AnswerFits(c, bucket, key, r.rounds[|r.rounds| - 1], r.answers[0]))
  }

  /** One handler call keeps the books: it ends in one request, one answer, or the exception. */
  lemma InvokeKeepsInvariant(c: Config, bucket: Key, key: Key, r: Run, pending: Pending, h: Heard)
    requires Invariant(c, bucket, key, r) && pending in r.inFlight
    ensures Invariant(c, bucket, key, Invoke(c, r, pending, h))
  {
    var r' := Invoke(c, r, pending, h);
    var n := |r.rounds|;
    assert r.inFlight == [pending];
    assert RequestAt(r, n) == pending.request;
    assert forall i :: 0 <= i < n + 1 ==> RequestAt(r', i) == RequestAt(r, i);
    var round := r'.rounds[n];
    HandledWell(c, bucket, key, pending, h);
    if r'.inFlight != [] {
      assert RequestAt(r', n + 1) == r'.inFlight[0].request;
    }
  }

  /** What a handler ends in, by the request it belongs to. */
  lemma HandledWell(c: Config, bucket: Key, key: Key, pending: Pending, h: Heard)
    requires pending.handler == HandlerFor(pending.request)
    requires pending.request.bucket == bucket && pending.request.key == key
    ensures var round := Round(pending.request, h);
            match Handle(c, pending.handler, h)
            case Send(next) =>
              && next.handler == HandlerFor(next.request)
              && if pending.request.Get? then
                   next.request.Put? && next.request.vclock.Some?
                   && next.request == Put(bucket, key, next.request.vclock, next.request.content, true)
                   && Resolves(c, round, next.request.vclock.value, next.request.content)
                 else next.request == Get(bucket, key)
            case Respond(a) => AnswerFits(c, bucket, key, round, a)
            case Throw => true
    ensures Handle(c, pending.handler, h).Throw? <==> Unreadable(Round(pending.request, h))
  {
    var round := Round(pending.request, h);
    ThrowsOnlyOnEmptyFrame(GET_RESPONSE, c.parseGet, h.data, h.stale);
    ThrowsOnlyOnEmptyFrame(PUT_RESPONSE, c.parsePut, h.data, h.stale);
    if h.error.NoError? && pending.request.Get? {
      var g := RetrieveGet(c, h);
      if g.Retrieved? && |g.message.content| == 1 && g.message.vclock.Some? {
        assert g.message == Reply([g.message.content[0]], g.message.vclock);
        assert Acknowledges(c, round, g.message.vclock.value, g.message.content[0]);
      }
    } else if h.error.NoError? {
      var p := RetrievePut(c, h);
      if p.Retrieved? && |p.message.content| == 1 && p.message.vclock.Some? {
        assert Acknowledges(c, round, p.message.vclock.value, pending.request.content);
      }
    }
  }

  lemma {:induction false} RunsKeepInvariant(c: Config, bucket: Key, key: Key, r: Run, events: seq<Event>, r': Run)
    requires Invariant(c, bucket, key, r) && Reaches(c, r, events, r')
    ensures Invariant(c, bucket, key, r')
    decreases |events|
  {
    if events != [] {
      InvokeKeepsInvariant(c, bucket, key, r, events[0].pending, events[0].heard);
      RunsKeepInvariant(c, bucket, key, Invoke(c, r, events[0].pending, events[0].heard), events[1..], r');
    }
  }

  /** In every run, with any number of collisions: requests in flight, answers
      and the exception add up to one, so the application is answered at most
      once and never goes without when traffic stops. The exception is raised on
      exactly the frame that cannot be read. Requests alternate GET, PUT, each
      PUT resolving the reply just before it, and the answer fits the last reply. */
  lemma GetObjectRuns(c: Config, bucket: Key, key: Key, events: seq<Event>, r: Run)
    requires Reaches(c, Start(bucket, key), events, r)
    ensures |r.inFlight| + |r.answers| + (if r.threw then 1 else 0) == 1
    ensures r.threw <==> r.rounds != [] && Unreadable(r.rounds[|r.rounds| - 1])
    ensures Alternates(c, bucket, key, r)
    ensures r.answers != [] ==> r.rounds != [] && AnswerFits(c, bucket, key, r.rounds[|r.rounds| - 1], r.answers[0])
  {
    RunsKeepInvariant(c, bucket, key, Start(bucket, key), events, r);
  }

  /** What is delivered after a resolution is what the resolver made of the
      siblings fetched last, under the clock the server gave the resolved value. */
  lemma DeliveredValueWasResolved(c: Config, bucket: Key, key: Key, events: seq<Event>, r: Run)
    requires Reaches(c, Start(bucket, key), events, r)
    requires r.answers != [] && r.answers[0].error.NoError? && r.answers[0].value.Some?
    ensures r.rounds != []
    ensures r.answers[0].updater.Updater? && r.answers[0].updater.vclock.Some?
    ensures Acknowledges(c, r.rounds[|r.rounds| - 1], r.answers[0].updater.vclock.value, r.answers[0].value.value)
    ensures r.rounds[|r.rounds| - 1].request.Put? ==> ResolvedFromLastGet(c, r, r.answers[0].value.value)
  {
    GetObjectRuns(c, bucket, key, events, r);
    ValueIsAcknowledged(c, bucket, key, r.rounds[|r.rounds| - 1], r.answers[0]);
    if r.rounds[|r.rounds| - 1].request.Put? {
      PutFollowsItsGet(c, bucket, key, r, |r.rounds| - 1);
    }
  }

  /** The last PUT carried the clock of the GET reply before it, and this object, resolved from its siblings. */
  ghost predicate ResolvedFromLastGet(c: Config, r: Run, obj: Object) {
    var n := |r.rounds|;
    && n >= 2 && r.rounds[n - 1].request.Put? && r.rounds[n - 1].request.vclock.Some?
    && Resolves(c, r.rounds[n - 2], r.rounds[n - 1].request.vclock.value, obj)
  }

  lemma PutFollowsItsGet(c: Config, bucket: Key, key: Key, r: Run, i: nat)
    requires Alternates(c, bucket, key, r) && i < |r.rounds| && r.rounds[i].request.Put?
    ensures i >= 1 && r.rounds[i].request.vclock.Some?
    ensures Resolves(c, r.rounds[i - 1], r.rounds[i].request.vclock.value, r.rounds[i].request.content)
  {
    assert RequestAt(r, i) == r.rounds[i].request;
  }

  lemma ValueIsAcknowledged(c: Config, bucket: Key, key: Key, last: Round, a: Answer)
    requires AnswerFits(c, bucket, key, last, a) && a.error.NoError? && a.value.Some?
    ensures a.updater.Updater? && a.updater.vclock.Some?
    ensures Acknowledges(c, last, a.updater.vclock.value, a.value.value)
  {
    var v :| ClockAcknowledged(c, last, v);
    var o :| Acknowledges(c, last, v, o);
  }

  /** A readable PUT reply that does not show one head under a clock. */
  ghost predicate Collides(c: Config, h: Heard) {
    && h.error.NoError? && RetrievePut(c, h).Retrieved?
    && (|RetrievePut(c, h).message.content| != 1 || RetrievePut(c, h).message.vclock == None)
  }

  lemma {:induction false} ReachesAppend(c: Config, r: Run, events: seq<Event>, r': Run, e: Event)
    requires Reaches(c, r, events, r') && e.pending in r'.inFlight && !r'.threw
    ensures Reaches(c, r, events + [e], Invoke(c, r', e.pending, e.heard))
    decreases |events|
  {
    var after := Invoke(c, r', e.pending, e.heard);
    if events == [] {
      assert [] + [e] == [e] && [e][1..] == [];
      assert Reaches(c, after, [], after);
    } else {
      ReachesAppend(c, Invoke(c, r, events[0].pending, events[0].heard), events[1..], r', e);
      assert (events + [e])[1..] == events[1..] + [e];
    }
  }

  /** There is no bound on the rounds: a server whose replies keep colliding
      keeps the exchange going for any number of them, with nothing answered. */
  lemma {:induction false} CollisionsAreUnbounded(c: Config, bucket: Key, key: Key, siblings: Heard, collision: Heard,
                                                  vclock: VectorClock, obj: Object, n: nat)
    returns (events: seq<Event>, r: Run)
    requires Resolves(c, Round(Get(bucket, key), siblings), vclock, obj) && Collides(c, collision)
    ensures Reaches(c, Start(bucket, key), events, r)
    ensures |r.rounds| == 2 * n && r.answers == [] && !r.threw
    ensures r.inFlight == [Pending(Get(bucket, key), AcceptGetResponse(bucket, key))]
  {
    if n == 0 {
      events, r := [], Start(bucket, key);
    } else {
      var before, q := CollisionsAreUnbounded(c, bucket, key, siblings, collision, vclock, obj, n - 1);
      var get := Event(q.inFlight[0], siblings);
      var q' := Invoke(c, q, get.pending, siblings);
      ReachesAppend(c, Start(bucket, key), before, q, get);
      var put := Event(q'.inFlight[0], collision);
      ReachesAppend(c, Start(bucket, key), before + [get], q', put);
      events, r := before + [get] + [put], Invoke(c, q', put.pending, collision);
    }
  }

  // ----- Writing back -----

  /** Applying an updater to a new value. */
  function PutWithVclock(u: Updater, content: Object): WireRequest
    requires u.Updater?
  {
    Put(u.bucket, u.key, u.vclock, content, false)
  }

  /** A value written back through the updater is sent as it is, under the key
      that was fetched and without asking for it in return; and it descends from
      exactly the reply that acknowledged the delivered value, or from nothing
      when there was none. */
  lemma UpdateDescendsFromDelivered(c: Config, bucket: Key, key: Key, events: seq<Event>, r: Run, content: Object)
    requires Reaches(c, Start(bucket, key), events, r)
    requires r.answers != [] && r.answers[0].updater.Updater?
    ensures r.rounds != []
    ensures var put := PutWithVclock(r.answers[0].updater, content);
            && put == Put(bucket, key, put.vclock, content, false)
            && (forall v :: put.vclock == Some(v) <==> ClockAcknowledged(c, r.rounds[|r.rounds| - 1], v))
  {
    GetObjectRuns(c, bucket, key, events, r);
    var u := r.answers[0].updater;
    forall v
      ensures u.vclock == Some(v) <==> u == Updater(bucket, key, Some(v))
    {}
  }

  /** accept_put_response and accept_delete_response: None when decoding throws. */
  function AcceptPutResponse(c: Config, h: Heard): Option<ErrorCode> {
    if h.error.NoError? then
      match RetrievePut(c, h)
      case OutOfRange => None
      case Retrieved(_) => Some(NoError)
      case Unusable => Some(UnparseableResponse)
    else Some(h.error)
  }

  function AcceptDeleteResponse(h: Heard): ErrorCode {
    if h.error.NoError? then
      if VerifyCode(DELETE_RESPONSE, |h.data|, h.data, h.stale) then NoError else UnparseableResponse
    else h.error
  }

  /** A server's package confirms a write exactly when it is a PUT response that
      parses, and a deletion exactly when it is a DELETE response. */
  lemma ConfirmedByPackage(c: Config, p: WirePackage, stale: Byte)
    requires p.Fits()
    ensures AcceptPutResponse(c, Heard(NoError, p.Wire(), stale))
            == Some(if p.code == PUT_RESPONSE && c.parsePut(p.body).Some? then NoError else UnparseableResponse)
    ensures AcceptDeleteResponse(Heard(NoError, p.Wire(), stale)).NoError? <==> p.code == DELETE_RESPONSE
  {
    RetrievesWhatWasSent(p, PUT_RESPONSE, c.parsePut, stale);
    PackageReadsBack(p, stale);
  }

  /** The application is told of an error as it is. Without one it is told of
      success exactly when the data is a PUT response that parses, or a DELETE
      response, and otherwise that the response is no use. Only the frame without
      a code differs, by the stale byte: it makes a write throw, and confirms a
      deletion. */
  lemma WritesAreAnswered(c: Config, h: Heard)
    ensures !h.error.NoError? ==> AcceptPutResponse(c, h) == Some(h.error) && AcceptDeleteResponse(h) == h.error
    ensures h.error.NoError? ==>
              AcceptPutResponse(c, h) == if IsPackage(PUT_RESPONSE, c.parsePut, h.data) then Some(NoError)
                                         else if h.data == [0, 0, 0, 0] && h.stale == PUT_RESPONSE then None
                                         else Some(UnparseableResponse)
    ensures h.error.NoError? ==>
              AcceptDeleteResponse(h) == if IsCoded(DELETE_RESPONSE, h.data)
                                            || (h.data == [0, 0, 0, 0] && h.stale == DELETE_RESPONSE)
                                         then NoError else UnparseableResponse
  {
    RetrievedIffPackage(PUT_RESPONSE, c.parsePut, h.data, h.stale);
    ThrowsOnlyOnEmptyFrame(PUT_RESPONSE, c.parsePut, h.data, h.stale);
    VerifiedIffPackage(DELETE_RESPONSE, h.data, h.stale);
  }
}
