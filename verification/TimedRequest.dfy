/** A wire request that gives up after a time of silence: responses from the
    transport race completions of a deadline timer. */
module TimedRequest {
  import opened Bytes
  import opened Framing

  /** How an asynchronous wait ends. A wait that has expired is queued as such and can no longer be cancelled. */
  datatype Completion = Expired | Aborted

  /** A deadline timer: whether a wait is outstanding, and the completions
      queued for the io_service, in order. */
  datatype Timer = Timer(waiting: bool, queue: seq<Completion>) {
    function Cancel(): Timer {
      if waiting then Timer(false, queue + [Aborted]) else this
    }

    /** expires_from_now, then async_wait. */
    function Rearm(): Timer {
      Cancel().(waiting := true)
    }

    predicate HasExpired() {
      Expired in queue
    }
  }

  /** A request, with what it has heard, what it has called, and what became of
      its option to terminate: exercised with a dirty bit, or dropped. */
  datatype Request = Request(
    stream: Stream,
    heard: seq<Input>,
    armed: bool,
    succeeded: bool,
    timedOut: bool,
    exercised: seq<bool>,
    dropped: nat,
    timer: Timer)

  const CREATED := Request(EMPTY_STREAM, [], false, false, false, [], 0, Timer(false, []))

  /** The buffering handler's answer to an input. */
  predicate Finishes(accepts: Call -> bool, stream: Stream, input: Input) {
    var calls := Streamed(stream, input).calls;
    |calls| > |stream.calls| && accepts(calls[|calls| - 1])
  }

  datatype Event =
    | Response(error: ErrorCode, data: Bytes)  // the transport calls on_response
    | Expire                                   // the outstanding wait runs out and is queued
    | RunCompletion                            // the io_service calls on_timeout for the oldest completion

  predicate MayDispatch(q: Request) {
    !q.armed && !q.succeeded && !q.timedOut
  }

  function Dispatched(q: Request): Request
    requires MayDispatch(q)
  {
    q.(armed := true, timer := q.timer.Rearm())
  }

  /** The source's assertions are guards. */
  predicate Enabled(q: Request, e: Event) {
    match e
    case Response(_, _) => !q.succeeded && q.armed
    case Expire => q.timer.waiting
    case RunCompletion => q.timer.queue != [] && !q.timedOut
  }

  function Responded(accepts: Call -> bool, q: Request, input: Input): Request {
    var timer := q.timer.Cancel();
    var heard, stream := q.heard + [input], Streamed(q.stream, input);
    if q.timedOut then
      q.(armed := false, exercised := q.exercised + [true], timer := timer)
    else if !input.error.NoError? then
      q.(stream := stream, heard := heard, armed := false, exercised := q.exercised + [true], timer := timer)
    else if Finishes(accepts, q.stream, input) then
      q.(stream := stream, heard := heard, armed := false, succeeded := true,
         exercised := q.exercised + [false], timer := timer)
    else
      q.(stream := stream, heard := heard, timer := timer.Rearm())
  }

  function CompletionRun(q: Request): Request
    requires q.timer.queue != [] && !q.timedOut
  {
    var timer := q.timer.(queue := q.timer.queue[1..]);
    if q.timer.queue[0].Expired? then
      var input := Input(ResponseTimeout, []);
      q.(stream := Streamed(q.stream, input), heard := q.heard + [input], timedOut := true,
         armed := false, dropped := q.dropped + (if q.armed then 1 else 0), timer := timer)
    else
      q.(timer := timer)
  }

  function Step(accepts: Call -> bool, q: Request, e: Event): Request
    requires Enabled(q, e)
  {
    match e
    case Response(error, data) => Responded(accepts, q, Input(error, data))
    case Expire => q.(timer := Timer(false, q.timer.queue + [Expired]))
    case RunCompletion => CompletionRun(q)
  }

  class RequestWithTimeout {
    const callback: BufferingHandler
    var terminateRequest: bool
    var succeeded: bool
    var timedOut: bool
    var timeout: Timer
    var exercised: seq<bool>
    ghost var dropped: nat
    ghost var heard: seq<Input>

    constructor (h: BufferingHandler)
      requires h.Abstract() == EMPTY_STREAM
      ensures callback == h && Abstract() == CREATED
    {
      callback := h;
      terminateRequest, succeeded, timedOut := false, false, false;
      timeout, exercised, dropped, heard := Timer(false, []), [], 0, [];
    }

    ghost function Abstract(): Request
      reads this, callback
    {
      Request(callback.Abstract(), heard, terminateRequest, succeeded, timedOut, exercised, dropped, timeout)
    }

    method DispatchVia()
      requires !terminateRequest && !succeeded && !timedOut
      modifies this
      ensures Abstract() == Dispatched(old(Abstract()))
    {
      terminateRequest := true;
      timeout := timeout.Rearm();
    }

    method OnResponse(error: ErrorCode, bytesReceived: nat, rawData: Bytes)
      requires !succeeded && terminateRequest
      modifies this, callback
      ensures Abstract() == Responded(callback.consumeCompleteMessage, old(Abstract()), Input(error, rawData))
    {
      timeout := timeout.Cancel();
      var errorCondition := timedOut || !error.NoError?;
      if !errorCondition {
        var finished := callback.HandleStreamingRequests(NoError, bytesReceived, rawData);
        heard := heard + [Input(error, rawData)];
        if finished {
          Exercise(false);
          succeeded := true;
          terminateRequest := false;
        } else {
          timeout := timeout.Rearm();
        }
      } else {
        Exercise(true);
        if !timedOut {
          var _ := callback.HandleStreamingRequests(error, 0, rawData);
          heard := heard + [Input(error, rawData)];
        }
        terminateRequest := false;
      }
    }

    method OnTimeout()
      requires timeout.queue != [] && !timedOut
      modifies this, callback
      ensures Abstract() == CompletionRun(old(Abstract()))
    {
      var completion := timeout.queue[0];
      timeout := timeout.(queue := timeout.queue[1..]);
      timedOut := completion.Expired?;
      if timedOut {
        var _ := callback.HandleStreamingRequests(ResponseTimeout, 0, []);
        heard := heard + [Input(ResponseTimeout, [])];
        dropped := dropped + if terminateRequest then 1 else 0;
        terminateRequest := false;
      }
    }

    method Exercise(connectionIsDirty: bool)
      modifies this`exercised
      ensures exercised == old(exercised) + [connectionIsDirty]
    {
      exercised := exercised + [connectionIsDirty];
    }
  }

  // ----- Runs -----

  /** A run: each event enabled where it happens. */
  ghost predicate Reaches(accepts: Call -> bool, q: Request, events: seq<Event>, q': Request)
    decreases |events|
  {
    if events == [] then q' == q
    else Enabled(q, events[0]) && Reaches(accepts, Step(accepts, q, events[0]), events[1..], q')
  }

  /** A run in which no response is handled while an expired wait is queued. */
  ghost predicate ReachesPromptly(accepts: Call -> bool, q: Request, events: seq<Event>, q': Request)
    decreases |events|
  {
    if events == [] then q' == q
    else
      && Enabled(q, events[0]) && (events[0].Response? ==> !q.timer.HasExpired())
      && ReachesPromptly(accepts, Step(accepts, q, events[0]), events[1..], q')
  }

  /** A call after which the application has its answer. */
  predicate Concludes(accepts: Call -> bool, call: Call) {
    call.error.NoError? ==> accepts(call)
  }

  /** The number of answers the application has been given. */
  function Outcomes(accepts: Call -> bool, calls: seq<Call>): nat {
    if calls == [] then 0 else (if Concludes(accepts, calls[0]) then 1 else 0) + Outcomes(accepts, calls[1..])
  }

  lemma {:induction false} OutcomesAppend(accepts: Call -> bool, calls: seq<Call>, call: Call)
    ensures Outcomes(accepts, calls + [call]) == Outcomes(accepts, calls) + if Concludes(accepts, call) then 1 else 0
  {
    if calls == [] {
      assert calls + [call] == [call] && [call][1..] == [];
    } else {
      OutcomesAppend(accepts, calls[1..], call);
      assert (calls + [call])[1..] == calls[1..] + [call];
    }
  }

  predicate AllAborted(queue: seq<Completion>) {
    forall i :: 0 <= i < |queue| ==> queue[i].Aborted?
  }

  /** Dispatched and unfinished, with a live wait: still outstanding, or expired and next to conclude. */
  ghost predicate Active(accepts: Call -> bool, q: Request) {
    && q.armed && !q.succeeded && !q.timedOut
    && q.exercised == [] && q.dropped == 0
    && Outcomes(accepts, q.stream.calls) == 0
    && if q.timer.waiting then AllAborted(q.timer.queue)
       else q.timer.queue != [] && q.timer.queue[|q.timer.queue| - 1].Expired?
            && forall i :: 0 <= i < |q.timer.queue| - 1 ==> q.timer.queue[i].Aborted?
  }

  /** Finished, in exactly one of three ways. */
  ghost predicate Done(accepts: Call -> bool, q: Request) {
    && !q.armed && !q.timer.waiting
    && Outcomes(accepts, q.stream.calls) == 1
    && q.stream.calls != []
    && var last := q.stream.calls[|q.stream.calls| - 1];
       || (q.succeeded && !q.timedOut && last.error.NoError? && accepts(last)
           && q.exercised == [false] && q.dropped == 0 && AllAborted(q.timer.queue))
       || (!q.succeeded && !q.timedOut && !last.error.NoError?
           && q.exercised == [true] && q.dropped == 0 && AllAborted(q.timer.queue))
       || (!q.succeeded && q.timedOut && last.error.ResponseTimeout?
           && q.exercised == [] && q.dropped == 1 && q.timer.queue == [])
  }

  ghost predicate Consistent(accepts: Call -> bool, q: Request) {
    (Active(accepts, q) || Done(accepts, q)) && q.stream == Fed(q.heard)
  }

  lemma FedAppend(inputs: seq<Input>, input: Input)
    ensures Fed(inputs + [input]) == Streamed(Fed(inputs), input)
  {
    assert (inputs + [input])[..|inputs|] == inputs;
  }

  /** An input answers the application when it is an error or finishes the handler. */
  lemma StreamedOutcomes(accepts: Call -> bool, s: Stream, input: Input)
    ensures Outcomes(accepts, Streamed(s, input).calls)
            == Outcomes(accepts, s.calls) + if !input.error.NoError? || Finishes(accepts, s, input) then 1 else 0
  {
    var s' := Streamed(s, input);
    if s'.calls != s.calls {
      OutcomesAppend(accepts, s.calls, s'.calls[|s.calls|]);
    }
  }

  /** Cancelling a live wait leaves only aborted completions queued. */
  lemma CancelAborts(t: Timer)
    requires t.waiting && AllAborted(t.queue)
    ensures t.Cancel() == Timer(false, t.queue + [Aborted]) && AllAborted(t.Cancel().queue)
  {
  }

  lemma FailureFinishes(accepts: Call -> bool, q: Request, input: Input)
    requires Active(accepts, q) && q.timer.waiting && !input.error.NoError?
    ensures Done(accepts, Responded(accepts, q, input))
  {
    CancelAborts(q.timer);
    StreamedOutcomes(accepts, q.stream, input);
  }

  lemma ChunkContinuesOrFinishes(accepts: Call -> bool, q: Request, input: Input)
    requires Active(accepts, q) && q.timer.waiting && input.error.NoError?
    ensures var q' := Responded(accepts, q, input);
            if Finishes(accepts, q.stream, input) then Done(accepts, q') else Active(accepts, q')
  {
    CancelAborts(q.timer);
    StreamedOutcomes(accepts, q.stream, input);
  }

  lemma ResponseKeepsConsistent(accepts: Call -> bool, q: Request, input: Input)
    requires Active(accepts, q) && q.stream == Fed(q.heard) && !q.timer.HasExpired()
    ensures Consistent(accepts, Responded(accepts, q, input))
  {
    FedAppend(q.heard, input);
    assert q.timer.waiting;
    if input.error.NoError? {
      ChunkContinuesOrFinishes(accepts, q, input);
    } else {
      FailureFinishes(accepts, q, input);
    }
  }

  lemma TimeoutFinishes(accepts: Call -> bool, q: Request)
    requires Active(accepts, q) && Enabled(q, RunCompletion) && q.timer.queue[0].Expired?
    ensures Done(accepts, CompletionRun(q))
  {
    var q' := CompletionRun(q);
    StreamedOutcomes(accepts, q.stream, Input(ResponseTimeout, []));
    assert q'.stream.calls[|q.stream.calls|] == Call(ResponseTimeout, 0, []);
    assert !q'.succeeded && q'.dropped == 1 && q'.timer.queue == [];
  }

  lemma AbortedChangesNothing(accepts: Call -> bool, q: Request)
    requires Consistent(accepts, q) && Enabled(q, RunCompletion) && q.timer.queue[0].Aborted?
    ensures Consistent(accepts, CompletionRun(q))
  {
    var q' := CompletionRun(q);
    assert q' == q.(timer := q.timer.(queue := q.timer.queue[1..]));
  }

  lemma CompletionKeepsConsistent(accepts: Call -> bool, q: Request)
    requires Consistent(accepts, q) && Enabled(q, RunCompletion)
    ensures Consistent(accepts, CompletionRun(q))
  {
    if q.timer.queue[0].Expired? {
      FedAppend(q.heard, Input(ResponseTimeout, []));
      TimeoutFinishes(accepts, q);
    } else {
      AbortedChangesNothing(accepts, q);
    }
  }

  /** A response handled while an expired wait is queued leaves that wait queued. */
  lemma LateResponseIsInconsistent(accepts: Call -> bool, q: Request, input: Input)
    requires Consistent(accepts, q) && q.armed && q.timer.HasExpired()
    ensures !Consistent(accepts, Responded(accepts, q, input))
  {
    var q' := Responded(accepts, q, input);
    var i :| 0 <= i < |q.timer.queue| && q.timer.queue[i].Expired?;
    assert q.timer.Cancel() == q.timer;
    assert q'.timer.queue == q.timer.queue && q'.timer.queue[i].Expired?;
    assert !AllAborted(q'.timer.queue);
    assert !q'.timedOut;
  }

  /** A step keeps a request active, or finishes it once and for good, exactly
      when it is not a response handled while an expired wait is queued. */
  lemma StepKeepsConsistent(accepts: Call -> bool, q: Request, e: Event)
    requires Consistent(accepts, q) && Enabled(q, e)
    ensures Consistent(accepts, Step(accepts, q, e)) <==> (e.Response? ==> !q.timer.HasExpired())
  {
    match e
    case Response(error, data) =>
      if q.timer.HasExpired() {
        LateResponseIsInconsistent(accepts, q, Input(error, data));
      } else {
        ResponseKeepsConsistent(accepts, q, Input(error, data));
      }
    case Expire =>
    case RunCompletion => CompletionKeepsConsistent(accepts, q);
  }

  lemma {:induction false} PromptRunsStayConsistent(accepts: Call -> bool, q: Request, events: seq<Event>, q': Request)
    requires Consistent(accepts, q) && ReachesPromptly(accepts, q, events, q')
    ensures Consistent(accepts, q')
    decreases |events|
  {
    if events != [] {
      StepKeepsConsistent(accepts, q, events[0]);
      PromptRunsStayConsistent(accepts, Step(accepts, q, events[0]), events[1..], q');
    }
  }

  /** Every state along a run is consistent. */
  ghost predicate ConsistentThroughout(accepts: Call -> bool, q: Request, events: seq<Event>)
    decreases |events|
  {
    && Consistent(accepts, q)
    && (events != [] && Enabled(q, events[0]) ==>
          ConsistentThroughout(accepts, Step(accepts, q, events[0]), events[1..]))
  }

  /** The prompt runs are exactly the runs that keep a request consistent throughout. */
  lemma {:induction false} PromptIffConsistentThroughout(accepts: Call -> bool, q: Request, events: seq<Event>, q': Request)
    requires Consistent(accepts, q) && Reaches(accepts, q, events, q')
    ensures ReachesPromptly(accepts, q, events, q') <==> ConsistentThroughout(accepts, q, events)
    decreases |events|
  {
    if events != [] {
      var next := Step(accepts, q, events[0]);
      StepKeepsConsistent(accepts, q, events[0]);
      if Consistent(accepts, next) {
        PromptIffConsistentThroughout(accepts, next, events[1..], q');
      }
    }
  }

  /** In every state a prompt run reaches there is at most one final outcome;
      the option is exercised at most once, clean exactly when the callback
      accepted, and dropped unexercised exactly on a timeout; a live wait exists
      exactly while the request is unfinished; and the timer's assertion holds
      whenever a completion is there to run. */
  lemma PromptRunsConcludeOnce(accepts: Call -> bool, events: seq<Event>, q: Request)
    requires ReachesPromptly(accepts, Dispatched(CREATED), events, q)
    ensures Outcomes(accepts, q.stream.calls) == if q.armed then 0 else 1
    ensures |q.exercised| + q.dropped == if q.armed then 0 else 1
    ensures q.exercised == [false] <==> q.succeeded
    ensures q.dropped == 1 <==> q.timedOut
    ensures q.succeeded ==> Emitted(q.stream.calls) != [] && !q.timedOut
    ensures q.armed <==> q.timer.waiting || q.timer.HasExpired()
    ensures q.timer.queue != [] ==> !q.timedOut
  {
    PromptRunsStayConsistent(accepts, Dispatched(CREATED), events, q);
  }

  // ----- Every run, prompt or not -----

  /** What holds even where responses come late: the option is used once, and
      an answer is followed by at most a timeout. */
  ghost predicate Sound(accepts: Call -> bool, q: Request) {
    && q.stream == Fed(q.heard)
    && |q.exercised| + q.dropped == (if q.armed then 0 else 1)
    && (q.succeeded <==> q.exercised == [false])
    && (q.dropped == 1 ==> q.timedOut)
    && (q.armed ==> !q.timedOut && Outcomes(accepts, q.stream.calls) == 0 && (q.timer.waiting || q.timer.HasExpired()))
    && (!q.armed ==> q.stream.calls != [] && Outcomes(accepts, q.stream.calls) == if AnsweredTwice(q) then 2 else 1)
    && (q.timedOut ==> q.stream.calls[|q.stream.calls| - 1] == Call(ResponseTimeout, 0, [])
                       && q.heard != [] && q.heard[|q.heard| - 1] == Input(ResponseTimeout, []))
    && (!q.armed ==> EndedAsTold(q))
  }

  /** All it has heard but its own timeout, which comes last. */
  function FromTransport(q: Request): seq<Input> {
    if q.timedOut && q.heard != [] then q.heard[..|q.heard| - 1] else q.heard
  }

  /** What a request that is over ended with: its timeout, or the last thing the transport said. */
  function EndingError(q: Request): ErrorCode {
    var said := FromTransport(q);
    if q.dropped == 1 || said == [] then ResponseTimeout else said[|said| - 1].error
  }

  /** The call that answered the application first had just that error. */
  predicate EndedAsTold(q: Request) {
    var k := |q.stream.calls| - if AnsweredTwice(q) then 2 else 1;
    && k >= 0 && q.stream.calls[k].error == EndingError(q)
    && (q.dropped == 0 ==> FromTransport(q) != [])
  }

  /** Timed out after its option had been exercised. */
  predicate AnsweredTwice(q: Request) {
    q.timedOut && q.dropped == 0
  }

  /** What the transport says is heard as it is said, and ends a request as it is. */
  lemma ResponseIsTold(accepts: Call -> bool, q: Request, input: Input)
    requires Sound(accepts, q) && q.armed
    ensures var q' := Responded(accepts, q, input);
            FromTransport(q') == FromTransport(q) + [input] && !q'.timedOut && (!q'.armed ==> EndedAsTold(q'))
  {
    var q' := Responded(accepts, q, input);
    assert q'.heard == q.heard + [input] && q'.dropped == q.dropped == 0;
    assert q'.heard[|q'.heard| - 1] == input;
  }

  lemma ResponseKeepsSound(accepts: Call -> bool, q: Request, input: Input)
    requires Sound(accepts, q) && q.armed
    ensures Sound(accepts, Responded(accepts, q, input))
  {
    assert q.exercised == [];
    assert [true] != [false] by { assert [true][0] != [false][0]; }
    ResponseIsTold(accepts, q, input);
    FedAppend(q.heard, input);
    StreamedOutcomes(accepts, q.stream, input);
  }

  lemma TimeoutIsTold(accepts: Call -> bool, q: Request)
    requires Sound(accepts, q) && Enabled(q, RunCompletion) && q.timer.queue[0].Expired?
    ensures EndedAsTold(CompletionRun(q))
  {
    var q' := CompletionRun(q);
    assert q'.heard[..|q'.heard| - 1] == q.heard;
    assert q'.stream.calls == q.stream.calls + [Call(ResponseTimeout, 0, [])];
    assert FromTransport(q') == q.heard == FromTransport(q);
  }

  /** Of the timer only matters that an unfinished request has a live wait. */
  lemma SoundButForTimer(accepts: Call -> bool, q: Request, timer: Timer)
    requires Sound(accepts, q) && (q.armed ==> timer.waiting || timer.HasExpired())
    ensures Sound(accepts, q.(timer := timer))
  {
    var q' := q.(timer := timer);
    assert FromTransport(q') == FromTransport(q) && EndingError(q') == EndingError(q);
    assert AnsweredTwice(q') == AnsweredTwice(q) && q'.stream == q.stream && q'.heard == q.heard;
    assert EndedAsTold(q') == EndedAsTold(q);
  }

  lemma AbortedKeepsSound(accepts: Call -> bool, q: Request)
    requires Sound(accepts, q) && Enabled(q, RunCompletion) && q.timer.queue[0].Aborted?
    ensures Sound(accepts, CompletionRun(q))
  {
    var q' := CompletionRun(q);
    assert q.timer.queue == [q.timer.queue[0]] + q.timer.queue[1..];
    assert q.timer.HasExpired() ==> q'.timer.HasExpired();
    SoundButForTimer(accepts, q, q'.timer);
  }

  lemma TimeoutKeepsSound(accepts: Call -> bool, q: Request)
    requires Sound(accepts, q) && Enabled(q, RunCompletion) && q.timer.queue[0].Expired?
    ensures Sound(accepts, CompletionRun(q))
  {
    var q', input := CompletionRun(q), Input(ResponseTimeout, []);
    FedAppend(q.heard, input);
    StreamedOutcomes(accepts, q.stream, input);
    TimeoutIsTold(accepts, q);
    assert q'.exercised == q.exercised && q'.succeeded == q.succeeded && !q'.armed;
    assert q'.stream.calls == q.stream.calls + [Call(ResponseTimeout, 0, [])];
  }

  lemma CompletionKeepsSound(accepts: Call -> bool, q: Request)
    requires Sound(accepts, q) && Enabled(q, RunCompletion)
    ensures Sound(accepts, CompletionRun(q))
  {
    if q.timer.queue[0].Expired? {
      TimeoutKeepsSound(accepts, q);
    } else {
      AbortedKeepsSound(accepts, q);
    }
  }

  lemma ExpireKeepsSound(accepts: Call -> bool, q: Request)
    requires Sound(accepts, q) && Enabled(q, Expire)
    ensures Sound(accepts, Step(accepts, q, Expire))
  {
    var timer := Timer(false, q.timer.queue + [Expired]);
    assert timer.queue[|q.timer.queue|] == Expired;
    SoundButForTimer(accepts, q, timer);
  }

  lemma StepKeepsSound(accepts: Call -> bool, q: Request, e: Event)
    requires Sound(accepts, q) && Enabled(q, e)
    ensures Sound(accepts, Step(accepts, q, e))
  {
    match e
    case Response(error, data) => ResponseKeepsSound(accepts, q, Input(error, data));
    case Expire => ExpireKeepsSound(accepts, q);
    case RunCompletion => CompletionKeepsSound(accepts, q);
  }

  lemma {:induction false} RunsKeepSound(accepts: Call -> bool, q: Request, events: seq<Event>, q': Request)
    requires Sound(accepts, q) && Reaches(accepts, q, events, q')
    ensures Sound(accepts, q')
    decreases |events|
  {
    if events != [] {
      StepKeepsSound(accepts, q, events[0]);
      RunsKeepSound(accepts, Step(accepts, q, events[0]), events[1..], q');
    }
  }

  lemma DispatchedIsSound(accepts: Call -> bool)
    ensures Sound(accepts, Dispatched(CREATED)) && Consistent(accepts, Dispatched(CREATED))
  {
  }

  /** In every state any run reaches: the option is used exactly once when the
      request is over and not before, clean exactly on acceptance; there is a
      live wait while it is not over; and the application is answered once, or
      twice exactly when a timeout follows an answer. */
  lemma EveryRunUsesItsOptionOnce(accepts: Call -> bool, events: seq<Event>, q: Request)
    requires Reaches(accepts, Dispatched(CREATED), events, q)
    ensures |q.exercised| + q.dropped == if q.armed then 0 else 1
    ensures q.exercised == [false] <==> q.succeeded
    ensures q.dropped == 1 ==> q.timedOut
    ensures q.armed ==> q.timer.waiting || q.timer.HasExpired()
    ensures Outcomes(accepts, q.stream.calls) == if q.armed then 0 else if AnsweredTwice(q) then 2 else 1
  {
    DispatchedIsSound(accepts);
    RunsKeepSound(accepts, Dispatched(CREATED), events, q);
  }

  /** What the transport said in a run. */
  function Responses(events: seq<Event>): seq<Input> {
    if events == [] then [] else Said(events[0]) + Responses(events[1..])
  }

  function Said(e: Event): seq<Input> {
    if e.Response? then [Input(e.error, e.data)] else []
  }

  /** What a timeout adds to what was heard. */
  function TimeoutHeard(q: Request, q': Request): seq<Input> {
    if q'.timedOut && !q.timedOut then [Input(ResponseTimeout, [])] else []
  }

  lemma StepHears(accepts: Call -> bool, q: Request, e: Event)
    requires Enabled(q, e) && (q.armed ==> !q.timedOut)
    ensures var q' := Step(accepts, q, e);
            && q'.heard == (q.heard + Said(e)) + TimeoutHeard(q, q')
            && (q'.armed ==> q.armed && !q'.timedOut) && (q.timedOut ==> q'.timedOut)
            && (e.Response? ==> !q'.timedOut)
  {
  }

  /** A request that is over takes no responses any more. */
  lemma {:induction false} OverTakesNoResponse(accepts: Call -> bool, q: Request, events: seq<Event>, q': Request)
    requires Reaches(accepts, q, events, q') && !q.armed
    ensures Responses(events) == [] && (q.timedOut ==> q'.heard == q.heard)
    decreases |events|
  {
    if events != [] {
      StepHears(accepts, q, events[0]);
      OverTakesNoResponse(accepts, Step(accepts, q, events[0]), events[1..], q');
      assert Step(accepts, q, events[0]).heard == q.heard + TimeoutHeard(q, Step(accepts, q, events[0]));
    }
  }

  /** In any run a request has heard what the transport said, in order, and then perhaps that it timed out. */
  lemma {:induction false} HearsTheTransport(accepts: Call -> bool, q: Request, events: seq<Event>, q': Request)
    requires Reaches(accepts, q, events, q') && (q.armed ==> !q.timedOut)
    ensures q'.heard == (q.heard + Responses(events)) + TimeoutHeard(q, q')
    ensures q.timedOut ==> q'.timedOut
    decreases |events|
  {
    if events != [] {
      var e, next := events[0], Step(accepts, q, events[0]);
      StepHears(accepts, q, e);
      HearsTheTransport(accepts, next, events[1..], q');
      if next.timedOut {
        OverTakesNoResponse(accepts, next, events[1..], q');
      }
      HeardRegroups(q.heard, Said(e), Responses(events[1..]));
    }
  }

  lemma HeardRegroups(heard: seq<Input>, said: seq<Input>, later: seq<Input>)
    ensures (heard + said) + later == heard + (said + later)
    ensures (heard + said) + [] == heard + said
    ensures said + [] == said
  {
  }

  /** Bytes heard, errors and timeouts apart. */
  function ReplyBytes(q: Request): Bytes {
    Received(q.heard)
  }

  /** For a handler that ends the request at its first frame, as all the
      client's handlers do, in any run: it is called once, without error with
      exactly the first complete frame of the bytes received and as soon as that
      is complete, otherwise with the very error of the response that ended it, or
      as its timeout; a second call can only be a timeout. */
  lemma HandlerHearsFirstFrame(accepts: Call -> bool, events: seq<Event>, q: Request)
    requires forall c :: accepts(c)
    requires Reaches(accepts, Dispatched(CREATED), events, q)
    ensures |q.stream.calls| == if q.armed then 0 else if AnsweredTwice(q) then 2 else 1
    ensures |q.stream.calls| == 2 ==> q.stream.calls[1] == Call(ResponseTimeout, 0, [])
    ensures !q.armed && q.stream.calls[0].error.NoError? ==>
              Frames(ReplyBytes(q)) != [] && q.stream.calls[0].data == Frames(ReplyBytes(q))[0]
    ensures q.armed ==> Frames(ReplyBytes(q)) == []
    ensures ReplyBytes(q) == Received(Responses(events))
    ensures !q.armed && q.dropped == 1 ==> q.stream.calls[0].error == ResponseTimeout
    ensures !q.armed && q.dropped == 0 ==>
              Responses(events) != [] && q.stream.calls[0].error == Responses(events)[|Responses(events)| - 1].error
  {
    DispatchedIsSound(accepts);
    RunsKeepSound(accepts, Dispatched(CREATED), events, q);
    HearsWhatWasSaid(accepts, events, q);
    SoundCalls(accepts, q);
    EndsWithTheLastResponse(accepts, q, Responses(events));
  }

  /** What the transport said to a request in a run is what it responded. */
  lemma HearsWhatWasSaid(accepts: Call -> bool, events: seq<Event>, q: Request)
    requires Reaches(accepts, Dispatched(CREATED), events, q)
    ensures FromTransport(q) == Responses(events) && ReplyBytes(q) == Received(Responses(events))
  {
    var said := Responses(events);
    HearsTheTransport(accepts, Dispatched(CREATED), events, q);
    assert CREATED.heard + said == said && said + [] == said;
    assert q.timedOut ==> q.heard[..|q.heard| - 1] == said;
    ReceivedWithoutTimeout(said);
  }

  lemma EndsWithTheLastResponse(accepts: Call -> bool, q: Request, said: seq<Input>)
    requires Sound(accepts, q) && FromTransport(q) == said
    ensures !q.armed && q.dropped == 0 ==> said != [] && EndingError(q) == said[|said| - 1].error
    ensures !q.armed && q.dropped == 1 ==> EndingError(q) == ResponseTimeout
  {
  }

  /** The calls of a handler that ends the request at its first frame. */
  lemma SoundCalls(accepts: Call -> bool, q: Request)
    requires Sound(accepts, q) && forall c :: accepts(c)
    ensures |q.stream.calls| == if q.armed then 0 else if AnsweredTwice(q) then 2 else 1
    ensures |q.stream.calls| == 2 ==> q.stream.calls[1] == Call(ResponseTimeout, 0, [])
    ensures !q.armed && q.stream.calls[0].error.NoError? ==>
              Frames(ReplyBytes(q)) != [] && q.stream.calls[0].data == Frames(ReplyBytes(q))[0]
    ensures q.armed ==> Frames(ReplyBytes(q)) == []
    ensures !q.armed ==> q.stream.calls[0].error == EndingError(q)
  {
    AllConclude(accepts, q.stream.calls);
    if q.armed {
      NoCallNoFrame(q.heard);
      EmittedThenBuffered(q.heard);
    } else if q.stream.calls[0].error.NoError? {
      FirstCallIsFirstFrame(q.heard);
    }
  }

  lemma ReceivedWithoutTimeout(inputs: seq<Input>)
    ensures Received(inputs + [Input(ResponseTimeout, [])]) == Received(inputs) == Received(inputs + [])
  {
    assert (inputs + [Input(ResponseTimeout, [])])[..|inputs|] == inputs;
    assert inputs + [] == inputs;
  }

  lemma FirstCallIsFirstFrame(inputs: seq<Input>)
    requires Fed(inputs).calls != [] && Fed(inputs).calls[0].error.NoError?
    ensures Frames(Received(inputs)) != [] && Fed(inputs).calls[0].data == Frames(Received(inputs))[0]
  {
    FirstEmitted(Fed(inputs).calls);
    EmittedThenBuffered(inputs);
  }

  lemma {:induction false} FirstEmitted(calls: seq<Call>)
    requires calls != [] && calls[0].error.NoError?
    ensures Emitted(calls) != [] && Emitted(calls)[0] == calls[0].data
  {
    if |calls| > 1 {
      FirstEmitted(calls[..|calls| - 1]);
    } else {
      assert calls[..0] == [];
    }
  }

  /** Until a handler is called its buffer holds no complete frame. */
  lemma {:induction false} NoCallNoFrame(inputs: seq<Input>)
    requires Fed(inputs).calls == []
    ensures Frames(Fed(inputs).buffer) == []
  {
    if inputs != [] {
      NoCallNoFrame(inputs[..|inputs| - 1]);
    }
  }

  lemma {:induction false} AllConclude(accepts: Call -> bool, calls: seq<Call>)
    requires forall c :: accepts(c)
    ensures Outcomes(accepts, calls) == |calls|
  {
    if calls != [] {
      AllConclude(accepts, calls[1..]);
    }
  }

  // ----- The wait -----

  /** Every response handled with a wait outstanding turns that wait into an
      aborted completion: the time of silence starts anew with a wait of its own,
      or there is none any more once the request is over. */
  lemma ResponseAbortsTheWait(accepts: Call -> bool, q: Request, e: Event)
    requires Sound(accepts, q) && e.Response? && Enabled(q, e) && q.timer.waiting
    ensures var q' := Step(accepts, q, e);
            && q'.timer.queue == q.timer.queue + [Aborted]
            && (q'.timer.waiting <==> q'.armed)
  {
  }

  /** The waits started, and how each of them is accounted for. */
  function WaitsStarted(accepts: Call -> bool, q: Request, events: seq<Event>): nat
    decreases |events|
  {
    if events == [] || !Enabled(q, events[0]) then 0
    else
      var q' := Step(accepts, q, events[0]);
      (if events[0].Response? && q'.armed then 1 else 0) + WaitsStarted(accepts, q', events[1..])
  }

  function CompletionsRun(events: seq<Event>): nat {
    if events == [] then 0 else (if events[0].RunCompletion? then 1 else 0) + CompletionsRun(events[1..])
  }

  /** Every wait started is still outstanding, or has exactly one completion, queued or run. */
  lemma {:induction false} WaitsAreConserved(accepts: Call -> bool, q: Request, events: seq<Event>, q': Request)
    requires Reaches(accepts, q, events, q') && (q.armed ==> !q.timedOut)
    ensures |q.timer.queue| + (if q.timer.waiting then 1 else 0) + WaitsStarted(accepts, q, events)
            == |q'.timer.queue| + (if q'.timer.waiting then 1 else 0) + CompletionsRun(events)
    decreases |events|
  {
    if events != [] {
      StepHears(accepts, q, events[0]);
      WaitsAreConserved(accepts, Step(accepts, q, events[0]), events[1..], q');
    }
  }

  // ----- What an expired wait in the queue changes -----

  /** From a finished request with nothing but aborted waits queued, nothing further happens to the application. */
  lemma {:induction false} FinishedStaysFinished(accepts: Call -> bool, q: Request, events: seq<Event>, q': Request)
    requires !q.armed && !q.timer.waiting && AllAborted(q.timer.queue)
    requires Reaches(accepts, q, events, q')
    ensures q'.stream == q.stream
    decreases |events|
  {
    if events != [] {
      FinishedStaysFinished(accepts, Step(accepts, q, events[0]), events[1..], q');
    }
  }

  /** The completions behind the first expired one. */
  function BehindExpired(queue: seq<Completion>): seq<Completion> {
    if queue == [] then [] else if queue[0].Expired? then queue[1..] else BehindExpired(queue[1..])
  }

  /** An expired wait that is still queued can run, whatever aborted ones come
      before it, and leaves queued what came after it. */
  lemma {:induction false} ExpiredWillRun(accepts: Call -> bool, q: Request) returns (events: seq<Event>, q': Request)
    requires !q.timedOut && q.timer.HasExpired()
    ensures ReachesPromptly(accepts, q, events, q')
    ensures Outcomes(accepts, q'.stream.calls) == Outcomes(accepts, q.stream.calls) + 1
    ensures q'.timedOut && q'.timer.queue == BehindExpired(q.timer.queue)
    decreases |q.timer.queue|
  {
    var next := CompletionRun(q);
    if q.timer.queue[0].Expired? {
      OutcomesAppend(accepts, q.stream.calls, Call(ResponseTimeout, 0, []));
      events, q' := [RunCompletion], next;
      assert ReachesPromptly(accepts, next, [], q');
    } else {
      var later, q'' := ExpiredWillRun(accepts, next);
      events, q' := [RunCompletion] + later, q'';
      assert events[1..] == later;
    }
  }

  /** A prompt run is a run. */
  lemma {:induction false} PromptRunIsRun(accepts: Call -> bool, q: Request, events: seq<Event>, q': Request)
    requires ReachesPromptly(accepts, q, events, q')
    ensures Reaches(accepts, q, events, q')
    decreases |events|
  {
    if events != [] {
      PromptRunIsRun(accepts, Step(accepts, q, events[0]), events[1..], q');
    }
  }

  /** A run from q to a second answer. */
  ghost predicate SecondAnswer(accepts: Call -> bool, q: Request, events: seq<Event>, q': Request) {
    Reaches(accepts, q, events, q') && Outcomes(accepts, q'.stream.calls) > 1
  }

  /** The wrapper promises one final outcome, and keeps the promise exactly when
      no expired wait is queued as the concluding response arrives: cancel can
      no longer reach such a wait, and on_timeout does not look at succeeded_. */
  lemma SecondAnswerIffExpiredQueued(accepts: Call -> bool, q: Request, e: Event)
    requires Active(accepts, q) && e.Response? && Enabled(q, e)
    requires !Step(accepts, q, e).armed
    ensures (exists events, q' :: SecondAnswer(accepts, Step(accepts, q, e), events, q')) <==> q.timer.HasExpired()
  {
    var done := Step(accepts, q, e);
    var input := Input(e.error, e.data);
    OutcomesAppend(accepts, q.stream.calls, Streamed(q.stream, input).calls[|q.stream.calls|]);
    assert Outcomes(accepts, done.stream.calls) == 1;
    if q.timer.HasExpired() {
      var events, q' := ExpiredWillRun(accepts, done);
      PromptRunIsRun(accepts, done, events, q');
      assert SecondAnswer(accepts, done, events, q');
    } else {
      forall events, q' | Reaches(accepts, done, events, q')
        ensures !SecondAnswer(accepts, done, events, q')
      {
        FinishedStaysFinished(accepts, done, events, q');
      }
    }
  }

  /** Two answers, or a completion left to run into the timer's assertion. */
  ghost predicate Astray(accepts: Call -> bool, q: Request) {
    Outcomes(accepts, q.stream.calls) > 1 || (q.timer.queue != [] && q.timedOut)
  }

  ghost predicate GoesAstray(accepts: Call -> bool, q: Request, events: seq<Event>, q': Request) {
    ReachesPromptly(accepts, q, events, q') && Astray(accepts, q')
  }

  lemma {:induction false} BehindExpiredAppend(queue: seq<Completion>, last: Completion)
    requires Expired in queue
    ensures BehindExpired(queue + [last]) == BehindExpired(queue) + [last]
  {
    assert (queue + [last])[1..] == queue[1..] + [last];
    if queue[0].Aborted? {
      BehindExpiredAppend(queue[1..], last);
    }
  }

  /** A chunk that arrives late and does not end the request re-arms the timer;
      the queued expiry then ends it, and the new wait outlives it. */
  lemma LateChunkGoesAstray(accepts: Call -> bool, q: Request, e: Event) returns (events: seq<Event>, q': Request)
    requires Active(accepts, q) && e.Response? && Enabled(q, e) && q.timer.HasExpired()
    requires Step(accepts, q, e).armed
    ensures GoesAstray(accepts, Step(accepts, q, e), events, q')
  {
    var next := Step(accepts, q, e);
    var expired := Step(accepts, next, Expire);
    BehindExpiredAppend(next.timer.queue, Expired);
    var later, q'' := ExpiredWillRun(accepts, expired);
    events, q' := [Expire] + later, q'';
    assert events[1..] == later;
  }

  lemma ConcludingResponseGoesAstray(accepts: Call -> bool, q: Request, e: Event) returns (events: seq<Event>, q': Request)
    requires Active(accepts, q) && e.Response? && Enabled(q, e) && q.timer.HasExpired()
    requires !Step(accepts, q, e).armed
    ensures GoesAstray(accepts, Step(accepts, q, e), events, q')
  {
    StreamedOutcomes(accepts, q.stream, Input(e.error, e.data));
    events, q' := ExpiredWillRun(accepts, Step(accepts, q, e));
  }

  /** Handling a response, concluding or not, keeps everything promised of
      prompt runs in all that follows exactly when no expired wait is queued. */
  lemma ResponseGoesAstrayIffExpiredQueued(accepts: Call -> bool, q: Request, e: Event)
    requires Active(accepts, q) && q.stream == Fed(q.heard) && e.Response? && Enabled(q, e)
    ensures (exists events, q' :: GoesAstray(accepts, Step(accepts, q, e), events, q')) <==> q.timer.HasExpired()
  {
    if q.timer.HasExpired() {
      if Step(accepts, q, e).armed {
        var events, q' := LateChunkGoesAstray(accepts, q, e);
      } else {
        var events, q' := ConcludingResponseGoesAstray(accepts, q, e);
      }
    } else {
      StepKeepsConsistent(accepts, q, e);
      forall events, q' | ReachesPromptly(accepts, Step(accepts, q, e), events, q')
        ensures !Astray(accepts, q')
      {
        PromptRunsStayConsistent(accepts, Step(accepts, q, e), events, q');
      }
    }
  }

  /** The race is real: a reply that arrives just after the wait has expired. */
  lemma ExpiredReplyAnswersTwice(reply: Bytes)
    requires IsFrame(reply)
    ensures var accepts := (c: Call) => true;
            exists events, q :: SecondAnswer(accepts, Dispatched(CREATED), events, q)
  {
    var accepts := (c: Call) => true;
    var q0 := Dispatched(CREATED);
    var q1 := Step(accepts, q0, Expire);
    var e := Response(NoError, reply);
    FrontFrame(reply, []);
    assert reply + [] == reply;
    assert Active(accepts, q1) && Finishes(accepts, q1.stream, Input(NoError, reply));
    SecondAnswerIffExpiredQueued(accepts, q1, e);
    var events, q :| SecondAnswer(accepts, Step(accepts, q1, e), events, q);
    var all := [Expire, e] + events;
    assert all[1..] == [e] + events && all[1..][1..] == events;
    assert Reaches(accepts, q1, [e] + events, q);
    assert SecondAnswer(accepts, q0, all, q);
  }

  /** The source says a request can only be sent once; its assertion lets one
      that ended in an error be sent again. */
  lemma FailedRequestMayDispatchAgain(accepts: Call -> bool, q: Request)
    requires Done(accepts, q)
    ensures MayDispatch(q) <==> q.exercised == [true]
  {
  }
}
