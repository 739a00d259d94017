# Riak-Cpp and its test framework: a verified model

This project models two things and proves properties of them for every input and every run.

**The Riak client protocol stack.** Bytes from the network are cut into frames (`Framing`). A wire
request waits for its first whole frame while a deadline timer runs (`TimedRequest`). `get_object` sends
GET, resolves siblings, sends PUT and fetches again for as long as the resolved value collides
(`GetObject`). A single socket is shared by one active request and a FIFO of pending ones
(`SocketScheduler`, with what it keeps in `SchedulerSafety` and what it promises in `SchedulerPromises`).
`EndToEnd` puts framing, timeouts and `get_object` together. `TransportContract` puts a timed request on
the scheduler, `TransportRuns` runs the scheduler with all the timed requests it serves, with what their
handlers send from inside their calls, through the shutdown, and `TransportSafety` says what such runs keep.
`SharedSocket` shows that `get_object` over such a socket is `EndToEnd` again, and `ExchangeAlone` that its own
traffic is of the kind `TransportSafety` is about. `SingleRequests` is about writes and deletions.

**Algorithms of the bundled test framework.** Google Mock's maximum bipartite matching
(`BipartiteMatching`, `ElementMatching`), and Google Test's simple regular expressions (`RegexLanguage`,
`SimpleRegex`), wildcard filters (`GlobFilter`), death-test-first shuffling (`Shuffling`, `TestOrder`) and
CDATA output (`CDataSections`).

## How the model is built

- Classes carry the fields the source updates. Their methods are proved against specification functions
  on values, and the properties are lemmas about those functions and about runs of them.
- A run is a sequence of events, each enabled where it happens. Handlers are atomic steps on one
  `io_service` thread, each together with the requests it sends from inside its call. The source's assertions, and operations that are only defined in some states
  (dereferencing the active request, erasing at a queue position), are guards of the events.
- A deadline timer has at most one outstanding wait and a FIFO of queued completions. Cancelling or
  re-arming turns the outstanding wait into an aborted completion. A wait that has already expired is queued
  as such and can no longer be cancelled. A *prompt* run is one in which no response is handled while an
  expired wait of the same request is queued.
- A socket operation comes back aborted only after it was cancelled, and a cancelled one may still come back
  in another way, because it may have completed before.
- `size_t(-1)`, the source's `kUnused`, is -1. `uint32_t` lengths wrap around explicitly. A `const char*` is
  the string before its terminator. Requests of the scheduler are named by their order of delivery, which
  stands for the identity of the shared pointer.
- Protobuf bodies are bytes; the parsers and the application's resolver are parameters. The byte `stale` is
  what the uninitialised code variable holds when a frame has no code byte.

## Where the code does not do what is said of it

- `riak/transport.hxx:12-15` promises no callback after a request's option has been exercised. For the active
  request the scheduler keeps this exactly when the exercise is clean and it is not shutting down, or the request
  has no operation outstanding (`ExercisedActiveHearsAgain`). For a pending one it keeps it exactly when it is
  shutting down already (`ExercisedPendingHearsAgain`). The ways in which the timed request ends an active request
  keep it, except exactly while shutting down: after an accepted reply, or a timeout with an operation outstanding
  (`TransportContract.ResponseEndsForGood`, `ActiveTimeoutEndsForGood`).
- So `riak/request_with_timeout.cxx:44` asserts what can fail: while shutting down (`ReplyDuringShutdownFails`),
  and where a request is sent again with the payload of one that is still active or whose option is unused
  (`RetryFails`). Without such a payload it fails in no other way (`CallbacksMeetTheAssertion`).
- A timeout destroys the option (`riak/request_with_timeout.cxx:81`), whose destructor exercises it clean
  (`riak/transports/single_serial_socket/scheduler.hxx:86-88`). Where the active payload differs, that asks for a
  shared pointer to an object nothing owns any more (`scheduler.cxx:230`). So a timeout of a pending request is
  not defined; of an unfinished one it is exactly while it is active (`TimeoutDefinedWhileActive`). Timed requests
  post dequeue tasks in answer to a shutdown only, and those are always defined (`TasksArePostedByResets`).
- The destructor waits for no request to be active (`scheduler.cxx:58-59`). Once the active one was told of an
  error that cannot come about (`ShutdownDrains`), and nothing notifies the condition it waits on.
- Exercising an option dereferences the active request (`scheduler.cxx:222`), which can be none while an option
  is unused (`UnusedOptionWithoutActive`, `ExerciseDefinedWhileActive`).
- A socket error that is not an abort, of a read or of a write, answered by the dirty exercise the timed request
  answers it with, stops the queue for good, short of an unused option with an equal payload
  (`SocketErrorStallsQueue`, `TwinsBreakTheStall`).
- A clean hand-over cancels the write it has just started for the next request
  (`HandOverCanLoseSuccessor`). With nothing else pending that is the one the ending request's own handler has
  just sent, as `get_object` sends its PUT (`SuccessorStartsCancelled`).
- The active request is recognised by its payload, so a request's option ends another with an equal payload
  (`CleanExerciseEndsActive`, `PendingExerciseMisses`).
- The TODO at `riak/transports/single_serial_socket/scheduler.cxx:210` asks whether the request can have
  become active. It can (`PostedDequeueCanBeActive`), and a task is defined exactly when it has not
  (`TaskDefinedUnlessActivated`).
- `riak/request_with_timeout.cxx:31` says a request is sent only once; its assertion admits a second
  dispatch after an error (`FailedRequestMayDispatchAgain`).
- A response that races an expired wait answers the application twice, or, when it is a chunk that does not end
  the request, leaves a wait that outlives it and runs into the assertion at `riak/request_with_timeout.cxx:75`.
  Exactly the runs without such a response keep one outcome and one wait (`PromptIffConsistentThroughout`,
  `SecondAnswerIffExpiredQueued`, `ResponseGoesAstrayIffExpiredQueued`).
- A frame of length 0 can make decoding throw (`ThrowsOnlyOnEmptyFrame`), and then `get_object` answers nothing. By the same stale byte it can confirm a
  deletion that no DELETE response confirmed (`DeletionIsAnswered`).
- `FullMatch` matches a prefix only, for patterns that end in an escaped `$` (`FullMatchIsWhole`).

## Model

| member | source | states |
|---|---|---|
| ElementMatching.MatchMatrix.SetEdge | ext/gmock-1.7.0/include/gmock/gmock-matchers.h:3026-3045 | setting a slot of the flat matrix adds or removes exactly that edge of the graph, no other |
| ElementMatching.MatchMatrix.SpaceIndexInjective | ext/gmock-1.7.0/include/gmock/gmock-matchers.h:3043-3045 | no two coordinates share a slot |
| ElementMatching.MatchMatrix.NextGraph | ext/gmock-1.7.0/src/gmock-matchers.cc:359-371 | adds one to the matrix read as a binary number; false exactly when every bit was set, and then all are cleared |
| ElementMatching.MaxBipartiteMatchState.TryAugment | ext/gmock-1.7.0/src/gmock-matchers.cc:259-285 | terminates by the unseen right nodes; failure changes nothing and leaves the seen nodes closed under alternating reachability; success is an augmentation that touches no seen and no dead node, mutual reference being broken only at the start's former partner |
| BipartiteMatching.LinkBehindAugmentation | ext/gmock-1.7.0/src/gmock-matchers.cc:277-281 | linking behind a successful recursive search repairs the reference that search left broken |
| BipartiteMatching.AugmentedFromTheTop | ext/gmock-1.7.0/src/gmock-matchers.cc:176-181 | a top-level success restores mutual reference, makes exactly the searched left node newly matched, and one more right node, and unmatches nobody |
| BipartiteMatching.AugmentedKeepsDead | ext/gmock-1.7.0/src/gmock-matchers.cc:210-221 | later augmentations leave every dead right node dead, which is why one search a node is enough |
| BipartiteMatching.FailedSearchIsDead | ext/gmock-1.7.0/src/gmock-matchers.cc:220-221 | the nodes a failed search has seen are dead |
| BipartiteMatching.DeadIsCover | ext/gmock-1.7.0/src/gmock-matchers.cc:210-221 | with every unmatched left node's neighbours dead, the dead nodes and the left nodes matched elsewhere cover every edge |
| BipartiteMatching.CoverIsSmall | ext/gmock-1.7.0/src/gmock-matchers.cc:210-221 | that cover has no more nodes than the matching has edges |
| BipartiteMatching.MatchingBelowCover | ext/gmock-1.7.0/src/gmock-matchers.cc:206-238 | no matching has more edges than a vertex cover has nodes |
| ElementMatching.MaxBipartiteMatchState.Compute | ext/gmock-1.7.0/src/gmock-matchers.cc:207-238 | returns the edges of a matching, each once and in order; some vertex cover has exactly as many nodes, and no matching of the graph is larger |
| ElementMatching.FindMaxBipartiteMatching | ext/gmock-1.7.0/src/gmock-matchers.cc:307-310 | for every matrix the pairs are a matching of the graph, each listed once, and no matching of the graph is larger |
| ElementMatching.FindPairing | ext/gmock-1.7.0/src/gmock-matchers.cc:328-357 | true exactly when an injective assignment of elements covers every matcher |
| ElementMatching.VerifyAllElementsAndMatchersAreMatched | ext/gmock-1.7.0/src/gmock-matchers.cc:443-495 | true exactly when no row and no column of the matrix is empty |
| ElementMatching.PrefilterSoundWhenSquare | ext/gmock-1.7.0/src/gmock-matchers.cc:438-495 | on square matrices the prefilter rejects nothing FindPairing accepts |
| ElementMatching.PrefilterTooStrictOffSquare | ext/gmock-1.7.0/src/gmock-matchers.cc:438-495 | a matrix off the square that the prefilter rejects and FindPairing accepts |
| ElementMatching.MatchAndExplain | ext/gmock-1.7.0/include/gmock/gmock-matchers.h:3144-3161 | UnorderedElementsAre accepts exactly when there are as many elements as matchers and they can be paired off |
| Framing.OnlyFramePrefix | riak/message.cxx:17-48 | a buffer has at most one prefix that is a complete frame, and its end is what is found; none is found exactly when there is none |
| Framing.FrontFrame | riak/message.cxx:27-48 | a frame in front of any bytes is found, and is the first of the canonical decomposition |
| Framing.FramesMonotone | riak/message.cxx:27-48 | more input never retracts a complete frame |
| Framing.BufferingHandler.HandleStreamingRequests | riak/message.cxx:51-74 | one call moves at most one frame from the buffer to the handler, passes errors on with no data, and answers what the handler answered |
| Framing.NothingLost | riak/message.cxx:29-74 | for every chunking, with errors in between, emitted frames followed by the buffer equal all input received |
| Framing.EmittedArePrefix | riak/message.cxx:29-74 | the emitted frames are a prefix of the canonical decomposition of the concatenated bytes |
| Framing.CallsWellFormed | riak/message.hxx:15-24 | a handler called without error gets one whole frame and its size, and with an error no data |
| Framing.ErrorsPassedOn | riak/message.cxx:71-73 | the errors a handler is called with are the errors of the inputs, each as it is, in order, with none left out or made up |
| Bytes.EncodingsCompare | riak/message.cxx:33-34 | lengths travel most significant byte first: encodings compare as byte strings as their numbers do |
| Framing.EmittedCount | riak/message.cxx:51-74 | after n chunks the number emitted is the minimum over j of C(j) + (n - j) |
| Framing.WirePackage.ToString | riak/message.cxx:189-199 | appends the wrapped length, the code and the body |
| Framing.PackageReadsBack | riak/message.cxx:102-122 | a package reads back as its own code and body exactly when 1 + body fits 32 bits, and is rejected otherwise |
| Framing.ThrowsOnlyOnEmptyFrame | riak/message.cxx:126-141 | decoding throws exactly on the frame of length 0 with the expected code left in the uninitialised variable |
| Framing.RetrievesWhatWasSent | riak/message.cxx:125-141 | a fitting package yields its parsed body under its own code and nothing under another |
| Framing.RetrievedIffPackage | riak/message.cxx:102-141 | from any input whatever a message is retrieved exactly when the input is a package of that code whose body parses |
| Framing.VerifiedIffPackage | riak/message.cxx:182-186 | a code is verified exactly on a package of that code, and on the empty frame when the stale byte is that code |
| Framing.NoEncodingPrefixesAnother | riak/message.cxx:189-199 | no encoding is a proper prefix of another |
| Framing.PackagesRoundTrip | riak/message.cxx:29-141 | packages sent back to back and chunked in any way come out in order, the i-th frame decoding to the i-th code and body |
| Framing.EnoughCallsDeliverAll | riak/message.cxx:51-74 | once all bytes are in, as many further calls as packages hand over every one |
| TimedRequest.RequestWithTimeout.DispatchVia | riak/request_with_timeout.cxx:29-39 | arms the option and the timer |
| TimedRequest.RequestWithTimeout.OnResponse | riak/request_with_timeout.cxx:42-70 | the whole new state after a response: accepted, continued with a re-armed timer, or failed |
| TimedRequest.RequestWithTimeout.OnTimeout | riak/request_with_timeout.cxx:73-83 | the whole new state after a timer completion, expired or aborted |
| TimedRequest.EveryRunUsesItsOptionOnce | riak/request_with_timeout.cxx:29-83 | in every state of any run: the option is used exactly once when the request is over and not before, clean exactly on acceptance; a live wait while it is not over; one answer, or two exactly when a timeout follows an answer |
| TimedRequest.StepKeepsSound | riak/request_with_timeout.cxx:42-83 | every event, however late, keeps this |
| TimedRequest.PromptRunsConcludeOnce | riak/request_with_timeout.cxx:29-83 | in every state of a run in which no response is handled while an expired wait is queued: at most one outcome; the option dropped exactly on a timeout; a live wait exactly while unfinished; the timer's assertion holds whenever a completion is due |
| TimedRequest.PromptIffConsistentThroughout | riak/request_with_timeout.cxx:42-83 | any run keeps its request active, or finished once and for good, in every state exactly when no response in it is handled while an expired wait is queued |
| TimedRequest.StepKeepsConsistent | riak/request_with_timeout.cxx:42-83 | an event keeps a request active, or finishes it once and for good, exactly when it is not a response handled while an expired wait is queued |
| TimedRequest.HandlerHearsFirstFrame | riak/client.cxx:204-218 | in any run a whole-response handler is called when its request ends: without error with exactly the first complete frame of the bytes the transport delivered and as soon as that frame is complete; otherwise with the very error of the response that ended it, or as its timeout; a second call can only be a timeout |
| TimedRequest.HearsTheTransport | riak/request_with_timeout.cxx:42-83 | in any run what the callback hears is what the transport said, in order, and then at most one timeout |
| TimedRequest.ResponseAbortsTheWait | riak/request_with_timeout.cxx:47-59 | every response handled with a wait outstanding turns that wait into an aborted completion, and there is another one exactly while the request is unfinished |
| TimedRequest.WaitsAreConserved | riak/request_with_timeout.cxx:36-83 | in any run every wait started is still outstanding, or has exactly one completion, queued or run |
| TimedRequest.SecondAnswerIffExpiredQueued | riak/request_with_timeout.cxx:48-82 | after a concluding response a second answer is reachable exactly when an expired wait was queued |
| TimedRequest.ResponseGoesAstrayIffExpiredQueued | riak/request_with_timeout.cxx:42-83 | after any response, concluding or not, two answers or a completion that fails the timer's assertion are reachable exactly when an expired wait was queued |
| TimedRequest.ExpiredReplyAnswersTwice | riak/request_with_timeout.cxx:48-82 | a run in which a reply and a timeout are both answered |
| TimedRequest.FailedRequestMayDispatchAgain | riak/request_with_timeout.cxx:31-32 | a finished request passes the dispatch assertion exactly when it ended in an error |
| GetObject.InvokeKeepsInvariant | riak/client.cxx:248-393 | one handler call ends in exactly one request, one answer or the exception, and keeps the alternation and the clocks |
| GetObject.HandledWell | riak/client.cxx:262-388 | a GET handler sends only the PUT that resolves its reply, a PUT handler only another GET, each with the handler that belongs to it; any answer fits the reply; it throws exactly on the unreadable frame |
| GetObject.GetObjectRuns | riak/client.cxx:185-393 | in every run requests in flight, answers and the exception add up to one; requests alternate GET, PUT; each PUT carries the clock of the GET reply before it and the resolver's object for that reply; the answer fits the last reply, with its clock exactly when it acknowledges the delivered value |
| GetObject.DeliveredValueWasResolved | riak/client.cxx:324-376 | a value delivered after a resolution is what the resolver made of the siblings fetched last, under the clock of the reply that acknowledged it |
| GetObject.CollisionsAreUnbounded | riak/client.cxx:370-380 | replies that keep colliding keep the exchange going for any number of rounds, with nothing answered |
| GetObject.UpdateDescendsFromDelivered | riak/client.cxx:396-437 | writing back through the updater sends that very value under the fetched key, asking for no head, and carries exactly the clock of the acknowledging reply, or none when there was none |
| GetObject.ConfirmedByPackage | riak/client.cxx:145-168 | a package confirms a deletion exactly when it is a DELETE response, and a write exactly when it is a PUT response that parses |
| GetObject.WritesAreAnswered | riak/client.cxx:454-480 | whatever a handler of a write or a deletion hears: an error is answered as it is, and success exactly when there is none and the data is a package of the right code, for a write one that parses, but for the empty frame by the stale byte |
| SingleRequests.WriteIsAnswered | riak/client.cxx:396-480 | in any run of a write, once it is over: a timeout, the error the transport ended it with, or, by the first complete frame of its reply, success exactly when that is a PUT response that parses; anything further is a timeout |
| SingleRequests.DeletionIsAnswered | riak/client.cxx:111-168 | so for a deletion, which a DELETE response confirms |
| EndToEnd.InFlightCallsOnce | riak/client.cxx:204-218 | in any run a wire request of the client either stays silent or makes its first call and is over |
| EndToEnd.GetObjectEndToEnd | riak/client.cxx:185-451 | in any run, for any chunking, socket errors, timeouts and races over any number of rounds: in flight, answers and the exception add up to one, but for one more timeout answer a request whose expired wait ran after its answer; short of the exception exactly the request in flight is armed; every finished one made its first call once, without error with the first complete frame of its reply, otherwise with the error of the last thing the transport said, or as its timeout |
| EndToEnd.PromptGetObjectAnswersOnce | riak/client.cxx:185-451 | where no response is handled while an expired wait of its request is queued there are no such answers, and the application is answered at most once |
| SocketScheduler.Scheduler.DeliverRequest | riak/transports/single_serial_socket/scheduler.cxx:67-85 | queues the request and runs it when idle, or refuses when shut down |
| SocketScheduler.Scheduler.ReadCompleted | riak/transports/single_serial_socket/scheduler.cxx:88-125 | the whole new state after a read completes |
| SocketScheduler.Scheduler.WriteCompleted | riak/transports/single_serial_socket/scheduler.cxx:128-143 | the whole new state after a write completes |
| SocketScheduler.Scheduler.SocketFailed | riak/transports/single_serial_socket/scheduler.cxx:163-192 | an abort reconnects and runs the next request, another error is reported |
| SocketScheduler.Scheduler.RunNext | riak/transports/single_serial_socket/scheduler.cxx:195-205 | activates the head of the queue and starts its write |
| SocketScheduler.Scheduler.DequeueThreadSafely | riak/transports/single_serial_socket/scheduler.cxx:208-214 | removes the request of the oldest task from its place |
| SocketScheduler.Scheduler.ExerciseOption | riak/transports/single_serial_socket/scheduler.cxx:217-235 | the whole new state after an option is exercised, the active request recognised by payload |
| SocketScheduler.Scheduler.DropOption | riak/transports/single_serial_socket/scheduler.hxx:86-88 | destroying an option exercises it clean, and is defined only where that posts no task |
| SocketScheduler.Scheduler.Shutdown | riak/transports/single_serial_socket/scheduler.cxx:41-51 | reports network_reset to every pending request |
| SchedulerSafety.StepKeepsInvariant | riak/transports/single_serial_socket/scheduler.cxx:67-235 | every event keeps delivery order, the active request the latest, one operation a request, and bytes with their reader |
| SchedulerSafety.QueueIsFair | riak/transports/single_serial_socket/scheduler.cxx:67-205 | in every reachable state the delivered requests less the dequeued ones are the activated then the pending ones in delivery order, none activated twice; unless shutting down, no active request means none pending |
| SchedulerSafety.StepRoutesBytes | riak/transports/single_serial_socket/scheduler.cxx:88-125 | a step gives a request exactly the bytes of its own read completed while it is active, and nothing otherwise |
| SchedulerSafety.SilentHearNothing | riak/transports/single_serial_socket/scheduler.cxx:95-124 | once superseded a request never hears bytes or errors again, whatever stale completions arrive |
| SchedulerSafety.ActiveIsUnderWay | riak/transports/single_serial_socket/scheduler.cxx:103-139 | in every reachable state the active request has an operation outstanding or its handler was told of an error |
| SchedulerSafety.NextReadIsNotAborted | riak/transports/single_serial_socket/scheduler.cxx:95-137 | the operation that follows a completed one of the active request is a read, and is not aborted unless cancelled first, so that the request keeps its place |
| SchedulerPromises.ExercisedActiveHearsAgain | riak/transport.hxx:10-21 | exercising the active request's option makes no callback; a later callback is reachable exactly when the exercise does not hand the socket on and an operation is outstanding |
| SchedulerPromises.ExercisedPendingHearsAgain | riak/transport.hxx:10-21 | exercising a pending request's option makes no callback; a later callback is reachable exactly when the transport is not shutting down yet |
| SchedulerPromises.DirtyExerciseCanMoveOn | riak/transports/single_serial_socket/scheduler.cxx:166-177 | a dirty exercise with an operation outstanding can bring the next request in line to activation, calling nobody |
| SchedulerPromises.DequeuedHearNothing | riak/transports/single_serial_socket/scheduler.cxx:208-214 | a dequeued request never hears anything |
| SchedulerPromises.CleanExerciseEndsActive | riak/transports/single_serial_socket/scheduler.cxx:222-228 | a clean exercise takes the socket from the active request exactly when the payloads are equal |
| SchedulerPromises.PendingExerciseMisses | riak/transports/single_serial_socket/scheduler.cxx:222-233 | a pending request's option posts its dequeue task exactly when the active payload differs; else the request stays queued with its option used up, unless it is next in line and the exercise hands the socket on, when it becomes active |
| SchedulerPromises.StalledForever | riak/transports/single_serial_socket/scheduler.cxx:217-235 | with the active option used up and nothing of it outstanding, no other request is ever activated, unless a request with an equal payload has its option unused then or is delivered later |
| SchedulerPromises.TwinsBreakTheStall | riak/transports/single_serial_socket/scheduler.cxx:217-228 | without new requests it is activated after all exactly when there is such an unused option |
| SchedulerPromises.ShutdownCanFinish | riak/transports/single_serial_socket/scheduler.cxx:53-59 | with nothing pending the destructor's second wait can end exactly when no request is active or the active one has an operation outstanding |
| SchedulerPromises.SocketErrorStallsQueue | riak/transports/single_serial_socket/scheduler.cxx:178-191 | a non-abort error of a read or a write, answered by a dirty exercise, leads to such a stall |
| SchedulerPromises.HandOverCanLoseSuccessor | riak/transports/single_serial_socket/scheduler.cxx:223-228 | after a clean hand-over the successor can lose its place for good without a callback |
| SchedulerPromises.PostedDequeueCanBeActive | riak/transports/single_serial_socket/scheduler.cxx:208-214 | a reachable state in which a dequeue task's request has become active |
| SchedulerPromises.TaskDefinedUnlessActivated | riak/transports/single_serial_socket/scheduler.cxx:208-214 | in every reachable state a posted dequeue task finds its request's queue position valid exactly when the request has not become active meanwhile |
| SchedulerPromises.ExerciseDefinedWhileActive | riak/transports/single_serial_socket/scheduler.cxx:217-222 | where calling an unused option is not defined, in any reachable state, no request is active; short of a shutdown none is pending, and the option's own was active once |
| SchedulerPromises.UnusedOptionWithoutActive | riak/transports/single_serial_socket/scheduler.cxx:222 | a reachable state with an unused option and no active request |
| SchedulerPromises.DropDefinedWhileActive | riak/transports/single_serial_socket/scheduler.hxx:82-88 | where the payloads of live requests differ, destroying an unused option is defined exactly while its request is active |
| TransportContract.ResponseEndsForGood | riak/request_with_timeout.cxx:42-70 | after a completed read, or a failed write, that ends the active timed request a later call of it is reachable exactly when shutting down and the reply was accepted |
| TransportContract.ActiveTimeoutEndsForGood | riak/request_with_timeout.cxx:77-82 | after a timeout of the active request, whose destroyed option counts as clean, exactly when shutting down with an operation outstanding |
| TransportContract.ResetEndsForGood | riak/transports/single_serial_socket/scheduler.cxx:46-51 | a pending request told of the shutdown answers by posting its dequeue task and is never called again |
| TransportContract.TimeoutDefinedWhileActive | riak/request_with_timeout.cxx:77-82 | where the payloads of live requests differ, an unfinished request's timeout is defined exactly while it is active |
| TransportRuns.HandlersHearTheirOwnReads | riak/transports/single_serial_socket/scheduler.cxx:46-125 | in every run of the scheduler with its timed requests, with requests sent from inside calls and through the shutdown, a request has heard exactly what the scheduler told it, bytes and errors, but for its timeout; its bytes are those of its own reads completed while it was active; it was called first with the first complete frame of those, with the error of the last thing it was told, or as its timeout |
| TransportSafety.CallbacksMeetTheAssertion | riak/request_with_timeout.cxx:42-46 | in every such run in which nothing is sent with a live request's payload: a finished request is called back only while shutting down, after an accepted reply or a timeout; what occurs is undefined exactly when it is such a call or the timeout of an unfinished request that is not active |
| TransportSafety.ReplyDuringShutdownFails | riak/transports/single_serial_socket/scheduler.cxx:103-118 | such a run in which it is called back, and the assertion fails |
| TransportSafety.RetryFails | riak/transports/single_serial_socket/scheduler.cxx:222-228 | without that condition a run in which the assertion fails with no shutdown: a failed request is retried with its payload, and the retry times out while pending |
| TransportSafety.TasksArePostedByResets | riak/transports/single_serial_socket/scheduler.cxx:46-54 | in every such run there are no dequeue tasks before the shutdown, and from it on one for each pending request, in order; each is defined when it runs |
| TransportSafety.ShutdownDrains | riak/transports/single_serial_socket/scheduler.cxx:53-59 | those tasks empty the queue and call nobody; then the destructor can end exactly when no request is active or the active one has an operation outstanding |
| TransportSafety.SuccessorStartsCancelled | riak/transports/single_serial_socket/scheduler.cxx:223-228 | when the active request ends well the next in line, possibly just sent by its handler, becomes active with its write cancelled as it starts |
| SharedSocket.GetObjectOverSharedSocket | riak/client.cxx:185-451 | every run of the transport, shared with any other requests and through the shutdown, is a run of the exchange for a get_object sent at any point of it; its requests arrive encoded, distinct and alternating GET and PUT; short of the exception each round heard the first complete frame of the reads for that very request, or the last error the scheduler told it, or its timeout |
| SharedSocket.CodeTellsRequest | riak/message.cxx:148-164 | an encoded GET has code 9 and a PUT code 11, each one less than the code its handler expects |
| ExchangeAlone.ExchangeAloneIsOrderly | riak/client.cxx:185-393 | an exchange with the transport to itself never sends a live request's payload, whatever collides, so that until a shutdown none of its finished requests is called back |
| RegexLanguage.ScanAcceptsGrammar | ext/gmock-1.7.0/gtest/src/gtest-port.cc:257-311 | what the scan accepts are exactly the printed forms of the grammar |
| SimpleRegex.ValidateRegex | ext/gmock-1.7.0/gtest/src/gtest-port.cc:257-311 | accepts exactly the texts of the grammar, and no null |
| RegexLanguage.ValidEscapeIsEscapable | ext/gmock-1.7.0/gtest/src/gtest-port.cc:219-221 | what may stand behind a backslash is the ASCII punctuation, by its four ranges, and eleven letters |
| RegexLanguage.AtomMatchesItsClass | ext/gmock-1.7.0/gtest/src/gtest-port.cc:225-247 | for every atom and every character: `.` stands for all but newline, the class letters for their ranges or the complement, five letters for control characters, and anything else for itself alone |
| SimpleRegex.TextDeterminesPattern | ext/gmock-1.7.0/gtest/src/gtest-port.cc:257-311 | a text has one reading |
| SimpleRegex.MatchRepetitionAndRegexAtHead | ext/gmock-1.7.0/gtest/src/gtest-port.cc:320-342 | true exactly when some allowed number of repetitions is followed by a match of the rest |
| SimpleRegex.MatchRegexAtHead | ext/gmock-1.7.0/gtest/src/gtest-port.cc:347-373 | true exactly when a prefix, all of the string for `$`, is in the language |
| SimpleRegex.MatchRegexAnywhere | ext/gmock-1.7.0/gtest/src/gtest-port.cc:383-396 | true exactly when some substring, respecting `^` and `$`, is in the language |
| SimpleRegex.RE.Init | ext/gmock-1.7.0/gtest/src/gtest-port.cc:417-448 | valid exactly for texts of the grammar, with the text of the anchored pattern for full matches |
| SimpleRegex.RE.WriteFullPattern | ext/gmock-1.7.0/gtest/src/gtest-port.cc:429-447 | copies the text between the anchors it lacks, within the buffer |
| SimpleRegex.RE.FullPatternText | ext/gmock-1.7.0/gtest/src/gtest-port.cc:436-447 | what is written is the text of a valid pattern, left unanchored behind exactly when it ends in an escaped `$` |
| SimpleRegex.RE.FullMatch | ext/gmock-1.7.0/gtest/src/gtest-port.cc:406-408 | decides the anchored pattern, and nothing for an invalid one |
| SimpleRegex.RE.PartialMatch | ext/gmock-1.7.0/gtest/src/gtest-port.cc:412-414 | true exactly when a substring matches |
| SimpleRegex.FullMatchIsWhole | ext/gmock-1.7.0/gtest/src/gtest-port.cc:405-448 | a full match is membership of the whole string, for every string, exactly when the pattern does not end in an escaped `$` |
| GlobFilter.MatcherDecidesWildcards | ext/gmock-1.7.0/fused-src/gmock-gtest-all.cc:1924-1939 | the recursive matcher accepts exactly the wildcard language of the pattern up to its first colon |
| GlobFilter.MatchesFilter | ext/gmock-1.7.0/fused-src/gmock-gtest-all.cc:1941-1960 | true exactly when some colon-separated piece accepts the name |
| Shuffling.Random.Generate | ext/gmock-1.7.0/fused-src/gmock-gtest-all.cc:1775-1789 | the next state of the generator, and it modulo the range |
| Shuffling.StepIsReversible | ext/gmock-1.7.0/fused-src/gmock-gtest-all.cc:1775-1777 | the generator's step is one to one on its states |
| Shuffling.ShuffleRange | ext/gmock-1.7.0/fused-src/gmock-gtest-all.cc:711-729 | Fisher-Yates over the range under the generator's choices, which is left just after them |
| Shuffling.FisherYatesShuffles | ext/gmock-1.7.0/fused-src/gmock-gtest-all.cc:707-729 | whatever is drawn, the range is permuted and the rest stays put |
| Shuffling.FisherYatesReachesAll | ext/gmock-1.7.0/fused-src/gmock-gtest-all.cc:722-728 | every arrangement of the range is the outcome of some choices |
| TestOrder.TestCase.AddTestInfo | ext/gmock-1.7.0/fused-src/gmock-gtest-all.cc:3907-3910 | appends the new test's index |
| TestOrder.TestCase.ShuffleTests | ext/gmock-1.7.0/fused-src/gmock-gtest-all.cc:3947-3949 | Fisher-Yates over all of a test case's tests under the generator's choices |
| TestOrder.TestCase.UnshuffleTests | ext/gmock-1.7.0/fused-src/gmock-gtest-all.cc:3952-3956 | restores the identity, whatever was done before |
| TestOrder.UnitTestImpl.GetTestCase | ext/gmock-1.7.0/fused-src/gmock-gtest-all.cc:5657-5690 | registers each name once, death test cases behind the last one and others at the end; while nothing is shuffled the indices stay the identity with death test cases first |
| TestOrder.RegisterUnshuffled | ext/gmock-1.7.0/fused-src/gmock-gtest-all.cc:5645-5688 | a registration while nothing is shuffled keeps the parts in registration order and the indices the identity, with death test cases first |
| TestOrder.EveryNameIsRegisteredOnce | ext/gmock-1.7.0/fused-src/gmock-gtest-all.cc:5657-5690 | in every run each name asked for is registered and listed exactly once, and until the first shuffle all is where registration put it |
| TestOrder.DeathTestCaseNames | ext/gmock-1.7.0/fused-src/gmock-gtest-all.cc:1639-1642 | a death test case is one whose name ends in "DeathTest" or contains "DeathTest/" |
| TestOrder.UnitTestImpl.ShuffleTests | ext/gmock-1.7.0/fused-src/gmock-gtest-all.cc:6083-6096 | shuffles the death test cases, the others and the tests inside each test case by exactly what the generator draws one after the other, and leaves it there; keeps permutations at both levels with death test cases first |
| TestOrder.EveryArrangementIsAShuffle | ext/gmock-1.7.0/fused-src/gmock-gtest-all.cc:6083-6096 | every order with death test cases first, and of the tests inside each test case, is what some choices make of any other |
| TestOrder.UnitTestImpl.UnshuffleTests | ext/gmock-1.7.0/fused-src/gmock-gtest-all.cc:6100-6107 | restores the identity at both levels, whatever was done before |
| TestOrder.EveryRunPutsDeathTestsFirst | ext/gmock-1.7.0/fused-src/gmock-gtest-all.cc:5657-6107 | in every run of shuffles, unshuffles and registrations, these while nothing is shuffled as the source demands, the indices are permutations at both levels, every death test case runs before every other, and each test case runs once |
| TestOrder.UnshufflingRestoresRegistrationOrder | ext/gmock-1.7.0/fused-src/gmock-gtest-all.cc:6099-6107 | after any run an unshuffle makes the death test cases and then the others run in registration order, and the tests inside each in theirs |
| TestOrder.RegisteringWhileShuffled | ext/gmock-1.7.0/fused-src/gmock-gtest-all.cc:5645-5688 | registering a death test case while shuffled keeps death tests first exactly when there is no other test case or the first of them is in its place |
| CDataSections.OutputXmlCDataSection | ext/gmock-1.7.0/fused-src/gmock-gtest-all.cc:4730-4747 | writes the text in sections with every end mark escaped between two of them |
| CDataSections.FirstCloseIsOurs | ext/gmock-1.7.0/fused-src/gmock-gtest-all.cc:4735-4740 | text without an end mark is ended by the mark written after it, also when it ends in brackets |
| CDataSections.CDataRoundTrip | ext/gmock-1.7.0/fused-src/gmock-gtest-all.cc:4730-4747 | for every string, reading the output back as CDATA sections and escaped text yields the string |

## Left out

- SchedulerPromises.StalledForever: assumes that no request with an equal payload has its option unused, because such an option acts on the stalled request (TwinsBreakTheStall).
- CDataSections.CDataRoundTrip: does not model the end-of-line normalisation of section 2.11 of XML 1.0 or characters outside section 2.2.
- TransportSafety.CallbacksMeetTheAssertion: assumes that nothing is sent with the payload of a live request, without which the assertion does fail (RetryFails).
- EndToEnd.GetObjectEndToEnd: does not say what becomes of the option of the request whose handler threw; the source leaves it unused.
- SharedSocket.GetObjectOverSharedSocket: does not model an exception out of the handler of another request on the same transport.
- ElementMatching.FindPairing: does not model the explanation written to the listener.
- SocketScheduler.Scheduler.DequeueThreadSafely: is defined while the request is pending; erasing at an invalid iterator has no meaning in the source either.
- Scheduler liveness: not claimed; StalledForever shows it does not hold.
- The scheduler's destructor: its waits on condition variables are modelled by what can make their conditions true, not by who wakes them.
- A handler that sends a request while its transport is shutting down: delivery throws, or waits for the lock the destructor holds.
- Thread interleaving below the mutexes: handlers are atomic steps.
- Sockets, resolving and connecting: completions are events, and reconnecting succeeds.
- Protobuf encoding of requests and the access parameters they carry: bodies are opaque.
- Logging, request contexts, error messages and printers: no property beyond their text.
- FilterMatchesTest's split into positive and negative filters: two uses of MatchesFilter.
