/** Writing back and deleting: one wire request each, whose handler answers the
    application and ends it. */
module SingleRequests {
  import opened Bytes
  import opened Framing
  import opened Options
  import T = TimedRequest
  import G = GetObject
  import E = EndToEnd

  /** What the k-th call of the handler of a write tells the application; None when decoding throws. */
  function WriteAnswer(c: G.Config, q: T.Request, k: nat, stale: Byte): Option<ErrorCode>
    requires k < |q.stream.calls|
  {
    G.AcceptPutResponse(c, G.Heard(q.stream.calls[k].error, q.stream.calls[k].data, stale))
  }

  function DeleteAnswer(q: T.Request, k: nat, stale: Byte): ErrorCode
    requires k < |q.stream.calls|
  {
    G.AcceptDeleteResponse(G.Heard(q.stream.calls[k].error, q.stream.calls[k].data, stale))
  }

  /** The transport's last word in a run, and the first complete frame of the bytes it brought. */
  function LastError(events: seq<T.Event>): ErrorCode {
    var said := T.Responses(events);
    if said == [] then NoError else said[|said| - 1].error
  }

  function FirstFrame(events: seq<T.Event>): Bytes {
    var frames := Frames(Received(T.Responses(events)));
    if frames == [] then [] else frames[0]
  }

  /** In any run of a write, however its reply is chunked and whatever fails or
      races: once over, the application has been told of a timeout, of the error
      the transport ended it with, or, by the first complete frame of the reply,
      of success exactly when that is a PUT response that parses. What it is told
      after that can only be a timeout. */
  lemma WriteIsAnswered(c: G.Config, events: seq<T.Event>, q: T.Request, stale: Byte)
    requires T.Reaches(E.ALWAYS, T.Dispatched(T.CREATED), events, q)
    ensures |q.stream.calls| == if q.armed then 0 else if T.AnsweredTwice(q) then 2 else 1
    ensures !q.armed && q.dropped == 1 ==> WriteAnswer(c, q, 0, stale) == Some(ResponseTimeout)
    ensures !q.armed && q.dropped == 0 ==>
              WriteAnswer(c, q, 0, stale)
              == if !LastError(events).NoError? then Some(LastError(events))
                 else if IsPackage(PUT_RESPONSE, c.parsePut, FirstFrame(events)) then Some(NoError)
                 else if FirstFrame(events) == [0, 0, 0, 0] && stale == PUT_RESPONSE then None
                 else Some(UnparseableResponse)
    ensures |q.stream.calls| == 2 ==> WriteAnswer(c, q, 1, stale) == Some(ResponseTimeout)
  {
    T.HandlerHearsFirstFrame(E.ALWAYS, events, q);
    if !q.armed {
      G.WritesAreAnswered(c, G.Heard(q.stream.calls[0].error, q.stream.calls[0].data, stale));
    }
  }

  /** So for a deletion, which a DELETE response confirms, whatever its body. */
  lemma DeletionIsAnswered(c: G.Config, events: seq<T.Event>, q: T.Request, stale: Byte)
    requires T.Reaches(E.ALWAYS, T.Dispatched(T.CREATED), events, q)
    ensures !q.armed && q.dropped == 1 ==> q.stream.calls != [] && DeleteAnswer(q, 0, stale) == ResponseTimeout
    ensures !q.armed && q.dropped == 0 ==>
              && q.stream.calls != []
              && DeleteAnswer(q, 0, stale)
                 == if !LastError(events).NoError? then LastError(events)
                    else if IsCoded(DELETE_RESPONSE, FirstFrame(events))
                            || (FirstFrame(events) == [0, 0, 0, 0] && stale == DELETE_RESPONSE) then NoError
                    else UnparseableResponse
    ensures |q.stream.calls| == 2 ==> DeleteAnswer(q, 1, stale) == ResponseTimeout
  {
    T.HandlerHearsFirstFrame(E.ALWAYS, events, q);
    if !q.armed {
      G.WritesAreAnswered(c, G.Heard(q.stream.calls[0].error, q.stream.calls[0].data, stale));
    }
  }
}
