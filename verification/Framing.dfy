/** Riak's wire framing: a 32-bit big-endian length, then that many bytes, the
    first of them a message code. Streams of arbitrary chunks are cut back into
    frames, at most one frame a call. */
module Framing {
  import opened Bytes
  import opened Options

  /** How far the first complete response reaches; 0 while there is none. */
  function NextPartialResponse(buffer: Bytes): (end: nat)
    ensures end <= |buffer|
    ensures end != 0 ==> IsFrame(buffer[..end])
  {
    if |buffer| >= 4 then
      var dataLength := Length32(buffer);
      if |buffer| - 4 >= dataLength then
        assert buffer[..4 + dataLength][..4] == buffer[..4];
        4 + dataLength
      else 0
    else 0
  }

  /** A length field and exactly the bytes it announces. */
  predicate IsFrame(f: Bytes) {
    |f| >= 4 && |f| == 4 + Length32(f)
  }

  /** A buffer has at most one prefix that is a frame, and that is the one found. */
  lemma OnlyFramePrefix(buffer: Bytes, k: nat)
    requires k <= |buffer|
    ensures IsFrame(buffer[..k]) <==> k == NextPartialResponse(buffer) && k != 0
  {
    if k >= 4 {
      assert buffer[..k][..4] == buffer[..4];
    }
  }

  /** The canonical decomposition of a byte stream into its complete frames. */
  function Frames(b: Bytes): seq<Bytes>
    decreases |b|
  {
    var end := NextPartialResponse(b);
    if end == 0 then [] else [b[..end]] + Frames(b[end..])
  }

  /** Nothing but the frame at the front of a stream is its first frame. */
  lemma FrontFrame(f: Bytes, rest: Bytes)
    requires IsFrame(f)
    ensures NextPartialResponse(f + rest) == |f|
    ensures (f + rest)[..|f|] == f && (f + rest)[|f|..] == rest
    ensures Frames(f + rest) == [f] + Frames(rest)
  {
    assert (f + rest)[..|f|] == f && (f + rest)[|f|..] == rest;
  }

  lemma Regroup(a: Bytes, b: Bytes, c: Bytes)
    ensures (a + b) + c == a + (b + c)
  {
  }

  lemma FlattenUnfolds(frames: seq<Bytes>, rest: Bytes)
    requires frames != []
    ensures Flatten(frames) + rest == frames[0] + (Flatten(frames[1..]) + rest)
  {
    Regroup(frames[0], Flatten(frames[1..]), rest);
  }

  lemma Reattach(frames: seq<Bytes>, more: seq<Bytes>)
    requires frames != []
    ensures [frames[0]] + (frames[1..] + more) == frames + more
  {
  }

  lemma {:induction false} FramesOfFlattened(frames: seq<Bytes>, rest: Bytes)
    requires forall f :: f in frames ==> IsFrame(f)
    ensures Frames(Flatten(frames) + rest) == frames + Frames(rest)
  {
    if frames == [] {
      assert Flatten(frames) + rest == rest;
    } else {
      FramesOfFlattened(frames[1..], rest);
      FlattenUnfolds(frames, rest);
      FrontFrame(frames[0], Flatten(frames[1..]) + rest);
      Reattach(frames, Frames(rest));
    }
  }

  /** More input never retracts a frame. */
  lemma {:induction false} FramesMonotone(b: Bytes, more: Bytes)
    ensures Frames(b) <= Frames(b + more)
    decreases |b|
  {
    var end := NextPartialResponse(b);
    if end != 0 {
      FramesMonotone(b[end..], more);
      FrontFrame(b[..end], b[end..] + more);
      assert b + more == b[..end] + (b[end..] + more);
    }
  }

  // ----- The buffering handler -----

  /** A call of the whole-message handler. */
  datatype Call = Call(error: ErrorCode, size: nat, data: Bytes)

  /** What a caller hands to the buffering handler. */
  datatype Input = Input(error: ErrorCode, data: Bytes)

  /** The buffer shared by a handler's invocations, and the calls it has made. */
  datatype Stream = Stream(buffer: Bytes, calls: seq<Call>)

  const EMPTY_STREAM := Stream([], [])

  /** One invocation. */
  function Streamed(s: Stream, input: Input): Stream {
    if input.error.NoError? then
      var buffer := s.buffer + input.data;
      var end := NextPartialResponse(buffer);
      if end != 0 then Stream(buffer[end..], s.calls + [Call(NoError, end, buffer[..end])])
      else Stream(buffer, s.calls)
    else
      Stream(s.buffer, s.calls + [Call(input.error, 0, [])])
  }

  function Fed(inputs: seq<Input>): Stream {
    if inputs == [] then EMPTY_STREAM
    else Streamed(Fed(inputs[..|inputs| - 1]), inputs[|inputs| - 1])
  }

  /** make_buffering_handler's result: the bound handler and the buffer it shares. */
  class BufferingHandler {
    const consumeCompleteMessage: Call -> bool
    var buffer: Bytes
    var calls: seq<Call>

    constructor (h: Call -> bool)
      ensures consumeCompleteMessage == h && Abstract() == EMPTY_STREAM
    {
      consumeCompleteMessage := h;
      buffer, calls := [], [];
    }

    ghost function Abstract(): Stream
      reads this
    {
      Stream(buffer, calls)
    }

    /** Answers what the whole-message handler answered, and false when it was not called. */
    method HandleStreamingRequests(error: ErrorCode, bytesReceived: nat, input: Bytes) returns (finished: bool)
      modifies this
      ensures Abstract() == Streamed(old(Abstract()), Input(error, input))
      ensures finished <==> |calls| > |old(calls)| && consumeCompleteMessage(calls[|calls| - 1])
    {
      if error.NoError? {
        buffer := buffer + input;
        var nextResponse := NextPartialResponse(buffer);
        if nextResponse != 0 {
          var oneRequest := buffer[..nextResponse];
          buffer := buffer[nextResponse..];
          finished := Consume(Call(error, |oneRequest|, oneRequest));
        } else {
          finished := false;
        }
      } else {
        finished := Consume(Call(error, 0, []));
      }
    }

    method Consume(call: Call) returns (finished: bool)
      modifies this`calls
      ensures calls == old(calls) + [call] && finished == consumeCompleteMessage(call)
    {
      calls := calls + [call];
      finished := consumeCompleteMessage(call);
    }
  }

  // ----- What any run of it guarantees -----

  /** The payloads of the calls made without error. */
  function Emitted(calls: seq<Call>): seq<Bytes> {
    if calls == [] then []
    else
      var last := calls[|calls| - 1];
      Emitted(calls[..|calls| - 1]) + if last.error.NoError? then [last.data] else []
  }

  /** All bytes of the inputs that were not errors. */
  function Received(inputs: seq<Input>): Bytes {
    if inputs == [] then []
    else
      var last := inputs[|inputs| - 1];
      Received(inputs[..|inputs| - 1]) + Payload(last)
  }

  lemma EmittedAppend(calls: seq<Call>, call: Call)
    ensures Emitted(calls + [call]) == Emitted(calls) + if call.error.NoError? then [call.data] else []
  {
    assert (calls + [call])[..|calls|] == calls;
  }

  /** The bytes an input brings in. */
  function Payload(input: Input): Bytes {
    if input.error.NoError? then input.data else []
  }

  /** Handing the front of the buffer over moves its bytes and drops none. */
  lemma PopConserves(calls: seq<Call>, buffer: Bytes, end: nat)
    requires end <= |buffer|
    ensures Flatten(Emitted(calls + [Call(NoError, end, buffer[..end])])) + buffer[end..]
            == Flatten(Emitted(calls)) + buffer
  {
    EmittedAppend(calls, Call(NoError, end, buffer[..end]));
    FlattenAppend(Emitted(calls), buffer[..end]);
    Regroup(Flatten(Emitted(calls)), buffer[..end], buffer[end..]);
    assert buffer == buffer[..end] + buffer[end..];
  }

  /** One invocation moves bytes from the buffer to the handler and drops none. */
  lemma StreamedConserves(s: Stream, input: Input)
    ensures var s' := Streamed(s, input);
            Flatten(Emitted(s'.calls)) + s'.buffer == (Flatten(Emitted(s.calls)) + s.buffer) + Payload(input)
  {
    if input.error.NoError? {
      Regroup(Flatten(Emitted(s.calls)), s.buffer, input.data);
      var buffer := s.buffer + input.data;
      PopConserves(s.calls, buffer, NextPartialResponse(buffer));
    } else {
      EmittedAppend(s.calls, Call(input.error, 0, []));
      assert Emitted(s.calls) + [] == Emitted(s.calls);
      assert Payload(input) == [];
    }
  }

  /** Emitted frames followed by the buffer are all the input there was. */
  lemma {:induction false} NothingLost(inputs: seq<Input>)
    ensures Flatten(Emitted(Fed(inputs).calls)) + Fed(inputs).buffer == Received(inputs)
    ensures forall f :: f in Emitted(Fed(inputs).calls) ==> IsFrame(f)
  {
    if inputs != [] {
      var before, last := inputs[..|inputs| - 1], inputs[|inputs| - 1];
      NothingLost(before);
      StreamedConserves(Fed(before), last);
      if Fed(inputs).calls != Fed(before).calls {
        EmittedAppend(Fed(before).calls, Fed(inputs).calls[|Fed(before).calls|]);
      }
    }
  }

  /** The frames still buffered are the canonical ones not yet emitted. */
  lemma EmittedThenBuffered(inputs: seq<Input>)
    ensures Frames(Received(inputs)) == Emitted(Fed(inputs).calls) + Frames(Fed(inputs).buffer)
  {
    NothingLost(inputs);
    FramesOfFlattened(Emitted(Fed(inputs).calls), Fed(inputs).buffer);
  }

  /** However the stream is chunked, what is emitted is a prefix of its canonical decomposition. */
  lemma EmittedArePrefix(inputs: seq<Input>)
    ensures Emitted(Fed(inputs).calls) <= Frames(Received(inputs))
  {
    EmittedThenBuffered(inputs);
  }

  /** Every call reports its payload's size, and carries a payload only without error. */
  lemma {:induction false} CallsWellFormed(inputs: seq<Input>)
    ensures forall c :: c in Fed(inputs).calls ==>
                          c.size == |c.data| && if c.error.NoError? then IsFrame(c.data) else c.data == []
  {
    if inputs != [] {
      CallsWellFormed(inputs[..|inputs| - 1]);
    }
  }

  /** The errors among the inputs, and those the handler is called with. */
  function ErrorsIn(inputs: seq<Input>): seq<ErrorCode> {
    if inputs == [] then []
    else
      var last := inputs[|inputs| - 1];
      ErrorsIn(inputs[..|inputs| - 1]) + if last.error.NoError? then [] else [last.error]
  }

  function ErrorsHeard(calls: seq<Call>): seq<ErrorCode> {
    if calls == [] then []
    else
      var last := calls[|calls| - 1];
      ErrorsHeard(calls[..|calls| - 1]) + if last.error.NoError? then [] else [last.error]
  }

  lemma ErrorsHeardAppend(calls: seq<Call>, call: Call)
    ensures ErrorsHeard(calls + [call]) == ErrorsHeard(calls) + if call.error.NoError? then [] else [call.error]
  {
    assert (calls + [call])[..|calls|] == calls;
  }

  /** Errors are passed on, each as it is, in order, and none is made up. */
  lemma {:induction false} ErrorsPassedOn(inputs: seq<Input>)
    ensures ErrorsHeard(Fed(inputs).calls) == ErrorsIn(inputs)
  {
    if inputs != [] {
      var before := inputs[..|inputs| - 1];
      ErrorsPassedOn(before);
      if Fed(inputs).calls != Fed(before).calls {
        ErrorsHeardAppend(Fed(before).calls, Fed(inputs).calls[|Fed(before).calls|]);
      }
    }
  }

  predicate AllChunks(inputs: seq<Input>) {
    forall i :: 0 <= i < |inputs| ==> inputs[i].error.NoError?
  }

  /** The number of complete frames in the first j chunks. */
  function Complete(inputs: seq<Input>, j: nat): nat
    requires j <= |inputs|
  {
    |Frames(Received(inputs[..j]))|
  }

  /** The number of frames handed over so far. */
  function EmittedSoFar(inputs: seq<Input>): nat {
    |Emitted(Fed(inputs).calls)|
  }

  /** One more chunk emits one more frame, unless every complete frame is out already. */
  lemma EmittedStep(inputs: seq<Input>)
    requires inputs != [] && inputs[|inputs| - 1].error.NoError?
    ensures var before := EmittedSoFar(inputs[..|inputs| - 1]);
            && before <= Complete(inputs, |inputs|)
            && EmittedSoFar(inputs) == if Complete(inputs, |inputs|) > before then before + 1 else before
  {
    var before, last := inputs[..|inputs| - 1], inputs[|inputs| - 1];
    assert inputs[..|inputs|] == inputs;
    EmittedThenBuffered(before);
    EmittedThenBuffered(inputs);
    FramesMonotone(Received(before), last.data);
    var s, s' := Fed(before), Fed(inputs);
    if s'.calls != s.calls {
      EmittedAppend(s.calls, s'.calls[|s.calls|]);
    } else {
      assert Frames(s'.buffer) == [];
    }
  }

  ghost predicate Bounds(inputs: seq<Input>, emitted: nat) {
    forall j :: 0 <= j <= |inputs| ==> emitted <= Complete(inputs, j) + (|inputs| - j)
  }

  ghost predicate Attains(inputs: seq<Input>, emitted: nat) {
    exists j :: 0 <= j <= |inputs| && emitted == Complete(inputs, j) + (|inputs| - j)
  }

  lemma CompletePrefix(inputs: seq<Input>, j: nat)
    requires j < |inputs|
    ensures Complete(inputs[..|inputs| - 1], j) == Complete(inputs, j)
  {
    assert inputs[..|inputs| - 1][..j] == inputs[..j];
  }

  lemma BoundsStep(inputs: seq<Input>)
    requires inputs != [] && inputs[|inputs| - 1].error.NoError?
    requires Bounds(inputs[..|inputs| - 1], EmittedSoFar(inputs[..|inputs| - 1]))
    ensures Bounds(inputs, EmittedSoFar(inputs))
  {
    EmittedStep(inputs);
    forall j | 0 <= j < |inputs|
      ensures EmittedSoFar(inputs) <= Complete(inputs, j) + (|inputs| - j)
    {
      CompletePrefix(inputs, j);
    }
  }

  lemma AttainsStep(inputs: seq<Input>)
    requires inputs != [] && inputs[|inputs| - 1].error.NoError?
    requires Attains(inputs[..|inputs| - 1], EmittedSoFar(inputs[..|inputs| - 1]))
    ensures Attains(inputs, EmittedSoFar(inputs))
  {
    EmittedStep(inputs);
    var n, before := |inputs|, inputs[..|inputs| - 1];
    var k :| 0 <= k <= n - 1 && EmittedSoFar(before) == Complete(before, k) + (n - 1 - k);
    CompletePrefix(inputs, k);
    var least := if EmittedSoFar(inputs) == EmittedSoFar(before) then n else k;
    assert EmittedSoFar(inputs) == Complete(inputs, least) + (n - least);
  }

  /** The closed form for at most one frame a call: after n chunks the number
      emitted is the least, over all j, of C(j) + (n - j). */
  lemma {:induction false} EmittedCount(inputs: seq<Input>)
    requires AllChunks(inputs)
    ensures Bounds(inputs, EmittedSoFar(inputs)) && Attains(inputs, EmittedSoFar(inputs))
  {
    if inputs == [] {
      assert EmittedSoFar(inputs) == Complete(inputs, 0) + (|inputs| - 0);
    } else {
      EmittedCount(inputs[..|inputs| - 1]);
      BoundsStep(inputs);
      AttainsStep(inputs);
    }
  }

  // ----- Messages -----

  const GET_REQUEST: Byte := 9
  const GET_RESPONSE: Byte := 10
  const PUT_REQUEST: Byte := 11
  const PUT_RESPONSE: Byte := 12
  const DELETE_RESPONSE: Byte := 14

  /** A message code and the encoded body that goes with it. */
  datatype WirePackage = WirePackage(code: Byte, body: Bytes) {
    /** The bytes on the wire. The length field is a uint32_t and wraps around. */
    function Wire(): (full: Bytes) {
      Encode32((1 + |body|) % TWO_TO_THE_32) + [code] + body
    }

    method ToString() returns (full: Bytes)
      ensures full == Wire()
    {
      var messageLength := (1 + |body|) % TWO_TO_THE_32;
      full := [];
      full := full + Encode32(messageLength);
      full := full + [code];
      full := full + body;
    }

    /** Short enough for its length to fit the length field. */
    predicate Fits() {
      1 + |body| < TWO_TO_THE_32
    }
  }

  /** The message code of an exactly framed input. A frame with length 0 has
      none, and reading it leaves the variable what it was: stale. */
  function ExtractCodeIfValid(bytesAvailable: nat, input: Bytes, stale: Byte): Option<Byte>
    requires bytesAvailable == |input|
  {
    if bytesAvailable >= 4 then
      var dataLength := Length32(input);
      if dataLength == bytesAvailable - 4 then
        Some(if dataLength >= 1 then input[4] else stale)
      else None
    else None
  }

  /** Decoding yields a message, fails, or throws because there is no fifth byte to cut at. */
  datatype Retrieval<+M> = Retrieved(message: M) | Unusable | OutOfRange

  function RetrieveBodyWithCode<M>(expected: Byte, parse: Bytes -> Option<M>,
                                   bytesAvailable: nat, input: Bytes, stale: Byte): Retrieval<M>
    requires bytesAvailable == |input|
  {
    var received := ExtractCodeIfValid(bytesAvailable, input, stale);
    if received == Some(expected) then
      if |input| < 5 then OutOfRange
      else
        match parse(input[5..])
        case Some(m) => Retrieved(m)
        case None => Unusable
    else Unusable
  }

  predicate VerifyCode(expected: Byte, bytesReceived: nat, input: Bytes, stale: Byte)
    requires bytesReceived == |input|
  {
    ExtractCodeIfValid(bytesReceived, input, stale) == Some(expected)
  }

  /** Decoding throws on exactly one input: the frame without a code byte, when
      the stale variable happens to hold the expected code. */
  lemma ThrowsOnlyOnEmptyFrame<M>(expected: Byte, parse: Bytes -> Option<M>, input: Bytes, stale: Byte)
    ensures RetrieveBodyWithCode(expected, parse, |input|, input, stale).OutOfRange?
            <==> input == [0, 0, 0, 0] && stale == expected
  {
    if |input| == 4 && Length32(input) == 0 {
      assert input == [0, 0, 0, 0];
    }
  }

  /** A package reads back as its own code and body exactly when it fits. */
  lemma PackageReadsBack(p: WirePackage, stale: Byte)
    ensures p.Fits() <==> ExtractCodeIfValid(|p.Wire()|, p.Wire(), stale) == Some(p.code)
                          && p.Wire()[5..] == p.body
    ensures !p.Fits() ==> ExtractCodeIfValid(|p.Wire()|, p.Wire(), stale) == None
    ensures p.Fits() <==> IsFrame(p.Wire())
  {
    var w := p.Wire();
    var n := (1 + |p.body|) % TWO_TO_THE_32;
    assert w[..4] == Encode32(n);
    assert Length32(w) == n;
    assert w[4] == p.code && w[5..] == p.body;
  }

  /** A retrieved message was sent under the expected code. */
  lemma RetrievesWhatWasSent<M>(p: WirePackage, expected: Byte, parse: Bytes -> Option<M>, stale: Byte)
    requires p.Fits()
    ensures RetrieveBodyWithCode(expected, parse, |p.Wire()|, p.Wire(), stale)
            == if p.code == expected && parse(p.body).Some? then Retrieved(parse(p.body).value) else Unusable
  {
    PackageReadsBack(p, stale);
  }

  /** A frame with a code is the encoding of a package. */
  lemma FrameIsPackage(input: Bytes)
    requires IsFrame(input) && |input| >= 5
    ensures var p := WirePackage(input[4], input[5..]); p.Fits() && p.Wire() == input
  {
    EncodingOfLength(input);
    assert input == input[..4] + [input[4]] + input[5..];
  }

  /** The encoding of some package with this code whose body parses. */
  ghost predicate IsPackage<M>(code: Byte, parse: Bytes -> Option<M>, data: Bytes) {
    exists p: WirePackage :: p.Fits() && p.code == code && p.Wire() == data && parse(p.body).Some?
  }

  ghost predicate IsCoded(code: Byte, data: Bytes) {
    exists p: WirePackage :: p.Fits() && p.code == code && p.Wire() == data
  }

  /** Whatever the input, a message is retrieved from it exactly when it is such a package. */
  lemma RetrievedIffPackage<M>(expected: Byte, parse: Bytes -> Option<M>, input: Bytes, stale: Byte)
    ensures RetrieveBodyWithCode(expected, parse, |input|, input, stale).Retrieved? <==> IsPackage(expected, parse, input)
  {
    if RetrieveBodyWithCode(expected, parse, |input|, input, stale).Retrieved? {
      FrameIsPackage(input);
      assert WirePackage(input[4], input[5..]).Wire() == input;
    }
    if p: WirePackage :| p.Fits() && p.code == expected && p.Wire() == input && parse(p.body).Some? {
      RetrievesWhatWasSent(p, expected, parse, stale);
    }
  }

  /** The code is verified exactly on a package that has it, and on the frame
      without one when the stale variable happens to hold it. */
  lemma VerifiedIffPackage(expected: Byte, input: Bytes, stale: Byte)
    ensures VerifyCode(expected, |input|, input, stale)
            <==> IsCoded(expected, input) || (input == [0, 0, 0, 0] && stale == expected)
  {
    if VerifyCode(expected, |input|, input, stale) && |input| >= 5 {
      FrameIsPackage(input);
      assert WirePackage(input[4], input[5..]).Wire() == input;
    }
    if |input| == 4 && Length32(input) == 0 {
      assert input == [0, 0, 0, 0];
    }
    if p: WirePackage :| p.Fits() && p.code == expected && p.Wire() == input {
      PackageReadsBack(p, stale);
    }
  }

  /** No encoding is a proper prefix of another: a stream has one reading. */
  lemma NoEncodingPrefixesAnother(p: WirePackage, q: WirePackage)
    requires p.Fits() && q.Fits() && p.Wire() <= q.Wire()
    ensures p == q
  {
    PackageReadsBack(p, 0);
    PackageReadsBack(q, 0);
    assert p.Wire()[..4] == q.Wire()[..4];
    assert Length32(p.Wire()) == Length32(q.Wire());
    assert p.Wire() == q.Wire();
  }

  /** The encodings of the packages, one after the other. */
  function WireOf(packages: seq<WirePackage>): seq<Bytes> {
    seq(|packages|, i requires 0 <= i < |packages| => packages[i].Wire())
  }

  lemma FramesOfPackages(packages: seq<WirePackage>)
    requires forall p :: p in packages ==> p.Fits()
    ensures Frames(Flatten(WireOf(packages))) == WireOf(packages)
  {
    forall i | 0 <= i < |packages|
      ensures IsFrame(WireOf(packages)[i])
    {
      assert packages[i] in packages;
      PackageReadsBack(packages[i], 0);
    }
    FramesOfFlattened(WireOf(packages), []);
    assert Flatten(WireOf(packages)) + [] == Flatten(WireOf(packages));
  }

  /** Packages sent back to back, chunked in any way and interrupted by any
      errors, come out in order, each decoding to its own code and body. */
  lemma PackagesRoundTrip(packages: seq<WirePackage>, inputs: seq<Input>, i: nat, stale: Byte)
    requires forall p :: p in packages ==> p.Fits()
    requires Received(inputs) == Flatten(WireOf(packages))
    requires i < |Emitted(Fed(inputs).calls)|
    ensures i < |packages|
    ensures var frame := Emitted(Fed(inputs).calls)[i];
            && ExtractCodeIfValid(|frame|, frame, stale) == Some(packages[i].code)
            && |frame| >= 5 && frame[5..] == packages[i].body
  {
    EmittedArePrefix(inputs);
    FramesOfPackages(packages);
    assert packages[i] in packages;
    PackageReadsBack(packages[i], stale);
  }

  /** An empty chunk: nothing received, no error. */
  const EMPTY_CHUNK := Input(NoError, [])

  lemma {:induction false} ReceivedWithEmptyChunks(inputs: seq<Input>, calls: nat)
    ensures Received(inputs + seq(calls, _ => EMPTY_CHUNK)) == Received(inputs)
  {
    var more := inputs + seq(calls, _ => EMPTY_CHUNK);
    if calls == 0 {
      assert more == inputs;
    } else {
      ReceivedWithEmptyChunks(inputs, calls - 1);
      assert more[..|more| - 1] == inputs + seq(calls - 1, _ => EMPTY_CHUNK);
    }
  }

  /** Empty chunks complete no frame. */
  lemma CompleteWithEmptyChunks(inputs: seq<Input>, calls: nat, j: nat)
    requires |inputs| <= j <= |inputs| + calls
    ensures Complete(inputs + seq(calls, _ => EMPTY_CHUNK), j) == |Frames(Received(inputs))|
  {
    var all := inputs + seq(calls, _ => EMPTY_CHUNK);
    assert all[..j] == inputs + seq(j - |inputs|, _ => EMPTY_CHUNK);
    ReceivedWithEmptyChunks(inputs, j - |inputs|);
  }

  /** Once all bytes are in, as many further calls as there are packages hand over every one. */
  lemma EnoughCallsDeliverAll(packages: seq<WirePackage>, inputs: seq<Input>, calls: nat)
    requires forall p :: p in packages ==> p.Fits()
    requires AllChunks(inputs) && Received(inputs) == Flatten(WireOf(packages))
    requires calls >= |packages|
    ensures Emitted(Fed(inputs + seq(calls, _ => EMPTY_CHUNK)).calls) == WireOf(packages)
  {
    var all := inputs + seq(calls, _ => EMPTY_CHUNK);
    FramesOfPackages(packages);
    EmittedCount(all);
    var j :| 0 <= j <= |all| && EmittedSoFar(all) == Complete(all, j) + (|all| - j);
    if j >= |inputs| {
      CompleteWithEmptyChunks(inputs, calls, j);
    }
    assert EmittedSoFar(all) >= |packages|;
    EmittedArePrefix(all);
    ReceivedWithEmptyChunks(inputs, calls);
  }
}
