/** The single-socket transport: one active request, a FIFO list of pending
    ones, and socket operations whose completions are tagged with the request
    they were started for. Requests are named by their order of delivery. */
module SocketScheduler {
  import opened Bytes
  import opened Options

  type Id = nat

  datatype Kind = Write | Read

  /** An outstanding socket operation. A cancelled one may still complete in
      another way when it had done so before it was cancelled. */
  datatype Op = Op(kind: Kind, recipient: Id, cancelled: bool)

  /** A call of a request's response handler, and the read whose bytes it carries. */
  datatype Callback = Callback(recipient: Id, error: ErrorCode, data: Bytes, via: Option<Op>)

  datatype Pool = Pool(
    requests: seq<Bytes>,       // the payload of every request delivered
    pending: seq<Id>,
    active: Option<Id>,
    shuttingDown: bool,
    exercised: set<Id>,         // the options to terminate that are used up
    dequeues: seq<Id>,          // dequeue tasks posted to the io_service
    ops: seq<Op>,
    activated: seq<Id>,         // every request that was made active, in order
    dequeued: set<Id>,
    callbacks: seq<Callback>)

  const IDLE := Pool([], [], None, false, {}, [], [], [], {}, [])

  function RunNextRequest(p: Pool): Pool {
    if p.pending != [] then
      p.(active := Some(p.pending[0]), pending := p.pending[1..],
         activated := p.activated + [p.pending[0]], ops := p.ops + [Op(Write, p.pending[0], false)])
    else
      p.(active := None)
  }

  /** socket_->cancel() or close(): every outstanding operation may now come back aborted. */
  function CancelSocket(p: Pool): Pool {
    p.(ops := seq(|p.ops|, i requires 0 <= i < |p.ops| => p.ops[i].(cancelled := true)))
  }

  function Deliver(p: Pool, payload: Bytes): Pool
    requires !p.shuttingDown
  {
    var queued := p.(requests := p.requests + [payload], pending := p.pending + [|p.requests|]);
    if p.active.None? then RunNextRequest(queued) else queued
  }

  function WithoutOp(p: Pool, i: nat): Pool
    requires i < |p.ops|
  {
    p.(ops := p.ops[..i] + p.ops[i + 1..])
  }

  function HandleSocketError(p: Pool, error: ErrorCode): Pool
    requires p.active.Some?
  {
    if error.OperationAborted? then
      var reconnected := CancelSocket(p.(active := None));
      if p.shuttingDown then reconnected else RunNextRequest(reconnected)
    else
      p.(callbacks := p.callbacks + [Callback(p.active.value, error, [], None)])
  }

  function OnRead(p: Pool, i: nat, error: ErrorCode, data: Bytes): Pool
    requires i < |p.ops| && p.ops[i].kind.Read?
  {
    var op := p.ops[i];
    var p' := WithoutOp(p, i);
    if p.active == Some(op.recipient) then
      if error.NoError? then
        p'.(ops := p'.ops + [Op(Read, op.recipient, false)],
            callbacks := p'.callbacks + [Callback(p.active.value, error, data, Some(op))])
      else HandleSocketError(p', error)
    else p'
  }

  function OnWrite(p: Pool, i: nat, error: ErrorCode): Pool
    requires i < |p.ops| && p.ops[i].kind.Write?
  {
    var op := p.ops[i];
    var p' := WithoutOp(p, i);
    if p.active == Some(op.recipient) then
      if error.NoError? then p'.(ops := p'.ops + [Op(Read, p.active.value, false)])
      else HandleSocketError(p', error)
    else p'
  }

  /** The option of request r. The active request is recognised by its payload. */
  function Exercise(p: Pool, r: Id, dirty: bool): Pool
    requires r < |p.requests|
    requires r !in p.exercised ==> p.active.Some? && p.active.value < |p.requests|
  {
    if r in p.exercised then p
    else
      var acted :=
        if p.requests[p.active.value] == p.requests[r] then
          CancelSocket(if !dirty && !p.shuttingDown then RunNextRequest(p) else p)
        else p.(dequeues := p.dequeues + [r]);
      acted.(exercised := p.exercised + {r})
  }

  /** Destroying the option exercises it clean. Posting a dequeue task needs a
      shared pointer to it, and by then nothing owns it any more: the drop has
      no meaning unless the option is used up or the active request is taken
      for its own. */
  predicate DropDefined(p: Pool, r: Id)
    requires r < |p.requests|
  {
    r in p.exercised
    || (p.active.Some? && p.active.value < |p.requests| && p.requests[p.active.value] == p.requests[r])
  }

  function Drop(p: Pool, r: Id): Pool
    requires r < |p.requests| && DropDefined(p, r)
  {
    Exercise(p, r, false)
  }

  function Without(ids: seq<Id>, r: Id): seq<Id> {
    if ids == [] then []
    else if ids[0] == r then ids[1..]
    else [ids[0]] + Without(ids[1..], r)
  }

  /** The oldest posted task. Erasing at its queue position is only defined
      while that request is pending. */
  function Dequeue(p: Pool): Pool
    requires p.dequeues != [] && p.dequeues[0] in p.pending
  {
    var r := p.dequeues[0];
    p.(pending := Without(p.pending, r), dequeued := p.dequeued + {r}, dequeues := p.dequeues[1..])
  }

  function ResetPending(ids: seq<Id>): seq<Callback> {
    seq(|ids|, i requires 0 <= i < |ids| => Callback(ids[i], NetworkReset, [], None))
  }

  function BeginShutdown(p: Pool): Pool {
    p.(shuttingDown := true, callbacks := p.callbacks + ResetPending(p.pending))
  }

  class Scheduler {
    var requests: seq<Bytes>
    var pending: seq<Id>
    var active: Option<Id>
    var shuttingDown: bool
    var exercised: set<Id>
    var dequeues: seq<Id>
    var ops: seq<Op>
    ghost var activated: seq<Id>
    ghost var dequeued: set<Id>
    ghost var callbacks: seq<Callback>

    constructor ()
      ensures Abstract() == IDLE
    {
      requests, pending, active, shuttingDown := [], [], None, false;
      exercised, dequeues, ops := {}, [], [];
      activated, dequeued, callbacks := [], {}, [];
    }

    ghost function Abstract(): Pool
      reads this
    {
      Pool(requests, pending, active, shuttingDown, exercised, dequeues, ops, activated, dequeued, callbacks)
    }

    /** None stands for the exception a halted transport throws. */
    method DeliverRequest(payload: Bytes) returns (option: Option<Id>)
      modifies this
      ensures old(shuttingDown) ==> option == None && Abstract() == old(Abstract())
      ensures !old(shuttingDown) ==> option == Some(|old(requests)|) && Abstract() == Deliver(old(Abstract()), payload)
    {
      if shuttingDown {
        return None;
      }
      option := Some(|requests|);
      pending := pending + [|requests|];
      requests := requests + [payload];
      if active.None? {
        RunNext();
      }
    }

    method RunNext()
      modifies this
      ensures Abstract() == RunNextRequest(old(Abstract()))
    {
      if pending != [] {
        active := Some(pending[0]);
        activated := activated + [pending[0]];
        ops := ops + [Op(Write, pending[0], false)];
        pending := pending[1..];
      } else {
        active := None;
      }
    }

    method Cancel()
      modifies this`ops
      ensures Abstract() == CancelSocket(old(Abstract()))
    {
      ops := seq(|ops|, i requires 0 <= i < |ops| reads this => ops[i].(cancelled := true));
    }

    method ReadCompleted(i: nat, error: ErrorCode, data: Bytes)
      requires i < |ops| && ops[i].kind.Read?
      modifies this
      ensures Abstract() == OnRead(old(Abstract()), i, error, data)
    {
      var op := ops[i];
      ops := ops[..i] + ops[i + 1..];
      if active == Some(op.recipient) {
        if error.NoError? {
          ops := ops + [Op(Read, op.recipient, false)];
          callbacks := callbacks + [Callback(active.value, error, data, Some(op))];
        } else {
          SocketFailed(error);
        }
      }
    }

    method WriteCompleted(i: nat, error: ErrorCode)
      requires i < |ops| && ops[i].kind.Write?
      modifies this
      ensures Abstract() == OnWrite(old(Abstract()), i, error)
    {
      var op := ops[i];
      ops := ops[..i] + ops[i + 1..];
      if active == Some(op.recipient) {
        if error.NoError? {
          ops := ops + [Op(Read, active.value, false)];
        } else {
          SocketFailed(error);
        }
      }
    }

    method SocketFailed(error: ErrorCode)
      requires active.Some?
      modifies this
      ensures Abstract() == HandleSocketError(old(Abstract()), error)
    {
      if error.OperationAborted? {
        active := None;
        Cancel();
        if !shuttingDown {
          RunNext();
        }
      } else {
        callbacks := callbacks + [Callback(active.value, error, [], None)];
      }
    }

    method ExerciseOption(r: Id, connectionIsDirty: bool)
      requires r < |requests|
      requires r !in exercised ==> active.Some? && active.value < |requests|
      modifies this
      ensures Abstract() == Exercise(old(Abstract()), r, connectionIsDirty)
    {
      if r !in exercised {
        if requests[active.value] == requests[r] {
          if !connectionIsDirty {
            if !shuttingDown {
              RunNext();
            }
          }
          Cancel();
        } else {
          dequeues := dequeues + [r];
        }
        exercised := exercised + {r};
      }
    }

    method DropOption(r: Id)
      requires r < |requests| && DropDefined(Abstract(), r)
      modifies this
      ensures Abstract() == Drop(old(Abstract()), r)
    {
      ExerciseOption(r, false);
    }

    method DequeueThreadSafely()
      requires dequeues != [] && dequeues[0] in pending
      modifies this
      ensures Abstract() == Dequeue(old(Abstract()))
    {
      var r := dequeues[0];
      dequeues := dequeues[1..];
      pending := Without(pending, r);
      dequeued := dequeued + {r};
    }

    method Shutdown()
      modifies this
      ensures Abstract() == BeginShutdown(old(Abstract()))
    {
      shuttingDown := true;
      callbacks := callbacks + ResetPending(pending);
    }
  }
}
