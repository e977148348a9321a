/**
 Commands for the I/O thread: a locked queue, a pipe that wakes the main loop,
 and callers that wait for some of their commands. Each method is one critical
 section or one dispatch; any interleaving of them is a run, before shutdown.
 */
module CommandQueue {

  /** LINK_COMMAND_SET_IO_THREAD and LINK_COMMAND_CNX_UNREF are synchronous. */
  datatype Kind = SetIoThread | SetCondition | Disconnect | CnxUnref

  /** The serial number tells commands apart; it is their place in the order of enqueueing. */
  datatype Command = Command(kind: Kind, serial: nat) {
    predicate IsSync() { kind.SetIoThread? || kind.CnxUnref? }
  }

  class Loop {
    /** Bytes in the wakeup pipe. */
    var pipe: nat
    var queue: seq<Command>
    /** What the input handler took and has still to dispatch. */
    var batch: seq<Command>
    /** A synchronous command that was dispatched and not yet marked complete. */
    var finishing: seq<Command>
    /** The callers, by command, that are still inside link_exec_command. */
    var waiting: set<Command>
    var complete: set<Command>
    var enqueued: seq<Command>
    ghost var dispatched: seq<Command>

    ghost predicate Valid()
      reads this
    {
      && pipe == (if queue == [] then 0 else 1)
      && enqueued == dispatched + batch + queue
      && (forall i :: 0 <= i < |enqueued| ==> enqueued[i].serial == i)
      && |finishing| <= 1 && (forall c :: c in finishing ==> c.IsSync() && c in dispatched && c !in complete)
      && (forall c :: c in complete ==> c in dispatched)
      && (forall c :: c in waiting ==> c.IsSync())
      // a synchronous command's caller has not left unless the command is complete
      && (forall c :: c in enqueued && c.IsSync() && c !in waiting ==> c in complete)
      // and every dispatched one is complete or about to be
      && (forall c :: c in dispatched && c.IsSync() ==> c in complete || c in finishing)
    }

    constructor ()
      ensures Valid() && enqueued == [] && waiting == {}
    {
      pipe, queue, batch, finishing, waiting, complete, enqueued, dispatched := 0, [], [], [], {}, {}, [], [];
    }

    /** link_exec_command from another thread, up to its wait. */
    method Exec(kind: Kind) returns (c: Command)
      requires Valid()
      modifies `pipe, `queue, `waiting, `enqueued
      ensures Valid() && c.kind == kind && c !in old(enqueued) && enqueued == old(enqueued) + [c]
      ensures queue == old(queue) + [c] && pipe == 1
      ensures c in waiting <==> kind.SetIoThread? || kind.CnxUnref?
    {
      c := Command(kind, |enqueued|);
      if queue == [] {
        pipe := pipe + 1;
      }
      queue := queue + [c];
      assert forall i :: 0 <= i < |dispatched| ==> dispatched[i] == enqueued[i];
      enqueued := enqueued + [c];
      waiting := if c.IsSync() then waiting + {c} else waiting - {c};
    }

    /** The wait ends when the command is complete. */
    method Leave(c: Command)
      requires Valid() && c in waiting && c in complete
      modifies `waiting
      ensures Valid() && waiting == old(waiting) - {c}
      ensures c in dispatched
    {
      waiting := waiting - {c};
    }

    /** The locked part of link_mainloop_handle_input: the byte and the whole queue are taken at once. */
    method TakeQueue()
      requires Valid() && pipe > 0 && batch == [] && finishing == []
      modifies `pipe, `queue, `batch
      ensures Valid() && pipe == 0 && queue == [] && batch == old(queue) && batch != []
    {
      pipe := pipe - 1;
      assert dispatched + [] + queue == dispatched + queue + [];
      batch, queue := queue, [];
    }

    /** link_dispatch_command of the next command. */
    method Dispatch() returns (c: Command)
      requires Valid() && batch != [] && finishing == []
      modifies `batch, `finishing, `dispatched
      ensures Valid() && c == old(batch)[0] && batch == old(batch)[1..]
      ensures dispatched == old(dispatched) + [c] && c == enqueued[|old(dispatched)|]
      ensures c.IsSync() ==> c in waiting
    {
      c := batch[0];
      assert enqueued[|dispatched|] == c && c.serial == |dispatched|;
      assert forall i :: 0 <= i < |dispatched| ==> dispatched[i] == enqueued[i];
      assert dispatched + batch + queue == (dispatched + [c]) + batch[1..] + queue;
      batch, dispatched := batch[1..], dispatched + [c];
      if c.IsSync() {
        finishing := [c];
      }
    }

    /** The caller's command structure is marked; the caller cannot have left it yet. */
    method Finish()
      requires Valid() && finishing != []
      modifies `finishing, `complete
      ensures Valid() && finishing == [] && complete == old(complete) + {old(finishing)[0]}
      ensures old(finishing)[0] in waiting
    {
      var c := finishing[0];
      assert c in enqueued;
      complete, finishing := complete + {c}, [];
    }

    /**
     No wakeup is lost: as long as anything is queued the pipe is readable, so
     the main loop goes on until everything was dispatched, in order.
     */
    method RunIoThread()
      requires Valid()
      modifies `pipe, `queue, `batch, `finishing, `dispatched, `complete
      ensures Valid() && queue == [] && pipe == 0
      ensures dispatched == enqueued && enqueued == old(enqueued) && waiting == old(waiting)
      ensures forall c :: c in waiting && c in enqueued ==> c in complete
    {
      while pipe > 0 || batch != [] || finishing != []
        invariant Valid() && enqueued == old(enqueued) && waiting == old(waiting)
        decreases |queue| + |batch|, |queue|, |finishing|
      {
        if finishing != [] {
          Finish();
        } else if batch != [] {
          var c := Dispatch();
        } else {
          TakeQueue();
        }
      }
    }
  }
}
