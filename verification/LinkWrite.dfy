/**
 The output side of a LinkConnection in thread-safe mode: partial writev's, the
 queue of flattened remainders, and the G_IO_OUT condition that empties it.
 Every method is one critical section of the connection lock.
 */
module LinkWrite {
  import opened Cdr
  import opened Common

  datatype Status = Connecting | Connected | Disconnected

  /** LINK_IO_OK, LINK_IO_FATAL_ERROR and LINK_IO_QUEUED_DATA. */
  datatype IoStatus = Ok | Fatal | Queued

  /** What writev(2) can answer. */
  datatype Kernel = Wrote(n: nat) | WouldBlock | Failed

  function Flat(vecs: seq<bytes>): bytes
  {
    if vecs == [] then [] else vecs[0] + Flat(vecs[1..])
  }

  lemma {:induction false} FlatAppend(a: seq<bytes>, b: seq<bytes>)
    ensures Flat(a + b) == Flat(a) + Flat(b)
  {
    if a == [] {
      assert a + b == b;
    } else {
      assert (a + b)[1..] == a[1..] + b;
      FlatAppend(a[1..], b);
    }
  }

  lemma FlatOne(b: bytes)
    ensures Flat([b]) == b
  {
    assert [b][1..] == [];
  }

  lemma FlatCons(v: seq<bytes>)
    requires v != []
    ensures Flat(v) == v[0] + Flat(v[1..])
  {
  }

  lemma NeverStalls(b: bytes)
    ensures !Stalls([b]) && Flat([]) == []
  {
    FlatOne(b);
  }

  lemma FlatHead(v: seq<bytes>, b: bytes)
    requires v != []
    ensures Flat([b] + v[1..]) == b + Flat(v[1..])
  {
    assert ([b] + v[1..])[1..] == v[1..];
  }

  lemma Skip(v: seq<bytes>, left: nat)
    requires v != [] && |v[0]| <= left <= |Flat(v)|
    ensures Flat(v)[left..] == Flat(v[1..])[left - |v[0]|..]
  {
  }

  lemma Cut(v: seq<bytes>, left: nat)
    requires v != [] && left < |v[0]|
    ensures left <= |Flat(v)| && Flat(v)[left..] == v[0][left..] + Flat(v[1..])
  {
  }

  /**
   write_data_T gives up in front of a leading empty iovec, reporting success;
   the bytes behind it are then neither sent nor queued.
   */
  predicate Stalls(vecs: seq<bytes>)
  {
    vecs != [] && vecs[0] == [] && Flat(vecs) != []
  }

  /** The vectors that one system call passes on. */
  function Front(vecs: seq<bytes>, max: nat): (front: seq<bytes>)
    ensures front <= vecs && |front| <= max && (front == vecs || |front| == max)
  {
    if |vecs| < max then vecs else vecs[..max]
  }

  class LinkConnection {
    const nonblocking: bool
    const iovMax: nat
    const maxBuffer: nat
    /** What the system calls will answer; a grant of bytes is cut to what they are given. */
    const kernel: nat -> Kernel
    var calls: nat
    var status: Status
    var writeQueue: seq<bytes>
    var writeQueueBytes: nat
    /** The watch asks for G_IO_OUT. */
    var watchOut: bool
    /** SET_CONDITION commands on their way to the I/O thread; all carry G_IO_OUT. */
    var pending: nat

    /** The connection has just become connected, with the lock dropped before the first flush. */
    var flushDue: bool

    /** The bytes the kernel took, and those of the messages that writev did not refuse. */
    var sent: bytes
    ghost var accepted: bytes
    /** Bytes of partial writes that then blocked: never taken off writeQueueBytes. */
    ghost var forgotten: nat

    ghost predicate Valid()
      reads this
    {
      && iovMax > 0
      && (status.Disconnected? ==> writeQueue == [])
      && (!status.Disconnected? ==> writeQueueBytes == |Flat(writeQueue)| + forgotten)
      && (status.Connecting? ==> watchOut && sent == [])
      && (status.Connected? && writeQueue != [] ==> watchOut || pending > 0 || flushDue)
      && (flushDue ==> !status.Connecting?)
    }

    /** What the kernel took and what is queued. */
    ghost function Output(): bytes
      reads this
    {
      sent + Flat(writeQueue)
    }

    /** The output is the accepted messages in the order of their calls. */
    ghost predicate Conserved()
      reads this
    {
      Output() == accepted
    }

    constructor (nonblocking: bool, iovMax: nat, maxBuffer: nat, kernel: nat -> Kernel)
      requires iovMax > 0
      ensures Valid() && Conserved() && status.Connecting? && accepted == [] && calls == 0
      ensures this.nonblocking == nonblocking && this.iovMax == iovMax && this.maxBuffer == maxBuffer && this.kernel == kernel
    {
      this.nonblocking, this.iovMax, this.maxBuffer, this.kernel, calls := nonblocking, iovMax, maxBuffer, kernel, 0;
      status, writeQueue, writeQueueBytes, watchOut, pending := Connecting, [], 0, true, 0;
      flushDue, sent, accepted, forgotten := false, [], [], 0;
    }

    /** writev(2) on the first IOV_MAX vectors. */
    method Syscall(vecs: seq<bytes>) returns (k: Kernel)
      requires iovMax > 0 && vecs != [] && vecs[0] != []
      modifies `sent, `calls
      ensures calls == old(calls) + 1
      ensures k == match kernel(old(calls)) case Wrote(n) => Wrote(Min(n, |Flat(Front(vecs, iovMax))|)) case other => other
      ensures k.Wrote? ==> k.n <= |Flat(vecs)| && sent == old(sent) + Flat(vecs)[..k.n] && (k.n == 0 <==> kernel(old(calls)) == Wrote(0))
      ensures !k.Wrote? ==> sent == old(sent)
    {
      var first := Front(vecs, iovMax);
      FlatAppend(first, vecs[|first|..]);
      assert first + vecs[|first|..] == vecs && first[0] == vecs[0];
      k, calls := kernel(calls), calls + 1;
      if k.Wrote? {
        k := Wrote(Min(k.n, |Flat(first)|));
        sent := sent + Flat(vecs)[..k.n];
      }
    }

    /** From the `from`-th on, `last` is what the last system call was answered, if any was made. */
    ghost predicate Asked(from: nat, last: Option<Kernel>)
      reads this
    {
      calls >= from && last == if calls == from then None else Some(kernel(calls - 1))
    }

    /** What a write whose last system call was answered `last` comes to; none is made for nothing. */
    ghost predicate Verdict(result: IoStatus, last: Option<Kernel>)
    {
      && (result.Queued? <==> nonblocking && last == Some(WouldBlock))
      && (result.Fatal? <==> last == Some(Failed) || last == Some(Wrote(0)) || (!nonblocking && last == Some(WouldBlock)))
    }

    /** A flush after this last answer takes the link down: by an error, or because even without one the queue is full. */
    ghost predicate TakesDown(last: Option<Kernel>)
      reads this
    {
      Verdict(Fatal, last) || (Verdict(Ok, last) && maxBuffer > 0 && writeQueueBytes >= maxBuffer)
    }

    /**
     write_data_T: `written` counts this call's bytes, also when it ends in an
     error; `last` is what the last system call answered.
     */
    method WriteData(vecs: seq<bytes>) returns (result: IoStatus, written: nat, rest: seq<bytes>, ghost last: Option<Kernel>)
      requires iovMax > 0 && status.Connected?
      modifies `sent, `calls
      ensures Asked(old(calls), last) && forall i :: old(calls) <= i < calls - 1 ==> kernel(i).Wrote? && kernel(i).n > 0
      ensures sent + Flat(rest) == old(sent) + Flat(vecs)
      ensures |Flat(rest)| + written == |Flat(vecs)| && old(sent) <= sent
      ensures result.Ok? ==> if Stalls(vecs) then written == 0 else Flat(rest) == []
      ensures Stalls(vecs) ==> result.Ok? && sent == old(sent)
      ensures result.Queued? ==> Flat(rest) != []
      ensures Verdict(result, last) && (last.None? <==> vecs == [] || vecs[0] == [])
    {
      hide Front, Min;
      rest, written, last := vecs, 0, None;
      while |rest| > 0 && |rest[0]| > 0
        invariant sent + Flat(rest) == old(sent) + Flat(vecs)
        invariant |Flat(rest)| + written == |Flat(vecs)|
        invariant rest == [] || rest[0] != [] || rest == vecs
        invariant vecs != [] && vecs[0] == [] ==> rest == vecs && written == 0 && sent == old(sent)
        invariant old(sent) <= sent
        invariant Asked(old(calls), last)
        invariant forall i :: old(calls) <= i < calls ==> kernel(i).Wrote? && kernel(i).n > 0
        invariant last.None? <==> rest == vecs
        decreases |Flat(rest)|
      {
        var k := Syscall(rest);
        last := Some(kernel(calls - 1));
        match k
        case WouldBlock =>
          result := if nonblocking then Queued else Fatal;
          return;
        case Failed =>
          result := Fatal;
          return;
        case Wrote(n) =>
          if n == 0 {
            result := Fatal;
            return;
          }
          written := written + n;
          ghost var before := rest;
          rest := Consume(rest, n);
          assert Flat(before) == Flat(before)[..n] + Flat(before)[n..];
      }
      result := Ok;
    }

    /** The inner loop: drop what was written, and every vector it completed. */
    method Consume(vecs: seq<bytes>, n: nat) returns (rest: seq<bytes>)
      requires n <= |Flat(vecs)|
      ensures Flat(rest) == Flat(vecs)[n..]
      ensures rest == [] || rest[0] != []
    {
      rest := vecs;
      var left := n;
      while |rest| > 0 && left >= |rest[0]|
        invariant 0 <= left <= |Flat(rest)| && Flat(rest)[left..] == Flat(vecs)[n..]
        decreases |rest|
      {
        Skip(rest, left);
        left := left - |rest[0]|;
        rest := rest[1..];
      }
      if left > 0 {
        Cut(rest, left);
        FlatHead(rest, rest[0][left..]);
        rest := [rest[0][left..]] + rest[1..];
      }
    }

    /** Switching to LINK_DISCONNECTED frees the queue; its byte count stays. */
    method Disconnect()
      requires iovMax > 0
      modifies `status, `writeQueue, `watchOut
      ensures status.Disconnected? && writeQueue == [] && !watchOut && Valid()
    {
      status, writeQueue, watchOut := Disconnected, [], false;
    }

    /** queue_signal_T_R, without listeners for the blocking signal. */
    method QueueSignal(delta: int)
      requires writeQueueBytes + delta >= 0 && iovMax > 0
      modifies `status, `writeQueue, `watchOut, `writeQueueBytes
      ensures writeQueueBytes == old(writeQueueBytes) + delta
      ensures if maxBuffer > 0 && writeQueueBytes >= maxBuffer then status.Disconnected? && Valid()
              else status == old(status) && writeQueue == old(writeQueue) && watchOut == old(watchOut)
    {
      writeQueueBytes := writeQueueBytes + delta;
      if maxBuffer > 0 && writeQueueBytes >= maxBuffer {
        Disconnect();
      }
    }

    /** queue_flattened_T_R: the copy is one vector; a queue that was empty needs G_IO_OUT. */
    method QueueFlattened(vecs: seq<bytes>, updatePoll: bool)
      requires Valid() && !status.Disconnected?
      requires status.Connected? && writeQueue == [] ==> updatePoll
      modifies `status, `writeQueue, `writeQueueBytes, `watchOut, `pending
      ensures Valid() && Flat([]) == []
      ensures !status.Disconnected? ==> status == old(status) && writeQueue == old(writeQueue) + [Flat(vecs)]
      ensures !status.Disconnected? ==> Output() == old(Output()) + Flat(vecs)
      ensures writeQueueBytes == old(writeQueueBytes) + |Flat(vecs)|
      ensures status.Disconnected? <==> maxBuffer > 0 && writeQueueBytes >= maxBuffer
      ensures pending == old(pending) + if updatePoll && old(writeQueue) == [] then 1 else 0
    {
      var newQueue := writeQueue == [];
      FlatAppend(writeQueue, [Flat(vecs)]);
      FlatOne(Flat(vecs));
      assert Flat([]) == [];
      hide Flat;
      assert sent + (Flat(writeQueue) + Flat(vecs)) == (sent + Flat(writeQueue)) + Flat(vecs);
      writeQueue := writeQueue + [Flat(vecs)];
      QueueSignal(|Flat(vecs)|);
      if updatePoll && newQueue {
        pending := pending + 1;
      }
    }

    /**
     link_connection_writev. A message goes to the kernel or to the queue in
     full, unless an error stops it halfway or it begins with an empty vector;
     from a conserved state, exactly these two lose conservation.
     */
    method Writev(vecs: seq<bytes>) returns (result: IoStatus, ghost last: Option<Kernel>)
      requires Valid()
      modifies `status, `writeQueue, `writeQueueBytes, `watchOut, `pending, `sent, `calls, `accepted
      ensures Valid()
      ensures accepted == if result.Fatal? then old(accepted) else old(accepted) + Flat(vecs)
      ensures old(sent) <= sent && (old(status).Disconnected? ==> result.Fatal? && sent == old(sent) && status.Disconnected?)
      ensures !status.Disconnected? && !result.Fatal? ==>
                Output() == old(Output()) + if result.Ok? && Stalls(vecs) then [] else Flat(vecs)
      ensures !status.Disconnected? && result.Fatal? ==>
                Output() == old(Output()) + sent[|old(sent)|..] && sent[|old(sent)|..] <= Flat(vecs)
      ensures !status.Disconnected? && old(Conserved()) ==>
                (Conserved() <==> !(result.Fatal? && sent != old(sent)) && !(result.Ok? && Stalls(vecs)))
      ensures old(status).Connected? && old(writeQueue) == [] && Stalls(vecs) ==>
                result.Ok? && sent == old(sent) && writeQueue == [] && status.Connected?
      ensures old(status).Connecting? || (old(status).Connected? && old(writeQueue) != []) ==> result.Queued? && sent == old(sent)
      ensures Asked(old(calls), last)
      // a link with nothing queued does what the kernel's answer calls for
      ensures old(status).Connected? && old(writeQueue) == [] ==>
                Verdict(result, last) && (last.None? <==> vecs == [] || vecs[0] == [])
      ensures old(status).Connected? && old(writeQueue) == [] && !result.Queued? ==>
                status.Connected? && writeQueue == [] && pending == old(pending)
      // only a full queue takes a link down
      ensures old(!status.Disconnected?) ==>
                (status.Disconnected? <==> result.Queued? && maxBuffer > 0 && writeQueueBytes >= maxBuffer)
    {
      assert Flat([]) == [];
      last := None;
      if status.Connecting? {
        accepted := accepted + Flat(vecs);
        QueueFlattened(vecs, true);
        return Queued, None;
      }
      if status.Disconnected? {
        return Fatal, None;
      }
      if writeQueue != [] {
        accepted := accepted + Flat(vecs);
        QueueFlattened(vecs, false);
        return Queued, None;
      }
      var written, rest;
      ghost var before := sent;
      result, written, rest, last := WriteData(vecs);
      Prefix(before, sent, Flat(vecs), Flat(rest));
      assert sent + [] == sent && before + [] == before;
      if result.Fatal? {
        return;
      }
      accepted := accepted + Flat(vecs);
      if result.Queued? {
        QueueFlattened(rest, true);
      }
    }

    /** A queue whose first entry is not empty gets a system call. */
    ghost predicate Attempted(queue: seq<bytes>, last: Option<Kernel>)
    {
      last.None? <==> queue == [] || queue[0] == []
    }

    /** link_connection_flush_write_queue_T_R, in the I/O thread. */
    method FlushWriteQueue() returns (ghost last: Option<Kernel>)
      requires iovMax > 0 && status.Connected? && !flushDue
      requires writeQueueBytes == |Flat(writeQueue)| + forgotten
      modifies `status, `writeQueue, `writeQueueBytes, `watchOut, `sent, `calls, `forgotten
      ensures Valid() && old(sent) <= sent
      ensures !status.Connecting? && (status.Connected? ==> (watchOut <==> writeQueue != []))
      ensures !status.Disconnected? ==> Output() == old(Output())
      // the first entry was written, or its rest stays first
      ensures status.Connected? && old(writeQueue) != [] ==>
                var q := old(writeQueue);
                || (writeQueue == q[1..] && sent == old(sent) + q[0])
                || (writeQueue != [] && writeQueue[1..] == q[1..] && sent + writeQueue[0] == old(sent) + q[0])
      // the first entry gets a write, which it leaves the queue by, or blocks in, or which brings the link down
      ensures Attempted(old(writeQueue), last) && Asked(old(calls), last)
      ensures old(writeQueue) == [] ==> status.Connected? && sent == old(sent) && writeQueue == []
      ensures old(writeQueue) != [] ==>
                exists result ::
                  && Verdict(result, last)
                  && (result.Ok? ==> sent == old(sent) + old(writeQueue)[0])
                  && writeQueueBytes == old(writeQueueBytes) - (if result.Ok? then |old(writeQueue)[0]| else 0)
                  && (status.Connected? ==> |writeQueue| == |old(writeQueue)| - (if result.Ok? then 1 else 0))
                  && (status.Disconnected? <==> result.Fatal? || (result.Ok? && maxBuffer > 0 && writeQueueBytes >= maxBuffer))
      ensures forgotten == old(forgotten) + if writeQueue != [] && |writeQueue| == |old(writeQueue)| then |sent| - |old(sent)| else 0
    {
      hide Flat, Verdict, Stalls;
      last := None;
      var doneWrites := true;
      if writeQueue != [] {
        ghost var q, before := writeQueue, sent;
        FlatCons(q);
        var result, written;
        result, written, last := WriteFirst();
        match result
        case Ok =>
          assert sent + Flat(writeQueue) == before + Flat(q);
          QueueSignal(0 - (written as int));
          doneWrites := writeQueue == [];
        case Fatal =>
          Disconnect();
        case Queued =>
          FlatCons(writeQueue);
          assert sent + (writeQueue[0] + Flat(q[1..])) == (sent + writeQueue[0]) + Flat(q[1..]);
          doneWrites := false;
      }
      watchOut := !doneWrites;
    }

    /** write_data_T of the first entry, which leaves the queue when it is out; otherwise its rest stays first. */
    method WriteFirst() returns (result: IoStatus, written: nat, ghost last: Option<Kernel>)
      requires iovMax > 0 && status.Connected? && writeQueue != []
      modifies `writeQueue, `sent, `calls, `forgotten
      ensures Verdict(result, last) && Attempted(old(writeQueue), last) && Asked(old(calls), last)
      ensures old(sent) <= sent && written == |sent| - |old(sent)|
      ensures result.Ok? ==>
                sent == old(sent) + old(writeQueue)[0] && writeQueue == old(writeQueue)[1..] && forgotten == old(forgotten)
      ensures result.Queued? ==>
                && |writeQueue| == |old(writeQueue)| && writeQueue[1..] == old(writeQueue)[1..]
                && sent + writeQueue[0] == old(sent) + old(writeQueue)[0] && forgotten == old(forgotten) + written
      ensures result.Fatal? ==> writeQueue == old(writeQueue) && forgotten == old(forgotten)
    {
      hide Flat, Verdict;
      FlatOne(writeQueue[0]);
      NeverStalls(writeQueue[0]);
      var rest;
      result, written, rest, last := WriteData([writeQueue[0]]);
      match result
      case Ok =>
        assert sent + [] == sent;
        writeQueue := writeQueue[1..];
      case Fatal =>
      case Queued =>
        writeQueue := [Flat(rest)] + writeQueue[1..];
        forgotten := forgotten + written;
    }

    /** A pending SET_CONDITION command is executed in the I/O thread. */
    method ExecSetCondition()
      requires Valid() && pending > 0
      modifies `watchOut, `pending
      ensures Valid() && pending == old(pending) - 1 && (watchOut || status.Disconnected?)
    {
      pending := pending - 1;
      watchOut := !status.Disconnected?;
    }

    /**
     link_connection_io_handler behind its input part. A connection in the making
     is up only if G_IO_OUT comes alone: an input bit with it disconnects, and a
     SET_CONDITION command in the meantime asks for input bits. The lock is
     dropped when the connection is up, so the first flush is a step of its own.
     */
    method IoHandler(input: bool, out: bool, error: bool, soError: bool) returns (ghost last: Option<Kernel>)
      requires Valid() && !flushDue
      modifies `status, `writeQueue, `writeQueueBytes, `watchOut, `sent, `calls, `forgotten, `flushDue
      ensures Valid() && old(sent) <= sent
      ensures !status.Disconnected? ==> Output() == old(Output())
      ensures old(status).Connected? && out && !error && status.Connected? ==> (watchOut <==> writeQueue != [])
      ensures error ==> status.Disconnected?
      ensures Asked(old(calls), last) && (flushDue || status.Connecting? ==> old(status).Connecting?)
      ensures old(status).Connected? && out ==> Attempted(old(writeQueue), last)
      ensures old(status).Connected? && out && (old(writeQueue) == [] || Verdict(Ok, last)) && status.Connected? ==>
                writeQueue == if old(writeQueue) == [] then [] else old(writeQueue)[1..]
      ensures old(status).Connecting? && (out || error) ==>
                if out && !input && !error && !soError then status.Connected? && flushDue && writeQueue == old(writeQueue)
                else status.Disconnected?
      ensures old(status).Connected? && !error ==> (status.Disconnected? <==> out && old(writeQueue) != [] && TakesDown(last))
      ensures !out && !error ==> status == old(status) && writeQueue == old(writeQueue) && watchOut == old(watchOut) && sent == old(sent)
    {
      last := None;
      if status.Connected? && out {
        last := FlushWriteQueue();
      }
      if out || error {
        match status
        case Connecting =>
          if !soError && out && !input && !error {
            watchOut, status, flushDue := false, Connected, true;
          } else {
            Disconnect();
          }
        case Connected =>
          if error {
            Disconnect();
          }
        case Disconnected =>
      }
    }

    /** The flush behind the state change, whatever the other threads did in between. */
    method FlushWhenConnected() returns (ghost last: Option<Kernel>)
      requires Valid() && flushDue
      modifies `status, `writeQueue, `writeQueueBytes, `watchOut, `sent, `calls, `forgotten, `flushDue
      ensures Valid() && !flushDue && old(sent) <= sent
      ensures !status.Disconnected? ==> Output() == old(Output())
      ensures status.Connected? && old(writeQueue) != [] ==> (watchOut <==> writeQueue != [])
      ensures Attempted(old(writeQueue), last) && Asked(old(calls), last)
      ensures old(status).Connected? ==> (status.Disconnected? <==> old(writeQueue) != [] && TakesDown(last))
    {
      flushDue, last := false, None;
      if writeQueue != [] {
        last := FlushWriteQueue();
      }
    }

    /**
     The I/O thread, polling as the watch asks for and executing what is pending:
     if every system call takes something, all that was accepted goes out. No
     wakeup is lost on the way, and a queue without a limit keeps the link up.
     */
    method RunIoThread()
      requires Valid() && status.Connected? && !flushDue
      requires forall i :: i >= calls ==> kernel(i).Wrote? && kernel(i).n > 0
      modifies `status, `writeQueue, `writeQueueBytes, `watchOut, `pending, `sent, `calls, `forgotten, `flushDue
      ensures Valid() && (status.Connected? ==> writeQueue == [] && sent == old(Output()))
      ensures maxBuffer == 0 ==> status.Connected?
    {
      while status.Connected? && (watchOut || pending > 0)
        invariant Valid() && !flushDue && !status.Connecting? && (maxBuffer == 0 ==> status.Connected?)
        invariant status.Connected? ==> Output() == old(Output())
        invariant forall i :: i >= calls ==> kernel(i).Wrote? && kernel(i).n > 0
        decreases pending, |writeQueue|, watchOut
      {
        if pending > 0 {
          ExecSetCondition();
        } else {
          ghost var from := calls;
          ghost var last := IoHandler(false, true, false, false);
          assert calls > from ==> kernel(calls - 1).Wrote?;
        }
      }
      assert sent + [] == sent;
    }
  }

  lemma Prefix(before: bytes, sent: bytes, all: bytes, rest: bytes)
    requires before <= sent && sent + rest == before + all
    ensures sent[|before|..] <= all && sent == before + sent[|before|..] && (rest == [] ==> sent == before + all)
  {
    var s := sent[|before|..];
    assert sent == before + s;
    assert (before + all)[|before|..] == all && (sent + rest)[|before|..] == s + rest;
  }

  /** The failing case: a connected link takes the message, reports success, and the byte 1 is nowhere. */
  method EmptyVectorInFront(link: LinkConnection) returns (result: IoStatus)
    requires link.Valid() && link.Conserved() && link.status.Connected? && link.writeQueue == []
    modifies link
    ensures result.Ok? && !link.Conserved() && link.status.Connected?
    ensures link.sent == old(link.sent) && link.writeQueue == [] && link.accepted == old(link.accepted) + [1]
  {
    var vecs: seq<bytes> := [[], [1]];
    assert Flat(vecs) == [1] && Flat([]) == [] by {
      assert vecs[1..] == [[1 as byte]];
      FlatOne([1]);
    }
    ghost var last;
    result, last := link.Writev(vecs);
  }
}
