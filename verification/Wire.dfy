/**
 From send buffers through the output queue to the receiver: what one process
 appends is what the other one's message reader hands on.
 */
module Wire {
  import opened Cdr
  import opened Giop
  import opened GiopInput
  import opened SendBuffers
  import LinkWrite

  /** The message that a send buffer holds. */
  ghost function MessageOf(b: SendBuffer): Sent
    reads b
    requires b.Valid()
  {
    Sent(b.minor, b.kind, false, b.order, b.Body())
  }

  /** The gathered iovecs are the framed message, whose announced size is the true one. */
  lemma BufferIsFramed(b: SendBuffer)
    requires b.Valid() && b.headerSize == HEADER_SIZE && |b.Body()| < TWO32
    ensures b.Contents() == Framed(MessageOf(b))
  {
    hide HeaderWire, Cells, Gather, Space.Layout, Space.Settled;
    b.HeaderThenBody();
    PlainHeader(MessageOf(b));
  }

  lemma PlainHeader(m: Sent)
    requires !m.more
    ensures HeaderWire(m.order, m.minor, m.kind, |m.body|) == SentHeader(m)
  {
  }

  lemma SplitLast(ram: Memory, v: seq<IoVec>)
    requires v != [] && Mapped(ram, Cells(v))
    ensures var n := |v| - 1;
            && Mapped(ram, Cells(v[..n])) && Mapped(ram, Range(v[n].base, v[n].len))
            && Gather(ram, Cells(v)) == Gather(ram, Cells(v[..n])) + Gather(ram, Range(v[n].base, v[n].len))
  {
    hide Gather, Mapped, Range;
    SplitGather(ram, Cells(v[..|v| - 1]), Range(v[|v| - 1].base, v[|v| - 1].len));
  }

  /** The iovecs as the output side is handed them. */
  ghost function VectorsOf(ram: Memory, v: seq<IoVec>): (r: seq<bytes>)
    requires Mapped(ram, Cells(v))
    ensures |r| == |v| && forall i :: 0 <= i < |v| ==> |r[i]| == v[i].len
  {
    if v == [] then []
    else
      SplitLast(ram, v);
      var n := |v| - 1;
      VectorsOf(ram, v[..n]) + [Gather(ram, Range(v[n].base, v[n].len))]
  }

  lemma {:induction false} VectorsFlatten(ram: Memory, v: seq<IoVec>)
    requires Mapped(ram, Cells(v))
    ensures LinkWrite.Flat(VectorsOf(ram, v)) == Gather(ram, Cells(v))
  {
    if v != [] {
      hide Gather, Mapped, LinkWrite.Flat;
      SplitLast(ram, v);
      var n := |v| - 1;
      var last := Gather(ram, Range(v[n].base, v[n].len));
      VectorsFlatten(ram, v[..n]);
      LinkWrite.FlatAppend(VectorsOf(ram, v[..n]), [last]);
      LinkWrite.FlatOne(last);
    }
  }

  /** A GIOP message is never one that write_data_T drops. */
  lemma BuffersNeverStall(b: SendBuffer)
    requires b.Valid() && b.headerSize == HEADER_SIZE
    ensures Mapped(b.ram, Cells(b.iovecs))
    ensures LinkWrite.Flat(VectorsOf(b.ram, b.iovecs)) == b.Contents()
    ensures !LinkWrite.Stalls(VectorsOf(b.ram, b.iovecs))
  {
    b.Room().Bounds(b.ram.Keys, Cells(b.iovecs));
    VectorsFlatten(b.ram, b.iovecs);
  }

  /** The messages of `ms`, framed one behind the other. */
  function Stream(ms: seq<Sent>): bytes
  {
    if ms == [] then [] else Framed(ms[0]) + Stream(ms[1..])
  }

  function DeliverAll(r: Rules, c: Cnx, ms: seq<Sent>): Cnx
    decreases |ms|
  {
    if ms == [] then c else DeliverAll(r, Delivered(r, c, ms[0]), ms[1..])
  }

  /** No message but perhaps the last one takes the connection down. */
  predicate StaysUp(r: Rules, c: Cnx, ms: seq<Sent>)
    decreases |ms|
  {
    ms == [] || (c.status.Up? && StaysUp(r, Delivered(r, c, ms[0]), ms[1..]))
  }

  lemma {:induction false} StreamIsReceived(r: Rules, c: Cnx, ms: seq<Sent>)
    requires StaysUp(r, c, ms) && forall i :: 0 <= i < |ms| ==> Sendable(r, ms[i])
    ensures Run(r, c, Stream(ms)) == Outcome(DeliverAll(r, c, ms), [])
    decreases |ms|
  {
    hide Run, Framed, Delivered, Sendable;
    RunWaits(r, c, []);
    if ms != [] {
      SentIsReceived(r, c, ms[0], Stream(ms[1..]));
      StreamIsReceived(r, Delivered(r, c, ms[0]), ms[1..]);
    }
  }

  /**
   End to end: once the output queue has drained, and however the bytes were cut
   on the way, the receiver has handled exactly the accepted messages, in order.
   */
  lemma AcceptedIsDelivered(link: LinkWrite.LinkConnection, r: Rules, c: Cnx, ms: seq<Sent>, chunks: seq<bytes>)
    requires link.Valid() && !link.status.Disconnected? && link.Conserved() && link.writeQueue == []
    requires link.accepted == Stream(ms)
    requires StaysUp(r, c, ms) && forall i :: 0 <= i < |ms| ==> Sendable(r, ms[i])
    requires Flatten(chunks) == link.sent
    ensures RunChunks(r, c, chunks) == Outcome(DeliverAll(r, c, ms), [])
  {
    assert link.sent + LinkWrite.Flat(link.writeQueue) == link.sent;
    ChunkingInvariance(r, c, chunks);
    StreamIsReceived(r, c, ms);
  }

  /**
   And it does come to that: a link without a limit on its queue, whose system
   calls take something each time, and a receiver whose reads get something each
   time, handle all accepted messages, in order, whatever the sizes are.
   */
  method Deliver(link: LinkWrite.LinkConnection, r: Rules, ghost ms: seq<Sent>, answers: nat -> int) returns (receiver: GiopConnection)
    requires link.Valid() && link.status.Connected? && !link.flushDue && link.Conserved() && link.maxBuffer == 0
    requires link.accepted == Stream(ms)
    requires forall i :: i >= link.calls ==> link.kernel(i).Wrote? && link.kernel(i).n > 0
    requires forall i: nat :: answers(i) > 0
    requires StaysUp(r, Cnx(Up, [], []), ms) && forall i :: 0 <= i < |ms| ==> Sendable(r, ms[i])
    modifies link
    ensures link.status.Connected? && link.writeQueue == []
    ensures fresh(receiver) && receiver.Valid() && receiver.cnx == DeliverAll(r, Cnx(Up, [], []), ms)
  {
    hide Run, Stream, StaysUp, DeliverAll, Sendable;
    link.RunIoThread();
    receiver := new GiopConnection(r, link.sent, answers);
    assert [] + link.sent == link.sent;
    receiver.Drain();
    StreamIsReceived(r, Cnx(Up, [], []), ms);
  }
}
