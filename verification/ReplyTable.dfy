/**
 The table of waiters for replies: who is listed, who gets which buffer, and
 what becomes of buffers nobody waits for. Each method is one critical section,
 of the list's lock or of a waiter's, and any interleaving of them is a run.
 */
module ReplyTable {
  import opened Common

  /** A GIOPRecvBuffer that carries a reply; its number is its place in the order of arrival. */
  datatype Reply = Reply(cnx: nat, msgType: nat, requestId: nat, systemException: bool)

  /** A GIOPMessageQueueEntry; `origin` is the connection it was set up with. */
  datatype Entry = Entry(cnx: Option<nat>, msgType: nat, requestId: nat, buffer: Option<nat>, isAsync: bool, origin: nat)

  predicate Answers(r: Reply, e: Entry)
  {
    r.requestId == e.requestId && r.msgType == e.msgType && r.cnx == e.origin
  }

  /** giop_queued_messages lists living entries that have a connection and no buffer. */
  ghost predicate Listed(queue: seq<nat>, entries: map<nat, Entry>)
  {
    && NoRepeats(queue)
    && forall e :: e in queue ==> e in entries && entries[e].cnx == Some(entries[e].origin) && entries[e].buffer.None?
  }

  ghost predicate Holds(entries: map<nat, Entry>, e: nat, b: nat)
  {
    e in entries && entries[e].buffer == Some(b)
  }

  /**
   handle_reply between its two locks: buffer `b` is on its way to the unlisted
   entry `e`. `gone` says that the entry's waiter has returned in the meantime.
   */
  datatype Delivery = NoDelivery | OnItsWay(e: nat, b: nat, gone: bool)

  /**
   Every buffer that arrived has exactly one fate: held by the one entry it
   answers, taken by that entry's waiter, released, and released once, or on
   its way to an entry it answers.
   */
  ghost predicate Settled(entries: map<nat, Entry>, arrived: seq<Reply>, taken: seq<nat>, released: seq<nat>, d: Delivery)
  {
    if d.NoDelivery? then Accounted(entries, arrived, taken, released)
    else
      && arrived != [] && d.b == |arrived| - 1
      && Accounted(entries, arrived[..d.b], taken, released)
      && (!d.gone ==> d.e in entries && entries[d.e].buffer.None? && Answers(arrived[d.b], entries[d.e]))
  }

  ghost predicate Accounted(entries: map<nat, Entry>, arrived: seq<Reply>, taken: seq<nat>, released: seq<nat>)
  {
    && (forall e, b: nat :: Holds(entries, e, b) ==> b < |arrived| && Answers(arrived[b], entries[e]))
    && (forall e, f, b: nat :: Holds(entries, e, b) && Holds(entries, f, b) ==> e == f)
    && (forall e, b: nat :: Holds(entries, e, b) ==> b !in taken && b !in released)
    && NoRepeats(taken) && NoRepeats(released)
    && (forall b :: b in taken ==> b !in released && b < |arrived|)
    && (forall b :: b in released ==> b < |arrived|)
    && (forall b: nat :: b < |arrived| ==> b in taken || b in released || exists e :: Holds(entries, e, b))
  }

  /** The newest listed entry with the reply's id and type, or |queue|. */
  function FirstFor(queue: seq<nat>, entries: map<nat, Entry>, r: Reply): (k: nat)
    ensures k <= |queue|
  {
    if queue == [] || (queue[0] in entries && entries[queue[0]].requestId == r.requestId &&
                       entries[queue[0]].msgType == r.msgType)
    then 0 else 1 + FirstFor(queue[1..], entries, r)
  }

  lemma {:induction false} FirstIs(queue: seq<nat>, entries: map<nat, Entry>, r: Reply, k: nat)
    requires k <= |queue| && forall e :: e in queue ==> e in entries
    requires forall j :: 0 <= j < k ==> entries[queue[j]].requestId != r.requestId || entries[queue[j]].msgType != r.msgType
    requires k < |queue| ==> entries[queue[k]].requestId == r.requestId && entries[queue[k]].msgType == r.msgType
    ensures FirstFor(queue, entries, r) == k
  {
    if k > 0 {
      assert forall j :: 0 <= j < |queue[1..]| ==> queue[1..][j] == queue[j + 1];
      assert forall e :: e in queue[1..] ==> e in queue;
      FirstIs(queue[1..], entries, r, k - 1);
    }
  }

  class Table {
    var queue: seq<nat>
    /** All entries that are set up and whose waiter has not returned. */
    var entries: map<nat, Entry>
    /** Connections in LINK_DISCONNECTED or LINK_TIMEOUT. */
    var dead: set<nat>
    /** Connections whose waiters giop_recv_list_zap has sent away. */
    ghost var zapped: set<nat>
    /** What the I/O thread is about to hand over. */
    var delivery: Delivery
    /** Entries handed over to their own threads for the callback. */
    var asyncEnts: seq<nat>
    /** A buffer was stored into memory that is no waiter's any more. */
    var corrupted: bool
    var arrived: seq<Reply>
    ghost var taken: seq<nat>
    var released: seq<nat>

    /** A reply is on its way to `e`, whose waiter has not returned. */
    ghost predicate Expecting(e: nat)
      reads this
    {
      delivery.OnItsWay? && !delivery.gone && delivery.e == e
    }

    ghost predicate Hopeless(e: nat)
      requires e in entries
      reads this
    {
      entries[e].origin in dead || entries[e].origin in zapped
    }

    ghost predicate Valid()
      reads this
    {
      !corrupted ==>
        && (forall e :: e in entries ==> entries[e].cnx.None? || entries[e].cnx == Some(entries[e].origin))
        // who is listed no more has its buffer, or soon, or will never get one
        && (forall e :: e in entries && entries[e].buffer.None? && (entries[e].cnx.None? || (e !in queue && !Expecting(e))) ==> Hopeless(e))
        // and may stop waiting, unless a reply is on its way
        && (forall e :: e in entries && e !in queue && !Expecting(e) ==> CheckGot(e))
        && Listed(queue, entries) && Settled(entries, arrived, taken, released, delivery)
        && (delivery.OnItsWay? && !delivery.gone ==> delivery.e !in queue && delivery.e !in asyncEnts)
        && NoRepeats(asyncEnts) && forall e :: e in asyncEnts ==> e in entries && e !in queue && entries[e].isAsync
    }

    constructor ()
      ensures Valid() && !corrupted && queue == [] && entries == map[] && dead == {} && zapped == {} && delivery.NoDelivery?
      ensures arrived == [] && released == [] && asyncEnts == []
    {
      queue, entries, dead, zapped, delivery, corrupted := [], map[], {}, {}, NoDelivery, false;
      asyncEnts, arrived, taken, released := [], [], [], [];
    }

    /** giop_recv_list_setup_queue_entry; the address may be one that a waiter left behind. */
    method Setup(e: nat, cnx: nat, msgType: nat, requestId: nat)
      requires Valid() && !corrupted && e !in entries
      modifies `queue, `entries
      ensures Valid() && queue == [e] + old(queue)
      ensures entries == old(entries)[e := Entry(Some(cnx), msgType, requestId, None, false, cnx)]
    {
      entries := entries[e := Entry(Some(cnx), msgType, requestId, None, false, cnx)];
      queue := [e] + queue;
      SameSettled(old(entries), entries, arrived, taken, released, delivery);
    }

    /** giop_recv_list_setup_queue_entry_async. */
    method SetAsync(e: nat)
      requires Valid() && !corrupted && e in entries
      modifies `entries
      ensures Valid()
      ensures var x := old(entries)[e];
              entries == old(entries)[e := Entry(x.cnx, x.msgType, x.requestId, x.buffer, true, x.origin)]
    {
      var x := entries[e];
      entries := entries[e := Entry(x.cnx, x.msgType, x.requestId, x.buffer, true, x.origin)];
      SameSettled(old(entries), entries, arrived, taken, released, delivery);
    }

    /** The search loop of handle_reply. */
    method Find(r: Reply) returns (k: nat)
      requires Valid() && !corrupted
      ensures k == FirstFor(queue, entries, r)
      ensures k < |queue| ==> entries[queue[k]].requestId == r.requestId && entries[queue[k]].msgType == r.msgType
    {
      k := 0;
      while k < |queue| && !(entries[queue[k]].requestId == r.requestId && entries[queue[k]].msgType == r.msgType)
        invariant k <= |queue|
        invariant forall j :: 0 <= j < k ==> entries[queue[j]].requestId != r.requestId || entries[queue[j]].msgType != r.msgType
      {
        k := k + 1;
      }
      FirstIs(queue, entries, r, k);
    }

    /** A connection reaches LINK_DISCONNECTED or LINK_TIMEOUT: its waiters stop waiting. */
    method Die(cnx: nat)
      requires Valid()
      modifies `dead
      ensures Valid() && dead == old(dead) + {cnx}
      ensures !corrupted ==> forall e :: e in queue && entries[e].origin == cnx ==> CheckGot(e)
    {
      dead := dead + {cnx};
    }

    /** handle_reply under the list's lock: the result says whether the connection has to go. */
    method HandleReply(r: Reply) returns (error: bool, to: Option<nat>)
      requires Valid() && !corrupted && delivery.NoDelivery?
      modifies `queue, `delivery, `arrived, `released
      ensures Valid() && arrived == old(arrived) + [r]
      ensures var k := old(FirstFor(queue, entries, r));
              && to == (if k < |old(queue)| && entries[old(queue)[k]].cnx == Some(r.cnx) then Some(old(queue)[k]) else None)
              && (error <==> to.None? && (k < |old(queue)| || !r.systemException))
      ensures to.Some? ==> Answers(r, entries[to.value]) && delivery == OnItsWay(to.value, |old(arrived)|, false)
      ensures to.Some? ==> released == old(released) && forall e :: e in queue <==> e in old(queue) && e != to.value
      ensures to.None? ==> queue == old(queue) && delivery.NoDelivery? && released == old(released) + [|old(arrived)|]
    {
      var k := Find(r);
      var b := |arrived|;
      to := if k < |queue| && entries[queue[k]].cnx == Some(r.cnx) then Some(queue[k]) else None;
      if to.None? {
        error := k < |queue| || !r.systemException;
        ReleaseNew(entries, arrived, taken, released, r);
        released := released + [b];
      } else {
        error := false;
        Unlist(queue, k);
        delivery := OnItsWay(to.value, b, false);
        queue := queue[..k] + queue[k + 1..];
        assert (arrived + [r])[..b] == arrived;
      }
      arrived := arrived + [r];
    }

    /**
     The rest of handle_reply, under the waiter's lock. The buffer reaches the
     entry it answers exactly if the waiter has not returned since.
     */
    method Deliver()
      requires Valid() && !corrupted && delivery.OnItsWay?
      modifies `entries, `delivery, `corrupted
      ensures Valid() && delivery.NoDelivery?
      ensures corrupted <==> old(delivery).gone
      ensures !corrupted ==>
                var e, b := old(delivery).e, old(delivery).b;
                && Holds(entries, e, b) && b < |arrived| && Answers(arrived[b], entries[e])
                && entries.Keys == old(entries.Keys) && forall f :: f in entries && f != e ==> entries[f] == old(entries)[f]
    {
      if delivery.gone {
        corrupted := true;
      } else {
        var e, b := delivery.e, delivery.b;
        var x := entries[e];
        Stored(entries, arrived, taken, released, e);
        entries := entries[e := Entry(x.cnx, x.msgType, x.requestId, Some(b), x.isAsync, x.origin)];
      }
      delivery := NoDelivery;
    }

    /** check_got; once it holds it goes on holding. */
    predicate CheckGot(e: nat)
      reads this
      requires e in entries
    {
      entries[e].buffer.Some? || entries[e].cnx.None? || entries[e].cnx.value in dead
    }

    /**
     A listed waiter goes on waiting exactly as long as its connection lives; one
     that is listed no more may stop, unless its reply is still on its way.
     */
    lemma WaitsExactly(e: nat)
      requires Valid() && !corrupted && e in entries
      ensures e in queue ==> (CheckGot(e) <==> entries[e].origin in dead)
      ensures CheckGot(e) ==> entries[e].buffer.Some? || Hopeless(e)
      ensures Expecting(e) && entries[e].cnx.Some? ==> (CheckGot(e) <==> entries[e].origin in dead)
      ensures e !in queue && !Expecting(e) ==> CheckGot(e) && (entries[e].buffer.Some? || Hopeless(e))
    {
    }

    /** giop_recv_list_zap of a connection that has gone. */
    method Zap(cnx: nat)
      requires Valid() && !corrupted
      modifies `queue, `entries, `zapped
      ensures zapped == old(zapped) + {cnx}
      ensures Valid() && entries.Keys == old(entries.Keys)
      ensures forall e :: e in queue ==> entries[e].origin != cnx
      ensures forall e :: e in old(queue) ==> (e in queue <==> old(entries)[e].origin != cnx)
      ensures forall e :: e in old(queue) && e !in queue ==> CheckGot(e) && entries[e].buffer.None?
      ensures forall e :: e in entries && !(e in old(queue) && old(entries)[e].origin == cnx) ==> entries[e] == old(entries)[e]
      ensures forall e :: e in queue ==> e in old(queue)
    {
      hide Valid;
      MarkZapped(cnx);
      QueueListed();
      var k := 0;
      while k < |queue|
        invariant k <= |queue| && Valid() && entries.Keys == old(entries.Keys) && zapped == old(zapped) + {cnx}
        invariant forall e :: e in queue ==> e in old(queue) && entries[e] == old(entries)[e]
        invariant forall i :: 0 <= i < k ==> entries[queue[i]].origin != cnx
        invariant forall e :: e in old(queue) && old(entries)[e].origin != cnx ==> e in queue
        invariant forall e :: e in old(queue) && e !in queue ==> entries[e].cnx.None? && entries[e].buffer.None?
        invariant forall e :: e in entries && !(e in old(queue) && old(entries)[e].origin == cnx) ==> entries[e] == old(entries)[e]
        decreases |queue| - k
      {
        var e := queue[k];
        QueueListed();
        if entries[e].cnx == Some(cnx) {
          Unlist(queue, k);
          Drop(k);
        } else {
          k := k + 1;
        }
      }
    }

    ghost method MarkZapped(cnx: nat)
      requires Valid()
      modifies `zapped
      ensures Valid() && zapped == old(zapped) + {cnx}
    {
      zapped := zapped + {cnx};
    }

    lemma QueueListed()
      requires Valid() && !corrupted
      ensures Listed(queue, entries)
    {
    }

    /** The k-th waiter leaves the list and lets go of its connection. */
    method Drop(k: nat)
      requires Valid() && !corrupted && k < |queue| && entries[queue[k]].origin in zapped
      modifies `queue, `entries
      ensures Valid() && queue == old(queue)[..k] + old(queue)[k + 1..]
      ensures var e := old(queue)[k];
              var x := old(entries)[e];
              e in old(entries) && entries == old(entries)[e := Entry(None, x.msgType, x.requestId, x.buffer, x.isAsync, x.origin)]
    {
      hide Settled;
      var e := queue[k];
      var x := entries[e];
      Unlist(queue, k);
      queue := queue[..k] + queue[k + 1..];
      entries := entries[e := Entry(None, x.msgType, x.requestId, x.buffer, x.isAsync, x.origin)];
      SameSettled(old(entries), entries, arrived, taken, released, delivery);
    }

    /** giop_recv_destroy_queue_entry_T: the entry lets go of its connection. */
    method Forget(e: nat)
      requires Valid() && !corrupted && e in entries && e !in queue && (entries[e].buffer.Some? || Hopeless(e))
      modifies `entries
      ensures Valid()
      ensures var x := old(entries)[e];
              entries == old(entries)[e := Entry(None, x.msgType, x.requestId, x.buffer, x.isAsync, x.origin)]
    {
      var x := entries[e];
      entries := entries[e := Entry(None, x.msgType, x.requestId, x.buffer, x.isAsync, x.origin)];
      SameSettled(old(entries), entries, arrived, taken, released, delivery);
    }

    /** giop_recv_list_destroy_queue_entry, once the waiter has seen check_got. */
    method Unregister(e: nat)
      requires Valid() && !corrupted && e in entries && CheckGot(e)
      modifies `queue, `entries
      ensures Valid() && e !in queue && (forall f :: f in queue <==> f in old(queue) && f != e)
      ensures var x := old(entries)[e];
              entries == old(entries)[e := Entry(None, x.msgType, x.requestId, x.buffer, x.isAsync, x.origin)]
    {
      Remove(e);
      Forget(e);
    }

    lemma HeldAnswers(e: nat)
      requires Valid() && !corrupted && e in entries && entries[e].buffer.Some?
      ensures var b, x := entries[e].buffer.value, entries[e];
              && b < |arrived| && b !in taken
              && arrived[b].requestId == x.requestId && arrived[b].msgType == x.msgType && arrived[b].cnx == x.origin
    {
      assert Holds(entries, e, entries[e].buffer.value);
    }

    /** The waiter of giop_recv_buffer_get returns with what its entry holds by now, and its stack frame is gone. */
    method Return(e: nat) returns (buffer: Option<nat>)
      requires Valid() && !corrupted && e in entries && e !in queue && entries[e].cnx.None? && !entries[e].isAsync
      modifies `entries, `taken, `delivery
      ensures Valid() && entries == old(entries) - {e} && buffer == old(entries)[e].buffer
      // a reply to its own request, of the type it waits for, from the connection it was sent on
      ensures buffer.Some? ==>
                var x := old(entries)[e];
                && buffer.value < |arrived| && arrived[buffer.value].requestId == x.requestId
                && arrived[buffer.value].msgType == x.msgType && arrived[buffer.value].cnx == x.origin
      ensures buffer.Some? ==> buffer.value !in old(taken) && taken == old(taken) + [buffer.value]
      ensures buffer.None? ==> old(Hopeless(e)) && taken == old(taken)
      ensures delivery == if old(delivery).OnItsWay? && old(delivery).e == e then OnItsWay(e, old(delivery).b, true) else old(delivery)
    {
      hide Settled, NoRepeats, Answers;
      buffer := entries[e].buffer;
      if buffer.Some? {
        HeldAnswers(e);
      }
      LeaveSettled(entries, arrived, taken, released, delivery, e);
      if buffer.Some? {
        taken := taken + [buffer.value];
      }
      entries := entries - {e};
      if delivery.OnItsWay? && delivery.e == e {
        delivery := OnItsWay(e, delivery.b, true);
      }
    }

    /** giop_invoke_async: in the entry's own thread the callback runs, otherwise the entry is handed over. */
    method InvokeAsync(e: nat, ownThread: bool) returns (buffer: Option<nat>)
      requires Valid() && !corrupted && e in entries && entries[e].isAsync && e !in queue && e !in asyncEnts
      requires delivery.OnItsWay? && !delivery.gone ==> delivery.e != e
      modifies `entries, `released, `asyncEnts
      ensures Valid()
      ensures if ownThread then
                && entries == old(entries) - {e} && asyncEnts == old(asyncEnts) && buffer == old(entries)[e].buffer
                && released == old(released) + if buffer.Some? then [buffer.value] else []
              else entries == old(entries) && asyncEnts == [e] + old(asyncEnts) && released == old(released) && buffer.None?
      ensures ownThread && buffer.None? ==> old(Hopeless(e))
    {
      if ownThread {
        buffer := CallBack(e);
      } else {
        asyncEnts, buffer := [e] + asyncEnts, None;
      }
    }

    /** giop_thread_queue_process takes an entry handed over and invokes it in its own thread. */
    method RunAsync() returns (buffer: Option<nat>)
      requires Valid() && !corrupted && asyncEnts != []
      modifies `entries, `released, `asyncEnts
      ensures Valid() && asyncEnts == old(asyncEnts)[1..]
      ensures var e := old(asyncEnts)[0];
              && entries == old(entries) - {e} && buffer == old(entries)[e].buffer
              && (buffer.None? ==> old(Hopeless(asyncEnts[0])))
              && released == old(released) + if buffer.Some? then [buffer.value] else []
    {
      var e := asyncEnts[0];
      assert forall i :: 0 <= i < |asyncEnts[1..]| ==> asyncEnts[1..][i] == asyncEnts[i + 1];
      asyncEnts := asyncEnts[1..];
      buffer := CallBack(e);
    }

    /** The callback, after which the entry is gone and the buffer released. */
    method CallBack(e: nat) returns (buffer: Option<nat>)
      requires Valid() && !corrupted && e in entries && entries[e].isAsync && e !in queue && e !in asyncEnts
      requires delivery.OnItsWay? && !delivery.gone ==> delivery.e != e
      modifies `entries, `released
      ensures Valid() && entries == old(entries) - {e} && buffer == old(entries)[e].buffer
      ensures released == old(released) + if buffer.Some? then [buffer.value] else []
      ensures buffer.None? ==> old(Hopeless(e))
    {
      buffer := entries[e].buffer;
      ghost var known := if delivery.OnItsWay? then arrived[..delivery.b] else arrived;
      Release(entries, known, taken, released, e);
      if buffer.Some? {
        released := released + [buffer.value];
      }
      entries := entries - {e};
    }

    /** g_list_remove of an entry that need not be listed. */
    method Remove(e: nat)
      requires Valid() && !corrupted && (e in queue ==> CheckGot(e))
      modifies `queue
      ensures Valid() && forall f :: f in queue <==> f in old(queue) && f != e
    {
      var k := 0;
      while k < |queue| && queue[k] != e
        invariant k <= |queue| && forall j :: 0 <= j < k ==> queue[j] != e
      {
        k := k + 1;
      }
      if k < |queue| {
        Unlist(queue, k);
        queue := queue[..k] + queue[k + 1..];
      }
    }
  }

  /**
   A run that ends in corruption: between the two locks of handle_reply the
   waiter's connection dies, the waiter leaves without a buffer, and the buffer
   is then stored where its entry was.
   */
  method DeathDuringDelivery() returns (t: Table)
    ensures fresh(t) && t.corrupted
  {
    hide Table.Valid;
    t := new Table();
    t.Setup(1, 5, 0, 9);
    var error, to := t.HandleReply(Reply(5, 0, 9, false));
    t.Die(5);
    t.Unregister(1);
    var nothing := t.Return(1);
    t.Deliver();
  }

  lemma SameSettled(entries: map<nat, Entry>, after: map<nat, Entry>, arrived: seq<Reply>, taken: seq<nat>, released: seq<nat>, d: Delivery)
    requires Settled(entries, arrived, taken, released, d)
    requires forall e, b :: Holds(after, e, b) <==> Holds(entries, e, b)
    requires forall e :: e in entries ==> e in after && Alike(after[e], entries[e]) && after[e].buffer == entries[e].buffer
    ensures Settled(after, arrived, taken, released, d)
  {
    SameHolders(entries, after, if d.NoDelivery? then arrived else arrived[..d.b], taken, released);
  }

  predicate Alike(x: Entry, y: Entry)
  {
    x.requestId == y.requestId && x.msgType == y.msgType && x.origin == y.origin
  }

  /** A table whose entries hold the same buffers, and await the same replies. */
  lemma SameHolders(entries: map<nat, Entry>, after: map<nat, Entry>, arrived: seq<Reply>, taken: seq<nat>, released: seq<nat>)
    requires Accounted(entries, arrived, taken, released)
    requires forall e, b :: Holds(after, e, b) <==> Holds(entries, e, b)
    requires forall e, b :: Holds(entries, e, b) && e in after ==> Alike(after[e], entries[e])
    ensures Accounted(after, arrived, taken, released)
  {
    forall b: nat | b < |arrived| ensures b in taken || b in released || exists e :: Holds(after, e, b) {
      if e :| Holds(entries, e, b) {
        assert Holds(after, e, b);
      }
    }
  }

  lemma ReleaseNew(entries: map<nat, Entry>, arrived: seq<Reply>, taken: seq<nat>, released: seq<nat>, r: Reply)
    requires Accounted(entries, arrived, taken, released)
    ensures Accounted(entries, arrived + [r], taken, released + [|arrived|])
  {
    assert |arrived| !in released && |arrived| !in taken;
  }

  lemma Stored(entries: map<nat, Entry>, arrived: seq<Reply>, taken: seq<nat>, released: seq<nat>, e: nat)
    requires arrived != [] && Accounted(entries, arrived[..|arrived| - 1], taken, released)
    requires e in entries && entries[e].buffer.None? && Answers(arrived[|arrived| - 1], entries[e])
    ensures var x := entries[e];
            Accounted(entries[e := Entry(x.cnx, x.msgType, x.requestId, Some(|arrived| - 1), x.isAsync, x.origin)],
                      arrived, taken, released)
  {
    var x, n := entries[e], |arrived| - 1;
    var after := entries[e := Entry(x.cnx, x.msgType, x.requestId, Some(n), x.isAsync, x.origin)];
    assert Holds(after, e, n);
    forall f, b ensures Holds(after, f, b) <==> Holds(entries, f, b) || (f == e && b == n) {}
    assert forall b :: 0 <= b < n ==> arrived[..n][b] == arrived[b];
    forall b: nat | b < n ensures b in taken || b in released || exists f :: Holds(after, f, b) {
      if f :| Holds(entries, f, b) {
        assert Holds(after, f, b);
      }
    }
  }

  lemma Leave(entries: map<nat, Entry>, arrived: seq<Reply>, taken: seq<nat>, released: seq<nat>, e: nat)
    requires Accounted(entries, arrived, taken, released) && e in entries
    ensures var b := entries[e].buffer;
            Accounted(entries - {e}, arrived, taken + if b.Some? then [b.value] else [], released)
  {
    var after := entries - {e};
    var mine := entries[e].buffer;
    forall f, b ensures Holds(after, f, b) <==> Holds(entries, f, b) && f != e {}
    assert mine.Some? ==> Holds(entries, e, mine.value);
    forall b: nat | b < |arrived| && b !in taken && b !in released && mine != Some(b) ensures exists f :: Holds(after, f, b) {
      var f :| Holds(entries, f, b);
      assert Holds(after, f, b);
    }
  }

  /** A delivery under way to the one who leaves goes on, to nobody. */
  lemma LeaveSettled(entries: map<nat, Entry>, arrived: seq<Reply>, taken: seq<nat>, released: seq<nat>, d: Delivery, e: nat)
    requires Settled(entries, arrived, taken, released, d) && e in entries
    ensures var b := entries[e].buffer;
            Settled(entries - {e}, arrived, if b.Some? then taken + [b.value] else taken, released,
                    if d.OnItsWay? && d.e == e then OnItsWay(e, d.b, true) else d)
  {
    hide Accounted;
    Leave(entries, if d.OnItsWay? then arrived[..d.b] else arrived, taken, released, e);
    assert taken + [] == taken;
  }

  lemma Release(entries: map<nat, Entry>, arrived: seq<Reply>, taken: seq<nat>, released: seq<nat>, e: nat)
    requires Accounted(entries, arrived, taken, released) && e in entries
    ensures var b := entries[e].buffer;
            Accounted(entries - {e}, arrived, taken, released + if b.Some? then [b.value] else [])
  {
    var after := entries - {e};
    var mine := entries[e].buffer;
    forall f, b ensures Holds(after, f, b) <==> Holds(entries, f, b) && f != e {}
    assert mine.Some? ==> Holds(entries, e, mine.value);
    forall b: nat | b < |arrived| && b !in taken && b !in released && mine != Some(b) ensures exists f :: Holds(after, f, b) {
      var f :| Holds(entries, f, b);
      assert Holds(after, f, b);
    }
  }
}
