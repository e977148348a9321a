/**
 Whole streams with fragmented messages in them: what the connection hands on
 is, message by message, what the senders' own pieces make up.
 */
module FragmentRuns {
  import opened Cdr
  import opened Giop
  import opened GiopInput
  import opened Reassembly
  import opened Wire

  predicate IsPiece(m: Sent) { m.more || m.kind == FRAGMENT }

  /** A message as its decoder leaves it; none if the decoder fails. */
  function Arriving(r: Rules, m: Sent): seq<Msg>
  {
    match Demarshal(r, HeaderFor(m), m.body)
    case BadFields => []
    case Fields(id, cur) => [Msg(HeaderFor(m), |m.body|, m.body, id, cur)]
  }

  /** The pieces among the messages, decoded, in order of arrival. */
  function History(r: Rules, ms: seq<Sent>): seq<Msg>
  {
    if ms == [] then []
    else
      var m := ms[|ms| - 1];
      History(r, ms[..|ms| - 1]) + if m.body != [] && IsPiece(m) then Arriving(r, m) else []
  }

  /** What one arrival adds to the messages handed on, given the pieces before it. */
  function Yield(r: Rules, h: seq<Msg>, m: Sent): seq<Msg>
  {
    if m.body == [] then (if m.kind == FRAGMENT then [] else [Msg(HeaderFor(m), 0, [], 0, HEADER_SIZE)])
    else if Arriving(r, m) == [] || !IsPiece(m) then Arriving(r, m)
    else Assembled(r, h, Arriving(r, m)[0])
  }

  /** A last piece yields the first piece of its message with the payloads of its own other pieces behind it. */
  function Assembled(r: Rules, h: seq<Msg>, x: Msg): seq<Msg>
  {
    match KeyOf(r.host, x)
    case NoKey => []
    case Key(id, p) =>
      var own := Pieces(r, h, id) + [p];
      if x.header.more || |own| == 1 || !InBounds(own) then []
      else [Msg(own[0].header, |WholeBody(own)|, WholeBody(own), own[0].id, own[0].cur)]
  }

  function HandedOn(r: Rules, ms: seq<Sent>): seq<Msg>
  {
    if ms == [] then []
    else HandedOn(r, ms[..|ms| - 1]) + Yield(r, History(r, ms[..|ms| - 1]), ms[|ms| - 1])
  }

  /** Every FRAGMENT continues a message that an earlier piece opened. */
  ghost predicate WellSent(r: Rules, ms: seq<Sent>)
  {
    forall i :: 0 <= i < |ms| && ms[i].body != [] && IsPiece(ms[i]) && Arriving(r, ms[i]) != [] ==>
                  Orderly(r, History(r, ms[..i]), Arriving(r, ms[i])[0])
  }

  lemma {:induction false} DeliverLast(r: Rules, c: Cnx, ms: seq<Sent>)
    requires ms != []
    ensures DeliverAll(r, c, ms) == Delivered(r, DeliverAll(r, c, ms[..|ms| - 1]), ms[|ms| - 1])
    decreases |ms|
  {
    hide Delivered;
    var n := |ms| - 1;
    if n > 0 {
      assert ms[1..][..n - 1] == ms[..n][1..];
      DeliverLast(r, Delivered(r, c, ms[0]), ms[1..]);
    }
  }

  lemma {:induction false} UpBefore(r: Rules, c: Cnx, ms: seq<Sent>)
    requires ms != [] && StaysUp(r, c, ms)
    ensures StaysUp(r, c, ms[..|ms| - 1]) && DeliverAll(r, c, ms[..|ms| - 1]).status.Up?
    decreases |ms|
  {
    hide Delivered;
    var n := |ms| - 1;
    if n > 0 {
      assert ms[1..][..n - 1] == ms[..n][1..];
      UpBefore(r, Delivered(r, c, ms[0]), ms[1..]);
    }
  }

  /** One arrival: the log grows by its yield, and the sets go on tracking the pieces. */
  lemma OneArrival(r: Rules, c: Cnx, h: seq<Msg>, m: Sent)
    requires c.status.Up? && Sendable(r, m) && Tracks(r, h, c.frags)
    requires m.body != [] && IsPiece(m) && Arriving(r, m) != [] ==> Orderly(r, h, Arriving(r, m)[0])
    ensures var d := Delivered(r, c, m);
            && (!d.status.Undefined? ==> d.log == c.log + Yield(r, h, m))
            && (d.status.Up? ==> Tracks(r, h + if m.body != [] && IsPiece(m) then Arriving(r, m) else [], d.frags))
  {
    hide Tracks, Orderly, Fragmented, Pieces, WholeBody, Total, InBounds, KeyOf;
    assert h + [] == h && c.log + [] == c.log;
    if m.body != [] && IsPiece(m) && Arriving(r, m) != [] {
      var x := Arriving(r, m)[0];
      Arrival(r, h, c.frags, x);
      if KeyOf(r.host, x).Key? {
        OpenedKind(r, h, c.frags, KeyOf(r.host, x).id);
      }
    }
  }

  /** An opened message is a request, a reply or one of their locating kin. */
  lemma OpenedKind(r: Rules, h: seq<Msg>, frags: seq<seq<Msg>>, id: nat)
    requires Tracks(r, h, frags)
    ensures Pieces(r, h, id) != [] ==> Pieces(r, h, id)[0].header.kind < CLOSECONNECTION
  {
    hide Pieces, KeyOf;
    assert AtId(r, h, frags, id);
    PieceKinds(r, h, id);
  }

  lemma {:induction false} PieceKinds(r: Rules, h: seq<Msg>, id: nat)
    ensures forall x :: x in Pieces(r, h, id) ==> x.header.kind < CLOSECONNECTION || x.header.kind == FRAGMENT
  {
    if h != [] {
      PieceKinds(r, h[..|h| - 1], id);
    }
  }

  /**
   Over every well-sent stream, fragments of different messages interleaved as
   they may be, the messages handed on are the whole ones as they came and, at
   each last piece, that message's first piece with its own payloads.
   */
  lemma {:induction false} LogIsHandedOn(r: Rules, ms: seq<Sent>)
    requires StaysUp(r, Cnx(Up, [], []), ms) && WellSent(r, ms) && forall i :: 0 <= i < |ms| ==> Sendable(r, ms[i])
    ensures var c := DeliverAll(r, Cnx(Up, [], []), ms);
            && (!c.status.Undefined? ==> c.log == HandedOn(r, ms))
            && (c.status.Up? ==> Tracks(r, History(r, ms), c.frags))
  {
    hide Delivered, Tracks, Orderly, Yield, Arriving, Sendable, StaysUp, DeliverAll;
    var start := Cnx(Up, [], []);
    if ms == [] {
      assert DeliverAll(r, start, ms) == start by { NoMessages(r, start); }
      NothingTracked(r);
    } else {
      var n := |ms| - 1;
      var g, m := ms[..n], ms[n];
      assert forall i :: 0 <= i < n ==> g[i] == ms[i] && g[..i] == ms[..i];
      UpBefore(r, start, ms);
      LogIsHandedOn(r, g);
      DeliverLast(r, start, ms);
      assert ms[..n] == g && ms[n] == m;
      OneArrival(r, DeliverAll(r, start, g), History(r, g), m);
    }
  }

  lemma NoMessages(r: Rules, c: Cnx)
    ensures DeliverAll(r, c, []) == c
  {
  }

  lemma NothingTracked(r: Rules)
    ensures Tracks(r, [], [])
  {
    assert SetsAfter(r, []) == Sets([]);
    Interleaving(r, []);
  }

  /** The same of the bytes, in whatever chunks they are read. */
  lemma ChunksAreHandedOn(r: Rules, ms: seq<Sent>, chunks: seq<bytes>)
    requires StaysUp(r, Cnx(Up, [], []), ms) && WellSent(r, ms) && forall i :: 0 <= i < |ms| ==> Sendable(r, ms[i])
    requires Flatten(chunks) == Stream(ms)
    ensures var o := RunChunks(r, Cnx(Up, [], []), chunks);
            !o.cnx.status.Undefined? ==> o.cnx.log == HandedOn(r, ms) && o.pending == []
  {
    hide Run, DeliverAll, HandedOn, StaysUp, WellSent, Sendable, Stream;
    ChunkingInvariance(r, Cnx(Up, [], []), chunks);
    StreamIsReceived(r, Cnx(Up, [], []), ms);
    LogIsHandedOn(r, ms);
  }
}
