/**
 Streams as their senders mean them: whole messages, openings of fragmented
 ones, and fragments given as an id and a payload. What the receiver hands on
 is what the emissions add up to, which is said here without its own notions.
 */
module Senders {
  import opened Cdr
  import opened Common
  import opened Giop
  import opened GiopInput
  import opened Reassembly
  import opened FragmentRuns
  import opened Wire

  /** `cur` is where the receiver's decoder of the opening leaves its cursor. */
  datatype Emission =
    | Whole(m: Sent)
    | Opening(m: Sent, id: nat, cur: nat)
    | Next(minor: byte, order: Endian, id: nat, payload: bytes, last: bool)

  function OnWire(x: Emission): Sent
  {
    match x
    case Whole(m) => m
    case Opening(m, _, _) => m
    case Next(minor, order, id, payload, last) => Sent(minor, FRAGMENT, !last, order, Store(order, 4, id) + payload)
  }

  function AllOnWire(xs: seq<Emission>): (ms: seq<Sent>)
    ensures |ms| == |xs| && forall i :: 0 <= i < |xs| ==> ms[i] == OnWire(xs[i])
  {
    seq(|xs|, i requires 0 <= i < |xs| => OnWire(xs[i]))
  }

  /** An emission of a sender that does not use GIOP 1.1 for fragments. */
  predicate Proper(r: Rules, x: Emission)
  {
    && Sendable(r, OnWire(x))
    && match x
       case Whole(m) => !m.more && m.kind != FRAGMENT
       case Opening(m, id, cur) =>
         && m.more && m.kind in {REQUEST, REPLY, LOCATEREQUEST, LOCATEREPLY} && m.minor != 1 && m.body != []
         && r.decode(HeaderFor(m), m.body) == Fields(id, cur) && HEADER_SIZE <= cur < TWO32
       case Next(minor, _, id, _, _) => minor != 1 && id < TWO32
  }

  /** What the emissions so far have made up of message `id`, if it is open. */
  function Open(xs: seq<Emission>, id: nat): Option<Msg>
  {
    if xs == [] then None
    else
      var x, before := xs[|xs| - 1], Open(xs[..|xs| - 1], id);
      match x
      case Whole(_) => before
      case Opening(m, i, cur) => if i == id then Some(Msg(HeaderFor(m), |m.body|, m.body, id, cur)) else before
      case Next(_, _, i, payload, last) =>
        if i != id || before.None? then before else if last then None else Some(Longer(before.value, payload))
  }

  function Longer(m: Msg, payload: bytes): Msg
  {
    Msg(m.header, |m.body| + |payload|, m.body + payload, m.id, m.cur)
  }

  /** Openings open what is not open, and fragments continue what is. */
  ghost predicate Protocol(xs: seq<Emission>)
  {
    forall i :: 0 <= i < |xs| ==>
                  match xs[i]
                  case Whole(_) => true
                  case Opening(_, id, _) => Open(xs[..i], id).None?
                  case Next(_, _, id, _, _) => Open(xs[..i], id).Some?
  }

  ghost predicate Sound(r: Rules, xs: seq<Emission>)
  {
    Protocol(xs) && forall i :: 0 <= i < |xs| ==> Proper(r, xs[i])
  }

  /** What the emissions mean: whole messages as they are, fragmented ones when their last fragment is there. */
  function Meaning(r: Rules, xs: seq<Emission>): seq<Msg>
  {
    if xs == [] then []
    else
      var x, g := xs[|xs| - 1], xs[..|xs| - 1];
      Meaning(r, g) +
      match x
      case Whole(m) => if m.body == [] then [Msg(HeaderFor(m), 0, [], 0, HEADER_SIZE)] else Arriving(r, m)
      case Opening(_, _, _) => []
      case Next(_, _, id, payload, last) => if last && Open(g, id).Some? then [Longer(Open(g, id).value, payload)] else []
  }

  /** The receiver's pieces of message `id` are what the sender has made up of it. */
  ghost predicate Agrees(pieces: seq<Msg>, open: Option<Msg>)
  {
    match open
    case None => pieces == []
    case Some(m) =>
      && pieces != [] && InBounds(pieces) && WholeBody(pieces) == m.body && |m.body| == m.size
      && pieces[0].header == m.header && pieces[0].id == m.id && pieces[0].cur == m.cur
  }

  lemma LongerAgrees(pieces: seq<Msg>, m: Msg, p: Msg)
    requires Agrees(pieces, Some(m)) && p.cur >= HEADER_SIZE && p.Left() >= 0
    ensures Agrees(pieces + [p], Some(Longer(m, p.Payload()))) && |pieces + [p]| > 1
  {
    assert (pieces + [p])[..|pieces|] == pieces;
  }

  /** What the receiver makes of one emission. */
  lemma ArrivalOf(r: Rules, x: Emission)
    requires Proper(r, x) && !x.Whole?
    ensures var m := OnWire(x);
            && m.body != [] && IsPiece(m) && |Arriving(r, m)| == 1 && Raw(r, Arriving(r, m)[0])
            && Arriving(r, m)[0].header == HeaderFor(m)
            && match x
               case Opening(_, id, cur) =>
                 KeyOf(r.host, Arriving(r, m)[0]) == Key(id, Msg(HeaderFor(m), |m.body|, m.body, id, cur))
               case Next(_, _, id, payload, _) =>
                 KeyOf(r.host, Arriving(r, m)[0]) == Key(id, Msg(HeaderFor(m), |m.body|, m.body, 0, HEADER_SIZE + 4)) &&
                 KeyOf(r.host, Arriving(r, m)[0]).m.Payload() == payload
  {
    if x.Next? {
      FragmentKey(r.host, HeaderFor(OnWire(x)), x.id, x.payload);
    }
  }

  lemma HistoryStep(r: Rules, xs: seq<Emission>)
    requires xs != []
    ensures var g, x := xs[..|xs| - 1], xs[|xs| - 1];
            && AllOnWire(xs)[..|xs| - 1] == AllOnWire(g)
            && History(r, AllOnWire(xs)) ==
               History(r, AllOnWire(g)) + if OnWire(x).body != [] && IsPiece(OnWire(x)) then Arriving(r, OnWire(x)) else []
  {
    assert AllOnWire(xs)[..|xs| - 1] == AllOnWire(xs[..|xs| - 1]);
  }

  /** The receiver's accounts are the senders', message by message. */
  lemma {:induction false} AccountsAgree(r: Rules, xs: seq<Emission>, id: nat)
    requires Sound(r, xs)
    ensures Agrees(Pieces(r, History(r, AllOnWire(xs)), id), Open(xs, id))
  {
    if xs != [] {
      hide KeyOf, Agrees, Arriving, History, Sound, Raw, Pieces, WholeBody;
      var n := |xs| - 1;
      var g, x := xs[..n], xs[n];
      InOrder(r, xs);
      AccountsAgree(r, g, id);
      HistoryStep(r, xs);
      if x.Whole? {
        WholeAdds(r, x, History(r, AllOnWire(g)));
      } else {
        ArrivalOf(r, x);
        var a := Arriving(r, OnWire(x))[0];
        assert Arriving(r, OnWire(x)) == [a];
        PiecesStep(r, History(r, AllOnWire(g)), a, id);
        if x.Opening? && x.id == id {
          OneAgrees(KeyOf(r.host, a).m, Pieces(r, History(r, AllOnWire(g)), id));
        } else if x.Next? && x.id == id {
          LongerAgrees(Pieces(r, History(r, AllOnWire(g)), id), Open(g, id).value, KeyOf(r.host, a).m);
          NoneAgrees();
        }
      }
    } else {
      assert Pieces(r, [], id) == [];
    }
  }

  lemma WholeAdds(r: Rules, x: Emission, h: seq<Msg>)
    requires Proper(r, x) && x.Whole?
    ensures h + (if OnWire(x).body != [] && IsPiece(OnWire(x)) then Arriving(r, OnWire(x)) else []) == h
  {
    assert h + [] == h;
  }

  lemma NoneAgrees()
    ensures Agrees([], None)
  {
  }

  lemma OneAgrees(m: Msg, before: seq<Msg>)
    requires Agrees(before, None) && m.size == |m.body|
    ensures Agrees(before + [m], Some(m))
  {
    assert before + [m] == [m];
  }

  /** One emission: what the receiver hands on at it is what it means, and it is in order. */
  lemma OneEmission(r: Rules, g: seq<Emission>, x: Emission)
    requires Sound(r, g + [x])
    ensures var h, m := History(r, AllOnWire(g)), OnWire(x);
            && (m.body != [] && IsPiece(m) && Arriving(r, m) != [] ==> Orderly(r, h, Arriving(r, m)[0]))
            && Meaning(r, g + [x]) == Meaning(r, g) + Yield(r, h, m)
  {
    hide KeyOf, Arriving, History, Raw, Pieces, WholeBody, Sound;
    var xs := g + [x];
    assert xs[..|g|] == g && xs[|g|] == x;
    InOrder(r, xs);
    if !x.Whole? {
      ArrivalOf(r, x);
      AccountsAgree(r, g, x.id);
      var pieces := Pieces(r, History(r, AllOnWire(g)), x.id);
      if x.Next? {
        LongerAgrees(pieces, Open(g, x.id).value, KeyOf(r.host, Arriving(r, OnWire(x))[0]).m);
      }
    }
  }

  lemma InOrder(r: Rules, xs: seq<Emission>)
    requires xs != [] && Sound(r, xs)
    ensures var g, x := xs[..|xs| - 1], xs[|xs| - 1];
            && Sound(r, g) && Proper(r, x)
            && (x.Opening? ==> Open(g, x.id).None?) && (x.Next? ==> Open(g, x.id).Some?)
  {
    hide Proper, Open;
    PrefixInOrder(r, xs, |xs| - 1);
  }

  lemma PrefixInOrder(r: Rules, xs: seq<Emission>, k: nat)
    requires k <= |xs| && Sound(r, xs)
    ensures Sound(r, xs[..k])
  {
    hide Proper, Open;
    forall i | 0 <= i < k ensures xs[..k][i] == xs[i] && xs[..k][..i] == xs[..i] {}
  }

  lemma {:induction false} MeaningIsHandedOn(r: Rules, xs: seq<Emission>)
    requires Sound(r, xs)
    ensures HandedOn(r, AllOnWire(xs)) == Meaning(r, xs)
  {
    if xs == [] {
      assert HandedOn(r, []) == [];
    } else {
      hide Arriving, History, Sound, Yield, Meaning, OnWire, IsPiece, HandedOn, AllOnWire;
      var g, x := xs[..|xs| - 1], xs[|xs| - 1];
      assert xs == g + [x];
      InOrder(r, xs);
      MeaningIsHandedOn(r, g);
      OneEmission(r, g, x);
      HandedOnStep(r, g, x);
    }
  }

  /** The receiver's side of it: what the last emission adds. */
  lemma HandedOnStep(r: Rules, g: seq<Emission>, x: Emission)
    ensures HandedOn(r, AllOnWire(g + [x])) == HandedOn(r, AllOnWire(g)) + Yield(r, History(r, AllOnWire(g)), OnWire(x))
  {
    hide Yield, History, OnWire;
    var ms := AllOnWire(g + [x]);
    assert ms[..|g|] == AllOnWire(g) && ms[|g|] == OnWire(x);
  }

  lemma EmissionsAreWellSent(r: Rules, xs: seq<Emission>)
    requires Sound(r, xs)
    ensures WellSent(r, AllOnWire(xs))
  {
    hide Arriving, History, Sound, Orderly;
    var ms := AllOnWire(xs);
    forall i | 0 <= i < |ms| && ms[i].body != [] && IsPiece(ms[i]) && Arriving(r, ms[i]) != []
      ensures Orderly(r, History(r, ms[..i]), Arriving(r, ms[i])[0])
    {
      var g := xs[..i];
      assert xs[..i + 1] == g + [xs[i]];
      PrefixInOrder(r, xs, i + 1);
      OneEmission(r, g, xs[i]);
      assert ms[..i] == AllOnWire(g);
    }
  }

  /**
   End to end: in whatever chunks the stream is read, and whatever the byte
   orders, the receiver hands on exactly what the senders' emissions mean,
   unless a message grows to 2^32 bytes.
   */
  lemma MeaningIsReceived(r: Rules, xs: seq<Emission>, chunks: seq<bytes>)
    requires Sound(r, xs)
    requires StaysUp(r, Cnx(Up, [], []), AllOnWire(xs)) && Flatten(chunks) == Stream(AllOnWire(xs))
    ensures var o := RunChunks(r, Cnx(Up, [], []), chunks);
            !o.cnx.status.Undefined? ==> o.cnx.log == Meaning(r, xs) && o.pending == []
  {
    hide Run, StaysUp, WellSent, Sendable, Stream, Protocol, Meaning, HandedOn;
    EmissionsAreWellSent(r, xs);
    MeaningIsHandedOn(r, xs);
    assert forall i :: 0 <= i < |xs| ==> Proper(r, xs[i]);
    forall i | 0 <= i < |xs| ensures Sendable(r, AllOnWire(xs)[i]) {}
    ChunksAreHandedOn(r, AllOnWire(xs), chunks);
  }
}
