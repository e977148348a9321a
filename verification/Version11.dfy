/**
 Fragments of GIOP 1.1 carry no id: they continue the message that was opened
 last. What the receiver makes of such a message, one fragment after the other.
 */
module Version11 {
  import opened Cdr
  import opened Giop
  import opened GiopInput
  import opened Reassembly

  datatype Fragment = Fragment(order: Endian, payload: bytes)

  function OnWire(f: Fragment, more: bool): Sent
  {
    Sent(1, FRAGMENT, more, f.order, f.payload)
  }

  /** An opening of message `id`, whose decoder leaves its cursor at `cur`. */
  ghost predicate Opens(r: Rules, c: Cnx, m: Sent, id: nat, cur: nat)
  {
    && c.status.Up? && Sendable(r, m) && m.body != [] && m.more && m.minor == 1
    && m.kind in {REQUEST, REPLY, LOCATEREQUEST, LOCATEREPLY}
    && r.decode(HeaderFor(m), m.body) == Fields(id, cur) && HEADER_SIZE <= cur < TWO32
  }

  ghost predicate Fragments(r: Rules, fs: seq<Fragment>)
  {
    forall f :: f in fs ==> f.payload != [] && Sendable(r, OnWire(f, true))
  }

  /** The opening's bytes and the payloads behind it. */
  function Text(m: Sent, fs: seq<Fragment>): bytes
  {
    if fs == [] then m.body else Text(m, fs[..|fs| - 1]) + fs[|fs| - 1].payload
  }

  /** The connection after the opening and the fragments, none of them the last one. */
  function After(r: Rules, c: Cnx, m: Sent, fs: seq<Fragment>): Cnx
  {
    if fs == [] then Delivered(r, c, m) else Delivered(r, After(r, c, m, fs[..|fs| - 1]), OnWire(fs[|fs| - 1], true))
  }

  function Piece(f: Fragment, more: bool): Msg
  {
    Msg(HeaderFor(OnWire(f, more)), |f.payload|, f.payload, 0, HEADER_SIZE)
  }

  function PiecesOf(m: Sent, id: nat, cur: nat, fs: seq<Fragment>): (p: seq<Msg>)
    ensures p != [] && p[0] == Msg(HeaderFor(m), |m.body|, m.body, id, cur)
  {
    if fs == [] then [Msg(HeaderFor(m), |m.body|, m.body, id, cur)]
    else PiecesOf(m, id, cur, fs[..|fs| - 1]) + [Piece(fs[|fs| - 1], true)]
  }

  lemma {:induction false} PiecesAreText(m: Sent, id: nat, cur: nat, fs: seq<Fragment>)
    ensures var p := PiecesOf(m, id, cur, fs); InBounds(p) && WholeBody(p) == Text(m, fs)
  {
    if fs != [] {
      PiecesAreText(m, id, cur, fs[..|fs| - 1]);
      var p := PiecesOf(m, id, cur, fs[..|fs| - 1]);
      assert (p + [Piece(fs[|fs| - 1], true)])[..|p|] == p;
    }
  }

  /** A message opened while none is open starts a set of its own. */
  lemma OpeningStarts(r: Rules, c: Cnx, m: Sent, id: nat, cur: nat)
    requires Opens(r, c, m, id, cur) && c.frags == []
    ensures var p := PiecesOf(m, id, cur, []); Holds(p, p) && Delivered(r, c, m) == Cnx(Up, [p], c.log)
  {
    var p := PiecesOf(m, id, cur, []);
    assert [p] + [] == [p];
  }

  /** One opened while others are open is taken for a piece of the newest of them. */
  lemma OpeningIsSpliced(r: Rules, c: Cnx, m: Sent, id: nat, cur: nat)
    requires Opens(r, c, m, id, cur) && FirstWith(c.frags, id) == |c.frags|
    requires c.frags != [] && c.frags[0] != [] && c.frags[0][0].header.kind != FRAGMENT
    ensures Delivered(r, c, m) == Cnx(Up, c.frags[0 := Join(c.frags[0], PiecesOf(m, id, cur, [])[0])], c.log)
  {
    hide FirstWith, Join;
  }

  lemma NextJoins(r: Rules, c: Cnx, list: seq<Msg>, pieces: seq<Msg>, f: Fragment, more: bool)
    requires c.status.Up? && c.frags == [list] && Holds(list, pieces) && f.payload != [] && Sendable(r, OnWire(f, more))
    ensures var longer := Join(list, Piece(f, more));
            && Holds(longer, pieces + [Piece(f, more)])
            && Delivered(r, c, OnWire(f, more)) ==
               if more then Cnx(Up, [longer], c.log)
               else if Fits(longer) then Dispatch(r, Cnx(Up, [], c.log), Concat(longer))
               else Cnx(Undefined, [list], c.log)
  {
    hide Join, Fits, Concat, FirstWith, Holds, Dispatch;
    assert list != [] && list[0].header.kind != FRAGMENT by { HeadOf(list, pieces); }
    JoinHolds(list, pieces, Piece(f, more));
    assert GetFrag([list], 0, true) == 0 by { assert FirstWith([list], 0) <= 1; }
    assert [list][..0] + [list][1..] == [];
    assert [list][0 := Join(list, Piece(f, more))] == [Join(list, Piece(f, more))];
  }

  lemma HeadOf(list: seq<Msg>, pieces: seq<Msg>)
    requires Holds(list, pieces)
    ensures list != [] && list[0].header.kind != FRAGMENT
  {
  }

  /** While the message is open its set holds its pieces. */
  lemma {:induction false} StaysOpen(r: Rules, c: Cnx, m: Sent, id: nat, cur: nat, fs: seq<Fragment>) returns (list: seq<Msg>)
    requires Opens(r, c, m, id, cur) && c.frags == [] && Fragments(r, fs)
    ensures Holds(list, PiecesOf(m, id, cur, fs)) && After(r, c, m, fs) == Cnx(Up, [list], c.log)
  {
    hide Holds, Delivered, Sendable;
    if fs == [] {
      OpeningStarts(r, c, m, id, cur);
      list := PiecesOf(m, id, cur, []);
    } else {
      var n := |fs| - 1;
      assert forall f :: f in fs[..n] ==> f in fs;
      var before := StaysOpen(r, c, m, id, cur, fs[..n]);
      NextJoins(r, After(r, c, m, fs[..n]), before, PiecesOf(m, id, cur, fs[..n]), fs[n], true);
      list := Join(before, Piece(fs[n], true));
    }
  }

  /**
   At the last fragment the message is handled as if it had come in one piece,
   with the opening's decoded fields, if and only if it is shorter than 2^32 bytes.
   */
  lemma LastFragment(r: Rules, c: Cnx, m: Sent, id: nat, cur: nat, fs: seq<Fragment>, last: Fragment)
    requires Opens(r, c, m, id, cur) && c.frags == [] && Fragments(r, fs + [last])
    ensures var text := Text(m, fs + [last]);
            var d := Delivered(r, After(r, c, m, fs), OnWire(last, false));
            && (|text| < TWO32 ==> d == Dispatch(r, c, Msg(HeaderFor(m), |text|, text, id, cur)))
            && (|text| >= TWO32 ==> d.status.Undefined? && d.log == c.log)
  {
    hide Delivered, Dispatch, Text, Join, Holds;
    assert last in fs + [last] && forall f :: f in fs ==> f in fs + [last];
    var list := StaysOpen(r, c, m, id, cur, fs);
    var pieces := PiecesOf(m, id, cur, fs);
    HeadOf(list, pieces);
    NextJoins(r, After(r, c, m, fs), list, pieces, last, false);
    Collated(m, id, cur, fs, last, Join(list, Piece(last, false)));
  }

  lemma Collated(m: Sent, id: nat, cur: nat, fs: seq<Fragment>, last: Fragment, list: seq<Msg>)
    requires Holds(list, PiecesOf(m, id, cur, fs) + [Piece(last, false)])
    ensures var text := Text(m, fs + [last]);
            && (Fits(list) <==> |text| < TWO32)
            && (Fits(list) ==> Concat(list) == Msg(HeaderFor(m), |text|, text, id, cur))
  {
    hide Fits, WholeBody, InBounds, Total, Text;
    var p := PiecesOf(m, id, cur, fs);
    var own := p + [Piece(last, false)];
    PiecesAreText(m, id, cur, fs);
    Appended(p, Piece(last, false));
    assert (fs + [last])[..|fs|] == fs;
    assert Text(m, fs + [last]) == Text(m, fs) + last.payload by { TextStep(m, fs, last); }
    FitsExactly(list, own);
    SameBytes(list, own);
    if Fits(list) {
      FitsInBounds(list, own);
    }
  }

  lemma TextStep(m: Sent, fs: seq<Fragment>, f: Fragment)
    ensures Text(m, fs + [f]) == Text(m, fs) + f.payload
  {
    assert (fs + [f])[..|fs|] == fs;
  }

  lemma Appended(pieces: seq<Msg>, p: Msg)
    requires pieces != [] && InBounds(pieces) && p.cur >= HEADER_SIZE && p.Left() >= 0
    ensures InBounds(pieces + [p]) && WholeBody(pieces + [p]) == WholeBody(pieces) + p.Payload()
    ensures Total(pieces + [p]) == |WholeBody(pieces + [p])|
  {
    assert (pieces + [p])[..|pieces|] == pieces;
  }

  lemma FitsInBounds(list: seq<Msg>, pieces: seq<Msg>)
    requires Holds(list, pieces) && Fits(list)
    ensures InBounds(list) && Total(list) == |WholeBody(list)| && (Total(pieces) < TWO32 && Total(pieces) >= 0 ==> list[0].size == Total(pieces))
  {
  }
}
