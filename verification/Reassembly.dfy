/**
 Interleaved fragments, for senders that do not use GIOP 1.1: the connection's
 list of sets behaves as one separate accumulator per message id.
 */
module Reassembly {
  import opened Cdr
  import opened Giop
  import opened GiopInput

  /** A decoded piece as the connection first sees it. */
  predicate Raw(r: Rules, m: Msg)
  {
    (r.isAuth || m.size <= r.limit) && m.size == |m.body| < TWO32 && HEADER_SIZE <= m.cur < TWO32 && m.header.minor != 1
  }

  /** The pieces of message `id` that are waiting after the arrivals `h`. */
  function Pieces(r: Rules, h: seq<Msg>, id: nat): seq<Msg>
  {
    if h == [] then []
    else
      var before := Pieces(r, h[..|h| - 1], id);
      match KeyOf(r.host, h[|h| - 1])
      case NoKey => before
      case Key(i, m) => if i != id then before else if m.header.more then before + [m] else []
  }

  /** A FRAGMENT continues a message that an earlier piece opened. */
  predicate Orderly(r: Rules, h: seq<Msg>, m: Msg)
  {
    && Raw(r, m)
    && match KeyOf(r.host, m)
       case NoKey => true
       case Key(id, p) => m.header.kind == FRAGMENT ==> Pieces(r, h, id) != []
  }

  /** `list` holds `pieces`, with their total kept on the head. */
  ghost predicate Holds(list: seq<Msg>, pieces: seq<Msg>)
  {
    && |list| == |pieces| > 0 && list[1..] == pieces[1..]
    && list[0] == Msg(pieces[0].header, Total(pieces) % TWO32, pieces[0].body, pieces[0].id, pieces[0].cur)
    && pieces[0].header.kind != FRAGMENT && HEADER_SIZE <= pieces[0].cur < TWO32
  }

  ghost predicate AtId(r: Rules, h: seq<Msg>, frags: seq<seq<Msg>>, id: nat)
  {
    var k := FirstWith(frags, id);
    if Pieces(r, h, id) == [] then k == |frags|
    else k < |frags| && Holds(frags[k], Pieces(r, h, id))
  }

  /** The connection's sets are the waiting pieces, message by message. */
  ghost predicate Tracks(r: Rules, h: seq<Msg>, frags: seq<seq<Msg>>)
  {
    Separate(frags) && forall id: nat :: AtId(r, h, frags, id)
  }

  /** No set is empty or headed by a FRAGMENT, and no two share an id. */
  ghost predicate Separate(frags: seq<seq<Msg>>)
  {
    && (forall k :: 0 <= k < |frags| ==> frags[k] != [] && frags[k][0].header.kind != FRAGMENT)
    && (forall j, k :: 0 <= j < k < |frags| ==> RequestId(frags[j][0]) != RequestId(frags[k][0]))
  }

  lemma FirstIs(frags: seq<seq<Msg>>, id: nat, k: nat)
    requires k <= |frags| && forall j :: 0 <= j < k ==> frags[j] == [] || RequestId(frags[j][0]) != id
    requires k < |frags| ==> frags[k] != [] && RequestId(frags[k][0]) == id
    ensures FirstWith(frags, id) == k
  {
  }

  lemma TotalJoins(pieces: seq<Msg>, m: Msg)
    requires pieces != []
    ensures Total(pieces + [m]) == Total(pieces) + m.Left()
  {
    assert (pieces + [m])[..|pieces|] == pieces;
  }

  lemma AddMod(a: int, b: int)
    ensures (a % TWO32 + b) % TWO32 == (a + b) % TWO32
  {
    var q, q2 := a / TWO32, (a + b) / TWO32;
    var x := (a + b) % TWO32;
    assert a % TWO32 + b == x + TWO32 * (q2 - q);
    ModOf(a % TWO32 + b, q2 - q, x);
  }

  lemma ModOf(y: int, q: int, x: int)
    requires 0 <= x < TWO32 && y == x + TWO32 * q
    ensures y % TWO32 == x
  {
  }

  /** Appending a piece keeps the running total. */
  lemma JoinHolds(list: seq<Msg>, pieces: seq<Msg>, m: Msg)
    requires Holds(list, pieces)
    ensures Holds(Join(list, m), pieces + [m])
  {
    TotalJoins(pieces, m);
    AddMod(Total(pieces), m.Left());
    assert Join(list, m)[1..] == list[1..] + [m];
    assert (pieces + [m])[1..] == pieces[1..] + [m];
  }

  /** The set's bytes are its pieces' bytes: only the head's size field differs. */
  lemma {:induction false} SameBytes(list: seq<Msg>, pieces: seq<Msg>)
    requires |list| == |pieces| > 0 && list[1..] == pieces[1..] && list[0].body == pieces[0].body
    ensures Total(list) == Total(pieces) && InBounds(list) == InBounds(pieces)
    ensures InBounds(list) ==> WholeBody(list) == WholeBody(pieces)
    decreases |list|
  {
    assert forall i :: 1 <= i < |list| ==> list[i] == list[1..][i - 1] && pieces[i] == pieces[1..][i - 1];
    if |list| > 1 {
      var n := |list| - 1;
      assert list[..n][1..] == list[1..][..n - 1] && pieces[..n][1..] == pieces[1..][..n - 1];
      SameBytes(list[..n], pieces[..n]);
    }
  }

  /** concat_frags stays inside its block exactly when the message is shorter than 2^32 bytes. */
  lemma FitsExactly(list: seq<Msg>, pieces: seq<Msg>)
    requires Holds(list, pieces) && InBounds(pieces)
    ensures Fits(list) <==> Total(pieces) < TWO32
  {
    SameBytes(list, pieces);
    var t := Total(pieces);
    if t >= TWO32 {
      assert t % TWO32 <= t - TWO32;
    }
  }

  lemma PiecesStep(r: Rules, h: seq<Msg>, m: Msg, id: nat)
    ensures Pieces(r, h + [m], id) ==
            if KeyOf(r.host, m).NoKey? || KeyOf(r.host, m).id != id then Pieces(r, h, id)
            else if m.header.more then Pieces(r, h, id) + [KeyOf(r.host, m).m] else []
  {
    assert (h + [m])[..|h|] == h;
  }

  /** A single opening piece. */
  lemma HoldsOne(r: Rules, m: Msg, id: nat, p: Msg)
    requires Raw(r, m) && KeyOf(r.host, m) == Key(id, p) && m.header.kind != FRAGMENT
    ensures Holds([p], [p]) && RequestId(p) == id && p == m && p.header.kind != FRAGMENT
  {
  }

  /**
   One arrival: other messages' pieces stay as they were; the last piece yields
   the opened message with exactly its own payloads, in order of arrival.
   */
  lemma Arrival(r: Rules, h: seq<Msg>, frags: seq<seq<Msg>>, m: Msg)
    requires Tracks(r, h, frags) && Orderly(r, h, m)
    ensures match Fragmented(r, frags, m)
            case Bad => KeyOf(r.host, m).NoKey? || (!m.header.more && Pieces(r, h, KeyOf(r.host, m).id) == [])
            case Kept(f) => KeyOf(r.host, m).Key? && m.header.more && Tracks(r, h + [m], f)
            case Complete(f, whole) =>
              && KeyOf(r.host, m).Key? && !m.header.more && Tracks(r, h + [m], f)
              && var own := Pieces(r, h, KeyOf(r.host, m).id) + [KeyOf(r.host, m).m];
                 && |own| > 1 && InBounds(own)
                 && whole == Msg(own[0].header, |WholeBody(own)|, WholeBody(own), own[0].id, own[0].cur)
            case Broken =>
              && KeyOf(r.host, m).Key? && !m.header.more
              && var own := Pieces(r, h, KeyOf(r.host, m).id) + [KeyOf(r.host, m).m];
                 |own| > 1 && (!InBounds(own) || Total(own) >= TWO32)
  {
    hide KeyOf, Pieces, FirstWith, Join, Total, WholeBody, InBounds;
    if KeyOf(r.host, m).Key? {
      var id, p := KeyOf(r.host, m).id, KeyOf(r.host, m).m;
      assert AtId(r, h, frags, id);
      var k := FirstWith(frags, id);
      if k == |frags| {
        if m.header.more { Opens(r, h, frags, m); }
      } else {
        JoinHolds(frags[k], Pieces(r, h, id), p);
        SameBytes(Join(frags[k], p), Pieces(r, h, id) + [p]);
        if m.header.more {
          Continues(r, h, frags, m);
        } else {
          if InBounds(Pieces(r, h, id) + [p]) {
            FitsExactly(Join(frags[k], p), Pieces(r, h, id) + [p]);
          }
          Closes(r, h, frags, m);
        }
      }
    }
  }

  lemma Opens(r: Rules, h: seq<Msg>, frags: seq<seq<Msg>>, m: Msg)
    requires Tracks(r, h, frags) && Orderly(r, h, m) && KeyOf(r.host, m).Key? && m.header.more
    requires FirstWith(frags, KeyOf(r.host, m).id) == |frags|
    ensures Tracks(r, h + [m], [[KeyOf(r.host, m).m]] + frags)
  {
    hide KeyOf, Pieces, Holds, FirstWith, Raw, RequestId;
    var id, p := KeyOf(r.host, m).id, KeyOf(r.host, m).m;
    var f := [[p]] + frags;
    assert AtId(r, h, frags, id);
    HoldsOne(r, m, id, p);
    assert [] + [p] == [p];
    InFront(frags, p, id);
    forall i: nat ensures AtId(r, h + [m], f, i) {
      assert AtId(r, h, frags, i);
      PiecesStep(r, h, m, i);
      InFrontAt(frags, p, id, i);
    }
  }

  lemma InFront(frags: seq<seq<Msg>>, p: Msg, id: nat)
    requires Separate(frags) && RequestId(p) == id && p.header.kind != FRAGMENT && FirstWith(frags, id) == |frags|
    ensures Separate([[p]] + frags)
  {
    hide RequestId;
    var f := [[p]] + frags;
    assert forall k :: 0 < k < |f| ==> f[k] == frags[k - 1];
  }

  lemma InFrontAt(frags: seq<seq<Msg>>, p: Msg, id: nat, i: nat)
    requires RequestId(p) == id && FirstWith(frags, id) == |frags|
    ensures FirstWith([[p]] + frags, i) == if i == id then 0 else FirstWith(frags, i) + 1
  {
    hide FirstWith, RequestId;
    var f := [[p]] + frags;
    assert forall k :: 0 < k < |f| ==> f[k] == frags[k - 1];
    FirstIs(f, i, if i == id then 0 else FirstWith(frags, i) + 1);
  }

  lemma Continues(r: Rules, h: seq<Msg>, frags: seq<seq<Msg>>, m: Msg)
    requires Tracks(r, h, frags) && KeyOf(r.host, m).Key? && m.header.more
    requires FirstWith(frags, KeyOf(r.host, m).id) < |frags|
    ensures var k := FirstWith(frags, KeyOf(r.host, m).id);
            Tracks(r, h + [m], frags[k := Join(frags[k], KeyOf(r.host, m).m)])
  {
    hide KeyOf, Pieces, Holds, FirstWith, Join, RequestId;
    var id, p := KeyOf(r.host, m).id, KeyOf(r.host, m).m;
    var k := FirstWith(frags, id);
    assert AtId(r, h, frags, id);
    JoinHolds(frags[k], Pieces(r, h, id), p);
    Longer(frags, k, p);
    var f := frags[k := Join(frags[k], p)];
    forall i: nat ensures AtId(r, h + [m], f, i) {
      assert AtId(r, h, frags, i);
      PiecesStep(r, h, m, i);
      LongerAt(frags, k, p, i);
    }
  }

  lemma Longer(frags: seq<seq<Msg>>, k: nat, p: Msg)
    requires Separate(frags) && k < |frags|
    ensures Separate(frags[k := Join(frags[k], p)])
  {
  }

  lemma LongerAt(frags: seq<seq<Msg>>, k: nat, p: Msg, i: nat)
    requires Separate(frags) && k < |frags|
    ensures FirstWith(frags[k := Join(frags[k], p)], i) == FirstWith(frags, i)
    ensures FirstWith(frags, i) == k ==> RequestId(frags[k][0]) == i
  {
    FirstIs(frags[k := Join(frags[k], p)], i, FirstWith(frags, i));
  }

  lemma Closes(r: Rules, h: seq<Msg>, frags: seq<seq<Msg>>, m: Msg)
    requires Tracks(r, h, frags) && KeyOf(r.host, m).Key? && !m.header.more
    requires FirstWith(frags, KeyOf(r.host, m).id) < |frags|
    ensures var k := FirstWith(frags, KeyOf(r.host, m).id); Tracks(r, h + [m], frags[..k] + frags[k + 1..])
  {
    hide KeyOf, Pieces, Holds, FirstWith, RequestId;
    var id := KeyOf(r.host, m).id;
    var k := FirstWith(frags, id);
    Without(frags, k);
    var f := frags[..k] + frags[k + 1..];
    forall i: nat ensures AtId(r, h + [m], f, i) {
      assert AtId(r, h, frags, i);
      PiecesStep(r, h, m, i);
      WithoutAt(frags, k, i);
    }
  }

  lemma Without(frags: seq<seq<Msg>>, k: nat)
    requires Separate(frags) && k < |frags|
    ensures Separate(frags[..k] + frags[k + 1..])
  {
    hide RequestId;
  }

  lemma WithoutAt(frags: seq<seq<Msg>>, k: nat, i: nat)
    requires Separate(frags) && k < |frags|
    ensures var f, was := frags[..k] + frags[k + 1..], FirstWith(frags, i);
            && (was == k || was == |frags| ==> FirstWith(f, i) == |f|)
            && (was != k && was < |frags| ==> FirstWith(f, i) < |f| && f[FirstWith(f, i)] == frags[was])
    ensures FirstWith(frags, i) == k ==> RequestId(frags[k][0]) == i
  {
    hide FirstWith, RequestId;
    var f, was := frags[..k] + frags[k + 1..], FirstWith(frags, i);
    forall j | 0 <= j < |f| ensures f[j] == frags[if j < k then j else j + 1] {}
    FirstIs(f, i, if was == k then |f| else if was < k then was else was - 1);
  }

  /** The sets after the arrivals `h`, as long as nothing went wrong. */
  function SetsAfter(r: Rules, h: seq<Msg>): Sets
  {
    if h == [] then Sets([])
    else
      match SetsAfter(r, h[..|h| - 1])
      case Stopped => Stopped
      case Sets(frags) =>
        match Fragmented(r, frags, h[|h| - 1])
        case Kept(f) => Sets(f)
        case Complete(f, whole) => Sets(f)
        case _ => Stopped
  }

  datatype Sets = Sets(frags: seq<seq<Msg>>) | Stopped

  /** Over any interleaving of orderly senders the sets track every message separately. */
  lemma {:induction false} Interleaving(r: Rules, h: seq<Msg>)
    requires forall i :: 0 <= i < |h| ==> Orderly(r, h[..i], h[i])
    ensures SetsAfter(r, h).Sets? ==> Tracks(r, h, SetsAfter(r, h).frags)
  {
    if h != [] {
      var g := h[..|h| - 1];
      forall i | 0 <= i < |g| ensures Orderly(r, g[..i], g[i]) {
        assert g[..i] == h[..i];
      }
      Interleaving(r, g);
      if SetsAfter(r, g).Sets? {
        Arrival(r, g, SetsAfter(r, g).frags, h[|h| - 1]);
        assert g + [h[|h| - 1]] == h;
      }
    } else {
      forall id: nat ensures AtId(r, h, [], id) {}
    }
  }

  // ------------------------------------------------------------ orphans

  /** The first set found under id 0 is headed by a FRAGMENT, which reports no id of its own. */
  ghost predicate Haunted(frags: seq<seq<Msg>>)
  {
    var k := FirstWith(frags, 0);
    k < |frags| && frags[k][0].header.kind == FRAGMENT
  }

  /** Some piece did not continue an opened message. */
  ghost predicate Disorderly(r: Rules, h: seq<Msg>)
  {
    exists i :: 0 <= i < |h| && !Orderly(r, h[..i], h[i])
  }

  lemma HeadId(r: Rules, m: Msg)
    requires KeyOf(r.host, m).Key?
    ensures var k := KeyOf(r.host, m); RequestId(k.m) == if m.header.kind == FRAGMENT then 0 else k.id
  {
  }

  /** Nothing that goes well gets rid of the orphan. */
  lemma StaysHaunted(r: Rules, frags: seq<seq<Msg>>, m: Msg)
    requires Haunted(frags) && Raw(r, m)
    ensures match Fragmented(r, frags, m)
            case Kept(f) => Haunted(f)
            case Complete(f, whole) => Haunted(f)
            case _ => true
  {
    hide Join, Fits, Concat, FirstWith, KeyOf, RequestId;
    if KeyOf(r.host, m).Key? {
      var id, p := KeyOf(r.host, m).id, KeyOf(r.host, m).m;
      HeadId(r, m);
      var z, k := FirstWith(frags, 0), FirstWith(frags, id);
      if k == |frags| {
        var f := [[p]] + frags;
        assert forall j :: 0 < j < |f| ==> f[j] == frags[j - 1];
        FirstIs(f, 0, if m.header.kind == FRAGMENT then 0 else z + 1);
      } else if frags[k][0].header.kind != FRAGMENT {
        assert k != z;
        JoinedHead(frags[k], p);
        FirstIs(frags[k := Join(frags[k], p)], 0, z);
        var f := frags[..k] + frags[k + 1..];
        assert forall j :: 0 <= j < |f| ==> f[j] == frags[if j < k then j else j + 1];
        FirstIs(f, 0, if z < k then z else z - 1);
      }
    }
  }

  lemma JoinedHead(list: seq<Msg>, m: Msg)
    requires list != []
    ensures RequestId(Join(list, m)[0]) == RequestId(list[0])
  {
  }

  /** The piece out of order opens a set of its own, in front of all others. */
  lemma OrphanHaunts(r: Rules, h: seq<Msg>, frags: seq<seq<Msg>>, m: Msg)
    requires Tracks(r, h, frags) && Raw(r, m) && !Orderly(r, h, m)
    ensures match Fragmented(r, frags, m)
            case Kept(f) => Haunted(f)
            case Complete(f, whole) => false
            case _ => true
  {
    hide FirstWith, KeyOf, RequestId, Pieces;
    var id, p := KeyOf(r.host, m).id, KeyOf(r.host, m).m;
    assert AtId(r, h, frags, id);
    HeadId(r, m);
    FirstIs([[p]] + frags, 0, 0);
  }

  /** Either every piece was in order and the sets track the messages, or the orphan is there for good. */
  lemma {:induction false} TrackedOrHaunted(r: Rules, h: seq<Msg>)
    requires SetsAfter(r, h).Sets? && forall i :: 0 <= i < |h| ==> Raw(r, h[i])
    ensures if Disorderly(r, h) then Haunted(SetsAfter(r, h).frags) else Tracks(r, h, SetsAfter(r, h).frags)
  {
    hide Fragmented, Orderly, Tracks, Haunted, Raw;
    if h == [] {
      Interleaving(r, h);
    } else {
      var n := |h| - 1;
      var g, m := h[..n], h[n];
      assert forall i :: 0 <= i < n ==> g[i] == h[i] && g[..i] == h[..i];
      TrackedOrHaunted(r, g);
      if Disorderly(r, g) {
        var i :| 0 <= i < n && !Orderly(r, g[..i], g[i]);
        assert !Orderly(r, h[..i], h[i]);
        StaysHaunted(r, SetsAfter(r, g).frags, m);
      } else if !Orderly(r, g, m) {
        assert !Orderly(r, h[..n], h[n]);
        OrphanHaunts(r, g, SetsAfter(r, g).frags, m);
      } else {
        assert forall i :: 0 <= i < |h| ==> Orderly(r, h[..i], h[i]) by {
          forall i | 0 <= i < |h| ensures Orderly(r, h[..i], h[i]) {
            if i < n { assert Orderly(r, g[..i], g[i]); }
          }
        }
        Interleaving(r, h);
      }
    }
  }

  /**
   The assertion that a set's head is no FRAGMENT fails exactly for a piece with
   id 0 after a FRAGMENT that nothing had opened, however long ago.
   */
  lemma AssertionFails(r: Rules, h: seq<Msg>, m: Msg)
    requires SetsAfter(r, h).Sets? && (forall i :: 0 <= i < |h| ==> Raw(r, h[i])) && Raw(r, m) && KeyOf(r.host, m).Key?
    ensures var frags, id := SetsAfter(r, h).frags, KeyOf(r.host, m).id;
            var k := GetFrag(frags, id, m.header.minor == 1);
            (k < |frags| && frags[k][0].header.kind == FRAGMENT) <==> id == 0 && Disorderly(r, h)
  {
    hide Fragmented, Orderly, KeyOf;
    TrackedOrHaunted(r, h);
  }

  /** A FRAGMENT for message 7 that nothing opened, and a REQUEST with id 0. */
  const ORPHAN: Msg := Msg(Header(2, FRAGMENT, true, Little, 4), 4, [7, 0, 0, 0], 0, HEADER_SIZE)
  const VICTIM: Msg := Msg(Header(2, REQUEST, true, Little, 1), 1, [0], 0, HEADER_SIZE)

  /** The shortest such run. */
  lemma OrphanFragment(r: Rules)
    requires r.host.Little? && (r.isAuth || r.limit >= 4)
    ensures Raw(r, ORPHAN) && Raw(r, VICTIM) && !Orderly(r, [], ORPHAN)
    ensures SetsAfter(r, [ORPHAN]).Sets?
    ensures Fragmented(r, SetsAfter(r, [ORPHAN]).frags, VICTIM) == Broken
  {
    hide Fetch, Fragmented, SetsAfter;
    OrphanKey(r);
    var p := Msg(ORPHAN.header, 4, ORPHAN.body, 0, 16);
    OrphanKept(r, p);
    OneStep(r, ORPHAN, [[p]]);
    FirstIs([[p]], 0, 0);
    VictimBreaks(r, p);
  }

  lemma OrphanKey(r: Rules)
    requires r.host.Little?
    ensures KeyOf(r.host, ORPHAN) == Key(7, Msg(ORPHAN.header, 4, ORPHAN.body, 0, 16))
  {
    assert Number([7, 0, 0, 0]) == 7 by {
      assert [7, 0, 0, 0][1..] == [0, 0, 0] && [0, 0, 0][1..] == [0, 0] && [0, 0][1..] == [0] && [0][1..] == [];
      assert Number([0]) == 0 + 256 * Number([]) && Number([0, 0]) == 0 && Number([0, 0, 0]) == 0;
    }
    assert ORPHAN.body[0..4] == [7, 0, 0, 0];
  }

  lemma OrphanKept(r: Rules, p: Msg)
    requires KeyOf(r.host, ORPHAN) == Key(7, p) && (r.isAuth || r.limit >= 4)
    ensures Fragmented(r, [], ORPHAN) == Kept([[p]])
  {
    hide KeyOf, Fetch;
    assert [[p]] + [] == [[p]];
  }

  lemma OneStep(r: Rules, m: Msg, frags: seq<seq<Msg>>)
    requires Fragmented(r, [], m) == Kept(frags)
    ensures SetsAfter(r, [m]) == Sets(frags)
  {
    hide Fragmented;
    assert [m][..0] == [];
  }

  lemma VictimBreaks(r: Rules, p: Msg)
    requires GetFrag([[p]], 0, false) == 0 && p.header.kind == FRAGMENT
    ensures Fragmented(r, [[p]], VICTIM) == Broken
  {
    hide GetFrag, Fetch;
    assert KeyOf(r.host, VICTIM) == Key(0, VICTIM);
  }
}
