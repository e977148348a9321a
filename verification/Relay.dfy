/**
 The decoders on arbitrary bytes. Whatever they accept, from a peer of any kind
 or from a damaged message, is a graph, respectively a value, that the encoders
 support; so what a process accepts it can hand on without loss.
 */
module Relay {
  import opened Cdr
  import opened Common
  import opened TypeCodes
  import opened TypeCodeCodec
  import opened TypeCodeRoundTrip
  import opened Values
  import opened ValueRoundTrip
  import Ior
  import IorRoundTrip

  // ------------------------------------------------------------ what the decoder knows

  /** The addresses of the nodes that have one. */
  ghost function Nodes(prior: seq<Known>): set<nat>
  {
    set x | x in prior && !x.tc.Basic? :: x.index
  }

  ghost predicate Below(ids: set<nat>, bound: nat)
  {
    forall id :: id in ids ==> id < bound
  }

  ghost predicate Good(tc: TypeCode, prior: seq<Known>) { Shaped(tc) && Shared(tc, AsMap(prior)) }

  /** Every entry is a graph over the entries, under its own address. */
  ghost predicate Sane(prior: seq<Known>, bound: nat)
  {
    forall x :: x in prior ==> x.index < bound && Good(x.tc, prior) && (x.tc.Basic? || x.tc.id == x.index)
  }

  /** `outer` was registered in front of the current encapsulation, `seen` in front of the cursor. */
  ghost predicate Ready(c: RecvBuf, m: Model, prior: seq<Known>, outer: set<nat>, seen: set<nat>)
  {
    && c.Valid() && c.body <= c.cur <= c.end < Limit(m)
    && Sane(prior, c.cur) && Nodes(prior) <= seen && Below(seen, c.cur) && Below(outer, c.body)
  }

  /** From cursor `lo` to cursor `hi` the nodes `ids` were registered. */
  ghost predicate Stepped(prior: seq<Known>, prior2: seq<Known>, lo: nat, hi: nat, ids: set<nat>)
  {
    && lo <= hi && Sane(prior2, hi) && Extends(AsMap(prior), AsMap(prior2))
    && (forall x :: x in prior2 ==> x in prior || lo <= x.index)
    && Nodes(prior2) <= Nodes(prior) + ids && ids <= AsMap(prior2).Keys
  }

  lemma {:induction false} Listed(prior: seq<Known>)
    ensures forall x :: x in prior ==> x.index in AsMap(prior)
    ensures forall i :: i in AsMap(prior) ==> exists x :: x in prior && x.index == i
  {
    if prior != [] {
      Listed(prior[1..]);
      assert prior == [prior[0]] + prior[1..];
      forall i | i in AsMap(prior) ensures exists x :: x in prior && x.index == i {
        if i == prior[0].index {
          assert prior[0] in prior;
        } else {
          var x :| x in prior[1..] && x.index == i;
          assert x in prior;
        }
      }
    }
  }

  lemma KeysBelow(prior: seq<Known>, bound: nat)
    requires Sane(prior, bound)
    ensures Below(AsMap(prior).Keys, bound)
  {
    Listed(prior);
  }

  lemma SharedGrows(tc: TypeCode, f: map<nat, TypeCode>, g: map<nat, TypeCode>)
    requires Shared(tc, f) && Extends(f, g)
    ensures Shared(tc, g) && Ids(tc) <= f.Keys
    decreases tc
  {
    if tc.Complex? { SharedBodyGrows(tc.body, f, g); }
  }

  lemma SharedBodyGrows(body: Body, f: map<nat, TypeCode>, g: map<nat, TypeCode>)
    requires SharedBody(body, f) && Extends(f, g)
    ensures SharedBody(body, g) && BodyIds(body) <= f.Keys
    decreases body
  {
    match body
    case Reference(_, _) =>
    case Record(_, _, ms) => SharedPartsGrows(ms, f, g);
    case Choice(_, _, disc, _, arms) => SharedGrows(disc, f, g); SharedPartsGrows(arms, f, g);
    case Enumeration(_, _, _) =>
    case Element(elem, _) => SharedGrows(elem, f, g);
    case Renamed(_, _, elem) => SharedGrows(elem, f, g);
  }

  lemma SharedPartsGrows(ps: Parts, f: map<nat, TypeCode>, g: map<nat, TypeCode>)
    requires SharedParts(ps, f) && Extends(f, g)
    ensures SharedParts(ps, g) && PartsIds(ps) <= f.Keys
    decreases ps
  {
    if ps.Part? {
      SharedGrows(ps.tc, f, g);
      SharedPartsGrows(ps.rest, f, g);
    }
  }

  lemma ReadyNext(c: RecvBuf, m: Model, prior: seq<Known>, outer: set<nat>, seen: set<nat>, prior2: seq<Known>, hi: nat, ids: set<nat>)
    requires Ready(c, m, prior, outer, seen) && Stepped(prior, prior2, c.cur, hi, ids) && hi <= c.end
    ensures Ready(c.(cur := hi), m, prior2, outer, seen + ids)
  {
    KeysBelow(prior2, hi);
  }

  lemma ReadyShift(c: RecvBuf, m: Model, prior: seq<Known>, outer: set<nat>, seen: set<nat>, hi: nat)
    requires Ready(c, m, prior, outer, seen) && c.cur <= hi <= c.end
    ensures Ready(c.(cur := hi), m, prior, outer, seen)
  {
  }

  lemma NotStepped(prior: seq<Known>, lo: nat, hi: nat)
    requires Sane(prior, lo) && lo <= hi
    ensures Stepped(prior, prior, lo, hi, {})
  {
  }

  lemma SteppedTwice(p1: seq<Known>, p2: seq<Known>, p3: seq<Known>, a: nat, b: nat, b2: nat, d: nat, ids: set<nat>, ids2: set<nat>)
    requires Stepped(p1, p2, a, b, ids) && Stepped(p2, p3, b2, d, ids2) && b <= b2
    ensures Stepped(p1, p3, a, d, ids + ids2)
  {
  }

  lemma SteppedWider(p1: seq<Known>, p2: seq<Known>, a: nat, b: nat, a2: nat, b2: nat, ids: set<nat>)
    requires Stepped(p1, p2, a, b, ids) && a2 <= a && b <= b2
    ensures Stepped(p1, p2, a2, b2, ids)
  {
  }

  lemma SteppedExtends(prior: seq<Known>, prior2: seq<Known>, lo: nat, hi: nat, ids: set<nat>)
    requires Stepped(prior, prior2, lo, hi, ids)
    ensures Extends(AsMap(prior), AsMap(prior2))
  {
  }

  /** A finished node joins the list under a new index. */
  lemma Register(prior: seq<Known>, prior2: seq<Known>, lo: nat, mid: nat, end: nat, hi: nat, a: nat, tc: TypeCode, ids: set<nat>)
    requires Sane(prior, lo) && Stepped(prior, prior2, mid, end, ids) && lo <= a < mid && end <= hi
    requires Shaped(tc) && (tc.Basic? || tc.id == a)
    requires Shared(tc, AsMap(prior2)[a := tc])
    ensures tc.Basic? ==> Stepped(prior, [Known(a, tc)] + prior2, lo, hi, ids)
    ensures !tc.Basic? ==> Stepped(prior, [Known(a, tc)] + prior2, lo, hi, {a} + ids)
    ensures Good(tc, [Known(a, tc)] + prior2) && AsMap([Known(a, tc)] + prior2) == AsMap(prior2)[a := tc]
  {
    hide Shaped, Shared;
    Listed(prior);
    Listed(prior2);
    var prior3 := [Known(a, tc)] + prior2;
    assert prior3[1..] == prior2;
    assert a !in AsMap(prior2);
    forall x | x in prior3 ensures x.index < hi && Good(x.tc, prior3) && (x.tc.Basic? || x.tc.id == x.index) {
      if x in prior2 {
        SharedGrows(x.tc, AsMap(prior2), AsMap(prior3));
      }
    }
    forall id | id in Nodes(prior3) ensures id in Nodes(prior) + ids || (id == a && !tc.Basic?) {
      var x :| x in prior3 && !x.tc.Basic? && x.index == id;
      if x in prior2 {
        assert id in Nodes(prior2);
      }
    }
  }

  lemma {:induction false} FindsListed(m: Model, prior: seq<Known>, offset: nat, currentIdx: int, rptr: int)
    ensures var r := FindPrior(m, prior, offset, currentIdx, rptr);
            r.Some? ==> exists x :: x in prior && x.tc == r.value && OffsetMatches(m, offset, x.index, currentIdx, rptr)
  {
    if prior != [] {
      if OffsetMatches(m, offset, prior[0].index, currentIdx, rptr) {
        assert prior[0] in prior;
      } else {
        FindsListed(m, prior[1..], offset, currentIdx, rptr);
        if FindPrior(m, prior[1..], offset, currentIdx, rptr).Some? {
          var x :| x in prior[1..] && x.tc == FindPrior(m, prior[1..], offset, currentIdx, rptr).value &&
                   OffsetMatches(m, offset, x.index, currentIdx, rptr);
          assert x in prior;
        }
      }
    }
  }

  /** With 64-bit pointers no offset whatsoever leads out of the encapsulation. */
  lemma NeverOutside(offset: nat, index: nat, currentIdx: nat, rptr: nat)
    requires offset < TWO32 && currentIdx + rptr < 0x8000_0000
    ensures OffsetMatches(LP64, offset, index, currentIdx, rptr) ==> index >= currentIdx
  {
    if index < currentIdx {
      Quotient(index - currentIdx, TWO32, -1, index - currentIdx + TWO32);
    }
  }

  // ------------------------------------------------------------ TypeCodes

  ghost predicate TcSafe(c: RecvBuf, m: Model, prior: seq<Known>, outer: set<nat>, seen: set<nat>, r: Dec<TypeCode>)
  {
    r.Done? ==>
      && Stepped(prior, r.prior, c.cur, r.rest.cur, Ids(r.value)) && Good(r.value, r.prior)
      && (m.LP64? ==> Local(r.value, outer, seen))
  }

  ghost predicate BodySafe(kind: nat, c: RecvBuf, m: Model, prior: seq<Known>, outer: set<nat>, seen: set<nat>, r: Dec<Body>)
  {
    r.Done? ==>
      && Stepped(prior, r.prior, c.cur, r.rest.cur, BodyIds(r.value))
      && ShapedBody(kind, r.value) && SharedBody(r.value, AsMap(r.prior))
      && (m.LP64? ==> LocalBody(r.value, outer, seen))
  }

  ghost predicate PartsSafe(kind: nat, c: RecvBuf, m: Model, prior: seq<Known>, outer: set<nat>, seen: set<nat>, r: Dec<Parts>)
  {
    r.Done? ==>
      && Stepped(prior, r.prior, c.cur, r.rest.cur, PartsIds(r.value))
      && ShapedParts(kind, r.value) && SharedParts(r.value, AsMap(r.prior))
      && (m.LP64? ==> LocalParts(r.value, outer, seen))
  }

  predicate Encapsulated(kind: nat)
  {
    !IsBasic(kind) && kind < TK_LAST && kind !in {TK_STRING, TK_WSTRING}
  }

  lemma WordBelow(c: RecvBuf, w: nat)
    requires c.Valid() && w > 0
    ensures GetWord(c, w).Got? ==> GetWord(c, w).value < Pow256(w)
  {
    var a := Align(c.cur, w);
    if a + w <= c.end {
      StoreFetch(c.host, c.flag, c.data[a..a + w]);
    }
  }

  lemma {:induction false} TcAccepted(c: RecvBuf, m: Model, prior: seq<Known>, outer: set<nat>, seen: set<nat>)
    requires Ready(c, m, prior, outer, seen)
    ensures TcSafe(c, m, prior, outer, seen, TcDec(c, m, c.body, prior))
    decreases c.end - c.cur, 1
  {
    hide TcDec, TcSafe, Sane, Shared;
    PowerValues();
    WordBelow(c, 4);
    match GetWord(c, 4)
    case Short => TcNeedsKind(c, m, prior, outer, seen);
    case Got(kind, c1) =>
      if kind == TK_RECURSIVE {
        BackAccepted(c, m, prior, outer, seen, c1);
      } else if Encapsulated(kind) {
        ComplexAccepted(c, m, prior, outer, seen, kind, c1);
      } else {
        LeafAccepted(c, m, prior, outer, seen, kind, c1);
      }
  }

  lemma TcNeedsKind(c: RecvBuf, m: Model, prior: seq<Known>, outer: set<nat>, seen: set<nat>)
    requires Ready(c, m, prior, outer, seen) && GetWord(c, 4).Short?
    ensures TcSafe(c, m, prior, outer, seen, TcDec(c, m, c.body, prior))
  {
  }

  lemma BackAccepted(c: RecvBuf, m: Model, prior: seq<Known>, outer: set<nat>, seen: set<nat>, c1: RecvBuf)
    requires Ready(c, m, prior, outer, seen) && GetWord(c, 4) == Got(TK_RECURSIVE, c1)
    ensures TcSafe(c, m, prior, outer, seen, TcDec(c, m, c.body, prior))
  {
    hide Align;
    var r := TcDec(c, m, c.body, prior);
    PowerValues();
    WordBelow(c1, 4);
    if r.Done? {
      var offset, rptr := GetWord(c1, 4).value, r.rest.cur - c.body;
      FindsListed(m, prior, offset, c.body, rptr);
      var x :| x in prior && x.tc == r.value && OffsetMatches(m, offset, x.index, c.body, rptr);
      assert Good(x.tc, prior);
      SharedGrows(x.tc, AsMap(prior), AsMap(prior));
      NotStepped(prior, c.cur, r.rest.cur);
      if m.LP64? {
        NeverOutside(offset, x.index, c.body, rptr);
        if !x.tc.Basic? {
          assert x.index in Nodes(prior);
        }
      }
    }
  }

  lemma LeafAccepted(c: RecvBuf, m: Model, prior: seq<Known>, outer: set<nat>, seen: set<nat>, kind: nat, c1: RecvBuf)
    requires Ready(c, m, prior, outer, seen) && GetWord(c, 4) == Got(kind, c1) && kind != TK_RECURSIVE && !Encapsulated(kind)
    ensures TcSafe(c, m, prior, outer, seen, TcDec(c, m, c.body, prior))
  {
    hide Sane;
    var r := TcDec(c, m, c.body, prior);
    PowerValues();
    WordBelow(c1, 4);
    if r.Done? {
      var a := c1.cur - 4;
      assert r.prior == [Known(a, r.value)] + prior;
      NotStepped(prior, c.cur, c.cur) by { assert Sane(prior, c.cur); }
      SteppedWider(prior, prior, c.cur, c.cur, c.cur, r.rest.cur, {});
      RegisterLeaf(prior, c.cur, a, r.rest.cur, r.value);
    }
  }

  lemma RegisterLeaf(prior: seq<Known>, lo: nat, a: nat, hi: nat, tc: TypeCode)
    requires Sane(prior, lo) && lo <= a < hi && Shaped(tc) && !tc.Complex? && (tc.Basic? || tc.id == a)
    ensures Stepped(prior, [Known(a, tc)] + prior, lo, hi, Ids(tc)) && Good(tc, [Known(a, tc)] + prior)
  {
    SaneLater(prior, lo, a + 1);
    NotStepped(prior, a + 1, a + 1);
    Register(prior, prior, lo, a + 1, a + 1, hi, a, tc, {});
  }

  lemma SaneLater(prior: seq<Known>, lo: nat, hi: nat)
    requires Sane(prior, lo) && lo <= hi
    ensures Sane(prior, hi)
  {
  }

  lemma {:induction false} ComplexAccepted(c: RecvBuf, m: Model, prior: seq<Known>, outer: set<nat>, seen: set<nat>, kind: nat, c1: RecvBuf)
    requires Ready(c, m, prior, outer, seen) && GetWord(c, 4) == Got(kind, c1) && Encapsulated(kind)
    ensures TcSafe(c, m, prior, outer, seen, TcDec(c, m, c.body, prior))
    decreases c.end - c.cur, 0
  {
    hide TcDec, BodyDec, Sane, Shared, SharedBody, ShapedBody, LocalBody;
    var a := c1.cur - 4;
    ComplexSteps(c, m, prior, kind, c1);
    if UseEncaps(c1).Got? {
      var inner, c2 := UseEncaps(c1).value, UseEncaps(c1).rest;
      assert Ready(inner, m, prior, seen + {a}, seen + {a}) by { SaneLater(prior, c.cur, inner.cur); }
      BodyAccepted(kind, inner, m, prior, seen + {a}, seen + {a});
      var rb := BodyDec(kind, inner, m, inner.body, prior);
      if rb.Done? {
        assert BodySafe(kind, inner, m, prior, seen + {a}, seen + {a}, rb);
        var tc := Complex(a, kind, rb.value);
        EnterNode(prior, rb.prior, c.cur, inner.cur, rb.rest.cur, c2.cur, a, tc);
      }
    }
  }

  lemma EnterNode(prior: seq<Known>, prior2: seq<Known>, lo: nat, mid: nat, end: nat, hi: nat, a: nat, tc: TypeCode)
    requires tc.Complex? && Sane(prior, lo) && Stepped(prior, prior2, mid, end, BodyIds(tc.body)) && lo <= a < mid && end <= hi
    requires tc.id == a && ShapedBody(tc.kind, tc.body) && SharedBody(tc.body, AsMap(prior2))
    ensures Stepped(prior, [Known(a, tc)] + prior2, lo, hi, Ids(tc)) && Good(tc, [Known(a, tc)] + prior2)
  {
    hide Sane, SharedBody, ShapedBody;
    assert a !in AsMap(prior2) by { Fresh(prior, prior2, lo, mid, end, a, BodyIds(tc.body)); }
    SharedBodyGrows(tc.body, AsMap(prior2), AsMap(prior2)[a := tc]);
    Register(prior, prior2, lo, mid, end, hi, a, tc, BodyIds(tc.body));
  }

  lemma Fresh(prior: seq<Known>, prior2: seq<Known>, lo: nat, mid: nat, end: nat, a: nat, ids: set<nat>)
    requires Sane(prior, lo) && Stepped(prior, prior2, mid, end, ids) && lo <= a < mid
    ensures a !in AsMap(prior2)
  {
    Listed(prior2);
  }

  /** TcDec on an encapsulated kind, with its stream index written as a position. */
  lemma ComplexSteps(c: RecvBuf, m: Model, prior: seq<Known>, kind: nat, c1: RecvBuf)
    requires c.Valid() && c.body <= c.cur <= c.end && GetWord(c, 4) == Got(kind, c1) && Encapsulated(kind)
    ensures c.cur <= c1.cur - 4
    ensures UseEncaps(c1).Short? ==> TcDec(c, m, c.body, prior) == Malformed
    ensures UseEncaps(c1).Got? ==>
              var inner := UseEncaps(c1).value;
              var rb := BodyDec(kind, inner, m, inner.body, prior);
              var tc := Complex(c1.cur - 4, kind, if rb.Done? then rb.value else Reference([], []));
              && c1.cur - 4 < inner.body < inner.cur <= inner.end == UseEncaps(c1).rest.cur <= c.end
              && TcDec(c, m, c.body, prior) ==
                 if rb.Done? then Done(tc, UseEncaps(c1).rest, [Known(c1.cur - 4, tc)] + rb.prior)
                 else if rb.Aborted? then Aborted else Malformed
  {
    hide BodyDec, UseEncaps, GetWord, Align, FindPrior, Decode;
    assert c1.cur % 4 == 0;
    if UseEncaps(c1).Got? {
      EncapsStart(c1);
    }
  }

  lemma EncapsStart(c: RecvBuf)
    requires c.Valid() && c.cur % 4 == 0 && UseEncaps(c).Got?
    ensures UseEncaps(c).value.body == c.cur + 4
  {
  }

  lemma {:induction false} BodyAccepted(kind: nat, c: RecvBuf, m: Model, prior: seq<Known>, outer: set<nat>, seen: set<nat>)
    requires Ready(c, m, prior, outer, seen) && Encapsulated(kind)
    ensures BodySafe(kind, c, m, prior, outer, seen, BodyDec(kind, c, m, c.body, prior))
    decreases c.end - c.cur, 4
  {
    if kind in {TK_SEQUENCE, TK_ARRAY} {
      ElementAccepted(kind, c, m, prior, outer, seen);
    } else if GetString(c).Got? {
      var c1 := GetString(c).rest;
      if GetString(c1).Got? {
        var c2 := GetString(c1).rest;
        ReadyShift(c, m, prior, outer, seen, c2.cur);
        StringIsCString(c);
        StringIsCString(c1);
        NamedAccepted(kind, GetString(c).value, GetString(c1).value, c2, m, prior, outer, seen);
      }
    }
  }

  lemma StringIsCString(c: RecvBuf)
    requires c.Valid() && GetString(c).Got?
    ensures CString(GetString(c).value)
  {
  }

  lemma {:induction false} ElementAccepted(kind: nat, c: RecvBuf, m: Model, prior: seq<Known>, outer: set<nat>, seen: set<nat>)
    requires Ready(c, m, prior, outer, seen) && kind in {TK_SEQUENCE, TK_ARRAY}
    ensures BodySafe(kind, c, m, prior, outer, seen, BodyDec(kind, c, m, c.body, prior))
    decreases c.end - c.cur, 3
  {
    hide TcDec, Sane, Shared, Shaped;
    TcAccepted(c, m, prior, outer, seen);
    var r := TcDec(c, m, c.body, prior);
    if r.Done? && GetWord(r.rest, 4).Got? {
      PowerValues();
      WordBelow(r.rest, 4);
      SteppedWider(prior, r.prior, c.cur, r.rest.cur, c.cur, GetWord(r.rest, 4).rest.cur, Ids(r.value));
    }
  }

  lemma {:induction false} NamedAccepted(kind: nat, repoId: bytes, name: bytes, c: RecvBuf, m: Model, prior: seq<Known>, outer: set<nat>, seen: set<nat>)
    requires Ready(c, m, prior, outer, seen) && Encapsulated(kind) && kind !in {TK_SEQUENCE, TK_ARRAY} && CString(repoId) && CString(name)
    ensures BodySafe(kind, c, m, prior, outer, seen, NamedDec(kind, repoId, name, c, m, c.body, prior))
    decreases c.end - c.cur, 3
  {
    hide NamedDec, BodySafe, Ready, CString;
    if kind == TK_OBJREF {
      NameOnlyAccepted(repoId, name, c, m, prior, outer, seen);
    } else if kind == TK_ALIAS {
      RenamedAccepted(repoId, name, c, m, prior, outer, seen);
    } else if kind == TK_UNION {
      ChoiceAccepted(repoId, name, c, m, prior, outer, seen);
    } else if kind in {TK_STRUCT, TK_EXCEPT} {
      RecordAccepted(kind, repoId, name, c, m, prior, outer, seen);
    } else if kind == TK_ENUM {
      EnumerationAccepted(repoId, name, c, m, prior, outer, seen);
    } else {
      OthersRefused(kind, repoId, name, c, m, prior, outer, seen);
    }
  }

  lemma NameOnlyAccepted(repoId: bytes, name: bytes, c: RecvBuf, m: Model, prior: seq<Known>, outer: set<nat>, seen: set<nat>)
    requires Ready(c, m, prior, outer, seen) && CString(repoId) && CString(name)
    ensures BodySafe(TK_OBJREF, c, m, prior, outer, seen, NamedDec(TK_OBJREF, repoId, name, c, m, c.body, prior))
  {
    hide Sane, Stepped, CString;
    NotStepped(prior, c.cur, c.cur);
  }

  /** The kinds without a decoder. */
  lemma OthersRefused(kind: nat, repoId: bytes, name: bytes, c: RecvBuf, m: Model, prior: seq<Known>, outer: set<nat>, seen: set<nat>)
    requires Ready(c, m, prior, outer, seen)
    requires kind !in {TK_OBJREF, TK_ALIAS, TK_UNION, TK_ENUM, TK_STRUCT, TK_EXCEPT}
    ensures BodySafe(kind, c, m, prior, outer, seen, NamedDec(kind, repoId, name, c, m, c.body, prior))
  {
    hide Sane, Stepped;
  }

  lemma {:induction false} RenamedAccepted(repoId: bytes, name: bytes, c: RecvBuf, m: Model, prior: seq<Known>, outer: set<nat>, seen: set<nat>)
    requires Ready(c, m, prior, outer, seen) && CString(repoId) && CString(name)
    ensures BodySafe(TK_ALIAS, c, m, prior, outer, seen, NamedDec(TK_ALIAS, repoId, name, c, m, c.body, prior))
    decreases c.end - c.cur, 2
  {
    hide TcDec, Sane, Shared, Shaped, Stepped, CString;
    TcAccepted(c, m, prior, outer, seen);
  }

  lemma {:induction false} ChoiceAccepted(repoId: bytes, name: bytes, c: RecvBuf, m: Model, prior: seq<Known>, outer: set<nat>, seen: set<nat>)
    requires Ready(c, m, prior, outer, seen) && CString(repoId) && CString(name)
    ensures BodySafe(TK_UNION, c, m, prior, outer, seen, NamedDec(TK_UNION, repoId, name, c, m, c.body, prior))
    decreases c.end - c.cur, 2
  {
    hide TcDec, Sane, Shared, Shaped, ArmsDec, Stepped, SharedParts, ShapedParts, CString;
    TcAccepted(c, m, prior, outer, seen);
    var r := TcDec(c, m, c.body, prior);
    if r.Done? {
      ReadyNext(c, m, prior, outer, seen, r.prior, r.rest.cur, Ids(r.value));
      ArmsAccepted(repoId, name, r.value, r.rest, m, r.prior, outer, seen + Ids(r.value));
      var ra := ArmsDec(repoId, name, r.value, r.rest, m, c.body, r.prior);
      if ra.Done? {
        SteppedTwice(prior, r.prior, ra.prior, c.cur, r.rest.cur, r.rest.cur, ra.rest.cur, Ids(r.value), PartsIds(ra.value.arms));
        SteppedExtends(r.prior, ra.prior, r.rest.cur, ra.rest.cur, PartsIds(ra.value.arms));
        SharedGrows(r.value, AsMap(r.prior), AsMap(ra.prior));
      }
    }
  }

  lemma {:induction false} RecordAccepted(kind: nat, repoId: bytes, name: bytes, c: RecvBuf, m: Model, prior: seq<Known>, outer: set<nat>, seen: set<nat>)
    requires Ready(c, m, prior, outer, seen) && kind in {TK_STRUCT, TK_EXCEPT} && CString(repoId) && CString(name)
    ensures BodySafe(kind, c, m, prior, outer, seen, NamedDec(kind, repoId, name, c, m, c.body, prior))
    decreases c.end - c.cur, 2
  {
    hide PartsDec, Sane, Stepped, SharedParts, ShapedParts, CString;
    if GetWord(c, 4).Got? {
      var count, c1 := GetWord(c, 4).value, GetWord(c, 4).rest;
      ReadyShift(c, m, prior, outer, seen, c1.cur);
      PartsAccepted(0, count, c1, m, prior, outer, seen);
      var r := PartsDec(0, count, c1, m, c.body, prior);
      if r.Done? {
        SteppedWider(prior, r.prior, c1.cur, r.rest.cur, c.cur, r.rest.cur, PartsIds(r.value));
      }
    }
  }

  lemma EnumerationAccepted(repoId: bytes, name: bytes, c: RecvBuf, m: Model, prior: seq<Known>, outer: set<nat>, seen: set<nat>)
    requires Ready(c, m, prior, outer, seen) && CString(repoId) && CString(name)
    ensures BodySafe(TK_ENUM, c, m, prior, outer, seen, NamedDec(TK_ENUM, repoId, name, c, m, c.body, prior))
  {
    hide NamesDec, Sane, Stepped;
    if GetWord(c, 4).Got? {
      var count, c1 := GetWord(c, 4).value, GetWord(c, 4).rest;
      NamesAccepted(count, c1);
      if NamesDec(count, c1).Got? {
        var names, c2 := NamesDec(count, c1).value, NamesDec(count, c1).rest;
        assert NamedDec(TK_ENUM, repoId, name, c, m, c.body, prior) == Done(Enumeration(repoId, name, names), c2, prior);
        ShapedNames(repoId, name, names);
        NotStepped(prior, c.cur, c2.cur);
      }
    }
  }

  lemma ShapedNames(repoId: bytes, name: bytes, names: seq<bytes>)
    requires CString(repoId) && CString(name) && CStrings(names)
    ensures ShapedBody(TK_ENUM, Enumeration(repoId, name, names))
  {
  }

  /** The arms behind a discriminator. */
  lemma {:induction false} ArmsAccepted(repoId: bytes, name: bytes, disc: TypeCode, c: RecvBuf, m: Model, prior: seq<Known>, outer: set<nat>, seen: set<nat>)
    requires Ready(c, m, prior, outer, seen)
    ensures var r := ArmsDec(repoId, name, disc, c, m, c.body, prior);
            r.Done? ==>
              && LabelWidth(KindOf(disc)) > 0 && r.value.Choice?
              && r.value == Choice(repoId, name, disc, r.value.defaultIndex, r.value.arms)
              && -0x8000_0000 <= r.value.defaultIndex < 0x8000_0000
              && PartsSafe(KindOf(disc), c, m, prior, outer, seen, Done(r.value.arms, r.rest, r.prior))
    decreases c.end - c.cur, 3
  {
    hide PartsDec, Sane, SharedParts, ShapedParts, Stepped, LocalParts;
    PowerValues();
    if GetWord(c, 4).Got? {
      WordBelow(c, 4);
      var c1 := GetWord(c, 4).rest;
      if GetWord(c1, 4).Got? && LabelWidth(KindOf(disc)) > 0 {
        var count, c2 := GetWord(c1, 4).value, GetWord(c1, 4).rest;
        ReadyShift(c, m, prior, outer, seen, c2.cur);
        PartsAccepted(KindOf(disc), count, c2, m, prior, outer, seen);
        var r := PartsDec(KindOf(disc), count, c2, m, c.body, prior);
        if r.Done? {
          SteppedWider(prior, r.prior, c2.cur, r.rest.cur, c.cur, r.rest.cur, PartsIds(r.value));
        }
      }
    }
  }

  lemma {:induction false} PartsAccepted(kind: nat, count: nat, c: RecvBuf, m: Model, prior: seq<Known>, outer: set<nat>, seen: set<nat>)
    requires Ready(c, m, prior, outer, seen)
    ensures PartsSafe(kind, c, m, prior, outer, seen, PartsDec(kind, count, c, m, c.body, prior))
    decreases c.end - c.cur, 2
  {
    hide TcDec, Sane, Shared, Shaped, Stepped, LabelDec, GetString;
    NotStepped(prior, c.cur, c.cur);
    if count > 0 && LabelDec(kind, c).Got? {
      var tag, c1 := LabelDec(kind, c).value, LabelDec(kind, c).rest;
      LabelAccepted(kind, c);
      if GetString(c1).Got? {
        var c2 := GetString(c1).rest;
        StringIsCString(c1);
        ReadyShift(c, m, prior, outer, seen, c2.cur);
        TcAccepted(c2, m, prior, outer, seen);
        var r := TcDec(c2, m, c.body, prior);
        if r.Done? {
          ReadyNext(c2, m, prior, outer, seen, r.prior, r.rest.cur, Ids(r.value));
          PartsAccepted(kind, count - 1, r.rest, m, r.prior, outer, seen + Ids(r.value));
          var rs := PartsDec(kind, count - 1, r.rest, m, c.body, r.prior);
          if rs.Done? {
            SteppedTwice(prior, r.prior, rs.prior, c2.cur, r.rest.cur, r.rest.cur, rs.rest.cur, Ids(r.value), PartsIds(rs.value));
            SteppedWider(prior, rs.prior, c2.cur, rs.rest.cur, c.cur, rs.rest.cur, Ids(r.value) + PartsIds(rs.value));
            SteppedExtends(r.prior, rs.prior, r.rest.cur, rs.rest.cur, PartsIds(rs.value));
            SharedGrows(r.value, AsMap(r.prior), AsMap(rs.prior));
          }
        }
      }
    }
  }

  lemma LabelAccepted(kind: nat, c: RecvBuf)
    requires c.Valid() && c.cur <= c.end && LabelDec(kind, c).Got?
    ensures var tag := LabelDec(kind, c).value; if LabelWidth(kind) == 0 then tag == 0 else LabelFits(kind, tag)
  {
    PowerValues();
    if LabelWidth(kind) > 0 {
      WordBelow(c, LabelWidth(kind));
    }
  }

  ghost predicate CStrings(names: seq<bytes>)
  {
    forall x :: x in names ==> CString(x)
  }

  lemma NoNames()
    ensures CStrings([])
  {
  }

  lemma CStringFirst(name: bytes, names: seq<bytes>)
    requires CString(name) && CStrings(names)
    ensures CStrings([name] + names)
  {
    hide CString;
  }

  lemma {:induction false} NamesAccepted(count: nat, c: RecvBuf)
    requires c.Valid() && c.cur <= c.end
    ensures var r := NamesDec(count, c); r.Got? ==> CStrings(r.value)
    decreases count
  {
    hide CString, CStrings;
    assert CStrings([]) by { NoNames(); }
    if count > 0 && GetString(c).Got? {
      var name, c1 := GetString(c).value, GetString(c).rest;
      StringIsCString(c);
      NamesAccepted(count - 1, c1);
      if NamesDec(count - 1, c1).Got? {
        var names := NamesDec(count - 1, c1).value;
        assert NamesDec(count, c).value == [name] + names;
        CStringFirst(name, names);
      }
    }
  }

  /**
   Whatever bytes ORBit_decode_CORBA_TypeCode accepts, the result is a well-formed
   graph whose nodes are told apart by their addresses. On a 64-bit host it is
   also local, so the encoder's output for it is decoded there again.
   */
  lemma AcceptedIsGraph(c: RecvBuf, m: Model)
    requires c.Valid() && c.body == 0 && c.cur <= c.end < Limit(m) && Decode(c, m).Done?
    ensures Graph(Decode(c, m).value)
    ensures m.LP64? ==> Local(Decode(c, m).value, {}, {})
  {
    TcAccepted(c, m, [], {}, {});
  }

  // ------------------------------------------------------------ values

  ghost predicate ValueSafe(tc: TypeCode, m: Model, r: Dem<Value>)
  {
    r.Ok? ==> Fits(tc, r.value) && (m.LP64? ==> AllLocal(r.value))
  }

  /** The facts every step starts from. */
  ghost predicate Readable(c: RecvBuf, m: Model)
  {
    c.Valid() && c.body == 0 && c.cur <= c.end < Limit(m)
  }

  lemma {:induction false} ShapedSkip(tc: TypeCode)
    requires Shaped(tc)
    ensures Shaped(SkipAlias(tc)) && SkipAlias(SkipAlias(tc)) == SkipAlias(tc)
    decreases tc
  {
    if tc.kind == TK_ALIAS && tc.Complex? && tc.body.Renamed? {
      ShapedSkip(tc.body.elem);
    }
  }

  /** Behind an alias is the value that its type has. */
  lemma FitsSkip(tc: TypeCode, v: Value)
    requires Shaped(tc) && Fits(SkipAlias(tc), v)
    ensures Fits(tc, v)
  {
    ShapedSkip(tc);
  }

  /**
   Whatever bytes ORBit_demarshal_value accepts for a type, the result is a
   value of that type as the marshaller supports it, and on a 64-bit host all
   TypeCodes inside it are local.
   */
  lemma {:induction false} AcceptedFits(tc: TypeCode, c: RecvBuf, m: Model)
    requires Shaped(tc) && Readable(c, m)
    ensures ValueSafe(tc, m, ValueDec(tc, c, m))
    decreases c.end - c.cur, Size(tc), 0, 1
  {
    hide Fits, Shaped, ValueDec;
    var t := SkipAlias(tc);
    ShapedSkip(tc);
    assert ValueDec(tc, c, m) == ValueDec(t, c, m) by { DecSkips(tc, c, m); }
    if KindOf(t) in {TK_ANY, TK_TYPECODE} {
      CodeAccepted(t, c, m);
    } else if t.Complex? && Width(t.kind) == 0 {
      CompoundAccepted(t, c, m);
    } else {
      LeafFits(t, c, m);
    }
    if ValueDec(tc, c, m).Ok? {
      FitsSkip(tc, ValueDec(tc, c, m).value);
    }
  }

  lemma DecSkips(tc: TypeCode, c: RecvBuf, m: Model)
    requires Shaped(tc) && Readable(c, m)
    ensures ValueDec(tc, c, m) == ValueDec(SkipAlias(tc), c, m)
  {
    ShapedSkip(tc);
  }

  lemma LeafFits(t: TypeCode, c: RecvBuf, m: Model)
    requires Shaped(t) && (t.Complex? ==> Width(t.kind) > 0) && SkipAlias(t) == t && KindOf(t) !in {TK_ANY, TK_TYPECODE} && Readable(c, m)
    ensures ValueSafe(t, m, ValueDec(t, c, m))
  {
    var k := KindOf(t);
    if Width(k) > 0 {
      WordBelow(c, Width(k));
    } else if k == TK_WSTRING {
      WideAccepted(c);
    }
  }

  lemma WideAccepted(c: RecvBuf)
    requires c.Valid() && c.cur <= c.end
    ensures var r := WideDec(c); r.Ok? ==> r.value.Wide? && WideString(r.value.units)
  {
    if GetWord(c, 4).Got? && GetBytes(GetWord(c, 4).rest, GetWord(c, 4).value).Got? {
      var raw := GetBytes(GetWord(c, 4).rest, GetWord(c, 4).value).value;
      var (order, marked) := WideOrder(c.host, raw);
      UnitsBelow(order, if marked then raw[2..] else raw);
    }
  }

  lemma {:induction false} UnitsBelow(e: Endian, b: bytes)
    ensures WideString(UpToZero(Units(e, b)))
    decreases |b|
  {
    if |b| >= 2 {
      PowerValues();
      StoreFetch(e, e, b[..2]);
      UnitsBelow(e, b[2..]);
      var u := Units(e, b);
      assert u[0] == Load(e, b[..2]) && u[1..] == Units(e, b[2..]);
    }
  }

  lemma {:induction false} CodeAccepted(t: TypeCode, c: RecvBuf, m: Model)
    requires Shaped(t) && KindOf(t) in {TK_ANY, TK_TYPECODE} && Readable(c, m)
    ensures ValueSafe(t, m, ValueDec(t, c, m))
    decreases c.end - c.cur, Size(t), 0, 0
  {
    hide Shaped, Local, ValueDec, Decode, Fits, Graph;
    if CodeDec(c, m).Ok? {
      AcceptedIsGraph(c, m);
      var inner, c1 := CodeDec(c, m).value, CodeDec(c, m).rest;
      assert Shaped(inner) by { assert Graph(inner); }
      CodeSteps(t, c, m);
      if KindOf(t) == TK_ANY {
        AcceptedFits(inner, c1, m);
        if ValueDec(inner, c1, m).Ok? {
          AnyFits(t, inner, ValueDec(inner, c1, m).value);
        }
      } else {
        AnyFits(t, inner, Nothing);
      }
    } else {
      CodeSteps(t, c, m);
    }
  }

  lemma AnyFits(t: TypeCode, inner: TypeCode, v: Value)
    requires t.Basic? && Graph(inner)
    ensures KindOf(t) == TK_TYPECODE ==> Fits(t, Code(inner))
    ensures KindOf(t) == TK_ANY && Fits(inner, v) ==> Fits(t, AnyOf(inner, v))
  {
  }

  lemma CodeSteps(t: TypeCode, c: RecvBuf, m: Model)
    requires Shaped(t) && KindOf(t) in {TK_ANY, TK_TYPECODE} && Readable(c, m)
    ensures t.Basic? && SkipAlias(t) == t
    ensures !CodeDec(c, m).Ok? ==> !ValueDec(t, c, m).Ok?
    ensures CodeDec(c, m).Ok? ==>
              var inner, c1 := CodeDec(c, m).value, CodeDec(c, m).rest;
              var r := ValueDec(t, c, m);
              if KindOf(t) == TK_TYPECODE then r == Ok(Code(inner), c1)
              else var v := ValueDec(inner, c1, m); if v.Ok? then r == Ok(AnyOf(inner, v.value), v.rest) else !r.Ok?
  {
    hide Decode, Graph;
  }

  lemma {:induction false} CompoundAccepted(t: TypeCode, c: RecvBuf, m: Model)
    requires Shaped(t) && t.Complex? && Width(t.kind) == 0 && SkipAlias(t) == t && Readable(c, m)
    ensures ValueSafe(t, m, ValueDec(t, c, m))
    decreases c.end - c.cur, Size(t), 0, 0
  {
    hide FieldsDec, UnionDec, SequenceDec, ItemsDec, Width, Switchable, Pow256;
    assert Size(t) == 1 + BodySize(t.body);
    match t.body
    case Record(_, _, ms) => FieldsAccepted(0, ms, c, m);
    case Choice(_, _, _, _, _) => UnionAccepted(t.body, c, m);
    case Element(elem, length) =>
      if t.kind == TK_SEQUENCE {
        SequenceAccepted(elem, c, m);
      } else {
        ItemsAccepted(elem, length, c, m);
      }
    case _ =>
  }

  lemma {:induction false} FieldsAccepted(kind: nat, ps: Parts, c: RecvBuf, m: Model)
    requires ShapedParts(kind, ps) && Readable(c, m)
    ensures var r := FieldsDec(ps, c, m); r.Ok? ==> FitsFields(ps, r.value.fields) && (m.LP64? ==> AllLocals(r.value.fields))
    decreases c.end - c.cur, PartsSize(ps), 1, 0
  {
    hide Fits, ValueDec, Shaped;
    if ps.Part? {
      AcceptedFits(ps.tc, c, m);
      if ValueDec(ps.tc, c, m).Ok? {
        FieldsAccepted(kind, ps.rest, ValueDec(ps.tc, c, m).rest, m);
      }
    }
  }

  lemma {:induction false} ItemsAccepted(elem: TypeCode, n: nat, c: RecvBuf, m: Model)
    requires Shaped(elem) && Readable(c, m)
    ensures var r := ItemsDec(elem, n, c, m);
            r.Ok? ==> FitsAll(elem, r.value.items) && Length(r.value.items) == n && (m.LP64? ==> AllLocals(r.value.items))
    decreases c.end - c.cur, Size(elem), 1, n
  {
    hide Fits, ValueDec, Shaped;
    if n > 0 {
      AcceptedFits(elem, c, m);
      if ValueDec(elem, c, m).Ok? {
        ItemsAccepted(elem, n - 1, ValueDec(elem, c, m).rest, m);
      }
    }
  }

  lemma {:induction false} SequenceAccepted(elem: TypeCode, c: RecvBuf, m: Model)
    requires Shaped(elem) && Readable(c, m)
    ensures var r := SequenceDec(elem, c, m);
            r.Ok? ==> r.value.Items? && FitsAll(elem, r.value.items) && Length(r.value.items) < TWO32 && (m.LP64? ==> AllLocals(r.value.items))
    decreases c.end - c.cur, Size(elem), 2, 0
  {
    hide FitsAll, ItemsDec, Shaped;
    PowerValues();
    WordBelow(c, 4);
    if GetWord(c, 4).Got? {
      BulkIsLoop(elem, c, m);
      ItemsAccepted(elem, GetWord(c, 4).value, GetWord(c, 4).rest, m);
    }
  }

  /** The block copy of octet-like elements is an optimisation: on any input it does what the element loop does. */
  lemma BulkIsLoop(elem: TypeCode, c: RecvBuf, m: Model)
    requires Readable(c, m)
    ensures SequenceDec(elem, c, m) ==
            match GetWord(c, 4)
            case Short => Fail
            case Got(length, c1) => ItemsDec(elem, length, c1, m)
  {
    hide ItemsDec;
    if GetWord(c, 4).Got? && GetWord(c, 4).value > 0 && IsOctet(KindOf(elem)) {
      BytesAreItems(elem, GetWord(c, 4).value, GetWord(c, 4).rest, m);
    }
  }

  lemma {:induction false} BytesAreItems(elem: TypeCode, n: nat, c: RecvBuf, m: Model)
    requires Readable(c, m) && IsOctet(KindOf(elem))
    ensures ItemsDec(elem, n, c, m) ==
            if c.cur + n > c.end then Fail else Ok(Items(ByteItems(c.data[c.cur..c.cur + n])), c.(cur := c.cur + n))
    decreases n
  {
    hide ValueDec, ItemsDec, IsOctet, ByteItems;
    assert c.data[c.cur..c.cur] == [];
    NoItems();
    ItemsStep(elem, n, c, m);
    if n > 0 {
      OneOctet(elem, c, m);
      if c.cur < c.end {
        BytesAreItems(elem, n - 1, c.(cur := c.cur + 1), m);
        if c.cur + n <= c.end {
          ByteItemsStep(c.data, c.cur, n);
        }
      }
    }
  }

  lemma NoItems()
    ensures ByteItems([]) == Nil
  {
  }

  lemma ByteItemsStep(data: bytes, p: nat, n: nat)
    requires n > 0 && p + n <= |data|
    ensures ByteItems(data[p..p + n]) == Cons(Scalar(data[p]), ByteItems(data[p + 1..p + n]))
  {
    var b := data[p..p + n];
    assert b[0] == data[p] && b[1..] == data[p + 1..p + n];
  }

  lemma ItemsStep(elem: TypeCode, n: nat, c: RecvBuf, m: Model)
    requires Readable(c, m)
    ensures n == 0 ==> ItemsDec(elem, n, c, m) == Ok(Items(Nil), c)
    ensures n > 0 && ValueDec(elem, c, m).Fail? ==> ItemsDec(elem, n, c, m) == Fail
    ensures n > 0 && ValueDec(elem, c, m).Ok? ==>
              var v := ValueDec(elem, c, m);
              var r := ItemsDec(elem, n - 1, v.rest, m);
              ItemsDec(elem, n, c, m) == if r.Ok? then Ok(Items(Cons(v.value, r.value.items)), r.rest) else r
  {
    hide ValueDec;
  }

  lemma OneOctet(elem: TypeCode, c: RecvBuf, m: Model)
    requires Readable(c, m) && IsOctet(KindOf(elem))
    ensures ValueDec(elem, c, m) == if c.cur < c.end then Ok(Scalar(c.data[c.cur]), c.(cur := c.cur + 1)) else Fail
  {
    assert Align(c.cur, 1) == c.cur && Width(KindOf(elem)) == 1 && SkipAlias(elem) == elem;
    if c.cur < c.end {
      OctetFetch(c.host, c.flag, c.data[c.cur..c.cur + 1]);
    }
  }

  lemma OctetFetch(host: Endian, flag: Endian, b: bytes)
    requires |b| == 1
    ensures Fetch(host, flag, b) == b[0]
  {
    var d := Digits(1, b[0]);
    assert b == [b[0]] == d == Reverse(d) by { assert Digits(0, b[0] / 256) == []; assert d[1..] == []; }
    PowerValues();
    FetchStore(host, flag, 1, b[0]);
  }

  lemma {:induction false} UnionAccepted(body: Body, c: RecvBuf, m: Model)
    requires body.Choice? && ShapedBody(TK_UNION, body) && Readable(c, m)
    ensures var r := UnionDec(body, c, m);
            r.Ok? ==>
              && r.value.Tagged? && body.defaultIndex < Count(body.arms)
              && Switchable(KindOf(SkipAlias(body.disc))) && r.value.disc < Pow256(Width(KindOf(SkipAlias(body.disc))))
              && Fits(SelectArm(body, r.value.disc), r.value.arm) && (m.LP64? ==> AllLocal(r.value.arm))
    decreases c.end - c.cur, BodySize(body), 2, 0
  {
    hide ValueDec, Shaped, SelectArm;
    AcceptedFits(body.disc, c, m);
    var r := ValueDec(body.disc, c, m);
    if r.Ok? && Switchable(KindOf(SkipAlias(body.disc))) && r.value.Scalar? && body.defaultIndex < Count(body.arms) {
      SelectArmSize(body, r.value.bits);
      ArmShaped(body, r.value.bits);
      AcceptedFits(SelectArm(body, r.value.bits), r.rest, m);
    }
  }

  lemma ArmShaped(body: Body, bits: nat)
    requires body.Choice? && ShapedBody(TK_UNION, body) && body.defaultIndex < Count(body.arms)
    ensures Shaped(SelectArm(body, bits))
  {
    var kind := KindOf(body.disc);
    ShapedFind(kind, body.arms, 0, body.defaultIndex, SwitchValue(KindOf(SkipAlias(body.disc)), bits));
    if body.defaultIndex >= 0 {
      ShapedAt(kind, body.arms, body.defaultIndex);
    }
  }

  lemma {:induction false} ShapedFind(kind: nat, ps: Parts, i: nat, default: int, tag: int)
    requires ShapedParts(kind, ps)
    ensures FindArm(ps, i, default, tag).Some? ==> Shaped(FindArm(ps, i, default, tag).value)
  {
    if ps.Part? {
      ShapedFind(kind, ps.rest, i + 1, default, tag);
    }
  }

  lemma {:induction false} ShapedAt(kind: nat, ps: Parts, i: nat)
    requires ShapedParts(kind, ps) && i < Count(ps)
    ensures Shaped(PartAt(ps, i))
  {
    if i > 0 {
      ShapedAt(kind, ps.rest, i - 1);
    }
  }

  // ------------------------------------------------------------ discriminators

  /** The TypeCode decoder stops the program at a union whose discriminator has no label width. */
  lemma UnknownDiscriminatorStops(repoId: bytes, name: bytes, disc: TypeCode, c: RecvBuf, m: Model, currentIdx: nat, prior: seq<Known>)
    requires c.Valid() && c.body <= c.cur <= c.end && GetWord(c, 4).Got? && GetWord(GetWord(c, 4).rest, 4).Got?
    ensures LabelWidth(KindOf(disc)) == 0 ==> ArmsDec(repoId, name, disc, c, m, currentIdx, prior) == Aborted
  {
  }

  /**
   The value decoder stops the program at a union whose discriminator it cannot
   switch on, wide as it may have been in the TypeCode; otherwise it is the arm
   that decides.
   */
  lemma UnknownSwitchStops(body: Body, c: RecvBuf, m: Model)
    requires body.Choice? && ShapedBody(TK_UNION, body) && body.defaultIndex < Count(body.arms)
    requires Readable(c, m) && ValueDec(body.disc, c, m).Ok?
    ensures !Switchable(KindOf(body.disc)) ==> UnionDec(body, c, m).Crash?
    ensures Switchable(KindOf(body.disc)) ==>
              var disc, c1 := ValueDec(body.disc, c, m).value, ValueDec(body.disc, c, m).rest;
              && disc.Scalar? && (UnionDec(body, c, m).Crash? <==> ValueDec(SelectArm(body, disc.bits), c1, m).Crash?)
  {
    hide ValueDec, SelectArm;
    assert SkipAlias(body.disc) == body.disc;
    if Switchable(KindOf(body.disc)) {
      ScalarAccepted(body.disc, c, m);
      SelectArmSize(body, ValueDec(body.disc, c, m).value.bits);
    }
  }

  lemma ScalarAccepted(tc: TypeCode, c: RecvBuf, m: Model)
    requires Readable(c, m) && SkipAlias(tc) == tc && Width(KindOf(tc)) > 0 && ValueDec(tc, c, m).Ok?
    ensures ValueDec(tc, c, m).value.Scalar?
  {
  }

  // ------------------------------------------------------------ references

  /**
   Whatever bytes ORBit_demarshal_IOR accepts, the result is a reference that
   ORBit_marshal_object supports, unless it has a type id but no profile.
   */
  lemma AcceptedIsGood(c: RecvBuf)
    requires c.Valid() && Ior.RefDec(c).Got?
    ensures var x := Ior.RefDec(c).value; IorRoundTrip.GoodReference(x) <==> x.NilRef? || x.profiles != []
  {
    hide Ior.GoodProfile, Ior.ProfileDec;
    if GetString(c).Got? {
      StringIsCString(c);
      var c1 := GetString(c).rest;
      if GetWord(c1, 4).Got? {
        ProfilesAccepted(GetWord(c1, 4).value, GetWord(c1, 4).rest);
      }
    }
  }

  /** A reference without profiles: nil, if it has no type id either. */
  lemma WithoutProfiles(typeId: bytes, c: RecvBuf)
    requires c.Valid() && CString(typeId) && StringWire(c.data, c.flag, c.cur, typeId)
    requires var a := Align(StringEnd(c.cur, typeId), 4); WordAt(c.data, a, c.flag, 4, 0) && a + 4 <= c.end < TWO32
    ensures var a := Align(StringEnd(c.cur, typeId), 4);
            Ior.RefDec(c) == Got(if typeId == [] then Ior.NilRef else Ior.Ref(typeId, []), c.(cur := a + 4))
  {
    hide Align, GetString, GetWord;
    PowerValues();
    GetStringReads(c, typeId);
    GetWordReads(c.(cur := StringEnd(c.cur, typeId)), 4, 0);
  }

  /** An IIOP or generic profile is read for the versions 1.0, 1.1 and 1.2 and for no others. */
  lemma VersionsAccepted(c: RecvBuf)
    requires c.Valid() && c.cur + 2 <= c.end
    ensures Ior.VersionDec(c).Got? <==> c.data[c.cur] == 1 && c.data[c.cur + 1] <= 2
  {
  }

  /** The SSL components' own byte-order octet is ignored, and no other component's. */
  lemma OwnOrderIgnored(tag: nat, sub: RecvBuf, own: Endian, outer: Endian)
    requires sub.Valid() && tag in {Ior.TAG_GENERIC_SSL_SEC_TRANS, Ior.TAG_SSL_SEC_TRANS, Ior.TAG_CODE_SETS}
    ensures tag != Ior.TAG_CODE_SETS ==> Ior.MarkedDec(tag, sub, outer) == Ior.MarkedDec(tag, sub.(flag := own), outer)
    ensures tag == Ior.TAG_CODE_SETS ==> Ior.MarkedDec(tag, sub, outer) == Ior.MarkedDec(tag, sub, own)
  {
    assert sub.(flag := own).(flag := outer) == sub.(flag := outer);
  }

  /** An SSL component in the other byte order than its profile has its port read with the octets swapped. */
  lemma SslPortSwapped(sub: RecvBuf, outer: Endian, supports: nat, demands: nat, port: nat)
    requires sub.Valid() && outer != sub.flag && supports < TWO32 && demands < TWO32 && port < 0x1_0000
    requires var a := Align(sub.cur, 4);
             && WordAt(sub.data, a, sub.flag, 4, supports) && WordAt(sub.data, a + 4, sub.flag, 4, demands)
             && WordAt(sub.data, a + 8, sub.flag, 2, port) && a + 10 <= sub.end
    ensures Ior.MarkedDec(Ior.TAG_SSL_SEC_TRANS, sub, outer) ==
            Got(Ior.SslSec(Swap(4, supports), Swap(4, demands), Swap(2, port)), sub.(flag := outer, cur := Align(sub.cur, 4) + 10))
  {
    hide Align, Swap, Store, Fetch;
    var a := Align(sub.cur, 4);
    PowerValues();
    OtherOrder(sub.host, sub.flag, outer, 4, supports);
    OtherOrder(sub.host, sub.flag, outer, 4, demands);
    OtherOrder(sub.host, sub.flag, outer, 2, port);
    assert Align(a, 4) == a && Align(a + 4, 4) == a + 4 && Align(a + 8, 2) == a + 8;
  }

  lemma OtherOrder(host: Endian, sender: Endian, flag: Endian, w: nat, v: nat)
    requires flag != sender && v < Pow256(w)
    ensures Fetch(host, flag, Store(sender, w, v)) == Swap(w, v)
  {
    var d := Digits(w, v);
    NumberDigits(w, v);
    ReverseTwice(d);
    DigitsNumber(Reverse(d));
  }

  ghost predicate GoodProfiles(xs: seq<Ior.Profile>)
  {
    forall x :: x in xs ==> Ior.GoodProfile(x)
  }

  lemma GoodFirst(x: Ior.Profile, xs: seq<Ior.Profile>)
    requires Ior.GoodProfile(x) && GoodProfiles(xs)
    ensures GoodProfiles([x] + xs)
  {
    hide Ior.GoodProfile;
  }

  lemma {:induction false} ProfilesAccepted(n: nat, c: RecvBuf)
    requires c.Valid()
    ensures var r := Ior.ProfilesDec(n, c); r.Got? ==> GoodProfiles(r.value)
    decreases n
  {
    hide Ior.GoodProfile, Ior.ProfileDec;
    if n > 0 && Ior.ProfileDec(c).Got? {
      var x, c1 := Ior.ProfileDec(c).value, Ior.ProfileDec(c).rest;
      ProfileAccepted(c);
      ProfilesAccepted(n - 1, c1);
      if Ior.ProfilesDec(n - 1, c1).Got? {
        var xs := Ior.ProfilesDec(n - 1, c1).value;
        assert Ior.ProfilesDec(n, c).value == [x] + xs;
        GoodFirst(x, xs);
      }
    }
  }

  lemma ProfileAccepted(c: RecvBuf)
    requires c.Valid()
    ensures Ior.ProfileDec(c).Got? ==> Ior.GoodProfile(Ior.ProfileDec(c).value)
  {
    hide Ior.BodyDec, Ior.KeyDec, UseEncaps;
    PowerValues();
    WordBelow(c, 4);
    if GetWord(c, 4).Got? && UseEncaps(GetWord(c, 4).rest).Got? {
      var tag := GetWord(c, 4).value;
      if tag in {Ior.TAG_INTERNET_IOP, Ior.TAG_MULTIPLE_COMPONENTS, Ior.TAG_ORBIT_SPECIFIC, Ior.TAG_GENERIC_IOP} {
        BodyGood(tag, UseEncaps(GetWord(c, 4).rest).value);
      }
    }
  }

  lemma BodyGood(tag: nat, c: RecvBuf)
    requires c.Valid() && tag in {Ior.TAG_INTERNET_IOP, Ior.TAG_MULTIPLE_COMPONENTS, Ior.TAG_ORBIT_SPECIFIC, Ior.TAG_GENERIC_IOP}
    ensures Ior.BodyDec(tag, c).Got? ==> Ior.GoodProfile(Ior.BodyDec(tag, c).value)
  {
    hide Ior.CompsDec, Ior.EndpointDec, Ior.IiopDec, Ior.GenericDec;
    if tag == Ior.TAG_MULTIPLE_COMPONENTS {
      CompsAccepted(c);
    } else if tag == Ior.TAG_ORBIT_SPECIFIC {
      if GetBytes(c, 2).Got? {
        EndpointAccepted(GetBytes(c, 2).rest);
      }
    } else if Ior.VersionDec(c).Got? {
      var v, c1 := Ior.VersionDec(c).value, Ior.VersionDec(c).rest;
      if tag == Ior.TAG_INTERNET_IOP {
        IiopAccepted(v, c1);
      } else {
        GenericAccepted(v, c1);
      }
    }
  }

  lemma IiopAccepted(v: nat, c: RecvBuf)
    requires c.Valid() && v <= 2
    ensures Ior.IiopDec(v, c).Got? ==> Ior.GoodProfile(Ior.IiopDec(v, c).value)
  {
    hide Ior.CompsDec, Ior.EndpointDec, Ior.GoodComponents;
    EndpointAccepted(c);
    assert Ior.GoodComponents([]) by { NoComponents(); }
    if Ior.EndpointDec(c).Got? {
      CompsAccepted(Ior.EndpointDec(c).rest);
    }
  }

  lemma NoComponents()
    ensures Ior.GoodComponents([])
  {
  }

  lemma GenericAccepted(v: nat, c: RecvBuf)
    requires c.Valid() && v <= 2
    ensures Ior.GenericDec(v, c).Got? ==> Ior.GoodProfile(Ior.GenericDec(v, c).value)
  {
    hide Ior.CompsDec, Ior.GoodComponents;
    if Ior.GenericDec(v, c).Got? {
      var c1 := GetString(c).rest;
      var c2 := GetString(c1).rest;
      StringIsCString(c);
      StringIsCString(c1);
      StringIsCString(c2);
      CompsAccepted(GetString(c2).rest);
    }
  }

  lemma EndpointAccepted(c: RecvBuf)
    requires c.Valid()
    ensures var r := Ior.EndpointDec(c); r.Got? ==> CString(r.value.0) && r.value.1 < 0x1_0000
  {
    hide Ior.KeyDec;
    if GetString(c).Got? {
      PowerValues();
      StringIsCString(c);
      WordBelow(GetString(c).rest, 2);
    }
  }

  lemma CompsAccepted(c: RecvBuf)
    requires c.Valid()
    ensures var r := Ior.CompsDec(c); r.Got? ==> Ior.GoodComponents(r.value)
  {
    if GetWord(c, 4).Got? {
      ListAccepted(GetWord(c, 4).value, GetWord(c, 4).rest);
    }
  }

  lemma {:induction false} ListAccepted(n: nat, c: RecvBuf)
    requires c.Valid()
    ensures var r := Ior.ListDec(n, c); r.Got? ==> Ior.GoodComponents(r.value)
    decreases n
  {
    hide Ior.GoodComponent, Ior.ComponentDec;
    if n > 0 && Ior.ComponentDec(c).Got? {
      var x, c1 := Ior.ComponentDec(c).value, Ior.ComponentDec(c).rest;
      ComponentAccepted(c);
      ListAccepted(n - 1, c1);
      if Ior.ListDec(n - 1, c1).Got? {
        assert Ior.ListDec(n, c).value == [x] + Ior.ListDec(n - 1, c1).value;
      }
    }
  }

  lemma ComponentAccepted(c: RecvBuf)
    requires c.Valid()
    ensures Ior.ComponentDec(c).Got? ==> Ior.GoodComponent(Ior.ComponentDec(c).value)
  {
    hide Ior.MarkedDec, Ior.KeyDec, UseEncaps;
    PowerValues();
    WordBelow(c, 4);
    if GetWord(c, 4).Got? && UseEncaps(GetWord(c, 4).rest).Got? {
      MarkedAccepted(GetWord(c, 4).value, UseEncaps(GetWord(c, 4).rest).value, c.flag);
    }
  }

  lemma MarkedAccepted(tag: nat, sub: RecvBuf, outer: Endian)
    requires sub.Valid()
    ensures Ior.MarkedDec(tag, sub, outer).Got? ==> Ior.GoodComponent(Ior.MarkedDec(tag, sub, outer).value)
  {
    hide Ior.CodeSetDec, GetString;
    PowerValues();
    var s := sub.(flag := outer);
    if tag == Ior.TAG_GENERIC_SSL_SEC_TRANS {
      if GetString(s).Got? {
        StringIsCString(s);
      }
    } else if tag == Ior.TAG_SSL_SEC_TRANS {
      WordBelow(s, 4);
      if GetWord(s, 4).Got? {
        var s1 := GetWord(s, 4).rest;
        WordBelow(s1, 4);
        if GetWord(s1, 4).Got? {
          WordBelow(GetWord(s1, 4).rest, 2);
        }
      }
    } else {
      CodeSetAccepted(sub);
      if Ior.CodeSetDec(sub).Got? {
        CodeSetAccepted(Ior.CodeSetDec(sub).rest);
      }
    }
  }

  lemma CodeSetAccepted(c: RecvBuf)
    requires c.Valid()
    ensures var r := Ior.CodeSetDec(c); r.Got? ==> r.value.0 < TWO32 && Ior.AllBelow(r.value.1, TWO32)
  {
    PowerValues();
    WordBelow(c, 4);
    if GetWord(c, 4).Got? {
      var c1 := GetWord(c, 4).rest;
      if GetWord(c1, 4).Got? {
        WordsAccepted(GetWord(c1, 4).value, GetWord(c1, 4).rest);
      }
    }
  }

  lemma {:induction false} WordsAccepted(n: nat, c: RecvBuf)
    requires c.Valid()
    ensures var r := Ior.WordsDec(n, c); r.Got? ==> Ior.AllBelow(r.value, TWO32)
    decreases n
  {
    if n > 0 && GetWord(c, 4).Got? {
      PowerValues();
      WordBelow(c, 4);
      WordsAccepted(n - 1, GetWord(c, 4).rest);
    }
  }
}
