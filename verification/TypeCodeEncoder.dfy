/**
 tc_enc and the tc_enc_tk_* methods: the recursive writers with their list of
 registered nodes and their back-patched encapsulation lengths produce exactly
 the wire format.
 */
module TypeCodeEncoder {
  import opened Cdr
  import opened Common
  import opened OutStreams
  import opened TypeCodes
  import opened TypeCodeCodec
  import opened TypeCodeRoundTrip

  /** A TCRecursionNode of the encoder. */
  datatype Node = Node(tc: TypeCode, index: nat)

  function PriorMap(prior: seq<Node>): map<nat, nat>
    requires forall i :: 0 <= i < |prior| ==> !prior[i].tc.Basic?
  {
    if prior == [] then map[] else PriorMap(prior[1..])[prior[0].tc.id := prior[0].index]
  }

  // ------------------------------------------------------------ the wire format only looks at its own range

  lemma {:induction false} TcFrame(data: bytes, data2: bytes, e: Endian, tc: TypeCode, s: Spot)
    requires TcWire(data, e, tc, s) && SameOn(data, data2, s.pos, TcEnd(tc, s).pos)
    ensures TcWire(data2, e, tc, s)
    decreases tc
  {
    hide Align, WordAt, BytesAt;
    var a := Align(s.pos, 4);
    if tc.Basic? {
      WordFrame(data, data2, a, e, 4, tc.kind);
    } else if tc.id in s.prior {
      WordFrame(data, data2, a, e, 4, TK_RECURSIVE);
      WordFrame(data, data2, a + 4, e, 4, OffsetWord(s.prior[tc.id], a + 8));
    } else if tc.Simple? {
      WordFrame(data, data2, a, e, 4, tc.kind);
      WordFrame(data, data2, a + 4, e, 4, tc.length);
    } else {
      var inside := Inside(tc, s);
      WordFrame(data, data2, a, e, 4, tc.kind);
      WordFrame(data, data2, a + 4, e, 4, BodyEnd(tc.body, inside).pos - (a + 8));
      BytesFrame(data, data2, a + 8, [FlagByte(e)]);
      BodyFrame(data, data2, e, tc.body, inside);
    }
  }

  lemma {:induction false} BodyFrame(data: bytes, data2: bytes, e: Endian, body: Body, s: Spot)
    requires BodyWire(data, e, body, s) && SameOn(data, data2, s.pos, BodyEnd(body, s).pos)
    ensures BodyWire(data2, e, body, s)
    decreases body, 1
  {
    hide WordAt, BytesAt, StringWire, StringEnd, NamePairWire, TcWire, TcEnd, PartsWire, PartsEnd, NamesWire, NamesEnd, Count, Align;
    match body
    case Reference(r, n) => NamesPairFrame(data, data2, e, r, n, s.pos);
    case Record(_, _, _) => RecordFrame(data, data2, e, body, s);
    case Choice(_, _, _, _, _) => ChoiceFrame(data, data2, e, body, s);
    case Enumeration(r, n, names) =>
      NamesPairFrame(data, data2, e, r, n, s.pos);
      WordFrame(data, data2, HeaderEnd(r, n, s).pos - 4, e, 4, |names|);
      NamesFrame(data, data2, e, names, HeaderEnd(r, n, s).pos);
    case Element(elem, length) =>
      TcFrame(data, data2, e, elem, s);
      WordFrame(data, data2, Align(TcEnd(elem, s).pos, 4), e, 4, length);
    case Renamed(r, n, elem) =>
      NamesPairFrame(data, data2, e, r, n, s.pos);
      TcFrame(data, data2, e, elem, Named(body, s));
  }

  lemma {:induction false} RecordFrame(data: bytes, data2: bytes, e: Endian, body: Body, s: Spot)
    requires body.Record? && BodyWire(data, e, body, s) && SameOn(data, data2, s.pos, BodyEnd(body, s).pos)
    ensures BodyWire(data2, e, body, s)
    decreases body, 0
  {
    hide WordAt, BytesAt, StringWire, StringEnd, NamePairWire, TcWire, TcEnd, PartsWire, PartsEnd, NamesWire, NamesEnd, Count, Align;
    var h := HeaderEnd(body.repoId, body.name, s);
    assert s.pos <= Named(body, s).pos <= h.pos - 4 && h.pos <= PartsEnd(0, body.members, h).pos;
    NamesPairFrame(data, data2, e, body.repoId, body.name, s.pos);
    WordFrame(data, data2, h.pos - 4, e, 4, Count(body.members));
    PartsFrame(data, data2, e, 0, body.members, h);
  }

  lemma {:induction false} ChoiceFrame(data: bytes, data2: bytes, e: Endian, body: Body, s: Spot)
    requires body.Choice? && BodyWire(data, e, body, s) && SameOn(data, data2, s.pos, BodyEnd(body, s).pos)
    ensures BodyWire(data2, e, body, s)
    decreases body, 0
  {
    hide WordAt, BytesAt, StringWire, StringEnd, NamePairWire, TcWire, TcEnd, PartsWire, PartsEnd, NamesWire, NamesEnd, Count, Align;
    var d, a := TcEnd(body.disc, Named(body, s)), ArmsSpot(body, s);
    assert s.pos <= Named(body, s).pos <= d.pos <= a.pos - 8 && a.pos <= PartsEnd(KindOf(body.disc), body.arms, a).pos;
    NamesPairFrame(data, data2, e, body.repoId, body.name, s.pos);
    TcFrame(data, data2, e, body.disc, Named(body, s));
    WordFrame(data, data2, a.pos - 8, e, 4, body.defaultIndex % TWO32);
    WordFrame(data, data2, a.pos - 4, e, 4, Count(body.arms));
    PartsFrame(data, data2, e, KindOf(body.disc), body.arms, a);
  }

  lemma NamesPairFrame(data: bytes, data2: bytes, e: Endian, r: bytes, n: bytes, p: nat)
    requires NamePairWire(data, e, r, n, p) && SameOn(data, data2, p, StringEnd(StringEnd(p, r), n))
    ensures NamePairWire(data2, e, r, n, p)
  {
    StringFrame(data, data2, e, p, r);
    StringFrame(data, data2, e, StringEnd(p, r), n);
  }

  lemma {:induction false} PartsFrame(data: bytes, data2: bytes, e: Endian, kind: nat, ps: Parts, s: Spot)
    requires PartsWire(data, e, kind, ps, s) && SameOn(data, data2, s.pos, PartsEnd(kind, ps, s).pos)
    ensures PartsWire(data2, e, kind, ps, s)
    decreases ps
  {
    hide WordAt, StringWire;
    if ps.Part? {
      var p, w := LabelEnd(kind, s.pos), LabelWidth(kind);
      if w > 0 {
        WordFrame(data, data2, Align(s.pos, w), e, w, LabelBits(kind, ps.tag));
      }
      StringFrame(data, data2, e, p, ps.name);
      TcFrame(data, data2, e, ps.tc, PartSpot(kind, ps, s));
      PartsFrame(data, data2, e, kind, ps.rest, TcEnd(ps.tc, PartSpot(kind, ps, s)));
    }
  }

  lemma {:induction false} NamesFrame(data: bytes, data2: bytes, e: Endian, names: seq<bytes>, p: nat)
    requires NamesWire(data, e, names, p) && SameOn(data, data2, p, NamesEnd(names, p))
    ensures NamesWire(data2, e, names, p)
    decreases |names|
  {
    hide StringWire;
    if names != [] {
      StringFrame(data, data2, e, p, names[0]);
      NamesFrame(data, data2, e, names[1..], StringEnd(p, names[0]));
    }
  }

  // ------------------------------------------------------------ the writers

  ghost predicate NoBasics(prior: seq<Node>)
  {
    forall i :: 0 <= i < |prior| ==> !prior[i].tc.Basic?
  }

  class EncodeContext {
    var prior: seq<Node>

    constructor ()
      ensures prior == []
    {
      prior := [];
    }

    ghost predicate Valid()
      reads this
    {
      NoBasics(prior)
    }

    /** The encoder's position: the stream's length and the nodes registered so far. */
    ghost function At(buf: OutStream): Spot
      requires Valid()
      reads this, buf
    {
      Spot(|buf.data|, PriorMap(prior))
    }

    /** The search for the node by address. */
    method Find(tc: TypeCode) returns (found: Option<nat>)
      requires Valid() && !tc.Basic?
      ensures found == if tc.id in PriorMap(prior) then Some(PriorMap(prior)[tc.id]) else None
    {
      var i := 0;
      while i < |prior|
        invariant i <= |prior|
        invariant tc.id in PriorMap(prior) <==> tc.id in PriorMap(prior[i..])
        invariant tc.id in PriorMap(prior) ==> PriorMap(prior)[tc.id] == PriorMap(prior[i..])[tc.id]
      {
        assert prior[i..][1..] == prior[i + 1..];
        if prior[i].tc.id == tc.id {
          return Some(prior[i].index);
        }
        i := i + 1;
      }
      return None;
    }

    method Register(tc: TypeCode, index: nat)
      requires Valid() && !tc.Basic?
      modifies this
      ensures Valid() && PriorMap(prior) == old(PriorMap(prior))[tc.id := index]
    {
      prior := [Node(tc, index)] + prior;
      assert prior[1..] == old(prior);
    }
  }

  /** tc_enc: an indirection for a node written before, otherwise kind and contents. */
  method TcEnc(tc: TypeCode, buf: OutStream, ctx: EncodeContext)
    requires ctx.Valid() && Shaped(tc) && TcEnd(tc, ctx.At(buf)).pos < TWO32
    requires buf.Valid()
    modifies buf, buf.store, ctx
    ensures ctx.Valid() && ctx.At(buf) == TcEnd(tc, old(ctx.At(buf))) && buf.Grown(old(buf.data), old(buf.marks))
    ensures TcWire(buf.data, buf.order, tc, old(ctx.At(buf)))
    decreases tc, 0
  {
    hide WordAt, BodyWire, BodyEnd, PriorMap, ShapedBody, Align, OutStream.Valid;
    PowerValues();
    ghost var s := ctx.At(buf);
    buf.AlignTo(4);
    if !tc.Basic? {
      var seen := ctx.Find(tc);
      if seen.Some? {
        BackEnc(tc, seen.value, buf, s);
        return;
      }
      ctx.Register(tc, buf.Position());
    }
    if tc.Complex? {
      EncapsEnc(tc, buf, ctx, s);
    } else {
      LeafEnc(tc, buf, s);
    }
  }

  /** TK_RECURSIVE and the distance back to the node. */
  method BackEnc(tc: TypeCode, index: nat, buf: OutStream, ghost s: Spot)
    requires !tc.Basic? && tc.id in s.prior && s.prior[tc.id] == index
    requires |buf.data| == Align(s.pos, 4) && TcEnd(tc, s).pos < TWO32
    requires buf.Valid()
    modifies buf, buf.store
    ensures Spot(|buf.data|, s.prior) == TcEnd(tc, s) && buf.Grown(old(buf.data), old(buf.marks))
    ensures TcWire(buf.data, buf.order, tc, s)
  {
    hide WordAt, BodyWire, BodyEnd, Align, OutStream.Valid;
    PowerValues();
    buf.PutWord(4, TK_RECURSIVE);
    ghost var first := buf.data;
    buf.PutWord(4, OffsetWord(index, buf.Position() + 4));
    WordFrame(first, buf.data, Align(s.pos, 4), buf.order, 4, TK_RECURSIVE);
  }

  /** The TK_EMPTY and TK_SIMPLE branches. */
  method LeafEnc(tc: TypeCode, buf: OutStream, ghost s: Spot)
    requires !tc.Complex? && Shaped(tc) && (tc.Simple? ==> tc.id !in s.prior)
    requires |buf.data| == Align(s.pos, 4) && TcEnd(tc, s).pos < TWO32
    requires buf.Valid()
    modifies buf, buf.store
    ensures |buf.data| == TcEnd(tc, s).pos && buf.Grown(old(buf.data), old(buf.marks))
    ensures TcWire(buf.data, buf.order, tc, s)
  {
    hide WordAt, BodyWire, BodyEnd, Align, OutStream.Valid;
    PowerValues();
    buf.PutWord(4, tc.kind);
    if tc.Simple? {
      ghost var first := buf.data;
      buf.PutWord(4, tc.length);
      WordFrame(first, buf.data, Align(s.pos, 4), buf.order, 4, tc.kind);
    }
  }

  /** The TK_COMPLEX branch: reserve the length word, write octet and contents, patch the length. */
  method EncapsEnc(tc: TypeCode, buf: OutStream, ctx: EncodeContext, ghost s: Spot)
    requires ctx.Valid() && Shaped(tc) && tc.Complex? && tc.id !in s.prior && TcEnd(tc, s).pos < TWO32
    requires ctx.At(buf) == Spot(Align(s.pos, 4), s.prior[tc.id := Align(s.pos, 4)])
    requires buf.Valid()
    modifies buf, buf.store, ctx
    ensures ctx.Valid() && ctx.At(buf) == TcEnd(tc, s) && buf.Grown(old(buf.data), old(buf.marks))
    ensures TcWire(buf.data, buf.order, tc, s)
    decreases tc.body, 4
  {
    hide WordAt, BodyWire, BodyEnd, PriorMap, ShapedParts, CString, Align, OutStream.Valid;
    PowerValues();
    ghost var a := |buf.data|;
    buf.PutWord(4, tc.kind);
    ghost var d1 := buf.data;
    ContentsEnc(tc.kind, tc.body, buf, ctx);
    WordFrame(d1, buf.data, a, buf.order, 4, tc.kind);
  }

  method ContentsEnc(kind: nat, body: Body, buf: OutStream, ctx: EncodeContext)
    requires ctx.Valid() && ShapedBody(kind, body) && |buf.data| % 4 == 0
    requires BodyEnd(body, Spot(|buf.data| + 5, PriorMap(ctx.prior))).pos < TWO32
    requires buf.Valid()
    modifies buf, buf.store, ctx
    ensures var p, q := |old(buf.data)|, |buf.data|;
            var inside := Spot(p + 5, old(PriorMap(ctx.prior)));
            && ctx.Valid() && ctx.At(buf) == BodyEnd(body, inside) && buf.Grown(old(buf.data), old(buf.marks))
            && WordAt(buf.data, p, buf.order, 4, q - (p + 4)) && BytesAt(buf.data, p + 4, [FlagByte(buf.order)])
            && BodyWire(buf.data, buf.order, body, inside)
    decreases body, 3
  {
    hide WordAt, BodyWire, BodyEnd, PriorMap, ShapedBody, Align, Store, OutStream.Valid;
    PowerValues();
    ghost var p := |buf.data|;
    var mark, at := buf.Reserve();
    var tmp := buf.Position();
    buf.Append([FlagByte(buf.order)]);
    ghost var d2 := buf.data;
    ghost var inside := ctx.At(buf);
    BodyEnc(kind, body, buf, ctx);
    var len := buf.Position() - tmp;
    ghost var d3 := buf.data;
    buf.Patch(mark, at, Store(buf.order, 4, len));
    BytesFrame(d2, buf.data, p + 4, [FlagByte(buf.order)]);
    BodyFrame(d3, buf.data, buf.order, body, inside);
    BytesAsWord(buf.data, at, buf.order, 4, len);
  }

  /** Repository id and name. */
  method NamePairEnc(r: bytes, n: bytes, buf: OutStream)
    requires StringEnd(StringEnd(|buf.data|, r), n) < TWO32
    requires buf.Valid()
    modifies buf, buf.store
    ensures |buf.data| == StringEnd(StringEnd(|old(buf.data)|, r), n) && buf.Grown(old(buf.data), old(buf.marks))
    ensures NamePairWire(buf.data, buf.order, r, n, |old(buf.data)|)
  {
    hide StringWire, Align, OutStream.Valid;
    ghost var p := |buf.data|;
    buf.AppendString(r);
    ghost var first := buf.data;
    buf.AppendString(n);
    StringFrame(first, buf.data, buf.order, p, r);
  }

  /** The per-kind encoders tc_enc_tk_*. */
  method BodyEnc(kind: nat, body: Body, buf: OutStream, ctx: EncodeContext)
    requires ctx.Valid() && ShapedBody(kind, body) && BodyEnd(body, ctx.At(buf)).pos < TWO32
    requires buf.Valid()
    modifies buf, buf.store, ctx
    ensures ctx.Valid() && ctx.At(buf) == BodyEnd(body, old(ctx.At(buf))) && buf.Grown(old(buf.data), old(buf.marks))
    ensures BodyWire(buf.data, buf.order, body, old(ctx.At(buf)))
    decreases body, 2
  {
    hide WordAt, NamePairWire, StringEnd, StringWire, TcWire, TcEnd, PartsWire, PartsEnd, NamesWire, NamesEnd, PriorMap, CString, Shaped, ShapedParts, Align, OutStream.Valid;
    PowerValues();
    match body
    case Element(elem, length) =>
      ghost var s := ctx.At(buf);
      TcEnc(elem, buf, ctx);
      ghost var d := buf.data;
      buf.PutWord(4, length);
      TcFrame(d, buf.data, buf.order, elem, s);
    case Reference(r, n) =>
      NamePairEnc(r, n, buf);
    case Renamed(r, n, elem) =>
      ghost var p := |buf.data|;
      NamePairEnc(r, n, buf);
      ghost var d := buf.data;
      TcEnc(elem, buf, ctx);
      NamesPairFrame(d, buf.data, buf.order, r, n, p);
    case Record(r, n, ms) =>
      RecordEnc(body, buf, ctx);
    case Choice(r, n, _, _, _) =>
      ChoiceEnc(body, buf, ctx);
    case Enumeration(r, n, names) =>
      EnumerationEnc(body, buf, ctx);
  }

  method EnumerationEnc(body: Body, buf: OutStream, ctx: EncodeContext)
    requires ctx.Valid() && body.Enumeration? && BodyEnd(body, ctx.At(buf)).pos < TWO32
    requires buf.Valid()
    modifies buf, buf.store
    ensures ctx.Valid() && ctx.At(buf) == BodyEnd(body, old(ctx.At(buf))) && buf.Grown(old(buf.data), old(buf.marks))
    ensures BodyWire(buf.data, buf.order, body, old(ctx.At(buf)))
  {
    hide WordAt, NamePairWire, StringEnd, StringWire, PriorMap, Align, OutStream.Valid;
    PowerValues();
    ghost var s := ctx.At(buf);
    ghost var h := HeaderEnd(body.repoId, body.name, s);
    NamesFit(body.names, h.pos);
    NamePairEnc(body.repoId, body.name, buf);
    ghost var d1 := buf.data;
    buf.PutWord(4, |body.names|);
    ghost var d2 := buf.data;
    var i := 0;
    assert body.names[0..] == body.names;
    while i < |body.names|
      invariant i <= |body.names| && d2 <= buf.data && buf.Grown(old(buf.data), old(buf.marks))
      invariant NamesEnd(body.names, h.pos) == NamesEnd(body.names[i..], |buf.data|)
      invariant forall d :: buf.data <= d && NamesWire(d, buf.order, body.names[i..], |buf.data|)
                            ==> NamesWire(d, buf.order, body.names, h.pos)
    {
      ghost var before := buf.data;
      assert body.names[i..][1..] == body.names[i + 1..];
      buf.AppendString(body.names[i]);
      forall d | buf.data <= d && NamesWire(d, buf.order, body.names[i + 1..], |buf.data|)
        ensures NamesWire(d, buf.order, body.names[i..], |before|)
      {
        StringFrame(buf.data, d, buf.order, |before|, body.names[i]);
      }
      i := i + 1;
    }
    NamesPairFrame(d1, buf.data, buf.order, body.repoId, body.name, s.pos);
    WordFrame(d2, buf.data, h.pos - 4, buf.order, 4, |body.names|);
  }

  method RecordEnc(body: Body, buf: OutStream, ctx: EncodeContext)
    requires ctx.Valid() && body.Record? && ShapedParts(0, body.members) && BodyEnd(body, ctx.At(buf)).pos < TWO32
    requires buf.Valid()
    modifies buf, buf.store, ctx
    ensures ctx.Valid() && ctx.At(buf) == BodyEnd(body, old(ctx.At(buf))) && buf.Grown(old(buf.data), old(buf.marks))
    ensures BodyWire(buf.data, buf.order, body, old(ctx.At(buf)))
    decreases body, 1
  {
    hide WordAt, NamePairWire, StringEnd, StringWire, TcWire, TcEnd, PartsWire, PartsEnd, PriorMap, CString, Shaped, ShapedParts, Align, OutStream.Valid;
    PowerValues();
    ghost var s := ctx.At(buf);
    ghost var h := HeaderEnd(body.repoId, body.name, s);
    CountFits(0, body.members, h);
    NamePairEnc(body.repoId, body.name, buf);
    ghost var d1 := buf.data;
    buf.PutWord(4, Count(body.members));
    ghost var d2 := buf.data;
    PartsEnc(0, body.members, buf, ctx);
    NamesPairFrame(d1, buf.data, buf.order, body.repoId, body.name, s.pos);
    WordFrame(d2, buf.data, h.pos - 4, buf.order, 4, Count(body.members));
  }

  method ChoiceEnc(body: Body, buf: OutStream, ctx: EncodeContext)
    requires ctx.Valid() && body.Choice? && ShapedBody(TK_UNION, body) && BodyEnd(body, ctx.At(buf)).pos < TWO32
    requires buf.Valid()
    modifies buf, buf.store, ctx
    ensures ctx.Valid() && ctx.At(buf) == BodyEnd(body, old(ctx.At(buf))) && buf.Grown(old(buf.data), old(buf.marks))
    ensures BodyWire(buf.data, buf.order, body, old(ctx.At(buf)))
    decreases body, 1
  {
    hide WordAt, NamePairWire, StringEnd, StringWire, TcWire, TcEnd, PartsWire, PartsEnd, PriorMap, CString, Shaped, ShapedParts, LabelWidth, Align, OutStream.Valid;
    PowerValues();
    ghost var s := ctx.At(buf);
    ghost var s1, a := Named(body, s), ArmsSpot(body, s);
    CountFits(KindOf(body.disc), body.arms, a);
    NamePairEnc(body.repoId, body.name, buf);
    ghost var d1 := buf.data;
    TcEnc(body.disc, buf, ctx);
    ghost var d2 := buf.data;
    ArmsEnc(KindOf(body.disc), body.defaultIndex % TWO32, body.arms, buf, ctx);
    NamesPairFrame(d1, buf.data, buf.order, body.repoId, body.name, s.pos);
    TcFrame(d2, buf.data, buf.order, body.disc, s1);
  }

  /** Default index, count and the arms themselves. */
  method ArmsEnc(kind: nat, default: nat, arms: Parts, buf: OutStream, ctx: EncodeContext)
    requires ctx.Valid() && ShapedParts(kind, arms) && default < TWO32 && Count(arms) < TWO32
    requires PartsEnd(kind, arms, Spot(Align(|buf.data|, 4) + 8, PriorMap(ctx.prior))).pos < TWO32
    requires buf.Valid()
    modifies buf, buf.store, ctx
    ensures var a := Spot(Align(|old(buf.data)|, 4) + 8, old(PriorMap(ctx.prior)));
            && ctx.Valid() && ctx.At(buf) == PartsEnd(kind, arms, a) && buf.Grown(old(buf.data), old(buf.marks))
            && WordAt(buf.data, a.pos - 8, buf.order, 4, default) && WordAt(buf.data, a.pos - 4, buf.order, 4, Count(arms))
            && PartsWire(buf.data, buf.order, kind, arms, a)
    decreases arms, 1
  {
    hide WordAt, PartsWire, PartsEnd, PriorMap, ShapedParts, Align, OutStream.Valid;
    PowerValues();
    buf.PutWord(4, default);
    ghost var d3 := buf.data;
    assert Align(|d3|, 4) == |d3|;
    buf.PutWord(4, Count(arms));
    ghost var d4 := buf.data;
    PartsEnc(kind, arms, buf, ctx);
    WordFrame(d3, buf.data, |d3| - 4, buf.order, 4, default);
    WordFrame(d4, buf.data, |d3|, buf.order, 4, Count(arms));
  }

  lemma PartExtends(data: bytes, data2: bytes, e: Endian, kind: nat, ps: Parts, s: Spot)
    requires ps.Part? && data <= data2 && |data| == TcEnd(ps.tc, PartSpot(kind, ps, s)).pos
    requires LabelWire(data, e, kind, ps.tag, s.pos) && StringWire(data, e, LabelEnd(kind, s.pos), ps.name)
    requires TcWire(data, e, ps.tc, PartSpot(kind, ps, s))
    requires PartsWire(data2, e, kind, ps.rest, TcEnd(ps.tc, PartSpot(kind, ps, s)))
    ensures PartsWire(data2, e, kind, ps, s)
  {
    hide WordAt, StringWire, TcWire, TcEnd;
    var w := LabelWidth(kind);
    if w > 0 {
      WordFrame(data, data2, Align(s.pos, w), e, w, LabelBits(kind, ps.tag));
    }
    StringFrame(data, data2, e, LabelEnd(kind, s.pos), ps.name);
    TcFrame(data, data2, e, ps.tc, PartSpot(kind, ps, s));
  }

  /** The member loops: label (unions only), name, TypeCode. */
  method PartsEnc(kind: nat, ps: Parts, buf: OutStream, ctx: EncodeContext)
    requires ctx.Valid() && ShapedParts(kind, ps) && PartsEnd(kind, ps, ctx.At(buf)).pos < TWO32
    requires buf.Valid()
    modifies buf, buf.store, ctx
    ensures ctx.Valid() && ctx.At(buf) == PartsEnd(kind, ps, old(ctx.At(buf))) && buf.Grown(old(buf.data), old(buf.marks))
    ensures PartsWire(buf.data, buf.order, kind, ps, old(ctx.At(buf)))
    decreases ps, 0
  {
    hide WordAt, StringWire, TcWire, TcEnd, PriorMap, CString, Shaped, Align, OutStream.Valid;
    ghost var s := ctx.At(buf);
    var rest := ps;
    while rest.Part?
      invariant ctx.Valid() && ShapedParts(kind, rest) && s.pos <= |buf.data| && buf.Grown(old(buf.data), old(buf.marks))
      invariant rest == ps || rest < ps
      invariant PartsEnd(kind, rest, ctx.At(buf)) == PartsEnd(kind, ps, s)
      invariant forall d :: buf.data <= d && PartsWire(d, buf.order, kind, rest, ctx.At(buf)) ==> PartsWire(d, buf.order, kind, ps, s)
      decreases rest
    {
      ghost var s1 := ctx.At(buf);
      PartEnc(kind, rest, buf, ctx);
      forall d | buf.data <= d && PartsWire(d, buf.order, kind, rest.rest, ctx.At(buf))
        ensures PartsWire(d, buf.order, kind, rest, s1)
      {
        PartExtends(buf.data, d, buf.order, kind, rest, s1);
      }
      rest := rest.rest;
    }
  }

  method PartEnc(kind: nat, ps: Parts, buf: OutStream, ctx: EncodeContext)
    requires ctx.Valid() && ps.Part? && ShapedParts(kind, ps) && PartsEnd(kind, ps, ctx.At(buf)).pos < TWO32
    requires buf.Valid()
    modifies buf, buf.store, ctx
    ensures ctx.Valid() && ctx.At(buf) == TcEnd(ps.tc, PartSpot(kind, ps, old(ctx.At(buf)))) && buf.Grown(old(buf.data), old(buf.marks))
    ensures LabelWire(buf.data, buf.order, kind, ps.tag, |old(buf.data)|)
    ensures StringWire(buf.data, buf.order, LabelEnd(kind, |old(buf.data)|), ps.name)
    ensures TcWire(buf.data, buf.order, ps.tc, PartSpot(kind, ps, old(ctx.At(buf))))
    decreases ps.tc, 4
  {
    hide WordAt, StringWire, TcWire, TcEnd, PartsWire, PriorMap, CString, Shaped, LabelWidth, LabelBits, Align, OutStream.Valid;
    ghost var p := |buf.data|;
    var w := LabelWidth(kind);
    if w > 0 {
      buf.PutWord(w, LabelBits(kind, ps.tag));
    }
    ghost var d1 := buf.data;
    buf.AppendString(ps.name);
    ghost var d2 := buf.data;
    TcEnc(ps.tc, buf, ctx);
    if w > 0 {
      WordFrame(d1, buf.data, Align(p, w), buf.order, w, LabelBits(kind, ps.tag));
    }
    StringFrame(d2, buf.data, buf.order, |d1|, ps.name);
  }

  /** ORBit_encode_CORBA_TypeCode: a fresh context. */
  method Encode(tc: TypeCode, buf: OutStream)
    requires Shaped(tc) && TcEnd(tc, Spot(|buf.data|, map[])).pos < TWO32
    requires buf.Valid()
    modifies buf, buf.store
    ensures buf.Grown(old(buf.data), old(buf.marks)) && |buf.data| == TcEnd(tc, Spot(|old(buf.data)|, map[])).pos
    ensures TcWire(buf.data, buf.order, tc, Spot(|old(buf.data)|, map[]))
  {
    hide OutStream.Valid;
    var ctx := new EncodeContext();
    TcEnc(tc, buf, ctx);
  }
}
