/**
 ORBit_marshal_value as it runs: recursion over the TypeCode, member and element
 loops, and the bulk append for octet-like elements, which leaves the same bytes
 as the element loop.
 */
module ValueEncoder {
  import opened Cdr
  import opened Common
  import opened OutStreams
  import opened TypeCodes
  import TypeCodeCodec
  import TypeCodeEncoder
  import opened Values

  // ------------------------------------------------------------ the wire format only looks at its own range

  lemma CodeFrame(data: bytes, data2: bytes, e: Endian, tc: TypeCode, p: nat)
    requires CodeWire(data, e, tc, p) && SameOn(data, data2, p, CodeEnd(tc, p))
    ensures CodeWire(data2, e, tc, p)
  {
    hide TypeCodeCodec.TcWire, TypeCodeCodec.TcEnd;
    TypeCodeEncoder.TcFrame(data, data2, e, tc, TypeCodeCodec.Spot(p, map[]));
  }

  lemma {:induction false} ValueFrame(data: bytes, data2: bytes, e: Endian, tc: TypeCode, v: Value, p: nat)
    requires ValueWire(data, e, tc, v, p) && SameOn(data, data2, p, ValueEnd(tc, v, p))
    ensures ValueWire(data2, e, tc, v, p)
    decreases v, 0
  {
    hide Align, WordAt, BytesAt, StringWire, StringEnd, CodeWire, CodeEnd, SkipAlias, SelectArm, Count, Width, WideWire, ScalarWire, FieldsWire, ItemsWire;
    var t := SkipAlias(tc);
    match v
    case Scalar(bits) => ScalarFrame(data, data2, e, KindOf(t), bits, p, ValueEnd(tc, v, p));
    case Text(s) => StringFrame(data, data2, e, p, s);
    case Wide(units) => WideFrame(data, data2, e, units, p);
    case Fields(fields) => FieldsFrame(data, data2, e, t.body.members, fields, p);
    case Tagged(disc, arm) =>
      var k := KindOf(SkipAlias(t.body.disc));
      ScalarFrame(data, data2, e, k, disc, p, ValueEnd(tc, v, p));
      ValueFrame(data, data2, e, SelectArm(t.body, disc), arm, ScalarEnd(k, p));
    case Items(items) =>
      var q := if KindOf(t) == TK_SEQUENCE then Align(p, 4) + 4 else p;
      ItemsFrame(data, data2, e, t.body.elem, items, q);
      if KindOf(t) == TK_SEQUENCE {
        WordFrame(data, data2, q - 4, e, 4, Length(items));
      }
    case AnyOf(inner, val) =>
      CodeFrame(data, data2, e, inner, p);
      ValueFrame(data, data2, e, inner, val, CodeEnd(inner, p));
    case Code(code) => CodeFrame(data, data2, e, code, p);
    case Nothing =>
  }

  lemma WideFrame(data: bytes, data2: bytes, e: Endian, units: seq<nat>, p: nat)
    requires WideWire(data, e, units, p) && SameOn(data, data2, p, Align(p, 4) + 6 + 2 * |units|)
    ensures WideWire(data2, e, units, p)
  {
    hide Align, WordAt, BytesAt;
    var a := Align(p, 4);
    WordFrame(data, data2, a, e, 4, 2 * (|units| + 1));
    WordFrame(data, data2, a + 4, e, 2, 0xfeff);
    BytesFrame(data, data2, a + 6, UnitBytes(e, units));
  }

  lemma ScalarFrame(data: bytes, data2: bytes, e: Endian, kind: nat, bits: nat, p: nat, q: nat)
    requires ScalarWire(data, e, kind, bits, p) && ScalarEnd(kind, p) <= q && SameOn(data, data2, p, q)
    ensures ScalarWire(data2, e, kind, bits, p)
  {
    var w := Width(kind);
    WordFrame(data, data2, Align(p, w), e, w, bits);
  }

  lemma {:induction false} FieldsFrame(data: bytes, data2: bytes, e: Endian, ps: Parts, vs: Values, p: nat)
    requires FieldsWire(data, e, ps, vs, p) && SameOn(data, data2, p, FieldsEnd(ps, vs, p))
    ensures FieldsWire(data2, e, ps, vs, p)
    decreases vs, 1
  {
    hide ValueWire, ValueEnd;
    if vs.Cons? && ps.Part? {
      ValueFrame(data, data2, e, ps.tc, vs.head, p);
      FieldsFrame(data, data2, e, ps.rest, vs.tail, ValueEnd(ps.tc, vs.head, p));
    }
  }

  lemma {:induction false} ItemsFrame(data: bytes, data2: bytes, e: Endian, elem: TypeCode, vs: Values, p: nat)
    requires ItemsWire(data, e, elem, vs, p) && SameOn(data, data2, p, ItemsEnd(elem, vs, p))
    ensures ItemsWire(data2, e, elem, vs, p)
    decreases vs, 1
  {
    hide ValueWire, ValueEnd;
    if vs.Cons? {
      ValueFrame(data, data2, e, elem, vs.head, p);
      ItemsFrame(data, data2, e, elem, vs.tail, ValueEnd(elem, vs.head, p));
    }
  }

  // ------------------------------------------------------------ the bulk path

  /** The native memory of a sequence of octet-like elements. */
  function ItemBytes(vs: Values): (b: bytes)
    ensures |b| == Length(vs)
  {
    if vs.Nil? then [] else [if vs.head.Scalar? then vs.head.bits % 256 else 0] + ItemBytes(vs.tail)
  }

  /** Appending the native memory emits what marshalling element by element emits. */
  lemma {:induction false} BulkIsElementwise(data: bytes, e: Endian, elem: TypeCode, vs: Values, p: nat)
    requires IsOctet(KindOf(elem)) && FitsAll(elem, vs) && BytesAt(data, p, ItemBytes(vs))
    ensures ItemsWire(data, e, elem, vs, p) && ItemsEnd(elem, vs, p) == p + Length(vs)
    decreases vs
  {
    hide Fits, ValueWire, ValueEnd, SkipAlias;
    if vs.Cons? {
      assert data[p + 1..p + Length(vs)] == data[p..p + Length(vs)][1..] == ItemBytes(vs)[1..];
      assert data[p] == data[p..p + Length(vs)][0] == ItemBytes(vs)[0];
      OctetFits(elem, vs.head);
      OctetAt(data, e, elem, vs.head, p);
      BulkIsElementwise(data, e, elem, vs.tail, p + 1);
    }
  }

  lemma OctetFits(elem: TypeCode, v: Value)
    requires IsOctet(KindOf(elem)) && Fits(elem, v)
    ensures v.Scalar?
  {
  }

  lemma OctetAt(data: bytes, e: Endian, elem: TypeCode, v: Value, p: nat)
    requires IsOctet(KindOf(elem)) && Fits(elem, v) && p < |data| && v.Scalar? && data[p] == v.bits % 256
    ensures ValueWire(data, e, elem, v, p) && ValueEnd(elem, v, p) == p + 1
  {
    PowerValues();
    assert Align(p, 1) == p;
    assert Digits(1, v.bits) == [v.bits % 256] + Digits(0, v.bits / 256);
    assert Reverse([data[p]]) == [data[p]] by { assert [data[p]][1..] == []; }
    assert data[p..p + 1] == [data[p]];
  }

  // ------------------------------------------------------------ the marshaller

  method MarshalScalar(kind: nat, bits: nat, buf: OutStream)
    requires Width(kind) > 0 && bits < Pow256(Width(kind))
    requires buf.Valid()
    modifies buf, buf.store
    ensures |buf.data| == ScalarEnd(kind, |old(buf.data)|) && buf.Grown(old(buf.data), old(buf.marks))
    ensures ScalarWire(buf.data, buf.order, kind, bits, |old(buf.data)|)
  {
    hide WordAt, Align, OutStream.Valid;
    buf.PutWord(Width(kind), bits);
  }

  method MarshalWide(units: seq<nat>, buf: OutStream)
    requires WideString(units) && |units| < TWO32 / 2 - 1
    requires buf.Valid()
    modifies buf, buf.store
    ensures |buf.data| == Align(|old(buf.data)|, 4) + 6 + 2 * |units| && buf.Grown(old(buf.data), old(buf.marks))
    ensures WideWire(buf.data, buf.order, units, |old(buf.data)|)
  {
    hide Align, Store, OutStream.Valid;
    PowerValues();
    ghost var a := Align(|buf.data|, 4);
    buf.AppendAligned(4, Store(buf.order, 4, 2 * (|units| + 1)));
    ghost var d1 := buf.data;
    buf.Append(Store(buf.order, 2, 0xfeff));
    ghost var d2 := buf.data;
    assert WordAt(d2, a + 4, buf.order, 2, 0xfeff);
    buf.Append(UnitBytes(buf.order, units));
    WordFrame(d1, buf.data, a, buf.order, 4, 2 * (|units| + 1));
    WordFrame(d2, buf.data, a + 4, buf.order, 2, 0xfeff);
  }

  method MarshalValue(tc: TypeCode, v: Value, buf: OutStream)
    requires Fits(tc, v) && ValueEnd(tc, v, |buf.data|) < TWO32
    requires buf.Valid()
    modifies buf, buf.store
    ensures |buf.data| == ValueEnd(tc, v, |old(buf.data)|) && buf.Grown(old(buf.data), old(buf.marks))
    ensures ValueWire(buf.data, buf.order, tc, v, |old(buf.data)|)
    decreases v, 1
  {
    hide Align, WordAt, StringWire, StringEnd, WideWire, CodeWire, CString, WideString, SkipAlias, SelectArm, Count, Width, OutStream.Valid,
         ScalarWire, FieldsWire;
    PowerValues();
    var t := SkipAlias(tc);
    ghost var p := |buf.data|;
    match v
    case Scalar(bits) => MarshalScalar(KindOf(t), bits, buf);
    case Text(s) => TextBound(s, p); buf.AppendString(s);
    case Wide(units) => MarshalWide(units, buf);
    case Fields(fields) => MarshalFields(t.body.members, fields, buf);
    case Tagged(_, _) => MarshalUnion(tc, v, buf);
    case Items(_) => MarshalElements(tc, v, buf);
    case AnyOf(inner, val) =>
      assert CodeEnd(inner, p) <= ValueEnd(inner, val, CodeEnd(inner, p));
      MarshalCode(inner, buf);
      ghost var d := buf.data;
      MarshalValue(inner, val, buf);
      CodeFrame(d, buf.data, buf.order, inner, p);
    case Code(code) => MarshalCode(code, buf);
    case Nothing =>
  }

  /** The discriminator, then the arm it selects. */
  method MarshalUnion(tc: TypeCode, v: Value, buf: OutStream)
    requires v.Tagged? && Fits(tc, v) && ValueEnd(tc, v, |buf.data|) < TWO32
    requires buf.Valid()
    modifies buf, buf.store
    ensures |buf.data| == ValueEnd(tc, v, |old(buf.data)|) && buf.Grown(old(buf.data), old(buf.marks))
    ensures ValueWire(buf.data, buf.order, tc, v, |old(buf.data)|)
    decreases v, 0
  {
    hide Align, WordAt, SkipAlias, SelectArm, Count, Width, ScalarWire, OutStream.Valid;
    ghost var p := |buf.data|;
    var t := SkipAlias(tc);
    var k := KindOf(SkipAlias(t.body.disc));
    SwitchableHasWidth(k);
    assert ScalarEnd(k, p) <= ValueEnd(SelectArm(t.body, v.disc), v.arm, ScalarEnd(k, p));
    MarshalScalar(k, v.disc, buf);
    ghost var d := buf.data;
    MarshalValue(SelectArm(t.body, v.disc), v.arm, buf);
    ScalarFrame(d, buf.data, buf.order, k, v.disc, p, |d|);
  }

  /** Sequences have their length in front, arrays do not. */
  method MarshalElements(tc: TypeCode, v: Value, buf: OutStream)
    requires v.Items? && Fits(tc, v) && ValueEnd(tc, v, |buf.data|) < TWO32
    requires buf.Valid()
    modifies buf, buf.store
    ensures |buf.data| == ValueEnd(tc, v, |old(buf.data)|) && buf.Grown(old(buf.data), old(buf.marks))
    ensures ValueWire(buf.data, buf.order, tc, v, |old(buf.data)|)
    decreases v, 0
  {
    hide Align, WordAt, SkipAlias, ItemsWire, ItemsEnd, FitsAll, OutStream.Valid;
    PowerValues();
    ghost var p := |buf.data|;
    var t := SkipAlias(tc);
    if KindOf(t) == TK_SEQUENCE {
      buf.PutWord(4, Length(v.items));
      ghost var d := buf.data;
      MarshalItems(t.body.elem, v.items, buf);
      WordFrame(d, buf.data, Align(p, 4), buf.order, 4, Length(v.items));
    } else {
      MarshalItems(t.body.elem, v.items, buf);
    }
  }

  lemma TextBound(s: bytes, p: nat)
    ensures |s| + 1 < StringEnd(p, s)
  {
  }

  lemma SwitchableHasWidth(k: nat)
    requires Switchable(k)
    ensures Width(k) > 0
  {
  }

  method MarshalCode(tc: TypeCode, buf: OutStream)
    requires Graph(tc) && CodeEnd(tc, |buf.data|) < TWO32
    requires buf.Valid()
    modifies buf, buf.store
    ensures |buf.data| == CodeEnd(tc, |old(buf.data)|) && buf.Grown(old(buf.data), old(buf.marks))
    ensures CodeWire(buf.data, buf.order, tc, |old(buf.data)|)
  {
    hide Shaped, Shared, TypeCodeCodec.TcWire, TypeCodeCodec.TcEnd, OutStream.Valid;
    TypeCodeEncoder.Encode(tc, buf);
  }

  /** The member loop of structs and exceptions. */
  method MarshalFields(parts: Parts, fields: Values, buf: OutStream)
    requires FitsFields(parts, fields) && FieldsEnd(parts, fields, |buf.data|) < TWO32
    requires buf.Valid()
    modifies buf, buf.store
    ensures |buf.data| == FieldsEnd(parts, fields, |old(buf.data)|) && buf.Grown(old(buf.data), old(buf.marks))
    ensures FieldsWire(buf.data, buf.order, parts, fields, |old(buf.data)|)
    decreases fields, 1
  {
    hide Fits, ValueWire, ValueEnd, OutStream.Valid;
    ghost var p := |buf.data|;
    var ps, vs := parts, fields;
    while vs.Cons?
      invariant FitsFields(ps, vs) && (vs == fields || vs < fields) && buf.Grown(old(buf.data), old(buf.marks))
      invariant FieldsEnd(ps, vs, |buf.data|) == FieldsEnd(parts, fields, p)
      invariant forall d :: buf.data <= d && FieldsWire(d, buf.order, ps, vs, |buf.data|) ==> FieldsWire(d, buf.order, parts, fields, p)
      decreases vs
    {
      ghost var before := |buf.data|;
      assert ValueEnd(ps.tc, vs.head, before) <= FieldsEnd(ps, vs, before);
      MarshalValue(ps.tc, vs.head, buf);
      forall d | buf.data <= d && FieldsWire(d, buf.order, ps.rest, vs.tail, |buf.data|)
        ensures FieldsWire(d, buf.order, ps, vs, before)
      {
        ValueFrame(buf.data, d, buf.order, ps.tc, vs.head, before);
      }
      ps, vs := ps.rest, vs.tail;
    }
  }

  /** Elements of sequences and arrays: bulk append or element loop. */
  method MarshalItems(elem: TypeCode, items: Values, buf: OutStream)
    requires FitsAll(elem, items) && ItemsEnd(elem, items, |buf.data|) < TWO32
    requires buf.Valid()
    modifies buf, buf.store
    ensures |buf.data| == ItemsEnd(elem, items, |old(buf.data)|) && buf.Grown(old(buf.data), old(buf.marks))
    ensures ItemsWire(buf.data, buf.order, elem, items, |old(buf.data)|)
    decreases items, 1
  {
    hide Fits, ValueWire, ValueEnd, OutStream.Valid;
    ghost var p := |buf.data|;
    if IsOctet(KindOf(elem)) {
      buf.Append(ItemBytes(items));
      BulkIsElementwise(buf.data, buf.order, elem, items, p);
      return;
    }
    var vs := items;
    while vs.Cons?
      invariant FitsAll(elem, vs) && (vs == items || vs < items) && buf.Grown(old(buf.data), old(buf.marks))
      invariant ItemsEnd(elem, vs, |buf.data|) == ItemsEnd(elem, items, p)
      invariant forall d :: buf.data <= d && ItemsWire(d, buf.order, elem, vs, |buf.data|) ==> ItemsWire(d, buf.order, elem, items, p)
      decreases vs
    {
      ghost var before := |buf.data|;
      assert ValueEnd(elem, vs.head, before) <= ItemsEnd(elem, vs, before);
      MarshalValue(elem, vs.head, buf);
      forall d | buf.data <= d && ItemsWire(d, buf.order, elem, vs.tail, |buf.data|)
        ensures ItemsWire(d, buf.order, elem, vs, before)
      {
        ValueFrame(buf.data, d, buf.order, elem, vs.head, before);
      }
      vs := vs.tail;
    }
  }
}
