/**
 ORBit_demarshal_value inverts ORBit_marshal_value, from any starting position,
 for either byte order of sender and receiver, with TypeCodes and nested `any`s.
 */
module ValueRoundTrip {
  import opened Cdr
  import opened Common
  import opened TypeCodes
  import TypeCodeCodec
  import opened TypeCodeRoundTrip
  import opened Values

  // ------------------------------------------------------------ values up to TypeCode addresses

  function EraseValue(v: Value): Value
  {
    match v
    case Fields(fields) => Fields(EraseValues(fields))
    case Tagged(disc, arm) => Tagged(disc, EraseValue(arm))
    case Items(items) => Items(EraseValues(items))
    case AnyOf(tc, val) => AnyOf(Erase(tc), EraseValue(val))
    case Code(tc) => Code(Erase(tc))
    case _ => v
  }

  function EraseValues(vs: Values): Values
  {
    if vs.Nil? then Nil else Cons(EraseValue(vs.head), EraseValues(vs.tail))
  }

  /** The same value: TypeCodes inside it may live at other addresses, and nothing else may differ. */
  ghost predicate SameValue(v: Value, w: Value)
  {
    match v
    case Fields(fields) => w.Fields? && SameValues(fields, w.fields)
    case Tagged(disc, arm) => w.Tagged? && w.disc == disc && SameValue(arm, w.arm)
    case Items(items) => w.Items? && SameValues(items, w.items)
    case AnyOf(tc, val) => w.AnyOf? && Erase(tc) == Erase(w.tc) && SameValue(val, w.val)
    case Code(tc) => w.Code? && Erase(tc) == Erase(w.tc)
    case _ => v == w
  }

  ghost predicate SameValues(vs: Values, ws: Values)
  {
    if vs.Nil? then ws.Nil? else ws.Cons? && SameValue(vs.head, ws.head) && SameValues(vs.tail, ws.tail)
  }

  lemma {:induction false} EraseIsSame(v: Value, w: Value)
    ensures EraseValue(v) == EraseValue(w) <==> SameValue(v, w)
    decreases v, 0
  {
    match v
    case Fields(fields) => if w.Fields? { ErasesAreSame(fields, w.fields); }
    case Tagged(_, arm) => if w.Tagged? { EraseIsSame(arm, w.arm); }
    case Items(items) => if w.Items? { ErasesAreSame(items, w.items); }
    case AnyOf(_, val) => if w.AnyOf? { EraseIsSame(val, w.val); }
    case _ =>
  }

  lemma {:induction false} ErasesAreSame(vs: Values, ws: Values)
    ensures EraseValues(vs) == EraseValues(ws) <==> SameValues(vs, ws)
    decreases vs, 1
  {
    if vs.Cons? && ws.Cons? {
      EraseIsSame(vs.head, ws.head);
      ErasesAreSame(vs.tail, ws.tail);
    }
  }

  /** Every TypeCode inside the value is local in the sense of TypeCodeRoundTrip. */
  predicate AllLocal(v: Value)
  {
    match v
    case Fields(fields) => AllLocals(fields)
    case Tagged(_, arm) => AllLocal(arm)
    case Items(items) => AllLocals(items)
    case AnyOf(tc, val) => Local(tc, {}, {}) && AllLocal(val)
    case Code(tc) => Local(tc, {}, {})
    case _ => true
  }

  predicate AllLocals(vs: Values)
  {
    vs.Cons? ==> AllLocal(vs.head) && AllLocals(vs.tail)
  }

  // ------------------------------------------------------------ graphs with the same meaning

  ghost predicate Same(a: TypeCode, b: TypeCode) { Erase(a) == Erase(b) }

  ghost predicate SameParts(a: Parts, b: Parts) { RelabelParts(a, map[]) == RelabelParts(b, map[]) }

  lemma SameBody(t: TypeCode, t2: TypeCode)
    requires Same(t, t2) && t.Complex?
    ensures t2.Complex? && RelabelBody(t.body, map[]) == RelabelBody(t2.body, map[])
    ensures t.body.Record? ==> t2.body.Record? && SameParts(t.body.members, t2.body.members)
    ensures t.body.Choice? ==> t2.body.Choice? && Same(t.body.disc, t2.body.disc)
    ensures t.body.Renamed? ==> t2.body.Renamed? && Same(t.body.elem, t2.body.elem)
    ensures t.body.Element? ==> t2.body.Element? && t.body.length == t2.body.length && Same(t.body.elem, t2.body.elem)
  {
  }

  lemma {:induction false} SameSkip(a: TypeCode, b: TypeCode)
    requires Same(a, b)
    ensures Same(SkipAlias(a), SkipAlias(b)) && KindOf(SkipAlias(a)) == KindOf(SkipAlias(b))
    decreases a
  {
    if a.kind == TK_ALIAS && a.Complex? && a.body.Renamed? {
      SameBody(a, b);
      SameSkip(a.body.elem, b.body.elem);
    } else if b.Complex? {
      SameBody(b, a);
    }
  }

  lemma {:induction false} SamePartAt(a: Parts, b: Parts, i: nat)
    requires SameParts(a, b) && i < Count(a)
    ensures Count(a) == Count(b) && Same(PartAt(a, i), PartAt(b, i))
  {
    SameCount(a, b);
    if i > 0 {
      SamePartAt(a.rest, b.rest, i - 1);
    }
  }

  lemma {:induction false} SameCount(a: Parts, b: Parts)
    requires SameParts(a, b)
    ensures Count(a) == Count(b)
  {
    if a.Part? {
      SameCount(a.rest, b.rest);
    }
  }

  lemma {:induction false} SameFindArm(a: Parts, b: Parts, i: nat, default: int, tag: int)
    requires SameParts(a, b)
    ensures FindArm(a, i, default, tag).Some? <==> FindArm(b, i, default, tag).Some?
    ensures FindArm(a, i, default, tag).Some? ==> Same(FindArm(a, i, default, tag).value, FindArm(b, i, default, tag).value)
    decreases a
  {
    if a.Part? {
      SameFindArm(a.rest, b.rest, i + 1, default, tag);
    }
  }

  lemma SameArm(a: Body, b: Body, bits: nat)
    requires a.Choice? && RelabelBody(a, map[]) == RelabelBody(b, map[]) && a.defaultIndex < Count(a.arms)
    ensures b.Choice? && b.defaultIndex == a.defaultIndex < Count(b.arms) && Same(SelectArm(a, bits), SelectArm(b, bits))
  {
    SameSkip(a.disc, b.disc);
    SameCount(a.arms, b.arms);
    SameFindArm(a.arms, b.arms, 0, a.defaultIndex, SwitchValue(KindOf(SkipAlias(a.disc)), bits));
    if a.defaultIndex >= 0 {
      SamePartAt(a.arms, b.arms, a.defaultIndex);
    }
  }

  // ------------------------------------------------------------ leaves

  ghost predicate Decoded(v: Value, c: RecvBuf, q: nat, m: TypeCodeCodec.Model, r: Dem<Value>)
  {
    if m.ILP32? || AllLocal(v) then r.Ok? && EraseValue(r.value) == EraseValue(v) && r.rest == c.(cur := q) else r.Crash?
  }

  ghost predicate Bounded(c: RecvBuf, q: nat, m: TypeCodeCodec.Model)
  {
    c.Valid() && c.body == 0 && c.cur <= q <= c.end < Limit(m)
  }

  /** A string is read up to its terminator, and the cursor moves by the length word, whatever that says. */
  lemma TextReads(s: bytes, len: nat, c: RecvBuf)
    requires CString(s) && c.Valid() && c.cur <= Align(c.cur, 4) + 4 + len <= c.end && len < TWO32
    requires WordAt(c.data, Align(c.cur, 4), c.flag, 4, len) && BytesAt(c.data, Align(c.cur, 4) + 4, s + [0])
    ensures TextDec(c) == Ok(Text(s), c.(cur := Align(c.cur, 4) + 4 + len))
  {
    hide Align, UpToNul;
    PowerValues();
    GetWordReads(c, 4, len);
    UpToNulAt(c.data, Align(c.cur, 4) + 4, s);
  }

  lemma UpToNulAt(data: bytes, a: nat, s: bytes)
    requires CString(s) && BytesAt(data, a, s + [0])
    ensures UpToNul(data[a..]) == s
  {
    hide UpToNul;
    var rest := data[a + |s| + 1..];
    UpToNulOf(s, rest);
    assert data[a..] == data[a..a + |s + [0]|] + rest;
  }

  lemma TextDecodes(s: bytes, c: RecvBuf)
    requires CString(s) && c.Valid() && StringWire(c.data, c.flag, c.cur, s) && c.cur <= StringEnd(c.cur, s) <= c.end < TWO32
    ensures TextDec(c) == Ok(Text(s), c.(cur := StringEnd(c.cur, s)))
  {
    hide Align, WordAt, BytesAt, TextDec;
    TextReads(s, |s| + 1, c);
  }

  lemma {:induction false} UnitsOf(e: Endian, units: seq<nat>)
    requires WideString(units)
    ensures Units(e, UnitBytes(e, units)) == units && UpToZero(units) == units
  {
    if units != [] {
      var b := UnitBytes(e, units);
      PowerValues();
      FetchStore(e, e, 2, units[0]);
      assert b[..2] == Store(e, 2, units[0]) && b[2..] == UnitBytes(e, units[1..]);
      UnitsOf(e, units[1..]);
    }
  }

  lemma MarkOrder(host: Endian, sender: Endian, raw: bytes)
    requires |raw| >= 2 && raw[..2] == Store(sender, 2, 0xfeff)
    ensures WideOrder(host, raw) == (sender, true)
  {
    PowerValues();
    MarkOctets();
    FetchStore(host, host, 2, 0xfeff);
    FetchStore(host, host, 2, 0xfffe);
  }

  lemma WideDecodes(units: seq<nat>, c: RecvBuf)
    requires WideString(units) && c.Valid() && WideWire(c.data, c.flag, units, c.cur)
    requires c.cur <= Align(c.cur, 4) + 6 + 2 * |units| <= c.end < TWO32
    ensures WideDec(c) == Ok(Wide(units), c.(cur := Align(c.cur, 4) + 6 + 2 * |units|))
  {
    hide Align, WideOrder, Units, UnitBytes, UpToZero, GetWord, WideDec, Store;
    PowerValues();
    GetWordReads(c, 4, 2 * (|units| + 1));
    var a := Align(c.cur, 4);
    var raw := c.data[a + 4..a + 6 + 2 * |units|];
    assert raw[..2] == c.data[a + 4..a + 6] && raw[2..] == c.data[a + 6..a + 6 + 2 * |units|];
    MarkOrder(c.host, c.flag, raw);
    UnitsOf(c.flag, units);
    var c1, q := c.(cur := a + 4), a + 6 + 2 * |units|;
    assert GetBytes(c1, 2 * (|units| + 1)) == Got(raw, c1.(cur := q));
    WideDecMarked(c, 2 * (|units| + 1), c1, raw, c1.(cur := q), c.flag);
  }

  /** The two octets of the mark and of its swapped form. */
  lemma MarkOctets()
    ensures Store(Little, 2, 0xfeff) == [0xff, 0xfe] == Store(Big, 2, 0xfffe)
    ensures Store(Big, 2, 0xfeff) == [0xfe, 0xff] == Store(Little, 2, 0xfffe)
  {
    assert Digits(2, 0xfeff) == [0xff] + Digits(1, 0xfe) && Digits(2, 0xfffe) == [0xfe] + Digits(1, 0xff);
    assert Digits(1, 0xfe) == [0xfe] + Digits(0, 0) && Digits(1, 0xff) == [0xff] + Digits(0, 0);
    ReverseTwo(0xff, 0xfe);
    ReverseTwo(0xfe, 0xff);
  }

  lemma ReverseTwo(x: byte, y: byte)
    ensures Reverse([x, y]) == [y, x]
  {
    assert [x, y] == [x] + [y];
    ReverseAppend([x], y);
    ReverseAppend([], x);
    assert [] + [x] == [x];
  }

  /** Only the mark is taken for a mark. */
  lemma NoMark(host: Endian, raw: bytes, unit: nat)
    requires |raw| >= 2 && unit < 0x1_0000 && raw[..2] == Store(Big, 2, unit) && unit !in {0xfeff, 0xfffe}
    ensures WideOrder(host, raw) == (Big, false)
  {
    PowerValues();
    MarkOctets();
    StoreFetch(host, host, raw[..2]);
    FetchStore(Big, Big, 2, unit);
    FetchStore(Big, Big, 2, 0xfeff);
    FetchStore(Big, Big, 2, 0xfffe);
  }

  /** A wide string without a mark is big-endian, whatever the message and the host are. */
  lemma UnmarkedWide(units: seq<nat>, c: RecvBuf)
    requires WideString(units) && c.Valid() && (units != [] ==> units[0] !in {0xfeff, 0xfffe})
    requires c.cur <= Align(c.cur, 4) + 4 + 2 * |units| <= c.end < TWO32
    requires WordAt(c.data, Align(c.cur, 4), c.flag, 4, 2 * |units|) && BytesAt(c.data, Align(c.cur, 4) + 4, UnitBytes(Big, units))
    ensures WideDec(c) == Ok(Wide(units), c.(cur := Align(c.cur, 4) + 4 + 2 * |units|))
  {
    hide Align, WideOrder, Units, UnitBytes, UpToZero, GetWord, GetBytes, WideDec, Store, WideString;
    PowerValues();
    GetWordReads(c, 4, 2 * |units|);
    var a, raw := Align(c.cur, 4), UnitBytes(Big, units);
    var c1 := c.(cur := a + 4);
    BytesRead(c1, raw);
    UnitsUnmarked(c.host, units);
    UnitsOf(Big, units);
    WideDecUnmarked(c, |raw|, c1, raw, c1.(cur := a + 4 + |raw|));
  }

  lemma BytesRead(c: RecvBuf, b: bytes)
    requires c.Valid() && BytesAt(c.data, c.cur, b) && c.cur + |b| <= c.end
    ensures GetBytes(c, |b|) == Got(b, c.(cur := c.cur + |b|))
  {
  }

  lemma UnitsUnmarked(host: Endian, units: seq<nat>)
    requires WideString(units) && (units != [] ==> units[0] !in {0xfeff, 0xfffe})
    ensures WideOrder(host, UnitBytes(Big, units)) == (Big, false)
  {
    if units != [] {
      NoMark(host, UnitBytes(Big, units), units[0]);
    }
  }

  lemma WideDecUnmarked(c: RecvBuf, len: nat, c1: RecvBuf, raw: bytes, c2: RecvBuf)
    requires c.Valid() && c.cur <= c.end && GetWord(c, 4) == Got(len, c1)
    requires c1.Valid() && GetBytes(c1, len) == Got(raw, c2) && WideOrder(c.host, raw) == (Big, false)
    ensures WideDec(c) == Ok(Wide(UpToZero(Units(Big, raw))), c2)
  {
    hide GetWord, GetBytes, WideOrder, Units, UpToZero;
  }

  /** A wide string ends in front of its first zero unit, should it have one. */
  lemma {:induction false} UpToZeroOf(units: seq<nat>, rest: seq<nat>)
    requires WideString(units)
    ensures UpToZero(units + [0] + rest) == units
  {
    if units == [] {
      assert ([] + [0] + rest)[0] == 0;
    } else {
      assert (units + [0] + rest)[1..] == units[1..] + [0] + rest;
      UpToZeroOf(units[1..], rest);
    }
  }

  lemma WideDecMarked(c: RecvBuf, len: nat, c1: RecvBuf, raw: bytes, c2: RecvBuf, order: Endian)
    requires c.Valid() && c.cur <= c.end && GetWord(c, 4) == Got(len, c1)
    requires c1.Valid() && GetBytes(c1, len) == Got(raw, c2) && WideOrder(c.host, raw) == (order, true)
    ensures WideDec(c) == Ok(Wide(UpToZero(Units(order, raw[2..]))), c2)
  {
    hide GetWord, GetBytes, WideOrder, Units, UpToZero;
  }

  lemma CodeDecodes(tc: TypeCode, c: RecvBuf, m: TypeCodeCodec.Model)
    requires Graph(tc) && CodeWire(c.data, c.flag, tc, c.cur) && Bounded(c, CodeEnd(tc, c.cur), m)
    ensures var r := CodeDec(c, m);
            if m.ILP32? || Local(tc, {}, {}) then r.Ok? && Same(tc, r.value) && r.rest == c.(cur := CodeEnd(tc, c.cur)) else r.Crash?
  {
    hide TypeCodeCodec.TcWire, TypeCodeCodec.TcEnd, TypeCodeCodec.TcDec, Shaped, Shared;
    var env :| Shared(tc, env);
    RoundTrip(tc, env, c, m);
    EraseRelabel(tc, TypeCodeCodec.TcEnd(tc, TypeCodeCodec.Spot(c.cur, map[])).prior);
  }

  // ------------------------------------------------------------ the induction

  lemma {:induction false} ValueDecodes(tc: TypeCode, tc2: TypeCode, v: Value, c: RecvBuf, m: TypeCodeCodec.Model)
    requires Fits(tc, v) && Same(tc, tc2)
    requires Bounded(c, ValueEnd(tc, v, c.cur), m) && ValueWire(c.data, c.flag, tc, v, c.cur)
    ensures Decoded(v, c, ValueEnd(tc, v, c.cur), m, ValueDec(tc2, c, m))
    decreases v, 4
  {
    hide Fits, ValueEnd, ValueWire, ValueDec, Decoded, Bounded, Erase;
    match v
    case Fields(_) => CompoundDecodes(tc, tc2, v, c, m);
    case Tagged(_, _) => CompoundDecodes(tc, tc2, v, c, m);
    case Items(_) => CompoundDecodes(tc, tc2, v, c, m);
    case AnyOf(_, _) => AnyDecodes(tc, tc2, v, c, m);
    case _ => LeafDecodes(tc, tc2, v, c, m);
  }

  lemma LeafDecodes(tc: TypeCode, tc2: TypeCode, v: Value, c: RecvBuf, m: TypeCodeCodec.Model)
    requires v.Scalar? || v.Text? || v.Wide? || v.Code? || v.Nothing?
    requires Fits(tc, v) && Same(tc, tc2)
    requires Bounded(c, ValueEnd(tc, v, c.cur), m) && ValueWire(c.data, c.flag, tc, v, c.cur)
    ensures Decoded(v, c, ValueEnd(tc, v, c.cur), m, ValueDec(tc2, c, m))
  {
    hide Align, WordAt, StringWire, StringEnd, WideWire, CodeWire, CodeEnd, CString, WideString, Graph, TypeCodeCodec.Decode, TextDec, WideDec, CodeDec, UnionDec, SequenceDec, FieldsDec, ItemsDec, SkipAlias, Local, Relabel;
    SameSkip(tc, tc2);
    LimitBelow(m);
    match v
    case Scalar(bits) => GetWordReads(c, Width(KindOf(SkipAlias(tc))), bits);
    case Text(s) => TextDecodes(s, c);
    case Wide(units) => WideDecodes(units, c);
    case Code(code) => CodeDecodes(code, c, m);
    case Nothing =>
  }

  lemma {:induction false} AnyDecodes(tc: TypeCode, tc2: TypeCode, v: Value, c: RecvBuf, m: TypeCodeCodec.Model)
    requires v.AnyOf? && Fits(tc, v) && Same(tc, tc2)
    requires Bounded(c, ValueEnd(tc, v, c.cur), m) && ValueWire(c.data, c.flag, tc, v, c.cur)
    ensures Decoded(v, c, ValueEnd(tc, v, c.cur), m, ValueDec(tc2, c, m))
    decreases v, 3
  {
    hide CodeWire, CodeEnd, Graph, CodeDec, SkipAlias, Local, Relabel, Fits, ValueWire, ValueEnd, ValueDec, Limit;
    SameSkip(tc, tc2);
    AnyLayout(tc, v, c.data, c.flag, c.cur);
    AnyDec(tc2, c, m);
    var q := CodeEnd(v.tc, c.cur);
    CodeDecodes(v.tc, c, m);
    var r := CodeDec(c, m);
    if r.Ok? {
      ValueDecodes(v.tc, r.value, v.val, r.rest, m);
    }
  }

  /** An any: its TypeCode, then its value. */
  lemma AnyLayout(tc: TypeCode, v: Value, data: bytes, e: Endian, p: nat)
    requires v.AnyOf? && Fits(tc, v) && ValueWire(data, e, tc, v, p)
    ensures KindOf(SkipAlias(tc)) == TK_ANY && Graph(v.tc) && Fits(v.tc, v.val)
    ensures p <= CodeEnd(v.tc, p) <= ValueEnd(tc, v, p) == ValueEnd(v.tc, v.val, CodeEnd(v.tc, p))
    ensures CodeWire(data, e, v.tc, p) && ValueWire(data, e, v.tc, v.val, CodeEnd(v.tc, p))
  {
    hide CodeWire, CodeEnd, Graph, SkipAlias;
  }

  lemma AnyDec(tc: TypeCode, c: RecvBuf, m: TypeCodeCodec.Model)
    requires c.Valid() && c.body <= c.cur <= c.end && KindOf(SkipAlias(tc)) == TK_ANY
    ensures ValueDec(tc, c, m) ==
            match CodeDec(c, m)
            case Fail => Fail
            case Crash => Crash
            case Ok(inner, c1) =>
              (match ValueDec(inner, c1, m)
               case Fail => Fail
               case Crash => Crash
               case Ok(val, c2) => Ok(AnyOf(inner, val), c2))
  {
    hide CodeDec, SkipAlias;
  }

  lemma {:induction false} CompoundDecodes(tc: TypeCode, tc2: TypeCode, v: Value, c: RecvBuf, m: TypeCodeCodec.Model)
    requires v.Fields? || v.Tagged? || v.Items?
    requires Fits(tc, v) && Same(tc, tc2)
    requires Bounded(c, ValueEnd(tc, v, c.cur), m) && ValueWire(c.data, c.flag, tc, v, c.cur)
    ensures Decoded(v, c, ValueEnd(tc, v, c.cur), m, ValueDec(tc2, c, m))
    decreases v, 3
  {
    hide Align, WordAt, FindArm, SelectArm, Count, UnionDec, SequenceDec, FieldsDec, ItemsDec, SkipAlias, Relabel, RelabelParts, RelabelBody, Limit, Decoded;
    SameSkip(tc, tc2);
    var t, t2 := SkipAlias(tc), SkipAlias(tc2);
    SameBody(t, t2);
    match v
    case Fields(fields) => FieldsDecode(t.body.members, t2.body.members, fields, c, m);
    case Tagged(disc, arm) => TaggedDecodes(t.body, t2.body, disc, arm, c, m);
    case Items(items) => ElementsDecode(tc, tc2, items, c, m);
  }

  lemma SameDiscriminator(a: Body, b: Body)
    requires a.Choice? && b.Choice? && RelabelBody(a, map[]) == RelabelBody(b, map[])
    ensures Same(a.disc, b.disc)
  {
  }

  lemma {:induction false} TaggedDecodes(a: Body, b: Body, disc: nat, arm: Value, c: RecvBuf, m: TypeCodeCodec.Model)
    requires a.Choice? && b.Choice? && RelabelBody(a, map[]) == RelabelBody(b, map[]) && a.defaultIndex < Count(a.arms)
    requires Switchable(KindOf(SkipAlias(a.disc))) && disc < Pow256(Width(KindOf(SkipAlias(a.disc)))) && Fits(SelectArm(a, disc), arm)
    requires var k := KindOf(SkipAlias(a.disc));
             && Bounded(c, ValueEnd(SelectArm(a, disc), arm, ScalarEnd(k, c.cur)), m)
             && ScalarWire(c.data, c.flag, k, disc, c.cur) && ValueWire(c.data, c.flag, SelectArm(a, disc), arm, ScalarEnd(k, c.cur))
    ensures var q := ValueEnd(SelectArm(a, disc), arm, ScalarEnd(KindOf(SkipAlias(a.disc)), c.cur));
            Decoded(Tagged(disc, arm), c, q, m, UnionDec(b, c, m))
    decreases arm, 5
  {
    hide Align, WordAt, Fits, ValueWire, ValueEnd, ValueDec, UnionDec, SelectArm, Count, SkipAlias, GetWord, Limit,
         Relabel, RelabelBody, RelabelParts, Erase, EraseValue;
    var k := KindOf(SkipAlias(a.disc));
    SameDiscriminator(a, b);
    SameSkip(a.disc, b.disc);
    SameArm(a, b, disc);
    GetWordReads(c, Width(k), disc);
    var c1 := c.(cur := ScalarEnd(k, c.cur));
    ScalarDec(b.disc, c, disc, c1, m);
    ValueDecodes(SelectArm(a, disc), SelectArm(b, disc), arm, c1, m);
    UnionDecFrom(b, c, disc, c1, m);
    TaggedParts(disc, arm);
    if ValueDec(SelectArm(b, disc), c1, m).Ok? {
      TaggedParts(disc, ValueDec(SelectArm(b, disc), c1, m).value);
    }
  }

  lemma TaggedParts(disc: nat, arm: Value)
    ensures AllLocal(Tagged(disc, arm)) == AllLocal(arm)
    ensures EraseValue(Tagged(disc, arm)) == Tagged(disc, EraseValue(arm))
  {
  }

  lemma ScalarDec(tc: TypeCode, c: RecvBuf, bits: nat, c1: RecvBuf, m: TypeCodeCodec.Model)
    requires c.Valid() && c.body <= c.cur <= c.end && Width(KindOf(SkipAlias(tc))) > 0
    requires GetWord(c, Width(KindOf(SkipAlias(tc)))) == Got(bits, c1)
    ensures ValueDec(tc, c, m) == Ok(Scalar(bits), c1)
  {
    hide GetWord, SkipAlias;
  }

  lemma UnionDecFrom(b: Body, c: RecvBuf, bits: nat, c1: RecvBuf, m: TypeCodeCodec.Model)
    requires c.Valid() && c.body <= c.cur <= c.end && b.Choice? && c1.Valid() && c1.body <= c1.cur <= c1.end
    requires ValueDec(b.disc, c, m) == Ok(Scalar(bits), c1)
    requires Switchable(KindOf(SkipAlias(b.disc))) && b.defaultIndex < Count(b.arms)
    ensures UnionDec(b, c, m) ==
            match ValueDec(SelectArm(b, bits), c1, m)
            case Fail => Fail
            case Crash => Crash
            case Ok(arm, c2) => Ok(Tagged(bits, arm), c2)
  {
    hide ValueDec, SelectArm, SkipAlias, Count;
  }

  lemma AllLocalFields(vs: Values)
    ensures AllLocal(Fields(vs)) == AllLocal(Items(vs)) == AllLocals(vs)
    ensures EraseValue(Fields(vs)) == Fields(EraseValues(vs)) && EraseValue(Items(vs)) == Items(EraseValues(vs))
  {
  }

  lemma {:induction false} FieldsDecode(a: Parts, b: Parts, vs: Values, c: RecvBuf, m: TypeCodeCodec.Model)
    requires FitsFields(a, vs) && SameParts(a, b)
    requires Bounded(c, FieldsEnd(a, vs, c.cur), m) && FieldsWire(c.data, c.flag, a, vs, c.cur)
    ensures Decoded(Fields(vs), c, FieldsEnd(a, vs, c.cur), m, FieldsDec(b, c, m))
    decreases vs, 1
  {
    hide Fits, ValueWire, ValueEnd, ValueDec, Limit;
    if vs.Cons? {
      var q := ValueEnd(a.tc, vs.head, c.cur);
      assert q <= FieldsEnd(a.rest, vs.tail, q) == FieldsEnd(a, vs, c.cur);
      ValueDecodes(a.tc, b.tc, vs.head, c, m);
      AllLocalFields(vs);
      if ValueDec(b.tc, c, m).Ok? {
        FieldsDecode(a.rest, b.rest, vs.tail, c.(cur := q), m);
        AllLocalFields(vs.tail);
        var r := FieldsDec(b.rest, c.(cur := q), m);
        if r.Ok? {
          AllLocalFields(r.value.fields);
          AllLocalFields(Cons(ValueDec(b.tc, c, m).value, r.value.fields));
        }
      }
    }
  }

  lemma {:induction false} ItemsDecode(a: TypeCode, b: TypeCode, vs: Values, c: RecvBuf, m: TypeCodeCodec.Model)
    requires FitsAll(a, vs) && Same(a, b)
    requires Bounded(c, ItemsEnd(a, vs, c.cur), m) && ItemsWire(c.data, c.flag, a, vs, c.cur)
    ensures Decoded(Items(vs), c, ItemsEnd(a, vs, c.cur), m, ItemsDec(b, Length(vs), c, m))
    decreases vs, 1
  {
    hide Fits, ValueWire, ValueEnd, ValueDec, Limit, Erase;
    if vs.Cons? {
      var q := ValueEnd(a, vs.head, c.cur);
      assert q <= ItemsEnd(a, vs.tail, q) == ItemsEnd(a, vs, c.cur);
      ValueDecodes(a, b, vs.head, c, m);
      AllLocalFields(vs);
      if ValueDec(b, c, m).Ok? {
        ItemsDecode(a, b, vs.tail, c.(cur := q), m);
        AllLocalFields(vs.tail);
        var r := ItemsDec(b, Length(vs.tail), c.(cur := q), m);
        if r.Ok? {
          AllLocalFields(r.value.items);
          AllLocalFields(Cons(ValueDec(b, c, m).value, r.value.items));
        }
      }
    }
  }

  lemma ElementsLayout(tc: TypeCode, items: Values, data: bytes, e: Endian, p: nat)
    requires Fits(tc, Items(items)) && ValueWire(data, e, tc, Items(items), p)
    ensures var t := SkipAlias(tc);
            && t.Complex? && t.body.Element? && KindOf(t) in {TK_SEQUENCE, TK_ARRAY} && FitsAll(t.body.elem, items)
            && (KindOf(t) == TK_ARRAY ==> Length(items) == t.body.length)
            && var q := if KindOf(t) == TK_SEQUENCE then Align(p, 4) + 4 else p;
               && (KindOf(t) == TK_SEQUENCE ==> Length(items) < TWO32 && WordAt(data, q - 4, e, 4, Length(items)))
               && ItemsWire(data, e, t.body.elem, items, q) && q <= ValueEnd(tc, Items(items), p) == ItemsEnd(t.body.elem, items, q)
  {
    hide Align, WordAt, FitsAll, ItemsWire, SkipAlias;
  }

  lemma {:induction false} ElementsDecode(tc: TypeCode, tc2: TypeCode, items: Values, c: RecvBuf, m: TypeCodeCodec.Model)
    requires Fits(tc, Items(items)) && Same(tc, tc2)
    requires Bounded(c, ValueEnd(tc, Items(items), c.cur), m) && ValueWire(c.data, c.flag, tc, Items(items), c.cur)
    ensures var t, t2 := SkipAlias(tc), SkipAlias(tc2);
            && t.Complex? && t.body.Element? && t2.Complex? && t2.body.Element?
            && Decoded(Items(items), c, ValueEnd(tc, Items(items), c.cur), m,
                       if KindOf(t) == TK_SEQUENCE then SequenceDec(t2.body.elem, c, m) else ItemsDec(t2.body.elem, t2.body.length, c, m))
    decreases items, 2
  {
    hide Align, WordAt, FitsAll, ItemsWire, ItemsEnd, SkipAlias, ItemsDec, Limit, Fits, ValueWire, ValueEnd;
    SameSkip(tc, tc2);
    var t, t2 := SkipAlias(tc), SkipAlias(tc2);
    ElementsLayout(tc, items, c.data, c.flag, c.cur);
    SameBody(t, t2);
    if KindOf(t) == TK_SEQUENCE {
      var c1 := c.(cur := Align(c.cur, 4) + 4);
      PowerValues();
      assert Limit(m) <= TWO32 by { LimitBelow(m); }
      GetWordReads(c, 4, Length(items));
      if items.Cons? && IsOctet(KindOf(t2.body.elem)) {
        assert KindOf(t.body.elem) == KindOf(t2.body.elem);
        BulkDecodes(t.body.elem, items, c1, m);
      } else {
        ItemsDecode(t.body.elem, t2.body.elem, items, c1, m);
      }
    } else {
      ItemsDecode(t.body.elem, t2.body.elem, items, c, m);
    }
  }

  /** Octet-like elements lie side by side, so the bulk copy reads exactly what the element loop would. */
  lemma BulkDecodes(elem: TypeCode, items: Values, c: RecvBuf, m: TypeCodeCodec.Model)
    requires IsOctet(KindOf(elem)) && FitsAll(elem, items)
    requires Bounded(c, ItemsEnd(elem, items, c.cur), m) && ItemsWire(c.data, c.flag, elem, items, c.cur)
    ensures ItemsEnd(elem, items, c.cur) == c.cur + Length(items)
    ensures GetBytes(c, Length(items)).Got? && ByteItems(GetBytes(c, Length(items)).value) == items
    ensures AllLocal(Items(items))
  {
    hide FitsAll, ItemsWire, ItemsEnd, Fits, ValueWire, ValueEnd, Limit;
    OctetsSideBySide(elem, items, c.data, c.flag, c.cur);
  }

  lemma {:induction false} OctetsSideBySide(elem: TypeCode, items: Values, data: bytes, e: Endian, p: nat)
    requires IsOctet(KindOf(elem)) && FitsAll(elem, items) && ItemsWire(data, e, elem, items, p) && p <= |data|
    ensures ItemsEnd(elem, items, p) == p + Length(items) <= |data|
    ensures ByteItems(data[p..p + Length(items)]) == items && AllLocals(items)
    decreases items
  {
    hide Fits, ValueWire, ValueEnd;
    if items.Cons? {
      var n := Length(items);
      OctetValue(elem, items.head, data, e, p);
      OctetsSideBySide(elem, items.tail, data, e, p + 1);
      assert data[p..p + n][1..] == data[p + 1..p + n];
    }
  }

  lemma OctetValue(elem: TypeCode, v: Value, data: bytes, e: Endian, p: nat)
    requires IsOctet(KindOf(elem)) && Fits(elem, v) && ValueWire(data, e, elem, v, p)
    ensures p < |data| && v == Scalar(data[p]) && ValueEnd(elem, v, p) == p + 1
  {
    hide WordAt, CodeWire, StringWire, WideWire;
    assert v.Scalar?;
    PowerValues();
    assert Align(p, 1) == p;
    OctetWord(data, p, e, v.bits);
  }

  lemma OctetWord(data: bytes, p: nat, e: Endian, v: nat)
    requires WordAt(data, p, e, 1, v) && v < 256
    ensures p < |data| && data[p] == v
  {
    assert Digits(1, v) == [v] + Digits(0, 0);
    assert Reverse([v]) == [v] by { assert [v as byte][1..] == []; }
    assert data[p..p + 1][0] == data[p];
  }

  /**
   The round trip of values. `c.cur` is any position, `c.flag` the sender's and
   `c.host` the receiver's byte order. The cursor ends exactly behind the value.
   With 64-bit pointers this holds if and only if every TypeCode inside the
   value is local.
   */
  lemma RoundTripValue(tc: TypeCode, v: Value, c: RecvBuf, m: TypeCodeCodec.Model)
    requires Fits(tc, v) && Bounded(c, ValueEnd(tc, v, c.cur), m) && ValueWire(c.data, c.flag, tc, v, c.cur)
    ensures var r := ValueDec(tc, c, m);
            && (r.Ok? <==> m.ILP32? || AllLocal(v))
            && (r.Ok? ==> EraseValue(r.value) == EraseValue(v) && r.rest == c.(cur := ValueEnd(tc, v, c.cur)))
            && (!r.Ok? ==> r.Crash?)
  {
    hide Fits, ValueWire, ValueEnd, ValueDec;
    ValueDecodes(tc, tc, v, c, m);
  }
}
