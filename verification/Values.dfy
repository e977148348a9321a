/**
 TypeCode-driven marshalling of values: the wire format of a value under a
 TypeCode and ORBit_demarshal_value.
 */
module Values {
  import opened Cdr
  import opened Common
  import opened TypeCodes
  import TypeCodeCodec
  import opened TypeCodeRoundTrip

  /** A value as its TypeCode structures it, without its native memory layout. */
  datatype Value =
    | Scalar(bits: nat)
    | Text(s: bytes)
    | Wide(units: seq<nat>)
    | Fields(fields: Values)
    | Tagged(disc: nat, arm: Value)
    | Items(items: Values)
    | AnyOf(tc: TypeCode, val: Value)
    | Code(tc: TypeCode)
    | Nothing

  datatype Values = Nil | Cons(head: Value, tail: Values)

  function Length(vs: Values): nat { if vs.Nil? then 0 else 1 + Length(vs.tail) }

  /** The size, and so the alignment, of a scalar; 0 for the other kinds. */
  function Width(kind: nat): (w: nat)
    ensures w in {0, 1, 2, 4, 8}
  {
    if kind in {TK_BOOLEAN, TK_CHAR, TK_OCTET} then 1
    else if kind in {TK_SHORT, TK_USHORT, TK_WCHAR} then 2
    else if kind in {TK_LONG, TK_ULONG, TK_ENUM, TK_FLOAT} then 4
    else if kind in {TK_DOUBLE, TK_LONGLONG, TK_ULONGLONG} then 8
    else 0
  }

  predicate IsOctet(kind: nat) { kind in {TK_OCTET, TK_BOOLEAN, TK_CHAR} }

  // ------------------------------------------------------------ union arms

  /** The discriminator kinds ORBit_get_union_switch knows. */
  predicate Switchable(kind: nat)
  {
    kind in {TK_LONG, TK_ULONG, TK_ENUM, TK_SHORT, TK_USHORT, TK_CHAR, TK_BOOLEAN, TK_OCTET}
  }

  /** ORBit_get_union_switch: 16- and 32-bit discriminators are read as signed. */
  function SwitchValue(kind: nat, bits: nat): int
  {
    if Width(kind) == 4 then Signed(bits, 0x8000_0000)
    else if Width(kind) == 2 then Signed(bits, 0x8000)
    else bits
  }

  function PartAt(ps: Parts, i: nat): TypeCode
    requires i < Count(ps)
  {
    if i == 0 then ps.tc else PartAt(ps.rest, i - 1)
  }

  /** The label search of ORBit_get_union_tag; `i` is the index of the first part of `ps`. */
  function FindArm(ps: Parts, i: nat, default: int, tag: int): Option<TypeCode>
  {
    if ps.NoParts? then None
    else if i != default && ps.tag == tag then Some(ps.tc)
    else FindArm(ps.rest, i + 1, default, tag)
  }

  /** ORBit_get_union_tag: labelled arm, else default arm, else TC_null. */
  function SelectArm(body: Body, bits: nat): TypeCode
    requires body.Choice? && body.defaultIndex < Count(body.arms)
  {
    match FindArm(body.arms, 0, body.defaultIndex, SwitchValue(KindOf(SkipAlias(body.disc)), bits))
    case Some(tc) => tc
    case None => if body.defaultIndex >= 0 then PartAt(body.arms, body.defaultIndex) else Basic(0)
  }

  function TagAt(ps: Parts, i: nat): int
    requires i < Count(ps)
  {
    if i == 0 then ps.tag else TagAt(ps.rest, i - 1)
  }

  /** The parts of `pre` and those of `post` behind them. */
  function Joined(pre: Parts, post: Parts): Parts
  {
    if pre.NoParts? then post else Part(pre.tag, pre.name, pre.tc, Joined(pre.rest, post))
  }

  /** The part behind `pre` is the one at its count. */
  lemma {:induction false} PartBehind(pre: Parts, tag: int, name: bytes, tc: TypeCode, post: Parts)
    ensures var ps := Joined(pre, Part(tag, name, tc, post));
            Count(ps) == Count(pre) + 1 + Count(post) && PartAt(ps, Count(pre)) == tc && TagAt(ps, Count(pre)) == tag
  {
    if pre.Part? {
      PartBehind(pre.rest, tag, name, tc, post);
    }
  }

  /** Part `k`, counted from `i`, is the first labelled `tag`, the default arm aside. */
  ghost predicate FirstLabelled(ps: Parts, i: nat, default: int, tag: int, k: nat)
  {
    && k < Count(ps) && i + k != default && TagAt(ps, k) == tag
    && forall j: nat :: j < k && i + j != default ==> TagAt(ps, j) != tag
  }

  ghost predicate Unlabelled(ps: Parts, i: nat, default: int, tag: int)
  {
    forall j: nat :: j < Count(ps) && i + j != default ==> TagAt(ps, j) != tag
  }

  lemma {:induction false} FindArmFirst(ps: Parts, i: nat, default: int, tag: int, k: nat)
    requires FirstLabelled(ps, i, default, tag, k)
    ensures FindArm(ps, i, default, tag) == Some(PartAt(ps, k))
  {
    if k > 0 {
      assert TagAt(ps, 0) == ps.tag;
      assert forall j: nat :: j < k - 1 ==> TagAt(ps.rest, j) == TagAt(ps, j + 1);
      FindArmFirst(ps.rest, i + 1, default, tag, k - 1);
    }
  }

  lemma {:induction false} FindArmNone(ps: Parts, i: nat, default: int, tag: int)
    requires Unlabelled(ps, i, default, tag)
    ensures FindArm(ps, i, default, tag) == None
  {
    if ps.Part? {
      assert TagAt(ps, 0) == ps.tag;
      assert forall j: nat :: j < Count(ps.rest) ==> TagAt(ps.rest, j) == TagAt(ps, j + 1);
      FindArmNone(ps.rest, i + 1, default, tag);
    }
  }

  /** The arm of a discriminator: the first one with its label, else the default arm, else TC_null. */
  lemma ArmSelected(body: Body, bits: nat)
    requires body.Choice? && body.defaultIndex < Count(body.arms)
    ensures var tag := SwitchValue(KindOf(SkipAlias(body.disc)), bits);
            && (forall k :: FirstLabelled(body.arms, 0, body.defaultIndex, tag, k) ==> SelectArm(body, bits) == PartAt(body.arms, k))
            && (Unlabelled(body.arms, 0, body.defaultIndex, tag) ==>
                  SelectArm(body, bits) == if body.defaultIndex >= 0 then PartAt(body.arms, body.defaultIndex) else Basic(0))
  {
    var tag := SwitchValue(KindOf(SkipAlias(body.disc)), bits);
    forall k | FirstLabelled(body.arms, 0, body.defaultIndex, tag, k) ensures SelectArm(body, bits) == PartAt(body.arms, k) {
      FindArmFirst(body.arms, 0, body.defaultIndex, tag, k);
    }
    if Unlabelled(body.arms, 0, body.defaultIndex, tag) {
      FindArmNone(body.arms, 0, body.defaultIndex, tag);
    }
  }

  /**
   The labels that ORBit_get_union_switch reads as themselves: not the large
   16-bit unsigned ones, which it reads as signed, nor negative chars, which it
   reads as unsigned.
   */
  predicate Plain(kind: nat, tag: int)
  {
    (kind == TK_USHORT ==> tag < 0x8000) && (kind == TK_CHAR ==> tag >= 0)
  }

  /** A discriminator that carries a label is read as that label if and only if the label is plain. */
  lemma LabelIsSwitched(kind: nat, tag: int)
    requires Switchable(kind) && LabelWidth(kind) > 0 && LabelFits(kind, tag)
    ensures Width(kind) == LabelWidth(kind)
    ensures SwitchValue(kind, LabelBits(kind, tag)) == tag <==> Plain(kind, tag)
  {
    hide Pow256;
    PowerValues();
    match LabelWidth(kind)
    case 1 => TwosComplement(tag, 0x80);
    case 2 => TwosComplement(tag, 0x8000);
    case 4 => TwosComplement(tag, 0x8000_0000);
    case _ => assert false;
  }

  /** The labels of a union are all different, the default's aside. */
  ghost predicate DistinctLabels(body: Body)
    requires body.Choice?
  {
    forall j: nat, k: nat :: j < k < Count(body.arms) && j != body.defaultIndex && k != body.defaultIndex ==>
                               TagAt(body.arms, j) != TagAt(body.arms, k)
  }

  lemma {:induction false} FitsAt(kind: nat, ps: Parts, k: nat)
    requires ShapedParts(kind, ps) && LabelWidth(kind) > 0 && k < Count(ps)
    ensures LabelFits(kind, TagAt(ps, k))
  {
    if k > 0 {
      FitsAt(kind, ps.rest, k - 1);
    }
  }

  /**
   The label of an arm selects that very arm if it is read as itself; otherwise
   it selects no labelled arm at all, but the default or TC_null.
   */
  lemma OwnArm(body: Body, k: nat)
    requires ShapedBody(TK_UNION, body) && body.Choice? && Switchable(KindOf(body.disc)) && DistinctLabels(body)
    requires k < Count(body.arms) && k != body.defaultIndex && body.defaultIndex < Count(body.arms)
    ensures var kind, tag, d := KindOf(body.disc), TagAt(body.arms, k), body.defaultIndex;
            SelectArm(body, LabelBits(kind, tag)) ==
              if Plain(kind, tag) then PartAt(body.arms, k) else if d >= 0 then PartAt(body.arms, d) else Basic(0)
  {
    hide LabelBits, SelectArm, SwitchValue, PartAt, TagAt, ShapedParts;
    var kind, tag := KindOf(body.disc), TagAt(body.arms, k);
    FitsAt(kind, body.arms, k);
    LabelIsSwitched(kind, tag);
    assert SkipAlias(body.disc) == body.disc;
    ArmSelected(body, LabelBits(kind, tag));
    if Plain(kind, tag) {
      assert FirstLabelled(body.arms, 0, body.defaultIndex, tag, k);
    } else {
      Misread(kind, tag);
      forall j: nat | j < Count(body.arms) ensures TagAt(body.arms, j) != SwitchValue(kind, LabelBits(kind, tag)) {
        FitsAt(kind, body.arms, j);
      }
    }
  }

  /** What the others are read as is no label of their discriminator. */
  lemma Misread(kind: nat, tag: int)
    requires Switchable(kind) && LabelWidth(kind) > 0 && LabelFits(kind, tag) && !Plain(kind, tag)
    ensures !LabelFits(kind, SwitchValue(kind, LabelBits(kind, tag)))
  {
    hide Pow256;
    PowerValues();
    match LabelWidth(kind)
    case 1 => TwosComplement(tag, 0x80);
    case 2 => TwosComplement(tag, 0x8000);
    case _ => assert false;
  }

  /** union switch (unsigned short) { case 32768: string; } */
  const LARGE_LABEL: Body := Choice([], [], Basic(TK_USHORT), -1, Part(0x8000, [], Simple(0, TK_STRING, 0), NoParts))

  /** Such a union's string is not part of the value that is marshalled. */
  lemma LargeLabelMissed()
    ensures ShapedBody(TK_UNION, LARGE_LABEL) && SelectArm(LARGE_LABEL, LabelBits(TK_USHORT, 0x8000)) == Basic(0)
  {
    OwnArm(LARGE_LABEL, 0);
  }

  lemma PartAtSize(ps: Parts, i: nat)
    requires i < Count(ps)
    ensures Size(PartAt(ps, i)) < PartsSize(ps)
  {
  }

  lemma FindArmSize(ps: Parts, i: nat, default: int, tag: int)
    ensures FindArm(ps, i, default, tag).Some? ==> Size(FindArm(ps, i, default, tag).value) < PartsSize(ps)
  {
  }

  lemma SelectArmSize(body: Body, bits: nat)
    requires body.Choice? && body.defaultIndex < Count(body.arms)
    ensures Size(SelectArm(body, bits)) <= BodySize(body)
  {
    FindArmSize(body.arms, 0, body.defaultIndex, SwitchValue(KindOf(SkipAlias(body.disc)), bits));
    if 0 <= body.defaultIndex {
      PartAtSize(body.arms, body.defaultIndex);
    }
  }

  // ------------------------------------------------------------ well-typed values

  ghost predicate Graph(tc: TypeCode)
  {
    Shaped(tc) && exists env :: Shared(tc, env)
  }

  ghost predicate WideString(units: seq<nat>)
  {
    forall i :: 0 <= i < |units| ==> 0 < units[i] < 0x1_0000
  }

  /** `v` is a value of type `tc` that the marshaller supports. */
  ghost predicate Fits(tc: TypeCode, v: Value)
    decreases v, 0
  {
    var t := SkipAlias(tc);
    var k := KindOf(t);
    match v
    case Scalar(bits) => Width(k) > 0 && bits < Pow256(Width(k))
    case Text(s) => k == TK_STRING && t.Simple? && CString(s)
    case Wide(units) => k == TK_WSTRING && t.Simple? && WideString(units)
    case Fields(fields) => t.Complex? && t.body.Record? && k in {TK_STRUCT, TK_EXCEPT} && FitsFields(t.body.members, fields)
    case Tagged(disc, arm) =>
      && t.Complex? && t.body.Choice? && k == TK_UNION && t.body.defaultIndex < Count(t.body.arms)
      && Switchable(KindOf(SkipAlias(t.body.disc))) && disc < Pow256(Width(KindOf(SkipAlias(t.body.disc))))
      && Fits(SelectArm(t.body, disc), arm)
    case Items(items) =>
      && t.Complex? && t.body.Element? && k in {TK_SEQUENCE, TK_ARRAY} && FitsAll(t.body.elem, items)
      && (k == TK_ARRAY ==> Length(items) == t.body.length)
      && (k == TK_SEQUENCE ==> Length(items) < TWO32)
    case AnyOf(inner, val) => k == TK_ANY && t.Basic? && Graph(inner) && Fits(inner, val)
    case Code(code) => k == TK_TYPECODE && t.Basic? && Graph(code)
    case Nothing => k <= 1
  }

  ghost predicate FitsFields(ps: Parts, vs: Values)
    decreases vs, 1
  {
    match vs
    case Nil => ps.NoParts?
    case Cons(v, rest) => ps.Part? && Fits(ps.tc, v) && FitsFields(ps.rest, rest)
  }

  ghost predicate FitsAll(elem: TypeCode, vs: Values)
    decreases vs, 1
  {
    vs.Cons? ==> Fits(elem, vs.head) && FitsAll(elem, vs.tail)
  }

  // ------------------------------------------------------------ wire format

  /** Where the encoding of `v` that starts at `p` ends. */
  function ValueEnd(tc: TypeCode, v: Value, p: nat): (q: nat)
    ensures p <= q
    decreases v, 0
  {
    var t := SkipAlias(tc);
    match v
    case Scalar(_) => ScalarEnd(KindOf(t), p)
    case Text(s) => StringEnd(p, s)
    case Wide(units) => Align(p, 4) + 6 + 2 * |units|
    case Fields(fields) => if t.Complex? && t.body.Record? then FieldsEnd(t.body.members, fields, p) else p
    case Tagged(disc, arm) =>
      if t.Complex? && t.body.Choice? && t.body.defaultIndex < Count(t.body.arms)
      then ValueEnd(SelectArm(t.body, disc), arm, ScalarEnd(KindOf(SkipAlias(t.body.disc)), p)) else p
    case Items(items) =>
      if t.Complex? && t.body.Element? then ItemsEnd(t.body.elem, items, if KindOf(t) == TK_SEQUENCE then Align(p, 4) + 4 else p)
      else p
    case AnyOf(inner, val) => ValueEnd(inner, val, CodeEnd(inner, p))
    case Code(code) => CodeEnd(code, p)
    case Nothing => p
  }

  function CodeEnd(tc: TypeCode, p: nat): (q: nat)
    ensures p + 4 <= q
  {
    TypeCodeCodec.TcEnd(tc, TypeCodeCodec.Spot(p, map[])).pos
  }

  function ScalarEnd(kind: nat, p: nat): (q: nat)
    ensures p <= q
  {
    if Width(kind) == 0 then p else Align(p, Width(kind)) + Width(kind)
  }

  function FieldsEnd(ps: Parts, vs: Values, p: nat): (q: nat)
    ensures p <= q
    decreases vs, 1
  {
    if ps.NoParts? || vs.Nil? then p else FieldsEnd(ps.rest, vs.tail, ValueEnd(ps.tc, vs.head, p))
  }

  function ItemsEnd(elem: TypeCode, vs: Values, p: nat): (q: nat)
    ensures p <= q
    decreases vs, 1
  {
    if vs.Nil? then p else ItemsEnd(elem, vs.tail, ValueEnd(elem, vs.head, p))
  }

  function UnitBytes(e: Endian, units: seq<nat>): (b: bytes)
    ensures |b| == 2 * |units|
  {
    if units == [] then [] else Store(e, 2, units[0]) + UnitBytes(e, units[1..])
  }

  ghost predicate ScalarWire(data: bytes, e: Endian, kind: nat, bits: nat, p: nat)
  {
    Width(kind) > 0 && WordAt(data, Align(p, Width(kind)), e, Width(kind), bits)
  }

  /** A wide string: byte length with the mark counted, byte-order mark, units in the sender's order. */
  ghost predicate WideWire(data: bytes, e: Endian, units: seq<nat>, p: nat)
  {
    var a := Align(p, 4);
    && WordAt(data, a, e, 4, 2 * (|units| + 1)) && WordAt(data, a + 4, e, 2, 0xfeff)
    && BytesAt(data, a + 6, UnitBytes(e, units))
  }

  ghost predicate CodeWire(data: bytes, e: Endian, tc: TypeCode, p: nat)
  {
    TypeCodeCodec.TcWire(data, e, tc, TypeCodeCodec.Spot(p, map[]))
  }

  /** `data` holds at `p` what ORBit_marshal_value emits for `v`. */
  ghost predicate ValueWire(data: bytes, e: Endian, tc: TypeCode, v: Value, p: nat)
    decreases v, 0
  {
    var t := SkipAlias(tc);
    match v
    case Scalar(bits) => ScalarWire(data, e, KindOf(t), bits, p)
    case Text(s) => StringWire(data, e, p, s)
    case Wide(units) => WideWire(data, e, units, p)
    case Fields(fields) => t.Complex? && t.body.Record? && FieldsWire(data, e, t.body.members, fields, p)
    case Tagged(disc, arm) =>
      && t.Complex? && t.body.Choice? && t.body.defaultIndex < Count(t.body.arms)
      && var k := KindOf(SkipAlias(t.body.disc));
         ScalarWire(data, e, k, disc, p) && ValueWire(data, e, SelectArm(t.body, disc), arm, ScalarEnd(k, p))
    case Items(items) =>
      && t.Complex? && t.body.Element?
      && if KindOf(t) == TK_SEQUENCE
         then WordAt(data, Align(p, 4), e, 4, Length(items)) && ItemsWire(data, e, t.body.elem, items, Align(p, 4) + 4)
         else ItemsWire(data, e, t.body.elem, items, p)
    case AnyOf(inner, val) => CodeWire(data, e, inner, p) && ValueWire(data, e, inner, val, CodeEnd(inner, p))
    case Code(code) => CodeWire(data, e, code, p)
    case Nothing => true
  }

  ghost predicate FieldsWire(data: bytes, e: Endian, ps: Parts, vs: Values, p: nat)
    decreases vs, 1
  {
    vs.Cons? && ps.Part? ==>
      ValueWire(data, e, ps.tc, vs.head, p) && FieldsWire(data, e, ps.rest, vs.tail, ValueEnd(ps.tc, vs.head, p))
  }

  ghost predicate ItemsWire(data: bytes, e: Endian, elem: TypeCode, vs: Values, p: nat)
    decreases vs, 1
  {
    vs.Cons? ==>
      ValueWire(data, e, elem, vs.head, p) && ItemsWire(data, e, elem, vs.tail, ValueEnd(elem, vs.head, p))
  }

  // ------------------------------------------------------------ demarshalling

  /** `Crash` is a g_error in the TypeCode decoder or for an unknown discriminator kind. */
  datatype Dem<+T> = Ok(value: T, rest: RecvBuf) | Fail | Crash

  function ByteItems(b: bytes): Values
  {
    if b == [] then Nil else Cons(Scalar(b[0]), ByteItems(b[1..]))
  }

  function Units(e: Endian, b: bytes): seq<nat>
  {
    if |b| < 2 then [] else [Load(e, b[..2])] + Units(e, b[2..])
  }

  function UpToZero(units: seq<nat>): seq<nat>
  {
    if units == [] || units[0] == 0 then [] else [units[0]] + UpToZero(units[1..])
  }

  /**
   The byte order of a wide string: by its mark, which is read in the host's
   order; without a mark the units are big-endian. Also whether there was a mark.
   */
  function WideOrder(host: Endian, raw: bytes): (r: (Endian, bool))
    ensures r.1 ==> |raw| >= 2
  {
    if |raw| >= 2 && Load(host, raw[..2]) == 0xfeff then (host, true)
    else if |raw| >= 2 && Load(host, raw[..2]) == 0xfffe then (if host.Little? then Big else Little, true)
    else (Big, false)
  }

  function WideDec(c: RecvBuf): (r: Dem<Value>)
    requires c.Valid() && c.cur <= c.end
    ensures r.Ok? ==> r.rest == c.(cur := r.rest.cur) && c.cur <= r.rest.cur <= c.end
  {
    match GetWord(c, 4)
    case Short => Fail
    case Got(len, c1) =>
      match GetBytes(c1, len)
      case Short => Fail
      case Got(raw, c2) =>
        var (order, marked) := WideOrder(c.host, raw);
        Ok(Wide(UpToZero(Units(order, if marked then raw[2..] else raw))), c2)
  }

  /** The string is duplicated from the cursor up to its terminator; the cursor moves by the length word. */
  function TextDec(c: RecvBuf): (r: Dem<Value>)
    requires c.Valid() && c.cur <= c.end
    ensures r.Ok? ==> r.rest == c.(cur := r.rest.cur) && c.cur <= r.rest.cur <= c.end
  {
    match GetWord(c, 4)
    case Short => Fail
    case Got(len, c1) =>
      if c1.cur + len > c.end then Fail
      else Ok(Text(UpToNul(c.data[c1.cur..])), c1.(cur := c1.cur + len))
  }

  function CodeDec(c: RecvBuf, m: TypeCodeCodec.Model): (r: Dem<TypeCode>)
    requires c.Valid() && c.body <= c.cur <= c.end
    ensures r.Ok? ==> r.rest == c.(cur := r.rest.cur) && c.cur + 4 <= r.rest.cur <= c.end
  {
    match TypeCodeCodec.Decode(c, m)
    case Done(tc, c1, _) => Ok(tc, c1)
    case Malformed => Fail
    case Aborted => Crash
  }

  /** ORBit_demarshal_value. */
  function ValueDec(tc: TypeCode, c: RecvBuf, m: TypeCodeCodec.Model): (r: Dem<Value>)
    requires c.Valid() && c.body <= c.cur <= c.end
    ensures r.Ok? ==> r.rest == c.(cur := r.rest.cur) && c.cur <= r.rest.cur <= c.end
    decreases c.end - c.cur, Size(tc), 0, 0
  {
    var t := SkipAlias(tc);
    var k := KindOf(t);
    if Width(k) > 0 then
      match GetWord(c, Width(k))
      case Short => Fail
      case Got(bits, c1) => Ok(Scalar(bits), c1)
    else if k == TK_STRING then TextDec(c)
    else if k == TK_WSTRING then WideDec(c)
    else if k == TK_TYPECODE then
      match CodeDec(c, m)
      case Fail => Fail
      case Crash => Crash
      case Ok(code, c1) => Ok(Code(code), c1)
    else if k == TK_ANY then
      match CodeDec(c, m)
      case Fail => Fail
      case Crash => Crash
      case Ok(inner, c1) =>
        (match ValueDec(inner, c1, m)
         case Fail => Fail
         case Crash => Crash
         case Ok(val, c2) => Ok(AnyOf(inner, val), c2))
    else if k <= 1 then Ok(Nothing, c)
    else if !t.Complex? then Fail
    else
      assert Size(t) == 1 + BodySize(t.body);
      match t.body
      case Record(_, _, ms) => FieldsDec(ms, c, m)
      case Choice(_, _, _, _, _) => UnionDec(t.body, c, m)
      case Element(elem, length) => if k == TK_SEQUENCE then SequenceDec(elem, c, m) else ItemsDec(elem, length, c, m)
      case _ => Fail
  }

  function UnionDec(body: Body, c: RecvBuf, m: TypeCodeCodec.Model): (r: Dem<Value>)
    requires c.Valid() && c.body <= c.cur <= c.end && body.Choice?
    ensures r.Ok? ==> r.rest == c.(cur := r.rest.cur) && c.cur <= r.rest.cur <= c.end
    decreases c.end - c.cur, BodySize(body), 2, 0
  {
    match ValueDec(body.disc, c, m)
    case Fail => Fail
    case Crash => Crash
    case Ok(disc, c1) =>
      if !Switchable(KindOf(SkipAlias(body.disc))) || !disc.Scalar? || body.defaultIndex >= Count(body.arms) then Crash
      else
        SelectArmSize(body, disc.bits);
        match ValueDec(SelectArm(body, disc.bits), c1, m)
        case Fail => Fail
        case Crash => Crash
        case Ok(arm, c2) => Ok(Tagged(disc.bits, arm), c2)
  }

  /** The length word, then the bulk copy for octet-like elements or the element loop. */
  function SequenceDec(elem: TypeCode, c: RecvBuf, m: TypeCodeCodec.Model): (r: Dem<Value>)
    requires c.Valid() && c.body <= c.cur <= c.end
    ensures r.Ok? ==> r.rest == c.(cur := r.rest.cur) && c.cur <= r.rest.cur <= c.end
    decreases c.end - c.cur, Size(elem), 2, 0
  {
    match GetWord(c, 4)
    case Short => Fail
    case Got(length, c1) =>
      if length > 0 && IsOctet(KindOf(elem)) then
        match GetBytes(c1, length)
        case Short => Fail
        case Got(b, c2) => Ok(Items(ByteItems(b)), c2)
      else ItemsDec(elem, length, c1, m)
  }

  function FieldsDec(ps: Parts, c: RecvBuf, m: TypeCodeCodec.Model): (r: Dem<Value>)
    requires c.Valid() && c.body <= c.cur <= c.end
    ensures r.Ok? ==> r.value.Fields? && r.rest == c.(cur := r.rest.cur) && c.cur <= r.rest.cur <= c.end
    decreases c.end - c.cur, PartsSize(ps), 1, 0
  {
    if ps.NoParts? then Ok(Fields(Nil), c)
    else match ValueDec(ps.tc, c, m)
      case Fail => Fail
      case Crash => Crash
      case Ok(v, c1) =>
        match FieldsDec(ps.rest, c1, m)
        case Fail => Fail
        case Crash => Crash
        case Ok(vs, c2) => Ok(Fields(Cons(v, vs.fields)), c2)
  }

  function ItemsDec(elem: TypeCode, n: nat, c: RecvBuf, m: TypeCodeCodec.Model): (r: Dem<Value>)
    requires c.Valid() && c.body <= c.cur <= c.end
    ensures r.Ok? ==> r.value.Items? && r.rest == c.(cur := r.rest.cur) && c.cur <= r.rest.cur <= c.end
    decreases c.end - c.cur, Size(elem), 1, n
  {
    if n == 0 then Ok(Items(Nil), c)
    else match ValueDec(elem, c, m)
      case Fail => Fail
      case Crash => Crash
      case Ok(v, c1) =>
        match ItemsDec(elem, n - 1, c1, m)
        case Fail => Fail
        case Crash => Crash
        case Ok(vs, c2) => Ok(Items(Cons(v, vs.items)), c2)
  }
}
