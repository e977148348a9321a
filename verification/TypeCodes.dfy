/**
 TypeCodes as acyclic graphs. A non-basic node carries `id`, the address of its
 C struct: two nodes with the same id are one shared node. What a graph means
 without its addresses is `Erase`, and CORBA_TypeCode_equal is `Equal`.
 */
module TypeCodes {
  import opened Cdr

  const TK_SHORT: nat := 2
  const TK_LONG: nat := 3
  const TK_USHORT: nat := 4
  const TK_ULONG: nat := 5
  const TK_FLOAT: nat := 6
  const TK_DOUBLE: nat := 7
  const TK_BOOLEAN: nat := 8
  const TK_CHAR: nat := 9
  const TK_OCTET: nat := 10
  const TK_ANY: nat := 11
  const TK_TYPECODE: nat := 12
  const TK_PRINCIPAL: nat := 13
  const TK_OBJREF: nat := 14
  const TK_STRUCT: nat := 15
  const TK_UNION: nat := 16
  const TK_ENUM: nat := 17
  const TK_STRING: nat := 18
  const TK_SEQUENCE: nat := 19
  const TK_ARRAY: nat := 20
  const TK_ALIAS: nat := 21
  const TK_EXCEPT: nat := 22
  const TK_LONGLONG: nat := 23
  const TK_ULONGLONG: nat := 24
  const TK_LONGDOUBLE: nat := 25
  const TK_WCHAR: nat := 26
  const TK_WSTRING: nat := 27
  const TK_LAST: nat := 33
  const TK_RECURSIVE: nat := 0xffff_ffff

  datatype TypeCode =
    | Basic(kind: nat)
    | Simple(id: nat, kind: nat, length: nat)
    | Complex(id: nat, kind: nat, body: Body)

  /** The contents of an encapsulated node, by shape. */
  datatype Body =
    | Reference(repoId: bytes, name: bytes)
    | Record(repoId: bytes, name: bytes, members: Parts)
    | Choice(repoId: bytes, name: bytes, disc: TypeCode, defaultIndex: int, arms: Parts)
    | Enumeration(repoId: bytes, name: bytes, names: seq<bytes>)
    | Element(elem: TypeCode, length: nat)
    | Renamed(repoId: bytes, name: bytes, elem: TypeCode)

  datatype Parts = NoParts | Part(tag: int, name: bytes, tc: TypeCode, rest: Parts)

  function KindOf(tc: TypeCode): nat { tc.kind }

  predicate IsBasic(kind: nat)
  {
    kind <= TK_PRINCIPAL || TK_LONGLONG <= kind <= TK_WCHAR
  }

  function Count(ps: Parts): nat
  {
    if ps.NoParts? then 0 else 1 + Count(ps.rest)
  }

  // ------------------------------------------------------------ union labels

  /** The width CDR_put writes a label with; 0 is an illegal discriminator. */
  function LabelWidth(kind: nat): (w: nat)
    ensures w in {0, 1, 2, 4, 8}
  {
    if kind in {TK_LONG, TK_ENUM, TK_ULONG} then 4
    else if kind in {TK_BOOLEAN, TK_CHAR} then 1
    else if kind in {TK_SHORT, TK_USHORT, TK_WCHAR} then 2
    else if kind in {TK_LONGLONG, TK_ULONGLONG} then 8
    else 0
  }

  /** The labels (stored as CORBA_long) that the discriminator's C type can hold. */
  predicate LabelFits(kind: nat, tag: int)
  {
    if kind == TK_BOOLEAN then 0 <= tag < 0x100
    else if kind == TK_CHAR then -0x80 <= tag < 0x80
    else if kind == TK_SHORT then -0x8000 <= tag < 0x8000
    else if kind in {TK_USHORT, TK_WCHAR} then 0 <= tag < 0x1_0000
    else -0x8000_0000 <= tag < 0x8000_0000
  }

  /** The cast to the discriminator's C type, as the bits that reach the wire. */
  function LabelBits(kind: nat, tag: int): (v: nat)
    ensures v < Pow256(LabelWidth(kind))
  {
    tag % Pow256(LabelWidth(kind))
  }

  function Signed(v: int, half: nat): int
  {
    if v < half then v else v - 2 * half
  }

  /** The cast of the decoded word back to CORBA_long. */
  function LabelOf(kind: nat, bits: nat): int
  {
    if kind in {TK_BOOLEAN, TK_USHORT, TK_WCHAR} then bits
    else if kind == TK_CHAR then Signed(bits, 0x80)
    else if kind == TK_SHORT then Signed(bits, 0x8000)
    else Signed(bits % TWO32, 0x8000_0000)
  }

  lemma LabelRoundTrip(kind: nat, tag: int)
    requires LabelWidth(kind) > 0 && LabelFits(kind, tag)
    ensures LabelOf(kind, LabelBits(kind, tag)) == tag
  {
    hide Pow256, Signed;
    PowerValues();
    match LabelWidth(kind)
    case 1 => TwosComplement(tag, 0x80);
    case 2 => TwosComplement(tag, 0x8000);
    case 4 => TwosComplement(tag, 0x8000_0000);
    case 8 =>
      LowWord(tag);
      TwosComplement(tag, 0x8000_0000);
    case _ => assert false;
  }

  /** The remainder modulo 2 * half, read as unsigned and as signed. */
  lemma TwosComplement(v: int, half: nat)
    requires half > 0 && 0 <= v + half && v < 2 * half
    ensures v >= 0 ==> v % (2 * half) == v
    ensures v < half ==> Signed(v % (2 * half), half) == v
  {
    var q, r := if v >= 0 then 0 else -1, if v >= 0 then v else v + 2 * half;
    Quotient(v, 2 * half, q, r);
  }

  /** The low half of a sign-extended word. */
  lemma LowWord(tag: int)
    requires -0x8000_0000 <= tag < 0x8000_0000
    ensures tag % (TWO32 * TWO32) % TWO32 == tag % TWO32
  {
    if tag >= 0 {
      Quotient(tag, TWO32 * TWO32, 0, tag);
    } else {
      Quotient(tag, TWO32 * TWO32, -1, tag + TWO32 * TWO32);
      Quotient(tag + TWO32 * TWO32, TWO32, TWO32 - 1, tag + TWO32);
      Quotient(tag, TWO32, -1, tag + TWO32);
    }
  }

  // ------------------------------------------------------------ well-formed graphs

  ghost predicate Shaped(tc: TypeCode)
    decreases tc
  {
    match tc
    case Basic(kind) => IsBasic(kind)
    case Simple(_, kind, length) => kind in {TK_STRING, TK_WSTRING} && length < TWO32
    case Complex(_, kind, body) => ShapedBody(kind, body)
  }

  ghost predicate ShapedBody(kind: nat, body: Body)
    decreases body
  {
    match body
    case Reference(r, n) => kind == TK_OBJREF && CString(r) && CString(n)
    case Record(r, n, ms) => kind in {TK_STRUCT, TK_EXCEPT} && CString(r) && CString(n) && ShapedParts(0, ms)
    case Choice(r, n, disc, default, arms) =>
      && kind == TK_UNION && CString(r) && CString(n) && Shaped(disc) && LabelWidth(KindOf(disc)) > 0
      && -0x8000_0000 <= default < 0x8000_0000 && ShapedParts(KindOf(disc), arms)
    case Enumeration(r, n, names) =>
      kind == TK_ENUM && CString(r) && CString(n) && forall i :: 0 <= i < |names| ==> CString(names[i])
    case Element(elem, length) => kind in {TK_SEQUENCE, TK_ARRAY} && Shaped(elem) && length < TWO32
    case Renamed(r, n, elem) => kind == TK_ALIAS && CString(r) && CString(n) && Shaped(elem)
  }

  /** Members of a record (`kind` 0) carry no label. */
  ghost predicate ShapedParts(kind: nat, ps: Parts)
    decreases ps
  {
    ps.Part? ==>
      && CString(ps.name) && Shaped(ps.tc) && ShapedParts(kind, ps.rest)
      && if LabelWidth(kind) == 0 then ps.tag == 0 else LabelFits(kind, ps.tag)
  }

  /** `env` says which node lives at each address; the graph agrees with it. */
  ghost predicate Shared(tc: TypeCode, env: map<nat, TypeCode>)
  {
    match tc
    case Basic(_) => true
    case Simple(id, _, _) => id in env && env[id] == tc
    case Complex(id, _, body) => id in env && env[id] == tc && SharedBody(body, env)
  }

  ghost predicate SharedBody(body: Body, env: map<nat, TypeCode>)
  {
    match body
    case Reference(_, _) => true
    case Record(_, _, ms) => SharedParts(ms, env)
    case Choice(_, _, disc, _, arms) => Shared(disc, env) && SharedParts(arms, env)
    case Enumeration(_, _, _) => true
    case Element(elem, _) => Shared(elem, env)
    case Renamed(_, _, elem) => Shared(elem, env)
  }

  ghost predicate SharedParts(ps: Parts, env: map<nat, TypeCode>)
  {
    ps.Part? ==> Shared(ps.tc, env) && SharedParts(ps.rest, env)
  }

  function Ids(tc: TypeCode): set<nat>
  {
    match tc
    case Basic(_) => {}
    case Simple(id, _, _) => {id}
    case Complex(id, _, body) => {id} + BodyIds(body)
  }

  function BodyIds(body: Body): set<nat>
  {
    match body
    case Reference(_, _) => {}
    case Record(_, _, ms) => PartsIds(ms)
    case Choice(_, _, disc, _, arms) => Ids(disc) + PartsIds(arms)
    case Enumeration(_, _, _) => {}
    case Element(elem, _) => Ids(elem)
    case Renamed(_, _, elem) => Ids(elem)
  }

  function PartsIds(ps: Parts): set<nat>
  {
    if ps.NoParts? then {} else Ids(ps.tc) + PartsIds(ps.rest)
  }

  // A node is strictly larger than every node below it.

  function Size(tc: TypeCode): (n: nat)
    ensures n > 0
  {
    if tc.Complex? then 1 + BodySize(tc.body) else 1
  }

  function BodySize(body: Body): nat
  {
    match body
    case Reference(_, _) => 0
    case Record(_, _, ms) => PartsSize(ms)
    case Choice(_, _, disc, _, arms) => Size(disc) + PartsSize(arms)
    case Enumeration(_, _, _) => 0
    case Element(elem, _) => Size(elem)
    case Renamed(_, _, elem) => Size(elem)
  }

  function PartsSize(ps: Parts): nat
  {
    if ps.NoParts? then 0 else 1 + Size(ps.tc) + PartsSize(ps.rest)
  }

  // ------------------------------------------------------------ renaming addresses

  /** The same graph at other addresses; addresses outside `f` become 0. */
  function Relabel(tc: TypeCode, f: map<nat, nat>): (r: TypeCode)
    ensures KindOf(r) == KindOf(tc)
  {
    match tc
    case Basic(_) => tc
    case Simple(id, kind, length) => Simple(if id in f then f[id] else 0, kind, length)
    case Complex(id, kind, body) => Complex(if id in f then f[id] else 0, kind, RelabelBody(body, f))
  }

  function RelabelBody(body: Body, f: map<nat, nat>): Body
  {
    match body
    case Reference(_, _) => body
    case Record(r, n, ms) => Record(r, n, RelabelParts(ms, f))
    case Choice(r, n, disc, d, arms) => Choice(r, n, Relabel(disc, f), d, RelabelParts(arms, f))
    case Enumeration(_, _, _) => body
    case Element(elem, length) => Element(Relabel(elem, f), length)
    case Renamed(r, n, elem) => Renamed(r, n, Relabel(elem, f))
  }

  function RelabelParts(ps: Parts, f: map<nat, nat>): Parts
  {
    if ps.NoParts? then ps else Part(ps.tag, ps.name, Relabel(ps.tc, f), RelabelParts(ps.rest, f))
  }

  ghost predicate Extends<K, V>(f: map<K, V>, g: map<K, V>)
  {
    forall k :: k in f ==> k in g && g[k] == f[k]
  }

  lemma RelabelGrows(tc: TypeCode, f: map<nat, nat>, g: map<nat, nat>)
    requires Ids(tc) <= f.Keys && Extends(f, g)
    ensures Relabel(tc, f) == Relabel(tc, g)
  {
    match tc
    case Basic(_) =>
    case Simple(_, _, _) =>
    case Complex(_, _, body) => RelabelBodyGrows(body, f, g);
  }

  lemma RelabelBodyGrows(body: Body, f: map<nat, nat>, g: map<nat, nat>)
    requires BodyIds(body) <= f.Keys && Extends(f, g)
    ensures RelabelBody(body, f) == RelabelBody(body, g)
  {
    match body
    case Reference(_, _) =>
    case Record(_, _, ms) => RelabelPartsGrows(ms, f, g);
    case Choice(_, _, disc, _, arms) => RelabelGrows(disc, f, g); RelabelPartsGrows(arms, f, g);
    case Enumeration(_, _, _) =>
    case Element(elem, _) => RelabelGrows(elem, f, g);
    case Renamed(_, _, elem) => RelabelGrows(elem, f, g);
  }

  lemma RelabelPartsGrows(ps: Parts, f: map<nat, nat>, g: map<nat, nat>)
    requires PartsIds(ps) <= f.Keys && Extends(f, g)
    ensures RelabelParts(ps, f) == RelabelParts(ps, g)
  {
    if ps.Part? {
      RelabelGrows(ps.tc, f, g);
      RelabelPartsGrows(ps.rest, f, g);
    }
  }

  function Erase(tc: TypeCode): TypeCode { Relabel(tc, map[]) }

  lemma {:induction tc} EraseRelabel(tc: TypeCode, f: map<nat, nat>)
    ensures Erase(Relabel(tc, f)) == Erase(tc)
  {
    match tc
    case Basic(_) =>
    case Simple(_, _, _) =>
    case Complex(_, _, body) => EraseRelabelBody(body, f);
  }

  lemma EraseRelabelBody(body: Body, f: map<nat, nat>)
    ensures RelabelBody(RelabelBody(body, f), map[]) == RelabelBody(body, map[])
  {
    match body
    case Reference(_, _) =>
    case Record(_, _, ms) => EraseRelabelParts(ms, f);
    case Choice(_, _, disc, _, arms) => EraseRelabel(disc, f); EraseRelabelParts(arms, f);
    case Enumeration(_, _, _) =>
    case Element(elem, _) => EraseRelabel(elem, f);
    case Renamed(_, _, elem) => EraseRelabel(elem, f);
  }

  lemma EraseRelabelParts(ps: Parts, f: map<nat, nat>)
    ensures RelabelParts(RelabelParts(ps, f), map[]) == RelabelParts(ps, map[])
  {
    if ps.Part? {
      EraseRelabel(ps.tc, f);
      EraseRelabelParts(ps.rest, f);
    }
  }

  // ------------------------------------------------------------ CORBA_TypeCode_equal

  function SkipAlias(tc: TypeCode): (r: TypeCode)
    ensures !(r.kind == TK_ALIAS && r.Complex? && r.body.Renamed?)
    ensures Size(r) <= Size(tc)
  {
    if tc.kind == TK_ALIAS && tc.Complex? && tc.body.Renamed? then SkipAlias(tc.body.elem) else tc
  }

  /** typecode_equiv_internal; `strict` is CORBA_TypeCode_equal, otherwise CORBA_TypeCode_equivalent. */
  predicate Equiv(a: TypeCode, b: TypeCode, strict: bool)
    decreases Size(a), 0
  {
    var x := if strict then a else SkipAlias(a);
    var y := if strict then b else SkipAlias(b);
    if x.kind != y.kind then false
    else match x
      case Basic(_) => true
      case Simple(_, _, length) => y.Simple? && length == y.length
      case Complex(_, _, body) => y.Complex? && EquivBody(body, y.body, strict)
  }

  predicate EquivBody(x: Body, y: Body, strict: bool)
    decreases BodySize(x), 1
  {
    match x
    case Reference(r, _) => y.Reference? && r == y.repoId
    case Record(r, _, ms) => y.Record? && r == y.repoId && EquivParts(ms, y.members, false, strict)
    case Choice(r, _, disc, d, arms) =>
      y.Choice? && r == y.repoId && Equiv(disc, y.disc, strict) && d == y.defaultIndex && EquivParts(arms, y.arms, true, strict)
    case Enumeration(r, _, names) => y.Enumeration? && r == y.repoId && names == y.names
    case Element(elem, length) => y.Element? && length == y.length && Equiv(elem, y.elem, strict)
    case Renamed(r, _, elem) => y.Renamed? && r == y.repoId && Equiv(elem, y.elem, strict)
  }

  predicate EquivParts(x: Parts, y: Parts, labels: bool, strict: bool)
    decreases PartsSize(x), 0
  {
    match x
    case NoParts => y.NoParts?
    case Part(tag, _, tc, rest) =>
      y.Part? && Equiv(tc, y.tc, strict) && (labels ==> tag == y.tag) && EquivParts(rest, y.rest, labels, strict)
  }

  predicate Equal(a: TypeCode, b: TypeCode) { Equiv(a, b, true) }

  /** Graphs that differ only in addresses and sharing are equal to CORBA_TypeCode_equal. */
  lemma {:induction false} SameMeaningEqual(a: TypeCode, b: TypeCode)
    requires Erase(a) == Erase(b)
    ensures Equal(a, b)
    decreases Size(a), 0
  {
    if a.Complex? {
      SameMeaningEqualBody(a.body, b.body);
    }
  }

  lemma {:induction false} SameMeaningEqualBody(x: Body, y: Body)
    requires RelabelBody(x, map[]) == RelabelBody(y, map[])
    ensures EquivBody(x, y, true)
    decreases BodySize(x), 1
  {
    match x
    case Reference(_, _) =>
    case Record(_, _, ms) => SameMeaningEqualParts(ms, y.members, false);
    case Choice(_, _, disc, _, arms) => SameMeaningEqual(disc, y.disc); SameMeaningEqualParts(arms, y.arms, true);
    case Enumeration(_, _, _) =>
    case Element(elem, _) => SameMeaningEqual(elem, y.elem);
    case Renamed(_, _, elem) => SameMeaningEqual(elem, y.elem);
  }

  lemma {:induction false} SameMeaningEqualParts(x: Parts, y: Parts, labels: bool)
    requires RelabelParts(x, map[]) == RelabelParts(y, map[])
    ensures EquivParts(x, y, labels, true)
    decreases PartsSize(x), 0
  {
    if x.Part? {
      SameMeaningEqual(x.tc, y.tc);
      SameMeaningEqualParts(x.rest, y.rest, labels);
    }
  }

  // ------------------------------------------------------------ what it compares

  /** A graph without addresses, type names and member names; enumerators keep theirs. */
  function Bare(tc: TypeCode): TypeCode
  {
    match tc
    case Basic(_) => tc
    case Simple(_, kind, length) => Simple(0, kind, length)
    case Complex(_, kind, body) => Complex(0, kind, BareBody(body))
  }

  function BareBody(body: Body): Body
  {
    match body
    case Reference(r, _) => Reference(r, [])
    case Record(r, _, ms) => Record(r, [], BareParts(ms))
    case Choice(r, _, disc, d, arms) => Choice(r, [], Bare(disc), d, BareParts(arms))
    case Enumeration(r, _, names) => Enumeration(r, [], names)
    case Element(elem, length) => Element(Bare(elem), length)
    case Renamed(r, _, elem) => Renamed(r, [], Bare(elem))
  }

  function BareParts(ps: Parts): Parts
  {
    if ps.NoParts? then ps else Part(ps.tag, [], Bare(ps.tc), BareParts(ps.rest))
  }

  /** A graph with the aliases at every level replaced by what they name. */
  function Unaliased(tc: TypeCode): (r: TypeCode)
    ensures r.kind == SkipAlias(tc).kind
  {
    if tc.Complex? then
      if tc.body.Renamed? && tc.kind == TK_ALIAS then Unaliased(tc.body.elem)
      else Complex(tc.id, tc.kind, UnaliasedBody(tc.body))
    else tc
  }

  function UnaliasedBody(body: Body): Body
  {
    match body
    case Reference(_, _) => body
    case Record(r, n, ms) => Record(r, n, UnaliasedParts(ms))
    case Choice(r, n, disc, d, arms) => Choice(r, n, Unaliased(disc), d, UnaliasedParts(arms))
    case Enumeration(_, _, _) => body
    case Element(elem, length) => Element(Unaliased(elem), length)
    case Renamed(r, n, elem) => Renamed(r, n, Unaliased(elem))
  }

  function UnaliasedParts(ps: Parts): Parts
  {
    if ps.NoParts? then ps else Part(ps.tag, ps.name, Unaliased(ps.tc), UnaliasedParts(ps.rest))
  }

  /** The part of a graph that CORBA_TypeCode_equal looks at, or CORBA_TypeCode_equivalent. */
  function Compared(tc: TypeCode, strict: bool): TypeCode
  {
    Bare(if strict then tc else Unaliased(tc))
  }

  function ComparedBody(body: Body, strict: bool): Body
  {
    BareBody(if strict then body else UnaliasedBody(body))
  }

  function ComparedParts(ps: Parts, strict: bool): Parts
  {
    BareParts(if strict then ps else UnaliasedParts(ps))
  }

  lemma SkippedShaped(tc: TypeCode)
    requires Shaped(tc)
    ensures Shaped(SkipAlias(tc)) && Unaliased(SkipAlias(tc)) == Unaliased(tc)
  {
  }

  /**
   CORBA_TypeCode_equal holds exactly for graphs that agree but for addresses,
   type names and member names; CORBA_TypeCode_equivalent, for those that do so
   without their aliases.
   */
  lemma {:induction false} EquivComparesBare(a: TypeCode, b: TypeCode, strict: bool)
    requires Shaped(a) && Shaped(b)
    ensures Equiv(a, b, strict) <==> Compared(a, strict) == Compared(b, strict)
    decreases Size(a), 0
  {
    SkippedShaped(a);
    SkippedShaped(b);
    var x := if strict then a else SkipAlias(a);
    var y := if strict then b else SkipAlias(b);
    if x.Complex? && y.Complex? && x.kind == y.kind {
      EquivComparesBodies(x.kind, x.body, y.body, strict);
    }
  }

  lemma {:induction false} EquivComparesBodies(kind: nat, x: Body, y: Body, strict: bool)
    requires ShapedBody(kind, x) && ShapedBody(kind, y)
    ensures EquivBody(x, y, strict) <==> ComparedBody(x, strict) == ComparedBody(y, strict)
    decreases BodySize(x), 1
  {
    match x
    case Reference(_, _) =>
    case Record(_, _, ms) => if y.Record? { EquivComparesParts(0, ms, y.members, false, strict); }
    case Choice(_, _, disc, _, arms) =>
      EquivComparesBare(disc, y.disc, strict);
      if KindOf(disc) == KindOf(y.disc) {
        EquivComparesParts(KindOf(disc), arms, y.arms, true, strict);
      } else {
        assert SkipAlias(disc) == disc && SkipAlias(y.disc) == y.disc;
      }
    case Enumeration(_, _, _) =>
    case Element(elem, _) => EquivComparesBare(elem, y.elem, strict);
    case Renamed(_, _, elem) => EquivComparesBare(elem, y.elem, strict);
  }

  lemma {:induction false} EquivComparesParts(kind: nat, x: Parts, y: Parts, labels: bool, strict: bool)
    requires ShapedParts(kind, x) && ShapedParts(kind, y) && labels == (LabelWidth(kind) > 0)
    ensures EquivParts(x, y, labels, strict) <==> ComparedParts(x, strict) == ComparedParts(y, strict)
    decreases PartsSize(x), 0
  {
    if x.Part? && y.Part? {
      EquivComparesBare(x.tc, y.tc, strict);
      EquivComparesParts(kind, x.rest, y.rest, labels, strict);
    }
  }
}
