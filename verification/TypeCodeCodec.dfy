/**
 The TypeCode part of the wire format and its decoder: what tc_enc leaves in
 the stream (`TcWire`), what tc_dec makes of it (`TcDec`), and that the second
 inverts the first for every acyclic graph with any sharing.
 */
module TypeCodeCodec {
  import opened Cdr
  import opened Common
  import opened TypeCodes

  // ------------------------------------------------------------ wire format

  /** A stream position together with the encoder's prior_tcs (node address to stream index). */
  datatype Spot = Spot(pos: nat, prior: map<nat, nat>)

  /** Where an encoding that starts at `s` ends, and which nodes it has registered. */
  function TcEnd(tc: TypeCode, s: Spot): (r: Spot)
    ensures s.pos + 4 <= r.pos
  {
    var a := Align(s.pos, 4);
    match tc
    case Basic(_) => Spot(a + 4, s.prior)
    case Simple(id, _, _) => Spot(a + 8, if id in s.prior then s.prior else s.prior[id := a])
    case Complex(id, _, body) =>
      if id in s.prior then Spot(a + 8, s.prior) else BodyEnd(body, Spot(a + 9, s.prior[id := a]))
  }

  function BodyEnd(body: Body, s: Spot): (r: Spot)
    ensures s.pos <= r.pos
  {
    match body
    case Reference(r, n) => Spot(StringEnd(StringEnd(s.pos, r), n), s.prior)
    case Record(r, n, ms) => PartsEnd(0, ms, HeaderEnd(r, n, s))
    case Choice(r, n, disc, _, arms) =>
      var d := TcEnd(disc, Spot(StringEnd(StringEnd(s.pos, r), n), s.prior));
      PartsEnd(KindOf(disc), arms, Spot(Align(d.pos, 4) + 8, d.prior))
    case Enumeration(r, n, names) => Spot(NamesEnd(names, HeaderEnd(r, n, s).pos), s.prior)
    case Element(elem, _) => var d := TcEnd(elem, s); Spot(Align(d.pos, 4) + 4, d.prior)
    case Renamed(r, n, elem) => TcEnd(elem, Spot(StringEnd(StringEnd(s.pos, r), n), s.prior))
  }

  /** After repository id, name and part count. */
  function HeaderEnd(r: bytes, n: bytes, s: Spot): (h: Spot)
    ensures s.pos < h.pos && h.prior == s.prior
  {
    Spot(Align(StringEnd(StringEnd(s.pos, r), n), 4) + 4, s.prior)
  }

  function LabelEnd(kind: nat, p: nat): (q: nat)
    ensures p <= q
  {
    var w := LabelWidth(kind);
    if w == 0 then p else Align(p, w) + w
  }

  function PartsEnd(kind: nat, ps: Parts, s: Spot): (r: Spot)
    ensures s.pos <= r.pos
    decreases ps
  {
    if ps.NoParts? then s
    else PartsEnd(kind, ps.rest, TcEnd(ps.tc, Spot(StringEnd(LabelEnd(kind, s.pos), ps.name), s.prior)))
  }

  function NamesEnd(names: seq<bytes>, p: nat): (q: nat)
    ensures p <= q
    decreases |names|
  {
    if names == [] then p else NamesEnd(names[1..], StringEnd(p, names[0]))
  }

  /** The offset word of an indirection: measured from behind the word, modulo 2^32. */
  function OffsetWord(target: int, after: int): (w: nat)
    ensures w < TWO32
  {
    (target - after) % TWO32
  }

  /** `data` holds what tc_enc emits for `tc` at `s`; padding is unconstrained. */
  ghost predicate TcWire(data: bytes, e: Endian, tc: TypeCode, s: Spot)
    decreases tc
  {
    var a := Align(s.pos, 4);
    match tc
    case Basic(kind) => WordAt(data, a, e, 4, kind)
    case Simple(id, kind, length) =>
      if id in s.prior then BackWire(data, e, a, s.prior[id])
      else WordAt(data, a, e, 4, kind) && WordAt(data, a + 4, e, 4, length)
    case Complex(id, kind, body) =>
      if id in s.prior then BackWire(data, e, a, s.prior[id])
      else var inside := Spot(a + 9, s.prior[id := a]);
           && WordAt(data, a, e, 4, kind)
           && WordAt(data, a + 4, e, 4, BodyEnd(body, inside).pos - (a + 8))
           && BytesAt(data, a + 8, [FlagByte(e)])
           && BodyWire(data, e, body, inside)
  }

  ghost predicate BackWire(data: bytes, e: Endian, a: nat, target: nat)
  {
    WordAt(data, a, e, 4, TK_RECURSIVE) && WordAt(data, a + 4, e, 4, OffsetWord(target, a + 8))
  }

  ghost predicate BodyWire(data: bytes, e: Endian, body: Body, s: Spot)
    decreases body
  {
    match body
    case Reference(r, n) => NamePairWire(data, e, r, n, s.pos)
    case Record(r, n, ms) =>
      HeaderWire(data, e, r, n, Count(ms), s) && PartsWire(data, e, 0, ms, HeaderEnd(r, n, s))
    case Choice(r, n, disc, default, arms) =>
      var s1 := Spot(StringEnd(StringEnd(s.pos, r), n), s.prior);
      var d := TcEnd(disc, s1);
      var q := Align(d.pos, 4);
      && NamePairWire(data, e, r, n, s.pos) && TcWire(data, e, disc, s1)
      && WordAt(data, q, e, 4, default % TWO32) && WordAt(data, q + 4, e, 4, Count(arms))
      && PartsWire(data, e, KindOf(disc), arms, Spot(q + 8, d.prior))
    case Enumeration(r, n, names) =>
      HeaderWire(data, e, r, n, |names|, s) && NamesWire(data, e, names, HeaderEnd(r, n, s).pos)
    case Element(elem, length) =>
      TcWire(data, e, elem, s) && WordAt(data, Align(TcEnd(elem, s).pos, 4), e, 4, length)
    case Renamed(r, n, elem) =>
      NamePairWire(data, e, r, n, s.pos) && TcWire(data, e, elem, Spot(StringEnd(StringEnd(s.pos, r), n), s.prior))
  }

  ghost predicate NamePairWire(data: bytes, e: Endian, r: bytes, n: bytes, p: nat)
  {
    StringWire(data, e, p, r) && StringWire(data, e, StringEnd(p, r), n)
  }

  ghost predicate HeaderWire(data: bytes, e: Endian, r: bytes, n: bytes, count: nat, s: Spot)
  {
    NamePairWire(data, e, r, n, s.pos) && WordAt(data, HeaderEnd(r, n, s).pos - 4, e, 4, count)
  }

  ghost predicate LabelWire(data: bytes, e: Endian, kind: nat, tag: int, p: nat)
  {
    var w := LabelWidth(kind);
    w > 0 ==> WordAt(data, Align(p, w), e, w, LabelBits(kind, tag))
  }

  ghost predicate PartsWire(data: bytes, e: Endian, kind: nat, ps: Parts, s: Spot)
    decreases ps
  {
    ps.Part? ==>
      var p := LabelEnd(kind, s.pos);
      var s1 := Spot(StringEnd(p, ps.name), s.prior);
      && LabelWire(data, e, kind, ps.tag, s.pos) && StringWire(data, e, p, ps.name)
      && TcWire(data, e, ps.tc, s1) && PartsWire(data, e, kind, ps.rest, TcEnd(ps.tc, s1))
  }

  ghost predicate NamesWire(data: bytes, e: Endian, names: seq<bytes>, p: nat)
    decreases |names|
  {
    names != [] ==> StringWire(data, e, p, names[0]) && NamesWire(data, e, names[1..], StringEnd(p, names[0]))
  }

  // ------------------------------------------------------------ decoder

  /** The width of pointers and of ptrdiff_t on the decoding host. */
  datatype Model = ILP32 | LP64

  /** A TCRecursionNode of the decoder. */
  datatype Known = Known(index: nat, tc: TypeCode)


  /** `Aborted` is g_error; `Malformed` a FALSE-y decode of damaged input. */
  datatype Dec<+T> = Done(value: T, rest: RecvBuf, prior: seq<Known>) | Malformed | Aborted

  /**
   The C comparison `offset == node->index - ctx->current_idx - get_rptr (c)`.
   With 32-bit pointers all of it is unsigned 32-bit. With 64-bit pointers only
   the first subtraction wraps, and the offset is sign-extended.
   */
  predicate OffsetMatches(m: Model, offset: nat, index: int, currentIdx: int, rptr: int)
  {
    match m
    case ILP32 => offset == (index - currentIdx - rptr) % TWO32
    case LP64 => Signed(offset, 0x8000_0000) == (index - currentIdx) % TWO32 - rptr
  }

  /** The search through prior_tcs, newest first. */
  function FindPrior(m: Model, prior: seq<Known>, offset: nat, currentIdx: int, rptr: int): Option<TypeCode>
  {
    if prior == [] then None
    else if OffsetMatches(m, offset, prior[0].index, currentIdx, rptr) then Some(prior[0].tc)
    else FindPrior(m, prior[1..], offset, currentIdx, rptr)
  }

  /** tc_dec. The new node's address is its stream index. */
  function TcDec(c: RecvBuf, m: Model, currentIdx: nat, prior: seq<Known>): (r: Dec<TypeCode>)
    requires c.Valid() && c.cur <= c.end && c.body <= c.cur
    ensures r.Done? ==> r.rest == c.(cur := r.rest.cur) && c.cur + 4 <= r.rest.cur <= c.end
    decreases c.end - c.cur, 0
  {
    match GetWord(c, 4)
    case Short => Malformed
    case Got(kind, c1) =>
      var index := currentIdx + (c1.cur - c1.body) - 4;
      if kind == TK_RECURSIVE then
        match GetWord(c1, 4)
        case Short => Malformed
        case Got(offset, c2) =>
          (match FindPrior(m, prior, offset, currentIdx, c2.cur - c2.body)
           case None => Aborted
           case Some(tc) => Done(tc, c2, prior))
      else if kind >= TK_LAST then Malformed
      else if IsBasic(kind) then
        Done(Basic(kind), c1, [Known(index, Basic(kind))] + prior)
      else if kind in {TK_STRING, TK_WSTRING} then
        match GetWord(c1, 4)
        case Short => Malformed
        case Got(length, c2) =>
          var tc := Simple(index, kind, length);
          Done(tc, c2, [Known(index, tc)] + prior)
      else
        match UseEncaps(c1)
        case Short => Malformed
        case Got(inner, c2) =>
          (match BodyDec(kind, inner, m, currentIdx + (c1.cur - c1.body) + 4, prior)
           case Malformed => Malformed
           case Aborted => Aborted
           case Done(body, _, prior2) =>
             var tc := Complex(index, kind, body);
             Done(tc, c2, [Known(index, tc)] + prior2))
  }

  /** The per-kind decoders tc_dec_tk_*. */
  function BodyDec(kind: nat, c: RecvBuf, m: Model, currentIdx: nat, prior: seq<Known>): (r: Dec<Body>)
    requires c.Valid() && c.cur <= c.end && c.body <= c.cur
    ensures r.Done? ==> r.rest == c.(cur := r.rest.cur) && c.cur <= r.rest.cur <= c.end
    decreases c.end - c.cur, 1
  {
    if kind in {TK_SEQUENCE, TK_ARRAY} then
      match TcDec(c, m, currentIdx, prior)
      case Malformed => Malformed
      case Aborted => Aborted
      case Done(elem, c1, prior1) =>
        match GetWord(c1, 4)
        case Short => Malformed
        case Got(length, c2) => Done(Element(elem, length), c2, prior1)
    else match GetString(c)
      case Short => Malformed
      case Got(repoId, c1) =>
        match GetString(c1)
        case Short => Malformed
        case Got(name, c2) => NamedDec(kind, repoId, name, c2, m, currentIdx, prior)
  }

  /** The decoders of the kinds that start with a repository id and a name. */
  function NamedDec(kind: nat, repoId: bytes, name: bytes, c: RecvBuf, m: Model, currentIdx: nat, prior: seq<Known>)
    : (r: Dec<Body>)
    requires c.Valid() && c.cur <= c.end && c.body <= c.cur
    ensures r.Done? ==> r.rest == c.(cur := r.rest.cur) && c.cur <= r.rest.cur <= c.end
    decreases c.end - c.cur, 1
  {
    if kind == TK_OBJREF then Done(Reference(repoId, name), c, prior)
    else if kind == TK_ALIAS then
      match TcDec(c, m, currentIdx, prior)
      case Malformed => Malformed
      case Aborted => Aborted
      case Done(elem, c1, prior1) => Done(Renamed(repoId, name, elem), c1, prior1)
    else if kind == TK_UNION then
      match TcDec(c, m, currentIdx, prior)
      case Malformed => Malformed
      case Aborted => Aborted
      case Done(disc, c1, prior1) => ArmsDec(repoId, name, disc, c1, m, currentIdx, prior1)
    else match GetWord(c, 4)
      case Short => Malformed
      case Got(count, c1) =>
        if kind == TK_ENUM then
          match NamesDec(count, c1)
          case Short => Malformed
          case Got(names, c2) => Done(Enumeration(repoId, name, names), c2, prior)
        else if kind in {TK_STRUCT, TK_EXCEPT} then
          match PartsDec(0, count, c1, m, currentIdx, prior)
          case Malformed => Malformed
          case Aborted => Aborted
          case Done(ms, c2, prior2) => Done(Record(repoId, name, ms), c2, prior2)
        else Malformed
  }

  /** tc_dec_tk_union behind the discriminator; an illegal discriminator is a g_error. */
  function ArmsDec(repoId: bytes, name: bytes, disc: TypeCode, c: RecvBuf, m: Model, currentIdx: nat, prior: seq<Known>)
    : (r: Dec<Body>)
    requires c.Valid() && c.cur <= c.end && c.body <= c.cur
    ensures r.Done? ==> r.rest == c.(cur := r.rest.cur) && c.cur <= r.rest.cur <= c.end
    decreases c.end - c.cur, 3
  {
    match GetWord(c, 4)
    case Short => Malformed
    case Got(default, c1) =>
      match GetWord(c1, 4)
      case Short => Malformed
      case Got(count, c2) =>
        if LabelWidth(KindOf(disc)) == 0 then Aborted
        else match PartsDec(KindOf(disc), count, c2, m, currentIdx, prior)
          case Malformed => Malformed
          case Aborted => Aborted
          case Done(arms, c3, prior3) =>
            Done(Choice(repoId, name, disc, Signed(default, 0x8000_0000), arms), c3, prior3)
  }

  function LabelDec(kind: nat, c: RecvBuf): (r: Read<int>)
    requires c.Valid() && c.cur <= c.end
    ensures r.Got? ==> r.rest == c.(cur := r.rest.cur) && c.cur <= r.rest.cur <= c.end
  {
    var w := LabelWidth(kind);
    if w == 0 then Got(0, c)
    else match GetWord(c, w)
      case Short => Short
      case Got(bits, c1) => Got(LabelOf(kind, bits), c1)
  }

  /** The member loops; `kind` is the discriminator's kind, or 0 for members without labels. */
  function PartsDec(kind: nat, count: nat, c: RecvBuf, m: Model, currentIdx: nat, prior: seq<Known>): (r: Dec<Parts>)
    requires c.Valid() && c.cur <= c.end && c.body <= c.cur
    ensures r.Done? ==> r.rest == c.(cur := r.rest.cur) && c.cur <= r.rest.cur <= c.end
    decreases c.end - c.cur, 2
  {
    if count == 0 then Done(NoParts, c, prior)
    else match LabelDec(kind, c)
      case Short => Malformed
      case Got(tag, c1) =>
        match GetString(c1)
        case Short => Malformed
        case Got(name, c2) =>
          match TcDec(c2, m, currentIdx, prior)
          case Malformed => Malformed
          case Aborted => Aborted
          case Done(tc, c3, prior3) =>
            match PartsDec(kind, count - 1, c3, m, currentIdx, prior3)
            case Malformed => Malformed
            case Aborted => Aborted
            case Done(rest, c4, prior4) => Done(Part(tag, name, tc, rest), c4, prior4)
  }

  function NamesDec(count: nat, c: RecvBuf): (r: Read<seq<bytes>>)
    requires c.Valid() && c.cur <= c.end
    ensures r.Got? ==> r.rest == c.(cur := r.rest.cur) && c.cur <= r.rest.cur <= c.end
    decreases count
  {
    if count == 0 then Got([], c)
    else match GetString(c)
      case Short => Short
      case Got(name, c1) =>
        match NamesDec(count - 1, c1)
        case Short => Short
        case Got(rest, c2) => Got([name] + rest, c2)
  }

  /** ORBit_decode_CORBA_TypeCode: a fresh context. */
  function Decode(c: RecvBuf, m: Model): (r: Dec<TypeCode>)
    requires c.Valid() && c.cur <= c.end && c.body <= c.cur
    ensures r.Done? ==> r.rest == c.(cur := r.rest.cur) && c.cur + 4 <= r.rest.cur <= c.end
  {
    TcDec(c, m, 0, [])
  }
}
