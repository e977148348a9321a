/**
 Interoperable object references: the profile and component wire format,
 the demarshaller, and the merging of the object keys afterwards.
 */
module Ior {
  import opened Cdr
  import opened Common

  const TAG_INTERNET_IOP: nat := 0
  const TAG_MULTIPLE_COMPONENTS: nat := 1
  const TAG_ORBIT_SPECIFIC: nat := 0xBADF_AECA
  const TAG_GENERIC_IOP: nat := 0x4f42_5400

  const TAG_CODE_SETS: nat := 1
  const TAG_COMPLETE_OBJECT_KEY: nat := 5
  const TAG_SSL_SEC_TRANS: nat := 20
  const TAG_GENERIC_SSL_SEC_TRANS: nat := 0x4f42_5400


  /** A key is NULL in a live reference and present right after demarshalling. */
  datatype Component =
    | GenericSsl(service: bytes)
    | SslSec(supports: nat, demands: nat, port: nat)
    | CompleteKey(key: Option<bytes>)
    | CodeSets(charSet: nat, charConv: seq<nat>, wcharSet: nat, wcharConv: seq<nat>)
    | OtherComponent(tag: nat, content: bytes)

  datatype Profile =
    | Iiop(version: nat, host: bytes, port: nat, key: Option<bytes>, comps: seq<Component>)
    | OrbitSpecific(path: bytes, ipv6Port: nat, key: Option<bytes>)
    | GenericIop(version: nat, proto: bytes, host: bytes, service: bytes, comps: seq<Component>)
    | MultiComponent(comps: seq<Component>)
    | OtherProfile(tag: nat, content: bytes)

  datatype Reference = NilRef | Ref(typeId: bytes, profiles: seq<Profile>)

  function ComponentTag(x: Component): nat
  {
    match x
    case GenericSsl(_) => TAG_GENERIC_SSL_SEC_TRANS
    case SslSec(_, _, _) => TAG_SSL_SEC_TRANS
    case CompleteKey(_) => TAG_COMPLETE_OBJECT_KEY
    case CodeSets(_, _, _, _) => TAG_CODE_SETS
    case OtherComponent(tag, _) => tag
  }

  function ProfileTag(x: Profile): nat
  {
    match x
    case Iiop(_, _, _, _, _) => TAG_INTERNET_IOP
    case OrbitSpecific(_, _, _) => TAG_ORBIT_SPECIFIC
    case GenericIop(_, _, _, _, _) => TAG_GENERIC_IOP
    case MultiComponent(_) => TAG_MULTIPLE_COMPONENTS
    case OtherProfile(tag, _) => tag
  }

  ghost predicate AllBelow(ws: seq<nat>, limit: nat)
  {
    forall i :: 0 <= i < |ws| ==> ws[i] < limit
  }

  ghost predicate GoodComponent(x: Component)
  {
    match x
    case GenericSsl(service) => CString(service)
    case SslSec(s, d, p) => s < TWO32 && d < TWO32 && p < 0x1_0000
    case CompleteKey(_) => true
    case CodeSets(a, ac, b, bc) => a < TWO32 && AllBelow(ac, TWO32) && b < TWO32 && AllBelow(bc, TWO32)
    case OtherComponent(tag, _) =>
      tag < TWO32 && tag !in {TAG_CODE_SETS, TAG_COMPLETE_OBJECT_KEY, TAG_SSL_SEC_TRANS, TAG_GENERIC_SSL_SEC_TRANS}
  }

  ghost predicate GoodComponents(xs: seq<Component>)
  {
    forall i :: 0 <= i < |xs| ==> GoodComponent(xs[i])
  }

  ghost predicate GoodProfile(x: Profile)
  {
    match x
    case Iiop(v, host, port, _, comps) => v <= 2 && CString(host) && port < 0x1_0000 && GoodComponents(comps)
    case OrbitSpecific(path, port, _) => CString(path) && port < 0x1_0000
    case GenericIop(v, proto, host, service, comps) =>
      v <= 2 && CString(proto) && CString(host) && CString(service) && GoodComponents(comps)
    case MultiComponent(comps) => GoodComponents(comps)
    case OtherProfile(tag, _) =>
      tag < TWO32 && tag !in {TAG_INTERNET_IOP, TAG_MULTIPLE_COMPONENTS, TAG_ORBIT_SPECIFIC, TAG_GENERIC_IOP}
  }

  // ------------------------------------------------------------ wire format

  function KeyEnd(key: bytes, p: nat): (q: nat)
    ensures p + 4 + |key| <= q
  {
    Align(p, 4) + 4 + |key|
  }

  ghost predicate KeyWire(data: bytes, e: Endian, key: bytes, p: nat)
  {
    WordAt(data, Align(p, 4), e, 4, |key|) && BytesAt(data, Align(p, 4) + 4, key)
  }

  function CodeSetEnd(conv: seq<nat>, p: nat): (q: nat)
    ensures p + 8 + 4 * |conv| <= q
  {
    Align(p, 4) + 8 + 4 * |conv|
  }

  ghost predicate WordsAt(data: bytes, p: nat, e: Endian, ws: seq<nat>)
    decreases |ws|
  {
    ws != [] ==> WordAt(data, p, e, 4, ws[0]) && WordsAt(data, p + 4, e, ws[1..])
  }

  ghost predicate CodeSetWire(data: bytes, e: Endian, native: nat, conv: seq<nat>, p: nat)
  {
    var a := Align(p, 4);
    WordAt(data, a, e, 4, native) && WordAt(data, a + 4, e, 4, |conv|) && WordsAt(data, a + 8, e, conv)
  }

  /** Whether the component is an encapsulation with a back-patched length. */
  predicate Marked(x: Component) { x.GenericSsl? || x.SslSec? || x.CodeSets? }

  /** The contents of a component start at `p`, behind the byte-order octet if there is one. */
  function ContentEnd(x: Component, key: bytes, p: nat): (q: nat)
    ensures p <= q
  {
    match x
    case GenericSsl(service) => StringEnd(p, service)
    case SslSec(_, _, _) => Align(p, 4) + 10
    case CompleteKey(_) => KeyEnd(key, p)
    case CodeSets(_, ac, _, bc) => CodeSetEnd(bc, CodeSetEnd(ac, p))
    case OtherComponent(_, content) => p + 4 + |content|
  }

  ghost predicate ContentWire(data: bytes, e: Endian, x: Component, key: bytes, p: nat)
  {
    match x
    case GenericSsl(service) => StringWire(data, e, p, service)
    case SslSec(s, d, port) =>
      var a := Align(p, 4);
      WordAt(data, a, e, 4, s) && WordAt(data, a + 4, e, 4, d) && WordAt(data, a + 8, e, 2, port)
    case CompleteKey(_) => KeyWire(data, e, key, p)
    case CodeSets(a, ac, b, bc) => CodeSetWire(data, e, a, ac, p) && CodeSetWire(data, e, b, bc, CodeSetEnd(ac, p))
    case OtherComponent(_, content) => WordAt(data, p, e, 4, |content|) && BytesAt(data, p + 4, content)
  }

  /** Where the contents start: behind the tag, and behind length and octet of an encapsulation. */
  function ContentStart(x: Component, p: nat): (q: nat)
    ensures p + 4 <= q
  {
    Align(p, 4) + if Marked(x) then 9 else 4
  }

  function ComponentEnd(x: Component, key: bytes, p: nat): (q: nat)
    ensures p + 4 <= q
  {
    ContentEnd(x, key, ContentStart(x, p))
  }

  ghost predicate ComponentWire(data: bytes, e: Endian, x: Component, key: bytes, p: nat)
  {
    var a := Align(p, 4);
    && WordAt(data, a, e, 4, ComponentTag(x))
    && (Marked(x) ==> WordAt(data, a + 4, e, 4, ComponentEnd(x, key, p) - (a + 8)) && BytesAt(data, a + 8, [FlagByte(e)]))
    && ContentWire(data, e, x, key, ContentStart(x, p))
  }

  function ListEnd(xs: seq<Component>, key: bytes, p: nat): (q: nat)
    ensures p + 4 * |xs| <= q
  {
    if xs == [] then p else ListEnd(xs[1..], key, ComponentEnd(xs[0], key, p))
  }

  ghost predicate ListWire(data: bytes, e: Endian, xs: seq<Component>, key: bytes, p: nat)
    decreases |xs|
  {
    xs != [] ==> ComponentWire(data, e, xs[0], key, p) && ListWire(data, e, xs[1..], key, ComponentEnd(xs[0], key, p))
  }

  /** IOP_components_marshal: count, then the components. */
  function CompsEnd(xs: seq<Component>, key: bytes, p: nat): (q: nat)
    ensures p + 4 <= q
  {
    ListEnd(xs, key, Align(p, 4) + 4)
  }

  ghost predicate CompsWire(data: bytes, e: Endian, xs: seq<Component>, key: bytes, p: nat)
  {
    WordAt(data, Align(p, 4), e, 4, |xs|) && ListWire(data, e, xs, key, Align(p, 4) + 4)
  }

  /** The contents of a profile start at `p`, behind the byte-order octet of a known profile. */
  function BodyEnd(x: Profile, key: bytes, p: nat): (q: nat)
    ensures p <= q
  {
    match x
    case Iiop(_, host, _, _, comps) => CompsEnd(comps, key, KeyEnd(key, Align(StringEnd(p + 2, host), 2) + 2))
    case OrbitSpecific(path, _, _) => KeyEnd(key, Align(StringEnd(p + 2, path), 2) + 2)
    case GenericIop(_, proto, host, service, comps) =>
      CompsEnd(comps, key, StringEnd(StringEnd(StringEnd(p + 2, proto), host), service))
    case MultiComponent(comps) => CompsEnd(comps, key, p)
    case OtherProfile(_, content) => p + |content|
  }

  ghost predicate BodyWire(data: bytes, e: Endian, x: Profile, key: bytes, p: nat)
  {
    match x
    case Iiop(v, host, port, _, comps) =>
      var s := StringEnd(p + 2, host);
      var k := Align(s, 2) + 2;
      && v < 256 && BytesAt(data, p, [1, v]) && StringWire(data, e, p + 2, host) && WordAt(data, k - 2, e, 2, port)
      && KeyWire(data, e, key, k) && CompsWire(data, e, comps, key, KeyEnd(key, k))
    case OrbitSpecific(path, port, _) =>
      var s := StringEnd(p + 2, path);
      var k := Align(s, 2) + 2;
      && BytesAt(data, p, [1, 2]) && StringWire(data, e, p + 2, path) && WordAt(data, k - 2, e, 2, port)
      && KeyWire(data, e, key, k)
    case GenericIop(v, proto, host, service, comps) =>
      var s1 := StringEnd(p + 2, proto);
      var s2 := StringEnd(s1, host);
      && v < 256 && BytesAt(data, p, [1, v]) && StringWire(data, e, p + 2, proto) && StringWire(data, e, s1, host)
      && StringWire(data, e, s2, service) && CompsWire(data, e, comps, key, StringEnd(s2, service))
    case MultiComponent(comps) => CompsWire(data, e, comps, key, p)
    case OtherProfile(_, content) => BytesAt(data, p, content)
  }

  function BodyStart(x: Profile, p: nat): (q: nat)
    ensures p + 8 <= q
  {
    Align(p, 4) + if x.OtherProfile? then 8 else 9
  }

  function ProfileEnd(x: Profile, key: bytes, p: nat): (q: nat)
    ensures p + 8 <= q
  {
    BodyEnd(x, key, BodyStart(x, p))
  }

  ghost predicate ProfileWire(data: bytes, e: Endian, x: Profile, key: bytes, p: nat)
  {
    var a := Align(p, 4);
    && WordAt(data, a, e, 4, ProfileTag(x)) && WordAt(data, a + 4, e, 4, ProfileEnd(x, key, p) - (a + 8))
    && (!x.OtherProfile? ==> BytesAt(data, a + 8, [FlagByte(e)]))
    && BodyWire(data, e, x, key, BodyStart(x, p))
  }

  function ProfilesEnd(xs: seq<Profile>, key: bytes, p: nat): (q: nat)
    ensures p + 8 * |xs| <= q
  {
    if xs == [] then p else ProfilesEnd(xs[1..], key, ProfileEnd(xs[0], key, p))
  }

  ghost predicate ProfilesWire(data: bytes, e: Endian, xs: seq<Profile>, key: bytes, p: nat)
    decreases |xs|
  {
    xs != [] ==> ProfileWire(data, e, xs[0], key, p) && ProfilesWire(data, e, xs[1..], key, ProfileEnd(xs[0], key, p))
  }

  /** ORBit_marshal_object: type id, profile count, profiles; the nil reference has an empty id and no profile. */
  function RefEnd(x: Reference, key: bytes, p: nat): (q: nat)
    ensures p <= q
  {
    if x.NilRef? then Align(StringEnd(p, []), 4) + 4
    else ProfilesEnd(x.profiles, key, Align(StringEnd(p, x.typeId), 4) + 4)
  }

  ghost predicate RefWire(data: bytes, e: Endian, x: Reference, key: bytes, p: nat)
  {
    if x.NilRef? then StringWire(data, e, p, []) && WordAt(data, Align(StringEnd(p, []), 4), e, 4, 0)
    else var a := Align(StringEnd(p, x.typeId), 4);
         && StringWire(data, e, p, x.typeId) && WordAt(data, a, e, 4, |x.profiles|)
         && ProfilesWire(data, e, x.profiles, key, a + 4)
  }

  // ------------------------------------------------------------ demarshalling

  function KeyDec(c: RecvBuf): (r: Read<bytes>)
    requires c.Valid()
    ensures r.Got? ==> r.rest == c.(cur := r.rest.cur) && c.cur <= r.rest.cur <= c.end
  {
    match GetWord(c, 4)
    case Short => Short
    case Got(len, c1) => GetBytes(c1, len)
  }

  function WordsDec(n: nat, c: RecvBuf): (r: Read<seq<nat>>)
    requires c.Valid()
    ensures r.Got? ==> r.rest == c.(cur := r.rest.cur) && c.cur <= r.rest.cur && |r.value| == n
    ensures r.Got? && n > 0 ==> r.rest.cur <= c.end
  {
    if n == 0 then Got([], c)
    else match GetWord(c, 4)
      case Short => Short
      case Got(w, c1) =>
        match WordsDec(n - 1, c1)
        case Short => Short
        case Got(ws, c2) => Got([w] + ws, c2)
  }

  function CodeSetDec(c: RecvBuf): (r: Read<(nat, seq<nat>)>)
    requires c.Valid()
    ensures r.Got? ==> r.rest == c.(cur := r.rest.cur) && c.cur <= r.rest.cur <= c.end
  {
    match GetWord(c, 4)
    case Short => Short
    case Got(native, c1) =>
      match GetWord(c1, 4)
      case Short => Short
      case Got(n, c2) =>
        match WordsDec(n, c2)
        case Short => Short
        case Got(ws, c3) => Got((native, ws), c3)
  }

  /** The SSL decoders convert with the outer buffer's flags, the code-set decoder with the encapsulation's. */
  function MarkedDec(tag: nat, sub: RecvBuf, outer: Endian): (r: Read<Component>)
    requires sub.Valid()
  {
    var s := sub.(flag := outer);
    if tag == TAG_GENERIC_SSL_SEC_TRANS then
      match GetString(s)
      case Short => Short
      case Got(service, s1) => Got(GenericSsl(service), s1)
    else if tag == TAG_SSL_SEC_TRANS then
      match GetWord(s, 4)
      case Short => Short
      case Got(supports, s1) =>
        match GetWord(s1, 4)
        case Short => Short
        case Got(demands, s2) =>
          (match GetWord(s2, 2)
           case Short => Short
           case Got(port, s3) => Got(SslSec(supports, demands, port), s3))
    else
      match CodeSetDec(sub)
      case Short => Short
      case Got(a, s1) =>
        match CodeSetDec(s1)
        case Short => Short
        case Got(b, s2) => Got(CodeSets(a.0, a.1, b.0, b.1), s2)
  }

  function ComponentDec(c: RecvBuf): (r: Read<Component>)
    requires c.Valid()
    ensures r.Got? ==> r.rest == c.(cur := r.rest.cur) && c.cur <= r.rest.cur <= c.end
  {
    match GetWord(c, 4)
    case Short => Short
    case Got(tag, c1) =>
      if tag in {TAG_GENERIC_SSL_SEC_TRANS, TAG_SSL_SEC_TRANS, TAG_CODE_SETS} then
        match UseEncaps(c1)
        case Short => Short
        case Got(sub, c2) =>
          (match MarkedDec(tag, sub, c1.flag)
           case Short => Short
           case Got(x, _) => Got(x, c2))
      else
        match KeyDec(c1)
        case Short => Short
        case Got(b, c2) => Got(if tag == TAG_COMPLETE_OBJECT_KEY then CompleteKey(Some(b)) else OtherComponent(tag, b), c2)
  }

  function ListDec(n: nat, c: RecvBuf): (r: Read<seq<Component>>)
    requires c.Valid()
    ensures r.Got? ==> r.rest == c.(cur := r.rest.cur) && c.cur <= r.rest.cur
    ensures r.Got? && c.cur <= c.end ==> r.rest.cur <= c.end
  {
    if n == 0 then Got([], c)
    else match ComponentDec(c)
      case Short => Short
      case Got(x, c1) =>
        match ListDec(n - 1, c1)
        case Short => Short
        case Got(xs, c2) => Got([x] + xs, c2)
  }

  /** IOP_components_demarshal. */
  function CompsDec(c: RecvBuf): (r: Read<seq<Component>>)
    requires c.Valid()
    ensures r.Got? ==> r.rest == c.(cur := r.rest.cur) && c.cur <= r.rest.cur <= c.end
  {
    match GetWord(c, 4)
    case Short => Short
    case Got(n, c1) => ListDec(n, c1)
  }

  /** The two version octets of an IIOP or generic profile: 1.0 to 1.2. */
  function VersionDec(c: RecvBuf): (r: Read<nat>)
    requires c.Valid()
    ensures r.Got? ==> r.rest == c.(cur := c.cur + 2) && r.rest.cur <= c.end && r.value <= 2
  {
    match GetBytes(c, 2)
    case Short => Short
    case Got(v, c1) => if v[0] == 1 && v[1] <= 2 then Got(v[1], c1) else Short
  }

  /** String, 16-bit port and object key: the tail shared by IIOP and ORBit-specific profiles. */
  function EndpointDec(c: RecvBuf): (r: Read<(bytes, nat, bytes)>)
    requires c.Valid()
    ensures r.Got? ==> r.rest == c.(cur := r.rest.cur) && c.cur <= r.rest.cur <= c.end
  {
    match GetString(c)
    case Short => Short
    case Got(host, c1) =>
      match GetWord(c1, 2)
      case Short => Short
      case Got(port, c2) =>
        match KeyDec(c2)
        case Short => Short
        case Got(key, c3) => Got((host, port, key), c3)
  }

  function BodyDec(tag: nat, c: RecvBuf): (r: Read<Profile>)
    requires c.Valid()
  {
    if tag == TAG_MULTIPLE_COMPONENTS then
      match CompsDec(c)
      case Short => Short
      case Got(comps, c1) => Got(MultiComponent(comps), c1)
    else if tag == TAG_ORBIT_SPECIFIC then
      match GetBytes(c, 2)
      case Short => Short
      case Got(_, c1) =>
        match EndpointDec(c1)
        case Short => Short
        case Got(e, c2) => Got(OrbitSpecific(e.0, e.1, Some(e.2)), c2)
    else match VersionDec(c)
      case Short => Short
      case Got(v, c1) => if tag == TAG_INTERNET_IOP then IiopDec(v, c1) else GenericDec(v, c1)
  }

  /** Components of an IIOP profile are read for versions above 1.0 only. */
  function IiopDec(v: nat, c: RecvBuf): (r: Read<Profile>)
    requires c.Valid()
  {
    match EndpointDec(c)
    case Short => Short
    case Got(e, c1) =>
      if v == 0 then Got(Iiop(v, e.0, e.1, Some(e.2), []), c1)
      else match CompsDec(c1)
        case Short => Short
        case Got(comps, c2) => Got(Iiop(v, e.0, e.1, Some(e.2), comps), c2)
  }

  function GenericDec(v: nat, c: RecvBuf): (r: Read<Profile>)
    requires c.Valid()
  {
    match GetString(c)
    case Short => Short
    case Got(proto, c1) =>
      match GetString(c1)
      case Short => Short
      case Got(host, c2) =>
        match GetString(c2)
        case Short => Short
        case Got(service, c3) =>
          match CompsDec(c3)
          case Short => Short
          case Got(comps, c4) => Got(GenericIop(v, proto, host, service, comps), c4)
  }

  /** IOP_profile_demarshal. */
  function ProfileDec(c: RecvBuf): (r: Read<Profile>)
    requires c.Valid()
    ensures r.Got? ==> r.rest == c.(cur := r.rest.cur) && c.cur <= r.rest.cur <= c.end
  {
    match GetWord(c, 4)
    case Short => Short
    case Got(tag, c1) =>
      if tag in {TAG_INTERNET_IOP, TAG_MULTIPLE_COMPONENTS, TAG_ORBIT_SPECIFIC, TAG_GENERIC_IOP} then
        match UseEncaps(c1)
        case Short => Short
        case Got(sub, c2) =>
          (match BodyDec(tag, sub)
           case Short => Short
           case Got(x, _) => Got(x, c2))
      else
        match KeyDec(c1)
        case Short => Short
        case Got(b, c2) => Got(OtherProfile(tag, b), c2)
  }

  function ProfilesDec(n: nat, c: RecvBuf): (r: Read<seq<Profile>>)
    requires c.Valid()
    ensures r.Got? ==> r.rest == c.(cur := r.rest.cur) && c.cur <= r.rest.cur
  {
    if n == 0 then Got([], c)
    else match ProfileDec(c)
      case Short => Short
      case Got(x, c1) =>
        match ProfilesDec(n - 1, c1)
        case Short => Short
        case Got(xs, c2) => Got([x] + xs, c2)
  }

  /** ORBit_demarshal_IOR. */
  function RefDec(c: RecvBuf): (r: Read<Reference>)
    requires c.Valid()
  {
    match GetString(c)
    case Short => Short
    case Got(typeId, c1) =>
      match GetWord(c1, 4)
      case Short => Short
      case Got(n, c2) =>
        if typeId == [] && n == 0 then Got(NilRef, c2)
        else match ProfilesDec(n, c2)
          case Short => Short
          case Got(ps, c3) => Got(Ref(typeId, ps), c3)
  }
}
