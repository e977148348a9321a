/**
 The reference marshallers as they run, with a back-patched length in front of
 every profile and of every encapsulated component.
 */
module IorEncoder {
  import opened Cdr
  import opened Common
  import opened OutStreams
  import opened Ior
  import opened IorRoundTrip

  // ------------------------------------------------------------ the wire format only looks at its own range

  lemma KeyFrame(data: bytes, data2: bytes, e: Endian, key: bytes, p: nat)
    requires KeyWire(data, e, key, p) && SameOn(data, data2, p, KeyEnd(key, p))
    ensures KeyWire(data2, e, key, p)
  {
    WordFrame(data, data2, Align(p, 4), e, 4, |key|);
    BytesFrame(data, data2, Align(p, 4) + 4, key);
  }

  lemma {:induction false} WordsFrame(data: bytes, data2: bytes, e: Endian, ws: seq<nat>, p: nat)
    requires WordsAt(data, p, e, ws) && SameOn(data, data2, p, p + 4 * |ws|)
    ensures WordsAt(data2, p, e, ws)
    decreases |ws|
  {
    if ws != [] {
      WordFrame(data, data2, p, e, 4, ws[0]);
      WordsFrame(data, data2, e, ws[1..], p + 4);
    }
  }

  lemma CodeSetFrame(data: bytes, data2: bytes, e: Endian, native: nat, conv: seq<nat>, p: nat)
    requires CodeSetWire(data, e, native, conv, p) && SameOn(data, data2, p, CodeSetEnd(conv, p))
    ensures CodeSetWire(data2, e, native, conv, p)
  {
    var a := Align(p, 4);
    WordFrame(data, data2, a, e, 4, native);
    WordFrame(data, data2, a + 4, e, 4, |conv|);
    WordsFrame(data, data2, e, conv, a + 8);
  }

  lemma ContentFrame(data: bytes, data2: bytes, e: Endian, x: Component, key: bytes, p: nat)
    requires ContentWire(data, e, x, key, p) && SameOn(data, data2, p, ContentEnd(x, key, p))
    ensures ContentWire(data2, e, x, key, p)
  {
    hide WordAt, BytesAt, StringWire, KeyWire, CodeSetWire, CodeSetEnd;
    match x
    case GenericSsl(service) => StringFrame(data, data2, e, p, service);
    case SslSec(s, d, port) =>
      var a := Align(p, 4);
      WordFrame(data, data2, a, e, 4, s);
      WordFrame(data, data2, a + 4, e, 4, d);
      WordFrame(data, data2, a + 8, e, 2, port);
    case CompleteKey(_) => KeyFrame(data, data2, e, key, p);
    case CodeSets(a, ac, b, bc) =>
      CodeSetFrame(data, data2, e, a, ac, p);
      CodeSetFrame(data, data2, e, b, bc, CodeSetEnd(ac, p));
    case OtherComponent(_, content) =>
      WordFrame(data, data2, p, e, 4, |content|);
      BytesFrame(data, data2, p + 4, content);
  }

  lemma ComponentFrame(data: bytes, data2: bytes, e: Endian, x: Component, key: bytes, p: nat)
    requires ComponentWire(data, e, x, key, p) && SameOn(data, data2, p, ComponentEnd(x, key, p))
    ensures ComponentWire(data2, e, x, key, p)
  {
    hide WordAt, BytesAt, ContentWire, ContentEnd;
    var a := Align(p, 4);
    WordFrame(data, data2, a, e, 4, ComponentTag(x));
    if Marked(x) {
      WordFrame(data, data2, a + 4, e, 4, ComponentEnd(x, key, p) - (a + 8));
      BytesFrame(data, data2, a + 8, [FlagByte(e)]);
    }
    ContentFrame(data, data2, e, x, key, ContentStart(x, p));
  }

  lemma {:induction false} ListFrame(data: bytes, data2: bytes, e: Endian, xs: seq<Component>, key: bytes, p: nat)
    requires ListWire(data, e, xs, key, p) && SameOn(data, data2, p, ListEnd(xs, key, p))
    ensures ListWire(data2, e, xs, key, p)
    decreases |xs|
  {
    hide ComponentWire, ComponentEnd;
    if xs != [] {
      var q := ComponentEnd(xs[0], key, p);
      assert q <= ListEnd(xs[1..], key, q);
      ComponentFrame(data, data2, e, xs[0], key, p);
      ListFrame(data, data2, e, xs[1..], key, q);
    }
  }

  lemma CompsFrame(data: bytes, data2: bytes, e: Endian, xs: seq<Component>, key: bytes, p: nat)
    requires CompsWire(data, e, xs, key, p) && SameOn(data, data2, p, CompsEnd(xs, key, p))
    ensures CompsWire(data2, e, xs, key, p)
  {
    hide WordAt, ListWire, ListEnd;
    var a := Align(p, 4) + 4;
    assert a <= ListEnd(xs, key, a);
    WordFrame(data, data2, a - 4, e, 4, |xs|);
    ListFrame(data, data2, e, xs, key, a);
  }

  lemma BodyFrame(data: bytes, data2: bytes, e: Endian, x: Profile, key: bytes, p: nat)
    requires BodyWire(data, e, x, key, p) && SameOn(data, data2, p, BodyEnd(x, key, p))
    ensures BodyWire(data2, e, x, key, p)
  {
    hide WordAt, BytesAt, StringWire, StringEnd, KeyWire, KeyEnd, CompsWire, CompsEnd, Align;
    match x
    case Iiop(v, host, port, _, comps) =>
      var k := Align(StringEnd(p + 2, host), 2) + 2;
      BytesFrame(data, data2, p, [1, v]);
      StringFrame(data, data2, e, p + 2, host);
      WordFrame(data, data2, k - 2, e, 2, port);
      KeyFrame(data, data2, e, key, k);
      CompsFrame(data, data2, e, comps, key, KeyEnd(key, k));
    case OrbitSpecific(path, port, _) =>
      var k := Align(StringEnd(p + 2, path), 2) + 2;
      BytesFrame(data, data2, p, [1, 2]);
      StringFrame(data, data2, e, p + 2, path);
      WordFrame(data, data2, k - 2, e, 2, port);
      KeyFrame(data, data2, e, key, k);
    case GenericIop(v, proto, host, service, comps) =>
      var s1 := StringEnd(p + 2, proto);
      var s2 := StringEnd(s1, host);
      BytesFrame(data, data2, p, [1, v]);
      StringFrame(data, data2, e, p + 2, proto);
      StringFrame(data, data2, e, s1, host);
      StringFrame(data, data2, e, s2, service);
      CompsFrame(data, data2, e, comps, key, StringEnd(s2, service));
    case MultiComponent(comps) => CompsFrame(data, data2, e, comps, key, p);
    case OtherProfile(_, content) => BytesFrame(data, data2, p, content);
  }

  lemma ProfileFrame(data: bytes, data2: bytes, e: Endian, x: Profile, key: bytes, p: nat)
    requires ProfileWire(data, e, x, key, p) && SameOn(data, data2, p, ProfileEnd(x, key, p))
    ensures ProfileWire(data2, e, x, key, p)
  {
    hide WordAt, BytesAt, BodyWire, BodyEnd, Align;
    var a := Align(p, 4);
    WordFrame(data, data2, a, e, 4, ProfileTag(x));
    WordFrame(data, data2, a + 4, e, 4, ProfileEnd(x, key, p) - (a + 8));
    if !x.OtherProfile? {
      BytesFrame(data, data2, a + 8, [FlagByte(e)]);
    }
    BodyFrame(data, data2, e, x, key, BodyStart(x, p));
  }

  lemma {:induction false} ProfilesFrame(data: bytes, data2: bytes, e: Endian, xs: seq<Profile>, key: bytes, p: nat)
    requires ProfilesWire(data, e, xs, key, p) && SameOn(data, data2, p, ProfilesEnd(xs, key, p))
    ensures ProfilesWire(data2, e, xs, key, p)
    decreases |xs|
  {
    hide ProfileWire, ProfileEnd;
    if xs != [] {
      var q := ProfileEnd(xs[0], key, p);
      assert q <= ProfilesEnd(xs[1..], key, q);
      ProfileFrame(data, data2, e, xs[0], key, p);
      ProfilesFrame(data, data2, e, xs[1..], key, q);
    }
  }

  lemma RefFrame(data: bytes, data2: bytes, e: Endian, x: Reference, key: bytes, p: nat)
    requires RefWire(data, e, x, key, p) && SameOn(data, data2, p, RefEnd(x, key, p))
    ensures RefWire(data2, e, x, key, p)
  {
    hide StringWire, StringEnd, WordAt, ProfilesWire, ProfilesEnd, Align;
    var typeId := if x.NilRef? then [] else x.typeId;
    var a := Align(StringEnd(p, typeId), 4);
    if x.Ref? {
      assert a + 4 <= ProfilesEnd(x.profiles, key, a + 4);
      ProfilesFrame(data, data2, e, x.profiles, key, a + 4);
    }
    StringFrame(data, data2, e, p, typeId);
    WordFrame(data, data2, a, e, 4, if x.NilRef? then 0 else |x.profiles|);
  }

  // ------------------------------------------------------------ components

  method KeyMarshal(key: bytes, buf: OutStream)
    requires |key| < TWO32
    requires buf.Valid()
    modifies buf, buf.store
    ensures |buf.data| == KeyEnd(key, |old(buf.data)|) && buf.Grown(old(buf.data), old(buf.marks))
    ensures KeyWire(buf.data, buf.order, key, |old(buf.data)|)
  {
    hide Align, WordAt, OutStream.Valid;
    PowerValues();
    ghost var p := |buf.data|;
    buf.PutWord(4, |key|);
    ghost var d := buf.data;
    buf.Append(key);
    WordFrame(d, buf.data, Align(p, 4), buf.order, 4, |key|);
  }

  method CodeSetMarshal(native: nat, conv: seq<nat>, buf: OutStream)
    requires native < TWO32 && AllBelow(conv, TWO32) && |conv| < TWO32
    requires buf.Valid()
    modifies buf, buf.store
    ensures |buf.data| == CodeSetEnd(conv, |old(buf.data)|) && buf.Grown(old(buf.data), old(buf.marks))
    ensures CodeSetWire(buf.data, buf.order, native, conv, |old(buf.data)|)
  {
    hide Align, WordAt, OutStream.Valid;
    PowerValues();
    ghost var p := |buf.data|;
    buf.PutWord(4, native);
    ghost var d1 := buf.data;
    assert Align(|d1|, 4) == |d1|;
    buf.PutWord(4, |conv|);
    ghost var d2 := buf.data;
    buf.Append(WordsBytes(buf.order, conv));
    WordFrame(d1, buf.data, Align(p, 4), buf.order, 4, native);
    WordFrame(d2, buf.data, |d1|, buf.order, 4, |conv|);
    assert buf.data[|d2|..] == WordsBytes(buf.order, conv);
    WordsBytesAt(buf.data, |d2|, buf.order, conv);
  }

  /** The native memory of an array of 32-bit words. */
  function WordsBytes(e: Endian, ws: seq<nat>): (b: bytes)
    ensures |b| == 4 * |ws|
  {
    if ws == [] then [] else Store(e, 4, ws[0]) + WordsBytes(e, ws[1..])
  }

  lemma {:induction false} WordsBytesAt(data: bytes, p: nat, e: Endian, ws: seq<nat>)
    requires p + 4 * |ws| == |data| && data[p..] == WordsBytes(e, ws)
    ensures WordsAt(data, p, e, ws)
    decreases |ws|
  {
    if ws != [] {
      assert data[p..p + 4] == data[p..][..4] == Store(e, 4, ws[0]);
      assert data[p + 4..] == data[p..][4..] == WordsBytes(e, ws[1..]);
      WordsBytesAt(data, p + 4, e, ws[1..]);
    }
  }

  ghost predicate Fits(x: Component, key: bytes, p: nat)
  {
    GoodComponent(x) && ComponentEnd(x, key, p) < TWO32
  }

  method SslMarshal(s: nat, d: nat, port: nat, buf: OutStream)
    requires s < TWO32 && d < TWO32 && port < 0x1_0000
    requires buf.Valid()
    modifies buf, buf.store
    ensures var a := Align(|old(buf.data)|, 4);
            && |buf.data| == a + 10 && buf.Grown(old(buf.data), old(buf.marks))
            && WordAt(buf.data, a, buf.order, 4, s) && WordAt(buf.data, a + 4, buf.order, 4, d) && WordAt(buf.data, a + 8, buf.order, 2, port)
  {
    hide WordAt, Align, OutStream.Valid;
    PowerValues();
    ghost var a := Align(|buf.data|, 4);
    buf.PutWord(4, s);
    ghost var d1 := buf.data;
    assert Align(a + 4, 4) == a + 4 && Align(a + 8, 2) == a + 8;
    buf.PutWord(4, d);
    ghost var d2 := buf.data;
    buf.PutWord(2, port);
    WordFrame(d1, buf.data, a, buf.order, 4, s);
    WordFrame(d2, buf.data, a + 4, buf.order, 4, d);
  }

  /** Length and content, without an alignment of their own. */
  method BlobMarshal(content: bytes, buf: OutStream)
    requires |content| < TWO32
    requires buf.Valid()
    modifies buf, buf.store
    ensures var p := |old(buf.data)|;
            && |buf.data| == p + 4 + |content| && buf.Grown(old(buf.data), old(buf.marks))
            && WordAt(buf.data, p, buf.order, 4, |content|) && BytesAt(buf.data, p + 4, content)
  {
    hide WordAt, Store, OutStream.Valid;
    PowerValues();
    ghost var p := |buf.data|;
    buf.Append(Store(buf.order, 4, |content|));
    ghost var d := buf.data;
    BytesAsWord(d, p, buf.order, 4, |content|);
    buf.Append(content);
    WordFrame(d, buf.data, p, buf.order, 4, |content|);
  }

  method ContentMarshal(x: Component, key: bytes, buf: OutStream)
    requires GoodComponent(x) && ContentEnd(x, key, |buf.data|) < TWO32 && (!Marked(x) ==> |buf.data| % 4 == 0)
    requires buf.Valid()
    modifies buf, buf.store
    ensures |buf.data| == ContentEnd(x, key, |old(buf.data)|) && buf.Grown(old(buf.data), old(buf.marks))
    ensures ContentWire(buf.data, buf.order, x, key, |old(buf.data)|)
  {
    hide WordAt, StringWire, StringEnd, KeyWire, CodeSetWire, CString, Align, OutStream.Valid;
    PowerValues();
    ghost var p := |buf.data|;
    match x
    case GenericSsl(service) =>
      assert |service| + 1 < StringEnd(p, service);
      buf.AppendString(service);
    case SslSec(s, d, port) => SslMarshal(s, d, port, buf);
    case CompleteKey(_) => KeyMarshal(key, buf);
    case CodeSets(a, ac, b, bc) =>
      assert p + |ac| <= CodeSetEnd(ac, p) && CodeSetEnd(ac, p) + |bc| <= CodeSetEnd(bc, CodeSetEnd(ac, p));
      CodeSetMarshal(a, ac, buf);
      ghost var d := buf.data;
      CodeSetMarshal(b, bc, buf);
      CodeSetFrame(d, buf.data, buf.order, a, ac, p);
    case OtherComponent(_, content) => BlobMarshal(content, buf);
  }

  method ComponentMarshal(x: Component, key: bytes, buf: OutStream)
    requires Fits(x, key, |buf.data|)
    requires buf.Valid()
    modifies buf, buf.store
    ensures |buf.data| == ComponentEnd(x, key, |old(buf.data)|) && buf.Grown(old(buf.data), old(buf.marks))
    ensures ComponentWire(buf.data, buf.order, x, key, |old(buf.data)|)
  {
    hide WordAt, ContentWire, ContentEnd, GoodComponent, Store, Align, OutStream.Valid;
    PowerValues();
    ghost var a := Align(|buf.data|, 4);
    TagBelow(x);
    buf.PutWord(4, ComponentTag(x));
    ghost var d1 := buf.data;
    assert Align(|d1|, 4) == |d1|;
    if Marked(x) {
      MarkedMarshal(x, key, buf);
    } else {
      ContentMarshal(x, key, buf);
    }
    WordFrame(d1, buf.data, a, buf.order, 4, ComponentTag(x));
  }

  /** An encapsulation: the length word is filled in when the contents are there. */
  method MarkedMarshal(x: Component, key: bytes, buf: OutStream)
    requires GoodComponent(x) && Marked(x) && |buf.data| % 4 == 0 && ContentEnd(x, key, |buf.data| + 5) < TWO32
    requires buf.Valid()
    modifies buf, buf.store
    ensures var p, q := |old(buf.data)|, |buf.data|;
            && q == ContentEnd(x, key, p + 5) && buf.Grown(old(buf.data), old(buf.marks))
            && WordAt(buf.data, p, buf.order, 4, q - (p + 4)) && BytesAt(buf.data, p + 4, [FlagByte(buf.order)])
            && ContentWire(buf.data, buf.order, x, key, p + 5)
  {
    hide WordAt, ContentWire, ContentEnd, GoodComponent, Store, Align, OutStream.Valid;
    PowerValues();
    ghost var p := |buf.data|;
    var mark, at := buf.Reserve();
    var start := buf.Position();
    buf.Append([FlagByte(buf.order)]);
    ghost var d2 := buf.data;
    ContentMarshal(x, key, buf);
    ghost var d3 := buf.data;
    var len := buf.Position() - start;
    buf.Patch(mark, at, Store(buf.order, 4, len));
    BytesAsWord(buf.data, at, buf.order, 4, len);
    BytesFrame(d2, buf.data, p + 4, [FlagByte(buf.order)]);
    ContentFrame(d3, buf.data, buf.order, x, key, p + 5);
  }

  /** IOP_components_marshal. */
  method CompsMarshal(xs: seq<Component>, key: bytes, buf: OutStream)
    requires GoodComponents(xs) && CompsEnd(xs, key, |buf.data|) < TWO32
    requires buf.Valid()
    modifies buf, buf.store
    ensures |buf.data| == CompsEnd(xs, key, |old(buf.data)|) && buf.Grown(old(buf.data), old(buf.marks))
    ensures CompsWire(buf.data, buf.order, xs, key, |old(buf.data)|)
  {
    hide WordAt, ListWire, Align, OutStream.Valid;
    PowerValues();
    ghost var a := Align(|buf.data|, 4) + 4;
    assert a + 4 * |xs| <= ListEnd(xs, key, a);
    buf.PutWord(4, |xs|);
    ghost var d := buf.data;
    ListMarshal(xs, key, buf);
    WordFrame(d, buf.data, a - 4, buf.order, 4, |xs|);
  }

  /** The component loop. */
  method ListMarshal(xs: seq<Component>, key: bytes, buf: OutStream)
    requires GoodComponents(xs) && ListEnd(xs, key, |buf.data|) < TWO32
    requires buf.Valid()
    modifies buf, buf.store
    ensures |buf.data| == ListEnd(xs, key, |old(buf.data)|) && buf.Grown(old(buf.data), old(buf.marks))
    ensures ListWire(buf.data, buf.order, xs, key, |old(buf.data)|)
  {
    hide WordAt, ComponentWire, ComponentEnd, GoodComponent, Align, OutStream.Valid;
    ghost var p, d := |buf.data|, buf.data;
    var i := 0;
    assert xs[0..] == xs;
    while i < |xs|
      invariant i <= |xs| && buf.Grown(d, old(buf.marks))
      invariant ListEnd(xs[i..], key, |buf.data|) == ListEnd(xs, key, p)
      invariant forall d2 :: buf.data <= d2 && ListWire(d2, buf.order, xs[i..], key, |buf.data|) ==> ListWire(d2, buf.order, xs, key, p)
    {
      ghost var before := buf.data;
      assert xs[i..][1..] == xs[i + 1..];
      ghost var q := ComponentEnd(xs[i], key, |before|);
      assert q <= ListEnd(xs[i + 1..], key, q);
      ComponentMarshal(xs[i], key, buf);
      forall d2 | buf.data <= d2 && ListWire(d2, buf.order, xs[i + 1..], key, |buf.data|)
        ensures ListWire(d2, buf.order, xs[i..], key, |before|)
      {
        ComponentFrame(buf.data, d2, buf.order, xs[i], key, |before|);
      }
      i := i + 1;
    }
  }

  // ------------------------------------------------------------ profiles

  /** Version octets, string, port and key. */
  method EndpointMarshal(version: bytes, host: bytes, port: nat, key: bytes, buf: OutStream)
    requires |version| == 2 && port < 0x1_0000
    requires KeyEnd(key, Align(StringEnd(|buf.data| + 2, host), 2) + 2) < TWO32
    requires buf.Valid()
    modifies buf, buf.store
    ensures var p := |old(buf.data)|;
            var k := Align(StringEnd(p + 2, host), 2) + 2;
            && |buf.data| == KeyEnd(key, k) && buf.Grown(old(buf.data), old(buf.marks))
            && BytesAt(buf.data, p, version) && StringWire(buf.data, buf.order, p + 2, host)
            && WordAt(buf.data, k - 2, buf.order, 2, port) && KeyWire(buf.data, buf.order, key, k)
  {
    hide WordAt, StringWire, KeyWire, Align, OutStream.Valid;
    PowerValues();
    ghost var p := |buf.data|;
    buf.Append(version);
    ghost var d1 := buf.data;
    buf.AppendString(host);
    ghost var d2 := buf.data;
    buf.PutWord(2, port);
    ghost var d3 := buf.data;
    KeyMarshal(key, buf);
    BytesFrame(d1, buf.data, p, version);
    StringFrame(d2, buf.data, buf.order, p + 2, host);
    WordFrame(d3, buf.data, Align(|d2|, 2), buf.order, 2, port);
  }

  method GenericMarshal(x: Profile, key: bytes, buf: OutStream)
    requires x.GenericIop? && GoodProfile(x) && BodyEnd(x, key, |buf.data|) < TWO32
    requires buf.Valid()
    modifies buf, buf.store
    ensures |buf.data| == BodyEnd(x, key, |old(buf.data)|) && buf.Grown(old(buf.data), old(buf.marks))
    ensures BodyWire(buf.data, buf.order, x, key, |old(buf.data)|)
  {
    hide WordAt, StringWire, StringEnd, CompsWire, CompsEnd, CString, GoodComponents, Align, OutStream.Valid;
    ghost var p := |buf.data|;
    ghost var s1 := StringEnd(p + 2, x.proto);
    ghost var s2 := StringEnd(s1, x.host);
    ghost var s3 := StringEnd(s2, x.service);
    assert s3 <= CompsEnd(x.comps, key, s3);
    buf.Append([1, x.version]);
    ghost var d1 := buf.data;
    buf.AppendString(x.proto);
    ghost var d2 := buf.data;
    buf.AppendString(x.host);
    ghost var d3 := buf.data;
    buf.AppendString(x.service);
    ghost var d4 := buf.data;
    CompsMarshal(x.comps, key, buf);
    BytesFrame(d1, buf.data, p, [1, x.version]);
    StringFrame(d2, buf.data, buf.order, p + 2, x.proto);
    StringFrame(d3, buf.data, buf.order, s1, x.host);
    StringFrame(d4, buf.data, buf.order, s2, x.service);
  }

  method BodyMarshal(x: Profile, key: bytes, buf: OutStream)
    requires GoodProfile(x) && BodyEnd(x, key, |buf.data|) < TWO32
    requires buf.Valid()
    modifies buf, buf.store
    ensures |buf.data| == BodyEnd(x, key, |old(buf.data)|) && buf.Grown(old(buf.data), old(buf.marks))
    ensures BodyWire(buf.data, buf.order, x, key, |old(buf.data)|)
  {
    hide WordAt, StringWire, StringEnd, KeyWire, KeyEnd, CompsWire, CompsEnd, CString, GoodComponents, Align, OutStream.Valid;
    ghost var p := |buf.data|;
    match x
    case Iiop(v, host, port, _, comps) =>
      ghost var k := Align(StringEnd(p + 2, host), 2) + 2;
      assert KeyEnd(key, k) <= CompsEnd(comps, key, KeyEnd(key, k));
      EndpointMarshal([1, v], host, port, key, buf);
      ghost var d := buf.data;
      CompsMarshal(comps, key, buf);
      BytesFrame(d, buf.data, p, [1, v]);
      StringFrame(d, buf.data, buf.order, p + 2, host);
      WordFrame(d, buf.data, k - 2, buf.order, 2, port);
      KeyFrame(d, buf.data, buf.order, key, k);
    case OrbitSpecific(path, port, _) => EndpointMarshal([1, 2], path, port, key, buf);
    case GenericIop(_, _, _, _, _) => GenericMarshal(x, key, buf);
    case MultiComponent(comps) => CompsMarshal(comps, key, buf);
    case OtherProfile(_, content) => buf.Append(content);
  }

  /** IOP_profile_marshal. */
  method ProfileMarshal(x: Profile, key: bytes, buf: OutStream)
    requires GoodProfile(x) && ProfileEnd(x, key, |buf.data|) < TWO32
    requires buf.Valid()
    modifies buf, buf.store
    ensures |buf.data| == ProfileEnd(x, key, |old(buf.data)|) && buf.Grown(old(buf.data), old(buf.marks))
    ensures ProfileWire(buf.data, buf.order, x, key, |old(buf.data)|)
  {
    hide WordAt, BodyWire, BodyEnd, Store, Align, OutStream.Valid;
    PowerValues();
    ghost var p := |buf.data|;
    ghost var a := Align(p, 4);
    TagOf(x);
    buf.PutWord(4, ProfileTag(x));
    ghost var d1 := buf.data;
    assert Align(|d1|, 4) == |d1|;
    LengthAndBody(x, key, buf);
    WordFrame(d1, buf.data, a, buf.order, 4, ProfileTag(x));
  }

  method LengthAndBody(x: Profile, key: bytes, buf: OutStream)
    requires GoodProfile(x) && |buf.data| % 4 == 0
    requires BodyEnd(x, key, |buf.data| + (if x.OtherProfile? then 4 else 5)) < TWO32
    requires buf.Valid()
    modifies buf, buf.store
    ensures var p, q := |old(buf.data)|, |buf.data|;
            var start := p + if x.OtherProfile? then 4 else 5;
            && q == BodyEnd(x, key, start) && buf.Grown(old(buf.data), old(buf.marks))
            && WordAt(buf.data, p, buf.order, 4, q - (p + 4))
            && (!x.OtherProfile? ==> BytesAt(buf.data, p + 4, [FlagByte(buf.order)]))
            && BodyWire(buf.data, buf.order, x, key, start)
  {
    hide WordAt, BodyWire, BodyEnd, Store, Align, OutStream.Valid;
    PowerValues();
    ghost var p := |buf.data|;
    var mark, at := buf.Reserve();
    var msgsz := buf.Position();
    if !x.OtherProfile? {
      buf.Append([FlagByte(buf.order)]);
    }
    ghost var d2 := buf.data;
    BodyMarshal(x, key, buf);
    ghost var d3 := buf.data;
    var seqlen := buf.Position() - msgsz;
    buf.Patch(mark, at, Store(buf.order, 4, seqlen));
    BytesAsWord(buf.data, at, buf.order, 4, seqlen);
    if !x.OtherProfile? {
      BytesFrame(d2, buf.data, p + 4, [FlagByte(buf.order)]);
    }
    BodyFrame(d3, buf.data, buf.order, x, key, |d2|);
  }

  /** ORBit_marshal_object. */
  method RefMarshal(x: Reference, key: bytes, buf: OutStream)
    requires GoodReference(x) && RefEnd(x, key, |buf.data|) < TWO32
    requires buf.Valid()
    modifies buf, buf.store
    ensures |buf.data| == RefEnd(x, key, |old(buf.data)|) && buf.Grown(old(buf.data), old(buf.marks))
    ensures RefWire(buf.data, buf.order, x, key, |old(buf.data)|)
  {
    hide WordAt, StringWire, StringEnd, ProfileWire, ProfileEnd, GoodProfile, CString, Align, OutStream.Valid;
    PowerValues();
    ghost var p := |buf.data|;
    var typeId := if x.NilRef? then [] else x.typeId;
    var n := if x.NilRef? then 0 else |x.profiles|;
    ghost var a := Align(StringEnd(p, typeId), 4) + 4;
    if x.Ref? {
      assert a + 8 * |x.profiles| <= ProfilesEnd(x.profiles, key, a);
    }
    buf.AppendString(typeId);
    ghost var d1 := buf.data;
    buf.PutWord(4, n);
    ghost var d2 := buf.data;
    if x.Ref? {
      ProfilesMarshal(x.profiles, key, buf);
    }
    StringFrame(d1, buf.data, buf.order, p, typeId);
    WordFrame(d2, buf.data, a - 4, buf.order, 4, n);
  }

  method ProfilesMarshal(xs: seq<Profile>, key: bytes, buf: OutStream)
    requires (forall i :: 0 <= i < |xs| ==> GoodProfile(xs[i])) && ProfilesEnd(xs, key, |buf.data|) < TWO32
    requires buf.Valid()
    modifies buf, buf.store
    ensures |buf.data| == ProfilesEnd(xs, key, |old(buf.data)|) && buf.Grown(old(buf.data), old(buf.marks))
    ensures ProfilesWire(buf.data, buf.order, xs, key, |old(buf.data)|)
  {
    hide ProfileWire, ProfileEnd, GoodProfile, OutStream.Valid;
    ghost var p := |buf.data|;
    var i := 0;
    assert xs[0..] == xs;
    while i < |xs|
      invariant i <= |xs| && buf.Grown(old(buf.data), old(buf.marks))
      invariant ProfilesEnd(xs[i..], key, |buf.data|) == ProfilesEnd(xs, key, p)
      invariant forall d2 :: buf.data <= d2 && ProfilesWire(d2, buf.order, xs[i..], key, |buf.data|)
                             ==> ProfilesWire(d2, buf.order, xs, key, p)
    {
      ghost var before := buf.data;
      assert xs[i..][1..] == xs[i + 1..];
      ghost var q := ProfileEnd(xs[i], key, |before|);
      assert q <= ProfilesEnd(xs[i + 1..], key, q);
      ProfileMarshal(xs[i], key, buf);
      forall d2 | buf.data <= d2 && ProfilesWire(d2, buf.order, xs[i + 1..], key, |buf.data|)
        ensures ProfilesWire(d2, buf.order, xs[i..], key, |before|)
      {
        ProfileFrame(buf.data, d2, buf.order, xs[i], key, |before|);
      }
      i := i + 1;
    }
  }
}
