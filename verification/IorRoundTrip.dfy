/**
 Demarshalling a marshalled reference restores type id, profile order and
 components, and every keyed profile receives the object's key.
 */
module IorRoundTrip {
  import opened Cdr
  import opened Common
  import opened Ior

  // ------------------------------------------------------------ what the receiver gets

  function ReceivedComponent(x: Component, key: bytes): Component
  {
    if x.CompleteKey? then CompleteKey(Some(key)) else x
  }

  function ReceivedComponents(xs: seq<Component>, key: bytes): (r: seq<Component>)
    ensures |r| == |xs|
  {
    seq(|xs|, i requires 0 <= i < |xs| => ReceivedComponent(xs[i], key))
  }

  /** The sender writes the object's one key into every keyed place; a 1.0 profile loses its components. */
  function ReceivedProfile(x: Profile, key: bytes): Profile
  {
    match x
    case Iiop(v, host, port, _, comps) => Iiop(v, host, port, Some(key), if v == 0 then [] else ReceivedComponents(comps, key))
    case OrbitSpecific(path, port, _) => OrbitSpecific(path, port, Some(key))
    case GenericIop(v, proto, host, service, comps) => GenericIop(v, proto, host, service, ReceivedComponents(comps, key))
    case MultiComponent(comps) => MultiComponent(ReceivedComponents(comps, key))
    case OtherProfile(_, _) => x
  }

  function ReceivedProfiles(xs: seq<Profile>, key: bytes): (r: seq<Profile>)
    ensures |r| == |xs|
  {
    seq(|xs|, i requires 0 <= i < |xs| => ReceivedProfile(xs[i], key))
  }

  // ------------------------------------------------------------ components

  ghost predicate Bounded(c: RecvBuf, q: nat)
  {
    c.Valid() && c.cur <= q <= c.end < TWO32
  }

  lemma KeyDecodes(key: bytes, c: RecvBuf)
    requires Bounded(c, KeyEnd(key, c.cur)) && KeyWire(c.data, c.flag, key, c.cur)
    ensures KeyDec(c) == Got(key, c.(cur := KeyEnd(key, c.cur)))
  {
    hide Align;
    PowerValues();
    GetWordReads(c, 4, |key|);
  }

  lemma {:induction false} WordsDecode(ws: seq<nat>, c: RecvBuf)
    requires AllBelow(ws, TWO32) && c.cur % 4 == 0
    requires Bounded(c, c.cur + 4 * |ws|) && WordsAt(c.data, c.cur, c.flag, ws)
    ensures WordsDec(|ws|, c) == Got(ws, c.(cur := c.cur + 4 * |ws|))
    decreases |ws|
  {
    hide Align, WordAt;
    if ws != [] {
      PowerValues();
      GetWordReads(c, 4, ws[0]);
      WordsDecode(ws[1..], c.(cur := c.cur + 4));
      assert [ws[0]] + ws[1..] == ws;
    }
  }

  lemma CodeSetDecodes(native: nat, conv: seq<nat>, c: RecvBuf)
    requires native < TWO32 && AllBelow(conv, TWO32)
    requires Bounded(c, CodeSetEnd(conv, c.cur)) && CodeSetWire(c.data, c.flag, native, conv, c.cur)
    ensures CodeSetDec(c) == Got((native, conv), c.(cur := CodeSetEnd(conv, c.cur)))
  {
    hide Align, WordAt, WordsAt, WordsDec, GetWord;
    PowerValues();
    var a := Align(c.cur, 4);
    GetWordReads(c, 4, native);
    GetWordReads(c.(cur := a + 4), 4, |conv|);
    WordsDecode(conv, c.(cur := a + 8));
  }

  lemma MarkedDecodes(x: Component, key: bytes, sub: RecvBuf)
    requires Marked(x) && GoodComponent(x)
    requires Bounded(sub, ContentEnd(x, key, sub.cur)) && ContentWire(sub.data, sub.flag, x, key, sub.cur)
    ensures MarkedDec(ComponentTag(x), sub, sub.flag) == Got(x, sub.(cur := ContentEnd(x, key, sub.cur)))
  {
    hide Align, WordAt, StringWire, StringEnd, CodeSetWire, CodeSetEnd, CodeSetDec, GetWord, GetString, CString;
    PowerValues();
    assert sub.(flag := sub.flag) == sub;
    match x
    case GenericSsl(service) => GetStringReads(sub, service);
    case SslSec(s, d, port) =>
      var a := Align(sub.cur, 4);
      GetWordReads(sub, 4, s);
      GetWordReads(sub.(cur := a + 4), 4, d);
      GetWordReads(sub.(cur := a + 8), 2, port);
    case CodeSets(a, ac, b, bc) =>
      CodeSetDecodes(a, ac, sub);
      CodeSetDecodes(b, bc, sub.(cur := CodeSetEnd(ac, sub.cur)));
  }

  lemma ComponentDecodes(x: Component, key: bytes, c: RecvBuf)
    requires GoodComponent(x)
    requires Bounded(c, ComponentEnd(x, key, c.cur)) && ComponentWire(c.data, c.flag, x, key, c.cur)
    ensures ComponentDec(c) == Got(ReceivedComponent(x, key), c.(cur := ComponentEnd(x, key, c.cur)))
  {
    hide Align, WordAt, ContentWire, MarkedDec, GetWord, UseEncaps, KeyDec;
    PowerValues();
    var a := Align(c.cur, 4);
    TagBelow(x);
    GetWordReads(c, 4, ComponentTag(x));
    var c1 := c.(cur := a + 4);
    if Marked(x) {
      UseEncapsReads(c1, ComponentEnd(x, key, c.cur) - (a + 8), c.flag);
      MarkedDecodes(x, key, UseEncaps(c1).value);
    } else {
      assert Align(c1.cur, 4) == c1.cur;
      PlainDecodes(x, key, c1);
    }
  }

  lemma TagBelow(x: Component)
    requires GoodComponent(x)
    ensures ComponentTag(x) < TWO32
  {
  }

  lemma PlainDecodes(x: Component, key: bytes, c: RecvBuf)
    requires !Marked(x) && c.cur % 4 == 0
    requires Bounded(c, ContentEnd(x, key, c.cur)) && ContentWire(c.data, c.flag, x, key, c.cur)
    ensures KeyDec(c) == Got(if x.CompleteKey? then key else x.content, c.(cur := ContentEnd(x, key, c.cur)))
  {
    hide WordAt, BytesAt, KeyDec;
    KeyDecodes(if x.CompleteKey? then key else x.content, c);
  }

  lemma {:induction false} ListDecodes(xs: seq<Component>, key: bytes, c: RecvBuf)
    requires GoodComponents(xs) && Bounded(c, ListEnd(xs, key, c.cur)) && ListWire(c.data, c.flag, xs, key, c.cur)
    ensures ListDec(|xs|, c) == Got(ReceivedComponents(xs, key), c.(cur := ListEnd(xs, key, c.cur)))
    decreases |xs|
  {
    hide ComponentWire, ComponentEnd, ComponentDec, GoodComponent, ReceivedComponent;
    if xs != [] {
      var q := ComponentEnd(xs[0], key, c.cur);
      assert q <= ListEnd(xs[1..], key, q);
      ComponentDecodes(xs[0], key, c);
      ListDecodes(xs[1..], key, c.(cur := q));
      assert ReceivedComponents(xs, key) == [ReceivedComponent(xs[0], key)] + ReceivedComponents(xs[1..], key);
    }
  }

  lemma CompsDecode(xs: seq<Component>, key: bytes, c: RecvBuf)
    requires GoodComponents(xs) && Bounded(c, CompsEnd(xs, key, c.cur)) && CompsWire(c.data, c.flag, xs, key, c.cur)
    ensures CompsDec(c) == Got(ReceivedComponents(xs, key), c.(cur := CompsEnd(xs, key, c.cur)))
  {
    hide Align, WordAt, ListWire, ListEnd, ListDec, GetWord, GoodComponents;
    PowerValues();
    var a := Align(c.cur, 4) + 4;
    assert a + 4 * |xs| <= ListEnd(xs, key, a);
    GetWordReads(c, 4, |xs|);
    ListDecodes(xs, key, c.(cur := a));
  }

  // ------------------------------------------------------------ profiles

  lemma EndpointDecodes(host: bytes, port: nat, key: bytes, c: RecvBuf)
    requires CString(host) && port < 0x1_0000
    requires var k := Align(StringEnd(c.cur, host), 2) + 2;
             && Bounded(c, KeyEnd(key, k)) && StringWire(c.data, c.flag, c.cur, host)
             && WordAt(c.data, k - 2, c.flag, 2, port) && KeyWire(c.data, c.flag, key, k)
    ensures var k := Align(StringEnd(c.cur, host), 2) + 2;
            EndpointDec(c) == Got((host, port, key), c.(cur := KeyEnd(key, k)))
  {
    hide Align, WordAt, StringWire, StringEnd, KeyWire, KeyEnd, KeyDec, GetWord, GetString, CString;
    PowerValues();
    var s := StringEnd(c.cur, host);
    GetStringReads(c, host);
    GetWordReads(c.(cur := s), 2, port);
    KeyDecodes(key, c.(cur := Align(s, 2) + 2));
  }

  lemma VersionDecodes(v: nat, c: RecvBuf)
    requires v <= 2 && Bounded(c, c.cur + 2) && BytesAt(c.data, c.cur, [1, v])
    ensures VersionDec(c) == Got(v, c.(cur := c.cur + 2))
  {
    assert c.data[c.cur..c.cur + 2] == [1, v];
  }

  lemma BodyDecodes(x: Profile, key: bytes, c: RecvBuf)
    requires !x.OtherProfile? && GoodProfile(x)
    requires Bounded(c, BodyEnd(x, key, c.cur)) && BodyWire(c.data, c.flag, x, key, c.cur)
    ensures BodyDec(ProfileTag(x), c).Got? && BodyDec(ProfileTag(x), c).value == ReceivedProfile(x, key)
  {
    hide BodyEnd, BodyWire, BodyDec, GoodProfile, ReceivedProfile;
    match x
    case Iiop(_, _, _, _, _) => IiopDecodes(x, key, c);
    case OrbitSpecific(_, _, _) => OrbitDecodes(x, key, c);
    case GenericIop(_, _, _, _, _) => GenericDecodes(x, key, c);
    case MultiComponent(_) => MultiDecodes(x, key, c);
  }

  lemma IiopDecodes(x: Profile, key: bytes, c: RecvBuf)
    requires x.Iiop? && GoodProfile(x)
    requires Bounded(c, BodyEnd(x, key, c.cur)) && BodyWire(c.data, c.flag, x, key, c.cur)
    ensures BodyDec(ProfileTag(x), c).Got? && BodyDec(ProfileTag(x), c).value == ReceivedProfile(x, key)
  {
    hide Align, WordAt, BytesAt, StringWire, StringEnd, KeyWire, KeyEnd, CompsWire, CompsEnd, CompsDec, VersionDec, EndpointDec, CString, GoodComponents, ReceivedComponents;
    var k := Align(StringEnd(c.cur + 2, x.host), 2) + 2;
    var q := KeyEnd(key, k);
    assert c.cur + 2 <= StringEnd(c.cur + 2, x.host) <= k <= q <= CompsEnd(x.comps, key, q);
    VersionDecodes(x.version, c);
    EndpointDecodes(x.host, x.port, key, c.(cur := c.cur + 2));
    CompsDecode(x.comps, key, c.(cur := q));
  }

  lemma OrbitDecodes(x: Profile, key: bytes, c: RecvBuf)
    requires x.OrbitSpecific? && GoodProfile(x)
    requires Bounded(c, BodyEnd(x, key, c.cur)) && BodyWire(c.data, c.flag, x, key, c.cur)
    ensures BodyDec(ProfileTag(x), c).Got? && BodyDec(ProfileTag(x), c).value == ReceivedProfile(x, key)
  {
    hide Align, WordAt, BytesAt, StringWire, StringEnd, KeyWire, KeyEnd, CompsDec, VersionDec, EndpointDec, CString;
    var k := Align(StringEnd(c.cur + 2, x.path), 2) + 2;
    assert c.cur + 2 <= StringEnd(c.cur + 2, x.path) <= k <= KeyEnd(key, k);
    EndpointDecodes(x.path, x.ipv6Port, key, c.(cur := c.cur + 2));
  }

  lemma GenericDecodes(x: Profile, key: bytes, c: RecvBuf)
    requires x.GenericIop? && GoodProfile(x)
    requires Bounded(c, BodyEnd(x, key, c.cur)) && BodyWire(c.data, c.flag, x, key, c.cur)
    ensures BodyDec(ProfileTag(x), c).Got? && BodyDec(ProfileTag(x), c).value == ReceivedProfile(x, key)
  {
    hide Align, WordAt, BytesAt, StringWire, StringEnd, CompsWire, CompsEnd, CompsDec, VersionDec, EndpointDec, GetString, CString, GoodComponents, ReceivedComponents;
    var s1 := StringEnd(c.cur + 2, x.proto);
    var s2 := StringEnd(s1, x.host);
    var s3 := StringEnd(s2, x.service);
    assert c.cur + 2 <= s1 <= s2 <= s3 <= CompsEnd(x.comps, key, s3);
    VersionDecodes(x.version, c);
    GetStringReads(c.(cur := c.cur + 2), x.proto);
    GetStringReads(c.(cur := s1), x.host);
    GetStringReads(c.(cur := s2), x.service);
    CompsDecode(x.comps, key, c.(cur := s3));
  }

  lemma MultiDecodes(x: Profile, key: bytes, c: RecvBuf)
    requires x.MultiComponent? && GoodProfile(x)
    requires Bounded(c, BodyEnd(x, key, c.cur)) && BodyWire(c.data, c.flag, x, key, c.cur)
    ensures BodyDec(ProfileTag(x), c).Got? && BodyDec(ProfileTag(x), c).value == ReceivedProfile(x, key)
  {
    hide Align, WordAt, CompsWire, CompsEnd, CompsDec, GoodComponents, ReceivedComponents;
    CompsDecode(x.comps, key, c);
  }

  lemma ProfileDecodes(x: Profile, key: bytes, c: RecvBuf)
    requires GoodProfile(x)
    requires Bounded(c, ProfileEnd(x, key, c.cur)) && ProfileWire(c.data, c.flag, x, key, c.cur)
    ensures ProfileDec(c) == Got(ReceivedProfile(x, key), c.(cur := ProfileEnd(x, key, c.cur)))
  {
    hide Align, WordAt, BodyWire, BodyDec, GetWord, UseEncaps, KeyDec, ProfileWire, ProfileEnd, ProfileDec, ReceivedProfile, GoodProfile;
    PowerValues();
    var a, q := Align(c.cur, 4), ProfileEnd(x, key, c.cur);
    var c1 := c.(cur := a + 4);
    TagOf(x);
    ProfileLayout(x, key, c.data, c.flag, c.cur);
    GetWordReads(c, 4, ProfileTag(x));
    if x.OtherProfile? {
      OtherDecodes(x, key, c1, c.cur);
      OtherDec(x, key, c, c1, c.(cur := q));
    } else {
      assert Align(a + 4, 4) == a + 4;
      UseEncapsReads(c1, q - (a + 8), c.flag);
      var sub := RecvBuf(c.data, a + 8, a + 9, q, c.flag, c.host);
      BodyDecodes(x, key, sub);
      KnownDec(x, key, c, c1, sub, c.(cur := q));
    }
  }

  lemma TagOf(x: Profile)
    requires GoodProfile(x)
    ensures ProfileTag(x) < TWO32
    ensures x.OtherProfile? <==> ProfileTag(x) !in {TAG_INTERNET_IOP, TAG_MULTIPLE_COMPONENTS, TAG_ORBIT_SPECIFIC, TAG_GENERIC_IOP}
  {
  }

  lemma ProfileLayout(x: Profile, key: bytes, data: bytes, e: Endian, p: nat)
    requires ProfileWire(data, e, x, key, p)
    ensures var a, q := Align(p, 4), ProfileEnd(x, key, p);
            && WordAt(data, a, e, 4, ProfileTag(x))
            && (!x.OtherProfile? ==>
                  && q == BodyEnd(x, key, a + 9) && a + 9 <= q && BodyWire(data, e, x, key, a + 9)
                  && WordAt(data, a + 4, e, 4, q - (a + 8)) && BytesAt(data, a + 8, [FlagByte(e)]))
  {
    hide Align, WordAt, BytesAt, BodyWire, BodyEnd;
  }

  lemma OtherDec(x: Profile, key: bytes, c: RecvBuf, c1: RecvBuf, c2: RecvBuf)
    requires c.Valid() && x.OtherProfile? && GetWord(c, 4) == Got(ProfileTag(x), c1) && c1.Valid() && KeyDec(c1) == Got(x.content, c2)
    requires ProfileTag(x) !in {TAG_INTERNET_IOP, TAG_MULTIPLE_COMPONENTS, TAG_ORBIT_SPECIFIC, TAG_GENERIC_IOP}
    ensures ProfileDec(c) == Got(ReceivedProfile(x, key), c2)
  {
    hide GetWord, KeyDec, UseEncaps, BodyDec;
  }

  lemma KnownDec(x: Profile, key: bytes, c: RecvBuf, c1: RecvBuf, sub: RecvBuf, c2: RecvBuf)
    requires c.Valid() && !x.OtherProfile? && GetWord(c, 4) == Got(ProfileTag(x), c1) && c1.Valid()
    requires UseEncaps(c1) == Got(sub, c2) && sub.Valid()
    requires BodyDec(ProfileTag(x), sub).Got? && BodyDec(ProfileTag(x), sub).value == ReceivedProfile(x, key)
    ensures ProfileDec(c) == Got(ReceivedProfile(x, key), c2)
  {
    hide GetWord, KeyDec, UseEncaps, BodyDec, ReceivedProfile;
  }

  lemma OtherDecodes(x: Profile, key: bytes, c: RecvBuf, p: nat)
    requires x.OtherProfile? && c.cur == Align(p, 4) + 4
    requires Bounded(c, ProfileEnd(x, key, p)) && ProfileWire(c.data, c.flag, x, key, p)
    ensures KeyDec(c) == Got(x.content, c.(cur := ProfileEnd(x, key, p)))
  {
    hide WordAt, BytesAt, KeyDec;
    assert Align(c.cur, 4) == c.cur;
    KeyDecodes(x.content, c);
  }

  lemma {:induction false} ProfilesDecode(xs: seq<Profile>, key: bytes, c: RecvBuf)
    requires forall i :: 0 <= i < |xs| ==> GoodProfile(xs[i])
    requires Bounded(c, ProfilesEnd(xs, key, c.cur)) && ProfilesWire(c.data, c.flag, xs, key, c.cur)
    ensures ProfilesDec(|xs|, c) == Got(ReceivedProfiles(xs, key), c.(cur := ProfilesEnd(xs, key, c.cur)))
    decreases |xs|
  {
    hide ProfileWire, ProfileEnd, ProfileDec, GoodProfile, ReceivedProfile;
    if xs != [] {
      var q := ProfileEnd(xs[0], key, c.cur);
      assert q <= ProfilesEnd(xs[1..], key, q);
      ProfileDecodes(xs[0], key, c);
      ProfilesDecode(xs[1..], key, c.(cur := q));
      assert ReceivedProfiles(xs, key) == [ReceivedProfile(xs[0], key)] + ReceivedProfiles(xs[1..], key);
    }
  }

  ghost predicate GoodReference(x: Reference)
  {
    x.Ref? ==> CString(x.typeId) && x.profiles != [] && forall i :: 0 <= i < |x.profiles| ==> GoodProfile(x.profiles[i])
  }

  /**
   The reference round trip, for either byte order and any position. The nil
   reference comes back as nil.
   */
  lemma RefDecodes(x: Reference, key: bytes, c: RecvBuf)
    requires GoodReference(x)
    requires Bounded(c, RefEnd(x, key, c.cur)) && RefWire(c.data, c.flag, x, key, c.cur)
    ensures RefDec(c) == Got(if x.NilRef? then NilRef else Ref(x.typeId, ReceivedProfiles(x.profiles, key)),
                             c.(cur := RefEnd(x, key, c.cur)))
  {
    hide Align, WordAt, StringWire, StringEnd, ProfilesWire, ProfilesDec, ProfilesEnd, GetWord, GetString, GoodProfile, ReceivedProfiles;
    PowerValues();
    var typeId := if x.NilRef? then [] else x.typeId;
    var n := if x.NilRef? then 0 else |x.profiles|;
    var s := StringEnd(c.cur, typeId);
    var a := Align(s, 4) + 4;
    if x.Ref? {
      assert a + 8 * |x.profiles| <= ProfilesEnd(x.profiles, key, a);
    }
    GetStringReads(c, typeId);
    GetWordReads(c.(cur := s), 4, n);
    if x.Ref? {
      ProfilesDecode(x.profiles, key, c.(cur := a));
    }
  }

  // ------------------------------------------------------------ merging the keys

  function StrippedComponent(x: Component): Component
  {
    if x.CompleteKey? then CompleteKey(None) else x
  }

  function StrippedComponents(xs: seq<Component>): (r: seq<Component>)
    ensures |r| == |xs|
  {
    seq(|xs|, i requires 0 <= i < |xs| => StrippedComponent(xs[i]))
  }

  /** The profile after IOP_profiles_sync_objkey: only these places lose their key. */
  function Stripped(x: Profile): Profile
  {
    match x
    case Iiop(v, host, port, _, comps) => Iiop(v, host, port, None, comps)
    case OrbitSpecific(path, port, _) => OrbitSpecific(path, port, None)
    case MultiComponent(comps) => MultiComponent(StrippedComponents(comps))
    case _ => x
  }

  function FirstOfComponents(xs: seq<Component>): Option<bytes>
  {
    if xs == [] then None
    else if xs[0].CompleteKey? && xs[0].key.Some? then xs[0].key
    else FirstOfComponents(xs[1..])
  }

  function KeyOf(x: Profile): Option<bytes>
  {
    match x
    case Iiop(_, _, _, key, _) => key
    case OrbitSpecific(_, _, key) => key
    case MultiComponent(comps) => FirstOfComponents(comps)
    case _ => None
  }

  function FirstKey(xs: seq<Profile>): Option<bytes>
  {
    if xs == [] then None else if KeyOf(xs[0]).Some? then KeyOf(xs[0]) else FirstKey(xs[1..])
  }

  /** The inner loop of the sync over a multi-component profile. */
  method SyncComponents(comps: seq<Component>, objkey0: Option<bytes>) returns (objkey: Option<bytes>, out: seq<Component>)
    ensures out == StrippedComponents(comps)
    ensures objkey == if objkey0.Some? then objkey0 else FirstOfComponents(comps)
  {
    objkey, out := objkey0, [];
    for i := 0 to |comps|
      invariant out == StrippedComponents(comps[..i])
      invariant (if objkey0.Some? then objkey0 else FirstOfComponents(comps)) ==
                if objkey.Some? then objkey else FirstOfComponents(comps[i..])
    {
      var x := comps[i];
      assert comps[i..][1..] == comps[i + 1..];
      if x.CompleteKey? {
        if objkey.None? {
          objkey := x.key;
        }
        x := x.(key := None);
      }
      out := out + [x];
      assert comps[..i + 1] == comps[..i] + [comps[i]];
    }
    assert comps[..|comps|] == comps;
  }

  /** IOP_profiles_sync_objkey: keep the first key, null all of them. */
  method SyncObjKey(profiles: seq<Profile>) returns (objkey: Option<bytes>, out: seq<Profile>)
    ensures |out| == |profiles| && forall i :: 0 <= i < |profiles| ==> out[i] == Stripped(profiles[i])
    ensures objkey == FirstKey(profiles)
  {
    objkey, out := None, [];
    for i := 0 to |profiles|
      invariant |out| == i && forall j :: 0 <= j < i ==> out[j] == Stripped(profiles[j])
      invariant FirstKey(profiles) == if objkey.Some? then objkey else FirstKey(profiles[i..])
    {
      var x := profiles[i];
      assert profiles[i..][1..] == profiles[i + 1..];
      if x.Iiop? || x.OrbitSpecific? {
        if objkey.None? {
          objkey := x.key;
        }
        x := x.(key := None);
      } else if x.MultiComponent? {
        var comps;
        objkey, comps := SyncComponents(x.comps, objkey);
        x := MultiComponent(comps);
      }
      out := out + [x];
    }
  }

  /** Every complete key among the components is in this state. */
  ghost predicate KeysAre(xs: seq<Component>, key: Option<bytes>)
  {
    forall i :: 0 <= i < |xs| && xs[i].CompleteKey? ==> xs[i].key == key
  }

  ghost predicate NoCompleteKey(xs: seq<Component>)
  {
    forall i :: 0 <= i < |xs| ==> !xs[i].CompleteKey?
  }

  /**
   What a caller can look at before marshalling to know that the profile
   survives the trip unchanged: the keys that the sync clears are clear, and
   those it does not look for, inside IIOP and generic profiles, are there.
   */
  ghost predicate Restorable(x: Profile, key: bytes)
  {
    match x
    case Iiop(v, _, _, own, comps) => own.None? && if v == 0 then comps == [] else KeysAre(comps, Some(key))
    case OrbitSpecific(_, _, own) => own.None?
    case GenericIop(_, _, _, _, comps) => KeysAre(comps, Some(key))
    case MultiComponent(comps) => KeysAre(comps, None)
    case OtherProfile(_, _) => true
  }

  /**
   Sent, received and synchronised, a profile is the one the sender had exactly
   when it is Restorable: a 1.0 IIOP profile loses components, and a complete
   key inside an IIOP or generic profile comes back as received, so it is the
   sender's only if the sender had received it too.
   */
  lemma ProfileRestored(x: Profile, key: bytes)
    ensures Stripped(ReceivedProfile(x, key)) == x <==> Restorable(x, key)
  {
    match x
    case Iiop(v, _, _, _, comps) =>
      if v > 0 {
        ComponentsUnchanged(comps, key);
      }
    case GenericIop(_, _, _, _, comps) => ComponentsUnchanged(comps, key);
    case MultiComponent(comps) => ComponentsStripped(comps, key);
    case _ =>
  }

  lemma ComponentsUnchanged(comps: seq<Component>, key: bytes)
    ensures ReceivedComponents(comps, key) == comps <==> KeysAre(comps, Some(key))
  {
    if KeysAre(comps, Some(key)) {
      assert ReceivedComponents(comps, key) == comps;
    } else {
      var i :| 0 <= i < |comps| && comps[i].CompleteKey? && comps[i].key != Some(key);
      assert ReceivedComponents(comps, key)[i] != comps[i];
    }
  }

  lemma ComponentsStripped(comps: seq<Component>, key: bytes)
    ensures StrippedComponents(ReceivedComponents(comps, key)) == comps <==> KeysAre(comps, None)
  {
    if KeysAre(comps, None) {
      assert StrippedComponents(ReceivedComponents(comps, key)) == comps;
    } else {
      var i :| 0 <= i < |comps| && comps[i].CompleteKey? && comps[i].key != None;
      assert StrippedComponents(ReceivedComponents(comps, key))[i] != comps[i];
    }
  }

  /**
   A complete key in such a profile of a locally made reference is NULL there,
   and the peer keeps the received one: the trip changes it, and then no more.
   */
  lemma ReceivedKeyStaysBehind(x: Profile, key: bytes)
    requires x.GenericIop? && !NoCompleteKey(x.comps) && KeysAre(x.comps, None)
    ensures Stripped(ReceivedProfile(x, key)) != x
    ensures Restorable(Stripped(ReceivedProfile(x, key)), key)
  {
    ComponentsUnchanged(x.comps, key);
    var i :| 0 <= i < |x.comps| && x.comps[i].CompleteKey?;
    assert ReceivedComponents(x.comps, key)[i] != x.comps[i];
  }

  ghost predicate Keyed(x: Profile)
  {
    x.Iiop? || x.OrbitSpecific? || (x.MultiComponent? && !NoCompleteKey(x.comps))
  }

  lemma {:induction false} FirstOfReceived(xs: seq<Component>, key: bytes)
    ensures FirstOfComponents(ReceivedComponents(xs, key)) == if NoCompleteKey(xs) then None else Some(key)
    decreases |xs|
  {
    if xs != [] {
      assert ReceivedComponents(xs, key)[1..] == ReceivedComponents(xs[1..], key);
      FirstOfReceived(xs[1..], key);
      assert NoCompleteKey(xs) <==> !xs[0].CompleteKey? && NoCompleteKey(xs[1..]);
    }
  }

  /** The sync returns the sender's key as soon as one profile carries it. */
  lemma {:induction false} KeyRestored(xs: seq<Profile>, key: bytes)
    ensures FirstKey(ReceivedProfiles(xs, key)) == if exists i :: 0 <= i < |xs| && Keyed(xs[i]) then Some(key) else None
    decreases |xs|
  {
    if xs != [] {
      assert ReceivedProfiles(xs, key)[1..] == ReceivedProfiles(xs[1..], key);
      KeyRestored(xs[1..], key);
      if xs[0].MultiComponent? {
        FirstOfReceived(xs[0].comps, key);
      }
      assert KeyOf(ReceivedProfile(xs[0], key)) == if Keyed(xs[0]) then Some(key) else None;
      if exists i :: 0 <= i < |xs| && Keyed(xs[i]) {
        var i :| 0 <= i < |xs| && Keyed(xs[i]);
        if i > 0 {
          assert xs[1..][i - 1] == xs[i];
        }
      } else {
        assert forall i :: 0 <= i < |xs[1..]| ==> xs[1..][i] == xs[i + 1];
      }
    }
  }
}
