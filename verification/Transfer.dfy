/**
 The encoders and the decoders run one after the other, in processes of any two
 byte orders: the sender appends to an iovec buffer, the receiver reads what
 writev gathers from it. What arrives is what was sent, or the condition says
 why not.
 */
module Transfer {
  import opened Cdr
  import opened Common
  import opened Giop
  import opened OutStreams
  import opened SendBuffers
  import opened TypeCodes
  import TypeCodeCodec
  import TypeCodeRoundTrip
  import TypeCodeEncoder
  import Values
  import ValueRoundTrip
  import ValueEncoder
  import Ior
  import IorRoundTrip
  import IorEncoder
  import GiopInput
  import Relay
  import Wire

  /** What the sender has written before: the pieces of its message's own header. */
  datatype Opening = Opening(minor: byte, kind: byte, first: bytes, more: bytes)
  {
    predicate Valid() { 0 < |first| <= COPY_LIMIT }

    /** The position behind it. */
    function End(): nat { HEADER_SIZE + |first| + |more| }

    /** `m` is a message that announces its own length and begins with this opening. */
    ghost predicate Opens(e: Endian, m: bytes)
    {
      && |m| >= End() && m[..HEADER_SIZE] == HeaderWire(e, minor, kind, |m| - HEADER_SIZE)
      && m[HEADER_SIZE..End()] == first + more
    }
  }

  /** Such a message is one that the receiver's message reader takes off the stream. */
  lemma OpenedIsFramed(o: Opening, e: Endian, m: bytes)
    requires o.Opens(e, m)
    ensures m == GiopInput.Framed(GiopInput.Sent(o.minor, o.kind, false, e, m[HEADER_SIZE..]))
  {
    Wire.PlainHeader(GiopInput.Sent(o.minor, o.kind, false, e, m[HEADER_SIZE..]));
    assert m == m[..HEADER_SIZE] + m[HEADER_SIZE..];
  }

  /** Use of a send buffer up to the point where the arguments go. */
  method Open(o: Opening, memory: Memory, order: Endian) returns (buf: OutStream)
    requires o.Valid()
    ensures fresh(buf) && fresh(buf.store) && buf.Valid() && buf.order == order
    ensures buf.lead == HEADER_SIZE && buf.minor == o.minor && buf.kind == o.kind
    ensures |buf.data| == o.End() && buf.data[HEADER_SIZE..] == o.first + o.more
  {
    hide OutStream.Valid;
    buf := new OutStream(memory, order, o.minor, o.kind, o.first);
    buf.Append(o.more);
  }

  /** The message as it goes out. */
  method Close(o: Opening, ghost start: bytes, buf: OutStream) returns (m: bytes)
    requires buf.Valid() && |buf.data| < TWO32
    requires buf.lead == HEADER_SIZE && buf.minor == o.minor && buf.kind == o.kind
    requires |start| == o.End() && start[HEADER_SIZE..] == o.first + o.more && start <= buf.data
    ensures |m| == |buf.data| && SameOn(buf.data, m, HEADER_SIZE, |m|) && o.Opens(buf.order, m)
  {
    hide OutStream.Valid, HeaderWire;
    buf.MessageIsData();
    m := buf.Message();
    assert m[HEADER_SIZE..o.End()] == start[HEADER_SIZE..o.End()];
  }

  /** A TypeCode. */
  method TransferTypeCode(tc: TypeCode, ghost env: map<nat, TypeCode>, memory: Memory, o: Opening, sender: Endian, host: Endian, m: TypeCodeCodec.Model)
    returns (msg: bytes, r: TypeCodeCodec.Dec<TypeCode>)
    requires o.Valid() && Shaped(tc) && Shared(tc, env)
    requires TypeCodeCodec.TcEnd(tc, TypeCodeCodec.Spot(o.End(), map[])).pos < TypeCodeRoundTrip.Limit(m)
    ensures o.Opens(sender, msg)
    ensures r.Done? <==> m.ILP32? || TypeCodeRoundTrip.Local(tc, {}, {})
    ensures r.Done? ==> Erase(r.value) == Erase(tc) && Equal(tc, r.value) && r.rest.cur == r.rest.end
    ensures !r.Done? ==> r.Aborted?
  {
    hide OutStream.Valid, HeaderWire, Shaped, Shared, TypeCodeCodec.TcEnd, TypeCodeCodec.TcWire, TypeCodeCodec.TcDec, TypeCodeRoundTrip.Local, Equal;
    var buf := Open(o, memory, sender);
    ghost var start := buf.data;
    TypeCodeEncoder.Encode(tc, buf);
    msg := Close(o, start, buf);
    TypeCodeEncoder.TcFrame(buf.data, msg, sender, tc, TypeCodeCodec.Spot(o.End(), map[]));
    var c := RecvBuf(msg, 0, o.End(), |msg|, sender, host);
    TypeCodeRoundTrip.RoundTrip(tc, env, c, m);
    r := TypeCodeCodec.Decode(c, m);
  }

  /** A value. */
  method TransferValue(tc: TypeCode, v: Values.Value, memory: Memory, o: Opening, sender: Endian, host: Endian, m: TypeCodeCodec.Model)
    returns (msg: bytes, r: Values.Dem<Values.Value>)
    requires o.Valid() && Values.Fits(tc, v) && Values.ValueEnd(tc, v, o.End()) < TypeCodeRoundTrip.Limit(m)
    ensures o.Opens(sender, msg)
    ensures r.Ok? <==> m.ILP32? || ValueRoundTrip.AllLocal(v)
    ensures r.Ok? ==> ValueRoundTrip.EraseValue(r.value) == ValueRoundTrip.EraseValue(v) && r.rest.cur == r.rest.end
    ensures !r.Ok? ==> r.Crash?
  {
    hide OutStream.Valid, HeaderWire, Values.Fits, Values.ValueEnd, Values.ValueWire, Values.ValueDec, ValueRoundTrip.AllLocal, ValueRoundTrip.EraseValue;
    var buf := Open(o, memory, sender);
    ghost var start := buf.data;
    ValueEncoder.MarshalValue(tc, v, buf);
    msg := Close(o, start, buf);
    ValueEncoder.ValueFrame(buf.data, msg, sender, tc, v, o.End());
    var c := RecvBuf(msg, 0, o.End(), |msg|, sender, host);
    ValueRoundTrip.RoundTripValue(tc, v, c, m);
    r := Values.ValueDec(tc, c, m);
  }

  /**
   A proxy: whatever bytes a process accepted as a value, from a peer of any
   kind, it can marshal in its own byte order, and a process with pointers as
   wide as its own gets the same value.
   */
  method RelayValue(tc: TypeCode, c: RecvBuf, memory: Memory, o: Opening, proxy: Endian, host: Endian, m: TypeCodeCodec.Model)
    returns (msg: bytes, r: Values.Dem<Values.Value>)
    requires o.Valid() && Shaped(tc) && Relay.Readable(c, m) && Values.ValueDec(tc, c, m).Ok?
    requires Values.ValueEnd(tc, Values.ValueDec(tc, c, m).value, o.End()) < TypeCodeRoundTrip.Limit(m)
    ensures o.Opens(proxy, msg)
    ensures r.Ok? && ValueRoundTrip.EraseValue(r.value) == ValueRoundTrip.EraseValue(Values.ValueDec(tc, c, m).value)
    ensures r.rest.cur == r.rest.end
  {
    hide OutStream.Valid, HeaderWire, Values.Fits, Values.ValueEnd, Values.ValueWire, Values.ValueDec, ValueRoundTrip.AllLocal, ValueRoundTrip.EraseValue;
    Relay.AcceptedFits(tc, c, m);
    msg, r := TransferValue(tc, Values.ValueDec(tc, c, m).value, memory, o, proxy, host, m);
  }

  /** An object reference, with the key synchronisation at the end. */
  method TransferReference(x: Ior.Reference, key: bytes, memory: Memory, o: Opening, sender: Endian, host: Endian)
    returns (msg: bytes, ok: bool, y: Ior.Reference, objkey: Option<bytes>)
    requires o.Valid() && IorRoundTrip.GoodReference(x) && Ior.RefEnd(x, key, o.End()) < TWO32
    ensures o.Opens(sender, msg)
    ensures ok && (y.NilRef? <==> x.NilRef?)
    ensures x.Ref? ==> y.typeId == x.typeId && |y.profiles| == |x.profiles|
    ensures x.Ref? ==> forall i :: 0 <= i < |x.profiles| ==> (y.profiles[i] == x.profiles[i] <==> IorRoundTrip.Restorable(x.profiles[i], key))
    ensures x.Ref? ==> (objkey == Some(key) <==> exists i :: 0 <= i < |x.profiles| && IorRoundTrip.Keyed(x.profiles[i]))
  {
    hide OutStream.Valid, HeaderWire, IorRoundTrip.GoodReference, Ior.RefEnd, Ior.RefWire, Ior.RefDec, IorRoundTrip.Restorable, IorRoundTrip.Keyed,
         IorRoundTrip.Stripped, IorRoundTrip.ReceivedProfile;
    var buf := Open(o, memory, sender);
    ghost var start := buf.data;
    IorEncoder.RefMarshal(x, key, buf);
    msg := Close(o, start, buf);
    IorEncoder.RefFrame(buf.data, msg, sender, x, key, o.End());
    var c := RecvBuf(msg, 0, o.End(), |msg|, sender, host);
    IorRoundTrip.RefDecodes(x, key, c);
    var r := Ior.RefDec(c);
    ok, y, objkey := true, r.value, None;
    if y.Ref? {
      var out;
      objkey, out := IorRoundTrip.SyncObjKey(y.profiles);
      forall i | 0 <= i < |x.profiles| ensures out[i] == x.profiles[i] <==> IorRoundTrip.Restorable(x.profiles[i], key) {
        IorRoundTrip.ProfileRestored(x.profiles[i], key);
      }
      IorRoundTrip.KeyRestored(x.profiles, key);
      y := Ior.Ref(y.typeId, out);
    }
  }
}
