/**
 Incoming GIOP: the header and body reader, which takes whatever pieces the
 socket delivers, and the reassembly of interleaved fragments. `Run` says what
 a byte stream means, message by message; GiopConnection is the reader.
 */
module GiopInput {
  import opened Cdr
  import opened Giop

  datatype Header = Header(minor: byte, kind: byte, more: bool, order: Endian, size: nat)

  datatype Checked = Fine(header: Header) | Refused

  /** What giop_recv_buffer_demarshal leaves: the request id and the cursor, as an offset from message_body. */
  datatype Decoded = Fields(id: nat, cur: nat) | BadFields

  /**
   A GIOPRecvBuffer with its message: `body` is message_body from offset 12 to
   `end`, and `size` is msg.header.message_size, which a fragment set's head
   uses to total the set.
   */
  datatype Msg = Msg(header: Header, size: nat, body: bytes, id: nat, cur: nat) {
    /** end - cur; a decoder that aligned past the end leaves it negative. */
    function Left(): int { HEADER_SIZE + |body| - cur }

    function Payload(): bytes
      requires cur >= HEADER_SIZE && Left() >= 0
    {
      body[cur - HEADER_SIZE..]
    }
  }

  /** Undefined: the program stopped on an assertion or wrote out of bounds. */
  datatype Status = Up | Down | Undefined

  /** A connection: its fragment sets, newest first, and the messages handed on. */
  datatype Cnx = Cnx(status: Status, frags: seq<seq<Msg>>, log: seq<Msg>)

  /** What the reader does not decide itself. */
  datatype Rules = Rules(
    host: Endian,
    isAuth: bool,
    limit: nat,
    decode: (Header, bytes) -> Decoded,
    /** handle_reply's verdict on a reply, after the messages so far. */
    bogus: (seq<Msg>, Msg) -> bool)

  // ------------------------------------------------------------ one message

  /** giop_recv_msg_reading_body. */
  function CheckHeader(r: Rules, h: bytes): (c: Checked)
    requires |h| == HEADER_SIZE
    ensures c.Fine? ==> c.header.kind <= FRAGMENT && c.header.minor <= 2 && (r.isAuth || c.header.size <= r.limit)
  {
    if h[..4] != MAGIC then Refused
    else if h[7] > FRAGMENT then Refused
    else if h[4] != 1 || h[5] > 2 then Refused
    else
      var size := Fetch(r.host, FlagOf(h[6]), h[8..]);
      if !r.isAuth && size > r.limit then Refused
      else Fine(Header(h[5], h[7], h[6] / 2 % 2 == 1, FlagOf(h[6]), size))
  }

  /** giop_recv_buffer_demarshal: three kinds have no decoder. */
  function Demarshal(r: Rules, h: Header, body: bytes): Decoded
  {
    if h.kind == CLOSECONNECTION || h.kind == MESSAGEERROR || h.kind == FRAGMENT then Fields(0, HEADER_SIZE)
    else
      match r.decode(h, body)
      case BadFields => BadFields
      case Fields(id, cur) => if cur < HEADER_SIZE then BadFields else Fields(id, cur)
  }

  /** The switch at the end of giop_connection_handle_input. */
  function Dispatch(r: Rules, c: Cnx, m: Msg): Cnx
  {
    var k := m.header.kind;
    if k == REPLY || k == LOCATEREPLY then
      Cnx(if r.bogus(c.log, m) then Down else Up, c.frags, c.log + [m])
    else if k == CLOSECONNECTION then Cnx(Down, c.frags, c.log + [m])
    else if k >= FRAGMENT then Cnx(Down, c.frags, c.log)
    else Cnx(Up, c.frags, c.log + [m])
  }

  /** A body of `size` bytes has arrived behind its header. */
  function Receive(r: Rules, c: Cnx, h: Header, body: bytes): Cnx
  {
    match Demarshal(r, h, body)
    case BadFields => Cnx(Down, c.frags, c.log)
    case Fields(id, cur) =>
      var m := Msg(h, h.size, body, id, cur);
      if h.more || h.kind == FRAGMENT then
        match Fragmented(r, c.frags, m)
        case Bad => Cnx(Down, c.frags, c.log)
        case Broken => Cnx(Undefined, c.frags, c.log)
        case Kept(frags) => Cnx(Up, frags, c.log)
        case Complete(frags, whole) => Dispatch(r, Cnx(Up, frags, c.log), whole)
      else Dispatch(r, c, m)
  }

  /** A zero-length body is never read, so its message is handed on undecoded. */
  function ReceiveEmpty(r: Rules, c: Cnx, h: Header): Cnx
  {
    Dispatch(r, c, Msg(h, 0, [], 0, HEADER_SIZE))
  }

  // ------------------------------------------------------------ fragments

  datatype Joined = Bad | Broken | Kept(frags: seq<seq<Msg>>) | Complete(rest: seq<seq<Msg>>, whole: Msg)

  datatype Keyed = Key(id: nat, m: Msg) | NoKey

  /** The message id of a piece; a FRAGMENT of GIOP 1.2 carries it in front of its payload. */
  function KeyOf(host: Endian, m: Msg): (k: Keyed)
    ensures k.Key? ==> k.m.header == m.header && k.m.body == m.body && k.m.size == m.size
  {
    var kind := m.header.kind;
    if kind == REPLY || kind == LOCATEREPLY || kind == REQUEST || kind == LOCATEREQUEST then Key(m.id, m)
    else if kind == FRAGMENT then
      if m.header.minor == 1 then Key(0, m)
      else
        var a := Align(m.cur, 4);
        if m.cur < HEADER_SIZE || a + 4 > HEADER_SIZE + |m.body| then NoKey
        else Key(Fetch(host, m.header.order, m.body[a - HEADER_SIZE..a - HEADER_SIZE + 4]),
                 Msg(m.header, m.size, m.body, m.id, a + 4))
    else NoKey
  }

  /** Whatever the byte orders are, the receiver of a FRAGMENT finds the id and the payload that its sender put there. */
  lemma FragmentKey(host: Endian, h: Header, id: nat, payload: bytes)
    requires h.kind == FRAGMENT && h.minor != 1 && id < TWO32
    ensures var b := Store(h.order, 4, id) + payload;
            var k := KeyOf(host, Msg(h, |b|, b, 0, HEADER_SIZE));
            k == Key(id, Msg(h, |b|, b, 0, HEADER_SIZE + 4)) && k.m.Payload() == payload
  {
    hide Fetch, Store, Pow256, Align;
    PowerValues();
    FetchStore(host, h.order, 4, id);
    var b := Store(h.order, 4, id) + payload;
    assert b[..4] == b[0..4] == Store(h.order, 4, id);
    assert Align(HEADER_SIZE, 4) == HEADER_SIZE;
    assert Msg(h, |b|, b, 0, HEADER_SIZE + 4).Payload() == payload;
  }

  /** giop_recv_buffer_get_request_id. */
  function RequestId(m: Msg): nat
  {
    if m.header.kind == CLOSECONNECTION || m.header.kind == MESSAGEERROR || m.header.kind == FRAGMENT then 0 else m.id
  }

  /** giop_connection_get_frag: the index of the set to join, or |frags|. */
  function GetFrag(frags: seq<seq<Msg>>, id: nat, firstIfNone: bool): (k: nat)
    ensures k <= |frags|
  {
    var k := FirstWith(frags, id);
    if k == |frags| && firstIfNone then 0 else k
  }

  function FirstWith(frags: seq<seq<Msg>>, id: nat): (k: nat)
    ensures k <= |frags|
    ensures k < |frags| ==> frags[k] != [] && RequestId(frags[k][0]) == id
    ensures forall j :: 0 <= j < k ==> frags[j] == [] || RequestId(frags[j][0]) != id
  {
    if frags == [] then 0
    else if frags[0] != [] && RequestId(frags[0][0]) == id then 0
    else 1 + FirstWith(frags[1..], id)
  }

  /**
   giop_recv_buffer_handle_fragmented. The size check frees the set, and a last
   piece is then collated into the freed memory.
   */
  function Fragmented(r: Rules, frags: seq<seq<Msg>>, piece: Msg): Joined
  {
    match KeyOf(r.host, piece)
    case NoKey => Bad
    case Key(id, m) =>
      var k := GetFrag(frags, id, m.header.minor == 1);
      if k == |frags| then
        if m.header.more then Kept([[m]] + frags) else Bad
      else if frags[k] == [] || frags[k][0].header.kind == FRAGMENT then Broken
      else
        var list := Join(frags[k], m);
        var exceeded := !r.isAuth && m.size > r.limit;
        if m.header.more then
          if exceeded then Bad else Kept(frags[k := list])
        else if exceeded || !Fits(list) then Broken
        else Complete(frags[..k] + frags[k + 1..], Concat(list))
  }

  /** The same rules without any size limit. */
  function Unlimited(r: Rules): Rules
  {
    Rules(r.host, true, r.limit, r.decode, r.bogus)
  }

  /** Behind the header check, the size check of the reassembly never strikes: it could be left out. */
  lemma SecondCheckNeverFails(r: Rules, c: Cnx, header: bytes, body: bytes)
    requires |header| == HEADER_SIZE && CheckHeader(r, header).Fine? && |body| == CheckHeader(r, header).header.size
    ensures Receive(r, c, CheckHeader(r, header).header, body) == Receive(Unlimited(r), c, CheckHeader(r, header).header, body)
  {
    hide CheckHeader, KeyOf, GetFrag, Join, Fits, Concat;
    var h := CheckHeader(r, header).header;
    match Demarshal(r, h, body)
    case BadFields =>
    case Fields(id, cur) => SameWithoutLimit(r, c.frags, Msg(h, h.size, body, id, cur));
  }

  lemma SameWithoutLimit(r: Rules, frags: seq<seq<Msg>>, m: Msg)
    requires r.isAuth || m.size <= r.limit
    ensures Fragmented(r, frags, m) == Fragmented(Unlimited(r), frags, m)
  {
    hide GetFrag, Join, Fits, Concat;
  }

  /** Append a piece and total it on the head. */
  function Join(list: seq<Msg>, m: Msg): (r: seq<Msg>)
    requires list != []
    ensures |r| == |list| + 1
  {
    var head := list[0];
    [Msg(head.header, (head.size + m.Left()) % TWO32, head.body, head.id, head.cur)] + list[1..] + [m]
  }

  /** The length of the message that a set makes up. */
  function Total(list: seq<Msg>): int
    requires list != []
  {
    if |list| == 1 then |list[0].body| else Total(list[..|list| - 1]) + list[|list| - 1].Left()
  }

  predicate InBounds(list: seq<Msg>)
  {
    forall i :: 1 <= i < |list| ==> list[i].cur >= HEADER_SIZE && list[i].Left() >= 0
  }

  /** concat_frags stays inside the block it allocates. */
  predicate Fits(list: seq<Msg>)
    requires list != []
  {
    InBounds(list) && list[0].cur >= HEADER_SIZE && Total(list) <= list[0].size + list[0].cur - HEADER_SIZE
  }

  /** The head's bytes, then the payloads in arrival order. */
  function WholeBody(list: seq<Msg>): (b: bytes)
    requires list != [] && InBounds(list)
    ensures |b| == Total(list)
  {
    if |list| == 1 then list[0].body
    else WholeBody(list[..|list| - 1]) + list[|list| - 1].Payload()
  }

  function Concat(list: seq<Msg>): Msg
    requires list != [] && Fits(list)
  {
    Msg(list[0].header, list[0].size, WholeBody(list), list[0].id, list[0].cur)
  }

  /**
   concat_frags: the head's block grows to the total kept on the head plus what
   was decoded of the head, and the payloads are copied behind the head's own.
   */
  method ConcatFrags(list: seq<Msg>) returns (block: array<byte>, end: nat)
    requires list != [] && Fits(list)
    ensures end == Total(list) <= block.Length && block[..end] == WholeBody(list)
    ensures fresh(block)
  {
    hide Total, WholeBody, Fits, InBounds;
    var head := list[0];
    Start(list);
    block := new byte[head.size + head.cur - HEADER_SIZE];
    Memcpy(block, 0, head.body);
    end := |head.body|;
    var k := 1;
    while k < |list|
      invariant 1 <= k <= |list| && InBounds(list[..k])
      invariant end == Total(list[..k]) <= block.Length && block[..end] == WholeBody(list[..k])
    {
      NextPiece(list, k);
      var payload := list[k].Payload();
      Memcpy(block, end, payload);
      end := end + |payload|;
      k := k + 1;
    }
    assert list[..k] == list;
  }

  method Memcpy(a: array<byte>, at: nat, b: bytes)
    requires at + |b| <= a.Length
    modifies a
    ensures a[..at + |b|] == old(a[..at]) + b
  {
    forall i | 0 <= i < |b| { a[at + i] := b[i]; }
  }

  lemma Start(list: seq<Msg>)
    requires list != [] && Fits(list)
    ensures InBounds(list[..1]) && Total(list[..1]) == |list[0].body| && WholeBody(list[..1]) == list[0].body
    ensures |list[0].body| <= list[0].size + list[0].cur - HEADER_SIZE
  {
    TotalGrows(list, 1);
  }

  lemma NextPiece(list: seq<Msg>, k: nat)
    requires list != [] && Fits(list) && 1 <= k < |list|
    ensures InBounds(list[..k]) && InBounds(list[..k + 1])
    ensures list[k].cur >= HEADER_SIZE && list[k].Left() == |list[k].Payload()|
    ensures Total(list[..k + 1]) == Total(list[..k]) + list[k].Left() <= list[0].size + list[0].cur - HEADER_SIZE
    ensures WholeBody(list[..k + 1]) == WholeBody(list[..k]) + list[k].Payload()
  {
    assert list[..k + 1][..k] == list[..k];
    TotalGrows(list, k + 1);
  }

  lemma {:induction false} TotalGrows(list: seq<Msg>, k: nat)
    requires 1 <= k <= |list| && InBounds(list)
    ensures Total(list[..k]) <= Total(list)
    decreases |list|
  {
    if k < |list| {
      var short := list[..|list| - 1];
      TotalGrows(short, k);
      assert short[..k] == list[..k];
    } else {
      assert list[..k] == list;
    }
  }

  // ------------------------------------------------------------ a byte stream

  /** The connection after all whole messages of `s`, and the bytes still waiting for their message. */
  datatype Outcome = Outcome(cnx: Cnx, pending: bytes)

  /** One message at a time, while the connection is up. */
  function Run(r: Rules, c: Cnx, s: bytes): Outcome
    decreases |s|
  {
    if !c.status.Up? || |s| < HEADER_SIZE then Outcome(c, s)
    else
      match CheckHeader(r, s[..HEADER_SIZE])
      case Refused => Outcome(Cnx(Down, c.frags, c.log), s[HEADER_SIZE..])
      case Fine(h) =>
        if h.size == 0 then Run(r, ReceiveEmpty(r, c, h), s[HEADER_SIZE..])
        else if |s| < HEADER_SIZE + h.size then Outcome(c, s)
        else
          var end := HEADER_SIZE + h.size;
          Run(r, Receive(r, c, h, s[HEADER_SIZE..end]), s[end..])
  }

  /** What waits is the end of the stream, byte for byte. */
  lemma {:induction false} PendingIsTail(r: Rules, c: Cnx, s: bytes)
    ensures var p := Run(r, c, s).pending; |p| <= |s| && s[|s| - |p|..] == p
    decreases |s|
  {
    hide Receive, ReceiveEmpty, CheckHeader;
    if c.status.Up? && |s| >= HEADER_SIZE && CheckHeader(r, s[..HEADER_SIZE]).Fine? {
      var h := CheckHeader(r, s[..HEADER_SIZE]).header;
      if h.size == 0 {
        PendingIsTail(r, ReceiveEmpty(r, c, h), s[HEADER_SIZE..]);
      } else if |s| >= HEADER_SIZE + h.size {
        var end := HEADER_SIZE + h.size;
        PendingIsTail(r, Receive(r, c, h, s[HEADER_SIZE..end]), s[end..]);
      }
    }
  }

  /** A header in the making, or a body in the making: nothing happens yet. */
  lemma RunWaits(r: Rules, c: Cnx, s: bytes)
    requires !c.status.Up? || |s| < HEADER_SIZE ||
             (CheckHeader(r, s[..HEADER_SIZE]).Fine? && |s| < HEADER_SIZE + CheckHeader(r, s[..HEADER_SIZE]).header.size)
    ensures Run(r, c, s) == Outcome(c, s)
  {
  }

  lemma RunHeader(r: Rules, c: Cnx, s: bytes)
    requires c.status.Up? && |s| == HEADER_SIZE
    ensures CheckHeader(r, s).Refused? ==> Run(r, c, s) == Outcome(Cnx(Down, c.frags, c.log), [])
    ensures CheckHeader(r, s).Fine? && CheckHeader(r, s).header.size == 0 ==>
              Run(r, c, s) == Outcome(ReceiveEmpty(r, c, CheckHeader(r, s).header), [])
  {
    assert s[..HEADER_SIZE] == s && s[HEADER_SIZE..] == [];
  }

  lemma RunBody(r: Rules, c: Cnx, s: bytes, h: Header)
    requires c.status.Up? && |s| == HEADER_SIZE + h.size && h.size > 0 && CheckHeader(r, s[..HEADER_SIZE]) == Fine(h)
    ensures Run(r, c, s) == Outcome(Receive(r, c, h, s[HEADER_SIZE..]), [])
  {
    hide CheckHeader, Receive;
    assert s[|s|..] == [] && s[HEADER_SIZE..|s|] == s[HEADER_SIZE..];
  }

  /** Reading on from where a stream stopped is reading the longer stream. */
  lemma {:induction false} RunAppend(r: Rules, c: Cnx, a: bytes, b: bytes)
    ensures var o := Run(r, c, a); Run(r, c, a + b) == Run(r, o.cnx, o.pending + b)
    decreases |a|
  {
    hide Receive, ReceiveEmpty, CheckHeader;
    var s := a + b;
    if c.status.Up? && |a| >= HEADER_SIZE {
      assert s[..HEADER_SIZE] == a[..HEADER_SIZE];
      assert s[HEADER_SIZE..] == a[HEADER_SIZE..] + b;
      if CheckHeader(r, a[..HEADER_SIZE]).Fine? {
        var h := CheckHeader(r, a[..HEADER_SIZE]).header;
        var end := HEADER_SIZE + h.size;
        if h.size == 0 {
          RunAppend(r, ReceiveEmpty(r, c, h), a[HEADER_SIZE..], b);
        } else if |a| >= end {
          assert s[HEADER_SIZE..end] == a[HEADER_SIZE..end] && s[end..] == a[end..] + b;
          RunAppend(r, Receive(r, c, h, a[HEADER_SIZE..end]), a[end..], b);
        }
      }
    }
  }

  ghost function Flatten(chunks: seq<bytes>): bytes
  {
    if chunks == [] then [] else Flatten(chunks[..|chunks| - 1]) + chunks[|chunks| - 1]
  }

  /** Reading chunk by chunk, keeping what is left over each time. */
  ghost function RunChunks(r: Rules, c: Cnx, chunks: seq<bytes>): Outcome
  {
    if chunks == [] then Outcome(c, [])
    else
      var o := RunChunks(r, c, chunks[..|chunks| - 1]);
      Run(r, o.cnx, o.pending + chunks[|chunks| - 1])
  }

  /** How the stream is cut into reads does not matter: messages, leftover and point of failure. */
  lemma {:induction false} ChunkingInvariance(r: Rules, c: Cnx, chunks: seq<bytes>)
    ensures RunChunks(r, c, chunks) == Run(r, c, Flatten(chunks))
  {
    if chunks != [] {
      ChunkingInvariance(r, c, chunks[..|chunks| - 1]);
      RunAppend(r, c, Flatten(chunks[..|chunks| - 1]), chunks[|chunks| - 1]);
    }
  }

  /** A message, or a piece of one, as a sender frames it. */
  datatype Sent = Sent(minor: byte, kind: byte, more: bool, order: Endian, body: bytes)

  predicate Sendable(r: Rules, m: Sent)
  {
    m.minor <= 2 && m.kind <= FRAGMENT && |m.body| < TWO32 && (r.isAuth || |m.body| <= r.limit)
  }

  function SentHeader(m: Sent): (h: bytes)
    ensures |h| == HEADER_SIZE
  {
    MAGIC + [1, m.minor, FlagByte(m.order) + (if m.more then 2 else 0), m.kind] + Store(m.order, 4, |m.body|)
  }

  function Framed(m: Sent): bytes
  {
    SentHeader(m) + m.body
  }

  function HeaderFor(m: Sent): Header
  {
    Header(m.minor, m.kind, m.more, m.order, |m.body|)
  }

  /** The receiver reads back the header that the sender wrote. */
  lemma HeaderRoundTrip(r: Rules, m: Sent)
    requires Sendable(r, m)
    ensures CheckHeader(r, SentHeader(m)) == Fine(HeaderFor(m))
  {
    hide Store, Fetch, Pow256;
    PowerValues();
    FetchStore(r.host, m.order, 4, |m.body|);
    SentOctets(m);
    FlagOctet(m.order, m.more);
  }

  /** Where the fields of a header lie. */
  lemma SentOctets(m: Sent)
    ensures var h := SentHeader(m);
            && h[..4] == MAGIC && h[4] == 1 && h[5] == m.minor && h[7] == m.kind && h[8..] == Store(m.order, 4, |m.body|)
            && h[6] == FlagByte(m.order) + (if m.more then 2 else 0)
  {
    hide Store;
  }

  lemma FlagOctet(e: Endian, more: bool)
    ensures var f := FlagByte(e) + (if more then 2 else 0); FlagOf(f) == e && (f / 2 % 2 == 1 <==> more)
  {
  }

  /** And the other way round: an accepted header is the sender's for what was read, but for unused flags. */
  lemma HeaderReadsBack(r: Rules, h: bytes)
    requires |h| == HEADER_SIZE && CheckHeader(r, h).Fine?
    ensures var x := CheckHeader(r, h).header;
            && x.minor <= 2 && x.kind <= FRAGMENT && x.size < TWO32 && (r.isAuth || x.size <= r.limit)
            && h == MAGIC + [1, x.minor, FlagByte(x.order) + (if x.more then 2 else 0) + h[6] / 4 * 4, x.kind] +
                    Store(x.order, 4, x.size)
  {
    var x := CheckHeader(r, h).header;
    StoreFetch(r.host, x.order, h[8..]);
    PowerValues();
    assert h == h[..4] + [h[4], h[5], h[6], h[7]] + h[8..];
  }

  /** What a sent message does to the connection that receives it. */
  function Delivered(r: Rules, c: Cnx, m: Sent): Cnx
  {
    if m.body == [] then ReceiveEmpty(r, c, HeaderFor(m)) else Receive(r, c, HeaderFor(m), m.body)
  }

  /** A body that its kind's decoder accepts; a message without a body has nothing to decode. */
  predicate Readable(r: Rules, m: Sent)
  {
    m.body == [] || m.kind == CLOSECONNECTION || m.kind == MESSAGEERROR ||
    (r.decode(HeaderFor(m), m.body).Fields? && r.decode(HeaderFor(m), m.body).cur >= HEADER_SIZE)
  }

  /**
   What an unfragmented message does: the connection stays up unless its body is
   damaged, it asks to close the connection, or it is a reply that nobody
   expects; and it is handed on exactly if its body is not damaged. A message
   without a body is never a piece of another one, and so no FRAGMENT.
   */
  lemma WholeMessage(r: Rules, c: Cnx, m: Sent)
    requires c.status.Up? && m.kind <= FRAGMENT && (m.body == [] || (!m.more && m.kind < FRAGMENT))
    ensures var d := Delivered(r, c, m);
            && d.frags == c.frags
            && (!Readable(r, m) || m.kind == FRAGMENT ==> d.status.Down? && d.log == c.log)
            && (Readable(r, m) && m.kind != FRAGMENT ==>
                 && |d.log| == |c.log| + 1 && d.log[..|c.log|] == c.log
                 && d.log[|c.log|].header == HeaderFor(m) && d.log[|c.log|].body == m.body
                 && (m.kind in {REQUEST, CANCELREQUEST, LOCATEREQUEST, MESSAGEERROR} ==> d.status.Up?)
                 && (m.kind == CLOSECONNECTION ==> d.status.Down?)
                 && (m.kind in {REPLY, LOCATEREPLY} ==>
                      d.status == if r.bogus(c.log, d.log[|c.log|]) then Down else Up))
  {
    hide Fragmented;
  }

  /** Nothing behind a message that takes the connection down is looked at, such as one that closes it. */
  lemma NothingAfterClose(r: Rules, c: Cnx, m: Sent, rest: bytes)
    requires Sendable(r, m) && c.status.Up? && m.kind == CLOSECONNECTION && !m.more
    ensures var o := Run(r, c, Framed(m) + rest);
            o.cnx.status.Down? && o.pending == rest && |o.cnx.log| == |c.log| + 1 && o.cnx.log[|c.log|].header == HeaderFor(m)
  {
    hide Framed, Delivered, Sendable;
    SentIsReceived(r, c, m, rest);
    WholeMessage(r, c, m);
    RunWaits(r, Delivered(r, c, m), rest);
  }

  /** A framed message is received as itself, and nothing behind it is touched. */
  lemma SentIsReceived(r: Rules, c: Cnx, m: Sent, rest: bytes)
    requires Sendable(r, m) && c.status.Up?
    ensures Run(r, c, Framed(m) + rest) == Run(r, Delivered(r, c, m), rest)
  {
    hide SentHeader, CheckHeader, Receive, ReceiveEmpty;
    HeaderRoundTrip(r, m);
    var s, end := Framed(m) + rest, HEADER_SIZE + |m.body|;
    assert s[..HEADER_SIZE] == SentHeader(m);
    assert s[HEADER_SIZE..end] == m.body && s[end..] == rest;
  }

  /** incoming_msg, by its state. */
  datatype Incoming = NoMsg | ReadingHeader | ReadingBody(header: Header)

  /** GIOPConnection: the message being read lies in `wire`, header first. */
  class GiopConnection {
    const rules: Rules
    var cnx: Cnx
    /** incoming_msg and its state; `wire` is what was read of it and leftToRead what its state still wants. */
    var incoming: Incoming
    var wire: bytes
    var leftToRead: nat
    /** What the socket holds, and what was taken from it since the beginning. */
    var socket: bytes
    ghost var consumed: bytes
    /** How many bytes the reads will grant at most; a negative answer is a lost connection. */
    const answers: nat -> int
    var asked: nat

    ghost predicate Valid()
      reads this
    {
      && Run(rules, Cnx(Up, [], []), consumed) == Outcome(cnx, wire)
      && (cnx.status.Up? ==>
        match incoming
        case NoMsg => wire == []
        case ReadingHeader => |wire| + leftToRead == HEADER_SIZE && leftToRead > 0
        case ReadingBody(h) =>
          && |wire| + leftToRead == HEADER_SIZE + h.size && leftToRead > 0 && |wire| >= HEADER_SIZE
          && CheckHeader(rules, wire[..HEADER_SIZE]) == Fine(h))
      && (!cnx.status.Up? ==> wire == [])
    }

    constructor (rules: Rules, socket: bytes, answers: nat -> int)
      ensures Valid() && consumed == [] && cnx == Cnx(Up, [], []) && this.socket == socket
      ensures this.rules == rules && this.answers == answers && asked == 0
    {
      this.rules, this.socket, this.answers, consumed, asked := rules, socket, answers, [], 0;
      cnx, incoming, wire, leftToRead := Cnx(Up, [], []), NoMsg, [], 0;
    }

    /** link_connection_read: as much as is granted, wanted and there, perhaps nothing yet (0), or a lost connection. */
    method Read(max: nat) returns (n: int, b: bytes)
      requires max > 0
      modifies `socket, `consumed, `asked
      ensures asked == old(asked) + 1 && (n < 0 <==> answers(old(asked)) < 0)
      ensures n >= 0 ==> n <= max && n <= answers(old(asked)) && n <= |old(socket)| && n in {max, answers(old(asked)), |old(socket)|}
      ensures |b| == if n > 0 then n else 0
      ensures old(socket) == b + socket && consumed == old(consumed) + b
    {
      n := answers(asked);
      if n > max { n := max; }
      if n > |socket| { n := |socket|; }
      b := if n > 0 then socket[..n] else [];
      socket, consumed, asked := socket[|b|..], consumed + b, asked + 1;
    }

    /**
     giop_connection_handle_input; a lost connection says so. It goes on reading
     until a message is complete or there is nothing more to read.
     */
    method HandleInput() returns (hup: bool)
      requires Valid() && cnx.status.Up?
      modifies `cnx, `incoming, `wire, `leftToRead, `socket, `consumed, `asked
      ensures old(consumed) <= consumed && old(consumed) + old(socket) == consumed + socket
      ensures hup ==> cnx == old(cnx).(status := Down)
      ensures !hup ==> Valid()
      ensures asked > old(asked) && (hup <==> answers(asked - 1) < 0)
      ensures forall i :: old(asked) <= i < asked - 1 ==> answers(i) > 0
      ensures answers(old(asked)) > 0 && old(socket) != [] ==> |socket| < |old(socket)|
      ensures !hup ==> incoming.NoMsg? || answers(asked - 1) == 0 || socket == []
    {
      hide Run, CheckHeader;
      hup := false;
      while true
        invariant Valid() && cnx.status.Up? && cnx == old(cnx) && !hup
        invariant old(consumed) <= consumed && old(consumed) + old(socket) == consumed + socket
        invariant asked >= old(asked) && forall i :: old(asked) <= i < asked ==> answers(i) > 0
        invariant asked > old(asked) && old(socket) != [] ==> |socket| < |old(socket)|
        decreases |socket|
      {
        if incoming.NoMsg? {
          incoming, leftToRead := ReadingHeader, HEADER_SIZE;
        }
        ghost var before := consumed;
        var n, b := Read(leftToRead);
        assert b == [] ==> consumed == before;
        if n == 0 { return; }
        if n < 0 {
          incoming, cnx := NoMsg, Cnx(Down, cnx.frags, cnx.log);
          return true;
        }
        var done := Take(before, b);
        if done { return; }
      }
    }

    /**
     The main loop: as long as the reads grant anything, every byte on the socket
     is handled, up to the point where the connection fails.
     */
    method Drain()
      requires Valid() && forall i :: i >= asked ==> answers(i) > 0
      modifies `cnx, `incoming, `wire, `leftToRead, `socket, `consumed, `asked
      ensures Valid() && (cnx.status.Up? ==> socket == [])
      ensures cnx == Run(rules, Cnx(Up, [], []), old(consumed) + old(socket)).cnx
    {
      hide Run;
      while cnx.status.Up? && socket != []
        invariant Valid() && consumed + socket == old(consumed) + old(socket)
        invariant forall i :: i >= asked ==> answers(i) > 0
        decreases |socket|
      {
        var hup := HandleInput();
      }
      RunAppend(rules, Cnx(Up, [], []), consumed, socket);
      if cnx.status.Up? {
        assert consumed + socket == consumed;
      } else {
        RunWaits(rules, cnx, wire + socket);
      }
    }

    /** One read of `b` has happened. */
    method Take(ghost before: bytes, b: bytes) returns (done: bool)
      requires cnx.status.Up? && !incoming.NoMsg? && consumed == before + b && 0 < |b| <= leftToRead
      requires Run(rules, Cnx(Up, [], []), before) == Outcome(cnx, wire)
      requires incoming.ReadingHeader? ==> |wire| + leftToRead == HEADER_SIZE
      requires incoming.ReadingBody? ==> |wire| + leftToRead == HEADER_SIZE + incoming.header.size && |wire| >= HEADER_SIZE &&
                                         CheckHeader(rules, wire[..HEADER_SIZE]) == Fine(incoming.header)
      modifies `cnx, `incoming, `wire, `leftToRead
      ensures Valid()
      ensures if done then incoming.NoMsg? else cnx == old(cnx)
    {
      hide Run, CheckHeader;
      RunAppend(rules, Cnx(Up, [], []), before, b);
      assert incoming.ReadingBody? ==> (wire + b)[..HEADER_SIZE] == wire[..HEADER_SIZE];
      wire, leftToRead := wire + b, leftToRead - |b|;
      done := false;
      if leftToRead == 0 {
        done := Progress();
      } else {
        RunWaits(rules, cnx, wire);
      }
    }

    /** The switch on the state when a read completed a header or a body. */
    method Progress() returns (done: bool)
      requires cnx.status.Up? && leftToRead == 0
      requires Run(rules, Cnx(Up, [], []), consumed) == Run(rules, cnx, wire)
      requires incoming.ReadingHeader? ==> |wire| == HEADER_SIZE
      requires incoming.ReadingBody? ==> |wire| == HEADER_SIZE + incoming.header.size && incoming.header.size > 0 &&
                                         CheckHeader(rules, wire[..HEADER_SIZE]) == Fine(incoming.header)
      requires !incoming.NoMsg?
      modifies `cnx, `incoming, `wire, `leftToRead
      ensures Valid()
      ensures if done then incoming.NoMsg? else cnx == old(cnx)
    {
      hide Run, CheckHeader, Receive, ReceiveEmpty;
      done := true;
      if incoming.ReadingHeader? {
        assert wire[..HEADER_SIZE] == wire;
        RunHeader(rules, cnx, wire);
        var c := CheckHeader(rules, wire);
        if c.Refused? {
          incoming, wire, cnx := NoMsg, [], Cnx(Down, cnx.frags, cnx.log);
        } else if c.header.size == 0 {
          incoming, wire, cnx := NoMsg, [], ReceiveEmpty(rules, cnx, c.header);
        } else {
          RunWaits(rules, cnx, wire);
          incoming, leftToRead, done := ReadingBody(c.header), c.header.size, false;
        }
      } else {
        RunBody(rules, cnx, wire, incoming.header);
        incoming, wire, cnx := NoMsg, [], Receive(rules, cnx, incoming.header, wire[HEADER_SIZE..]);
      }
    }
  }
}
