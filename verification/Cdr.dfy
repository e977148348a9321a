/**
 The byte level shared by every codec: machine words in either byte order,
 alignment of stream positions, and the cursor of a receive buffer.

 Positions are counted from the 8-aligned start of the message memory, so the
 encoder's `message_size + header_size` and the decoder's address agree.
 */
module Cdr {

  type byte = x: int | 0 <= x < 256
  type bytes = seq<byte>

  datatype Endian = Big | Little

  const TWO32: nat := 0x1_0000_0000

  // ------------------------------------------------------------ words

  function Pow256(w: nat): (r: nat)
    ensures r > 0
  {
    if w == 0 then 1 else 256 * Pow256(w - 1)
  }

  /** The `w` low base-256 digits of `v`, least significant first. */
  function Digits(w: nat, v: nat): (b: bytes)
    ensures |b| == w
  {
    if w == 0 then [] else [v % 256] + Digits(w - 1, v / 256)
  }

  function Number(b: bytes): (v: nat)
  {
    if b == [] then 0 else b[0] + 256 * Number(b[1..])
  }

  function Reverse(b: bytes): (r: bytes)
    ensures |r| == |b|
  {
    if b == [] then [] else Reverse(b[1..]) + [b[0]]
  }

  /** What a host of byte order `e` has in memory for the `w`-byte word `v`. */
  function Store(e: Endian, w: nat, v: nat): (b: bytes)
    ensures |b| == w
  {
    if e.Little? then Digits(w, v) else Reverse(Digits(w, v))
  }

  /** What a host of byte order `e` reads from the memory `b`. */
  function Load(e: Endian, b: bytes): nat
  {
    if e.Little? then Number(b) else Number(Reverse(b))
  }

  /** GUINT16/32/64_SWAP_LE_BE. */
  function Swap(w: nat, v: nat): nat
  {
    Number(Reverse(Digits(w, v)))
  }

  /** A native load followed by a swap when the sender's byte order differs. */
  function Fetch(host: Endian, flag: Endian, b: bytes): nat
  {
    if flag == host then Load(host, b) else Swap(|b|, Load(host, b))
  }

  lemma {:induction false} NumberDigits(w: nat, v: nat)
    requires v < Pow256(w)
    ensures Number(Digits(w, v)) == v
  {
    if w > 0 {
      assert Pow256(w) == 256 * Pow256(w - 1);
      NumberDigits(w - 1, v / 256);
      assert Digits(w, v)[1..] == Digits(w - 1, v / 256);
    }
  }

  lemma {:induction false} DigitsNumber(b: bytes)
    ensures Number(b) < Pow256(|b|) && Digits(|b|, Number(b)) == b
  {
    if b != [] {
      DigitsNumber(b[1..]);
      assert Number(b) / 256 == Number(b[1..]) && Number(b) % 256 == b[0];
    }
  }

  lemma {:induction false} ReverseAppend(a: bytes, x: byte)
    ensures Reverse(a + [x]) == [x] + Reverse(a)
  {
    if a == [] {
      assert [] + [x] == [x];
    } else {
      assert (a + [x])[1..] == a[1..] + [x];
      ReverseAppend(a[1..], x);
    }
  }

  lemma {:induction false} ReverseTwice(b: bytes)
    ensures Reverse(Reverse(b)) == b
  {
    if b != [] {
      ReverseAppend(Reverse(b[1..]), b[0]);
      ReverseTwice(b[1..]);
    }
  }

  /** Whatever the two hosts' byte orders are, the receiver gets the sender's word. */
  lemma FetchStore(host: Endian, sender: Endian, w: nat, v: nat)
    requires v < Pow256(w)
    ensures Fetch(host, sender, Store(sender, w, v)) == v
  {
    var b := Store(sender, w, v);
    NumberDigits(w, v);
    ReverseTwice(Digits(w, v));
    if host != sender {
      if host.Little? {
        DigitsNumber(b);
      } else {
        DigitsNumber(Reverse(b));
        assert Digits(w, Load(host, b)) == Reverse(b);
        ReverseTwice(b);
      }
    }
  }

  /** Conversely, what the receiver makes of any bytes is what the sender would store as them. */
  lemma StoreFetch(host: Endian, sender: Endian, b: bytes)
    ensures Fetch(host, sender, b) < Pow256(|b|) && Store(sender, |b|, Fetch(host, sender, b)) == b
  {
    DigitsNumber(b);
    DigitsNumber(Reverse(b));
    ReverseTwice(b);
  }

  lemma PowerValues()
    ensures Pow256(1) == 256 && Pow256(2) == 0x1_0000 && Pow256(4) == TWO32
    ensures Pow256(8) == TWO32 * TWO32
  {
    assert Pow256(1) == 256 * Pow256(0);
    assert Pow256(2) == 256 * Pow256(1);
    assert Pow256(3) == 256 * Pow256(2);
    assert Pow256(4) == 256 * Pow256(3);
    assert Pow256(5) == 256 * Pow256(4);
    assert Pow256(6) == 256 * Pow256(5);
    assert Pow256(7) == 256 * Pow256(6);
    assert Pow256(8) == 256 * Pow256(7);
  }

  // ------------------------------------------------------------ positions

  /** ALIGN_VALUE and ALIGN_ADDRESS for a power-of-two boundary. */
  function Align(p: nat, k: nat): (a: nat)
    requires k > 0
    ensures p <= a < p + k && a % k == 0
    ensures p % k == 0 ==> a == p
  {
    if p % k == 0 then p else AlignUp(p, k); p - p % k + k
  }

  lemma AlignUp(p: nat, k: nat)
    requires k > 0
    ensures (p - p % k + k) % k == 0 && p % k < k
  {
    var q := p / k + 1;
    assert p - p % k + k == q * k;
    Quotient(p - p % k + k, k, q, 0);
  }

  /** Division with remainder is unique. */
  lemma Quotient(m: int, k: nat, q: int, r: nat)
    requires r < k && m == q * k + r
    ensures m / k == q && m % k == r
  {
    var q2, r2 := m / k, m % k;
    var d := q - q2;
    assert d * k == r2 - r by {
      assert m == q2 * k + r2;
      assert d * k == q * k - q2 * k;
    }
    Scale(d, k);
  }

  lemma Scale(d: int, k: nat)
    ensures d >= 1 ==> d * k >= k
    ensures d <= -1 ==> d * k + k <= 0
  {
  }

  /** `data` holds the word `v`, written by a host of byte order `e`, at `p`. */
  ghost predicate WordAt(data: bytes, p: nat, e: Endian, w: nat, v: nat)
  {
    p + w <= |data| && data[p..p + w] == Store(e, w, v)
  }

  ghost predicate BytesAt(data: bytes, p: nat, b: bytes)
  {
    p + |b| <= |data| && data[p..p + |b|] == b
  }

  /** `data` and `data2` hold the same bytes in the half-open range. */
  ghost predicate SameOn(data: bytes, data2: bytes, lo: nat, hi: nat)
  {
    hi <= |data| && hi <= |data2| && forall i :: lo <= i < hi ==> data[i] == data2[i]
  }

  lemma BytesAsWord(data: bytes, p: nat, e: Endian, w: nat, v: nat)
    requires BytesAt(data, p, Store(e, w, v))
    ensures WordAt(data, p, e, w, v)
  {
  }

  lemma WordFrame(data: bytes, data2: bytes, p: nat, e: Endian, w: nat, v: nat)
    requires WordAt(data, p, e, w, v) && SameOn(data, data2, p, p + w)
    ensures WordAt(data2, p, e, w, v)
  {
    assert data2[p..p + w] == data[p..p + w];
  }

  lemma BytesFrame(data: bytes, data2: bytes, p: nat, b: bytes)
    requires BytesAt(data, p, b) && SameOn(data, data2, p, p + |b|)
    ensures BytesAt(data2, p, b)
  {
    assert data2[p..p + |b|] == data[p..p + |b|];
  }

  // ------------------------------------------------------------ receive buffers

  /**
   A GIOPRecvBuffer: `body` is where message_body points, `cur` and `end` are
   the cursor and the end, all as positions in `data`; `flag` is the byte order
   from the header flags and `host` the receiver's own.
   */
  datatype RecvBuf = RecvBuf(data: bytes, body: nat, cur: nat, end: nat, flag: Endian, host: Endian) {
    ghost predicate Valid() {
      end <= |data|
    }
  }

  datatype Read<+T> = Got(value: T, rest: RecvBuf) | Short

  /** CDR_get: align, check the bound, load, convert, advance. */
  function GetWord(c: RecvBuf, w: nat): (r: Read<nat>)
    requires c.Valid() && w > 0
    ensures r.Got? ==> r.rest == c.(cur := Align(c.cur, w) + w) && r.rest.cur <= c.end
  {
    var a := Align(c.cur, w);
    if a + w > c.end then Short
    else Got(Fetch(c.host, c.flag, c.data[a..a + w]), c.(cur := a + w))
  }

  lemma GetWordReads(c: RecvBuf, w: nat, v: nat)
    requires c.Valid() && w > 0 && v < Pow256(w)
    requires WordAt(c.data, Align(c.cur, w), c.flag, w, v) && Align(c.cur, w) + w <= c.end
    ensures GetWord(c, w) == Got(v, c.(cur := Align(c.cur, w) + w))
  {
    FetchStore(c.host, c.flag, w, v);
  }

  /** Copies `n` unaligned bytes, as memcpy/g_memdup from the cursor does. */
  function GetBytes(c: RecvBuf, n: nat): (r: Read<bytes>)
    requires c.Valid()
    ensures r.Got? ==> r.rest == c.(cur := c.cur + n) && r.rest.cur <= c.end && |r.value| == n
  {
    if c.cur + n > c.end then Short
    else Got(c.data[c.cur..c.cur + n], c.(cur := c.cur + n))
  }

  // ------------------------------------------------------------ C strings

  /** A C string's characters: no terminator inside. */
  ghost predicate CString(s: bytes)
  {
    forall i :: 0 <= i < |s| ==> s[i] != 0
  }

  /** The characters in front of the first terminator. */
  function UpToNul(b: bytes): (s: bytes)
    ensures CString(s)
  {
    if b == [] || b[0] == 0 then [] else [b[0]] + UpToNul(b[1..])
  }

  lemma {:induction false} UpToNulOf(s: bytes, rest: bytes)
    requires CString(s)
    ensures UpToNul(s + [0] + rest) == s
  {
    if s == [] {
      assert ([] + [0] + rest)[0] == 0;
    } else {
      assert (s + [0] + rest)[1..] == s[1..] + [0] + rest;
      UpToNulOf(s[1..], rest);
    }
  }

  function StringEnd(p: nat, s: bytes): (q: nat)
    ensures q > p + |s| + 4
  {
    Align(p, 4) + 4 + |s| + 1
  }

  /** CDR_put_string: length word with the terminator counted, characters, terminator. */
  ghost predicate StringWire(data: bytes, e: Endian, p: nat, s: bytes)
  {
    && WordAt(data, Align(p, 4), e, 4, |s| + 1)
    && BytesAt(data, Align(p, 4) + 4, s + [0])
  }

  lemma StringFrame(data: bytes, data2: bytes, e: Endian, p: nat, s: bytes)
    requires StringWire(data, e, p, s) && SameOn(data, data2, p, StringEnd(p, s))
    ensures StringWire(data2, e, p, s)
  {
    WordFrame(data, data2, Align(p, 4), e, 4, |s| + 1);
    BytesFrame(data, data2, Align(p, 4) + 4, s + [0]);
  }

  /** CDR_get_const_string: the copied block, read as a C string. */
  function GetString(c: RecvBuf): (r: Read<bytes>)
    requires c.Valid()
    ensures r.Got? ==> r.rest == c.(cur := r.rest.cur) && c.cur < r.rest.cur <= c.end
  {
    match GetWord(c, 4)
    case Short => Short
    case Got(len, c1) =>
      match GetBytes(c1, len)
      case Short => Short
      case Got(b, c2) => Got(UpToNul(b), c2)
  }

  lemma GetStringReads(c: RecvBuf, s: bytes)
    requires c.Valid() && CString(s)
    requires StringWire(c.data, c.flag, c.cur, s) && StringEnd(c.cur, s) <= c.end && StringEnd(c.cur, s) < TWO32
    ensures GetString(c) == Got(s, c.(cur := StringEnd(c.cur, s)))
  {
    PowerValues();
    GetWordReads(c, 4, |s| + 1);
    UpToNulOf(s, []);
    assert s + [0] + [] == s + [0];
  }

  // ------------------------------------------------------------ encapsulations

  function FlagByte(e: Endian): byte { if e.Little? then 1 else 0 }

  function FlagOf(b: byte): Endian { if b % 2 == 1 then Little else Big }

  /**
   giop_recv_buffer_use_encaps_buf: the length word is read from the outer
   buffer, which skips the contents; the inner buffer starts with its own
   byte-order octet. An empty encapsulation has no octet to read.
   */
  function UseEncaps(c: RecvBuf): (r: Read<RecvBuf>)
    requires c.Valid()
    ensures r.Got? ==> r.rest == c.(cur := r.rest.cur) && c.cur < r.rest.cur <= c.end
    ensures r.Got? ==> var i := r.value; i.data == c.data && i.host == c.host && i.Valid() &&
                                         i.cur == i.body + 1 && c.cur + 4 <= i.body && i.cur <= i.end == r.rest.cur
  {
    match GetWord(c, 4)
    case Short => Short
    case Got(len, c1) =>
      if len == 0 || c1.cur + len > c.end then Short
      else Got(RecvBuf(c.data, c1.cur, c1.cur + 1, c1.cur + len, FlagOf(c.data[c1.cur]), c.host),
               c1.(cur := c1.cur + len))
  }

  /** Wherever the cursor stands, and whatever byte order `e` the contents are in. */
  lemma UseEncapsReads(c: RecvBuf, len: nat, e: Endian)
    requires c.Valid() && 0 < len < TWO32
    requires var b := Align(c.cur, 4) + 4;
             b + len <= c.end && WordAt(c.data, b - 4, c.flag, 4, len) && c.data[b] == FlagByte(e)
    ensures var b := Align(c.cur, 4) + 4;
            UseEncaps(c) == Got(RecvBuf(c.data, b, b + 1, b + len, e, c.host), c.(cur := b + len))
  {
    PowerValues();
    GetWordReads(c, 4, len);
  }
}
