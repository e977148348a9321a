/**
 Object references as text: "IOR:", then two hex digits for every byte of an
 encapsulated reference.
 */
module HexIor {
  import opened Cdr
  import opened Common
  import opened Giop
  import opened OutStreams
  import opened SendBuffers
  import opened Ior
  import opened IorRoundTrip
  import opened IorEncoder

  /** "IOR:" */
  const PREFIX: bytes := [73, 79, 82, 58]

  function HexDigit(n: nat): byte
    requires n < 16
  {
    if n > 9 then n + 97 - 10 else n + 48
  }

  predicate IsHex(c: byte)
  {
    48 <= c <= 57 || 65 <= c <= 70 || 97 <= c <= 102
  }

  /** g_ascii_xdigit_value. */
  function HexValue(c: byte): (v: int)
    ensures -1 <= v < 16 && (v >= 0 <==> IsHex(c))
  {
    if 48 <= c <= 57 then c - 48 else if 65 <= c <= 70 then c - 55 else if 97 <= c <= 102 then c - 87 else -1
  }

  /** (hi << 4) | lo, cut to a guchar; -1 is all ones. */
  function Octet(hi: int, lo: int): byte
    requires -1 <= hi < 16 && -1 <= lo < 16
  {
    if lo == -1 then 255 else if hi == -1 then 240 + lo else 16 * hi + lo
  }

  /** Bit `k` of a number in two's complement. */
  predicate Bit(x: int, k: nat)
    decreases k
  {
    if k == 0 then x % 2 == 1 else Bit(x / 2, k - 1)
  }

  function Pow2(n: nat): nat { if n == 0 then 1 else 2 * Pow2(n - 1) }

  /** What is added above a bit does not change it, and the bits above are its own. */
  lemma {:induction false} Fields(hi: int, lo: int, n: nat, k: nat)
    ensures k < n ==> Bit(Pow2(n) * hi + lo, k) == Bit(lo, k)
    ensures k >= n && 0 <= lo < Pow2(n) ==> Bit(Pow2(n) * hi + lo, k) == Bit(hi, k - n)
    decreases n
  {
    if n > 0 {
      var x, p := Pow2(n) * hi + lo, Pow2(n - 1);
      assert x == 2 * (p * hi) + lo;
      if k > 0 {
        assert x / 2 == p * hi + lo / 2;
        Fields(hi, lo / 2, n - 1, k - 1);
      }
    }
  }

  lemma {:induction false} AllOnes(k: nat)
    ensures Bit(-1, k) && !Bit(0, k)
  {
    if k > 0 {
      AllOnes(k - 1);
    }
  }

  /** The bits of an octet are those of its digits, -1 being all ones: what (hi << 4) | lo cut to eight bits is. */
  lemma OctetIsOr(hi: int, lo: int, k: nat)
    requires -1 <= hi < 16 && -1 <= lo < 16 && k < 8
    ensures Bit(Octet(hi, lo), k) <==> (k >= 4 && Bit(hi, k - 4)) || Bit(lo, k)
  {
    assert Pow2(4) == 16 && Pow2(8) == 256 by {
      assert Pow2(1) == 2 && Pow2(2) == 4 && Pow2(3) == 8;
      assert Pow2(5) == 32 && Pow2(6) == 64 && Pow2(7) == 128;
    }
    if lo == -1 {
      Fields(1, -1, 8, k);
      AllOnes(k);
    } else {
      Fields(1, 16 * hi + lo, 8, k);
      Fields(hi, lo, 4, k);
      Fields(0, lo, 4, k);
      if k >= 4 {
        AllOnes(k - 4);
      }
    }
  }

  const LOWER: string := "0123456789abcdef"
  const UPPER: string := "0123456789ABCDEF"

  /** The digits that are printed, and that either case of a digit is read as its value. */
  lemma DigitValues(n: nat)
    requires n < 16
    ensures HexDigit(n) == LOWER[n] as int && HexValue(LOWER[n] as int) == n && HexValue(UPPER[n] as int) == n
  {
    assert LOWER[..10] == ['0', '1', '2', '3', '4', '5', '6', '7', '8', '9'] == UPPER[..10];
    assert LOWER[10..] == ['a', 'b', 'c', 'd', 'e', 'f'] && UPPER[10..] == ['A', 'B', 'C', 'D', 'E', 'F'];
  }

  function Digits2(b: bytes): (s: bytes)
    ensures |s| == 2 * |b|
    ensures forall i :: 0 <= i < |b| ==> s[2 * i] == HexDigit(b[i] / 16) && s[2 * i + 1] == HexDigit(b[i] % 16)
  {
    seq(2 * |b|, k requires 0 <= k < 2 * |b| => HexDigit(if k % 2 == 0 then b[k / 2] / 16 else b[k / 2] % 16))
  }

  /** The digit at place `k`. */
  lemma DigitAt(b: bytes, k: nat)
    requires k < 2 * |b|
    ensures Digits2(b)[k] == HexDigit(if k % 2 == 0 then b[k / 2] / 16 else b[k / 2] % 16)
  {
  }

  lemma Digits2Concat(a: bytes, b: bytes)
    ensures Digits2(a + b) == Digits2(a) + Digits2(b)
  {
    hide Digits2, HexDigit;
    forall k | 0 <= k < 2 * |a + b| ensures Digits2(a + b)[k] == (Digits2(a) + Digits2(b))[k] {
      DigitAt(a + b, k);
      if k < 2 * |a| {
        DigitAt(a, k);
      } else {
        DigitAt(b, k - 2 * |a|);
        assert (k - 2 * |a|) / 2 == k / 2 - |a|;
      }
    }
  }

  lemma Digits2One(x: byte)
    ensures Digits2([x]) == [HexDigit(x / 16), HexDigit(x % 16)]
  {
  }

  /** The inner loop of CORBA_ORB_object_to_string: the bytes that one iovec names. */
  method PrintVector(ram: Memory, vec: IoVec, out: array<byte>, k: nat)
    requires Mapped(ram, Range(vec.base, vec.len)) && k + 2 * vec.len <= out.Length
    modifies out
    ensures out[..k] == old(out[..k]) && out[k..k + 2 * vec.len] == Digits2(Gather(ram, Range(vec.base, vec.len)))
  {
    hide Digits2, HexDigit;
    ghost var b := Gather(ram, Range(vec.base, vec.len));
    var j, pos := 0, k;
    NoDigits();
    while j < vec.len
      invariant j <= vec.len && pos == k + 2 * j
      invariant out[..k] == old(out[..k]) && out[k..pos] == Digits2(b[..j])
    {
      assert Range(vec.base, vec.len)[j] == vec.base + j;
      var x := ram[vec.base + j];
      Digits2Concat(b[..j], [x]);
      Digits2One(x);
      assert b[..j] + [x] == b[..j + 1];
      ghost var done := out[k..pos];
      out[pos] := HexDigit(x / 16);
      assert out[k..pos + 1] == done + [HexDigit(x / 16)];
      out[pos + 1] := HexDigit(x % 16);
      assert out[k..pos + 2] == out[k..pos + 1] + [HexDigit(x % 16)];
      assert out[k..pos + 2] == done + [HexDigit(x / 16), HexDigit(x % 16)];
      pos := pos + 2;
      j := j + 1;
    }
    assert b[..j] == b;
  }

  lemma NoDigits()
    ensures Digits2([]) == []
  {
  }

  lemma CellsStep(v: seq<IoVec>, i: nat)
    requires i < |v|
    ensures Cells(v[..i + 1]) == Cells(v[..i]) + Range(v[i].base, v[i].len)
  {
    hide Range;
    assert v[..i + 1][..i] == v[..i];
  }

  /** One more iovec. */
  lemma NextVector(ram: Memory, v: seq<IoVec>, i: nat)
    requires i < |v| && Mapped(ram, Cells(v))
    ensures Cells(v[..i + 1]) == Cells(v[..i]) + Range(v[i].base, v[i].len) <= Cells(v)
    ensures Mapped(ram, Cells(v[..i])) && Mapped(ram, Range(v[i].base, v[i].len)) && Mapped(ram, Cells(v[..i + 1]))
    ensures Gather(ram, Cells(v[..i + 1])) == Gather(ram, Cells(v[..i])) + Gather(ram, Range(v[i].base, v[i].len))
  {
    hide Range, Gather, Cells;
    CellsStep(v, i);
    CellsPrefix(v, i + 1);
    assert Mapped(ram, Cells(v[..i + 1]));
    SplitGather(ram, Cells(v[..i]), Range(v[i].base, v[i].len));
  }

  /** The outer loop: the buffer's contents as text. */
  method Print(store: SendBuffer) returns (out: array<byte>)
    requires store.Valid() && store.headerSize == 0 && |store.Contents()| < TWO32
    ensures fresh(out) && out[..] == PREFIX + Digits2(store.Contents()) + [0]
  {
    hide Digits2, Gather, Cells, Range, HeaderWire, SendBuffer.Valid, SendBuffer.Body, HexDigit, Mapped;
    var vecs, ram := store.iovecs, store.ram;
    AllMapped(store);
    out := new byte[4 + 2 * store.messageSize + 1];
    out[0], out[1], out[2], out[3] := PREFIX[0], PREFIX[1], PREFIX[2], PREFIX[3];
    assert out[..4] == PREFIX;
    var i, k := 0, 4;
    Nothing(ram, vecs);
    while i < |vecs|
      invariant i <= |vecs| && Cells(vecs[..i]) <= Cells(vecs)
      invariant Mapped(ram, Cells(vecs[..i])) && k == 4 + 2 * |Cells(vecs[..i])|
      invariant out[..k] == PREFIX + Digits2(Gather(ram, Cells(vecs[..i])))
    {
      NextVector(ram, vecs, i);
      ghost var done := out[..k];
      PrintVector(ram, vecs[i], out, k);
      assert out[..k + 2 * vecs[i].len] == done + out[k..k + 2 * vecs[i].len];
      Digits2Concat(Gather(ram, Cells(vecs[..i])), Gather(ram, Range(vecs[i].base, vecs[i].len)));
      k := k + 2 * vecs[i].len;
      i := i + 1;
    }
    assert vecs[..i] == vecs;
    out[k] := 0;
    assert out[..] == out[..k] + [0];
  }

  lemma Nothing(ram: Memory, v: seq<IoVec>)
    ensures Cells(v[..0]) == [] && Mapped(ram, []) && Digits2(Gather(ram, [])) == []
  {
  }

  /** message_size counts the bytes to print, which are all in memory. */
  lemma AllMapped(store: SendBuffer)
    requires store.Valid() && store.headerSize == 0 && |store.Contents()| < TWO32
    ensures Mapped(store.ram, Cells(store.iovecs)) && store.messageSize == |Cells(store.iovecs)|
    ensures store.Contents() == Gather(store.ram, Cells(store.iovecs))
  {
    hide Gather, Cells, HeaderWire, Space.Layout, Space.Settled;
    store.Room().Bounds(store.ram.Keys, Cells(store.iovecs));
    store.HeaderThenBody();
  }

  datatype Parsed = Octets(b: bytes) | Odd

  /** The characters up to the last hex digit. */
  function Trim(s: bytes): (t: bytes)
    ensures t <= s && (t != [] ==> IsHex(t[|t| - 1]))
  {
    if s == [] || IsHex(s[|s| - 1]) then s else Trim(s[..|s| - 1])
  }

  /** Pairs of characters to bytes. */
  function Pairs(s: bytes): (b: bytes)
    requires |s| % 2 == 0
    ensures |b| == |s| / 2
    ensures forall i :: 0 <= i < |b| ==> b[i] == Octet(HexValue(s[2 * i]), HexValue(s[2 * i + 1]))
  {
    seq(|s| / 2, i requires 0 <= i < |s| / 2 => Octet(HexValue(s[2 * i]), HexValue(s[2 * i + 1])))
  }

  /** The loops of CORBA_ORB_string_to_object behind the prefix; `s` has no terminator. */
  method Parse(s: bytes) returns (p: Parsed)
    ensures p == if |Trim(s)| % 2 == 1 then Odd else Octets(Pairs(Trim(s)))
  {
    hide Trim, Pairs;
    var len := LastDigit(s);
    if len % 2 == 1 {
      return Odd;
    }
    var tmp := PairUp(s[..len]);
    p := Octets(tmp);
  }

  /** Trailing characters that are no digits are cut off. */
  method LastDigit(s: bytes) returns (len: nat)
    ensures len <= |s| && Trim(s) == s[..len]
  {
    hide IsHex;
    len := |s|;
    assert s[..len] == s;
    while len > 0 && !IsHex(s[len - 1])
      invariant len <= |s| && Trim(s) == Trim(s[..len])
    {
      assert s[..len][..len - 1] == s[..len - 1];
      len := len - 1;
    }
  }

  method PairUp(s: bytes) returns (b: bytes)
    requires |s| % 2 == 0
    ensures b == Pairs(s)
  {
    hide Octet, HexValue, Pairs;
    var tmp := new byte[|s| / 2];
    ghost var all := Pairs(s);
    var i, j := 0, 0;
    while i < |s|
      invariant i == 2 * j <= |s|
      invariant tmp[..j] == all[..j]
    {
      tmp[j] := Octet(HexValue(s[i]), HexValue(s[i + 1]));
      assert tmp[..j + 1] == tmp[..j] + [all[j]];
      i, j := i + 2, j + 1;
    }
    b := tmp[..];
    assert tmp[..] == tmp[..j] && all[..j] == all;
  }

  /** Trailing characters that are no digits, such as a newline, do no harm. */
  lemma {:induction false} TrimJunk(s: bytes, junk: bytes)
    requires (s == [] || IsHex(s[|s| - 1])) && forall i :: 0 <= i < |junk| ==> !IsHex(junk[i])
    ensures Trim(s + junk) == s
  {
    if junk != [] {
      assert (s + junk)[..|s + junk| - 1] == s + junk[..|junk| - 1];
      TrimJunk(s, junk[..|junk| - 1]);
    } else {
      assert s + junk == s;
    }
  }

  lemma HexRoundTrip(b: bytes, junk: bytes)
    requires forall i :: 0 <= i < |junk| ==> !IsHex(junk[i])
    ensures |Trim(Digits2(b) + junk)| % 2 == 0 && Pairs(Trim(Digits2(b) + junk)) == b
  {
    hide HexValue, Octet, Digits2, Pairs;
    var s := Digits2(b);
    assert b != [] ==> s[|s| - 1] == HexDigit(b[|b| - 1] % 16) by {
      if b != [] {
        assert |s| - 1 == 2 * (|b| - 1) + 1;
      }
    }
    TrimJunk(s, junk);
    PairsOfDigits(b);
  }

  lemma OctetOfDigits(x: byte)
    ensures Octet(HexValue(HexDigit(x / 16)), HexValue(HexDigit(x % 16))) == x
  {
  }

  lemma PairsOfDigits(b: bytes)
    ensures Pairs(Digits2(b)) == b
  {
    hide HexValue, HexDigit, Octet, Digits2;
    var s := Digits2(b);
    forall i | 0 <= i < |b| ensures Pairs(s)[i] == b[i] {
      OctetOfDigits(b[i]);
      assert s[2 * i] == HexDigit(b[i] / 16) && s[2 * i + 1] == HexDigit(b[i] % 16);
    }
  }

  /** The `k`-th half of the octets. */
  function Nibble(b: bytes, k: nat): (n: nat)
    requires k < 2 * |b|
    ensures n < 16
  {
    if k % 2 == 0 then b[k / 2] / 16 else b[k / 2] % 16
  }

  /** `s` spells `b` with digits of either case. */
  ghost predicate Spells(s: bytes, b: bytes)
  {
    && |s| == 2 * |b|
    && forall k :: 0 <= k < |s| ==> s[k] == LOWER[Nibble(b, k)] as int || s[k] == UPPER[Nibble(b, k)] as int
  }

  /** References are read in either case, mixed as they may be. */
  lemma EitherCaseReads(s: bytes, b: bytes, junk: bytes)
    requires Spells(s, b) && forall i :: 0 <= i < |junk| ==> !IsHex(junk[i])
    ensures Trim(s + junk) == s && Pairs(s) == b
  {
    hide Octet, Pairs, IsHex, Nibble, Trim;
    if s != [] {
      SpelledDigit(s, b, |s| - 1);
    }
    TrimJunk(s, junk);
    forall i | 0 <= i < |b| ensures Pairs(s)[i] == b[i] {
      SpelledOctet(s, b, i);
    }
  }

  lemma SpelledDigit(s: bytes, b: bytes, k: nat)
    requires Spells(s, b) && k < |s|
    ensures HexValue(s[k]) == Nibble(b, k) && IsHex(s[k])
  {
    hide HexDigit, HexValue, Nibble;
    DigitValues(Nibble(b, k));
  }

  lemma SpelledOctet(s: bytes, b: bytes, i: nat)
    requires Spells(s, b) && i < |b|
    ensures Octet(HexValue(s[2 * i]), HexValue(s[2 * i + 1])) == b[i]
  {
    hide HexValue;
    SpelledDigit(s, b, 2 * i);
    SpelledDigit(s, b, 2 * i + 1);
  }

  // ------------------------------------------------------------ references

  /** CORBA_ORB_object_to_string without corbaloc: header_size 0, the byte-order octet, the reference. */
  method ObjectToString(memory: Memory, x: Reference, key: bytes, order: Endian) returns (out: array<byte>)
    requires GoodReference(x) && RefEnd(x, key, 1) < TWO32
    ensures exists data :: Stringified(x, key, order, data) && out[..] == PREFIX + Digits2(data) + [0]
  {
    hide RefWire, RefEnd, GoodReference, OutStream.Valid, HeaderWire, Digits2;
    RefEndGrows(x, key, 1);
    var buf := new OutStream.Headless(memory, order, 2, [FlagByte(order)]);
    RefMarshal(x, key, buf);
    ghost var data := buf.data;
    buf.Alone();
    out := Print(buf.store);
    assert Stringified(x, key, order, data);
  }

  lemma RefEndGrows(x: Reference, key: bytes, p: nat)
    ensures RefEnd(x, key, p) > p
  {
    hide ProfilesEnd;
    if x.Ref? {
      assert StringEnd(p, x.typeId) > p;
    }
  }

  ghost predicate Stringified(x: Reference, key: bytes, order: Endian, data: bytes)
  {
    |data| == RefEnd(x, key, 1) && |data| > 1 && data[0] == FlagByte(order) && RefWire(data, order, x, key, 1)
  }

  /** The rest of CORBA_ORB_string_to_object: the octets as an encapsulation. */
  function ObjectFrom(b: bytes, host: Endian): Read<Reference>
  {
    if b == [] then Short else RefDec(RecvBuf(b, 0, 1, |b|, FlagOf(b[0]), host))
  }

  /** A text without a digit is no reference, not even nil. */
  lemma NothingIsNoReference(s: bytes, host: Endian)
    requires forall i :: 0 <= i < |s| ==> !IsHex(s[i])
    ensures Trim(s) == [] && ObjectFrom(Pairs(Trim(s)), host).Short?
  {
    var n := |Trim(s)|;
    assert Trim(s) == s[..n];
  }

  method StringToObject(s: bytes, host: Endian) returns (r: Read<Reference>)
    requires PREFIX <= s
    ensures r == if |Trim(s[4..])| % 2 == 1 then Short else ObjectFrom(Pairs(Trim(s[4..])), host)
  {
    var p := Parse(s[4..]);
    r := if p.Odd? then Short else ObjectFrom(p.b, host);
  }

  /**
   The text of a reference, read by a process of either byte order, gives the
   reference that a marshalled one gives: see ProfileRestored and KeyRestored.
   */
  lemma StringRoundTrip(x: Reference, key: bytes, order: Endian, host: Endian, data: bytes, junk: bytes)
    requires GoodReference(x) && RefEnd(x, key, 1) < TWO32 && Stringified(x, key, order, data)
    requires forall i :: 0 <= i < |junk| ==> !IsHex(junk[i])
    ensures var s := Digits2(data) + junk;
            && |Trim(s)| % 2 == 0
            && ObjectFrom(Pairs(Trim(s)), host) ==
               Got(if x.NilRef? then NilRef else Ref(x.typeId, ReceivedProfiles(x.profiles, key)),
                   RecvBuf(data, 0, |data|, |data|, order, host))
  {
    hide RefDec, RefWire, RefEnd, GoodReference, ReceivedProfiles, Trim, Pairs, Digits2;
    HexRoundTrip(data, junk);
    RefDecodes(x, key, RecvBuf(data, 0, 1, |data|, order, host));
  }

  /** Published by one process, perhaps with a newline behind it, and read by another. */
  method TransferText(memory: Memory, x: Reference, key: bytes, order: Endian, host: Endian, junk: bytes) returns (r: Read<Reference>)
    requires GoodReference(x) && RefEnd(x, key, 1) < TWO32
    requires forall i :: 0 <= i < |junk| ==> !IsHex(junk[i])
    ensures r.Got? && r.value == if x.NilRef? then NilRef else Ref(x.typeId, ReceivedProfiles(x.profiles, key))
  {
    hide RefDec, RefWire, RefEnd, GoodReference, ReceivedProfiles, Trim, Pairs, Digits2, Stringified;
    var out := ObjectToString(memory, x, key, order);
    ghost var data :| Stringified(x, key, order, data) && out[..] == PREFIX + Digits2(data) + [0];
    var text := out[..out.Length - 1] + junk;
    assert text == PREFIX + (Digits2(data) + junk);
    assert text[4..] == Digits2(data) + junk;
    StringRoundTrip(x, key, order, host, data, junk);
    r := StringToObject(text, host);
  }
}
