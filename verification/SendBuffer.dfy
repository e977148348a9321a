/**
 The GIOPSendBuffer itself: an iovec list over flat memory. Small pieces are
 copied into chunks the buffer owns, large ones stay where the caller has
 them, and neighbours are merged. Everything is stated about `Contents()`,
 the bytes that writev gathers.
 */
module SendBuffers {
  import opened Cdr
  import opened Common
  import opened Giop

  const CHUNK_SIZE: nat := 2048
  /** Pieces up to this length are copied by giop_send_buffer_append. */
  const COPY_LIMIT: nat := 32

  datatype IoVec = IoVec(base: nat, len: nat)
  datatype Chunk = Chunk(ptr: nat, size: nat)

  /** The allocated memory: a byte for every address in use. */
  type Memory = map<nat, byte>

  predicate Within(a: nat, p: nat, n: nat) { p <= a < p + n }

  predicate In(c: Chunk, a: nat) { Within(a, c.ptr, c.size) }

  function Range(a: nat, n: nat): (r: seq<nat>)
    ensures |r| == n && forall i :: 0 <= i < n ==> r[i] == a + i
  {
    seq(n, i requires 0 <= i => a + i)
  }

  /** The addresses that an iovec list makes writev read, in order. */
  function Cells(v: seq<IoVec>): (r: seq<nat>)
  {
    if v == [] then [] else Cells(v[..|v| - 1]) + Range(v[|v| - 1].base, v[|v| - 1].len)
  }

  predicate Mapped(ram: Memory, cells: seq<nat>)
  {
    forall i :: 0 <= i < |cells| ==> cells[i] in ram
  }

  function Gather(ram: Memory, cells: seq<nat>): (b: bytes)
    requires Mapped(ram, cells)
    ensures |b| == |cells| && forall i :: 0 <= i < |b| ==> b[i] == ram[cells[i]]
  {
    seq(|cells|, i requires 0 <= i < |cells| => ram[cells[i]])
  }

  function Written(ram: Memory, p: nat, b: bytes): (m: Memory)
    ensures forall a :: a in m <==> a in ram || p <= a < p + |b|
    ensures forall a :: a in m ==> m[a] == if p <= a < p + |b| then b[a - p] else ram[a]
  {
    ram + map a: nat | p <= a < p + |b| && Within(a, p, |b|) :: b[a - p]
  }

  /** Growing the last iovec adds the addresses behind it. */
  lemma ExtendLast(v: seq<IoVec>, len: nat)
    requires v != []
    ensures var n := |v| - 1; Cells(v[n := IoVec(v[n].base, v[n].len + len)]) ==
                              Cells(v) + Range(v[n].base + v[n].len, len)
  {
    var n := |v| - 1;
    var w := v[n := IoVec(v[n].base, v[n].len + len)];
    assert w[..n] == v[..n];
    assert Range(v[n].base, v[n].len + len) == Range(v[n].base, v[n].len) + Range(v[n].base + v[n].len, len);
  }

  lemma PushOne(v: seq<IoVec>, mem: nat, len: nat)
    ensures Cells(v + [IoVec(mem, len)]) == Cells(v) + Range(mem, len)
  {
    assert (v + [IoVec(mem, len)])[..|v|] == v;
  }

  lemma SplitGather(ram: Memory, a: seq<nat>, b: seq<nat>)
    requires Mapped(ram, a + b)
    ensures Mapped(ram, a) && Mapped(ram, b) && Gather(ram, a + b) == Gather(ram, a) + Gather(ram, b)
  {
    assert forall i :: 0 <= i < |a| ==> a[i] == (a + b)[i];
    assert forall i :: 0 <= i < |b| ==> b[i] == (a + b)[|a| + i];
  }

  lemma {:induction false} CellsPrefix(v: seq<IoVec>, i: nat)
    requires i <= |v|
    ensures Cells(v[..i]) <= Cells(v)
  {
    if i < |v| {
      hide Range;
      CellsPrefix(v[..|v| - 1], i);
      assert v[..|v| - 1][..i] == v[..i];
    } else {
      assert v[..i] == v;
    }
  }

  ghost predicate NoEmpty(v: seq<IoVec>) { forall i :: 0 <= i < |v| ==> v[i].len > 0 }

  /** malloc: at any address where nothing is allocated. */
  method Malloc(ram: Memory, size: nat) returns (ram2: Memory, p: nat)
    ensures p > 0 && p % 8 == 0 && forall a :: Within(a, p, size) ==> a !in ram
    ensures forall a :: a in ram2 <==> a in ram || Within(a, p, size)
    ensures forall a :: a in ram ==> ram2[a] == ram[a]
  {
    p :| p > 0 && p % 8 == 0 && forall a :: Within(a, p, size) ==> a !in ram by {
      var top := AboveAll(ram.Keys);
      var q := Align(top + 1, 8);
      assert forall a :: Within(a, q, size) ==> a !in ram;
    }
    var junk: bytes :| |junk| == size by { assert |seq(size, i => 0 as byte)| == size; }
    ram2 := Written(ram, p, junk);
  }

  /** The 32-bit message_size counts the cells behind the first `lead` ones. */
  predicate Sized(lead: nat, cells: nat, size: nat)
  {
    size < TWO32 && cells % TWO32 == (size + lead) % TWO32
  }

  lemma SizeMod(lead: nat, cells: nat, size: nat)
    requires Sized(lead, cells, size) && lead <= cells
    ensures size == (cells - lead) % TWO32
  {
    var d := cells - lead - size;
    assert d % TWO32 == 0;
  }

  lemma Shift(a: nat, q: int)
    requires a + TWO32 * q >= 0
    ensures (a + TWO32 * q) % TWO32 == a % TWO32
  {
  }

  lemma SizeGrows(lead: nat, cells: nat, size: nat, n: nat)
    requires Sized(lead, cells, size)
    ensures Sized(lead, cells + n, (size + n) % TWO32)
  {
    var p, s, q := cells / TWO32, (size + lead) / TWO32, (size + n) / TWO32;
    assert cells + n == (size + n) % TWO32 + lead + TWO32 * (p - s + q);
    Shift((size + n) % TWO32 + lead, p - s + q);
  }

  /** Aligning the wrapped 32-bit size pads exactly as aligning the true length. */
  lemma AlignWraps(n: nat, k: nat)
    requires k > 0 && TWO32 % k == 0
    ensures Align(n % TWO32, k) - n % TWO32 == Align(n, k) - n
  {
    var q, c := n / TWO32, TWO32 / k;
    var m := n % TWO32;
    assert n == m + (q * c) * k by {
      assert TWO32 == c * k;
      assert q * (c * k) == (q * c) * k;
    }
    ModShift(m, q * c, k);
  }

  lemma ModShift(m: nat, q: nat, k: nat)
    requires k > 0
    ensures (m + q * k) % k == m % k
  {
    var d := m / k + q;
    assert m + q * k == d * k + m % k;
    Quotient(m + q * k, k, d, m % k);
  }

  lemma GatherOn(ram: Memory, ram2: Memory, cells: seq<nat>, more: seq<nat>, b: bytes)
    requires Mapped(ram, cells) && Mapped(ram2, cells) && Mapped(ram2, more)
    requires forall i :: 0 <= i < |cells| ==> ram2[cells[i]] == ram[cells[i]]
    requires Gather(ram2, more) == b
    ensures Gather(ram2, cells + more) == Gather(ram, cells) + b
  {
  }

  lemma CountedBody(start: bytes, reserved: bytes, content: bytes, word: bytes, body: bytes)
    requires start <= reserved && |word| == 4 && |start| + 4 <= |reserved|
    requires var full, o := reserved + content, |reserved| - 4; body == full[..o] + word + full[o + 4..]
    ensures start <= body && |body| == |reserved| + |content| && body[|body| - |content| - 4..] == word + content
  {
    var full, o := reserved + content, |reserved| - 4;
    assert full[o + 4..] == content && full[..o] == reserved[..o];
  }

  /** So does a write to cells that each occur once. */
  lemma PatchGather(ram: Memory, cells: seq<nat>, o: nat, mark: nat, b: bytes)
    requires Mapped(ram, cells) && o + |b| <= |cells|
    requires forall i :: o <= i < o + |b| ==> cells[i] == mark + i - o
    requires forall i :: 0 <= i < |cells| ==> (Within(cells[i], mark, |b|) <==> o <= i < o + |b|)
    ensures var ram2, g := Written(ram, mark, b), Gather(ram, cells);
            Mapped(ram2, cells) && Gather(ram2, cells) == g[..o] + b + g[o + |b|..]
  {
    var ram2, g := Written(ram, mark, b), Gather(ram, cells);
    forall i | 0 <= i < |cells| ensures Gather(ram2, cells)[i] == (g[..o] + b + g[o + |b|..])[i] {
      assert Within(cells[i], mark, |b|) <==> o <= i < o + |b|;
    }
  }

  lemma PatchBehind(ram: Memory, cells: seq<nat>, lead: nat, at: nat, chunks: seq<Chunk>, mark: nat, b: bytes)
    requires Mapped(ram, cells) && lead <= at && MarkIn(cells, chunks, mark, at, |b|)
    requires forall i :: 0 <= i < |cells| ==> (Within(cells[i], mark, |b|) <==> at <= i < at + |b|)
    ensures var ram2, g, o := Written(ram, mark, b), Gather(ram, cells[lead..]), at - lead;
            Mapped(ram2, cells[lead..]) && Gather(ram2, cells[lead..]) == g[..o] + b + g[o + |b|..]
  {
    hide Owned, Written, Gather;
    var behind := cells[lead..];
    assert forall i :: 0 <= i < |behind| ==> behind[i] == cells[i + lead];
    PatchGather(ram, behind, at - lead, mark, b);
  }

  /** A write inside a range changes the gathered bytes in that place. */
  lemma Overwrite(ram: Memory, p: nat, n: nat, off: nat, b: bytes)
    requires Mapped(ram, Range(p, n)) && off + |b| <= n
    ensures var ram2, g := Written(ram, p + off, b), Gather(ram, Range(p, n));
            && Mapped(ram2, Range(p, n)) && Gather(ram2, Range(p, n)) == g[..off] + b + g[off + |b|..]
  {
    var ram2, r := Written(ram, p + off, b), Range(p, n);
    var g := Gather(ram, r);
    forall i | 0 <= i < n ensures Gather(ram2, r)[i] == (g[..off] + b + g[off + |b|..])[i] {
      assert r[i] == p + i;
    }
  }

  /** Only the last word of a header depends on the size. */
  lemma SizeField(e: Endian, minor: byte, kind: byte, size: nat, size2: nat)
    ensures HeaderWire(e, minor, kind, size2) == HeaderWire(e, minor, kind, size)[..8] + Store(e, 4, size2)
  {
  }

  lemma VersionField(e: Endian, minor: byte, minor2: byte, kind: byte, size: nat)
    ensures var h := HeaderWire(e, minor, kind, size); HeaderWire(e, minor2, kind, size) == h[..4] + [1, minor2] + h[6..]
  {
  }

  lemma KindField(e: Endian, minor: byte, kind: byte, kind2: byte, size: nat)
    ensures var h := HeaderWire(e, minor, kind, size); HeaderWire(e, minor, kind2, size) == h[..7] + [kind2] + h[8..]
  {
  }

  lemma GatherSame(ram: Memory, ram2: Memory, cells: seq<nat>, k: nat)
    requires Mapped(ram, cells) && Mapped(ram2, cells) && k <= |cells|
    requires forall i :: k <= i < |cells| ==> ram2[cells[i]] == ram[cells[i]]
    ensures Gather(ram2, cells[k..]) == Gather(ram, cells[k..])
  {
  }

  lemma LeadIsPrefix(ram: Memory, header: nat, lead: nat, wire: bytes)
    requires Mapped(ram, Range(header, HEADER_SIZE)) && Gather(ram, Range(header, HEADER_SIZE)) == wire && lead <= HEADER_SIZE
    ensures Mapped(ram, Range(header, lead)) && Gather(ram, Range(header, lead)) == wire[..lead]
  {
    assert Range(header, lead) == Range(header, HEADER_SIZE)[..lead];
  }

  lemma GatherRange(ram: Memory, p: nat, b: bytes)
    requires forall a: nat :: Within(a, p, |b|) ==> a in ram && ram[a] == b[a - p]
    ensures Mapped(ram, Range(p, |b|)) && Gather(ram, Range(p, |b|)) == b
  {
    var r := Range(p, |b|);
    assert forall i :: 0 <= i < |b| ==> Within(r[i], p, |b|);
  }

  /** Memory that the buffer owns. */
  ghost predicate Owned(chunks: seq<Chunk>, a: nat) { exists k :: 0 <= k < |chunks| && In(chunks[k], a) }

  lemma OwnedGrows(chunks: seq<Chunk>, more: seq<Chunk>, a: nat)
    requires chunks <= more && Owned(chunks, a)
    ensures Owned(more, a)
  {
    var k :| 0 <= k < |chunks| && In(chunks[k], a);
    assert In(more[k], a);
  }

  /** A fresh block holding `b`. */
  method MallocCopy(ram: Memory, b: bytes) returns (ram2: Memory, p: nat)
    ensures p > 0 && forall a :: Within(a, p, |b|) ==> a !in ram
    ensures Mapped(ram2, Range(p, |b|)) && Gather(ram2, Range(p, |b|)) == b
    ensures forall a :: a in ram ==> a in ram2 && ram2[a] == ram[a]
    ensures forall a :: Within(a, p, |b|) ==> a in ram2
  {
    hide Gather, Range;
    ram2, p := Malloc(ram, |b|);
    ram2 := Written(ram2, p, b);
    GatherRange(ram2, p, b);
  }

  /** Memory that is neither the header's nor a chunk's. */
  ghost predicate Elsewhere(ram: Memory, header: nat, chunks: seq<Chunk>, mem: nat, len: nat)
  {
    mem > 0 && forall a :: Within(a, mem, len) ==> a in ram && !Within(a, header, HEADER_SIZE) && !Owned(chunks, a)
  }

  lemma NothingOwned()
    ensures forall a :: !Owned([], a)
  {
  }

  ghost predicate MarkIn(cells: seq<nat>, chunks: seq<Chunk>, mark: nat, at: nat, n: nat)
  {
    && at + n <= |cells|
    && forall i :: at <= i < at + n ==> cells[i] == mark + i - at && Owned(chunks, cells[i])
  }

  /** Appending does not move what a mark points to. */
  lemma MarkStays(cells: seq<nat>, chunks: seq<Chunk>, cells2: seq<nat>, chunks2: seq<Chunk>, mark: nat, at: nat, n: nat)
    requires MarkIn(cells, chunks, mark, at, n) && cells <= cells2 && chunks <= chunks2
    ensures MarkIn(cells2, chunks2, mark, at, n)
  {
    hide Owned;
    forall i | at <= i < at + n ensures cells2[i] == mark + i - at && Owned(chunks2, cells2[i]) {
      assert cells2[i] == cells[i];
      OwnedGrows(chunks, chunks2, cells[i]);
    }
  }

  /**
   The chunk bookkeeping: the chunks, how many are used, what is left of the last one.
   `lead` is header_size: how much of the header the contents begin with.
   */
  datatype Space = Space(header: nat, lead: nat, chunks: seq<Chunk>, used: nat, next: nat, left: nat) {
    predicate InHeader(a: nat) { Within(a, header, HEADER_SIZE) }

    /** Chunk memory that a later append may still overwrite. */
    ghost predicate Spare(a: nat) {
      || Within(a, next, left)
      || exists k :: used <= k < |chunks| && In(chunks[k], a)
    }

    /** The allocations are in use, apart from each other, and big enough. */
    ghost predicate Layout(ram: set<nat>) {
      && header > 0 && (forall a: nat :: InHeader(a) ==> a in ram)
      && (forall k :: 0 <= k < |chunks| ==> chunks[k].size >= CHUNK_SIZE && chunks[k].ptr > 0)
      && (forall k, a: nat :: 0 <= k < |chunks| && In(chunks[k], a) ==> a in ram && !InHeader(a))
      && (forall j, k, a: nat :: 0 <= j < k < |chunks| && In(chunks[j], a) ==> !In(chunks[k], a))
      && used <= |chunks|
      && (left > 0 ==> used > 0 && chunks[used - 1].ptr <= next &&
                       next + left == chunks[used - 1].ptr + chunks[used - 1].size)
    }

    /** The header comes first, and no cell behind it can change under a later append. */
    ghost predicate Settled(ram: set<nat>, cells: seq<nat>) {
      && lead <= HEADER_SIZE && lead <= |cells| && cells[..lead] == Range(header, lead)
      && (forall i :: lead <= i < |cells| ==> cells[i] in ram && !InHeader(cells[i]) && !Spare(cells[i]))
      && (forall i, j :: lead <= i < j < |cells| && Owned(chunks, cells[i]) ==> cells[i] != cells[j])
    }

    function Take(n: nat): Space
      requires n <= left
    {
      Space(header, lead, chunks, used, next + n, left - n)
    }

    /** Cells cut from the spare tail settle. */
    lemma SettleTail(ram: set<nat>, cells: seq<nat>, n: nat)
      requires Layout(ram) && Settled(ram, cells) && n <= left
      ensures Take(n).Layout(ram) && Take(n).Settled(ram, cells + Range(next, n))
      ensures forall a :: Take(n).Spare(a) ==> Spare(a)
      ensures forall a :: Within(a, next, n) ==> Spare(a) && !InHeader(a) && a in ram
    {
      var more := cells + Range(next, n);
      if left > 0 {
        assert forall a: nat :: Within(a, next, left) ==> In(chunks[used - 1], a);
      }
      forall i | lead <= i < |more|
        ensures more[i] in ram && !InHeader(more[i]) && !Take(n).Spare(more[i])
      {
        if i >= |cells| {
          assert Within(more[i], next, left);
        }
      }
      assert forall i :: |cells| <= i < |more| ==> Spare(more[i]);
    }

    lemma HasHeader(ram: set<nat>)
      requires Layout(ram)
      ensures header > 0 && forall a: nat :: InHeader(a) ==> a in ram
    {
    }

    /** On the free list nothing is in use. */
    lemma Unused(ram: set<nat>)
      requires Layout(ram)
      ensures Space(header, 0, chunks, 0, 0, 0).Layout(ram) && used <= |chunks|
    {
    }

    lemma Nowhere(ram: set<nat>, stale: nat, lead2: nat)
      requires Layout(ram)
      ensures Space(header, lead2, chunks, 0, stale, 0).Layout(ram)
    {
    }

    lemma NoLead(ram: set<nat>)
      requires Layout(ram)
      ensures Space(header, 0, chunks, used, next, left).Layout(ram)
    {
    }

    lemma SizeOf(ram: set<nat>, k: nat)
      requires Layout(ram) && k < |chunks|
      ensures chunks[k].size >= CHUNK_SIZE && forall a: nat :: In(chunks[k], a) ==> !InHeader(a)
    {
    }

    /** Giving chunk `k` back and taking fresh memory in its place. */
    lemma Trimmed(ram: set<nat>, ram2: set<nat>, k: nat, p: nat)
      requires Layout(ram) && k < |chunks| && used == 0 && left == 0 && p > 0
      requires forall a :: a in ram && !In(chunks[k], a) ==> a in ram2
      requires forall a: nat :: Within(a, p, CHUNK_SIZE) ==> a in ram2 && (a in ram ==> In(chunks[k], a))
      ensures Space(header, lead, chunks[k := Chunk(p, CHUNK_SIZE)], 0, next, 0).Layout(ram2)
      ensures forall a :: a in ram && !Owned(chunks, a) ==> !Owned(chunks[k := Chunk(p, CHUNK_SIZE)], a)
    {
      var trimmed := chunks[k := Chunk(p, CHUNK_SIZE)];
      forall a | a in ram && !Owned(chunks, a) ensures !Owned(trimmed, a) {
        forall j | 0 <= j < |trimmed| ensures !In(trimmed[j], a) {
          assert j != k ==> trimmed[j] == chunks[j];
          assert !In(chunks[k], a);
        }
      }
      forall j, a: nat | 0 <= j < |chunks| && j != k && In(trimmed[j], a)
        ensures a in ram2 && !InHeader(a) && !Within(a, p, CHUNK_SIZE)
      {
        assert In(chunks[j], a) && !In(chunks[k], a);
      }
      assert forall a: nat :: InHeader(a) ==> a in ram && !In(chunks[k], a);
      var s := Space(header, lead, trimmed, 0, next, 0);
      forall i, j, a: nat | 0 <= i < j < |trimmed| && In(trimmed[i], a) ensures !In(trimmed[j], a) {
        if i != k && j != k {
          assert In(chunks[i], a) && trimmed[j] == chunks[j];
        }
      }
      forall j, a: nat | 0 <= j < |trimmed| && In(trimmed[j], a) ensures a in ram2 && !s.InHeader(a) {
        assert j != k ==> In(trimmed[j], a) && j < |chunks|;
      }
    }

    lemma Bounds(ram: set<nat>, cells: seq<nat>)
      requires Layout(ram) && Settled(ram, cells)
      ensures used <= |chunks| && lead <= |cells| && lead <= HEADER_SIZE && (forall a: nat :: InHeader(a) ==> a in ram)
      ensures forall i :: 0 <= i < |cells| ==> cells[i] in ram
      ensures left > 0 ==> next > 0
      ensures forall a :: Spare(a) ==> Owned(chunks, a)
    {
      assert forall a: nat :: Within(a, next, left) ==> In(chunks[used - 1], a);
      assert forall i :: 0 <= i < lead ==> cells[i] == cells[..lead][i] && InHeader(cells[i]);
    }

    /** No cell lies in the next `n` bytes of the current chunk. */
    lemma Apart(ram: set<nat>, cells: seq<nat>, n: nat)
      requires Layout(ram) && Settled(ram, cells) && n <= left
      ensures forall i :: 0 <= i < |cells| ==> cells[i] in ram && !Within(cells[i], next, n)
      ensures forall i :: lead <= i < |cells| ==> !InHeader(cells[i])
      ensures forall a: nat :: InHeader(a) ==> a in ram && !Within(a, next, n)
      ensures forall a :: Within(a, next, n) ==> Spare(a) && a in ram
    {
      SettleTail(ram, cells, n);
      assert forall a :: Within(a, next, n) ==> Spare(a);
      Bounds(ram, cells);
      assert forall i :: 0 <= i < lead ==> cells[i] == cells[..lead][i] && InHeader(cells[i]);
    }

    /** A chunk of fresh memory, not yet in use. */
    lemma AddChunk(ram: set<nat>, ram2: set<nat>, c: Chunk, cells: seq<nat>)
      requires Layout(ram) && Settled(ram, cells) && c.ptr > 0 && c.size >= CHUNK_SIZE
      requires ram <= ram2 && forall a: nat :: In(c, a) ==> a in ram2 && a !in ram
      ensures var s := Space(header, lead, chunks + [c], used, next, left);
              && s.Layout(ram2) && s.Settled(ram2, cells)
              && forall a :: a in ram && Owned(s.chunks, a) ==> Owned(chunks, a)
    {
      var s := Space(header, lead, chunks + [c], used, next, left);
      assert forall k :: 0 <= k < |chunks| ==> s.chunks[k] == chunks[k];
      forall i, j, a: nat | 0 <= i < j < |s.chunks| && In(s.chunks[i], a) ensures !In(s.chunks[j], a) {
        assert In(chunks[i], a) && a in ram;
      }
      forall j, a: nat | 0 <= j < |s.chunks| && In(s.chunks[j], a) ensures a in ram2 && !s.InHeader(a) {
        assert s.InHeader(a) <==> InHeader(a);
        assert j < |chunks| ==> In(chunks[j], a);
      }
      assert s.Layout(ram2);
      assert forall a :: a in ram && s.Spare(a) ==> Spare(a);
      assert forall a :: a in ram && Owned(s.chunks, a) ==> Owned(chunks, a);
    }

    /** The next chunk becomes the current one; what was left of the last is given up. */
    lemma NextChunk(ram: set<nat>, cells: seq<nat>)
      requires Layout(ram) && Settled(ram, cells) && used < |chunks|
      ensures var s := Space(header, lead, chunks, used + 1, chunks[used].ptr, chunks[used].size);
              && s.Layout(ram) && s.Settled(ram, cells)
              && s.left >= CHUNK_SIZE && s.next > 0
    {
      var s := Space(header, lead, chunks, used + 1, chunks[used].ptr, chunks[used].size);
      assert forall a: nat :: Within(a, s.next, s.left) ==> In(chunks[used], a);
      assert forall a :: s.Spare(a) ==> Spare(a);
    }

    /** Memory that others allocate is not the buffer's. */
    lemma MoreMemory(ram: set<nat>, ram2: set<nat>, cells: seq<nat>)
      requires Layout(ram) && Settled(ram, cells) && ram <= ram2
      ensures Layout(ram2) && Settled(ram2, cells)
      ensures forall a :: a !in ram ==> !InHeader(a) && !Owned(chunks, a)
    {
    }

    /** Overwriting settled chunk cells touches those cells only. */
    lemma OneCellEach(ram: set<nat>, cells: seq<nat>, at: nat, n: nat, mark: nat)
      requires Layout(ram) && Settled(ram, cells) && lead <= at && MarkIn(cells, chunks, mark, at, n)
      ensures forall i :: 0 <= i < |cells| ==> (Within(cells[i], mark, n) <==> at <= i < at + n)
      ensures forall a: nat :: Within(a, mark, n) ==> a in ram && !InHeader(a) && !Spare(a)
    {
      forall a: nat | Within(a, mark, n) ensures a in ram && !InHeader(a) && !Spare(a) && Owned(chunks, a) {
        assert cells[at + (a - mark)] == a;
      }
      forall i | 0 <= i < |cells| ensures Within(cells[i], mark, n) <==> at <= i < at + n {
        if i < lead {
          assert cells[i] == cells[..lead][i] && InHeader(cells[i]);
        } else if Within(cells[i], mark, n) {
          var j := at + (cells[i] - mark);
          assert cells[j] == cells[i];
        }
      }
    }

    lemma CurrentIsChunked(ram: set<nat>, n: nat)
      requires Layout(ram) && n <= left
      ensures forall a :: Within(a, next, n) ==> Owned(chunks, a)
    {
      if n > 0 {
        assert forall a: nat :: Within(a, next, n) ==> In(chunks[used - 1], a);
      }
    }

    /** Cells outside every chunk settle as they are. */
    lemma SettleOutside(ram: set<nat>, cells: seq<nat>, mem: nat, n: nat)
      requires Layout(ram) && Settled(ram, cells)
      requires forall a :: Within(a, mem, n) ==> a in ram && !InHeader(a) && !Owned(chunks, a)
      ensures Settled(ram, cells + Range(mem, n))
    {
      var more := cells + Range(mem, n);
      assert forall i :: |cells| <= i < |more| ==> Within(more[i], mem, n);
      assert forall a :: Within(a, next, left) && left > 0 ==> In(chunks[used - 1], a);
    }
  }

  class SendBuffer {
    var ram: Memory
    const order: Endian
    /** The address of msg.header, whose last word is message_size. */
    const header: nat
    var minor: byte
    var kind: byte
    var messageSize: nat
    /** How much of the header is in front of the body: all of it, or nothing. */
    var headerSize: nat
    /** The num_used entries in use, out of numAlloced. */
    var iovecs: seq<IoVec>
    var numAlloced: nat
    var lastptr: nat
    var indirect: nat
    var indirectLeft: nat
    var indirects: seq<Chunk>
    var numIndirectsUsed: nat

    ghost function Room(): Space
      reads this
    {
      Space(header, headerSize, indirects, numIndirectsUsed, indirect, indirectLeft)
    }

    predicate InHeader(a: nat) { Within(a, header, HEADER_SIZE) }

    /** The header in memory announces `messageSize`. */
    ghost predicate Announced()
      reads `ram, `minor, `kind, `messageSize
    {
      HeaderIn(ram)
    }

    ghost predicate HeaderIn(m: Memory)
      reads `minor, `kind, `messageSize
    {
      && (forall a: nat :: InHeader(a) ==> a in m)
      && Gather(m, Range(header, HEADER_SIZE)) == HeaderWire(order, minor, kind, messageSize)
    }

    lemma SameHeader(m: Memory)
      requires HeaderIn(m) && forall a :: InHeader(a) ==> a in ram && a in m && ram[a] == m[a]
      ensures Announced()
    {
      assert Gather(m, Range(header, HEADER_SIZE)) == Gather(ram, Range(header, HEADER_SIZE));
    }

    ghost predicate Valid()
      reads this
    {
      && Room().Layout(ram.Keys) && Room().Settled(ram.Keys, Cells(iovecs))
      && Announced()
      && Sized(headerSize, |Cells(iovecs)|, messageSize)
      && |iovecs| <= numAlloced && (headerSize > 0 ==> iovecs != [] && iovecs[0].len >= headerSize)
      && (iovecs != [] ==> lastptr == iovecs[|iovecs| - 1].base + iovecs[|iovecs| - 1].len)
    }

    /** What writev sends. */
    function Contents(): (b: bytes)
      reads this
      requires Valid()
    {
      Gather(ram, Cells(iovecs))
    }

    /** The message body: the contents behind the header. */
    ghost function Body(): (b: bytes)
      reads this
      requires Valid()
    {
      Gather(ram, Cells(iovecs)[headerSize..])
    }

    /** The gathered bytes are a header announcing the size, then the body. */
    lemma HeaderThenBody()
      requires Valid()
      ensures Contents() == HeaderWire(order, minor, kind, messageSize)[..headerSize] + Body()
      ensures messageSize == |Body()| % TWO32
    {
      hide HeaderWire, Cells, Owned, Space.Spare, Space.Layout, Sized, Range;
      var cells := Cells(iovecs);
      Room().Bounds(ram.Keys, cells);
      LeadIsPrefix(ram, header, headerSize, HeaderWire(order, minor, kind, messageSize));
      GatherOn(ram, ram, cells[..headerSize], cells[headerSize..], Body());
      assert cells == cells[..headerSize] + cells[headerSize..];
      SizeMod(headerSize, |cells|, messageSize);
    }

    /** message_size is the last word of the header that the first iovec names. */
    method SetMessageSize(v: nat)
      requires v < TWO32 && Announced()
      modifies `ram, `messageSize
      ensures messageSize == v && Announced()
      ensures ram.Keys == old(ram.Keys) && forall a :: a in ram && !InHeader(a) ==> ram[a] == old(ram[a])
    {
      hide HeaderWire, Gather, Range, Written;
      SizeField(order, minor, kind, messageSize, v);
      Overwrite(ram, header, HEADER_SIZE, 8, Store(order, 4, v));
      messageSize := v;
      ram := Written(ram, header + 8, Store(order, 4, v));
    }

    /** giop_send_buffer_append_real: extends the last iovec or adds one. */
    method AppendReal(mem: nat, len: nat)
      requires Announced() && mem > 0
      requires iovecs != [] ==> lastptr == iovecs[|iovecs| - 1].base + iovecs[|iovecs| - 1].len
      requires |iovecs| <= numAlloced
      modifies `iovecs, `numAlloced, `lastptr, `messageSize, `ram
      ensures Cells(iovecs) == old(Cells(iovecs)) + Range(mem, len)
      ensures Announced() && messageSize == (old(messageSize) + len) % TWO32
      ensures ram.Keys == old(ram.Keys) && forall a :: a in ram && !InHeader(a) ==> ram[a] == old(ram[a])
      ensures iovecs != [] && |iovecs| <= numAlloced && lastptr == mem + len
      ensures iovecs[0].len >= if old(iovecs) == [] then len else old(iovecs)[0].len
      ensures old(iovecs) == [] ==> |iovecs| == 1
      ensures lastptr == iovecs[|iovecs| - 1].base + iovecs[|iovecs| - 1].len
      ensures len > 0 && NoEmpty(old(iovecs)) ==> NoEmpty(iovecs)
      // bytes right behind the last ones need no iovec of their own
      ensures |iovecs| == |old(iovecs)| + if old(iovecs) != [] && mem == old(lastptr) then 0 else 1
    {
      hide Gather, HeaderWire, Range, Cells, Sized;
      if iovecs != [] && mem == lastptr {
        var n := |iovecs| - 1;
        ExtendLast(iovecs, len);
        iovecs := iovecs[n := IoVec(iovecs[n].base, iovecs[n].len + len)];
      } else {
        if |iovecs| >= numAlloced {
          numAlloced := (if numAlloced < 4 then 4 else numAlloced) * 2;
        }
        PushOne(iovecs, mem, len);
        iovecs := iovecs + [IoVec(mem, len)];
      }
      SetMessageSize((messageSize + len) % TWO32);
      lastptr := mem + len;
    }

    /** The malloc half of get_next_indirect. */
    method AddChunk(hint: nat)
      requires Valid() && numIndirectsUsed == |indirects|
      modifies `ram, `indirects
      ensures Valid() && Contents() == old(Contents()) && Body() == old(Body())
      ensures |indirects| == old(|indirects|) + 1 && indirects[numIndirectsUsed].size >= hint
      ensures forall a :: a in old(ram) ==> a in ram && ram[a] == old(ram[a])
      ensures forall a :: a in old(ram) && Owned(indirects, a) ==> Owned(old(indirects), a)
      ensures old(indirects) <= indirects
    {
      hide HeaderWire, Cells, Range, Space.Spare, Owned, Space.Layout, Space.Settled, Align, Sized;
      ghost var cells, was := Cells(iovecs), ram;
      Room().Bounds(ram.Keys, cells);
      var size := if hint > 0 then Align(hint, 8) else CHUNK_SIZE;
      if size < CHUNK_SIZE { size := CHUNK_SIZE; }
      var ram2, p := Malloc(ram, size);
      Room().AddChunk(ram.Keys, ram2.Keys, Chunk(p, size), cells);
      ram := ram2;
      indirects := indirects + [Chunk(p, size)];
      SameHeader(was);
    }

    /** get_next_indirect: a recycled chunk ignores the hint. */
    method GetNextIndirect(hint: nat)
      requires Valid()
      modifies `ram, `indirect, `indirectLeft, `indirects, `numIndirectsUsed
      ensures Valid() && Contents() == old(Contents()) && Body() == old(Body())
      ensures indirectLeft >= CHUNK_SIZE && indirect > 0
      ensures old(numIndirectsUsed) == old(|indirects|) ==> indirectLeft >= hint
      // a recycled chunk is taken if there is one
      ensures |indirects| == old(|indirects|) + if old(numIndirectsUsed) < old(|indirects|) then 0 else 1
      ensures forall a :: a in old(ram) ==> a in ram && ram[a] == old(ram[a])
      ensures forall a :: a in old(ram) && Owned(indirects, a) ==> Owned(old(indirects), a)
      ensures Cells(iovecs) == old(Cells(iovecs)) && old(indirects) <= indirects
    {
      hide HeaderWire, Cells, Range, Space.Spare, Owned, Space.Layout, Space.Settled, Gather, Sized;
      Room().Bounds(ram.Keys, Cells(iovecs));
      if numIndirectsUsed >= |indirects| {
        AddChunk(hint);
      }
      Room().NextChunk(ram.Keys, Cells(iovecs));
      indirect := indirects[numIndirectsUsed].ptr;
      indirectLeft := indirects[numIndirectsUsed].size;
      numIndirectsUsed := numIndirectsUsed + 1;
    }

    /** `n` bytes in one chunk. */
    method MakeRoom(n: nat, hint: nat)
      requires Valid() && n <= CHUNK_SIZE && (n > 0 || indirect > 0)
      modifies `ram, `indirect, `indirectLeft, `indirects, `numIndirectsUsed
      ensures Valid() && Contents() == old(Contents()) && Body() == old(Body())
      ensures indirectLeft >= n && indirect > 0
      ensures Keeps(old(ram), old(indirects))
      ensures Cells(iovecs) == old(Cells(iovecs)) && old(indirects) <= indirects
    {
      hide HeaderWire, Cells, Range, Space.Spare, Owned, Space.Layout, Space.Settled, Gather, Sized, HeaderIn;
      Room().Bounds(ram.Keys, Cells(iovecs));
      if indirectLeft < n {
        GetNextIndirect(hint);
      }
    }

    /** memcpy to the current chunk: nothing appended so far is there. */
    method Copy(b: bytes)
      requires Valid() && |b| <= indirectLeft
      modifies `ram
      ensures Valid() && Contents() == old(Contents()) && Body() == old(Body())
      ensures Mapped(ram, Range(indirect, |b|)) && Gather(ram, Range(indirect, |b|)) == b
      ensures ram.Keys == old(ram.Keys)
      ensures forall a :: a in ram && !InHeader(a) && !Owned(indirects, a) ==> ram[a] == old(ram[a])
    {
      hide HeaderWire, Cells, Space.Spare, Owned, Space.Layout, Space.Settled, Range, Gather, Sized, Written;
      ghost var cells, was := Cells(iovecs), ram;
      Room().Apart(ram.Keys, cells, |b|);
      Room().Bounds(ram.Keys, cells);
      ram := Written(ram, indirect, b);
      assert ram.Keys == was.Keys;
      SameHeader(was);
      GatherRange(ram, indirect, b);
      GatherSame(was, ram, cells, 0);
      GatherSame(was, ram, cells, headerSize);
      assert cells[0..] == cells;
    }

    /** Append the next `n` bytes of the current chunk and move on. */
    method Advance(n: nat)
      requires Valid() && n <= indirectLeft && indirect > 0
      modifies `ram, `iovecs, `numAlloced, `lastptr, `messageSize, `indirect, `indirectLeft
      ensures Valid() && Mapped(old(ram), Range(old(indirect), n))
      ensures Body() == old(Body()) + Gather(old(ram), Range(old(indirect), n))
      ensures Cells(iovecs) == old(Cells(iovecs)) + Range(old(indirect), n)
      ensures indirect == old(indirect) + n && indirectLeft == old(indirectLeft) - n
      ensures ram.Keys == old(ram.Keys) && forall a :: a in ram && !InHeader(a) ==> ram[a] == old(ram[a])
      ensures indirects == old(indirects)
      ensures n > 0 && NoEmpty(old(iovecs)) ==> NoEmpty(iovecs)
    {
      hide HeaderWire, Cells, Space.Spare, Owned, Space.Layout, Space.Settled, HeaderIn, Gather, Sized;
      ghost var cells, before, room := Cells(iovecs), ram, Room();
      room.SettleTail(ram.Keys, cells, n);
      room.Bounds(ram.Keys, cells);
      room.Apart(ram.Keys, cells, n);
      AppendReal(indirect, n);
      indirect := indirect + n;
      indirectLeft := indirectLeft - n;
      assert Room() == room.Take(n) && ram.Keys == before.Keys;
      SizeGrows(headerSize, |cells|, old(messageSize), n);
      var more := Range(room.next, n);
      assert Cells(iovecs)[headerSize..] == cells[headerSize..] + more;
      assert forall i :: 0 <= i < n ==> Within(more[i], room.next, n);
      GatherOn(before, ram, cells[headerSize..], more, Gather(before, more));
    }

    /** giop_send_buffer_append_copy of the bytes `b` found at the caller's address. */
    method AppendCopy(b: bytes)
      requires Valid() && |b| <= CHUNK_SIZE && (|b| > 0 || indirect > 0)
      modifies `ram, `iovecs, `numAlloced, `lastptr, `messageSize, `indirect, `indirectLeft, `indirects, `numIndirectsUsed
      ensures Valid() && Body() == old(Body()) + b
      ensures |b| > 0 && NoEmpty(old(iovecs)) ==> NoEmpty(iovecs)
      ensures Keeps(old(ram), old(indirects)) && indirect > 0
      ensures old(Cells(iovecs)) <= Cells(iovecs) && old(indirects) <= indirects
      ensures Copied(|old(Cells(iovecs))|)
    {
      hide HeaderWire, Cells, Space.Spare, Owned, Space.Layout, Space.Settled, HeaderIn, Gather, Range, Sized;
      MakeRoom(|b|, |b|);
      Copy(b);
      Room().CurrentIsChunked(ram.Keys, |b|);
      Advance(|b|);
    }

    /** From the `from`-th byte on the contents are in the buffer's own chunks: the callers may reuse their memory. */
    ghost predicate Copied(from: nat)
      reads this
    {
      forall i :: from <= i < |Cells(iovecs)| ==> Owned(indirects, Cells(iovecs)[i])
    }

    /** The callers' memory is still there, and still theirs. */
    ghost predicate Keeps(was: Memory, room: seq<Chunk>)
      reads this
    {
      forall a :: a in was && !InHeader(a) && !Owned(room, a) ==> a in ram && ram[a] == was[a] && !Owned(indirects, a)
    }

    /** Memory of the caller's own: what an append by reference may name. */
    ghost predicate Foreign(mem: nat, len: nat)
      reads this
    {
      Elsewhere(ram, header, indirects, mem, len)
    }

    /** The bytes the caller has at `mem`. */
    ghost function At(mem: nat, len: nat): bytes
      reads this
      requires Foreign(mem, len)
    {
      Gather(ram, Range(mem, len))
    }

    lemma SameBytes(mem: nat, len: nat, was: Memory, room: seq<Chunk>)
      requires Keeps(was, room) && Elsewhere(was, header, room, mem, len)
      ensures Foreign(mem, len) && Mapped(was, Range(mem, len)) && At(mem, len) == Gather(was, Range(mem, len))
    {
      var r := Range(mem, len);
      assert forall i :: 0 <= i < len ==> Within(r[i], mem, len);
    }

    /** The by-reference half of giop_send_buffer_append: no byte is copied. */
    method AppendReference(mem: nat, len: nat)
      requires Valid() && Foreign(mem, len)
      modifies `ram, `iovecs, `numAlloced, `lastptr, `messageSize, `indirect, `indirectLeft, `indirects, `numIndirectsUsed
      ensures Valid() && Body() == old(Body()) + old(At(mem, len))
      ensures Cells(iovecs) == old(Cells(iovecs)) + Range(mem, len)
      ensures len > 0 && NoEmpty(old(iovecs)) ==> NoEmpty(iovecs)
      ensures Keeps(old(ram), old(indirects)) && Room() == old(Room())
    {
      hide HeaderWire, Cells, Space.Spare, Space.Layout, Space.Settled, HeaderIn, Gather, Sized;
      ghost var cells, before := Cells(iovecs), ram;
      var more := Range(mem, len);
      assert forall i :: 0 <= i < len ==> Within(more[i], mem, len);
      Room().SettleOutside(ram.Keys, cells, mem, len);
      Room().Bounds(ram.Keys, cells);
      Room().Apart(ram.Keys, cells, 0);
      AppendReal(mem, len);
      assert ram.Keys == before.Keys;
      SizeGrows(headerSize, |cells|, old(messageSize), len);
      assert Cells(iovecs)[headerSize..] == cells[headerSize..] + more;
      GatherOn(before, ram, cells[headerSize..], more, Gather(before, more));
    }

    /** giop_send_buffer_append: long pieces stay where the caller has them. */
    method Append(mem: nat, len: nat)
      requires Valid() && Foreign(mem, len) && (len > 0 || indirect > 0)
      modifies `ram, `iovecs, `numAlloced, `lastptr, `messageSize, `indirect, `indirectLeft, `indirects, `numIndirectsUsed
      ensures Valid() && Body() == old(Body()) + old(At(mem, len))
      ensures if len > COPY_LIMIT then Cells(iovecs) == old(Cells(iovecs)) + Range(mem, len) else Copied(|old(Cells(iovecs))|)
      ensures len > 0 && NoEmpty(old(iovecs)) ==> NoEmpty(iovecs)
      ensures Keeps(old(ram), old(indirects))
      ensures len <= COPY_LIMIT || old(indirect) > 0 ==> indirect > 0
      ensures old(Cells(iovecs)) <= Cells(iovecs) && old(indirects) <= indirects
    {
      if len <= COPY_LIMIT {
        AppendCopy(Gather(ram, Range(mem, len)));
      } else {
        AppendReference(mem, len);
      }
    }

    /** From the wrapped 32-bit size, the padding that the true length needs. */
    method Padding(k: nat) returns (amount: nat)
      requires Valid() && 0 < k && TWO32 % k == 0
      ensures headerSize + |Body()| + amount == Align(headerSize + |Body()|, k) && amount < k
    {
      hide HeaderWire, Cells, Space.Layout, Space.Settled, HeaderIn, Gather, Align;
      CellsAndBody();
      AlignWraps(headerSize + |Body()|, k);
      var ms := (messageSize + headerSize) % TWO32;
      amount := Align(ms, k) - ms;
    }

    /** giop_send_buffer_align: the padding is whatever the chunk held. */
    method AlignTo(k: nat)
      requires Valid() && 0 < k <= CHUNK_SIZE && TWO32 % k == 0
      modifies `ram, `iovecs, `numAlloced, `lastptr, `messageSize, `indirect, `indirectLeft, `indirects, `numIndirectsUsed
      ensures Valid() && old(Body()) <= Body()
      ensures headerSize + |Body()| == Align(headerSize + old(|Body()|), k)
      ensures NoEmpty(old(iovecs)) ==> NoEmpty(iovecs)
      ensures Keeps(old(ram), old(indirects)) && (old(indirect) > 0 ==> indirect > 0)
      ensures old(Cells(iovecs)) <= Cells(iovecs) && old(indirects) <= indirects
    {
      hide HeaderWire, Cells, Space.Spare, Owned, Space.Layout, Space.Settled, HeaderIn, Gather, Range, Sized, Align;
      Room().Bounds(ram.Keys, Cells(iovecs));
      var amount := Padding(k);
      if amount > 0 {
        MakeRoom(amount, 0);
        Advance(amount);
      }
    }

    /**
     giop_send_buffer_append_aligned of the bytes `b` found at the caller's
     address; `mark` is where they went.
     */
    method AppendAligned(k: nat, b: bytes) returns (mark: nat)
      requires Valid() && 0 < k <= CHUNK_SIZE && TWO32 % k == 0 && |b| == k
      modifies `ram, `iovecs, `numAlloced, `lastptr, `messageSize, `indirect, `indirectLeft, `indirects, `numIndirectsUsed
      ensures Valid() && old(Body()) <= Body()
      ensures headerSize + |Body()| == Align(headerSize + old(|Body()|), k) + k
      ensures Body()[|Body()| - k..] == b
      ensures Marks(mark, |Cells(iovecs)| - k, k)
      ensures NoEmpty(old(iovecs)) ==> NoEmpty(iovecs)
      ensures Keeps(old(ram), old(indirects)) && indirect > 0
      ensures old(Cells(iovecs)) <= Cells(iovecs) && old(indirects) <= indirects
    {
      hide HeaderWire, Cells, Space.Layout, Space.Settled, HeaderIn, Gather, Range, Space.Spare, Sized, Valid, Owned, MarkIn, NoEmpty, Align;
      AlignTo(k);
      mark := AppendMarked(b);
    }

    /** The copy behind the padding: the bytes stay within one chunk. */
    method AppendMarked(b: bytes) returns (mark: nat)
      requires Valid() && |b| <= CHUNK_SIZE && (|b| > 0 || indirect > 0)
      modifies `ram, `iovecs, `numAlloced, `lastptr, `messageSize, `indirect, `indirectLeft, `indirects, `numIndirectsUsed
      ensures Valid() && Body() == old(Body()) + b
      ensures |Cells(iovecs)| >= |b| && Marks(mark, |Cells(iovecs)| - |b|, |b|)
      ensures |b| > 0 && NoEmpty(old(iovecs)) ==> NoEmpty(iovecs)
      ensures Keeps(old(ram), old(indirects)) && indirect > 0
      ensures old(Cells(iovecs)) <= Cells(iovecs) && old(indirects) <= indirects
    {
      hide HeaderWire, Cells, Space.Layout, Space.Settled, HeaderIn, Gather, Range, Space.Spare, Sized, NoEmpty;
      MakeRoom(|b|, 0);
      mark := indirect;
      Copy(b);
      Room().CurrentIsChunked(ram.Keys, |b|);
      Advance(|b|);
    }

    /** `mark` is the chunk address of the contents from position `at` on. */
    ghost predicate Marks(mark: nat, at: nat, n: nat)
      reads this
    {
      MarkIn(Cells(iovecs), indirects, mark, at, n)
    }

    /** A caller's memcpy to a marker it was given. */
    method Patch(mark: nat, ghost at: nat, b: bytes)
      requires Valid() && headerSize <= at && Marks(mark, at, |b|)
      modifies `ram
      ensures Valid() && |Body()| == old(|Body()|)
      ensures var o := at - headerSize; Body() == old(Body())[..o] + b + old(Body())[o + |b|..]
    {
      hide HeaderWire, Cells, Gather, Space.Layout, Space.Settled, Range, Space.Spare, Owned, Sized, MarkIn, HeaderIn, Written;
      ghost var cells, was := Cells(iovecs), ram;
      Room().OneCellEach(ram.Keys, cells, at, |b|, mark);
      Room().Bounds(ram.Keys, cells);
      ram := Written(ram, mark, b);
      assert ram.Keys == was.Keys;
      SameHeader(was);
      PatchBehind(was, cells, headerSize, at, indirects, mark, b);
    }

    /**
     The pattern of every encapsulation: reserve a length word, append, come
     back and fill the word in. Appending in between does not move the mark.
     */
    method AppendCounted(mem: nat, len: nat)
      requires Valid() && 0 < len < TWO32 && Foreign(mem, len)
      modifies `ram, `iovecs, `numAlloced, `lastptr, `messageSize, `indirect, `indirectLeft, `indirects, `numIndirectsUsed
      ensures Valid() && old(Body()) <= Body()
      ensures headerSize + |Body()| == Align(headerSize + old(|Body()|), 4) + 4 + len
      ensures Body()[|Body()| - len - 4..] == Store(order, 4, len) + old(At(mem, len))
    {
      hide Valid, MarkIn, HeaderWire, Cells, Space.Layout, Space.Settled, HeaderIn, Gather, Range, Space.Spare, Owned, Store, Mapped, Align, Sized, Elsewhere, Keeps, Body, NoEmpty;
      ghost var was, room, content, start := ram, indirects, At(mem, len), Body();
      var junk: bytes :| |junk| == 4 by { assert |[0, 0, 0, 0 as byte]| == 4; }
      var mark := AppendAligned(4, junk);
      CellsAndBody();
      ghost var at, reserved, chunks, cells := |Cells(iovecs)| - 4, Body(), indirects, Cells(iovecs);
      SameBytes(mem, len, was, room);
      Append(mem, len);
      MarkStays(cells, chunks, Cells(iovecs), indirects, mark, at, 4);
      ghost var full := Body();
      assert full == reserved + content;
      Patch(mark, at, Store(order, 4, len));
      CountedBody(start, reserved, content, Store(order, 4, len), Body());
    }

    lemma CellsAndBody()
      requires Valid()
      ensures |Cells(iovecs)| == headerSize + |Body()|
    {
    }

    /** giop_send_buffer_append_string of the C string `s` at `mem`. */
    method AppendString(mem: nat, s: bytes)
      requires Valid() && |s| + 5 < TWO32 && Foreign(mem, |s| + 1) && At(mem, |s| + 1) == s + [0]
      modifies `ram, `iovecs, `numAlloced, `lastptr, `messageSize, `indirect, `indirectLeft, `indirects, `numIndirectsUsed
      ensures Valid() && old(Body()) <= Body()
      ensures headerSize + |Body()| == StringEnd(headerSize + old(|Body()|), s)
      ensures Body()[|Body()| - |s| - 5..] == Store(order, 4, |s| + 1) + s + [0]
      ensures (NoEmpty(old(iovecs)) ==> NoEmpty(iovecs)) && indirect > 0
      ensures old(Cells(iovecs)) <= Cells(iovecs) && old(indirects) <= indirects
    {
      hide HeaderWire, Cells, Space.Layout, Space.Settled, HeaderIn, Gather, Range, Space.Spare, Owned, Store, Mapped, Valid, Align, NoEmpty, Sized, Elsewhere, Keeps;
      ghost var was, room := ram, indirects;
      AlignTo(4);
      ghost var aligned := Body();
      SameBytes(mem, |s| + 1, was, room);
      LengthAndText(mem, s);
      assert Body()[|aligned|..] == Store(order, 4, |s| + 1) + (s + [0]);
    }

    /** Behind the alignment: one piece when the chunk has the room, otherwise two. */
    method LengthAndText(mem: nat, s: bytes)
      requires Valid() && |s| + 5 < TWO32 && Foreign(mem, |s| + 1) && At(mem, |s| + 1) == s + [0]
      modifies `ram, `iovecs, `numAlloced, `lastptr, `messageSize, `indirect, `indirectLeft, `indirects, `numIndirectsUsed
      ensures Valid() && Body() == old(Body()) + (Store(order, 4, |s| + 1) + (s + [0]))
      ensures (NoEmpty(old(iovecs)) ==> NoEmpty(iovecs)) && indirect > 0
      ensures old(Cells(iovecs)) <= Cells(iovecs) && old(indirects) <= indirects
    {
      hide HeaderWire, Cells, Space.Layout, Space.Settled, HeaderIn, Gather, Range, Space.Spare, Owned, Store, Mapped, NoEmpty, Sized, Elsewhere, Keeps;
      var len := |s| + 1;
      ghost var was, room := ram, indirects;
      Room().Bounds(ram.Keys, Cells(iovecs));
      if indirectLeft >= 4 + len {
        Copy(Store(order, 4, len) + (s + [0]));
        Advance(4 + len);
      } else {
        AppendCopy(Store(order, 4, len));
        SameBytes(mem, len, was, room);
        Append(mem, len);
      }
    }

    /** A new buffer: giop_send_buffer_use with an empty pool. */
    constructor (memory: Memory, order: Endian, minor: byte)
      ensures Valid() && Body() == [] && NoEmpty(iovecs) && indirects == [] && headerSize == HEADER_SIZE && |iovecs| == 1
      ensures this.order == order && this.minor == minor && kind == 0
      ensures Keeps(memory, [])
    {
      hide HeaderWire, Gather, Owned, HeaderIn;
      var h := HeaderWire(order, minor, 0, 0);
      var ram2, p := MallocCopy(memory, h);
      this.order, this.minor, kind := order, minor, 0;
      header := p;
      messageSize, headerSize := 0, HEADER_SIZE;
      ram := ram2;
      iovecs, numAlloced := [], 8;
      lastptr, indirect, indirectLeft := 0, 0, 0;
      indirects, numIndirectsUsed := [], 0;
      new;
      FreshHeader();
      StartMessage();
      NothingOwned();
    }

    lemma FreshHeader()
      requires Mapped(ram, Range(header, HEADER_SIZE))
      requires Gather(ram, Range(header, HEADER_SIZE)) == HeaderWire(order, minor, kind, messageSize)
      ensures Announced() && forall a: nat :: InHeader(a) ==> a in ram
    {
      hide HeaderWire, Gather;
      var r := Range(header, HEADER_SIZE);
      assert forall a: nat :: InHeader(a) ==> r[a - header] == a;
    }

    /** The message_type that the giop_send_buffer_use_* functions fill in. */
    method SetType(kind: byte)
      requires Valid()
      modifies `ram, `kind
      ensures Valid() && this.kind == kind && Body() == old(Body())
      ensures Keeps(old(ram), indirects)
    {
      hide HeaderWire, Gather, Range, Cells, Space.Layout, Space.Settled, Owned, Sized, Space.Spare, Mapped, MarkIn, Written;
      ghost var cells, was := Cells(iovecs), ram;
      Room().Bounds(ram.Keys, cells);
      Room().Apart(ram.Keys, cells, 0);
      KindField(order, minor, this.kind, kind, messageSize);
      Overwrite(ram, header, HEADER_SIZE, 7, [kind]);
      this.kind := kind;
      ram := Written(ram, header + 7, [kind]);
      assert ram.Keys == was.Keys;
      GatherSame(was, ram, cells, headerSize);
    }

    /** A buffer on the free list: only its chunks and the header matter. */
    ghost predicate Idle()
      reads this
    {
      Space(header, 0, indirects, 0, 0, 0).Layout(ram.Keys) && Announced() && |iovecs| <= numAlloced
    }

    /** giop_send_buffer_unuse: used chunks shrink to the standard size. */
    method Unuse()
      requires Valid()
      modifies `ram, `indirects
      ensures Idle() && |indirects| == old(|indirects|) && numIndirectsUsed == old(numIndirectsUsed)
      ensures forall k :: 0 <= k < numIndirectsUsed ==> indirects[k].size == CHUNK_SIZE
      ensures Keeps(old(ram), old(indirects))
    {
      hide HeaderIn, Gather, Owned, Cells, Space.Settled, Space.Layout, Sized;
      Room().Unused(ram.Keys);
      var k := 0;
      while k < numIndirectsUsed
        invariant k <= numIndirectsUsed <= |indirects| == old(|indirects|)
        invariant Idle() && Keeps(old(ram), old(indirects))
        invariant forall j :: 0 <= j < k ==> indirects[j].size == CHUNK_SIZE
      {
        Trim(k);
        k := k + 1;
      }
    }

    /** g_realloc of chunk `k` to the standard size, when it is larger; it may move. */
    method Trim(k: nat)
      requires Idle() && k < |indirects|
      modifies `ram, `indirects
      ensures Idle() && |indirects| == old(|indirects|) && indirects[k].size == CHUNK_SIZE
      ensures forall j :: 0 <= j < |indirects| && j != k ==> indirects[j] == old(indirects[j])
      ensures Keeps(old(ram), old(indirects))
    {
      hide HeaderIn, Gather, Space.Layout;
      var c := indirects[k];
      ghost var free := Space(header, 0, indirects, 0, 0, 0);
      free.HasHeader(ram.Keys);
      free.SizeOf(ram.Keys, k);
      if c.size > CHUNK_SIZE {
        ghost var was := ram;
        var others := map a | a in ram && !In(c, a) :: ram[a];
        var ram2, p := Malloc(others, CHUNK_SIZE);
        free.Trimmed(ram.Keys, ram2.Keys, k, p);
        ram := ram2;
        indirects := indirects[k := Chunk(p, CHUNK_SIZE)];
        SameHeader(was);
      }
    }

    /** giop_send_buffer_use of a buffer from the free list. */
    method Reuse(minor: byte)
      requires Idle()
      modifies this
      ensures Valid() && Body() == [] && NoEmpty(iovecs)
      ensures this.minor == minor && indirects == old(indirects) && numIndirectsUsed == 0
      ensures headerSize == HEADER_SIZE && |iovecs| == 1
      ensures Keeps(old(ram), indirects)
    {
      hide HeaderWire, Space.Layout, Owned, HeaderIn;
      ghost var was := ram;
      Space(header, 0, indirects, 0, 0, 0).HasHeader(ram.Keys);
      Space(header, 0, indirects, 0, 0, 0).Nowhere(ram.Keys, indirect, HEADER_SIZE);
      iovecs, indirectLeft, numIndirectsUsed, headerSize := [], 0, 0, HEADER_SIZE;
      SetVersion(minor);
      assert ram.Keys == was.Keys;
      StartMessage();
    }

    method SetVersion(minor: byte)
      requires Announced()
      modifies `ram, `minor
      ensures Announced() && this.minor == minor && ram.Keys == old(ram.Keys)
      ensures forall a :: a in ram && !InHeader(a) ==> ram[a] == old(ram[a])
    {
      hide HeaderWire, Gather, Range, Written;
      VersionField(order, this.minor, minor, kind, messageSize);
      Overwrite(ram, header, HEADER_SIZE, 4, [1, minor]);
      this.minor := minor;
      ram := Written(ram, header + 4, [1, minor]);
    }

    /** The common end of giop_send_buffer_use: the header becomes the first iovec. */
    method StartMessage()
      requires Idle() && Room().Layout(ram.Keys) && iovecs == [] && headerSize == HEADER_SIZE
      modifies `ram, `iovecs, `numAlloced, `lastptr, `messageSize
      ensures Valid() && Body() == [] && NoEmpty(iovecs) && |iovecs| == 1
      ensures Keeps(old(ram), indirects)
    {
      hide HeaderWire, Space.Layout, HeaderIn;
      ghost var was := ram.Keys;
      assert Cells(iovecs) == [];
      Room().HasHeader(was);
      AppendReal(header, HEADER_SIZE);
      SetMessageSize(0);
      assert ram.Keys == was;
      assert Cells(iovecs) == Range(header, HEADER_SIZE);
    }

    /** What object_to_string does to a new buffer: the contents will be the body alone. */
    method DropHeader()
      requires Valid() && Body() == [] && |iovecs| == 1 && headerSize == HEADER_SIZE
      modifies `ram, `iovecs, `lastptr, `messageSize, `headerSize
      ensures Valid() && Body() == [] && iovecs == [] && headerSize == 0
      ensures Keeps(old(ram), indirects)
    {
      hide HeaderWire, Gather, Space.Layout, HeaderIn;
      ghost var was := ram.Keys;
      Room().NoLead(was);
      headerSize, lastptr, iovecs := 0, 0, [];
      SetMessageSize(0);
      assert ram.Keys == was && Cells(iovecs) == [];
    }

    /** The caller gets memory of its own and puts `b` there. */
    method Place(b: bytes) returns (mem: nat)
      requires Valid()
      modifies `ram
      ensures Valid() && Contents() == old(Contents()) && Body() == old(Body())
      ensures Foreign(mem, |b|) && At(mem, |b|) == b
    {
      hide HeaderWire, Gather, Range, Cells, Space.Layout, Space.Settled, Owned, Sized;
      ghost var cells, was := Cells(iovecs), ram;
      Room().Bounds(ram.Keys, cells);
      var ram2, p := MallocCopy(ram, b);
      Room().MoreMemory(ram.Keys, ram2.Keys, cells);
      GatherSame(ram, ram2, cells, 0);
      GatherSame(ram, ram2, cells, headerSize);
      ram := ram2;
      SameHeader(was);
      assert cells[0..] == cells;
      mem := p;
    }
  }
}
