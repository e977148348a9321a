/**
 A GIOPSendBuffer as the marshallers use it: positions from the start of the
 message, words at their natural alignment, length words filled in later. Every
 operation runs on the iovecs; `data` is what they hold.
 */
module OutStreams {
  import opened Cdr
  import opened Giop
  import opened SendBuffers

  /** A reserved word: the address to write to, and the position it has in the message. */
  datatype Mark = Mark(address: nat, at: nat)

  ghost predicate AllMarked(marks: set<Mark>, lead: nat, cells: seq<nat>, chunks: seq<Chunk>)
  {
    forall m :: m in marks ==> lead <= m.at && MarkIn(cells, chunks, m.address, m.at, 4)
  }

  lemma MarksKept(marks: set<Mark>, lead: nat, cells: seq<nat>, chunks: seq<Chunk>, cells2: seq<nat>, chunks2: seq<Chunk>)
    requires AllMarked(marks, lead, cells, chunks) && cells <= cells2 && chunks <= chunks2
    ensures AllMarked(marks, lead, cells2, chunks2)
  {
    hide MarkIn;
    forall m | m in marks ensures lead <= m.at && MarkIn(cells2, chunks2, m.address, m.at, 4) {
      MarkStays(cells, chunks, cells2, chunks2, m.address, m.at, 4);
    }
  }

  lemma NoMarks(lead: nat, cells: seq<nat>, chunks: seq<Chunk>)
    ensures AllMarked({}, lead, cells, chunks)
  {
  }

  lemma BodyGrows(data: bytes, lead: nat, body: bytes)
    requires lead <= |data| && data[lead..] <= body
    ensures data <= data[..lead] + body
  {
    assert data == data[..lead] + data[lead..];
  }

  lemma BodyPatched(data: bytes, lead: nat, at: nat, b: bytes)
    requires lead <= at && at + |b| <= |data|
    ensures var body, o := data[lead..], at - lead;
            data[..lead] + (body[..o] + b + body[o + |b|..]) == data[..at] + b + data[at + |b|..]
  {
  }

  lemma StringLands(data: bytes, e: Endian, p: nat, s: bytes)
    requires |data| == StringEnd(p, s) && data[|data| - |s| - 5..] == Store(e, 4, |s| + 1) + s + [0]
    requires |s| + 1 < TWO32
    ensures StringWire(data, e, p, s)
  {
    hide Store, Align;
    PowerValues();
    assert Store(e, 4, |s| + 1) + s + [0] == Store(e, 4, |s| + 1) + (s + [0]);
    TwoPieces(data, Align(p, 4), Store(e, 4, |s| + 1), s + [0]);
    BytesAsWord(data, Align(p, 4), e, 4, |s| + 1);
  }

  lemma TwoPieces(data: bytes, a: nat, b: bytes, c: bytes)
    requires a <= |data| && data[a..] == b + c
    ensures BytesAt(data, a, b) && BytesAt(data, a + |b|, c)
  {
    assert data[a..a + |b|] == data[a..][..|b|];
    assert data[a + |b|..a + |b| + |c|] == data[a..][|b|..];
  }

  lemma SameTail(data: bytes, lead: nat, body: bytes, n: nat)
    requires lead <= |data| && data[lead..] == body && n <= |body|
    ensures data[|data| - n..] == body[|body| - n..]
  {
  }

  lemma SameBehind(data: bytes, m: bytes, lead: nat, body: bytes)
    requires lead <= |data| && data[lead..] == body && lead <= |m| && m[lead..] == body
    ensures |m| == |data| && SameOn(data, m, lead, |data|)
  {
    forall i | lead <= i < |data| ensures data[i] == m[i] {
      assert data[i] == body[i - lead] == m[i];
    }
  }

  /** The widths of CDR words. */
  predicate IsWidth(k: nat) { k in {1, 2, 4, 8} }

  class OutStream {
    const order: Endian
    const minor: byte
    const kind: byte
    /** header_size */
    const lead: nat
    const store: SendBuffer
    /** The message; its header, which is complete only when it is sent, left blank. */
    ghost var data: bytes
    ghost var marks: set<Mark>

    /** The buffer is in order and carries the header that was asked for. */
    ghost predicate Holds()
      reads store
    {
      store.Valid() && store.order == order && store.minor == minor && store.kind == kind && store.headerSize == lead <= HEADER_SIZE
    }

    ghost predicate Valid()
      reads this, store
    {
      && Holds() && store.indirect > 0
      && lead <= |data| && data[lead..] == store.Body()
      && AllMarked(marks, lead, Cells(store.iovecs), store.indirects)
    }

    /** What was written before is still there, and so are the reserved words. */
    ghost predicate Grown(before: bytes, held: set<Mark>)
      reads this, store
    {
      Valid() && before <= data && held <= marks
    }

    /** A new message, with the first piece of its GIOP header in it. */
    constructor (memory: Memory, order: Endian, minor: byte, kind: byte, first: bytes)
      requires 0 < |first| <= COPY_LIMIT
      ensures Valid() && fresh(store) && this.order == order && this.minor == minor && this.kind == kind && lead == HEADER_SIZE
      ensures |data| == HEADER_SIZE + |first| && data[HEADER_SIZE..] == first
    {
      hide SendBuffer.Valid, SendBuffer.Body, SendBuffer.Keeps, NoEmpty, Valid;
      this.order, this.minor, this.kind, lead := order, minor, kind, HEADER_SIZE;
      store := new SendBuffer(memory, order, minor);
      marks := {};
      data := seq(HEADER_SIZE, i => 0);
      new;
      store.SetType(kind);
      Begin(first);
    }

    /** The buffer of object_to_string: no header, and `first` at position 0. */
    constructor Headless(memory: Memory, order: Endian, minor: byte, first: bytes)
      requires 0 < |first| <= COPY_LIMIT
      ensures Valid() && fresh(store) && this.order == order && lead == 0
      ensures data == first
    {
      hide SendBuffer.Valid, SendBuffer.Body, SendBuffer.Keeps, NoEmpty, Valid;
      this.order, this.minor, this.kind, lead := order, minor, 0, 0;
      store := new SendBuffer(memory, order, minor);
      marks := {};
      data := [];
      new;
      store.DropHeader();
      Begin(first);
    }

    method Begin(first: bytes)
      requires Holds() && store.Body() == [] && |data| == lead && marks == {}
      requires 0 < |first| <= COPY_LIMIT
      modifies this, store
      ensures Valid() && data == old(data) + first
    {
      hide SendBuffer.Valid, SendBuffer.Body, AllMarked, Cells, SendBuffer.Foreign, SendBuffer.Keeps, NoEmpty, SendBuffer.At;
      NoMarks(lead, Cells(store.iovecs), store.indirects);
      ghost var cells, chunks := Cells(store.iovecs), store.indirects;
      var mem := store.Place(first);
      store.Append(mem, |first|);
      Follow(cells, chunks);
    }

    lemma Length()
      requires Valid() && |data| < TWO32
      ensures store.messageSize + lead == |data|
    {
      hide HeaderWire, Cells, Gather, AllMarked, SendBuffer.Valid, SendBuffer.Body, SendBuffer.Contents;
      store.HeaderThenBody();
    }

    /** message_size + header_size. */
    function Position(): (p: nat)
      requires Valid() && |data| < TWO32
      reads this, store
      ensures p == |data|
    {
      Length();
      store.messageSize + lead
    }

    /** After an append to the store. */
    ghost method Follow(cells: seq<nat>, chunks: seq<Chunk>)
      requires Holds() && store.indirect > 0
      requires lead <= |data| && data[lead..] <= store.Body()
      requires AllMarked(marks, lead, cells, chunks) && cells <= Cells(store.iovecs) && chunks <= store.indirects
      modifies `data
      ensures Valid() && data == old(data)[..lead] + store.Body() && old(data) <= data
    {
      hide SendBuffer.Valid, SendBuffer.Body, AllMarked, Cells;
      MarksKept(marks, lead, cells, chunks, Cells(store.iovecs), store.indirects);
      BodyGrows(data, lead, store.Body());
      data := data[..lead] + store.Body();
    }

    /** giop_send_buffer_append of bytes that the caller has somewhere in memory. */
    method Append(b: bytes)
      requires Valid()
      modifies this, store
      ensures Grown(old(data), old(marks)) && data == old(data) + b
    {
      hide SendBuffer.Valid, SendBuffer.Body, AllMarked, Cells, SendBuffer.Foreign, SendBuffer.Keeps, NoEmpty, SendBuffer.At;
      ghost var cells, chunks := Cells(store.iovecs), store.indirects;
      var mem := store.Place(b);
      store.Append(mem, |b|);
      Follow(cells, chunks);
    }

    /** The padding bytes are whatever the chunk memory held. */
    method AlignTo(k: nat)
      requires Valid() && IsWidth(k)
      modifies this, store
      ensures Grown(old(data), old(marks)) && |data| == Align(|old(data)|, k)
    {
      hide SendBuffer.Valid, SendBuffer.Body, AllMarked, Cells, SendBuffer.Keeps, NoEmpty, Align;
      ghost var cells, chunks := Cells(store.iovecs), store.indirects;
      store.AlignTo(k);
      Follow(cells, chunks);
    }

    method AppendAligned(k: nat, b: bytes)
      requires Valid() && IsWidth(k) && |b| == k
      modifies this, store
      ensures Grown(old(data), old(marks)) && |data| == Align(|old(data)|, k) + k
      ensures BytesAt(data, Align(|old(data)|, k), b)
    {
      hide SendBuffer.Valid, SendBuffer.Body, AllMarked, Cells, SendBuffer.Keeps, NoEmpty, Align, MarkIn;
      ghost var cells, chunks := Cells(store.iovecs), store.indirects;
      var _ := store.AppendAligned(k, b);
      Follow(cells, chunks);
    }

    /** append_aligned with a NULL source: space whose content is still unspecified. */
    method Reserve() returns (mark: nat, ghost at: nat)
      requires Valid()
      modifies this, store
      ensures Grown(old(data), old(marks)) && Mark(mark, at) in marks
      ensures at == Align(|old(data)|, 4) && |data| == at + 4
    {
      hide SendBuffer.Valid, SendBuffer.Body, AllMarked, Cells, SendBuffer.Keeps, NoEmpty, Align, MarkIn;
      ghost var cells, chunks := Cells(store.iovecs), store.indirects;
      var junk: bytes :| |junk| == 4 by { assert |[0, 0, 0, 0 as byte]| == 4; }
      mark := store.AppendAligned(4, junk);
      Follow(cells, chunks);
      store.CellsAndBody();
      at := |data| - 4;
      OneMore(Mark(mark, at));
      marks := marks + {Mark(mark, at)};
    }

    /** The memcpy into a marker that Reserve returned. */
    method Patch(mark: nat, ghost at: nat, b: bytes)
      requires Valid() && Mark(mark, at) in marks && |b| == 4
      modifies this, store
      ensures Valid() && marks == old(marks)
      ensures at + 4 <= |old(data)| == |data| && BytesAt(data, at, b)
      ensures data == old(data)[..at] + b + old(data)[at + 4..]
      ensures SameOn(old(data), data, 0, at) && SameOn(old(data), data, at + 4, |data|)
    {
      hide SendBuffer.Valid, SendBuffer.Body, Cells, MarkIn;
      store.CellsAndBody();
      Marked(Mark(mark, at));
      store.Patch(mark, at, b);
      BodyPatched(data, lead, at, b);
      data := data[..at] + b + data[at + 4..];
    }

    /** giop_send_buffer_append_string. */
    method AppendString(s: bytes)
      requires Valid() && |s| + 5 < TWO32
      modifies this, store
      ensures Grown(old(data), old(marks))
      ensures |data| == StringEnd(|old(data)|, s) && StringWire(data, order, |old(data)|, s)
    {
      hide SendBuffer.Valid, SendBuffer.Body, AllMarked, Cells, SendBuffer.Foreign, SendBuffer.Keeps, NoEmpty, SendBuffer.At, Store, StringEnd, StringWire;
      ghost var cells, chunks := Cells(store.iovecs), store.indirects;
      var mem := store.Place(s + [0]);
      store.AppendString(mem, s);
      Follow(cells, chunks);
      SameTail(data, lead, store.Body(), |s| + 5);
      StringLands(data, order, |old(data)|, s);
    }

    /** CDR_put_*: align to the word's own size, then append it. */
    method PutWord(w: nat, v: nat)
      requires Valid() && IsWidth(w) && v < Pow256(w)
      modifies this, store
      ensures Grown(old(data), old(marks)) && |data| == Align(|old(data)|, w) + w
      ensures WordAt(data, Align(|old(data)|, w), order, w, v)
    {
      hide Valid, Align;
      AppendAligned(w, Store(order, w, v));
    }

    /** What writev gathers. */
    function Message(): bytes
      requires Valid()
      reads this, store
    {
      store.Contents()
    }

    /** The header, complete now, and everything behind it. */
    lemma MessageIsData()
      requires Valid() && |data| < TWO32
      ensures |Message()| == |data| && SameOn(data, Message(), lead, |data|)
      ensures Message()[..lead] == HeaderWire(order, minor, kind, |data| - lead)[..lead]
    {
      hide HeaderWire, Cells, Gather, AllMarked, SendBuffer.Valid, SendBuffer.Body, SendBuffer.Contents;
      store.HeaderThenBody();
      SameBehind(data, store.Contents(), lead, store.Body());
    }

    /** Without a header the contents are the written bytes. */
    lemma Alone()
      requires Valid() && lead == 0
      ensures store.Valid() && store.headerSize == 0 && store.Contents() == data
    {
      hide HeaderWire, AllMarked, SendBuffer.Valid, SendBuffer.Body, SendBuffer.Contents;
      store.HeaderThenBody();
    }

    lemma Marked(m: Mark)
      requires Valid() && m in marks
      ensures lead <= m.at && store.Marks(m.address, m.at, 4) && m.at + 4 <= |Cells(store.iovecs)|
    {
      hide SendBuffer.Valid, SendBuffer.Body, Cells;
    }

    lemma OneMore(mark: Mark)
      requires Valid() && lead <= mark.at && store.Marks(mark.address, mark.at, 4)
      ensures AllMarked(marks + {mark}, lead, Cells(store.iovecs), store.indirects)
    {
      hide MarkIn;
    }
  }
}
