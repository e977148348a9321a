/**
 tc_dec inverts tc_enc. The decoded graph is the encoded one with every node's
 address replaced by the stream index it was written at, so the sharing comes
 back too; with 64-bit pointers this needs every indirection to stay inside its
 encapsulation, and otherwise the decoder stops in g_error.
 */
module TypeCodeRoundTrip {
  import opened Cdr
  import opened Common
  import opened TypeCodes
  import opened TypeCodeCodec

  // ------------------------------------------------------------ locality of indirections

  /**
   Every repeated node was first written inside the innermost encapsulation that
   holds the repetition. `seen` are the nodes written so far, `outer` those
   written before the current encapsulation started.
   */
  predicate Local(tc: TypeCode, outer: set<nat>, seen: set<nat>)
    decreases tc
  {
    match tc
    case Basic(_) => true
    case Simple(id, _, _) => id in seen ==> id !in outer
    case Complex(id, _, body) =>
      if id in seen then id !in outer else LocalBody(body, seen + {id}, seen + {id})
  }

  predicate LocalBody(body: Body, outer: set<nat>, seen: set<nat>)
    decreases body
  {
    match body
    case Reference(_, _) => true
    case Record(_, _, ms) => LocalParts(ms, outer, seen)
    case Choice(_, _, disc, _, arms) => Local(disc, outer, seen) && LocalParts(arms, outer, seen + Ids(disc))
    case Enumeration(_, _, _) => true
    case Element(elem, _) => Local(elem, outer, seen)
    case Renamed(_, _, elem) => Local(elem, outer, seen)
  }

  predicate LocalParts(ps: Parts, outer: set<nat>, seen: set<nat>)
    decreases ps
  {
    ps.Part? ==> Local(ps.tc, outer, seen) && LocalParts(ps.rest, outer, seen + Ids(ps.tc))
  }

  // ------------------------------------------------------------ the list as a map

  function AsMap(prior: seq<Known>): map<nat, TypeCode>
  {
    if prior == [] then map[] else AsMap(prior[1..])[prior[0].index := prior[0].tc]
  }

  /** Positions stay below what an unsigned, respectively a sign-extended, offset word can span. */
  function Limit(m: Model): nat { if m.ILP32? then TWO32 else 0x8000_0000 }

  lemma OffsetHits(m: Model, target: nat, index: nat, currentIdx: nat, rptr: nat)
    requires index < TWO32 && currentIdx + rptr < Limit(m) && target < currentIdx + rptr
    ensures OffsetMatches(m, OffsetWord(target, currentIdx + rptr), index, currentIdx, rptr)
       <==> index == target && (m.ILP32? || target >= currentIdx)
  {
    var here := currentIdx + rptr;
    assert OffsetWord(target, here) == target - here + TWO32;
    assert (index - here) % TWO32 == if index >= here then index - here else index - here + TWO32;
    assert index - currentIdx - rptr == index - here;
    assert (index - currentIdx) % TWO32 == if index >= currentIdx then index - currentIdx else index - currentIdx + TWO32;
  }

  /** With 64-bit pointers a target a little further back than that is missed even inside the encapsulation. */
  lemma LimitIsSharp()
    ensures var here := Limit(LP64) + 1; !OffsetMatches(LP64, OffsetWord(0, here), 0, 0, here)
  {
  }

  /** The newest-first list search is a map lookup; with 64-bit pointers it misses targets outside the encapsulation. */
  lemma {:induction false} FindIsLookup(m: Model, prior: seq<Known>, target: nat, currentIdx: nat, rptr: nat)
    requires forall i :: i in AsMap(prior) ==> i < TWO32
    requires currentIdx + rptr < Limit(m) && target < currentIdx + rptr
    ensures FindPrior(m, prior, OffsetWord(target, currentIdx + rptr), currentIdx, rptr) ==
            if target in AsMap(prior) && (m.ILP32? || target >= currentIdx) then Some(AsMap(prior)[target]) else None
  {
    if prior != [] {
      assert prior[0].index in AsMap(prior);
      assert forall i :: i in AsMap(prior[1..]) ==> i in AsMap(prior);
      OffsetHits(m, target, prior[0].index, currentIdx, rptr);
      FindIsLookup(m, prior[1..], target, currentIdx, rptr);
    }
  }

  // ------------------------------------------------------------ what encoder and decoder know

  /** The node at address `id` is finished: the decoder holds its image under its stream index. */
  ghost predicate Settled(env: map<nat, TypeCode>, id: nat, f: map<nat, nat>, known: map<nat, TypeCode>)
  {
    id in f && id in env && f[id] in known && Ids(env[id]) <= f.Keys && known[f[id]] == Relabel(env[id], f)
  }

  /** Every registered node is settled or strictly encloses the current term, so cannot occur in it. */
  ghost predicate Book(env: map<nat, TypeCode>, s: Spot, known: map<nat, TypeCode>, bound: nat)
  {
    && (forall id :: id in s.prior ==> id in env && s.prior[id] < s.pos)
    && (forall id :: id in s.prior ==> Settled(env, id, s.prior, known) || Size(env[id]) > bound)
    && (forall i :: i in known ==> i < s.pos)
  }

  /** From `s` to `s2` only settled nodes were added, at stream indexes in between. */
  ghost predicate Grown(env: map<nat, TypeCode>, s: Spot, s2: Spot, known: map<nat, TypeCode>, known2: map<nat, TypeCode>)
  {
    && s.pos <= s2.pos && Extends(s.prior, s2.prior) && Extends(known, known2)
    && (forall id :: id in s2.prior && id !in s.prior ==> s.pos <= s2.prior[id] < s2.pos && Settled(env, id, s2.prior, known2))
    && (forall i :: i in known2 && i !in known ==> s.pos <= i < s2.pos)
  }

  lemma SettledGrows(env: map<nat, TypeCode>, id: nat, f: map<nat, nat>, g: map<nat, nat>,
                     known: map<nat, TypeCode>, known2: map<nat, TypeCode>)
    requires Settled(env, id, f, known) && Extends(f, g) && Extends(known, known2)
    ensures Settled(env, id, g, known2)
  {
    RelabelGrows(env[id], f, g);
  }

  lemma BookGrows(env: map<nat, TypeCode>, s: Spot, s2: Spot, known: map<nat, TypeCode>, known2: map<nat, TypeCode>, bound: nat)
    requires Book(env, s, known, bound) && Grown(env, s, s2, known, known2)
    ensures Book(env, s2, known2, bound)
  {
    forall id | id in s2.prior ensures Settled(env, id, s2.prior, known2) || Size(env[id]) > bound {
      if id in s.prior && Settled(env, id, s.prior, known) {
        SettledGrows(env, id, s.prior, s2.prior, known, known2);
      }
    }
  }

  lemma GrownTwice(env: map<nat, TypeCode>, s: Spot, s2: Spot, s3: Spot, known: map<nat, TypeCode>,
                   known2: map<nat, TypeCode>, known3: map<nat, TypeCode>)
    requires Grown(env, s, s2, known, known2) && Grown(env, s2, s3, known2, known3)
    ensures Grown(env, s, s3, known, known3)
  {
    forall id | id in s3.prior && id !in s.prior
      ensures s.pos <= s3.prior[id] < s3.pos && Settled(env, id, s3.prior, known3)
    {
      if id in s2.prior {
        SettledGrows(env, id, s2.prior, s3.prior, known2, known3);
      }
    }
  }

  ghost function Before(f: map<nat, nat>, start: nat): set<nat>
  {
    set id | id in f && f[id] < start
  }

  /** The facts every decoder step starts from; `start` is where the current encapsulation begins. */
  ghost predicate Ready(env: map<nat, TypeCode>, c: RecvBuf, s: Spot, m: Model, prior: seq<Known>, bound: nat, q: nat)
  {
    && c.Valid() && c.body <= c.cur == s.pos <= q <= c.end < Limit(m)
    && Book(env, s, AsMap(prior), bound)
  }

  /** Decoding was right: the relabelled value, the cursor at the end of the encoding, only settled nodes added. */
  ghost predicate Right<T>(env: map<nat, TypeCode>, c: RecvBuf, s: Spot, s2: Spot, prior: seq<Known>, value: T, ids: set<nat>, r: Dec<T>)
  {
    && r.Done? && r.value == value && r.rest == c.(cur := s2.pos)
    && Grown(env, s, s2, AsMap(prior), AsMap(r.prior)) && s2.prior.Keys == s.prior.Keys + ids
  }

  lemma ReadyNext(env: map<nat, TypeCode>, c: RecvBuf, s: Spot, s2: Spot, s3: Spot, m: Model, prior: seq<Known>, prior2: seq<Known>, bound: nat, bound2: nat, q: nat, q2: nat)
    requires Ready(env, c, s, m, prior, bound, q) && Grown(env, s, s2, AsMap(prior), AsMap(prior2))
    requires bound2 <= bound && s3.prior == s2.prior && s2.pos <= s3.pos <= q2 <= q
    ensures Ready(env, c.(cur := s3.pos), s3, m, prior2, bound2, q2)
    ensures Before(s3.prior, c.body) == Before(s.prior, c.body)
  {
    BookGrows(env, s, s2, AsMap(prior), AsMap(prior2), bound);
  }

  lemma ReadyShift(env: map<nat, TypeCode>, c: RecvBuf, s: Spot, s2: Spot, m: Model, prior: seq<Known>, bound: nat, bound2: nat, q: nat, q2: nat)
    requires Ready(env, c, s, m, prior, bound, q)
    requires bound2 <= bound && s2.prior == s.prior && s.pos <= s2.pos <= q2 <= q
    ensures Ready(env, c.(cur := s2.pos), s2, m, prior, bound2, q2)
  {
  }

  lemma GrownWider(env: map<nat, TypeCode>, s: Spot, s1: Spot, s2: Spot, s3: Spot, known: map<nat, TypeCode>, known2: map<nat, TypeCode>)
    requires Grown(env, s1, s2, known, known2) && s.pos <= s1.pos && s2.pos <= s3.pos && s.prior == s1.prior && s2.prior == s3.prior
    ensures Grown(env, s, s3, known, known2)
  {
  }

  // ------------------------------------------------------------ the induction

  ghost predicate Reachable(m: Model, ok: bool) { m.ILP32? || ok }

  lemma {:induction false} TcDecodes(env: map<nat, TypeCode>, tc: TypeCode, c: RecvBuf, s: Spot, m: Model, prior: seq<Known>)
    requires Shaped(tc) && Shared(tc, env)
    requires Ready(env, c, s, m, prior, Size(tc), TcEnd(tc, s).pos) && TcWire(c.data, c.flag, tc, s)
    ensures var s2 := TcEnd(tc, s);
            if Reachable(m, Local(tc, Before(s.prior, c.body), s.prior.Keys))
            then Right(env, c, s, s2, prior, Relabel(tc, s2.prior), Ids(tc), TcDec(c, m, c.body, prior))
            else TcDec(c, m, c.body, prior) == Aborted
    decreases Size(tc), 1
  {
    hide TcDec, TcWire, BodyWire, TcEnd, Ready, Right, Relabel, Shaped, Align, Ids;
    if tc.Basic? {
      BasicDecodes(env, tc, c, s, m, prior);
    } else if tc.id in s.prior {
      BackDecodes(env, tc, c, s, m, prior);
    } else if tc.Simple? {
      SimpleDecodes(env, tc, c, s, m, prior);
    } else {
      ComplexDecodes(env, tc, c, s, m, prior);
    }
  }

  lemma BasicDecodes(env: map<nat, TypeCode>, tc: TypeCode, c: RecvBuf, s: Spot, m: Model, prior: seq<Known>)
    requires tc.Basic? && Shaped(tc)
    requires Ready(env, c, s, m, prior, Size(tc), TcEnd(tc, s).pos) && TcWire(c.data, c.flag, tc, s)
    ensures var s2 := TcEnd(tc, s);
            Right(env, c, s, s2, prior, Relabel(tc, s2.prior), Ids(tc), TcDec(c, m, c.body, prior))
  {
    PowerValues();
    GetWordReads(c, 4, tc.kind);
    var r := TcDec(c, m, c.body, prior);
    assert r.prior[1..] == prior;
  }

  lemma BackDecodes(env: map<nat, TypeCode>, tc: TypeCode, c: RecvBuf, s: Spot, m: Model, prior: seq<Known>)
    requires !tc.Basic? && Shared(tc, env) && tc.id in s.prior
    requires Ready(env, c, s, m, prior, Size(tc), TcEnd(tc, s).pos) && TcWire(c.data, c.flag, tc, s)
    ensures var s2 := TcEnd(tc, s);
            if Reachable(m, Local(tc, Before(s.prior, c.body), s.prior.Keys))
            then Right(env, c, s, s2, prior, Relabel(tc, s2.prior), Ids(tc), TcDec(c, m, c.body, prior))
            else TcDec(c, m, c.body, prior) == Aborted
  {
    assert Settled(env, tc.id, s.prior, AsMap(prior));
    assert s.prior.Keys + Ids(tc) == s.prior.Keys;
    BackReads(tc, c, s, m, prior);
  }

  lemma BackReads(tc: TypeCode, c: RecvBuf, s: Spot, m: Model, prior: seq<Known>)
    requires !tc.Basic? && tc.id in s.prior && s.prior[tc.id] in AsMap(prior)
    requires c.Valid() && c.body <= c.cur == s.pos && TcEnd(tc, s).pos <= c.end < Limit(m)
    requires s.prior[tc.id] < s.pos && forall i :: i in AsMap(prior) ==> i < s.pos
    requires TcWire(c.data, c.flag, tc, s)
    ensures TcDec(c, m, c.body, prior) ==
            if m.ILP32? || s.prior[tc.id] >= c.body then Done(AsMap(prior)[s.prior[tc.id]], c.(cur := TcEnd(tc, s).pos), prior)
            else Aborted
  {
    hide Align, WordAt, GetWord, TcDec, TcWire, TcEnd, OffsetWord, OffsetMatches, FindPrior, AsMap, BackWire, Limit;
    LimitBelow(m);
    var a := Align(c.cur, 4);
    BackLayout(c.data, c.flag, tc, s);
    var c1 := c.(cur := a + 4);
    BackWords(c, s.prior[tc.id]);
    FindIsLookup(m, prior, s.prior[tc.id], c.body, a + 8 - c.body);
    TcDecBack(c, m, c.body, prior, c1, OffsetWord(s.prior[tc.id], a + 8), c1.(cur := a + 8));
  }

  /** The two words of an indirection. */
  lemma BackWords(c: RecvBuf, index: nat)
    requires c.Valid() && index < c.cur && Align(c.cur, 4) + 8 <= c.end < TWO32 && BackWire(c.data, c.flag, Align(c.cur, 4), index)
    ensures var a := Align(c.cur, 4);
            && GetWord(c, 4) == Got(TK_RECURSIVE, c.(cur := a + 4))
            && GetWord(c.(cur := a + 4), 4) == Got(OffsetWord(index, a + 8), c.(cur := a + 8))
  {
    hide Align, WordAt, GetWord, OffsetWord;
    PowerValues();
    var a := Align(c.cur, 4);
    GetWordReads(c, 4, TK_RECURSIVE);
    assert Align(a + 4, 4) == a + 4;
    GetWordReads(c.(cur := a + 4), 4, OffsetWord(index, a + 8));
  }

  lemma BackLayout(data: bytes, e: Endian, tc: TypeCode, s: Spot)
    requires !tc.Basic? && tc.id in s.prior
    ensures TcEnd(tc, s).pos == Align(s.pos, 4) + 8
    ensures TcWire(data, e, tc, s) ==> BackWire(data, e, Align(s.pos, 4), s.prior[tc.id])
  {
  }

  lemma TcDecBack(c: RecvBuf, m: Model, currentIdx: nat, prior: seq<Known>, c1: RecvBuf, offset: nat, c2: RecvBuf)
    requires c.Valid() && c.cur <= c.end && c.body <= c.cur
    requires GetWord(c, 4) == Got(TK_RECURSIVE, c1) && c1.Valid() && GetWord(c1, 4) == Got(offset, c2)
    ensures TcDec(c, m, currentIdx, prior) ==
            match FindPrior(m, prior, offset, currentIdx, c2.cur - c2.body)
            case None => Aborted
            case Some(tc) => Done(tc, c2, prior)
  {
    hide GetWord, FindPrior, BodyDec;
  }

  /** A finished node enters the decoder's list under the index the encoder registered it at. */
  lemma FinishNode(env: map<nat, TypeCode>, tc: TypeCode, s: Spot, a: nat, body: Spot, s2: Spot, prior: seq<Known>, prior2: seq<Known>)
    requires !tc.Basic? && Shared(tc, env) && tc.id !in s.prior && s.pos <= a
    requires forall i :: i in AsMap(prior) ==> i < s.pos
    requires body.prior == s.prior[tc.id := a] && a < body.pos
    requires Grown(env, body, s2, AsMap(prior), AsMap(prior2)) && Ids(tc) <= s2.prior.Keys
    ensures Grown(env, s, s2, AsMap(prior), AsMap([Known(a, Relabel(tc, s2.prior))] + prior2))
  {
    var list := [Known(a, Relabel(tc, s2.prior))] + prior2;
    assert list[1..] == prior2;
    var known2, known3 := AsMap(prior2), AsMap(list);
    assert a !in known2;
    forall id | id in s2.prior && id !in s.prior ensures s.pos <= s2.prior[id] < s2.pos && Settled(env, id, s2.prior, known3) {
      if id != tc.id {
        SettledGrows(env, id, s2.prior, s2.prior, known2, known3);
      }
    }
  }

  lemma SimpleDecodes(env: map<nat, TypeCode>, tc: TypeCode, c: RecvBuf, s: Spot, m: Model, prior: seq<Known>)
    requires tc.Simple? && Shaped(tc) && Shared(tc, env) && tc.id !in s.prior
    requires Ready(env, c, s, m, prior, Size(tc), TcEnd(tc, s).pos) && TcWire(c.data, c.flag, tc, s)
    ensures var s2 := TcEnd(tc, s);
            Right(env, c, s, s2, prior, Relabel(tc, s2.prior), Ids(tc), TcDec(c, m, c.body, prior))
  {
    hide Align, WordAt, GetWord, BytesAt, UseEncaps, BodyDec, BodyEnd, BodyWire, FindPrior, Settled, SharedBody, ShapedBody;
    PowerValues();
    var a := Align(c.cur, 4);
    GetWordReads(c, 4, tc.kind);
    GetWordReads(c.(cur := a + 4), 4, tc.length);
    var s2 := TcEnd(tc, s);
    FinishNode(env, tc, s, a, s2, s2, prior, prior);
  }

  /** The contents of a node that has not been written before start behind kind, length and byte-order octet. */
  function Inside(tc: TypeCode, s: Spot): Spot
    requires tc.Complex?
  {
    Spot(Align(s.pos, 4) + 9, s.prior[tc.id := Align(s.pos, 4)])
  }

  lemma ComplexReads(tc: TypeCode, c: RecvBuf, s: Spot, m: Model, prior: seq<Known>)
    requires tc.Complex? && tc.kind < TK_LAST && !IsBasic(tc.kind) && tc.kind !in {TK_STRING, TK_WSTRING} && tc.id !in s.prior
    requires c.Valid() && c.body <= c.cur == s.pos && TcEnd(tc, s).pos <= c.end < TWO32 && TcWire(c.data, c.flag, tc, s)
    ensures var a := Align(c.cur, 4);
            var q := TcEnd(tc, s).pos;
            var inner := RecvBuf(c.data, a + 8, a + 9, q, c.flag, c.host);
            var r := BodyDec(tc.kind, inner, m, a + 8, prior);
            TcDec(c, m, c.body, prior) ==
            if r.Done? then Done(Complex(a, tc.kind, r.value), c.(cur := q), [Known(a, Complex(a, tc.kind, r.value))] + r.prior)
            else if r.Aborted? then Aborted else Malformed
  {
    hide Align, WordAt, GetWord, UseEncaps, BodyDec, TcEnd, TcWire, FindPrior, TcDec;
    PowerValues();
    var a, q := Align(c.cur, 4), TcEnd(tc, s).pos;
    var c1 := c.(cur := a + 4);
    ComplexLayout(tc, c.data, c.flag, s);
    GetWordReads(c, 4, tc.kind);
    assert Align(a + 4, 4) == a + 4;
    UseEncapsReads(c1, q - (a + 8), c.flag);
    TcDecComplex(c, m, prior, tc.kind, c1, RecvBuf(c.data, a + 8, a + 9, q, c.flag, c.host), c.(cur := q));
  }

  lemma ComplexLayout(tc: TypeCode, data: bytes, e: Endian, s: Spot)
    requires tc.Complex? && tc.id !in s.prior && TcWire(data, e, tc, s)
    ensures var a := Align(s.pos, 4);
            && TcEnd(tc, s).pos >= a + 9 && WordAt(data, a, e, 4, tc.kind)
            && WordAt(data, a + 4, e, 4, TcEnd(tc, s).pos - (a + 8)) && BytesAt(data, a + 8, [FlagByte(e)])
  {
    hide Align, WordAt, BodyWire, BodyEnd;
  }

  lemma TcDecComplex(c: RecvBuf, m: Model, prior: seq<Known>, kind: nat, c1: RecvBuf, inner: RecvBuf, c2: RecvBuf)
    requires c.Valid() && c.cur <= c.end && c.body <= c.cur
    requires kind < TK_LAST && !IsBasic(kind) && kind !in {TK_STRING, TK_WSTRING}
    requires GetWord(c, 4) == Got(kind, c1) && c1.Valid() && UseEncaps(c1) == Got(inner, c2) && c1.body == c.body <= c1.cur - 4
    requires inner.Valid() && inner.body <= inner.cur <= inner.end && c1.cur == inner.body - 4
    ensures var r := BodyDec(kind, inner, m, inner.body, prior);
            TcDec(c, m, c.body, prior) ==
            if r.Done? then Done(Complex(c1.cur - 4, kind, r.value), c2, [Known(c1.cur - 4, Complex(c1.cur - 4, kind, r.value))] + r.prior)
            else if r.Aborted? then Aborted else Malformed
  {
    hide GetWord, UseEncaps, BodyDec, FindPrior;
  }

  lemma InsideReady(env: map<nat, TypeCode>, tc: TypeCode, c: RecvBuf, s: Spot, m: Model, prior: seq<Known>)
    requires tc.Complex? && Shared(tc, env) && tc.id !in s.prior
    requires Ready(env, c, s, m, prior, Size(tc), TcEnd(tc, s).pos)
    ensures var i, q := Inside(tc, s), TcEnd(tc, s).pos;
            var inner := RecvBuf(c.data, i.pos - 1, i.pos, q, c.flag, c.host);
            && Ready(env, inner, i, m, prior, BodySize(tc.body), q)
            && i.prior.Keys == Before(i.prior, inner.body) == s.prior.Keys + {tc.id}
  {
    hide Align, BodyEnd, Settled, AsMap, SharedBody;
    var i := Inside(tc, s);
    forall id | id in i.prior
      ensures Settled(env, id, i.prior, AsMap(prior)) || Size(env[id]) > BodySize(tc.body)
    {
      if id != tc.id && Settled(env, id, s.prior, AsMap(prior)) {
        SettledGrows(env, id, s.prior, i.prior, AsMap(prior), AsMap(prior));
      }
    }
  }

  lemma {:induction false} ComplexDecodes(env: map<nat, TypeCode>, tc: TypeCode, c: RecvBuf, s: Spot, m: Model, prior: seq<Known>)
    requires tc.Complex? && Shaped(tc) && Shared(tc, env) && tc.id !in s.prior
    requires Ready(env, c, s, m, prior, Size(tc), TcEnd(tc, s).pos) && TcWire(c.data, c.flag, tc, s)
    ensures var s2 := TcEnd(tc, s);
            if Reachable(m, Local(tc, Before(s.prior, c.body), s.prior.Keys))
            then Right(env, c, s, s2, prior, Relabel(tc, s2.prior), Ids(tc), TcDec(c, m, c.body, prior))
            else TcDec(c, m, c.body, prior) == Aborted
    decreases Size(tc), 0
  {
    hide Align, WordAt, BytesAt, BodyDec, TcDec, BodyEnd, BodyWire, SharedBody, ShapedParts, CString, AsMap, Settled, RelabelBody, BodyIds, LocalBody, Grown, Relabel, Ids, Before;
    var a, i, s2 := Align(c.cur, 4), Inside(tc, s), TcEnd(tc, s);
    ComplexReads(tc, c, s, m, prior);
    InsideReady(env, tc, c, s, m, prior);
    var inner := RecvBuf(c.data, a + 8, a + 9, s2.pos, c.flag, c.host);
    BodyDecodes(env, tc.kind, tc.body, inner, i, m, prior);
    var rb := BodyDec(tc.kind, inner, m, inner.body, prior);
    if rb.Done? {
      NodeRight(env, tc, c, s, m, prior, rb);
    }
  }

  lemma NodeRight(env: map<nat, TypeCode>, tc: TypeCode, c: RecvBuf, s: Spot, m: Model, prior: seq<Known>, rb: Dec<Body>)
    requires tc.Complex? && Shared(tc, env) && tc.id !in s.prior
    requires Ready(env, c, s, m, prior, Size(tc), TcEnd(tc, s).pos)
    requires var i, s2 := Inside(tc, s), TcEnd(tc, s);
             var inner := RecvBuf(c.data, i.pos - 1, i.pos, s2.pos, c.flag, c.host);
             Right(env, inner, i, s2, prior, RelabelBody(tc.body, s2.prior), BodyIds(tc.body), rb)
    ensures var a, s2 := Align(c.cur, 4), TcEnd(tc, s);
            var node := Complex(a, tc.kind, rb.value);
            Right(env, c, s, s2, prior, Relabel(tc, s2.prior), Ids(tc), Done(node, c.(cur := s2.pos), [Known(a, node)] + rb.prior))
  {
    hide Align, BodyEnd, SharedBody, AsMap, Settled, RelabelBody, BodyIds;
    var a, i, s2 := Align(c.cur, 4), Inside(tc, s), TcEnd(tc, s);
    assert tc.id in i.prior && i.prior[tc.id] == a;
    FinishNode(env, tc, s, a, i, s2, prior, rb.prior);
  }

  lemma {:induction false} BodyDecodes(env: map<nat, TypeCode>, kind: nat, body: Body, c: RecvBuf, s: Spot, m: Model, prior: seq<Known>)
    requires ShapedBody(kind, body) && SharedBody(body, env)
    requires Ready(env, c, s, m, prior, BodySize(body), BodyEnd(body, s).pos) && BodyWire(c.data, c.flag, body, s)
    ensures var s2 := BodyEnd(body, s);
            if Reachable(m, LocalBody(body, Before(s.prior, c.body), s.prior.Keys))
            then Right(env, c, s, s2, prior, RelabelBody(body, s2.prior), BodyIds(body), BodyDec(kind, c, m, c.body, prior))
            else BodyDec(kind, c, m, c.body, prior) == Aborted
    decreases BodySize(body), 4
  {
    hide BodyWire, BodyDec, NamedDec, SharedBody, ShapedBody, Ready, Right, BodyEnd, Named;
    if body.Element? {
      ElementDecodes(env, kind, body, c, s, m, prior);
    } else {
      BodyStarts(env, kind, body, c, s, m, prior);
      match body
      case Reference(_, _) => ReferenceDecodes(env, kind, body, c, s, m, prior);
      case Record(_, _, _) => RecordDecodes(env, kind, body, c, s, m, prior);
      case Choice(_, _, _, _, _) => ChoiceDecodes(env, kind, body, c, s, m, prior);
      case Enumeration(_, _, _) => EnumerationDecodes(env, kind, body, c, s, m, prior);
      case Renamed(_, _, _) => RenamedDecodes(env, kind, body, c, s, m, prior);
    }
  }

  /** Where the named decoders start: behind repository id and name. */
  function Named(body: Body, s: Spot): Spot
    requires !body.Element?
  {
    Spot(StringEnd(StringEnd(s.pos, body.repoId), body.name), s.prior)
  }

  lemma BodyStarts(env: map<nat, TypeCode>, kind: nat, body: Body, c: RecvBuf, s: Spot, m: Model, prior: seq<Known>)
    requires !body.Element? && ShapedBody(kind, body)
    requires Ready(env, c, s, m, prior, BodySize(body), BodyEnd(body, s).pos) && BodyWire(c.data, c.flag, body, s)
    ensures BodyDec(kind, c, m, c.body, prior) ==
            NamedDec(kind, body.repoId, body.name, c.(cur := Named(body, s).pos), m, c.body, prior)
  {
    hide WordAt, BytesAt, GetWord, GetString, StringWire, TcWire, PartsWire, NamesWire, TcDec, NamedDec, Book, StringEnd, Shaped, ShapedParts, CString;
    assert s.pos <= StringEnd(s.pos, body.repoId) <= Named(body, s).pos <= BodyEnd(body, s).pos;
    GetStringReads(c, body.repoId);
    GetStringReads(c.(cur := StringEnd(c.cur, body.repoId)), body.name);
  }

  lemma {:induction false} ElementDecodes(env: map<nat, TypeCode>, kind: nat, body: Body, c: RecvBuf, s: Spot, m: Model, prior: seq<Known>)
    requires body.Element? && ShapedBody(kind, body) && SharedBody(body, env)
    requires Ready(env, c, s, m, prior, BodySize(body), BodyEnd(body, s).pos) && BodyWire(c.data, c.flag, body, s)
    ensures var s2 := BodyEnd(body, s);
            if Reachable(m, LocalBody(body, Before(s.prior, c.body), s.prior.Keys))
            then Right(env, c, s, s2, prior, RelabelBody(body, s2.prior), BodyIds(body), BodyDec(kind, c, m, c.body, prior))
            else BodyDec(kind, c, m, c.body, prior) == Aborted
    decreases BodySize(body), 3
  {
    hide Align, WordAt, BytesAt, GetWord, StringWire, NamePairWire, TcWire, TcEnd, PartsWire, PartsEnd, NamesWire, NamesEnd, StringEnd, NamesDec, TcDec, Book, Settled, Shared, SharedParts, Shaped, ShapedParts, CString, AsMap, Ids, PartsIds, Relabel, RelabelParts, Local, LocalParts;
    PowerValues();
    TcDecodes(env, body.elem, c, s, m, prior);
    var d := TcEnd(body.elem, s);
    if TcDec(c, m, c.body, prior).Done? {
      GetWordReads(c.(cur := d.pos), 4, body.length);
    }
  }

  lemma ReferenceDecodes(env: map<nat, TypeCode>, kind: nat, body: Body, c: RecvBuf, s: Spot, m: Model, prior: seq<Known>)
    requires body.Reference? && ShapedBody(kind, body)
    requires Ready(env, c, s, m, prior, BodySize(body), BodyEnd(body, s).pos)
    ensures var s1, s2 := Named(body, s), BodyEnd(body, s);
            Right(env, c, s, s2, prior, body, BodyIds(body), NamedDec(kind, body.repoId, body.name, c.(cur := s1.pos), m, c.body, prior))
  {
    hide AsMap, Align, Book, CString, Settled, TcDec, PartsDec, NamesDec, ArmsDec;
  }

  lemma {:induction false} RenamedDecodes(env: map<nat, TypeCode>, kind: nat, body: Body, c: RecvBuf, s: Spot, m: Model, prior: seq<Known>)
    requires body.Renamed? && ShapedBody(kind, body) && SharedBody(body, env)
    requires Ready(env, c, s, m, prior, BodySize(body), BodyEnd(body, s).pos) && BodyWire(c.data, c.flag, body, s)
    ensures var s1, s2 := Named(body, s), BodyEnd(body, s);
            var r := NamedDec(kind, body.repoId, body.name, c.(cur := s1.pos), m, c.body, prior);
            if Reachable(m, LocalBody(body, Before(s.prior, c.body), s.prior.Keys))
            then Right(env, c, s, s2, prior, RelabelBody(body, s2.prior), BodyIds(body), r)
            else r == Aborted
    decreases BodySize(body), 3
  {
    hide Align, WordAt, BytesAt, GetWord, StringWire, NamePairWire, TcWire, TcEnd, PartsWire, PartsEnd, NamesWire, NamesEnd, StringEnd, NamesDec, TcDec, Book, Settled, Shared, SharedParts, Shaped, ShapedParts, CString, AsMap, Ids, PartsIds, Relabel, RelabelParts, Local, LocalParts;
    var s1 := Named(body, s);
    ReadyShift(env, c, s, s1, m, prior, BodySize(body), Size(body.elem), BodyEnd(body, s).pos, TcEnd(body.elem, s1).pos);
    TcDecodes(env, body.elem, c.(cur := s1.pos), s1, m, prior);
  }

  lemma {:induction false} RecordDecodes(env: map<nat, TypeCode>, kind: nat, body: Body, c: RecvBuf, s: Spot, m: Model, prior: seq<Known>)
    requires body.Record? && ShapedBody(kind, body) && SharedBody(body, env)
    requires Ready(env, c, s, m, prior, BodySize(body), BodyEnd(body, s).pos) && BodyWire(c.data, c.flag, body, s)
    ensures var s1, s2 := Named(body, s), BodyEnd(body, s);
            var r := NamedDec(kind, body.repoId, body.name, c.(cur := s1.pos), m, c.body, prior);
            if Reachable(m, LocalBody(body, Before(s.prior, c.body), s.prior.Keys))
            then Right(env, c, s, s2, prior, RelabelBody(body, s2.prior), BodyIds(body), r)
            else r == Aborted
    decreases BodySize(body), 3
  {
    hide Align, WordAt, BytesAt, GetWord, StringWire, NamePairWire, TcWire, TcEnd, PartsWire, PartsEnd, StringEnd, TcDec, PartsDec, NamesDec, ArmsDec, Book, Settled, Shared, SharedParts, Shaped, ShapedParts, CString, AsMap, PartsIds, RelabelParts, LocalParts;
    PowerValues();
    var s1, h, s2 := Named(body, s), HeaderEnd(body.repoId, body.name, s), BodyEnd(body, s);
    CountFits(0, body.members, h);
    GetWordReads(c.(cur := s1.pos), 4, Count(body.members));
    ReadyShift(env, c, s, h, m, prior, BodySize(body), PartsSize(body.members), s2.pos, s2.pos);
    PartsDecodes(env, 0, body.members, c.(cur := h.pos), h, m, prior);
  }

  lemma EnumerationDecodes(env: map<nat, TypeCode>, kind: nat, body: Body, c: RecvBuf, s: Spot, m: Model, prior: seq<Known>)
    requires body.Enumeration? && ShapedBody(kind, body)
    requires Ready(env, c, s, m, prior, BodySize(body), BodyEnd(body, s).pos) && BodyWire(c.data, c.flag, body, s)
    ensures var s1, s2 := Named(body, s), BodyEnd(body, s);
            var r := NamedDec(kind, body.repoId, body.name, c.(cur := s1.pos), m, c.body, prior);
            Right(env, c, s, s2, prior, body, BodyIds(body), r)
  {
    hide Align, WordAt, BytesAt, GetWord, StringWire, NamePairWire, TcWire, TcEnd, PartsWire, PartsEnd, NamesWire, NamesEnd, StringEnd, NamesDec, TcDec, Book, Settled, Shared, SharedParts, Shaped, ShapedParts, CString, AsMap, Ids, PartsIds, Relabel, RelabelParts, Local, LocalParts;
    PowerValues();
    var s1, h := Named(body, s), HeaderEnd(body.repoId, body.name, s);
    NamesFit(body.names, h.pos);
    GetWordReads(c.(cur := s1.pos), 4, |body.names|);
    NamesDecode(body.names, c.(cur := h.pos));
  }

  /** Behind discriminator, default index and arm count. */
  function ArmsSpot(body: Body, s: Spot): Spot
    requires body.Choice?
  {
    var d := TcEnd(body.disc, Named(body, s));
    Spot(Align(d.pos, 4) + 8, d.prior)
  }

  lemma ArmsRead(body: Body, c: RecvBuf, s: Spot, m: Model, prior: seq<Known>, disc: TypeCode)
    requires body.Choice? && ShapedBody(TK_UNION, body) && KindOf(disc) == KindOf(body.disc)
    requires c.Valid() && c.body <= c.cur == s.pos && BodyEnd(body, s).pos <= c.end < TWO32 && BodyWire(c.data, c.flag, body, s)
    ensures var d, a := TcEnd(body.disc, Named(body, s)), ArmsSpot(body, s);
            var r := PartsDec(KindOf(disc), Count(body.arms), c.(cur := a.pos), m, c.body, prior);
            ArmsDec(body.repoId, body.name, disc, c.(cur := d.pos), m, c.body, prior) ==
            if r.Done? then Done(Choice(body.repoId, body.name, disc, body.defaultIndex, r.value), r.rest, r.prior)
            else if r.Aborted? then Aborted else Malformed
  {
    hide Align, WordAt, BytesAt, GetWord, NamePairWire, TcWire, TcEnd, PartsWire, PartsEnd, StringEnd, PartsDec, Shaped, ShapedParts, CString, LabelWidth;
    PowerValues();
    var d, a := TcEnd(body.disc, Named(body, s)), ArmsSpot(body, s);
    var q := Align(d.pos, 4);
    CountFits(KindOf(body.disc), body.arms, a);
    GetWordReads(c.(cur := d.pos), 4, body.defaultIndex % TWO32);
    assert Align(q + 4, 4) == q + 4;
    GetWordReads(c.(cur := q + 4), 4, Count(body.arms));
  }

  lemma {:induction false} ChoiceDecodes(env: map<nat, TypeCode>, kind: nat, body: Body, c: RecvBuf, s: Spot, m: Model, prior: seq<Known>)
    requires body.Choice? && ShapedBody(kind, body) && SharedBody(body, env)
    requires Ready(env, c, s, m, prior, BodySize(body), BodyEnd(body, s).pos) && BodyWire(c.data, c.flag, body, s)
    ensures var s1, s2 := Named(body, s), BodyEnd(body, s);
            var r := NamedDec(kind, body.repoId, body.name, c.(cur := s1.pos), m, c.body, prior);
            if Reachable(m, LocalBody(body, Before(s.prior, c.body), s.prior.Keys))
            then Right(env, c, s, s2, prior, RelabelBody(body, s2.prior), BodyIds(body), r)
            else r == Aborted
    decreases BodySize(body), 3
  {
    hide Align, WordAt, BytesAt, GetWord, NamePairWire, TcWire, TcEnd, PartsWire, PartsEnd, StringEnd, NamesDec, PartsDec, ArmsDec, TcDec, Book, Grown, Settled, Shared, SharedParts, Shaped, ShapedParts, CString, AsMap, Ids, PartsIds, Relabel, RelabelParts, Local, LocalParts, BodyWire, ShapedBody, Limit;
    var s1, a, s2 := Named(body, s), ArmsSpot(body, s), BodyEnd(body, s);
    ChoiceLayout(kind, body, c.data, c.flag, s);
    LimitBelow(m);
    var c1, d := c.(cur := s1.pos), TcEnd(body.disc, s1);
    ReadyShift(env, c, s, s1, m, prior, BodySize(body), BodySize(body), s2.pos, s2.pos);
    ReadyShift(env, c1, s1, s1, m, prior, BodySize(body), Size(body.disc), s2.pos, d.pos);
    TcDecodes(env, body.disc, c1, s1, m, prior);
    var rd := TcDec(c1, m, c.body, prior);
    if rd.Done? {
      ArmsRead(body, c, s, m, rd.prior, rd.value);
      ReadyNext(env, c1, s1, d, a, m, prior, rd.prior, BodySize(body), PartsSize(body.arms), s2.pos, s2.pos);
      PartsDecodes(env, KindOf(body.disc), body.arms, c.(cur := a.pos), a, m, rd.prior);
      var rp := PartsDec(KindOf(body.disc), Count(body.arms), c.(cur := a.pos), m, c.body, rd.prior);
      if rp.Done? {
        RelabelLater(env, body.disc, s1, d, a, s2, prior, rd.prior, rp.prior);
        GrownJoin(env, s, s1, d, a, s2, AsMap(prior), AsMap(rd.prior), AsMap(rp.prior));
      }
    }
  }

  lemma ChoiceLayout(kind: nat, body: Body, data: bytes, e: Endian, s: Spot)
    requires body.Choice? && ShapedBody(kind, body) && BodyWire(data, e, body, s)
    ensures kind == TK_UNION && Shaped(body.disc) && ShapedParts(KindOf(body.disc), body.arms)
    ensures var a := ArmsSpot(body, s);
            TcWire(data, e, body.disc, Named(body, s)) && PartsWire(data, e, KindOf(body.disc), body.arms, a)
    ensures s.pos <= Named(body, s).pos
  {
    hide WordAt, TcWire, TcEnd, PartsWire, Align, NamePairWire, CString, Shaped, ShapedParts;
  }

  lemma LimitBelow(m: Model)
    ensures Limit(m) <= TWO32
  {
  }

  lemma GrownJoin(env: map<nat, TypeCode>, s: Spot, s1: Spot, d: Spot, a: Spot, s2: Spot, known: map<nat, TypeCode>, known2: map<nat, TypeCode>, known3: map<nat, TypeCode>)
    requires Grown(env, s1, d, known, known2) && Grown(env, a, s2, known2, known3)
    requires s.pos <= s1.pos && s1.prior == s.prior && d.pos <= a.pos && d.prior == a.prior
    ensures Grown(env, s, s2, known, known3)
  {
    GrownWider(env, s, s1, d, a, known, known2);
    GrownTwice(env, s, a, s2, known, known2, known3);
  }

  lemma RelabelLater(env: map<nat, TypeCode>, tc: TypeCode, s1: Spot, d: Spot, a: Spot, s2: Spot, prior: seq<Known>, prior2: seq<Known>, prior3: seq<Known>)
    requires Grown(env, s1, d, AsMap(prior), AsMap(prior2)) && Grown(env, a, s2, AsMap(prior2), AsMap(prior3))
    requires d.prior == a.prior && Ids(tc) <= d.prior.Keys
    ensures Relabel(tc, d.prior) == Relabel(tc, s2.prior)
  {
    RelabelGrows(tc, d.prior, s2.prior);
  }

  lemma PartReads(kind: nat, ps: Parts, c: RecvBuf, s: Spot, m: Model, prior: seq<Known>)
    requires ps.Part? && ShapedParts(kind, ps)
    requires c.Valid() && c.body <= c.cur == s.pos && PartsEnd(kind, ps, s).pos <= c.end < TWO32 && PartsWire(c.data, c.flag, kind, ps, s)
    ensures var s1 := PartSpot(kind, ps, s);
            var rd := TcDec(c.(cur := s1.pos), m, c.body, prior);
            PartsDec(kind, Count(ps), c, m, c.body, prior) ==
            if rd.Aborted? then Aborted
            else if rd.Malformed? then Malformed
            else var rp := PartsDec(kind, Count(ps.rest), rd.rest, m, c.body, rd.prior);
                 if rp.Aborted? then Aborted
                 else if rp.Malformed? then Malformed
                 else Done(Part(ps.tag, ps.name, rd.value, rp.value), rp.rest, rp.prior)
  {
    hide Align, WordAt, BytesAt, GetWord, GetString, StringWire, LabelWire, TcWire, TcEnd, StringEnd, LabelEnd, TcDec, LabelDec, Shaped, CString;
    var p := LabelEnd(kind, s.pos);
    assert c.cur <= p <= StringEnd(p, ps.name) <= PartsEnd(kind, ps, s).pos;
    LabelDecodes(kind, ps.tag, c);
    GetStringReads(c.(cur := p), ps.name);
  }

  /** Where a part's TypeCode starts: behind its label and its name. */
  function PartSpot(kind: nat, ps: Parts, s: Spot): Spot
    requires ps.Part?
  {
    Spot(StringEnd(LabelEnd(kind, s.pos), ps.name), s.prior)
  }

  lemma {:induction false} PartsDecodes(env: map<nat, TypeCode>, kind: nat, ps: Parts, c: RecvBuf, s: Spot, m: Model, prior: seq<Known>)
    requires ShapedParts(kind, ps) && SharedParts(ps, env)
    requires Ready(env, c, s, m, prior, PartsSize(ps), PartsEnd(kind, ps, s).pos) && PartsWire(c.data, c.flag, kind, ps, s)
    ensures var s2 := PartsEnd(kind, ps, s);
            var r := PartsDec(kind, Count(ps), c, m, c.body, prior);
            if Reachable(m, LocalParts(ps, Before(s.prior, c.body), s.prior.Keys))
            then Right(env, c, s, s2, prior, RelabelParts(ps, s2.prior), PartsIds(ps), r)
            else r == Aborted
    decreases PartsSize(ps), 2
  {
    if ps.Part? {
      PartDecodes(env, kind, ps, c, s, m, prior);
    }
  }

  lemma {:induction false} PartDecodes(env: map<nat, TypeCode>, kind: nat, ps: Parts, c: RecvBuf, s: Spot, m: Model, prior: seq<Known>)
    requires ps.Part? && ShapedParts(kind, ps) && SharedParts(ps, env)
    requires Ready(env, c, s, m, prior, PartsSize(ps), PartsEnd(kind, ps, s).pos) && PartsWire(c.data, c.flag, kind, ps, s)
    ensures var s2 := PartsEnd(kind, ps, s);
            var r := PartsDec(kind, Count(ps), c, m, c.body, prior);
            if Reachable(m, LocalParts(ps, Before(s.prior, c.body), s.prior.Keys))
            then Right(env, c, s, s2, prior, RelabelParts(ps, s2.prior), PartsIds(ps), r)
            else r == Aborted
    decreases PartsSize(ps), 1
  {
    hide Align, WordAt, BytesAt, StringWire, LabelWire, TcWire, TcEnd, StringEnd, LabelEnd, TcDec, PartsDec, Book, Grown, Settled, Shared, Shaped, CString, AsMap, Ids, Relabel, Local;
    var s1 := PartSpot(kind, ps, s);
    var d, s2 := TcEnd(ps.tc, s1), PartsEnd(kind, ps, s);
    PartReads(kind, ps, c, s, m, prior);
    var c1 := c.(cur := s1.pos);
    ReadyShift(env, c, s, s1, m, prior, PartsSize(ps), PartsSize(ps), s2.pos, s2.pos);
    ReadyShift(env, c1, s1, s1, m, prior, PartsSize(ps), Size(ps.tc), s2.pos, d.pos);
    TcDecodes(env, ps.tc, c1, s1, m, prior);
    var rd := TcDec(c1, m, c.body, prior);
    if rd.Done? {
      ReadyNext(env, c1, s1, d, d, m, prior, rd.prior, PartsSize(ps), PartsSize(ps.rest), s2.pos, s2.pos);
      PartsDecodes(env, kind, ps.rest, c.(cur := d.pos), d, m, rd.prior);
      var rp := PartsDec(kind, Count(ps.rest), c.(cur := d.pos), m, c.body, rd.prior);
      if rp.Done? {
        RelabelLater(env, ps.tc, s1, d, d, s2, prior, rd.prior, rp.prior);
        GrownJoin(env, s, s1, d, d, s2, AsMap(prior), AsMap(rd.prior), AsMap(rp.prior));
      }
    }
  }

  lemma LabelDecodes(kind: nat, tag: int, c: RecvBuf)
    requires c.Valid() && LabelWire(c.data, c.flag, kind, tag, c.cur) && c.cur <= LabelEnd(kind, c.cur) <= c.end
    requires if LabelWidth(kind) == 0 then tag == 0 else LabelFits(kind, tag)
    ensures LabelDec(kind, c) == Got(tag, c.(cur := LabelEnd(kind, c.cur)))
  {
    if LabelWidth(kind) > 0 {
      GetWordReads(c, LabelWidth(kind), LabelBits(kind, tag));
      LabelRoundTrip(kind, tag);
    }
  }

  lemma {:induction false} NamesDecode(names: seq<bytes>, c: RecvBuf)
    requires c.Valid() && c.cur <= NamesEnd(names, c.cur) <= c.end < TWO32
    requires NamesWire(c.data, c.flag, names, c.cur) && forall i :: 0 <= i < |names| ==> CString(names[i])
    ensures NamesDec(|names|, c) == Got(names, c.(cur := NamesEnd(names, c.cur)))
    decreases |names|
  {
    hide StringWire, StringEnd, GetString, CString;
    if names != [] {
      GetStringReads(c, names[0]);
      assert forall i :: 0 <= i < |names[1..]| ==> names[1..][i] == names[i + 1];
      NamesDecode(names[1..], c.(cur := StringEnd(c.cur, names[0])));
      assert [names[0]] + names[1..] == names;
    }
  }

  // Counts fit their word because every part takes at least a byte.

  lemma {:induction false} CountFits(kind: nat, ps: Parts, s: Spot)
    ensures s.pos + Count(ps) <= PartsEnd(kind, ps, s).pos
    decreases ps
  {
    if ps.Part? {
      CountFits(kind, ps.rest, TcEnd(ps.tc, Spot(StringEnd(LabelEnd(kind, s.pos), ps.name), s.prior)));
    }
  }

  lemma {:induction false} NamesFit(names: seq<bytes>, p: nat)
    ensures p + |names| <= NamesEnd(names, p)
    decreases |names|
  {
    if names != [] {
      NamesFit(names[1..], StringEnd(p, names[0]));
    }
  }

  // ------------------------------------------------------------ the theorem

  /** Different nodes were registered at different stream indexes. */
  ghost predicate Injective(s: Spot)
  {
    && (forall id :: id in s.prior ==> s.prior[id] < s.pos)
    && (forall a, b :: a in s.prior && b in s.prior && s.prior[a] == s.prior[b] ==> a == b)
  }

  lemma {:induction false} EndInjective(tc: TypeCode, s: Spot)
    requires Injective(s)
    ensures Injective(TcEnd(tc, s))
    decreases tc
  {
    if tc.Complex? && tc.id !in s.prior {
      BodyEndInjective(tc.body, Inside(tc, s));
    }
  }

  lemma {:induction false} BodyEndInjective(body: Body, s: Spot)
    requires Injective(s)
    ensures Injective(BodyEnd(body, s))
    decreases body
  {
    match body
    case Reference(_, _) =>
    case Record(r, n, ms) => PartsEndInjective(0, ms, HeaderEnd(r, n, s));
    case Choice(_, _, disc, _, arms) =>
      EndInjective(disc, Named(body, s));
      PartsEndInjective(KindOf(disc), arms, ArmsSpot(body, s));
    case Enumeration(_, _, _) =>
    case Element(elem, _) => EndInjective(elem, s);
    case Renamed(_, _, elem) => EndInjective(elem, Named(body, s));
  }

  lemma {:induction false} PartsEndInjective(kind: nat, ps: Parts, s: Spot)
    requires Injective(s)
    ensures Injective(PartsEnd(kind, ps, s))
    decreases ps
  {
    if ps.Part? {
      EndInjective(ps.tc, PartSpot(kind, ps, s));
      PartsEndInjective(kind, ps.rest, TcEnd(ps.tc, PartSpot(kind, ps, s)));
    }
  }

  /**
   The round trip. `env` names the nodes of the graph, so sharing is arbitrary.
   With 32-bit pointers, decoding always returns the graph with each node moved
   to its own stream index, equal under CORBA_TypeCode_equal, and stops exactly
   behind the encoding. With 64-bit pointers it does so if and only if no
   indirection leaves its encapsulation, and otherwise the process aborts.
   */
  lemma RoundTrip(tc: TypeCode, env: map<nat, TypeCode>, c: RecvBuf, m: Model)
    requires Shaped(tc) && Shared(tc, env)
    requires c.Valid() && c.body == 0 && TcWire(c.data, c.flag, tc, Spot(c.cur, map[]))
    requires TcEnd(tc, Spot(c.cur, map[])).pos <= c.end < Limit(m)
    ensures var s2 := TcEnd(tc, Spot(c.cur, map[]));
            var r := Decode(c, m);
            && Injective(s2)
            && (r.Done? <==> m.ILP32? || Local(tc, {}, {}))
            && (r.Done? ==> s2.prior.Keys == Ids(tc) && r.value == Relabel(tc, s2.prior) && r.rest == c.(cur := s2.pos))
            && (r.Done? ==> Erase(r.value) == Erase(tc) && Equal(tc, r.value))
            && (!r.Done? ==> r.Aborted?)
  {
    hide Align, TcWire, TcDec, Shared, Shaped, SharedBody, Equal;
    var s := Spot(c.cur, map[]);
    var s2 := TcEnd(tc, s);
    TcDecodes(env, tc, c, s, m, []);
    EndInjective(tc, s);
    assert Before(s.prior, 0) == {} == s.prior.Keys;
    EraseRelabel(tc, s2.prior);
    SameMeaningEqual(tc, Relabel(tc, s2.prior));
  }

  /** struct { string; sequence<string> } over one string node is well formed and not local. */
  lemma CommonStructIsNotLocal()
    ensures var text := Simple(2, TK_STRING, 0);
            var list := Complex(3, TK_SEQUENCE, Element(text, 0));
            var tc := Complex(1, TK_STRUCT, Record([], [], Part(0, [], text, Part(0, [], list, NoParts))));
            Shaped(tc) && Shared(tc, map[1 := tc, 2 := text, 3 := list]) && !Local(tc, {}, {})
  {
    var text := Simple(2, TK_STRING, 0);
    var list := Complex(3, TK_SEQUENCE, Element(text, 0));
    var rest := Part(0, [], list, NoParts);
    var body := Record([], [], Part(0, [], text, rest));
    assert Ids(text) == {2};
    assert !Local(list, {1}, {1} + {2});
    assert !LocalParts(rest, {1}, {1} + {2});
    assert !LocalParts(Part(0, [], text, rest), {1}, {1});
    assert {} + {1} == {1};
    assert ShapedParts(0, rest);
    assert ShapedParts(0, Part(0, [], text, rest));
    var env := map[1 := Complex(1, TK_STRUCT, body), 2 := text, 3 := list];
    assert SharedBody(list.body, env);
    assert SharedParts(NoParts, env);
    assert SharedParts(rest, env);
    assert SharedParts(body.members, env);
  }
}
