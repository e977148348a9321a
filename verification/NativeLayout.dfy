/**
 The C layout of values, as four walkers compute it: ORBit_gather_alloc_info,
 the marshaller's (and demarshaller's and copier's) offset arithmetic, and the
 freeing walker's address arithmetic. Union-free TypeCodes only.
 */
module NativeLayout {
  import opened Cdr
  import opened Common
  import opened TypeCodes

  /** sizeof and alignof of the C type behind each kind, and the least alignment of a struct. */
  datatype Abi = Abi(size: nat -> nat, align: nat -> nat, structAlign: nat)

  predicate PowerOfTwo(k: nat)
  {
    k == 1 || (k > 1 && k % 2 == 0 && PowerOfTwo(k / 2))
  }

  /** What every C compiler guarantees. */
  ghost predicate Sane(abi: Abi)
  {
    && PowerOfTwo(abi.structAlign)
    && forall k: nat :: PowerOfTwo(abi.align(k)) && abi.size(k) % abi.align(k) == 0
  }

  predicate UnionFree(tc: TypeCode)
    decreases tc
  {
    !tc.Complex? ||
    match tc.body
    case Record(_, _, ms) => UnionFreeParts(ms)
    case Choice(_, _, _, _, _) => false
    case Element(elem, _) => UnionFree(elem)
    case Renamed(_, _, elem) => UnionFree(elem)
    case _ => true
  }

  predicate UnionFreeParts(ps: Parts)
    decreases ps
  {
    ps.NoParts? || (UnionFree(ps.tc) && UnionFreeParts(ps.rest))
  }

  /** ORBit_TC_find_c_alignment, which is tc->c_align. */
  function CAlign(abi: Abi, tc: TypeCode): (a: nat)
    requires Sane(abi) && UnionFree(tc)
    ensures a > 0 && PowerOfTwo(a)
    decreases tc
  {
    if !tc.Complex? then abi.align(tc.kind)
    else
      match tc.body
      case Record(_, _, ms) => Max(abi.structAlign, PartsAlign(abi, ms))
      case Element(elem, _) => if tc.kind == TK_ARRAY then CAlign(abi, elem) else abi.align(tc.kind)
      case Renamed(_, _, elem) => CAlign(abi, elem)
      case _ => abi.align(tc.kind)
  }

  function PartsAlign(abi: Abi, ps: Parts): (a: nat)
    requires Sane(abi) && UnionFreeParts(ps)
    ensures a > 0 && PowerOfTwo(a)
    decreases ps
  {
    if ps.NoParts? then 1 else Max(CAlign(abi, ps.tc), PartsAlign(abi, ps.rest))
  }

  /** ORBit_gather_alloc_info. */
  function Gather(abi: Abi, tc: TypeCode): nat
    requires Sane(abi) && UnionFree(tc)
    decreases tc, 1
  {
    if !tc.Complex? then abi.size(tc.kind)
    else
      match tc.body
      case Record(_, _, ms) => Align(PartsSum(abi, ms, 0), CAlign(abi, tc))
      case Element(elem, n) => if tc.kind == TK_ARRAY then Gather(abi, elem) * n else abi.size(tc.kind)
      case Renamed(_, _, elem) => Gather(abi, elem)
      case _ => abi.size(tc.kind)
  }

  /** The running sum behind the members `ps`. */
  function PartsSum(abi: Abi, ps: Parts, off: nat): (sum: nat)
    requires Sane(abi) && UnionFreeParts(ps)
    ensures sum >= off
    decreases ps, 0
  {
    if ps.NoParts? then off
    else PartsSum(abi, ps.rest, Align(off, CAlign(abi, ps.tc)) + Gather(abi, ps.tc))
  }

  /** A field that is no struct or array, at its address. */
  datatype Leaf = Leaf(addr: nat, kind: nat)

  /** The fields of a value at address `p`, in order. */
  function Leaves(abi: Abi, tc: TypeCode, p: nat): seq<Leaf>
    requires Sane(abi) && UnionFree(tc)
    decreases tc, 1, 0
  {
    if !tc.Complex? then [Leaf(p, tc.kind)]
    else
      match tc.body
      case Record(_, _, ms) => PartLeaves(abi, ms, p, 0)
      case Element(elem, n) => if tc.kind == TK_ARRAY then ItemLeaves(abi, elem, n, p) else [Leaf(p, tc.kind)]
      case Renamed(_, _, elem) => Leaves(abi, elem, p)
      case _ => [Leaf(p, tc.kind)]
  }

  function PartLeaves(abi: Abi, ps: Parts, base: nat, off: nat): seq<Leaf>
    requires Sane(abi) && UnionFreeParts(ps)
    decreases ps, 0, 0
  {
    if ps.NoParts? then []
    else
      var o := Align(off, CAlign(abi, ps.tc));
      Leaves(abi, ps.tc, base + o) + PartLeaves(abi, ps.rest, base, o + Gather(abi, ps.tc))
  }

  function ItemLeaves(abi: Abi, elem: TypeCode, n: nat, p: nat): seq<Leaf>
    requires Sane(abi) && UnionFree(elem)
    decreases elem, 2, n
  {
    if n == 0 then [] else ItemLeaves(abi, elem, n - 1, p) + Leaves(abi, elem, p + Gather(abi, elem) * (n - 1))
  }

  /** The kinds of a type's fields, those of empty arrays included. */
  function KindsIn(tc: TypeCode): set<nat>
    decreases tc
  {
    if !tc.Complex? then {tc.kind}
    else
      match tc.body
      case Record(_, _, ms) => KindsAmong(ms)
      case Element(elem, _) => if tc.kind == TK_ARRAY then KindsIn(elem) else {tc.kind}
      case Renamed(_, _, elem) => KindsIn(elem)
      case _ => {tc.kind}
  }

  function KindsAmong(ps: Parts): set<nat>
    decreases ps
  {
    if ps.NoParts? then {} else KindsIn(ps.tc) + KindsAmong(ps.rest)
  }

  predicate HasStruct(tc: TypeCode)
    decreases tc
  {
    tc.Complex? &&
    match tc.body
    case Record(_, _, _) => true
    case Element(elem, _) => tc.kind == TK_ARRAY && HasStruct(elem)
    case Renamed(_, _, elem) => HasStruct(elem)
    case _ => false
  }

  /** The alignment is the least one that suits all fields and, if there is a struct, the compiler's least one for structs. */
  lemma {:induction false} AlignIsLeast(abi: Abi, tc: TypeCode, b: nat)
    requires Sane(abi) && UnionFree(tc)
    ensures CAlign(abi, tc) <= b <==> b > 0 && (forall k :: k in KindsIn(tc) ==> abi.align(k) <= b) && (HasStruct(tc) ==> abi.structAlign <= b)
    decreases tc
  {
    if tc.Complex? {
      match tc.body
      case Record(_, _, ms) => PartsAlignIsLeast(abi, ms, b);
      case Element(elem, _) => if tc.kind == TK_ARRAY { AlignIsLeast(abi, elem, b); }
      case Renamed(_, _, elem) => AlignIsLeast(abi, elem, b);
      case _ =>
    }
  }

  /** The same of members, whose structs are inside a struct anyway. */
  lemma {:induction false} PartsAlignIsLeast(abi: Abi, ps: Parts, b: nat)
    requires Sane(abi) && UnionFreeParts(ps)
    ensures Max(abi.structAlign, PartsAlign(abi, ps)) <= b <==>
            b > 0 && (forall k :: k in KindsAmong(ps) ==> abi.align(k) <= b) && abi.structAlign <= b
    decreases ps
  {
    if ps.Part? {
      AlignIsLeast(abi, ps.tc, b);
      PartsAlignIsLeast(abi, ps.rest, b);
    }
  }

  // ------------------------------------------------------------ arithmetic

  lemma {:induction false} Divides(a: nat, b: nat)
    requires PowerOfTwo(a) && PowerOfTwo(b) && a <= b
    ensures b % a == 0
  {
    if a > 1 {
      Divides(a / 2, b / 2);
      var q := (b / 2) / (a / 2);
      assert b / 2 == q * (a / 2);
      assert b == q * a by { assert b == 2 * (q * (a / 2)) == q * (2 * (a / 2)); }
      Quotient(b, a, q, 0);
    }
  }

  lemma MultipleOf(x: nat, b: nat, a: nat)
    requires a > 0 && b > 0 && x % b == 0 && b % a == 0
    ensures x % a == 0
  {
    var q, r := x / b, b / a;
    assert x == q * b && b == r * a;
    assert x == (q * r) * a;
    Quotient(x, a, q * r, 0);
  }

  lemma SumOf(x: nat, y: nat, a: nat)
    requires a > 0 && x % a == 0
    ensures (x + y) % a == y % a
  {
    var q, r := x / a, y / a;
    assert x + y == (q + r) * a + y % a;
    Quotient(x + y, a, q + r, y % a);
  }

  lemma TimesOf(g: nat, n: nat, a: nat)
    requires a > 0 && g % a == 0
    ensures (g * n) % a == 0
  {
    var q := g / a;
    assert g * n == (q * n) * a by { assert g == q * a; }
    Quotient(g * n, a, q * n, 0);
  }

  lemma OneMoreTime(g: nat, n: nat)
    requires n > 0
    ensures g * (n - 1) + g == g * n
  {
  }

  /** Aligning an address is aligning the offset, from an aligned base. */
  lemma AlignOffset(base: nat, off: nat, a: nat)
    requires a > 0 && base % a == 0
    ensures Align(base + off, a) == base + Align(off, a)
  {
    SumOf(base, off, a);
  }

  // ------------------------------------------------------------ the layout

  /** Sizes are multiples of the alignment, so arrays need no padding. */
  lemma {:induction false} GatherIsAligned(abi: Abi, tc: TypeCode)
    requires Sane(abi) && UnionFree(tc)
    ensures Gather(abi, tc) % CAlign(abi, tc) == 0
    decreases tc
  {
    if tc.Complex? {
      match tc.body
      case Element(elem, n) =>
        if tc.kind == TK_ARRAY {
          GatherIsAligned(abi, elem);
          TimesOf(Gather(abi, elem), n, CAlign(abi, elem));
        }
      case Renamed(_, _, elem) => GatherIsAligned(abi, elem);
      case _ =>
    }
  }

  /** The fields lie one behind the other between `lo` and `hi`, each aligned for its kind. */
  ghost predicate Ordered(abi: Abi, ls: seq<Leaf>, lo: nat, hi: nat)
    requires Sane(abi)
    decreases |ls|
  {
    if ls == [] then lo <= hi
    else
      && lo <= ls[0].addr && ls[0].addr % abi.align(ls[0].kind) == 0
      && Ordered(abi, ls[1..], ls[0].addr + abi.size(ls[0].kind), hi)
  }

  lemma {:induction false} OrderedAppend(abi: Abi, a: seq<Leaf>, b: seq<Leaf>, lo: nat, mid: nat, mid2: nat, hi: nat)
    requires Sane(abi) && Ordered(abi, a, lo, mid) && mid <= mid2 && Ordered(abi, b, mid2, hi)
    ensures Ordered(abi, a + b, lo, hi)
    decreases |a|
  {
    if a == [] {
      assert a + b == b;
      OrderedWiden(abi, b, mid2, lo, hi);
    } else {
      assert (a + b)[1..] == a[1..] + b;
      OrderedAppend(abi, a[1..], b, a[0].addr + abi.size(a[0].kind), mid, mid2, hi);
    }
  }

  lemma OrderedWiden(abi: Abi, ls: seq<Leaf>, lo: nat, lo2: nat, hi: nat)
    requires Sane(abi) && Ordered(abi, ls, lo, hi) && lo2 <= lo
    ensures Ordered(abi, ls, lo2, hi)
  {
  }

  /** Members and elements are disjoint, aligned and inside the value. */
  lemma {:induction false} LeavesOrdered(abi: Abi, tc: TypeCode, p: nat)
    requires Sane(abi) && UnionFree(tc) && p % CAlign(abi, tc) == 0
    ensures Ordered(abi, Leaves(abi, tc, p), p, p + Gather(abi, tc))
    decreases tc, 1, 0
  {
    hide Ordered, PartLeaves, ItemLeaves, PartsSum, PowerOfTwo;
    if !tc.Complex? {
      OneLeaf(abi, p, tc.kind);
    } else {
      match tc.body
      case Record(_, _, ms) =>
        PartsOrdered(abi, ms, p, 0, CAlign(abi, tc));
        PadEnd(abi, PartLeaves(abi, ms, p, 0), p, p + PartsSum(abi, ms, 0), p + Gather(abi, tc));
      case Element(elem, n) =>
        if tc.kind == TK_ARRAY {
          ItemsOrdered(abi, elem, n, p);
        } else {
          OneLeaf(abi, p, tc.kind);
        }
      case Renamed(_, _, elem) => LeavesOrdered(abi, elem, p);
      case _ => OneLeaf(abi, p, tc.kind);
    }
  }

  lemma OneLeaf(abi: Abi, p: nat, kind: nat)
    requires Sane(abi) && p % abi.align(kind) == 0
    ensures Ordered(abi, [Leaf(p, kind)], p, p + abi.size(kind))
  {
    assert [Leaf(p, kind)][1..] == [];
  }

  lemma PadEnd(abi: Abi, ls: seq<Leaf>, lo: nat, mid: nat, hi: nat)
    requires Sane(abi) && Ordered(abi, ls, lo, mid) && mid <= hi
    ensures Ordered(abi, ls, lo, hi)
  {
    OrderedAppend(abi, ls, [], lo, mid, mid, hi);
    assert ls + [] == ls;
  }

  lemma {:induction false} PartsOrdered(abi: Abi, ps: Parts, base: nat, off: nat, align: nat)
    requires Sane(abi) && UnionFreeParts(ps) && align > 0 && PowerOfTwo(align) && base % align == 0 && PartsAlign(abi, ps) <= align
    ensures Ordered(abi, PartLeaves(abi, ps, base, off), base + off, base + PartsSum(abi, ps, off))
    decreases ps, 0, 0
  {
    hide Ordered, Leaves, PowerOfTwo, Gather, Align, CAlign, Sane;
    if ps.NoParts? {
      NoLeaves(abi, base + off);
    } else {
      var a := CAlign(abi, ps.tc);
      var o := Align(off, a);
      var next := o + Gather(abi, ps.tc);
      MemberAligned(base, off, a, align);
      LeavesOrdered(abi, ps.tc, base + o);
      PartsOrdered(abi, ps.rest, base, next, align);
      OrderedWiden(abi, Leaves(abi, ps.tc, base + o), base + o, base + off, base + next);
      OrderedAppend(abi, Leaves(abi, ps.tc, base + o), PartLeaves(abi, ps.rest, base, next),
                    base + off, base + next, base + next, base + PartsSum(abi, ps, off));
    }
  }

  lemma NoLeaves(abi: Abi, p: nat)
    requires Sane(abi)
    ensures Ordered(abi, [], p, p)
  {
  }

  /** A member's alignment divides its struct's. */
  lemma MemberAligned(base: nat, off: nat, a: nat, align: nat)
    requires a > 0 && align > 0 && PowerOfTwo(a) && PowerOfTwo(align) && a <= align && base % align == 0
    ensures base % a == 0 && (base + Align(off, a)) % a == 0
    ensures Align(base + off, a) == base + Align(off, a)
  {
    Divides(a, align);
    MultipleOf(base, align, a);
    AlignOffset(base, off, a);
  }

  lemma {:induction false} ItemsOrdered(abi: Abi, elem: TypeCode, n: nat, p: nat)
    requires Sane(abi) && UnionFree(elem) && p % CAlign(abi, elem) == 0
    ensures Ordered(abi, ItemLeaves(abi, elem, n, p), p, p + Gather(abi, elem) * n)
    decreases elem, 2, n
  {
    hide Ordered, Leaves, ItemLeaves, CAlign, UnionFree, Gather, Sane;
    if n == 0 {
      NoItems(abi, elem, p);
    } else {
      ItemAligned(abi, elem, n - 1, p);
      ItemsOrdered(abi, elem, n - 1, p);
      OneMoreTime(Gather(abi, elem), n);
      var q := p + Gather(abi, elem) * (n - 1);
      LeavesOrdered(abi, elem, q);
      OneMoreItem(abi, elem, n, p, q);
      OrderedAppend(abi, ItemLeaves(abi, elem, n - 1, p), Leaves(abi, elem, q), p, q, q, q + Gather(abi, elem));
    }
  }

  lemma NoItems(abi: Abi, elem: TypeCode, p: nat)
    requires Sane(abi) && UnionFree(elem)
    ensures Ordered(abi, ItemLeaves(abi, elem, 0, p), p, p + Gather(abi, elem) * 0)
  {
    hide Gather, Leaves, Sane, UnionFree;
  }

  lemma OneMoreItem(abi: Abi, elem: TypeCode, n: nat, p: nat, q: nat)
    requires Sane(abi) && UnionFree(elem) && n > 0 && q == p + Gather(abi, elem) * (n - 1)
    ensures ItemLeaves(abi, elem, n, p) == ItemLeaves(abi, elem, n - 1, p) + Leaves(abi, elem, q)
  {
    hide Leaves, Gather, Sane, UnionFree;
  }

  lemma ItemAligned(abi: Abi, elem: TypeCode, i: nat, p: nat)
    requires Sane(abi) && UnionFree(elem) && p % CAlign(abi, elem) == 0
    ensures (p + Gather(abi, elem) * i) % CAlign(abi, elem) == 0
  {
    var a := CAlign(abi, elem);
    GatherIsAligned(abi, elem);
    TimesOf(Gather(abi, elem), i, a);
    SumOf(p, Gather(abi, elem) * i, a);
  }

  // ------------------------------------------------------------ the walkers

  /**
   The pointer arithmetic that ORBit_marshal_value, ORBit_demarshal_value and
   ORBit_copy_value_core share: offsets from the struct's own address.
   */
  method Walk(abi: Abi, tc: TypeCode, val: nat) returns (end: nat, visits: seq<Leaf>)
    requires Sane(abi) && UnionFree(tc)
    ensures end == val + Gather(abi, tc) && visits == Leaves(abi, tc, val)
    decreases tc, 0
  {
    hide PowerOfTwo, PartsSum, PartLeaves, ItemLeaves;
    if !tc.Complex? {
      return val + abi.size(tc.kind), [Leaf(val, tc.kind)];
    }
    match tc.body {
    case Record(_, _, ms) =>
      var sum;
      sum, visits := WalkMembers(abi, ms, val);
      end := val + Align(sum, CAlign(abi, tc));
    case Element(elem, n) =>
      if tc.kind == TK_ARRAY {
        end, visits := WalkItems(abi, elem, n, val);
      } else {
        end, visits := val + abi.size(tc.kind), [Leaf(val, tc.kind)];
      }
    case Renamed(_, _, elem) =>
      end, visits := Walk(abi, elem, val);
    case Reference(_, _) =>
      end, visits := val + abi.size(tc.kind), [Leaf(val, tc.kind)];
    case Enumeration(_, _, _) =>
      end, visits := val + abi.size(tc.kind), [Leaf(val, tc.kind)];
    case Choice(_, _, _, _, _) =>
      assert false;
    }
  }

  method WalkMembers(abi: Abi, ms: Parts, val: nat) returns (sum: nat, visits: seq<Leaf>)
    requires Sane(abi) && UnionFreeParts(ms)
    ensures sum == PartsSum(abi, ms, 0) && visits == PartLeaves(abi, ms, val, 0)
    decreases ms
  {
    hide Leaves, PowerOfTwo, Gather, Align, CAlign, Sane;
    var ps := ms;
    sum, visits := 0, [];
    while ps.Part?
      invariant UnionFreeParts(ps) && (ps == ms || ps < ms)
      invariant PartsSum(abi, ms, 0) == PartsSum(abi, ps, sum)
      invariant PartLeaves(abi, ms, val, 0) == visits + PartLeaves(abi, ps, val, sum)
      decreases ps
    {
      sum := Align(sum, CAlign(abi, ps.tc));
      var sub, more := Walk(abi, ps.tc, val + sum);
      ghost var rest := PartLeaves(abi, ps.rest, val, sum + Gather(abi, ps.tc));
      assert visits + (more + rest) == (visits + more) + rest;
      visits, sum := visits + more, sum + Gather(abi, ps.tc);
      ps := ps.rest;
    }
    assert visits + [] == visits;
  }

  method WalkItems(abi: Abi, elem: TypeCode, n: nat, val: nat) returns (end: nat, visits: seq<Leaf>)
    requires Sane(abi) && UnionFree(elem)
    ensures end == val + Gather(abi, elem) * n && visits == ItemLeaves(abi, elem, n, val)
    decreases elem, 1
  {
    hide Leaves, PowerOfTwo, Gather, CAlign, Sane;
    end, visits := val, [];
    var i := 0;
    while i < n
      invariant i <= n && end == val + Gather(abi, elem) * i && visits == ItemLeaves(abi, elem, i, val)
    {
      var more;
      end, more := Walk(abi, elem, end);
      visits, i := visits + more, i + 1;
    }
  }

  /** Kinds with something to free; the others are the default of the walker's switch. */
  predicate Owns(kind: nat)
  {
    kind in {TK_ANY, TK_TYPECODE, TK_OBJREF, TK_PRINCIPAL, TK_STRING, TK_WSTRING, TK_SEQUENCE}
  }

  /**
   ORBit_freekids_via_TypeCode_T aligns addresses, not offsets. On memory
   aligned for its type it comes by exactly the fields that were stored, and
   ends where the others end.
   */
  method FreeKids(abi: Abi, tc: TypeCode, mem: nat) returns (end: nat, freed: seq<Leaf>)
    requires Sane(abi) && UnionFree(tc) && mem % CAlign(abi, tc) == 0
    ensures end == mem + Gather(abi, tc) && freed == Leaves(abi, tc, mem)
    decreases tc, 0
  {
    hide PowerOfTwo, PartsSum, PartLeaves, ItemLeaves;
    if !tc.Complex? {
      end, freed := FreeAtom(abi, tc, mem);
      return;
    }
    match tc.body {
    case Record(_, _, ms) =>
      end, freed := FreeMembers(abi, ms, Align(mem, CAlign(abi, tc)), CAlign(abi, tc));
      AlignOffset(mem, PartsSum(abi, ms, 0), CAlign(abi, tc));
      end := Align(end, CAlign(abi, tc));
    case Element(elem, n) =>
      if tc.kind == TK_ARRAY {
        end, freed := FreeItems(abi, elem, n, mem);
      } else {
        end, freed := FreeAtom(abi, tc, mem);
      }
    case Renamed(_, _, elem) =>
      end, freed := FreeKids(abi, elem, mem);
    case _ =>
      end, freed := FreeAtom(abi, tc, mem);
    }
  }

  method FreeItems(abi: Abi, elem: TypeCode, n: nat, mem: nat) returns (end: nat, freed: seq<Leaf>)
    requires Sane(abi) && UnionFree(elem) && mem % CAlign(abi, elem) == 0
    ensures end == mem + Gather(abi, elem) * n && freed == ItemLeaves(abi, elem, n, mem)
    decreases elem, 1
  {
    hide Leaves, PowerOfTwo, Gather, CAlign, Sane;
    end, freed := mem, [];
    var i := 0;
    while i < n
      invariant i <= n && end == mem + Gather(abi, elem) * i && freed == ItemLeaves(abi, elem, i, mem)
    {
      ItemAligned(abi, elem, i, mem);
      var more;
      end, more := FreeKids(abi, elem, end);
      freed, i := freed + more, i + 1;
    }
  }

  method FreeMembers(abi: Abi, ms: Parts, mem: nat, align: nat) returns (end: nat, freed: seq<Leaf>)
    requires Sane(abi) && UnionFreeParts(ms) && align > 0 && PowerOfTwo(align) && mem % align == 0 && PartsAlign(abi, ms) <= align
    ensures end == mem + PartsSum(abi, ms, 0) && freed == PartLeaves(abi, ms, mem, 0)
    decreases ms
  {
    hide Leaves, PowerOfTwo, Gather, Align, CAlign, Sane, PartsSum, PartLeaves, UnionFree;
    var ps := ms;
    end, freed := mem, [];
    while ps.Part?
      invariant UnionFreeParts(ps) && (ps == ms || ps < ms) && end >= mem && PartsAlign(abi, ps) <= align
      invariant PartsSum(abi, ms, 0) == PartsSum(abi, ps, end - mem)
      invariant PartLeaves(abi, ms, mem, 0) == freed + PartLeaves(abi, ps, mem, end - mem)
      decreases ps
    {
      var a := CAlign(abi, ps.tc);
      MemberAligned(mem, end - mem, a, align);
      MembersStep(abi, ps, mem, end - mem);
      end := Align(end, a);
      var at := end;
      var more;
      end, more := FreeKids(abi, ps.tc, at);
      ghost var rest := PartLeaves(abi, ps.rest, mem, end - mem);
      assert freed + (more + rest) == (freed + more) + rest;
      freed := freed + more;
      ps := ps.rest;
    }
    NoMembers(abi, mem, end - mem);
    assert freed + [] == freed;
  }

  lemma NoMembers(abi: Abi, mem: nat, off: nat)
    requires Sane(abi)
    ensures PartsSum(abi, NoParts, off) == off && PartLeaves(abi, NoParts, mem, off) == []
  {
  }

  /** The member at the front: aligned, then its own size. */
  lemma MembersStep(abi: Abi, ps: Parts, mem: nat, off: nat)
    requires Sane(abi) && ps.Part? && UnionFreeParts(ps)
    ensures UnionFree(ps.tc) && UnionFreeParts(ps.rest) && CAlign(abi, ps.tc) <= PartsAlign(abi, ps)
    ensures var at := Align(off, CAlign(abi, ps.tc));
            && PartsSum(abi, ps, off) == PartsSum(abi, ps.rest, at + Gather(abi, ps.tc))
            && PartLeaves(abi, ps, mem, off) == Leaves(abi, ps.tc, mem + at) + PartLeaves(abi, ps.rest, mem, at + Gather(abi, ps.tc))
  {
    hide Leaves, Gather, Align, CAlign, UnionFree, Sane;
  }

  /** The cases that free one field, and the default, which aligns again. */
  method FreeAtom(abi: Abi, tc: TypeCode, mem: nat) returns (end: nat, freed: seq<Leaf>)
    requires Sane(abi) && UnionFree(tc) && mem % CAlign(abi, tc) == 0
    requires Leaves(abi, tc, mem) == [Leaf(mem, tc.kind)] && Gather(abi, tc) == abi.size(tc.kind)
    ensures end == mem + Gather(abi, tc) && freed == Leaves(abi, tc, mem)
  {
    if Owns(tc.kind) {
      end, freed := mem + abi.size(tc.kind), [Leaf(mem, tc.kind)];
    } else {
      var at := Align(mem, CAlign(abi, tc));
      end, freed := at + Gather(abi, tc), [Leaf(at, tc.kind)];
    }
  }

  /** Off its alignment the freeing walker goes astray: the octet is stored at `mem`, but looked for behind it. */
  lemma FreeingNeedsAlignment(abi: Abi, mem: nat)
    requires Sane(abi) && abi.align(TK_OCTET) == 1 && abi.size(TK_OCTET) == 1
    requires abi.align(TK_LONG) == 4 && abi.size(TK_LONG) == 4 && abi.structAlign == 1 && mem % 4 == 1
    ensures var tc := Complex(1, TK_STRUCT, Record([], [], Part(0, [], Basic(TK_OCTET), Part(0, [], Basic(TK_LONG), NoParts))));
            && Leaves(abi, tc, mem) == [Leaf(mem, TK_OCTET), Leaf(mem + 4, TK_LONG)]
            && Align(mem, CAlign(abi, tc)) == mem + 3
  {
  }
}
