/**
 CORBA sequences as growing C buffers, against the abstract sequence they stand
 for. `T` is a copied element; `zero` is what cleared memory holds.
 */
module SequenceBuffers {
  import opened Common

  const LIMIT: nat := 0x8000_0000

  lemma Shifted<T>(was: seq<T>, now: seq<T>, idx: nat, length: nat, zero: T)
    requires idx < length <= |was| == |now|
    requires forall i :: 0 <= i < |now| ==> now[i] == if i == length - 1 then zero else was[if idx <= i < length - 1 then i + 1 else i]
    ensures now[..length - 1] == was[..length][..idx] + was[..length][idx + 1..]
    ensures now[length - 1..] == [zero] + was[length..]
  {
  }

  class Sequence<T(==)> {
    const zero: T
    /** The element type is a number: shrinking leaves the dropped values in place. */
    const baseType: bool
    /** `maximum` is buffer.Length. */
    var buffer: array<T>
    var length: nat
    /** Elements that g_realloc has carried along so far. */
    ghost var moved: nat

    ghost predicate Valid()
      reads this, buffer
    {
      && length <= buffer.Length
      && (!baseType ==> forall i :: length <= i < buffer.Length ==> buffer[i] == zero)
    }

    ghost function Contents(): (s: seq<T>)
      reads this, buffer
      requires length <= buffer.Length
    {
      buffer[..length]
    }

    /** What a larger size would uncover. */
    ghost function Slack(): (s: seq<T>)
      reads this, buffer
      requires length <= buffer.Length
    {
      buffer[length..]
    }

    /** An empty sequence, without a buffer. */
    constructor (zero: T, baseType: bool)
      ensures Valid() && Contents() == [] && buffer.Length == 0 && moved == 0 && fresh(buffer)
      ensures this.zero == zero && this.baseType == baseType
    {
      this.zero, this.baseType := zero, baseType;
      buffer := new T[0];
      length, moved := 0, 0;
    }

    /** ORBit_realloc_tcval: the old elements move, the new ones are cleared. */
    method Realloc(size: nat)
      requires Valid() && size > buffer.Length
      modifies `buffer, `moved
      ensures Valid() && fresh(buffer) && buffer.Length == size
      ensures Contents() == old(Contents()) && Slack() == old(Slack()) + seq(size - old(buffer.Length), i => zero)
      ensures moved == old(moved) + old(buffer.Length)
    {
      var before, z := buffer, zero;
      var n := before.Length;
      var grown := new T[size](i requires 0 <= i < size reads before => if i < n then before[i] else z);
      moved := moved + n;
      buffer := grown;
    }

    /** ORBit_sequence_append; beyond 2^31 elements the new size would wrap. */
    method Append(element: T)
      requires Valid() && buffer.Length < LIMIT
      modifies this, buffer
      ensures Valid() && Contents() == old(Contents()) + [element]
      ensures buffer == old(buffer) || fresh(buffer)
      ensures if old(length) == old(buffer.Length) then
                buffer.Length == Max(2, 2 * old(length)) && moved == old(moved) + old(length)
              else buffer == old(buffer) && moved == old(moved)
    {
      if length == buffer.Length {
        Realloc(Max(2, buffer.Length * 2));
      }
      buffer[length] := element;
      length := length + 1;
    }

    /** ORBit_sequence_set_size. */
    method SetSize(n: nat)
      requires Valid() && n < LIMIT && buffer.Length < LIMIT
      modifies this, buffer
      ensures Valid() && length == n && (buffer == old(buffer) || fresh(buffer))
      ensures n <= old(length) ==> Contents() == old(Contents())[..n] && buffer == old(buffer)
      ensures n <= old(length) && baseType ==> Slack() == old(Contents())[n..] + old(Slack())
      ensures n > old(length) ==>
                Contents() == (old(Contents()) + old(Slack()) +
                               seq(Max(n, old(buffer.Length)) - old(buffer.Length), i => zero))[..n]
      ensures n > old(length) && !baseType ==> Contents() == old(Contents()) + seq(n - old(length), i => zero)
      ensures buffer.Length == if n > old(buffer.Length) then Max(n, 2 * old(buffer.Length)) else old(buffer.Length)
    {
      ghost var all := Contents() + Slack() + seq(Max(n, buffer.Length) - buffer.Length, i => zero);
      if n < length {
        if !baseType {
          var z := zero;
          forall i | n <= i < length { buffer[i] := z; }
        }
      } else if n > buffer.Length {
        Realloc(Max(n, buffer.Length * 2));
      }
      assert n > old(length) ==> forall i :: 0 <= i < n ==> buffer[i] == all[i];
      length := n;
      assert n > old(length) ==> Contents() == all[..n];
    }

    /** ORBit_sequence_remove. */
    method Remove(idx: nat)
      requires Valid() && idx < length
      modifies `length, buffer
      ensures Valid() && Contents() == old(Contents())[..idx] + old(Contents())[idx + 1..]
      ensures Slack() == [zero] + old(Slack())
    {
      ghost var was := buffer[..];
      ShiftDown(idx);
      Shifted(was, buffer[..], idx, length, zero);
      length := length - 1;
      assert was[..length + 1] == old(Contents()) && was[length + 1..] == old(Slack());
      assert Contents() == buffer[..][..length] && Slack() == buffer[..][length..];
      StillBlank();
    }

    /** The elements behind `idx` move down, and the last place is cleared. */
    method ShiftDown(idx: nat)
      requires idx < length <= buffer.Length
      modifies buffer
      ensures forall i :: 0 <= i < buffer.Length ==>
                buffer[i] == if i == length - 1 then zero else old(buffer[if idx <= i < length - 1 then i + 1 else i])
    {
      forall i | idx <= i < length - 1 { buffer[i] := buffer[i + 1]; }
      buffer[length - 1] := zero;
    }

    twostate lemma StillBlank()
      requires old(Valid()) && length <= buffer.Length && Slack() == [zero] + old(Slack())
      ensures Valid()
    {
      assert forall i :: length <= i < buffer.Length ==> buffer[i] == Slack()[i - length];
      assert !baseType ==> forall i :: 0 <= i < |old(Slack())| ==> old(Slack())[i] == zero;
    }

    /** ORBit_sequence_concat of another sequence. */
    method Concat(other: Sequence<T>)
      requires Valid() && other.Valid() && other != this && other.buffer != buffer
      requires length + other.length < LIMIT / 2 && buffer.Length < LIMIT
      modifies this, buffer
      ensures Valid() && Contents() == old(Contents()) + other.Contents()
      ensures other.Contents() == old(other.Contents())
    {
      var i := 0;
      while i < other.length
        invariant Valid() && (buffer == old(buffer) || fresh(buffer)) && other.buffer != buffer
        invariant i <= other.length == old(other.length) && other.buffer == old(other.buffer)
        invariant other.buffer[..] == old(other.buffer[..])
        invariant length == old(length) + i && buffer.Length < LIMIT
        invariant Contents() == old(Contents()) + other.buffer[..i]
      {
        assert other.buffer[..i + 1] == other.buffer[..i] + [other.buffer[i]];
        Append(other.buffer[i]);
        i := i + 1;
      }
    }

    /** `xs` appended one by one to an empty sequence: fewer than two moves for each. */
    method AppendAll(xs: seq<T>)
      requires Valid() && length == 0 && buffer.Length == 0 && |xs| < LIMIT / 2
      modifies this, buffer
      ensures Valid() && Contents() == xs
      ensures xs != [] ==> moved - old(moved) < 2 * |xs|
    {
      var i := 0;
      while i < |xs|
        invariant i <= |xs| && length == i && Valid() && (buffer == old(buffer) || fresh(buffer))
        invariant Contents() == xs[..i]
        invariant if i == 0 then buffer.Length == 0 && moved == old(moved)
                  else moved - old(moved) == buffer.Length - 2 && (buffer.Length == 2 || buffer.Length < 2 * i)
        invariant buffer.Length < LIMIT
      {
        assert xs[..i + 1] == xs[..i] + [xs[i]];
        Append(xs[i]);
        i := i + 1;
      }
      assert xs[..i] == xs;
    }
  }

  /** Numbers dropped by shrinking come back when the sequence grows again. */
  method StaleNumbers() returns (s: Sequence<int>)
    ensures s.Valid() && s.Contents() == [7]
  {
    s := new Sequence<int>(0, true);
    s.Append(7);
    s.SetSize(0);
    assert s.Slack()[0] == 7;
    s.SetSize(1);
  }

  datatype Read<+T> = Item(value: T) | Broken

  /**
   The element loop of ORBit_demarshal_value: room for 4096 elements, doubled
   as long as elements keep coming, and never more than announced.
   */
  method DemarshalItems<T>(n: nat, zero: T, next: nat -> Read<T>) returns (ok: bool, items: array<T>)
    requires 0 < n <= LIMIT
    ensures ok <==> forall i :: 0 <= i < n ==> next(i).Item?
    ensures ok ==> items.Length == n && forall i :: 0 <= i < n ==> items[i] == next(i).value
    ensures fresh(items)
  {
    var alloc := 4096;
    items := new T[Min(n, alloc)](i => zero);
    var i := 0;
    while i < n
      invariant i <= n && i <= alloc && 4096 <= alloc && alloc <= Max(4096, 2 * n)
      invariant items.Length == Min(n, alloc) && fresh(items)
      invariant forall j :: 0 <= j < i ==> next(j).Item? && items[j] == next(j).value
      invariant alloc == 4096 || alloc < 2 * n
    {
      if i == alloc {
        var before := items;
        items := new T[Min(alloc * 2, n)](j requires 0 <= j reads before => if j < before.Length then before[j] else zero);
        alloc := alloc * 2;
      }
      match next(i)
      case Broken => return false, items;
      case Item(x) =>
        items[i] := x;
        i := i + 1;
    }
    ok := true;
  }
}
