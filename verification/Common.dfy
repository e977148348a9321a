/** A few notions that every component shares. */
module Common {

  datatype Option<+T> = None | Some(value: T)

  ghost predicate NoRepeats<T>(s: seq<T>)
  {
    forall i, j :: 0 <= i < j < |s| ==> s[i] != s[j]
  }

  /** Taking one element out of a list without repetitions. */
  lemma Unlist<T>(q: seq<T>, k: nat)
    requires NoRepeats(q) && k < |q|
    ensures NoRepeats(q[..k] + q[k + 1..])
    ensures forall e :: e in q[..k] + q[k + 1..] <==> e in q && e != q[k]
  {
    var r := q[..k] + q[k + 1..];
    assert forall j :: 0 <= j < |r| ==> r[j] == q[if j < k then j else j + 1];
    forall e | e in q && e != q[k] ensures e in r {
      var j :| 0 <= j < |q| && q[j] == e;
      assert r[if j < k then j else j - 1] == e;
    }
  }

  function Max(a: nat, b: nat): nat { if a > b then a else b }

  function Min(a: nat, b: nat): nat { if a < b then a else b }

  /** Some number is larger than all in a finite set, so there are always unused addresses. */
  lemma {:induction false} AboveAll(used: set<nat>) returns (top: nat)
    ensures forall a :: a in used ==> a < top
    decreases used
  {
    if used == {} {
      top := 0;
    } else {
      var x :| x in used;
      var t := AboveAll(used - {x});
      top := if x < t then t else x + 1;
      forall a | a in used ensures a < top {
        if a != x { assert a in used - {x}; }
      }
    }
  }
}
