/**
 The operation lookup that the IDL compiler writes into every skeleton: a
 sorted operation list becomes nested `switch` statements over the characters
 of the requested name. The emitted text is modelled as a syntax tree, and
 `Eval` is what the C compiler makes of it.
 */
module OpTrie {
  import opened Cdr

  /** A CBESkelOpInfo; the interface is its tree node, the name a C string without its terminator. */
  datatype Op = Op(iface: nat, name: bytes, idx: nat)

  predicate Names(ops: seq<Op>)
  {
    forall i, k :: 0 <= i < |ops| && 0 <= k < |ops[i].name| ==> ops[i].name[k] != 0
  }

  /** strcmp (a, b) <= 0. */
  predicate Leq(a: bytes, b: bytes)
  {
    a == [] || (b != [] && (a[0] < b[0] || (a[0] == b[0] && Leq(a[1..], b[1..]))))
  }

  predicate Sorted(ops: seq<Op>)
  {
    forall i, j :: 0 <= i < j < |ops| ==> Leq(ops[i].name, ops[j].name)
  }

  predicate HasDuplicate(ops: seq<Op>)
  {
    exists i, j :: 0 <= i < j < |ops| && ops[i].name == ops[j].name
  }

  /** The character at `k`, the terminator included. */
  function At(s: bytes, k: nat): byte
    requires k <= |s|
  {
    if k < |s| then s[k] else 0
  }

  // ------------------------------------------------------------ the emitted code

  datatype Code = Switch(level: nat, cases: seq<Case>)

  datatype Case = Case(tag: byte, body: Body)

  /** A nested switch; or the tail that the name must still match, and then the operation. */
  datatype Body = Sub(code: Code) | Compare(tail: bytes, op: Op) | Take(op: Op)

  datatype Answer = Found(op: Op) | NotFound | ReadPastEnd

  /** The case with that label, or |cases| for the default. */
  function Select(cases: seq<Case>, c: byte): (k: nat)
    ensures k <= |cases| && (k < |cases| ==> cases[k].tag == c)
    ensures forall i :: 0 <= i < k ==> cases[i].tag != c
  {
    if cases == [] || cases[0].tag == c then 0 else 1 + Select(cases[1..], c)
  }

  function Eval(c: Code, s: bytes): Answer
    decreases c
  {
    if c.level > |s| then ReadPastEnd
    else
      var k := Select(c.cases, At(s, c.level));
      if k == |c.cases| then NotFound else EvalBody(c.cases[k].body, c.level, s)
  }

  function EvalBody(b: Body, level: nat, s: bytes): Answer
    requires level <= |s|
    decreases b
  {
    match b
    case Sub(code) => Eval(code, s)
    case Compare(tail, op) =>
      if level + 1 > |s| then ReadPastEnd else if s[level + 1..] == tail then Found(op) else NotFound
    case Take(op) => Found(op)
  }

  /** No read behind the terminator goes unnoticed. */
  lemma ReadsAreChecked(c: Code, b: Body, s: bytes)
    ensures c.level > |s| ==> Eval(c, s).ReadPastEnd?
    ensures b.Compare? ==> EvalBody(b, |s|, s).ReadPastEnd?
  {
  }

  /** No switch has the same label twice, so the text compiles. */
  predicate DistinctLabels(c: Code)
    decreases c
  {
    && (forall i, j :: 0 <= i < j < |c.cases| ==> c.cases[i].tag != c.cases[j].tag)
    && (forall i :: 0 <= i < |c.cases| ==> DistinctIn(c.cases[i].body))
  }

  predicate DistinctIn(b: Body)
    decreases b
  {
    b.Sub? ==> DistinctLabels(b.code)
  }

  // ------------------------------------------------------------ what it has to mean

  /** The operation of that name. */
  function Lookup(ops: seq<Op>, s: bytes): (a: Answer)
    ensures a.Found? ==> a.op in ops && a.op.name == s
    ensures a.NotFound? ==> forall i :: 0 <= i < |ops| ==> ops[i].name != s
    ensures !a.ReadPastEnd?
  {
    if ops == [] then NotFound else if ops[0].name == s then Found(ops[0]) else Lookup(ops[1..], s)
  }

  /** `s` is a C string that starts like all names of a list at this level. */
  ghost predicate Reaches(s: bytes, prefix: bytes)
  {
    CString(s) && prefix <= s
  }

  /** All names begin with `prefix`. */
  predicate Share(ops: seq<Op>, prefix: bytes)
  {
    forall i :: 0 <= i < |ops| ==> prefix <= ops[i].name
  }

  ghost predicate Means(cases: seq<Case>, ops: seq<Op>, prefix: bytes)
  {
    forall s :: Reaches(s, prefix) ==> Eval(Switch(|prefix|, cases), s) == Lookup(ops, s)
  }

  function MaxLen(ops: seq<Op>): nat
  {
    if ops == [] then 0
    else
      var m := MaxLen(ops[1..]);
      if |ops[0].name| > m then |ops[0].name| else m
  }

  lemma {:induction false} Longest(ops: seq<Op>, i: nat)
    requires i < |ops|
    ensures |ops[i].name| <= MaxLen(ops)
  {
    if i > 0 {
      Longest(ops[1..], i - 1);
    }
  }

  lemma {:induction false} ShorterList(ops: seq<Op>, lo: nat, hi: nat)
    requires lo <= hi <= |ops|
    ensures MaxLen(ops[lo..hi]) <= MaxLen(ops)
    decreases hi - lo
  {
    if lo < hi {
      assert ops[lo..hi][1..] == ops[lo + 1..hi];
      ShorterList(ops, lo + 1, hi);
      Longest(ops, lo);
    }
  }

  lemma {:induction false} LookupAppend(a: seq<Op>, b: seq<Op>, s: bytes)
    ensures Lookup(a + b, s) == if Lookup(a, s).Found? then Lookup(a, s) else Lookup(b, s)
  {
    if a == [] {
      assert a + b == b;
    } else {
      assert (a + b)[1..] == a[1..] + b;
      LookupAppend(a[1..], b, s);
    }
  }

  /** Behind a common prefix, sorted names have ascending characters. */
  lemma {:induction false} SortedAt(a: bytes, b: bytes, k: nat)
    requires Leq(a, b) && k <= |a| && k <= |b| && a[..k] == b[..k] && CString(b)
    ensures At(a, k) <= At(b, k)
    decreases k
  {
    if k > 0 {
      assert a[0] == a[..k][0] && b[0] == b[..k][0];
      assert a[1..][..k - 1] == a[..k][1..] && b[1..][..k - 1] == b[..k][1..];
      SortedAt(a[1..], b[1..], k - 1);
    }
  }

  /** A new last case matters to the names that no earlier case takes. */
  lemma AddCase(cases: seq<Case>, c: Case, t: byte)
    ensures var k := Select(cases, t);
            Select(cases + [c], t) == if k < |cases| then k else if c.tag == t then |cases| else |cases| + 1
  {
    var k, k2 := Select(cases, t), Select(cases + [c], t);
    var more := cases + [c];
    assert forall i :: 0 <= i < |cases| ==> more[i] == cases[i];
    assert more[|cases|] == c;
    if k < |cases| {
      assert more[k].tag == t;
    }
    if k2 < |cases| {
      assert cases[k2].tag == t;
    }
  }

  // ------------------------------------------------------------ the printer

  /** g_error ends the compiler when two operations have one name. */
  datatype Printed = Text(code: Code) | TwoOpsWithSameName

  /** One group of names has one character at this level; its case means its lookup. */
  ghost predicate CaseMeans(c: Case, group: seq<Op>, prefix: bytes)
  {
    forall s :: Reaches(s, prefix) && At(s, |prefix|) == c.tag ==>
                  EvalBody(c.body, |prefix|, s) == Lookup(group, s)
  }

  ghost predicate GroupAt(group: seq<Op>, prefix: bytes, c: byte)
  {
    group != [] && forall i :: 0 <= i < |group| ==> prefix <= group[i].name && At(group[i].name, |prefix|) == c
  }

  /** Nothing in the list has another character's names. */
  lemma {:induction false} NotInGroup(group: seq<Op>, prefix: bytes, s: bytes, c: byte)
    requires GroupAt(group, prefix, c) && Reaches(s, prefix) && At(s, |prefix|) != c
    ensures Lookup(group, s) == NotFound
  {
  }

  /** A single name needs only its tail compared. */
  lemma LeafMeans(op: Op, prefix: bytes)
    requires CString(op.name) && prefix < op.name
    ensures CaseMeans(Case(op.name[|prefix|], Compare(op.name[|prefix| + 1..], op)), [op], prefix)
  {
    var k, c := |prefix|, Case(op.name[|prefix|], Compare(op.name[|prefix| + 1..], op));
    assert [op][1..] == [];
    forall s | Reaches(s, prefix) && At(s, k) == c.tag
      ensures EvalBody(c.body, k, s) == Lookup([op], s)
    {
      assert k < |s|;
      assert s == prefix + [s[k]] + s[k + 1..];
      assert op.name == prefix + [op.name[k]] + op.name[k + 1..];
    }
  }

  lemma ExactMeans(op: Op)
    ensures CaseMeans(Case(0, Take(op)), [op], op.name)
  {
    assert [op][1..] == [];
    forall s | Reaches(s, op.name) && At(s, |op.name|) == 0
      ensures s == op.name
    {
      if |s| > |op.name| {
        assert false;
      }
    }
  }

  lemma SwitchMeans(code: Code, group: seq<Op>, prefix: bytes, c: byte)
    requires c != 0 && code.level == |prefix| + 1 && code == Switch(|prefix + [c]|, code.cases) && Means(code.cases, group, prefix + [c])
    ensures CaseMeans(Case(c, Sub(code)), group, prefix)
  {
    forall s | Reaches(s, prefix) && At(s, |prefix|) == c
      ensures Eval(code, s) == Lookup(group, s)
    {
      assert Reaches(s, prefix + [c]);
    }
  }

  /** The cases so far with one more group. */
  lemma Extend(cases: seq<Case>, done: seq<Op>, c: Case, group: seq<Op>, prefix: bytes)
    requires Means(cases, done, prefix) && CaseMeans(c, group, prefix) && GroupAt(group, prefix, c.tag)
    requires forall i :: 0 <= i < |cases| ==> cases[i].tag != c.tag
    requires Share(done, prefix) && forall i :: 0 <= i < |done| ==> At(done[i].name, |prefix|) != c.tag
    ensures Means(cases + [c], done + group, prefix)
  {
    var k := |prefix|;
    forall s | Reaches(s, prefix)
      ensures Eval(Switch(k, cases + [c]), s) == Lookup(done + group, s)
    {
      AddCase(cases, c, At(s, k));
      LookupAppend(done, group, s);
      assert Eval(Switch(k, cases), s) == Lookup(done, s);
      if At(s, k) == c.tag {
        assert Select(cases, c.tag) == |cases|;
      } else {
        NotInGroup(group, prefix, s, c.tag);
      }
    }
  }

  lemma SubList(ops: seq<Op>, lo: nat, hi: nat)
    requires lo <= hi <= |ops| && Names(ops) && Sorted(ops)
    ensures Names(ops[lo..hi]) && Sorted(ops[lo..hi])
    ensures HasDuplicate(ops[lo..hi]) ==> HasDuplicate(ops)
  {
    var sub := ops[lo..hi];
    assert forall i :: 0 <= i < |sub| ==> sub[i] == ops[lo + i];
    if HasDuplicate(sub) {
      var i, j :| 0 <= i < j < |sub| && sub[i].name == sub[j].name;
      assert ops[lo + i].name == ops[lo + j].name;
    }
  }

  /** The cases so far are in ascending order, and below every name still to come. */
  ghost predicate Ascending(cases: seq<Case>, ops: seq<Op>, cur: nat, level: nat)
    requires cur <= |ops| && forall i :: 0 <= i < |ops| ==> level <= |ops[i].name|
  {
    && (forall i, j :: 0 <= i < j < |cases| ==> cases[i].tag < cases[j].tag)
    && (forall i, j :: 0 <= i < |cases| && cur <= j < |ops| ==> cases[i].tag < At(ops[j].name, level))
    && (forall i, j :: 0 <= i < cur <= j < |ops| ==> At(ops[i].name, level) < At(ops[j].name, level))
  }

  ghost predicate NoneAgain(ops: seq<Op>, cur: nat)
  {
    forall i, j :: 0 <= i < j < |ops| && i < cur ==> ops[i].name != ops[j].name
  }

  lemma SortedLevel(ops: seq<Op>, prefix: bytes, i: nat, j: nat)
    requires Names(ops) && Sorted(ops) && Share(ops, prefix) && i <= j < |ops|
    ensures At(ops[i].name, |prefix|) <= At(ops[j].name, |prefix|)
  {
    if i < j {
      SortedAt(ops[i].name, ops[j].name, |prefix|);
    }
  }

  /** The group at `start..cur` is complete: what follows has larger characters. */
  lemma NextGroup(cases: seq<Case>, ops: seq<Op>, prefix: bytes, start: nat, cur: nat, c: Case)
    requires Names(ops) && Sorted(ops) && Share(ops, prefix) && start < cur <= |ops|
    requires Ascending(cases, ops, start, |prefix|) && NoneAgain(ops, start)
    requires forall i :: start <= i < cur ==> At(ops[i].name, |prefix|) == c.tag
    requires cur < |ops| ==> At(ops[cur].name, |prefix|) != c.tag
    requires !HasDuplicate(ops[start..cur])
    ensures Ascending(cases + [c], ops, cur, |prefix|) && NoneAgain(ops, cur)
    ensures forall i :: 0 <= i < start ==> At(ops[i].name, |prefix|) != c.tag
    ensures forall i :: 0 <= i < |cases| ==> cases[i].tag != c.tag
  {
    forall j | cur <= j < |ops| ensures c.tag < At(ops[j].name, |prefix|) {
      SortedLevel(ops, prefix, cur - 1, cur);
      SortedLevel(ops, prefix, cur, j);
    }
    assert cases != [] ==> cases[0].tag < At(ops[start].name, |prefix|);
    forall i, j | 0 <= i < j < |ops| && i < cur ensures ops[i].name != ops[j].name {
      if start <= i && j < cur {
        assert ops[start..cur][i - start] == ops[i] && ops[start..cur][j - start] == ops[j];
      }
    }
  }

  lemma GroupFacts(ops: seq<Op>, prefix: bytes, start: nat, cur: nat, c: byte)
    requires Names(ops) && Sorted(ops) && Share(ops, prefix) && start < cur <= |ops|
    requires forall i :: start <= i < cur ==> At(ops[i].name, |prefix|) == c
    ensures Names(ops[start..cur]) && Sorted(ops[start..cur]) && GroupAt(ops[start..cur], prefix, c)
    ensures HasDuplicate(ops[start..cur]) ==> HasDuplicate(ops)
    ensures |prefix| <= MaxLen(ops[start..cur]) <= MaxLen(ops)
  {
    hide Names, Sorted, HasDuplicate, MaxLen, At;
    SubList(ops, start, cur);
    ShorterList(ops, start, cur);
    Longest(ops[start..cur], 0);
    var group := ops[start..cur];
    forall i | 0 <= i < |group| ensures prefix <= group[i].name && At(group[i].name, |prefix|) == c {
      assert group[i] == ops[start + i];
    }
  }

  datatype Emitted = Emitted(body: Body) | Clash

  /** The text of one case. */
  method PrintGroup(group: seq<Op>, ghost prefix: bytes, level: nat, c: byte) returns (e: Emitted)
    requires Names(group) && Sorted(group) && GroupAt(group, prefix, c) && level == |prefix| <= MaxLen(group)
    ensures e.Clash? <==> HasDuplicate(group)
    ensures e.Emitted? ==> CaseMeans(Case(c, e.body), group, prefix) && DistinctIn(e.body)
    decreases MaxLen(group) + 1 - level, 0
  {
    hide CaseMeans, Means;
    var op := group[0];
    if |group| > 1 {
      if c != 0 {
        DeeperPrefix(group, prefix, c);
        var r := PrintRelayers(group, prefix + [c], level + 1);
        match r
        case TwoOpsWithSameName =>
          e := Clash;
        case Text(code) =>
          SwitchMeans(code, group, prefix, c);
          e := Emitted(Sub(code));
      } else {
        assert group[0].name == prefix && group[1].name == prefix;
        e := Clash;
      }
    } else {
      assert group == [op];
      if |op.name| > level {
        LeafMeans(op, prefix);
        e := Emitted(Compare(op.name[level + 1..], op));
      } else {
        assert op.name == prefix;
        ExactMeans(op);
        e := Emitted(Take(op));
      }
    }
  }

  lemma DeeperPrefix(group: seq<Op>, prefix: bytes, c: byte)
    requires Names(group) && GroupAt(group, prefix, c) && c != 0
    ensures Share(group, prefix + [c])
  {
    forall i | 0 <= i < |group| ensures prefix + [c] <= group[i].name {
      assert group[i].name[|prefix|] == c;
    }
  }

  /** cbe_skel_interface_print_relayers at the level |prefix|. */
  method PrintRelayers(ops: seq<Op>, ghost prefix: bytes, level: nat) returns (r: Printed)
    requires Names(ops) && Sorted(ops) && Share(ops, prefix) && level == |prefix| <= MaxLen(ops)
    ensures r.TwoOpsWithSameName? <==> HasDuplicate(ops)
    ensures r.Text? ==> r.code.level == level && Means(r.code.cases, ops, prefix) && DistinctLabels(r.code)
    decreases MaxLen(ops) + 1 - level, 1
  {
    hide CaseMeans, Means, Sorted, Names, HasDuplicate, GroupAt, Lookup, NoneAgain, MaxLen, At, DistinctIn;
    var cases := [];
    var cur := 0;
    NoCases(ops, prefix);
    assert ops[..cur] == [];
    while cur < |ops|
      invariant cur <= |ops| && Means(cases, ops[..cur], prefix)
      invariant Ascending(cases, ops, cur, level)
      invariant forall i :: 0 <= i < |cases| ==> DistinctIn(cases[i].body)
      invariant NoneAgain(ops, cur)
    {
      var c := At(ops[cur].name, level);
      var start := cur;
      cur := EndOfGroup(ops, level, start);
      var group := ops[start..cur];
      GroupFacts(ops, prefix, start, cur, c);
      var e := PrintGroup(group, prefix, level, c);
      if e.Clash? {
        return TwoOpsWithSameName;
      }
      var added := Case(c, e.body);
      NextGroup(cases, ops, prefix, start, cur, added);
      Extend(cases, ops[..start], added, group, prefix);
      assert ops[..start] + group == ops[..cur];
      cases := cases + [added];
    }
    assert ops[..cur] == ops;
    NoneLeft(ops);
    r := Text(Switch(level, cases));
  }

  /** The names that have the same character at `level` as the one at `start`. */
  method EndOfGroup(ops: seq<Op>, level: nat, start: nat) returns (cur: nat)
    requires start < |ops| && forall i :: 0 <= i < |ops| ==> level <= |ops[i].name|
    ensures start < cur <= |ops|
    ensures forall i :: start <= i < cur ==> At(ops[i].name, level) == At(ops[start].name, level)
    ensures cur < |ops| ==> At(ops[cur].name, level) != At(ops[start].name, level)
  {
    hide At;
    cur := start + 1;
    while cur < |ops| && At(ops[cur].name, level) == At(ops[start].name, level)
      invariant start < cur <= |ops|
      invariant forall i :: start <= i < cur ==> At(ops[i].name, level) == At(ops[start].name, level)
    {
      cur := cur + 1;
    }
  }

  lemma NoCases(ops: seq<Op>, prefix: bytes)
    ensures Means([], [], prefix) && NoneAgain(ops, 0)
  {
  }

  lemma NoneLeft(ops: seq<Op>)
    requires NoneAgain(ops, |ops|)
    ensures !HasDuplicate(ops)
  {
  }

  // ------------------------------------------------------------ the whole lookup

  /** g_slist_insert_sorted with strcmp: in front of the first name that is not smaller. */
  method InsertSorted(ops: seq<Op>, op: Op) returns (r: seq<Op>)
    requires Sorted(ops)
    ensures Sorted(r) && multiset(r) == multiset(ops) + multiset{op}
  {
    var k := 0;
    while k < |ops| && !Leq(op.name, ops[k].name)
      invariant k <= |ops| && forall i :: 0 <= i < k ==> Leq(ops[i].name, op.name)
    {
      Either(op.name, ops[k].name);
      k := k + 1;
    }
    StaysSorted(ops, k, op);
    assert ops == ops[..k] + ops[k..];
    r := ops[..k] + [op] + ops[k..];
  }

  lemma StaysSorted(ops: seq<Op>, k: nat, op: Op)
    requires Sorted(ops) && k <= |ops| && forall i :: 0 <= i < k ==> Leq(ops[i].name, op.name)
    requires k < |ops| ==> Leq(op.name, ops[k].name)
    ensures Sorted(ops[..k] + [op] + ops[k..])
  {
    hide Leq;
    var r := ops[..k] + [op] + ops[k..];
    forall i, j | 0 <= i < j < |r| ensures Leq(r[i].name, r[j].name) {
      if i == k {
        Either(ops[k].name, ops[k].name);
        Transitive(op.name, ops[k].name, ops[j - 1].name);
      } else if i < k && j > k {
        assert r[j] == ops[j - 1];
      }
    }
  }

  lemma {:induction false} Either(a: bytes, b: bytes)
    ensures Leq(a, b) || Leq(b, a)
    ensures Leq(a, a)
  {
    if a != [] {
      if b != [] {
        Either(a[1..], b[1..]);
      } else {
        Either(a[1..], []);
      }
    }
  }

  lemma {:induction false} Transitive(a: bytes, b: bytes, c: bytes)
    requires Leq(a, b) && Leq(b, c)
    ensures Leq(a, c)
  {
    if a != [] && a[0] == b[0] == c[0] {
      Transitive(a[1..], b[1..], c[1..]);
    }
  }

  /** cbe_skel_interface_print_relayer: the whole function, from the first character on. */
  method PrintRelayer(ops: seq<Op>) returns (r: Printed)
    requires Names(ops) && Sorted(ops)
    ensures r.TwoOpsWithSameName? <==> HasDuplicate(ops)
    ensures r.Text? ==> DistinctLabels(r.code) && forall s :: CString(s) ==> Eval(r.code, s) == Lookup(ops, s)
  {
    r := PrintRelayers(ops, [], 0);
    if r.Text? {
      Everywhere(r.code, ops);
    }
  }

  lemma Everywhere(code: Code, ops: seq<Op>)
    requires code.level == 0 && Means(code.cases, ops, [])
    ensures forall s :: CString(s) ==> Eval(code, s) == Lookup(ops, s)
  {
    assert code == Switch(0, code.cases);
    forall s | CString(s) ensures Eval(code, s) == Lookup(ops, s) {
      assert Reaches(s, []);
    }
  }
}
