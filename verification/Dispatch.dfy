/**
 The three places that number an interface's methods, and the dispatch they
 add up to: a request's name finds the method table entry of that name, in the
 interface or in the ancestor that declares it.
 */
module Dispatch {
  import opened Cdr
  import opened OpTrie
  import opened Inheritance

  /** An interface body's declarations; types, constants and exceptions are `Other`. */
  datatype Decl = OpDecl(name: bytes) | AttrDecl(readonly: bool, names: seq<bytes>) | Other

  const GET: bytes := [95, 103, 101, 116, 95]
  const SET: bytes := [95, 115, 101, 116, 95]

  /** The operations an attribute stands for. */
  function Accessors(readonly: bool, names: seq<bytes>): seq<bytes>
  {
    if names == [] then []
    else Accessors(readonly, names[..|names| - 1]) + Access(readonly, names[|names| - 1])
  }

  function Access(readonly: bool, name: bytes): seq<bytes>
  {
    [GET + name] + if readonly then [] else [SET + name]
  }

  /** The methods of a body, in the order that counts for every numbering. */
  function Methods(body: seq<Decl>): seq<bytes>
  {
    if body == [] then [] else Methods(body[..|body| - 1]) + Of(body[|body| - 1])
  }

  function Of(d: Decl): seq<bytes>
  {
    match d
    case OpDecl(name) => [name]
    case AttrDecl(readonly, names) => Accessors(readonly, names)
    case Other => []
  }

  lemma NextDecl(body: seq<Decl>, k: nat)
    requires k < |body|
    ensures Methods(body[..k + 1]) == Methods(body[..k]) + Of(body[k])
    ensures body[k].AttrDecl? ==> Accessors(body[k].readonly, body[k].names[..0]) == []
    ensures body[..|body|] == body
  {
    assert body[..k + 1][..k] == body[..k];
  }

  lemma NextName(readonly: bool, names: seq<bytes>, j: nat, before: seq<bytes>)
    requires j < |names|
    ensures before + Accessors(readonly, names[..j + 1]) ==
            if readonly then (before + Accessors(readonly, names[..j])) + [GET + names[j]]
            else (before + Accessors(readonly, names[..j])) + [GET + names[j]] + [SET + names[j]]
    ensures names[..|names|] == names
  {
    assert names[..j + 1][..j] == names[..j];
  }

  /** A name with the number some pass gave it. */
  datatype Numbered = Numbered(name: bytes, idx: nat)

  ghost predicate Agree(n: seq<Numbered>, methods: seq<bytes>)
  {
    |n| == |methods| && forall k :: 0 <= k < |n| ==> n[k] == Numbered(methods[k], k)
  }

  /** cs_output_stubs: every stub passes its index to ORBit_c_stub_invoke. */
  method OutputStubs(body: seq<Decl>) returns (stubs: seq<Numbered>)
    ensures Agree(stubs, Methods(body))
  {
    hide Methods, Accessors;
    stubs := [];
    var idx := 0;
    var k := 0;
    NoDecls(body);
    while k < |body|
      invariant k <= |body| && idx == |stubs| && Agree(stubs, Methods(body[..k]))
    {
      NextDecl(body, k);
      match body[k] {
      case OpDecl(name) =>
        stubs, idx := stubs + [Numbered(name, idx)], idx + 1;
      case AttrDecl(readonly, names) =>
        ghost var before := Methods(body[..k]);
        var j := 0;
        while j < |names|
          invariant j <= |names| && idx == |stubs|
          invariant Agree(stubs, before + Accessors(readonly, names[..j]))
        {
          NextName(readonly, names, j, before);
          stubs, idx := stubs + [Numbered(GET + names[j], idx)], idx + 1;
          if !readonly {
            stubs, idx := stubs + [Numbered(SET + names[j], idx)], idx + 1;
          }
          j := j + 1;
        }
        assert names[..j] == names;
      case Other =>
      }
      k := k + 1;
    }
    assert body[..k] == body;
  }

  /** cc_build_interfaces: the method table, in order. */
  method BuildMethods(body: seq<Decl>) returns (methods: seq<bytes>)
    ensures methods == Methods(body)
  {
    hide Methods, Accessors;
    methods := [];
    var k := 0;
    NoDecls(body);
    while k < |body|
      invariant k <= |body| && methods == Methods(body[..k])
    {
      NextDecl(body, k);
      match body[k] {
      case OpDecl(name) =>
        methods := methods + [name];
      case AttrDecl(readonly, names) =>
        ghost var before := methods;
        var j := 0;
        while j < |names|
          invariant j <= |names| && methods == before + Accessors(readonly, names[..j])
        {
          NextName(readonly, names, j, before);
          methods := methods + [GET + names[j]];
          if !readonly {
            methods := methods + [SET + names[j]];
          }
          j := j + 1;
        }
        assert names[..j] == names;
      case Other =>
      }
      k := k + 1;
    }
    assert body[..k] == body;
  }

  lemma NoDecls(body: seq<Decl>)
    ensures Methods(body[..0]) == []
  {
  }

  /** The relayers of one interface. */
  function Relayers(iface: nat, methods: seq<bytes>): (r: seq<Op>)
    ensures |r| == |methods| && forall k :: 0 <= k < |r| ==> r[k] == Op(iface, methods[k], k)
  {
    seq(|methods|, k requires 0 <= k < |methods| => Op(iface, methods[k], k))
  }

  /** One more relayer, numbered next and inserted by name. */
  method InsertNext(iface: nat, ghost methods: seq<bytes>, name: bytes, idx: nat, oplist: seq<Op>, ghost first: seq<Op>)
    returns (r: seq<Op>)
    requires Sorted(oplist) && idx == |methods|
    requires multiset(oplist) == multiset(first) + multiset(Relayers(iface, methods))
    ensures Sorted(r) && multiset(r) == multiset(first) + multiset(Relayers(iface, methods + [name]))
  {
    hide Sorted;
    r := InsertSorted(oplist, Op(iface, name, idx));
    assert Relayers(iface, methods + [name]) == Relayers(iface, methods) + [Op(iface, name, idx)];
  }

  /** cbe_skel_interface_add_relayer: numbered in order, inserted by name. */
  method AddRelayer(iface: nat, body: seq<Decl>, oplist: seq<Op>) returns (r: seq<Op>)
    requires Sorted(oplist)
    ensures Sorted(r) && multiset(r) == multiset(oplist) + multiset(Relayers(iface, Methods(body)))
  {
    hide Sorted, Methods, Accessors, Relayers;
    r := oplist;
    var idx := 0;
    var k := 0;
    NoDecls(body);
    assert Relayers(iface, []) == [];
    while k < |body|
      invariant k <= |body| && idx == |Methods(body[..k])|
      invariant Sorted(r) && multiset(r) == multiset(oplist) + multiset(Relayers(iface, Methods(body[..k])))
    {
      NextDecl(body, k);
      ghost var before := Methods(body[..k]);
      assert before + [] == before;
      match body[k] {
      case OpDecl(name) =>
        r := InsertNext(iface, before, name, idx, r, oplist);
        idx := idx + 1;
      case AttrDecl(readonly, names) =>
        var j := 0;
        while j < |names|
          invariant j <= |names| && idx == |before + Accessors(readonly, names[..j])|
          invariant Sorted(r)
          invariant multiset(r) == multiset(oplist) + multiset(Relayers(iface, before + Accessors(readonly, names[..j])))
        {
          NextName(readonly, names, j, before);
          ghost var so := before + Accessors(readonly, names[..j]);
          r := InsertNext(iface, so, GET + names[j], idx, r, oplist);
          idx := idx + 1;
          if !readonly {
            r := InsertNext(iface, so + [GET + names[j]], SET + names[j], idx, r, oplist);
            idx := idx + 1;
          }
          j := j + 1;
        }
        assert names[..j] == names;
      case Other =>
      }
      k := k + 1;
    }
    assert body[..k] == body;
  }

  // ------------------------------------------------------------ dispatch

  /** Every interface of the graph with its body; identifiers are C strings. */
  ghost predicate Declared(g: Graph, bodies: map<nat, seq<Decl>>)
  {
    && WellFormed(g) && bodies.Keys == g.parents.Keys
    && forall a, k :: a in bodies && 0 <= k < |Methods(bodies[a])| ==> CString(Methods(bodies[a])[k])
  }

  /** An operation of the family, as some pass numbers it. */
  ghost predicate Declares(bodies: map<nat, seq<Decl>>, family: set<nat>, op: Op)
  {
    && op.iface in family && op.iface in bodies
    && op.idx < |Methods(bodies[op.iface])| && Methods(bodies[op.iface])[op.idx] == op.name
  }

  /** Two declarations in the family, perhaps in different interfaces, have one name. */
  ghost predicate Clashing(bodies: map<nat, seq<Decl>>, family: set<nat>)
  {
    exists a, b :: Declares(bodies, family, a) && Declares(bodies, family, b) && a != b && a.name == b.name
  }

  /** The list holds each declared operation of the interfaces in `done` once. */
  ghost predicate Collected(bodies: map<nat, seq<Decl>>, done: set<nat>, oplist: seq<Op>)
  {
    && (forall op :: op in multiset(oplist) <==> Declares(bodies, done, op))
    && (forall op :: multiset(oplist)[op] <= 1)
  }

  lemma CollectOne(bodies: map<nat, seq<Decl>>, done: set<nat>, oplist: seq<Op>, a: nat, more: seq<Op>)
    requires Collected(bodies, done, oplist) && a !in done && a in bodies
    requires multiset(more) == multiset(oplist) + multiset(Relayers(a, Methods(bodies[a])))
    ensures Collected(bodies, done + {a}, more)
  {
    var own := Relayers(a, Methods(bodies[a]));
    OnceEach(own);
    OwnRelayers(bodies, a);
    hide Relayers, Methods;
    forall op
      ensures op in multiset(more) <==> Declares(bodies, done + {a}, op)
      ensures multiset(more)[op] <= 1
    {
      assert multiset(more)[op] == multiset(oplist)[op] + multiset(own)[op];
      assert Declares(bodies, done + {a}, op) <==> Declares(bodies, done, op) || Declares(bodies, {a}, op);
    }
  }

  lemma OwnRelayers(bodies: map<nat, seq<Decl>>, a: nat)
    requires a in bodies
    ensures forall op :: op in multiset(Relayers(a, Methods(bodies[a]))) <==> Declares(bodies, {a}, op)
  {
    hide Methods;
    var own := Relayers(a, Methods(bodies[a]));
    forall op ensures op in multiset(own) <==> Declares(bodies, {a}, op) {
      if Declares(bodies, {a}, op) {
        assert own[op.idx] == op;
      }
    }
  }

  lemma {:induction false} OnceEach(s: seq<Op>)
    requires forall i, j :: 0 <= i < j < |s| ==> s[i] != s[j]
    ensures forall op :: multiset(s)[op] <= 1
  {
    if s != [] {
      var n := |s| - 1;
      OnceEach(s[..n]);
      assert s == s[..n] + [s[n]];
      assert s[n] !in s[..n];
    }
  }

  /**
   get_skel_small: the operations of the whole family are collected, ancestors
   first, and compiled. A diamond adds nothing twice: compilation fails exactly
   when two declarations of the family share a name.
   */
  method GetSkelSmall(g: Graph, bodies: map<nat, seq<Decl>>, p: nat) returns (r: Printed)
    requires Declared(g, bodies) && p in g.parents
    ensures r.TwoOpsWithSameName? <==> Clashing(bodies, Family(g, p))
    ensures r.Text? ==> DistinctLabels(r.code)
    ensures r.Text? ==> forall s :: CString(s) ==> Answers(bodies, Family(g, p), s, Eval(r.code, s))
  {
    var walk := new Walk(g);
    walk.TraverseFull(p, true);
    var order := walk.order;
    var oplist := [];
    var k := 0;
    assert Elements(order[..0]) == {};
    while k < |order|
      invariant k <= |order| && Sorted(oplist) && Collected(bodies, Elements(order[..k]), oplist)
    {
      var a := order[k];
      assert a in Elements(order);
      assert Elements(order[..k + 1]) == Elements(order[..k]) + {a};
      assert a !in Elements(order[..k]);
      var more := AddRelayer(a, bodies[a], oplist);
      CollectOne(bodies, Elements(order[..k]), oplist, a, more);
      oplist := more;
      k := k + 1;
    }
    assert order[..k] == order;
    r := Compile(g, bodies, Family(g, p), oplist);
  }

  /** What a request for the operation named `s` must get. */
  ghost predicate Answers(bodies: map<nat, seq<Decl>>, family: set<nat>, s: bytes, a: Answer)
  {
    match a
    case Found(op) => Declares(bodies, family, op) && op.name == s
    case NotFound => forall i :: i in family && i in bodies ==> s !in Methods(bodies[i])
    case ReadPastEnd => false
  }

  method Compile(g: Graph, bodies: map<nat, seq<Decl>>, ghost family: set<nat>, oplist: seq<Op>) returns (r: Printed)
    requires Declared(g, bodies) && Sorted(oplist) && Collected(bodies, family, oplist)
    ensures r.TwoOpsWithSameName? <==> Clashing(bodies, family)
    ensures r.Text? ==> DistinctLabels(r.code)
    ensures r.Text? ==> forall s :: CString(s) ==> Answers(bodies, family, s, Eval(r.code, s))
  {
    hide Methods, Sorted, WellFormed, Eval;
    assert forall i :: 0 <= i < |oplist| ==> oplist[i] in multiset(oplist);
    ClashIsDuplicate(bodies, family, oplist);
    r := PrintRelayer(oplist);
    if r.Text? {
      forall s | CString(s) ensures Answers(bodies, family, s, Eval(r.code, s)) {
        LookupAnswers(bodies, family, oplist, s);
      }
    }
  }

  lemma LookupAnswers(bodies: map<nat, seq<Decl>>, family: set<nat>, oplist: seq<Op>, s: bytes)
    requires Collected(bodies, family, oplist)
    ensures Answers(bodies, family, s, Lookup(oplist, s))
  {
    var a := Lookup(oplist, s);
    if a.Found? {
      assert a.op in multiset(oplist);
    } else {
      forall i | i in family && i in bodies ensures s !in Methods(bodies[i]) {
        forall k | 0 <= k < |Methods(bodies[i])| ensures Methods(bodies[i])[k] != s {
          var op := Op(i, Methods(bodies[i])[k], k);
          assert Declares(bodies, family, op);
          assert op in oplist;
        }
      }
    }
  }

  lemma ClashIsDuplicate(bodies: map<nat, seq<Decl>>, family: set<nat>, oplist: seq<Op>)
    requires Collected(bodies, family, oplist)
    ensures Clashing(bodies, family) <==> HasDuplicate(oplist)
  {
    if Clashing(bodies, family) {
      var a, b :| Declares(bodies, family, a) && Declares(bodies, family, b) && a != b && a.name == b.name;
      var i, j :| 0 <= i < |oplist| && 0 <= j < |oplist| && oplist[i] == a && oplist[j] == b;
      assert i < j || j < i;
    }
    if HasDuplicate(oplist) {
      var i, j :| 0 <= i < j < |oplist| && oplist[i].name == oplist[j].name;
      assert oplist[i] in multiset(oplist) && oplist[j] in multiset(oplist);
      if oplist[i] == oplist[j] {
        TwicePlaced(oplist, i, j);
        assert false;
      }
    }
  }

  lemma TwicePlaced(s: seq<Op>, i: nat, j: nat)
    requires i < j < |s| && s[i] == s[j]
    ensures multiset(s)[s[i]] >= 2
  {
    assert s == s[..j] + s[j..] && s[j..] == [s[j]] + s[j + 1..];
    assert s[i] in s[..j];
  }
}
