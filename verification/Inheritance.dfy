/**
 The walk over an interface's ancestors: depth first, with a table of visited
 nodes, calling back for every interface once. Inheritance graphs are acyclic,
 which `height` witnesses: a parent is lower than its heirs.
 */
module Inheritance {
  import opened Common

  datatype Graph = Graph(parents: map<nat, seq<nat>>, ghost height: map<nat, nat>)

  /** Every interface an inheritance_spec names is declared, and lower. */
  ghost predicate WellFormed(g: Graph)
  {
    && g.parents.Keys == g.height.Keys
    && forall p, i :: p in g.parents && 0 <= i < |g.parents[p]| ==>
                        g.parents[p][i] in g.parents && g.height[g.parents[p][i]] < g.height[p]
  }

  /** The interface and everything it inherits from, directly or not. */
  ghost function Family(g: Graph, p: nat): (f: set<nat>)
    requires WellFormed(g) && p in g.parents
    ensures p in f && f <= g.parents.Keys && forall a :: a in f && a != p ==> g.height[a] < g.height[p]
    decreases g.height[p], |g.parents[p]| + 1
  {
    {p} + FamilyOfParents(g, p, |g.parents[p]|)
  }

  /** The ancestors by way of the first `n` parents. */
  ghost function FamilyOfParents(g: Graph, p: nat, n: nat): (f: set<nat>)
    requires WellFormed(g) && p in g.parents && n <= |g.parents[p]|
    ensures f <= g.parents.Keys && forall a :: a in f ==> g.height[a] < g.height[p]
    decreases g.height[p], n
  {
    if n == 0 then {} else FamilyOfParents(g, p, n - 1) + Family(g, g.parents[p][n - 1])
  }

  /** In the order of calls, an interface comes behind all its ancestors. */
  ghost predicate ParentsFirst(g: Graph, order: seq<nat>)
    requires WellFormed(g)
  {
    forall i, a :: 0 <= i < |order| && order[i] in g.parents && a in Family(g, order[i]) && a != order[i] ==> a in order[..i]
  }

  ghost function Elements(s: seq<nat>): set<nat>
  {
    set x | x in s
  }

  /** Calls that make sense: once each, ancestors first, and no ancestor missing. */
  ghost predicate Sound(g: Graph, order: seq<nat>)
    requires WellFormed(g)
  {
    NoRepeats(order) && ParentsFirst(g, order) && (forall a :: a in order ==> a in g.parents && Family(g, a) <= Elements(order))
  }

  lemma CallBack(g: Graph, order: seq<nat>, p: nat)
    requires WellFormed(g) && Sound(g, order) && p in g.parents && p !in order && Family(g, p) - {p} <= Elements(order)
    ensures Sound(g, order + [p]) && Elements(order + [p]) == Elements(order) + {p}
  {
    var more := order + [p];
    assert Elements(more) == Elements(order) + {p};
    forall i, a | 0 <= i < |more| && more[i] in g.parents && a in Family(g, more[i]) && a != more[i]
      ensures a in more[..i]
    {
      if i < |order| {
        assert more[..i] == order[..i];
      } else {
        assert more[..i] == order && a in Elements(order);
      }
    }
  }

  /** The nodes that are entered and not yet called back lie above `bound`. */
  ghost predicate OpenAbove(g: Graph, visited: set<nat>, order: seq<nat>, bound: nat)
    requires WellFormed(g)
  {
    && (forall a :: a in order ==> a in visited)
    && (forall v :: v in visited ==> v in g.parents && (v in order || g.height[v] > bound))
  }

  lemma Lower(g: Graph, visited: set<nat>, order: seq<nat>, p: nat, q: nat)
    requires WellFormed(g) && p in g.parents && q in g.parents && g.height[q] < g.height[p]
    requires OpenAbove(g, visited - {p}, order, g.height[p]) && p !in order
    ensures OpenAbove(g, visited, order, g.height[q])
  {
  }

  class Walk {
    const graph: Graph
    /** visited_nodes, and the calls of the callback in order. */
    var visited: set<nat>
    var order: seq<nat>

    constructor (graph: Graph)
      requires WellFormed(graph)
      ensures this.graph == graph && visited == {} && order == []
    {
      this.graph, visited, order := graph, {}, [];
    }

    /** IDL_tree_traverse_helper. */
    method Traverse(p: nat)
      requires WellFormed(graph) && p in graph.parents
      requires Sound(graph, order) && OpenAbove(graph, visited, order, graph.height[p])
      modifies `visited, `order
      ensures Sound(graph, order) && OpenAbove(graph, visited, order, graph.height[p])
      ensures visited == old(visited) + Family(graph, p)
      ensures old(order) <= order && Elements(order) == Elements(old(order)) + Family(graph, p)
      ensures p !in old(visited) ==> order != [] && order[|order| - 1] == p
      decreases graph.height[p], 1
    {
      hide Family, FamilyOfParents, NoRepeats, ParentsFirst;
      if p in visited {
        assert p in order && Family(graph, p) <= Elements(order);
        FamilyVisited(graph, visited, order, p);
        return;
      }
      TraverseParents(p);
      CallBack(graph, order, p);
      order := order + [p];
    }

    lemma FamilyVisited(g: Graph, visited: set<nat>, order: seq<nat>, p: nat)
      requires WellFormed(g) && p in order && Sound(g, order) && forall a :: a in order ==> a in visited
      ensures p in g.parents && Family(g, p) <= visited
    {
    }

    /** The loop over inheritance_spec, with `p` marked as visited. */
    method TraverseParents(p: nat)
      requires WellFormed(graph) && p in graph.parents && p !in visited
      requires Sound(graph, order) && OpenAbove(graph, visited, order, graph.height[p])
      modifies `visited, `order
      ensures Sound(graph, order) && OpenAbove(graph, visited - {p}, order, graph.height[p]) && p !in order
      ensures visited == old(visited) + Family(graph, p)
      ensures old(order) <= order && Elements(order) == Elements(old(order)) + (Family(graph, p) - {p})
      decreases graph.height[p], 0
    {
      hide Family, FamilyOfParents, NoRepeats, ParentsFirst, Sound;
      Unfold(p);
      visited := visited + {p};
      assert visited - {p} == old(visited);
      var ps := graph.parents[p];
      var i := 0;
      while i < |ps|
        invariant i <= |ps| && Sound(graph, order)
        invariant visited == old(visited) + {p} + FamilyOfParents(graph, p, i)
        invariant Elements(order) == Elements(old(order)) + FamilyOfParents(graph, p, i)
        invariant old(order) <= order && p !in order
        invariant OpenAbove(graph, visited - {p}, order, graph.height[p])
      {
        var q := ps[i];
        Lower(graph, visited, order, p, q);
        ghost var before := order;
        Traverse(q);
        UnfoldParents(p, i);
        StillOpen(p, q, before);
        i := i + 1;
      }
    }

    lemma Unfold(p: nat)
      requires WellFormed(graph) && p in graph.parents
      ensures Family(graph, p) == {p} + FamilyOfParents(graph, p, |graph.parents[p]|)
      ensures p !in FamilyOfParents(graph, p, |graph.parents[p]|) && FamilyOfParents(graph, p, 0) == {}
    {
    }

    lemma UnfoldParents(p: nat, i: nat)
      requires WellFormed(graph) && p in graph.parents && i < |graph.parents[p]|
      ensures FamilyOfParents(graph, p, i + 1) == FamilyOfParents(graph, p, i) + Family(graph, graph.parents[p][i])
      ensures p !in Family(graph, graph.parents[p][i])
    {
    }

    lemma StillOpen(p: nat, q: nat, before: seq<nat>)
      requires WellFormed(graph) && p in graph.parents && q in graph.parents && before <= order && p !in before
      requires OpenAbove(graph, visited, order, graph.height[q]) && Elements(order) == Elements(before) + Family(graph, q)
      requires p !in Family(graph, q)
      ensures p !in order
    {
      assert p in order ==> p in Elements(order);
    }

    /** IDL_tree_traverse_parents_full. */
    method TraverseFull(p: nat, includeSelf: bool)
      requires WellFormed(graph) && p in graph.parents && visited == {} && order == []
      modifies `visited, `order
      ensures Sound(graph, order)
      ensures Elements(order) == if includeSelf then Family(graph, p) else Family(graph, p) - {p}
      ensures includeSelf ==> order != [] && order[|order| - 1] == p
    {
      if includeSelf {
        Traverse(p);
      } else {
        TraverseParents(p);
      }
    }
  }
}
