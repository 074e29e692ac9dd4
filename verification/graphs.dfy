/** The conflict graph both clustering variants build: a JavaScript `Map`
    from meeting id to a `Set` of neighbour ids. Both JavaScript collections
    iterate in insertion order, so the key order is kept as a duplicate-free
    sequence and every neighbour set as a duplicate-free sequence. */
module Graphs {
  import opened Seqs

  type Id = string

  /** `nodes` lists the keys of `adj` in insertion order. */
  datatype Graph = Graph(nodes: seq<Id>, adj: map<Id, seq<Id>>)

  /** The shape both builders maintain: keys listed once, every neighbour is
      itself a node, neighbour lists are sets. */
  ghost predicate Valid(g: Graph) {
    && NoDup(g.nodes)
    && (forall u :: u in g.adj <==> u in g.nodes)
    && (forall u, v :: u in g.adj && v in g.adj[u] ==> v in g.adj)
    && (forall u :: u in g.adj ==> NoDup(g.adj[u]))
  }

  /** Every edge is stored in both directions. */
  ghost predicate Symmetric(g: Graph) {
    forall u, v :: u in g.adj && v in g.adj[u] ==> v in g.adj && u in g.adj[v]
  }

  /** `new Map()`. */
  function Empty(): (g: Graph)
    ensures Valid(g) && Symmetric(g)
    ensures g.nodes == []
  {
    Graph([], map[])
  }

  /** `Set.prototype.add`: appends `v` unless it is already present. */
  function Insert(s: seq<Id>, v: Id): (r: seq<Id>)
    ensures forall y :: y in r <==> y in s || y == v
    ensures Elems(r) == Elems(s) + {v}
    ensures NoDup(s) ==> NoDup(r)
  {
    if v in s then s else s + [v]
  }

  /** `graph.set(u, new Set())` when `u` is not yet a key; a key that is
      already present keeps its place and its neighbours. */
  function AddNode(g: Graph, u: Id): (g': Graph)
    requires Valid(g)
    ensures Valid(g')
    ensures Symmetric(g) ==> Symmetric(g')
    ensures u in g'.adj && g'.adj[u] == (if u in g.adj then g.adj[u] else [])
    ensures g'.nodes == if u in g.adj then g.nodes else g.nodes + [u]
    ensures forall x :: x in g.adj ==> x in g'.adj && g'.adj[x] == g.adj[x]
    ensures forall x :: x in g'.adj <==> x in g.adj || x == u
  {
    if u in g.adj then g else Graph(g.nodes + [u], g.adj[u := []])
  }

  /** `graph.get(a).add(b)` for two existing keys. */
  function AddArc(g: Graph, a: Id, b: Id): (g': Graph)
    requires Valid(g)
    requires a in g.adj && b in g.adj
    ensures Valid(g')
    ensures g'.nodes == g.nodes
    ensures g'.adj.Keys == g.adj.Keys
    ensures forall x, y :: x in g'.adj && y in g'.adj[x] <==> (x in g.adj && y in g.adj[x]) || (x == a && y == b)
  {
    var g' := Graph(g.nodes, g.adj[a := Insert(g.adj[a], b)]);
    assert forall x :: x in g'.adj && x != a ==> g'.adj[x] == g.adj[x];
    g'
  }

  /** `graph.get(a).add(b); graph.get(b).add(a)` for two existing keys. */
  function AddEdge(g: Graph, a: Id, b: Id): (g': Graph)
    requires Valid(g)
    requires a in g.adj && b in g.adj
    ensures Valid(g')
    ensures Symmetric(g) ==> Symmetric(g')
    ensures g'.nodes == g.nodes
    ensures g'.adj.Keys == g.adj.Keys
    ensures b in g'.adj[a] && a in g'.adj[b]
    ensures forall x, y :: x in g'.adj && y in g'.adj[x] <==>
              (x in g.adj && y in g.adj[x]) || (x == a && y == b) || (x == b && y == a)
  {
    AddArc(AddArc(g, a, b), b, a)
  }

  /** `s` without any occurrence of `x`. */
  function Remove(s: seq<Id>, x: Id): (r: seq<Id>)
    ensures forall y :: y in r <==> y in s && y != x
  {
    if s == [] then [] else (if s[0] == x then [] else [s[0]]) + Remove(s[1..], x)
  }

  lemma {:induction false} RemoveAppend(s: seq<Id>, v: Id, x: Id)
    ensures Remove(s + [v], x) == Remove(s, x) + (if v == x then [] else [v])
  {
    if s == [] {
      assert [v][1..] == [];
    } else {
      assert (s + [v])[1..] == s[1..] + [v];
      RemoveAppend(s[1..], v, x);
    }
  }

  /** Adding `x` itself leaves `s` without `x` unchanged; adding anything
      else commutes with removing `x`. */
  lemma RemoveInsert(s: seq<Id>, v: Id, x: Id)
    ensures Remove(Insert(s, v), x) == if v == x then Remove(s, x) else Insert(Remove(s, x), v)
  {
    if v !in s {
      RemoveAppend(s, v, x);
    }
  }

  /** `g` and `h` have the same nodes, in the same order, and the same
      neighbour lists once each node is dropped from its own list: they
      differ at most in self-loops. */
  ghost predicate SameUpToLoops(g: Graph, h: Graph) {
    && g.nodes == h.nodes
    && g.adj.Keys == h.adj.Keys
    && forall u :: u in g.adj ==> Remove(g.adj[u], u) == Remove(h.adj[u], u)
  }

  /** Adding the same edge to two graphs that differ only in self-loops
      keeps them so. */
  lemma AddEdgeSameUpToLoops(g: Graph, h: Graph, a: Id, b: Id)
    requires Valid(g) && Valid(h) && SameUpToLoops(g, h)
    requires a in g.adj && b in g.adj
    ensures SameUpToLoops(AddEdge(g, a, b), AddEdge(h, a, b))
  {
    AddArcSameUpToLoops(g, h, a, b);
    AddArcSameUpToLoops(AddArc(g, a, b), AddArc(h, a, b), b, a);
  }

  lemma AddArcSameUpToLoops(g: Graph, h: Graph, a: Id, b: Id)
    requires Valid(g) && Valid(h) && SameUpToLoops(g, h)
    requires a in g.adj && b in g.adj
    ensures SameUpToLoops(AddArc(g, a, b), AddArc(h, a, b))
  {
    var g', h' := AddArc(g, a, b), AddArc(h, a, b);
    forall u | u in g'.adj ensures Remove(g'.adj[u], u) == Remove(h'.adj[u], u) {
      if u == a {
        RemoveInsert(g.adj[u], b, u);
        RemoveInsert(h.adj[u], b, u);
      }
    }
  }

  /** A self-loop `a`-`a` changes nothing but self-loops. */
  lemma AddSelfLoopSameUpToLoops(g: Graph, a: Id)
    requires Valid(g)
    requires a in g.adj
    ensures SameUpToLoops(AddEdge(g, a, a), g)
  {
    var g' := AddEdge(g, a, a);
    forall u | u in g'.adj ensures Remove(g'.adj[u], u) == Remove(g.adj[u], u) {
      if u == a {
        RemoveInsert(g.adj[a], a, a);
        RemoveInsert(Insert(g.adj[a], a), a, a);
      }
    }
  }
}
