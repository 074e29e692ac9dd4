/** The recursive depth-first search both clustering variants run. The
    `visited` set the JavaScript closures share is threaded through the calls,
    and `clusterIds.push` order is the discovery order returned. Termination
    rests on the number of nodes not yet visited, not on a recursion bound. */
module Dfs {
  import opened Seqs
  import opened Graphs
  import opened Paths

  /** Nodes of `g` not yet in `visited`. */
  function Unvisited(g: Graph, visited: set<Id>): nat {
    |g.adj.Keys - visited|
  }

  lemma UnvisitedShrinks(g: Graph, visited: set<Id>, more: set<Id>, u: Id)
    requires u in g.adj && u !in visited && u in more
    ensures Unvisited(g, visited + more) < Unvisited(g, visited)
  {
    var before := g.adj.Keys - visited;
    var after := g.adj.Keys - (visited + more);
    SubsetCard(after, before - {u});
    assert |before - {u}| == |before| - 1;
  }

  lemma UnvisitedMonotone(g: Graph, visited: set<Id>, more: set<Id>)
    ensures Unvisited(g, visited + more) <= Unvisited(g, visited)
  {
    SubsetCard(g.adj.Keys - (visited + more), g.adj.Keys - visited);
  }

  /** Every element of `e` is a node that was not visited before. */
  ghost predicate FreshNodes(g: Graph, e: seq<Id>, visited: set<Id>) {
    forall x :: x in e ==> x in g.adj && x !in visited
  }

  /** Every neighbour of an element of `e` is in `e` or in `visited`. */
  ghost predicate ClosedOver(g: Graph, e: seq<Id>, visited: set<Id>)
    requires FreshNodes(g, e, visited)
  {
    forall x, y :: x in e && y in g.adj[x] ==> y in visited || y in e
  }

  /** Every element of `e` is a root or a neighbour of an earlier element:
      `e` is the discovery order of a forest of search trees. */
  ghost predicate Discovered(g: Graph, e: seq<Id>, roots: seq<Id>) {
    forall k :: 0 <= k < |e| ==>
      e[k] in roots || exists l :: 0 <= l < k && e[l] in g.adj && e[k] in g.adj[e[l]]
  }

  /** `dfs(u, clusterIds)`: marks `u`, records it, then searches from each
      neighbour that is still unvisited, in neighbour insertion order. The
      result is the sequence of ids pushed, starting with `u`. */
  function Visit(g: Graph, u: Id, visited: set<Id>): (d: seq<Id>)
    requires Valid(g)
    requires u in g.adj && u !in visited
    ensures |d| > 0 && d[0] == u
    ensures NoDup(d)
    ensures FreshNodes(g, d, visited)
    ensures ClosedOver(g, d, visited)
    ensures Discovered(g, d, [u])
    decreases Unvisited(g, visited), 0
  {
    UnvisitedShrinks(g, visited, {u}, u);
    var e := VisitAll(g, g.adj[u], visited + {u});
    var d := [u] + e;
    DiscoveredCons(g, u, e);
    RootCons(g, u, e, visited);
    d
  }

  /** The `for (const neighbor of …)` loop of `dfs`: searches from each id of
      `ns` in order, skipping those visited by then. */
  function VisitAll(g: Graph, ns: seq<Id>, visited: set<Id>): (e: seq<Id>)
    requires Valid(g)
    requires forall v :: v in ns ==> v in g.adj
    ensures NoDup(e)
    ensures FreshNodes(g, e, visited)
    ensures ClosedOver(g, e, visited)
    ensures forall v :: v in ns ==> v in visited || v in e
    ensures Discovered(g, e, ns)
    decreases Unvisited(g, visited), 1, |ns|
  {
    if ns == [] then []
    else if ns[0] in visited then VisitAll(g, ns[1..], visited)
    else
      var d := Visit(g, ns[0], visited);
      UnvisitedMonotone(g, visited, Elems(d));
      var rest := VisitAll(g, ns[1..], visited + Elems(d));
      ConcatNoDup(d, rest);
      DiscoveredConcat(g, d, rest, ns);
      d + rest
  }

  /** `g` holds a:[b,c], b:[a,d], c:[a], d:[b]. */
  ghost predicate PreOrderShape(g: Graph) {
    && Valid(g)
    && "a" in g.adj && "b" in g.adj && "c" in g.adj && "d" in g.adj
    && g.adj["a"] == ["b", "c"] && g.adj["b"] == ["a", "d"]
    && g.adj["c"] == ["a"] && g.adj["d"] == ["b"]
  }

  /** The ids come out in depth-first pre-order: the search from `a` records
      `b`, then `d` below `b`, and only then `c`. */
  lemma PreOrderExample(g: Graph)
    requires PreOrderShape(g)
    ensures Visit(g, "a", {}) == ["a", "b", "d", "c"]
  {
    assert {} + {"a"} == {"a"};
    PreOrderUnderA(g);
  }

  /** The neighbour loop of `a`: `b`'s whole subtree comes before `c`. */
  lemma PreOrderUnderA(g: Graph)
    requires PreOrderShape(g)
    ensures VisitAll(g, ["b", "c"], {"a"}) == ["b", "d", "c"]
  {
    PreOrderFromB(g);
    PreOrderFromC(g);
    assert ["b", "c"][1..] == ["c"];
    assert {"a"} + Elems(["b", "d"]) == {"a", "b", "d"};
    assert VisitAll(g, ["c"], {"a", "b", "d"}) == ["c"];
  }

  /** Entered after `a`, the search from `b` finds `d` below it. */
  lemma PreOrderFromB(g: Graph)
    requires PreOrderShape(g)
    ensures Visit(g, "b", {"a"}) == ["b", "d"]
  {
    PreOrderFromD(g);
    assert {"a"} + {"b"} == {"a", "b"};
    assert ["a", "d"][1..] == ["d"];
    assert ["d"][1..] == [];
    assert VisitAll(g, ["d"], {"a", "b"}) == ["d"] + VisitAll(g, [], {"a", "b"} + Elems(["d"]));
    assert VisitAll(g, ["a", "d"], {"a", "b"}) == ["d"];
  }

  /** Entered below `b`, the search from `d` finds nothing new. */
  lemma PreOrderFromD(g: Graph)
    requires PreOrderShape(g)
    ensures Visit(g, "d", {"a", "b"}) == ["d"]
  {
    assert {"a", "b"} + {"d"} == {"a", "b", "d"};
    assert ["b"][1..] == [];
    assert VisitAll(g, ["b"], {"a", "b", "d"}) == [];
  }

  /** Entered last, the search from `c` finds nothing new. */
  lemma PreOrderFromC(g: Graph)
    requires PreOrderShape(g)
    ensures Visit(g, "c", {"a", "b", "d"}) == ["c"]
  {
    assert {"a", "b", "d"} + {"c"} == {"a", "b", "c", "d"};
    assert ["a"][1..] == [];
    assert VisitAll(g, ["a"], {"a", "b", "c", "d"}) == [];
  }

  /** A fresh root followed by what the search from its neighbours found is
      fresh, duplicate-free and closed. */
  lemma RootCons(g: Graph, u: Id, e: seq<Id>, visited: set<Id>)
    requires u in g.adj && u !in visited
    requires NoDup(e) && FreshNodes(g, e, visited + {u}) && ClosedOver(g, e, visited + {u})
    requires forall v :: v in g.adj[u] ==> v in visited + {u} || v in e
    ensures NoDup([u] + e) && FreshNodes(g, [u] + e, visited) && ClosedOver(g, [u] + e, visited)
  {
    var d := [u] + e;
    assert u !in e;
    forall i, j | 0 <= i < j < |d| ensures d[i] != d[j] {
      assert d[j] == e[j - 1];
      if i > 0 {
        assert d[i] == e[i - 1];
      }
    }
  }

  /** A root followed by a forest rooted in its neighbours is one tree. */
  lemma DiscoveredCons(g: Graph, u: Id, e: seq<Id>)
    requires u in g.adj
    requires Discovered(g, e, g.adj[u])
    ensures Discovered(g, [u] + e, [u])
  {
    var d := [u] + e;
    forall k | 0 < k < |d|
      ensures exists l :: 0 <= l < k && d[l] in g.adj && d[k] in g.adj[d[l]]
    {
      assert d[k] == e[k - 1];
      if e[k - 1] in g.adj[u] {
        assert d[0] == u;
      } else {
        var l :| 0 <= l < k - 1 && e[l] in g.adj && e[k - 1] in g.adj[e[l]];
        assert d[l + 1] == e[l];
      }
    }
  }

  /** Gluing the tree found from `ns[0]` to the forest found from the rest of
      `ns` gives a forest rooted in `ns`. */
  lemma DiscoveredConcat(g: Graph, d: seq<Id>, rest: seq<Id>, ns: seq<Id>)
    requires |ns| > 0
    requires Discovered(g, d, [ns[0]])
    requires Discovered(g, rest, ns[1..])
    ensures Discovered(g, d + rest, ns)
  {
    var e := d + rest;
    forall k | 0 <= k < |e|
      ensures e[k] in ns || exists l :: 0 <= l < k && e[l] in g.adj && e[k] in g.adj[e[l]]
    {
      if k < |d| {
        assert e[k] == d[k];
        if d[k] !in [ns[0]] {
          var l :| 0 <= l < k && d[l] in g.adj && d[k] in g.adj[d[l]];
          assert e[l] == d[l];
        }
      } else {
        assert e[k] == rest[k - |d|];
        if rest[k - |d|] !in ns[1..] {
          var l :| 0 <= l < k - |d| && rest[l] in g.adj && rest[k - |d|] in g.adj[rest[l]];
          assert e[l + |d|] == rest[l];
        }
      }
    }
  }

  /** Every neighbour of an element of `s` is in `s`. */
  ghost predicate ClosedSet(g: Graph, s: set<Id>)
    requires forall x :: x in s ==> x in g.adj
  {
    forall x, y :: x in s && y in g.adj[x] ==> y in s
  }

  /** The outer loop: a search from every seed that is still unvisited, in
      seed order, each search giving one cluster. */
  function Components(g: Graph, seeds: seq<Id>, visited: set<Id>): (cs: seq<seq<Id>>)
    requires Valid(g)
    requires forall s :: s in seeds ==> s in g.adj
    ensures NoDup(Flatten(cs))
    ensures FreshNodes(g, Flatten(cs), visited)
    ensures forall s :: s in seeds ==> s in visited || s in Flatten(cs)
    ensures forall k :: 0 <= k < |cs| ==> |cs[k]| > 0 && cs[k][0] in seeds
    ensures forall k :: 0 <= k < |cs| ==> Discovered(g, cs[k], [cs[k][0]])
    decreases |seeds|
  {
    if seeds == [] then []
    else if seeds[0] in visited then Components(g, seeds[1..], visited)
    else
      var c := Visit(g, seeds[0], visited);
      var rest := Components(g, seeds[1..], visited + Elems(c));
      ComponentsCons(g, seeds, visited, c, rest);
      [c] + rest
  }

  /** The first seed's search tree in front of the later seeds' clusters. */
  lemma ComponentsCons(g: Graph, seeds: seq<Id>, visited: set<Id>, c: seq<Id>, rest: seq<seq<Id>>)
    requires seeds != []
    requires |c| > 0 && c[0] == seeds[0] && NoDup(c) && FreshNodes(g, c, visited)
    requires Discovered(g, c, [seeds[0]])
    requires NoDup(Flatten(rest)) && FreshNodes(g, Flatten(rest), visited + Elems(c))
    requires forall s :: s in seeds[1..] ==> s in visited + Elems(c) || s in Flatten(rest)
    requires forall k :: 0 <= k < |rest| ==> |rest[k]| > 0 && rest[k][0] in seeds[1..]
    requires forall k :: 0 <= k < |rest| ==> Discovered(g, rest[k], [rest[k][0]])
    ensures NoDup(Flatten([c] + rest))
    ensures FreshNodes(g, Flatten([c] + rest), visited)
    ensures forall s :: s in seeds ==> s in visited || s in Flatten([c] + rest)
    ensures forall k :: 0 <= k < |[c] + rest| ==> |([c] + rest)[k]| > 0 && ([c] + rest)[k][0] in seeds
    ensures forall k :: 0 <= k < |[c] + rest| ==> Discovered(g, ([c] + rest)[k], [([c] + rest)[k][0]])
  {
    var cs := [c] + rest;
    assert cs[1..] == rest;
    assert Flatten(cs) == c + Flatten(rest);
    ConcatNoDup(c, Flatten(rest));
    assert forall k :: 0 < k < |cs| ==> cs[k] == rest[k - 1];
  }

  /** Every cluster member is a node that was not visited beforehand. */
  lemma ClusterMembers(g: Graph, seeds: seq<Id>, visited: set<Id>, k: nat, x: Id)
    requires Valid(g)
    requires forall s :: s in seeds ==> s in g.adj
    requires k < |Components(g, seeds, visited)| && x in Components(g, seeds, visited)[k]
    ensures x in g.adj && x !in visited
  {
    FlattenMember(Components(g, seeds, visited), x);
  }

  /** Each member of a search tree is connected to its root. */
  lemma {:induction false} DiscoveredConnected(g: Graph, c: seq<Id>, k: nat)
    requires |c| > 0 && k < |c|
    requires forall x :: x in c ==> x in g.adj
    requires Discovered(g, c, [c[0]])
    ensures Connected(g, c[0], c[k])
    decreases k
  {
    if c[k] == c[0] {
      ConnectedRefl(g, c[0]);
    } else {
      var l :| 0 <= l < k && c[l] in g.adj && c[k] in g.adj[c[l]];
      DiscoveredConnected(g, c, l);
      ConnectedStep(g, c[0], c[l], c[k]);
    }
  }

  /** In a symmetric graph, each cluster the outer loop produces is closed
      under edges, provided the nodes visited beforehand were. */
  lemma {:induction false} ComponentsClosed(g: Graph, seeds: seq<Id>, visited: set<Id>)
    requires Valid(g) && Symmetric(g)
    requires forall s :: s in seeds ==> s in g.adj
    requires visited <= g.adj.Keys
    requires ClosedSet(g, visited)
    ensures ClustersClosed(g, Components(g, seeds, visited))
    decreases |seeds|
  {
    if seeds == [] {
    } else if seeds[0] in visited {
      ComponentsClosed(g, seeds[1..], visited);
      assert Components(g, seeds, visited) == Components(g, seeds[1..], visited);
    } else {
      var c := Visit(g, seeds[0], visited);
      VisitClosed(g, seeds[0], visited);
      var visited' := visited + Elems(c);
      ComponentsClosed(g, seeds[1..], visited');
      var rest := Components(g, seeds[1..], visited');
      var cs := Components(g, seeds, visited);
      assert cs == [c] + rest;
      forall k, x, y | 0 <= k < |cs| && x in cs[k] && x in g.adj && y in g.adj[x]
        ensures y in cs[k]
      {
        if k == 0 {
          assert cs[0] == c;
        } else {
          assert cs[k] == rest[k - 1];
        }
      }
    }
  }

  /** No edge leaves any of the clusters `cs`. */
  ghost predicate ClustersClosed(g: Graph, cs: seq<seq<Id>>) {
    forall k, x, y :: 0 <= k < |cs| && x in cs[k] && x in g.adj && y in g.adj[x] ==> y in cs[k]
  }

  /** A search that starts outside a closed visited set in a symmetric graph
      finds a closed set, and leaves the visited set closed. */
  lemma VisitClosed(g: Graph, u: Id, visited: set<Id>)
    requires Valid(g) && Symmetric(g)
    requires u in g.adj && u !in visited
    requires visited <= g.adj.Keys
    requires ClosedSet(g, visited)
    ensures var c := Visit(g, u, visited);
      && (forall x, y :: x in c && y in g.adj[x] ==> y in c)
      && visited + Elems(c) <= g.adj.Keys
      && ClosedSet(g, visited + Elems(c))
  {
    var c := Visit(g, u, visited);
    forall x, y | x in c && y in g.adj[x] ensures y in c {
      assert y in visited ==> x in visited;
    }
  }

  /** The clusters are the connected components: a member's cluster holds
      exactly the nodes connected to it. */
  lemma ComponentsExact(g: Graph, seeds: seq<Id>, visited: set<Id>, k: nat, x: Id, y: Id)
    requires Valid(g) && Symmetric(g)
    requires forall s :: s in seeds ==> s in g.adj
    requires visited <= g.adj.Keys
    requires ClosedSet(g, visited)
    requires k < |Components(g, seeds, visited)| && x in Components(g, seeds, visited)[k]
    ensures y in Components(g, seeds, visited)[k] <==> Connected(g, x, y)
  {
    var c := Components(g, seeds, visited)[k];
    ComponentsClosed(g, seeds, visited);
    ClusterMembers(g, seeds, visited, k, x);
    forall z | z in c ensures z in g.adj {
      ClusterMembers(g, seeds, visited, k, z);
    }
    if y in c {
      TreeMembersConnected(g, c, x, y);
    }
    if Connected(g, x, y) {
      var p :| IsPath(g, p) && p[0] == x && p[|p| - 1] == y;
      PathStaysInside(g, Elems(c), p);
    }
  }

  /** Two members of one search tree are connected through its root. */
  lemma TreeMembersConnected(g: Graph, c: seq<Id>, x: Id, y: Id)
    requires Symmetric(g)
    requires |c| > 0 && x in c && y in c
    requires forall z :: z in c ==> z in g.adj
    requires Discovered(g, c, [c[0]])
    ensures Connected(g, x, y)
  {
    var ix :| 0 <= ix < |c| && c[ix] == x;
    var iy :| 0 <= iy < |c| && c[iy] == y;
    DiscoveredConnected(g, c, ix);
    ConnectedSym(g, c[0], x);
    DiscoveredConnected(g, c, iy);
    ConnectedTrans(g, x, c[0], y);
  }

  /** Clusters come out in the order of their seeds' first positions, and a
      cluster's seed is, of its members, the one listed first among the seeds. */
  lemma {:induction false} ComponentsSeedOrder(g: Graph, seeds: seq<Id>, visited: set<Id>)
    requires Valid(g)
    requires forall s :: s in seeds ==> s in g.adj
    ensures SeedFirst(seeds, Components(g, seeds, visited))
    ensures SeedsAscending(seeds, Components(g, seeds, visited))
    decreases |seeds|
  {
    if seeds != [] {
      ComponentsSeedOrder(g, seeds[1..], AfterFirstSeed(g, seeds, visited));
      SeedOrderStep(g, seeds, visited);
    }
  }

  /** The visited set once the outer loop has handled the first seed. */
  function AfterFirstSeed(g: Graph, seeds: seq<Id>, visited: set<Id>): (v: set<Id>)
    requires Valid(g)
    requires seeds != [] && seeds[0] in g.adj
    ensures seeds[0] in v && visited <= v
  {
    if seeds[0] in visited then visited else visited + Elems(Visit(g, seeds[0], visited))
  }

  /** The outer loop's first step, given the order of the later clusters. */
  lemma SeedOrderStep(g: Graph, seeds: seq<Id>, visited: set<Id>)
    requires Valid(g)
    requires forall s :: s in seeds ==> s in g.adj
    requires seeds != []
    requires SeedFirst(seeds[1..], Components(g, seeds[1..], AfterFirstSeed(g, seeds, visited)))
    requires SeedsAscending(seeds[1..], Components(g, seeds[1..], AfterFirstSeed(g, seeds, visited)))
    ensures SeedFirst(seeds, Components(g, seeds, visited))
    ensures SeedsAscending(seeds, Components(g, seeds, visited))
  {
    var s := seeds[0];
    var head := if s in visited then [] else [Visit(g, s, visited)];
    var visited' := AfterFirstSeed(g, seeds, visited);
    var rest := Components(g, seeds[1..], visited');
    forall k, x | 0 <= k < |rest| && x in rest[k] ensures x != s {
      ClusterMembers(g, seeds[1..], visited', k, x);
    }
    assert Components(g, seeds, visited) == head + rest;
    SeedOrderCons(seeds, head, rest);
  }

  /** One step of the outer loop keeps clusters in seed order: the cluster of
      the first seed, if any, goes in front of the clusters of the others. */
  lemma SeedOrderCons(seeds: seq<Id>, head: seq<seq<Id>>, rest: seq<seq<Id>>)
    requires |seeds| > 0
    requires head == [] || (|head| == 1 && |head[0]| > 0 && head[0][0] == seeds[0])
    requires forall k, x :: 0 <= k < |rest| && x in rest[k] ==> x != seeds[0]
    requires SeedFirst(seeds[1..], rest) && SeedsAscending(seeds[1..], rest)
    ensures SeedFirst(seeds, head + rest) && SeedsAscending(seeds, head + rest)
  {
    SeedOrderRest(seeds, rest);
    if head == [] {
      assert head + rest == rest;
    } else {
      SeedOrderFront(seeds, head[0], rest);
      assert head + rest == [head[0]] + rest;
    }
  }

  /** Clusters of the later seeds stay in order when the first seed is put
      back in front of the seed list. */
  lemma SeedOrderRest(seeds: seq<Id>, rest: seq<seq<Id>>)
    requires |seeds| > 0
    requires forall k, x :: 0 <= k < |rest| && x in rest[k] ==> x != seeds[0]
    requires SeedFirst(seeds[1..], rest) && SeedsAscending(seeds[1..], rest)
    ensures SeedFirst(seeds, rest) && SeedsAscending(seeds, rest)
  {
    forall k, x | 0 <= k < |rest| && x in rest[k] && x in seeds
      ensures IndexOf(seeds, rest[k][0]) <= IndexOf(seeds, x)
    {
      assert rest[k][0] in rest[k];
      ShiftPair(seeds, rest[k][0], x);
    }
    forall k, l | 0 <= k < l < |rest|
      ensures IndexOf(seeds, rest[k][0]) < IndexOf(seeds, rest[l][0])
    {
      assert rest[k][0] in rest[k] && rest[l][0] in rest[l];
      ShiftPair(seeds, rest[k][0], rest[l][0]);
    }
  }

  /** The first seed's cluster goes in front. */
  lemma SeedOrderFront(seeds: seq<Id>, c: seq<Id>, rest: seq<seq<Id>>)
    requires |seeds| > 0 && |c| > 0 && c[0] == seeds[0]
    requires forall k, x :: 0 <= k < |rest| && x in rest[k] ==> x != seeds[0]
    requires SeedFirst(seeds, rest) && SeedsAscending(seeds, rest)
    ensures SeedFirst(seeds, [c] + rest) && SeedsAscending(seeds, [c] + rest)
  {
    FrontSeeded(seeds, c, rest);
    FrontFirst(seeds, c, rest);
    FrontAscending(seeds, c, rest);
  }

  lemma FrontSeeded(seeds: seq<Id>, c: seq<Id>, rest: seq<seq<Id>>)
    requires |seeds| > 0 && |c| > 0 && c[0] == seeds[0]
    requires Seeded(seeds, rest)
    ensures Seeded(seeds, [c] + rest)
  {
    var cs := [c] + rest;
    forall k | 1 <= k < |cs| ensures |cs[k]| > 0 && cs[k][0] in seeds {
      assert cs[k] == rest[k - 1];
    }
  }

  lemma FrontFirst(seeds: seq<Id>, c: seq<Id>, rest: seq<seq<Id>>)
    requires |seeds| > 0 && |c| > 0 && c[0] == seeds[0]
    requires SeedFirst(seeds, rest)
    ensures forall k, x :: 0 <= k < |[c] + rest| && x in ([c] + rest)[k] && x in seeds ==>
      IndexOf(seeds, ([c] + rest)[k][0]) <= IndexOf(seeds, x)
  {
    var cs := [c] + rest;
    forall k, x | 0 <= k < |cs| && x in cs[k] && x in seeds
      ensures IndexOf(seeds, cs[k][0]) <= IndexOf(seeds, x)
    {
      if k > 0 {
        assert cs[k] == rest[k - 1];
      }
    }
  }

  lemma FrontAscending(seeds: seq<Id>, c: seq<Id>, rest: seq<seq<Id>>)
    requires |seeds| > 0 && |c| > 0 && c[0] == seeds[0]
    requires forall k, x :: 0 <= k < |rest| && x in rest[k] ==> x != seeds[0]
    requires SeedsAscending(seeds, rest)
    ensures forall k, l :: 0 <= k < l < |[c] + rest| ==>
      IndexOf(seeds, ([c] + rest)[k][0]) < IndexOf(seeds, ([c] + rest)[l][0])
  {
    var cs := [c] + rest;
    forall k, l | 0 <= k < l < |cs|
      ensures IndexOf(seeds, cs[k][0]) < IndexOf(seeds, cs[l][0])
    {
      assert cs[l] == rest[l - 1] && rest[l - 1][0] in rest[l - 1];
      if k > 0 {
        assert cs[k] == rest[k - 1];
      }
    }
  }

  /** Two elements other than the first seed compare in `seeds` as in the
      rest. */
  lemma ShiftPair(seeds: seq<Id>, x: Id, y: Id)
    requires |seeds| > 0 && x in seeds && y in seeds && x != seeds[0] && y != seeds[0]
    ensures x in seeds[1..] && IndexOf(seeds, x) == 1 + IndexOf(seeds[1..], x)
    ensures y in seeds[1..] && IndexOf(seeds, y) == 1 + IndexOf(seeds[1..], y)
  {
    ShiftIndex(seeds, x);
    ShiftIndex(seeds, y);
  }

  /** Positions in `seeds` of an element other than the first seed are one
      more than its positions in the rest. */
  lemma ShiftIndex(seeds: seq<Id>, x: Id)
    requires |seeds| > 0 && x in seeds && x != seeds[0]
    ensures x in seeds[1..] && IndexOf(seeds, x) == 1 + IndexOf(seeds[1..], x)
  {
  }

  /** Each cluster is non-empty and led by a seed. */
  ghost predicate Seeded(seeds: seq<Id>, cs: seq<seq<Id>>) {
    forall k :: 0 <= k < |cs| ==> |cs[k]| > 0 && cs[k][0] in seeds
  }

  /** Each cluster's first member is listed among the seeds no later than any
      other member. */
  ghost predicate SeedFirst(seeds: seq<Id>, cs: seq<seq<Id>>) {
    Seeded(seeds, cs) &&
    forall k, x :: 0 <= k < |cs| && x in cs[k] && x in seeds ==>
      IndexOf(seeds, cs[k][0]) <= IndexOf(seeds, x)
  }

  /** The clusters' first members appear in the seeds in cluster order. */
  ghost predicate SeedsAscending(seeds: seq<Id>, cs: seq<seq<Id>>) {
    Seeded(seeds, cs) &&
    forall k, l :: 0 <= k < l < |cs| ==> IndexOf(seeds, cs[k][0]) < IndexOf(seeds, cs[l][0])
  }

  /** In a graph with no edges each search finds its seed alone, so every
      seed not visited and not repeated is a cluster of its own. */
  lemma {:induction false} ComponentsNoEdges(g: Graph, seeds: seq<Id>, visited: set<Id>)
    requires Valid(g)
    requires forall u :: u in g.adj ==> g.adj[u] == []
    requires forall s :: s in seeds ==> s in g.adj && s !in visited
    requires NoDup(seeds)
    ensures Components(g, seeds, visited) == seq(|seeds|, k requires 0 <= k < |seeds| => [seeds[k]])
    decreases |seeds|
  {
    if seeds != [] {
      var s := seeds[0];
      var rest := seeds[1..];
      LoneVisit(g, s, visited);
      assert forall t :: t in rest ==> t != s;
      ComponentsNoEdges(g, rest, visited + {s});
      assert Components(g, seeds, visited) == [[s]] + Components(g, rest, visited + {s});
      SingletonsCons(seeds);
    }
  }

  /** Without edges a search finds its start alone. */
  lemma LoneVisit(g: Graph, u: Id, visited: set<Id>)
    requires Valid(g)
    requires forall v :: v in g.adj ==> g.adj[v] == []
    requires u in g.adj && u !in visited
    ensures Visit(g, u, visited) == [u]
    ensures Elems(Visit(g, u, visited)) == {u}
  {
    assert VisitAll(g, g.adj[u], visited + {u}) == [];
  }

  /** The list of singletons of `s` is the singleton of its head followed by
      that of its tail. */
  lemma SingletonsCons(s: seq<Id>)
    requires s != []
    ensures seq(|s|, k requires 0 <= k < |s| => [s[k]])
         == [[s[0]]] + seq(|s| - 1, k requires 0 <= k < |s| - 1 => [s[1..][k]])
  {
  }

  /** A neighbour that is already visited is skipped, wherever it sits in
      the list: leaving it out changes nothing. */
  lemma {:induction false} VisitAllSkipsVisited(g: Graph, ns: seq<Id>, visited: set<Id>, w: Id)
    requires Valid(g)
    requires forall v :: v in ns ==> v in g.adj
    requires w in visited
    ensures VisitAll(g, Remove(ns, w), visited) == VisitAll(g, ns, visited)
    decreases |ns|
  {
    if ns != [] {
      var r := Remove(ns, w);
      var tail := Remove(ns[1..], w);
      if ns[0] == w {
        assert r == tail;
        VisitAllSkipsVisited(g, ns[1..], visited, w);
      } else {
        assert r == [ns[0]] + tail;
        assert r[0] == ns[0] && r[1..] == tail;
        if ns[0] in visited {
          VisitAllSkipsVisited(g, ns[1..], visited, w);
        } else {
          var d := Visit(g, ns[0], visited);
          VisitAllSkipsVisited(g, ns[1..], visited + Elems(d), w);
        }
      }
    }
  }

  /** Graphs that differ only in self-loops are searched identically: a
      self-loop leads back to a node that is already visited. */
  lemma {:induction false} VisitSameUpToLoops(g: Graph, h: Graph, u: Id, visited: set<Id>)
    requires Valid(g) && Valid(h) && SameUpToLoops(g, h)
    requires u in g.adj && u !in visited
    ensures Visit(g, u, visited) == Visit(h, u, visited)
    decreases Unvisited(g, visited), 0
  {
    UnvisitedShrinks(g, visited, {u}, u);
    VisitAllSkipsVisited(g, g.adj[u], visited + {u}, u);
    VisitAllSkipsVisited(h, h.adj[u], visited + {u}, u);
    VisitAllSameUpToLoops(g, h, Remove(g.adj[u], u), visited + {u});
  }

  lemma {:induction false} VisitAllSameUpToLoops(g: Graph, h: Graph, ns: seq<Id>, visited: set<Id>)
    requires Valid(g) && Valid(h) && SameUpToLoops(g, h)
    requires forall v :: v in ns ==> v in g.adj
    ensures VisitAll(g, ns, visited) == VisitAll(h, ns, visited)
    decreases Unvisited(g, visited), 1, |ns|
  {
    if ns != [] {
      if ns[0] in visited {
        VisitAllSameUpToLoops(g, h, ns[1..], visited);
      } else {
        VisitSameUpToLoops(g, h, ns[0], visited);
        var d := Visit(g, ns[0], visited);
        UnvisitedMonotone(g, visited, Elems(d));
        VisitAllSameUpToLoops(g, h, ns[1..], visited + Elems(d));
      }
    }
  }

  /** The outer loop over graphs that differ only in self-loops gives the
      same clusters. */
  lemma {:induction false} ComponentsSameUpToLoops(g: Graph, h: Graph, seeds: seq<Id>, visited: set<Id>)
    requires Valid(g) && Valid(h) && SameUpToLoops(g, h)
    requires forall s :: s in seeds ==> s in g.adj
    ensures Components(g, seeds, visited) == Components(h, seeds, visited)
    decreases |seeds|
  {
    if seeds != [] {
      if seeds[0] !in visited {
        VisitSameUpToLoops(g, h, seeds[0], visited);
        ComponentsSameUpToLoops(g, h, seeds[1..], visited + Elems(Visit(g, seeds[0], visited)));
      } else {
        ComponentsSameUpToLoops(g, h, seeds[1..], visited);
      }
    }
  }
}
