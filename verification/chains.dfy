/** Chains of id pairs: the reference notion of "linked by conflicts" that
    both clustering variants are proved against, independent of any graph. */
module Chains {
  import opened Graphs
  import opened Paths

  /** Some pair joins `x` and `y`, in either order. */
  predicate Edge(pairs: seq<(Id, Id)>, x: Id, y: Id) {
    (x, y) in pairs || (y, x) in pairs
  }

  /** A pair list read from the front. */
  lemma EdgeCons(pairs: seq<(Id, Id)>, x: Id, y: Id)
    requires pairs != []
    ensures Edge(pairs, x, y) <==> pairs[0] == (x, y) || pairs[0] == (y, x) || Edge(pairs[1..], x, y)
  {
    assert forall p :: p in pairs <==> p == pairs[0] || p in pairs[1..];
  }

  /** A chain of ids, each joined to the next by a pair. */
  ghost predicate ConflictChain(pairs: seq<(Id, Id)>, p: seq<Id>) {
    |p| > 0 && forall i :: 0 < i < |p| ==> Edge(pairs, p[i - 1], p[i])
  }

  /** `x` and `y` are joined, directly or transitively, by pairs. */
  ghost predicate Linked(pairs: seq<(Id, Id)>, x: Id, y: Id) {
    exists p :: ConflictChain(pairs, p) && p[0] == x && p[|p| - 1] == y
  }

  /** One more pair extends a chain. */
  lemma LinkedStep(pairs: seq<(Id, Id)>, x: Id, z: Id, y: Id)
    requires Linked(pairs, x, z) && Edge(pairs, z, y)
    ensures Linked(pairs, x, y)
  {
    var p :| ConflictChain(pairs, p) && p[0] == x && p[|p| - 1] == z;
    var q := p + [y];
    assert ConflictChain(pairs, q);
    assert q[0] == x && q[|q| - 1] == y;
  }

  /** A single pair links its two ids. */
  lemma LinkedByPair(pairs: seq<(Id, Id)>, x: Id, y: Id)
    requires Edge(pairs, x, y)
    ensures Linked(pairs, x, y)
  {
    assert ConflictChain(pairs, [x]) && [x][0] == x;
    LinkedStep(pairs, x, x, y);
  }

  /** In a graph whose stored edges are exactly the pairs, walks are exactly
      chains of pairs. */
  lemma ConnectedIffLinked(g: Graph, pairs: seq<(Id, Id)>, x: Id, y: Id)
    requires Valid(g)
    requires forall a, b :: a in g.adj && b in g.adj[a] <==> Edge(pairs, a, b)
    requires x in g.adj
    ensures Connected(g, x, y) <==> Linked(pairs, x, y)
  {
    if Connected(g, x, y) {
      var p :| IsPath(g, p) && p[0] == x && p[|p| - 1] == y;
      assert ConflictChain(pairs, p);
    }
    if Linked(pairs, x, y) {
      var p :| ConflictChain(pairs, p) && p[0] == x && p[|p| - 1] == y;
      forall i | 0 <= i < |p| ensures p[i] in g.adj {
        if i > 0 {
          assert Edge(pairs, p[i - 1], p[i]);
        }
      }
      forall i | 0 < i < |p| ensures p[i] in g.adj[p[i - 1]] {
        assert Edge(pairs, p[i - 1], p[i]);
      }
      assert IsPath(g, p);
    }
  }
}
