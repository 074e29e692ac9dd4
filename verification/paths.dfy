/** Paths and connectivity in a conflict graph: the reference notion that the
    search results are proved against. */
module Paths {
  import opened Graphs

  /** `p` is a non-empty walk along stored edges. */
  ghost predicate IsPath(g: Graph, p: seq<Id>) {
    && |p| > 0
    && (forall i :: 0 <= i < |p| ==> p[i] in g.adj)
    && (forall i :: 0 < i < |p| ==> p[i] in g.adj[p[i - 1]])
  }

  /** Some walk leads from `u` to `v`. */
  ghost predicate Connected(g: Graph, u: Id, v: Id) {
    exists p :: IsPath(g, p) && p[0] == u && p[|p| - 1] == v
  }

  lemma ConnectedRefl(g: Graph, u: Id)
    requires u in g.adj
    ensures Connected(g, u, u)
  {
    assert IsPath(g, [u]);
  }

  lemma ConnectedStep(g: Graph, u: Id, v: Id, w: Id)
    requires Connected(g, u, v)
    requires v in g.adj && w in g.adj[v] && w in g.adj
    ensures Connected(g, u, w)
  {
    var p :| IsPath(g, p) && p[0] == u && p[|p| - 1] == v;
    var q := p + [w];
    assert IsPath(g, q);
    assert q[0] == u && q[|q| - 1] == w;
  }

  lemma {:induction false} ConnectedTrans(g: Graph, u: Id, v: Id, w: Id)
    requires Connected(g, u, v) && Connected(g, v, w)
    ensures Connected(g, u, w)
  {
    var p :| IsPath(g, p) && p[0] == u && p[|p| - 1] == v;
    var q :| IsPath(g, q) && q[0] == v && q[|q| - 1] == w;
    var r := p + q[1..];
    forall i | 0 < i < |r| ensures r[i] in g.adj[r[i - 1]] {
      if i >= |p| {
        assert r[i] == q[i - |p| + 1];
        assert r[i - 1] == q[i - |p|];
      }
    }
    assert IsPath(g, r);
    assert r[|r| - 1] == w;
  }

  /** In a symmetric graph a walk can be taken backwards. */
  lemma ConnectedSym(g: Graph, u: Id, v: Id)
    requires Symmetric(g)
    requires Connected(g, u, v)
    ensures Connected(g, v, u)
  {
    var p :| IsPath(g, p) && p[0] == u && p[|p| - 1] == v;
    var r := seq(|p|, i requires 0 <= i < |p| => p[|p| - 1 - i]);
    forall i | 0 < i < |r| ensures r[i] in g.adj[r[i - 1]] {
      assert p[|p| - i] in g.adj[p[|p| - i - 1]];
    }
    assert IsPath(g, r);
  }

  /** No walk leaves a set that is closed under the stored edges. */
  lemma {:induction false} PathStaysInside(g: Graph, s: set<Id>, p: seq<Id>)
    requires forall x, y :: x in s && x in g.adj && y in g.adj[x] ==> y in s
    requires IsPath(g, p) && p[0] in s
    ensures forall i :: 0 <= i < |p| ==> p[i] in s
    decreases |p|
  {
    if |p| > 1 {
      var q := p[..|p| - 1];
      assert IsPath(g, q);
      PathStaysInside(g, s, q);
      assert p[|p| - 2] == q[|q| - 1];
    }
  }
}
