/**
 Weighted directed graphs as the shortest-path solver sees them: a finite
 vertex set and, for each vertex, the ordered list of its outgoing edges.
 Reachability is stated through explicit vertex paths.
 */
module Graphs {

  /** A directed edge with an integer weight. */
  datatype Edge<V> = Edge(from: V, to: V, weight: int)

  /** `neighbors(v)` lists the edges leaving `v`; only its values on `vertices` matter. */
  datatype Graph<!V> = Graph(vertices: set<V>, neighbors: V -> seq<Edge<V>>)

  /** Every listed edge leaves the vertex it is listed under and lands inside the graph. */
  ghost predicate WellFormed<V(!new)>(g: Graph<V>) {
    forall v, k :: v in g.vertices && 0 <= k < |g.neighbors(v)| ==>
      g.neighbors(v)[k].from == v && g.neighbors(v)[k].to in g.vertices
  }

  ghost predicate IsEdge<V(!new)>(g: Graph<V>, u: V, v: V) {
    exists k :: 0 <= k < |g.neighbors(u)| && g.neighbors(u)[k].to == v
  }

  /** A non-empty vertex sequence following edges. */
  ghost predicate IsPath<V(!new)>(g: Graph<V>, p: seq<V>) {
    |p| > 0 && forall i :: 0 <= i < |p| - 1 ==> IsEdge(g, p[i], p[i + 1])
  }

  ghost predicate Avoids<V(!new)>(p: seq<V>, w: set<V>) {
    forall i :: 0 <= i < |p| ==> p[i] !in w
  }

  /** `t` can be reached from `s` along a path none of whose vertices is in `w`
      (in particular neither `s` nor `t` is in `w`). */
  ghost predicate ReachesAvoiding<V(!new)>(g: Graph<V>, s: V, t: V, w: set<V>) {
    exists p :: IsPath(g, p) && p[0] == s && p[|p| - 1] == t && Avoids(p, w)
  }

  ghost predicate Reaches<V(!new)>(g: Graph<V>, s: V, t: V) {
    ReachesAvoiding(g, s, t, {})
  }

  /** No path of at least one edge returns to where it started. */
  ghost predicate Acyclic<V(!new)>(g: Graph<V>) {
    forall p :: IsPath(g, p) && |p| >= 2 ==> p[0] != p[|p| - 1]
  }

  /** A walk as a list of edges of the graph, each starting where the previous one ended. */
  ghost predicate IsWalk<V(!new)>(g: Graph<V>, es: seq<Edge<V>>, s: V, t: V) {
    && (|es| == 0 ==> s == t)
    && (|es| > 0 ==> es[0].from == s && es[|es| - 1].to == t)
    && (forall k :: 0 <= k < |es| ==> es[k] in g.neighbors(es[k].from))
    && (forall k :: 0 <= k < |es| - 1 ==> es[k].to == es[k + 1].from)
  }

  function Weight<V(!new)>(es: seq<Edge<V>>): int {
    if |es| == 0 then 0 else Weight(es[..|es| - 1]) + es[|es| - 1].weight
  }

  /** A path followed by one more edge is a path. */
  lemma {:induction false} PathSnoc<V(!new)>(g: Graph<V>, p: seq<V>, v: V)
    requires IsPath(g, p) && IsEdge(g, p[|p| - 1], v)
    ensures IsPath(g, p + [v])
  {
    var q := p + [v];
    forall i | 0 <= i < |q| - 1
      ensures IsEdge(g, q[i], q[i + 1])
    {
      if i < |p| - 1 {
        assert q[i] == p[i] && q[i + 1] == p[i + 1];
      }
    }
  }

  /** Reachability extends by one edge. */
  lemma ReachesStep<V(!new)>(g: Graph<V>, x: V, s: V, y: V)
    requires Reaches(g, x, s) && IsEdge(g, s, y)
    ensures Reaches(g, x, y)
  {
    var p :| IsPath(g, p) && p[0] == x && p[|p| - 1] == s && Avoids(p, {});
    PathSnoc(g, p, y);
    assert Avoids(p + [y], {});
  }

  /** An edge followed by a path that avoids `w` gives a path from the edge's
      source avoiding every subset of `w` that leaves out the source. */
  lemma {:induction false} ReachesPrepend<V(!new)>(g: Graph<V>, s: V, y: V, t: V, w: set<V>, w': set<V>)
    requires IsEdge(g, s, y) && s !in w' && w' <= w
    requires ReachesAvoiding(g, y, t, w)
    ensures ReachesAvoiding(g, s, t, w')
  {
    var p :| IsPath(g, p) && p[0] == y && p[|p| - 1] == t && Avoids(p, w);
    var q := [s] + p;
    forall i | 0 <= i < |q| - 1
      ensures IsEdge(g, q[i], q[i + 1])
    {
      if i > 0 {
        assert q[i] == p[i - 1] && q[i + 1] == p[i];
      }
    }
    forall i | 0 <= i < |q|
      ensures q[i] !in w'
    {
      if i > 0 {
        assert q[i] == p[i - 1];
      }
    }
    assert IsPath(g, q) && q[0] == s && q[|q| - 1] == t && Avoids(q, w');
  }

  /** An edge back to a vertex that reaches the edge's source closes a cycle. */
  lemma BackEdgeCycle<V(!new)>(g: Graph<V>, y: V, s: V)
    requires Reaches(g, y, s) && IsEdge(g, s, y)
    ensures exists q :: IsPath(g, q) && |q| >= 2 && q[0] == q[|q| - 1]
  {
    var p :| IsPath(g, p) && p[0] == y && p[|p| - 1] == s && Avoids(p, {});
    PathSnoc(g, p, y);
    var q := p + [y];
    assert IsPath(g, q) && |q| >= 2 && q[0] == q[|q| - 1];
  }

  /** In an acyclic graph the target of an edge never reaches the edge's source. */
  lemma NoBackEdge<V(!new)>(g: Graph<V>, s: V, y: V)
    requires Acyclic(g) && IsEdge(g, s, y)
    ensures !Reaches(g, y, s)
  {
    if Reaches(g, y, s) {
      BackEdgeCycle(g, y, s);
      assert false;
    }
  }

  /** The one-vertex path: every vertex outside `w` reaches itself avoiding `w`. */
  lemma ReachesAvoidingRefl<V(!new)>(g: Graph<V>, s: V, w: set<V>)
    requires s !in w
    ensures ReachesAvoiding(g, s, s, w)
  {
    assert IsPath(g, [s]) && Avoids([s], w);
  }

  /** Both ends of a path avoiding `w` lie outside `w`. */
  lemma ReachesAvoidingEnds<V(!new)>(g: Graph<V>, s: V, t: V, w: set<V>)
    requires ReachesAvoiding(g, s, t, w)
    ensures s !in w && t !in w
  {
    var p :| IsPath(g, p) && p[0] == s && p[|p| - 1] == t && Avoids(p, w);
    assert p[0] !in w && p[|p| - 1] !in w;
  }

  /** Every edge leaving a vertex of `r` lands in `r`. */
  ghost predicate ClosedUnderEdges<V(!new)>(g: Graph<V>, r: set<V>) {
    forall u, k :: u in r && 0 <= k < |g.neighbors(u)| ==> g.neighbors(u)[k].to in r
  }

  /** A set of vertices closed under edges holds everything reachable from its members. */
  lemma {:induction false} ClosedHoldsReachable<V(!new)>(g: Graph<V>, r: set<V>, p: seq<V>)
    requires IsPath(g, p) && p[0] in r
    requires ClosedUnderEdges(g, r)
    ensures p[|p| - 1] in r
    decreases |p|
  {
    if |p| > 1 {
      var p' := p[..|p| - 1];
      assert IsPath(g, p') by {
        forall i | 0 <= i < |p'| - 1
          ensures IsEdge(g, p'[i], p'[i + 1])
        {
          assert p'[i] == p[i] && p'[i + 1] == p[i + 1];
        }
      }
      ClosedHoldsReachable(g, r, p');
      assert IsEdge(g, p[|p| - 2], p[|p| - 1]);
      var k :| 0 <= k < |g.neighbors(p[|p| - 2])| && g.neighbors(p[|p| - 2])[k].to == p[|p| - 1];
    }
  }

  /** Every vertex reachable from inside a well-formed graph is inside it. */
  lemma ReachableInGraph<V(!new)>(g: Graph<V>, s: V, t: V)
    requires WellFormed(g) && s in g.vertices && Reaches(g, s, t)
    ensures t in g.vertices
  {
    var p :| IsPath(g, p) && p[0] == s && p[|p| - 1] == t && Avoids(p, {});
    ClosedHoldsReachable(g, g.vertices, p);
  }

  /** The last step of a path of two or more vertices comes from a vertex reachable from its start. */
  lemma LastStep<V(!new)>(g: Graph<V>, s: V, t: V)
    requires Reaches(g, s, t) && s != t
    ensures exists u :: Reaches(g, s, u) && IsEdge(g, u, t)
  {
    var p :| IsPath(g, p) && p[0] == s && p[|p| - 1] == t && Avoids(p, {});
    var p' := p[..|p| - 1];
    assert IsPath(g, p') by {
      forall i | 0 <= i < |p'| - 1
        ensures IsEdge(g, p'[i], p'[i + 1])
      {
        assert p'[i] == p[i] && p'[i + 1] == p[i + 1];
      }
    }
    assert Avoids(p', {});
    assert Reaches(g, s, p'[|p'| - 1]);
    assert IsEdge(g, p[|p| - 2], t);
  }
}
