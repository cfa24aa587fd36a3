/**
 Single-source shortest paths on a directed acyclic graph: relax the edges
 of every vertex reachable from the start, one vertex at a time in
 topological order, then read paths back through the recorded predecessor
 edges.
 */
module ToposortDag {
  import opened Graphs
  import opened PostOrder

  /** Distance and predecessor tables. A vertex missing from `distTo` is at
      distance +infinity; a vertex missing from `edgeTo` has no predecessor. */
  datatype Tables<V> = Tables(distTo: map<V, int>, edgeTo: map<V, Edge<V>>)

  /** The solver after construction. `order` is the topological order the
      relaxation pass followed. */
  datatype Solver<V> = Solver(start: V, order: seq<V>, distTo: map<V, int>, edgeTo: map<V, Edge<V>>)

  /** One relaxation: if going through `e` is strictly shorter than what is
      known for `e.to` (+infinity when unknown), record the new distance and
      `e` as the predecessor edge of `e.to`. */
  function RelaxEdge<V(==,!new)>(distTo: map<V, int>, edgeTo: map<V, Edge<V>>, e: Edge<V>): (t: Tables<V>)
    requires e.from in distTo
    ensures e.to in t.distTo && t.distTo[e.to] <= distTo[e.from] + e.weight
    ensures e.to in distTo ==> t.distTo[e.to] <= distTo[e.to]
    ensures t.distTo != distTo ==> e.to in t.edgeTo && t.edgeTo[e.to] == e && t.distTo[e.to] == distTo[e.from] + e.weight
    ensures t.distTo == distTo ==> t.edgeTo == edgeTo
    ensures forall x :: x != e.to ==> (x in t.distTo <==> x in distTo) && (x in t.edgeTo <==> x in edgeTo)
    ensures forall x :: x != e.to && x in distTo ==> t.distTo[x] == distTo[x]
    ensures forall x :: x != e.to && x in edgeTo ==> t.edgeTo[x] == edgeTo[x]
  {
    var newDistance := distTo[e.from] + e.weight;
    if e.to !in distTo || newDistance < distTo[e.to] then
      Tables(distTo[e.to := newDistance], edgeTo[e.to := e])
    else
      Tables(distTo, edgeTo)
  }

  /** The shape of the order the relaxation pass follows: it begins at the
      start, lists vertices of the graph once each, and every edge out of a
      listed vertex leads to a later listed vertex. */
  ghost predicate OrderFacts<V(!new)>(g: Graph<V>, start: V, o: seq<V>) {
    && WellFormed(g)
    && |o| > 0 && o[0] == start
    && Distinct(o) && Closed(g, o) && Topological(g, o)
    && (forall x :: x in o ==> x in g.vertices)
  }

  /** Some edge of a vertex before position `i` of `o` leads to `o[i]`. */
  ghost predicate EnteredFromEarlier<V(!new)>(g: Graph<V>, o: seq<V>, i: int)
    requires 0 <= i < |o|
  {
    exists j, m :: 0 <= j < i && 0 <= m < |g.neighbors(o[j])| && g.neighbors(o[j])[m].to == o[i]
  }

  /** Every vertex of `o` after the first has an edge into it from an earlier one. */
  ghost predicate Rooted<V(!new)>(g: Graph<V>, o: seq<V>) {
    forall i :: 0 < i < |o| ==> EnteredFromEarlier(g, o, i)
  }

  /** The edges of `o[j]` for `j < i`, and the first `k` edges of `o[i]`,
      have been relaxed and still satisfy the triangle inequality. */
  ghost predicate RelaxedUpTo<V(!new)>(g: Graph<V>, o: seq<V>, distTo: map<V, int>, i: int, k: int) {
    forall j, m :: 0 <= j < |o| && 0 <= m < |g.neighbors(o[j])| && (j < i || (j == i && m < k)) ==>
      EdgeRelaxed(g, o, distTo, j, m)
  }

  /** Edge number `m` of `o[j]` joins two vertices with distances and
      satisfies the triangle inequality. */
  ghost predicate EdgeRelaxed<V(!new)>(g: Graph<V>, o: seq<V>, distTo: map<V, int>, j: int, m: int)
    requires 0 <= j < |o| && 0 <= m < |g.neighbors(o[j])|
  {
    && o[j] in distTo
    && g.neighbors(o[j])[m].to in distTo
    && distTo[g.neighbors(o[j])[m].to] <= distTo[o[j]] + g.neighbors(o[j])[m].weight
  }

  /** The start keeps distance 0 and no predecessor; every other reached vertex
      has a predecessor edge; all reached vertices are in `o`. */
  ghost predicate Keys<V>(start: V, o: seq<V>, distTo: map<V, int>, edgeTo: map<V, Edge<V>>) {
    && start in distTo && distTo[start] == 0 && start !in edgeTo
    && (forall x :: x in distTo ==> x in o)
    && (forall x :: x in distTo ==> x == start || x in edgeTo)
    && (forall x :: x in edgeTo ==> x in distTo)
  }

  /** Every recorded predecessor edge is a graph edge into its key, whose
      source has already been processed (position at most `i`), and the
      key's distance is the source's distance plus the edge weight. */
  ghost predicate TreeEdges<V(!new)>(g: Graph<V>, o: seq<V>, distTo: map<V, int>, edgeTo: map<V, Edge<V>>, i: int) {
    forall v :: v in edgeTo ==>
      && edgeTo[v].to == v
      && edgeTo[v] in g.neighbors(edgeTo[v].from)
      && edgeTo[v].from in distTo
      && v in distTo
      && distTo[v] == distTo[edgeTo[v].from] + edgeTo[v].weight
      && (forall a :: 0 <= a < |o| && o[a] == edgeTo[v].from ==> a <= i)
  }

  /** An order holding exactly the vertices reachable from its first vertex,
      with every edge pointing forward, is `Rooted`. */
  lemma ReachableOrderIsRooted<V(!new)>(g: Graph<V>, start: V, o: seq<V>)
    requires OrderFacts(g, start, o)
    requires forall x :: x in o <==> Reaches(g, start, x)
    ensures Rooted(g, o)
  {
    forall i | 0 < i < |o|
      ensures EnteredFromEarlier(g, o, i)
    {
      assert o[i] != start;
      LastStep(g, start, o[i]);
      var u :| Reaches(g, start, u) && IsEdge(g, u, o[i]);
      var j :| 0 <= j < |o| && o[j] == u;
      assert IsEdge(g, o[j], o[i]);
      var m :| 0 <= m < |g.neighbors(u)| && g.neighbors(u)[m].to == o[i];
      assert 0 <= j < i && 0 <= m < |g.neighbors(o[j])| && g.neighbors(o[j])[m].to == o[i];
    }
  }

  /** Once the edges of every vertex before position `n` are relaxed, every
      vertex at a position `0 < i <= n` of `o` has a distance. */
  lemma NextIsReached<V(!new)>(g: Graph<V>, o: seq<V>, distTo: map<V, int>, i: int, n: int)
    requires Rooted(g, o) && 0 < i < |o| && i <= n <= |o|
    requires RelaxedUpTo(g, o, distTo, n, 0)
    ensures o[i] in distTo
  {
    assert EnteredFromEarlier(g, o, i);
    var j, m :| 0 <= j < i && 0 <= m < |g.neighbors(o[j])| && g.neighbors(o[j])[m].to == o[i];
    assert EdgeRelaxed(g, o, distTo, j, m);
  }

  /** Facts about edge number `k` of `o[i]` shared by the three step lemmas:
      its target sits strictly after position `i`, so it is neither a
      processed vertex nor the start. */
  lemma TargetAfter<V(!new)>(g: Graph<V>, start: V, o: seq<V>, i: int, k: int) returns (b: int)
    requires OrderFacts(g, start, o)
    requires 0 <= i < |o| && 0 <= k < |g.neighbors(o[i])|
    ensures g.neighbors(o[i])[k].from == o[i]
    ensures i < b < |o| && o[b] == g.neighbors(o[i])[k].to
    ensures forall j :: 0 <= j <= i ==> o[j] != g.neighbors(o[i])[k].to
  {
    var v := g.neighbors(o[i])[k].to;
    assert IsEdge(g, o[i], v);
    b :| 0 <= b < |o| && o[b] == v;
    forall j | 0 <= j <= i
      ensures o[j] != v
    {
      assert o[j] == o[b] ==> j == b;
    }
  }

  /** Relaxing edge number `k` of `o[i]` extends the triangle inequality to that edge. */
  lemma RelaxStepRelaxed<V(!new)>(g: Graph<V>, start: V, o: seq<V>, distTo: map<V, int>, edgeTo: map<V, Edge<V>>, i: int, k: int)
    requires OrderFacts(g, start, o)
    requires 0 <= i < |o| && 0 <= k < |g.neighbors(o[i])| && o[i] in distTo
    requires RelaxedUpTo(g, o, distTo, i, k)
    ensures g.neighbors(o[i])[k].from in distTo
    ensures RelaxedUpTo(g, o, RelaxEdge(distTo, edgeTo, g.neighbors(o[i])[k]).distTo, i, k + 1)
  {
    var b := TargetAfter(g, start, o, i, k);
    var e := g.neighbors(o[i])[k];
    var d := RelaxEdge(distTo, edgeTo, e).distTo;
    forall j, m | 0 <= j < |o| && 0 <= m < |g.neighbors(o[j])| && (j < i || (j == i && m < k + 1))
      ensures EdgeRelaxed(g, o, d, j, m)
    {
      assert o[j] != e.to;
      if j < i || m < k {
        assert EdgeRelaxed(g, o, distTo, j, m);
      }
    }
  }

  /** Relaxing edge number `k` of `o[i]` keeps the key invariants. */
  lemma RelaxStepKeys<V(!new)>(g: Graph<V>, start: V, o: seq<V>, distTo: map<V, int>, edgeTo: map<V, Edge<V>>, i: int, k: int)
    requires OrderFacts(g, start, o)
    requires 0 <= i < |o| && 0 <= k < |g.neighbors(o[i])| && o[i] in distTo
    requires Keys(start, o, distTo, edgeTo)
    ensures g.neighbors(o[i])[k].from in distTo
    ensures var t := RelaxEdge(distTo, edgeTo, g.neighbors(o[i])[k]); Keys(start, o, t.distTo, t.edgeTo)
  {
    var b := TargetAfter(g, start, o, i, k);
  }

  /** Relaxing edge number `k` of `o[i]` keeps every recorded predecessor edge consistent. */
  lemma RelaxStepTree<V(!new)>(g: Graph<V>, start: V, o: seq<V>, distTo: map<V, int>, edgeTo: map<V, Edge<V>>, i: int, k: int)
    requires OrderFacts(g, start, o)
    requires 0 <= i < |o| && 0 <= k < |g.neighbors(o[i])| && o[i] in distTo
    requires Keys(start, o, distTo, edgeTo) && TreeEdges(g, o, distTo, edgeTo, i)
    ensures g.neighbors(o[i])[k].from in distTo
    ensures var t := RelaxEdge(distTo, edgeTo, g.neighbors(o[i])[k]); TreeEdges(g, o, t.distTo, t.edgeTo, i)
  {
    var b := TargetAfter(g, start, o, i, k);
    var e := g.neighbors(o[i])[k];
    var t := RelaxEdge(distTo, edgeTo, e);
    forall x | x in t.edgeTo && x != e.to
      ensures t.edgeTo[x].from != e.to
    {
      var a :| 0 <= a < |o| && o[a] == edgeTo[x].from;
    }
  }

  /** Relaxes the outgoing edges of `o[i]`, in list order. */
  method RelaxVertex<V(==,!new)>(g: Graph<V>, start: V, o: seq<V>, t0: Tables<V>, i: int) returns (t: Tables<V>)
    requires OrderFacts(g, start, o) && 0 <= i < |o|
    requires o[i] in t0.distTo
    requires RelaxedUpTo(g, o, t0.distTo, i, 0) && Keys(start, o, t0.distTo, t0.edgeTo) && TreeEdges(g, o, t0.distTo, t0.edgeTo, i)
    ensures RelaxedUpTo(g, o, t.distTo, i + 1, 0) && Keys(start, o, t.distTo, t.edgeTo) && TreeEdges(g, o, t.distTo, t.edgeTo, i + 1)
  {
    t := t0;
    var u := o[i];
    var es := g.neighbors(u);
    var k := 0;
    while k < |es|
      invariant 0 <= k <= |es|
      invariant u in t.distTo
      invariant RelaxedUpTo(g, o, t.distTo, i, k)
      invariant Keys(start, o, t.distTo, t.edgeTo)
      invariant TreeEdges(g, o, t.distTo, t.edgeTo, i)
    {
      RelaxStepRelaxed(g, start, o, t.distTo, t.edgeTo, i, k);
      RelaxStepKeys(g, start, o, t.distTo, t.edgeTo, i, k);
      RelaxStepTree(g, start, o, t.distTo, t.edgeTo, i, k);
      t := RelaxEdge(t.distTo, t.edgeTo, es[k]);
      k := k + 1;
    }
  }

  /** The relaxation pass over `o`: vertex by vertex, starting from distance 0
      at the start and nothing else known. */
  method RelaxAll<V(==,!new)>(g: Graph<V>, start: V, o: seq<V>) returns (t: Tables<V>)
    requires OrderFacts(g, start, o) && Rooted(g, o)
    ensures Keys(start, o, t.distTo, t.edgeTo)
    ensures forall x :: x in t.distTo <==> x in o
    ensures RelaxedUpTo(g, o, t.distTo, |o|, 0)
    ensures TreeEdges(g, o, t.distTo, t.edgeTo, |o|)
  {
    t := Tables(map[start := 0], map[]);
    var i := 0;
    while i < |o|
      invariant 0 <= i <= |o|
      invariant RelaxedUpTo(g, o, t.distTo, i, 0)
      invariant Keys(start, o, t.distTo, t.edgeTo)
      invariant TreeEdges(g, o, t.distTo, t.edgeTo, i)
    {
      if i > 0 {
        NextIsReached(g, o, t.distTo, i, i);
      }
      t := RelaxVertex(g, start, o, t, i);
      i := i + 1;
    }
    forall j | 0 < j < |o|
      ensures o[j] in t.distTo
    {
      NextIsReached(g, o, t.distTo, j, |o|);
    }
  }

  /** What path reconstruction needs of a solver: the key and predecessor-edge
      invariants, and an order in which every edge points forward. */
  ghost predicate Valid<V(!new)>(g: Graph<V>, s: Solver<V>) {
    && Keys(s.start, s.order, s.distTo, s.edgeTo)
    && TreeEdges(g, s.order, s.distTo, s.edgeTo, |s.order|)
    && Topological(g, s.order)
  }

  /** Every path from the start has weight at least the computed distance of
      its end, once all edges out of reached vertices satisfy the triangle
      inequality and the start is at distance 0. */
  lemma {:induction false} DistanceLowerBound<V(!new)>(g: Graph<V>, start: V, distTo: map<V, int>, es: seq<Edge<V>>, v: V)
    requires start in distTo && distTo[start] == 0
    requires forall u, k :: u in distTo && 0 <= k < |g.neighbors(u)| ==>
      g.neighbors(u)[k].to in distTo && distTo[g.neighbors(u)[k].to] <= distTo[u] + g.neighbors(u)[k].weight
    requires IsWalk(g, es, start, v)
    ensures v in distTo && distTo[v] <= Weight(es)
    decreases |es|
  {
    if |es| > 0 {
      var n := |es| - 1;
      var e := es[n];
      var prefix := es[..n];
      assert IsWalk(g, prefix, start, e.from) by {
        if n > 0 {
          assert prefix[n - 1] == es[n - 1];
        }
      }
      DistanceLowerBound(g, start, distTo, prefix, e.from);
      var k :| 0 <= k < |g.neighbors(e.from)| && g.neighbors(e.from)[k] == e;
    }
  }

  /** The constructor: distance 0 and no predecessor for the start, depth-first
      postorder from the start, reversed, then one relaxation pass. */
  method Solve<V(==,!new)>(g: Graph<V>, start: V) returns (s: Solver<V>)
    requires WellFormed(g) && Acyclic(g) && start in g.vertices
    ensures s.start == start && Valid(g, s)
    ensures start in s.distTo && s.distTo[start] == 0 && start !in s.edgeTo
    ensures forall x :: x in s.distTo <==> Reaches(g, start, x)
    ensures forall x :: x in s.distTo && x != start ==> x in s.edgeTo
    ensures forall v :: v in s.edgeTo ==>
      && s.edgeTo[v].to == v && s.edgeTo[v] in g.neighbors(s.edgeTo[v].from)
      && s.edgeTo[v].from in s.distTo && s.distTo[v] == s.distTo[s.edgeTo[v].from] + s.edgeTo[v].weight
    ensures forall u, k :: u in s.distTo && 0 <= k < |g.neighbors(u)| ==>
      g.neighbors(u)[k].to in s.distTo && s.distTo[g.neighbors(u)[k].to] <= s.distTo[u] + g.neighbors(u)[k].weight
    ensures forall es, v :: IsWalk(g, es, start, v) ==> v in s.distTo && s.distTo[v] <= Weight(es)
  {
    var order := TopologicalOrder(g, start);
    ReachableOrderIsRooted(g, start, order);
    var t := RelaxAll(g, start, order);
    s := Solver(start, order, t.distTo, t.edgeTo);
    forall u, k | u in s.distTo && 0 <= k < |g.neighbors(u)|
      ensures g.neighbors(u)[k].to in s.distTo && s.distTo[g.neighbors(u)[k].to] <= s.distTo[u] + g.neighbors(u)[k].weight
    {
      var j :| 0 <= j < |order| && order[j] == u;
      assert EdgeRelaxed(g, order, s.distTo, j, k);
    }
    forall es, v | IsWalk(g, es, start, v)
      ensures v in s.distTo && s.distTo[v] <= Weight(es)
    {
      DistanceLowerBound(g, start, s.distTo, es, v);
    }
  }

  /** Position of `x` in `o`. */
  function Position<V(==)>(o: seq<V>, x: V): (i: nat)
    requires x in o
    ensures i < |o| && o[i] == x
  {
    if o[0] == x then 0 else 1 + Position(o[1..], x)
  }

  /** Each vertex of `p` after the first was reached through a recorded
      predecessor edge from the vertex before it. */
  ghost predicate Chain<V>(edgeTo: map<V, Edge<V>>, p: seq<V>) {
    forall i :: 0 <= i < |p| - 1 ==> Linked(edgeTo, p[i], p[i + 1])
  }

  /** `v` has a recorded predecessor edge, and it comes from `u`. */
  ghost predicate Linked<V>(edgeTo: map<V, Edge<V>>, u: V, v: V) {
    v in edgeTo && edgeTo[v].from == u
  }

  /** The recorded predecessor edges along `p`, in order. */
  ghost function EdgesAlong<V>(edgeTo: map<V, Edge<V>>, p: seq<V>): (es: seq<Edge<V>>)
    requires |p| > 0 && Chain(edgeTo, p)
    ensures |es| == |p| - 1
    ensures forall i :: 0 <= i < |p| - 1 ==> Linked(edgeTo, p[i], p[i + 1]) && es[i] == edgeTo[p[i + 1]]
  {
    seq(|p| - 1, i requires 0 <= i < |p| - 1 => assert Linked(edgeTo, p[i], p[i + 1]); edgeTo[p[i + 1]])
  }

  /** A chain of recorded predecessor edges from the start is a walk of the
      graph whose weight is the computed distance of its end. */
  lemma {:induction false} TreeWalk<V(!new)>(g: Graph<V>, s: Solver<V>, p: seq<V>)
    requires s.start in s.distTo && s.distTo[s.start] == 0
    requires TreeEdges(g, s.order, s.distTo, s.edgeTo, |s.order|)
    requires |p| > 0 && p[0] == s.start
    requires Chain(s.edgeTo, p)
    ensures IsWalk(g, EdgesAlong(s.edgeTo, p), s.start, p[|p| - 1])
    ensures p[|p| - 1] in s.distTo && s.distTo[p[|p| - 1]] == Weight(EdgesAlong(s.edgeTo, p))
    decreases |p|
  {
    if |p| > 1 {
      var n := |p| - 1;
      var p' := p[..n];
      assert Chain(s.edgeTo, p') by {
        forall i | 0 <= i < |p'| - 1
          ensures Linked(s.edgeTo, p'[i], p'[i + 1])
        {
          assert p'[i] == p[i] && p'[i + 1] == p[i + 1];
        }
      }
      TreeWalk(g, s, p');
      var es := EdgesAlong(s.edgeTo, p);
      var es' := EdgesAlong(s.edgeTo, p');
      assert es' == es[..n - 1];
      var e := s.edgeTo[p[n]];
      assert es[n - 1] == e && e.from == p[n - 1] && e.to == p[n];
      assert IsWalk(g, es, s.start, p[n]) by {
        if n > 1 {
          assert es[n - 2] == es'[n - 2];
        }
      }
    }
  }

  /** The source of a recorded predecessor edge comes strictly earlier in the order. */
  lemma PredecessorEarlier<V(!new)>(g: Graph<V>, s: Solver<V>, v: V)
    requires Valid(g, s) && v in s.edgeTo
    ensures v in s.order && s.edgeTo[v].from in s.order
    ensures Position(s.order, s.edgeTo[v].from) < Position(s.order, v)
  {
    var e := s.edgeTo[v];
    var k :| 0 <= k < |g.neighbors(e.from)| && g.neighbors(e.from)[k] == e;
    assert IsEdge(g, e.from, v);
  }

  /** A vertex whose recorded predecessor edge comes from `x` can follow `x` at the head of a chain. */
  lemma ChainCons<V>(edgeTo: map<V, Edge<V>>, x: V, p: seq<V>)
    requires Chain(edgeTo, p) && |p| > 0 && p[0] in edgeTo && edgeTo[p[0]].from == x
    ensures Chain(edgeTo, [x] + p)
  {
    var q := [x] + p;
    forall i | 0 <= i < |q| - 1
      ensures Linked(edgeTo, q[i], q[i + 1])
    {
      if i > 0 {
        assert q[i] == p[i - 1] && q[i + 1] == p[i];
      }
    }
  }

  /** Appending to a list prepends to its reversal. */
  lemma ReverseSnoc<V>(r: seq<V>, x: V)
    ensures Reverse(r + [x]) == [x] + Reverse(r)
  {
    var a := Reverse(r + [x]);
    var b := [x] + Reverse(r);
    assert |a| == |b|;
    forall i | 0 <= i < |a|
      ensures a[i] == b[i]
    {
      if i > 0 {
        assert a[i] == (r + [x])[|r| - i] == r[|r| - i];
      }
    }
  }

  /** Path reconstruction: follow predecessor edges back from `goal` until a
      vertex without one, then reverse. An unreached goal gives `[goal]`. */
  method Solution<V(==,!new)>(ghost g: Graph<V>, s: Solver<V>, goal: V) returns (path: seq<V>)
    requires Valid(g, s)
    ensures |path| > 0 && path[|path| - 1] == goal
    ensures path[0] !in s.edgeTo
    ensures Chain(s.edgeTo, path)
    ensures goal !in s.edgeTo ==> path == [goal]
    ensures goal in s.distTo ==> path[0] == s.start
    ensures goal in s.distTo ==>
      IsWalk(g, EdgesAlong(s.edgeTo, path), s.start, goal) && s.distTo[goal] == Weight(EdgesAlong(s.edgeTo, path))
  {
    var back := [goal];
    var curr := goal;
    while curr in s.edgeTo
      invariant |back| > 0 && back[0] == goal && back[|back| - 1] == curr
      invariant Chain(s.edgeTo, Reverse(back))
      invariant goal in s.distTo ==> curr in s.distTo
      invariant goal !in s.edgeTo ==> back == [goal]
      decreases if curr in s.order then Position(s.order, curr) + 1 else 0
    {
      PredecessorEarlier(g, s, curr);
      var next := s.edgeTo[curr].from;
      ReverseSnoc(back, next);
      ChainCons(s.edgeTo, next, Reverse(back));
      curr := next;
      back := back + [curr];
    }
    path := Reverse(back);
    if goal in s.distTo {
      TreeWalk(g, s, path);
    }
  }
}
