/**
 Depth-first postorder of the vertices reachable from a start vertex, and
 its reversal, which on an acyclic graph is a topological order.
 */
module PostOrder {
  import opened Graphs

  ghost predicate Distinct<V>(r: seq<V>) {
    forall i, j :: 0 <= i < j < |r| ==> r[i] != r[j]
  }

  /** Every edge leaving a listed vertex lands on a listed vertex. */
  ghost predicate Closed<V(!new)>(g: Graph<V>, r: seq<V>) {
    ClosedUnderEdges(g, set x | x in r)
  }

  /** Every edge between listed vertices points to an earlier position. */
  ghost predicate PostOrdered<V(!new)>(g: Graph<V>, r: seq<V>) {
    forall i, j :: 0 <= i < |r| && 0 <= j < |r| && IsEdge(g, r[i], r[j]) ==> j < i
  }

  /** Every edge between listed vertices points to a later position. */
  ghost predicate Topological<V(!new)>(g: Graph<V>, o: seq<V>) {
    forall i, j :: 0 <= i < |o| && 0 <= j < |o| && IsEdge(g, o[i], o[j]) ==> i < j
  }

  /** The list read back to front. */
  function Reverse<V>(r: seq<V>): (o: seq<V>)
    ensures |o| == |r|
    ensures forall i :: 0 <= i < |r| ==> o[i] == r[|r| - 1 - i]
  {
    if |r| == 0 then [] else Reverse(r[1..]) + [r[0]]
  }

  /** Reversal keeps the elements, keeps them distinct and closed, and turns
      a postorder into a topological order. */
  lemma ReversePostOrder<V(!new)>(g: Graph<V>, r: seq<V>)
    ensures forall x :: x in Reverse(r) <==> x in r
    ensures Distinct(r) ==> Distinct(Reverse(r))
    ensures Closed(g, r) ==> Closed(g, Reverse(r))
    ensures PostOrdered(g, r) ==> Topological(g, Reverse(r))
  {
    var o := Reverse(r);
    var n := |r|;
    forall x
      ensures x in o <==> x in r
    {
      if x in o {
        var i :| 0 <= i < n && o[i] == x;
        assert r[n - 1 - i] == x;
      }
      if x in r {
        var i :| 0 <= i < n && r[i] == x;
        assert o[n - 1 - i] == x;
      }
    }
    if Distinct(r) {
      forall i, j | 0 <= i < j < n
        ensures o[i] != o[j]
      {
        assert r[n - 1 - j] != r[n - 1 - i];
      }
    }
    if Closed(g, r) {
      forall i, k | 0 <= i < n && 0 <= k < |g.neighbors(o[i])|
        ensures g.neighbors(o[i])[k].to in o
      {
        assert o[i] == r[n - 1 - i];
      }
    }
    if PostOrdered(g, r) {
      forall i, j | 0 <= i < n && 0 <= j < n && IsEdge(g, o[i], o[j])
        ensures i < j
      {
        assert IsEdge(g, r[n - 1 - i], r[n - 1 - j]);
      }
    }
  }

  /** What holds inside the call for `s` while it walks the edges of `s`:
      `res` extends `result`, every vertex appended since entry is reachable
      from `s` avoiding the vertices marked at entry, and the marked set is the
      entry set plus `s` plus the vertices appended since entry. */
  ghost predicate Descending<V(!new)>(g: Graph<V>, s: V, visited: set<V>, result: seq<V>, vis: set<V>, res: seq<V>) {
    && visited + {s} <= vis <= g.vertices
    && |res| >= |result| && res[..|result|] == result
    && s !in res
    && Distinct(res) && Closed(g, res) && PostOrdered(g, res)
    && (forall x :: x in result ==> x in visited)
    && (forall x :: x in res ==> x in vis)
    && (forall x :: x in vis <==> x in visited || x == s || (x in res && x !in result))
    && (forall x :: x in res && x !in result ==> ReachesAvoiding(g, s, x, visited))
  }

  /** The targets of the first `i` edges of `s` are all listed in `res`. */
  ghost predicate TargetsListed<V(!new)>(g: Graph<V>, s: V, i: int, res: seq<V>) {
    forall k :: 0 <= k < i && k < |g.neighbors(s)| ==> g.neighbors(s)[k].to in res
  }

  /** Before descending along the edge s -> y, every vertex whose call is
      still open reaches `y`. */
  lemma OpenCallsReachTarget<V(!new)>(g: Graph<V>, s: V, y: V, visited: set<V>, result: seq<V>, vis: set<V>, res: seq<V>)
    requires IsEdge(g, s, y)
    requires Descending(g, s, visited, result, vis, res)
    requires forall x :: x in visited && x !in result ==> Reaches(g, x, s)
    ensures forall x :: x in vis && x !in res ==> Reaches(g, x, y)
  {
    forall x | x in vis && x !in res
      ensures Reaches(g, x, y)
    {
      if x == s {
        ReachesAvoidingRefl(g, s, {});
      } else {
        assert x in visited && x !in result;
      }
      ReachesStep(g, x, s, y);
    }
  }

  /** The walk over the edges of `s` stays `Descending` after a recursive call
      on an unmarked target `y`, given what that call guarantees. */
  lemma DescentStep<V(!new)>(g: Graph<V>, s: V, y: V, visited: set<V>, result: seq<V>,
                             v0: set<V>, r0: seq<V>, v1: set<V>, r1: seq<V>)
    requires IsEdge(g, s, y) && s !in visited
    requires Descending(g, s, visited, result, v0, r0) && y !in v0
    requires v1 <= g.vertices
    requires |r1| > |r0| && r1[..|r0|] == r0 && r1[|r1| - 1] == y
    requires Distinct(r1) && Closed(g, r1) && PostOrdered(g, r1)
    requires forall x :: x in r1 <==> x in r0 || ReachesAvoiding(g, y, x, v0)
    requires forall x :: x in v1 <==> x in v0 || ReachesAvoiding(g, y, x, v0)
    ensures Descending(g, s, visited, result, v1, r1)
  {
    forall x | ReachesAvoiding(g, y, x, v0)
      ensures x !in v0 && ReachesAvoiding(g, s, x, visited)
    {
      ReachesAvoidingEnds(g, y, x, v0);
      ReachesPrepend(g, s, y, x, v0, visited);
    }
    assert r1[..|result|] == r1[..|r0|][..|result|];
  }

  /** Extending the list and appending the target of edge `i` of `s` keeps
      the targets of the edges before it listed and adds that one. */
  lemma TargetsGrow<V(!new)>(g: Graph<V>, s: V, i: int, r0: seq<V>, r1: seq<V>)
    requires 0 <= i < |g.neighbors(s)| && TargetsListed(g, s, i, r0)
    requires |r1| > |r0| && r1[..|r0|] == r0 && r1[|r1| - 1] == g.neighbors(s)[i].to
    ensures TargetsListed(g, s, i + 1, r1)
  {
    forall k | 0 <= k < i + 1 && k < |g.neighbors(s)|
      ensures g.neighbors(s)[k].to in r1
    {
      if k < i {
        var j :| 0 <= j < |r0| && r0[j] == g.neighbors(s)[k].to;
        assert r1[j] == r0[j];
      } else {
        assert r1[|r1| - 1] == g.neighbors(s)[k].to;
      }
    }
  }

  /** In an acyclic graph, an already marked target of an edge of `s` has
      already been appended: the vertices still open all reach `s`. */
  lemma MarkedTargetListed<V(!new)>(g: Graph<V>, s: V, y: V, i: int, visited: set<V>, result: seq<V>, vis: set<V>, res: seq<V>)
    requires 0 <= i < |g.neighbors(s)| && g.neighbors(s)[i].to == y && TargetsListed(g, s, i, res)
    requires Acyclic(g) && IsEdge(g, s, y)
    requires Descending(g, s, visited, result, vis, res) && y in vis
    requires forall x :: x in visited && x !in result ==> Reaches(g, x, s)
    ensures TargetsListed(g, s, i + 1, res)
  {
    NoBackEdge(g, s, y);
    ReachesAvoidingRefl(g, s, {});
    if y in result {
      var j :| 0 <= j < |result| && result[j] == y;
      assert res[j] == y;
    }
  }

  /** Appending `s` once all its edge targets are appended completes the call. */
  lemma DescentDone<V(!new)>(g: Graph<V>, s: V, visited: set<V>, result: seq<V>, vis: set<V>, res: seq<V>)
    requires Descending(g, s, visited, result, vis, res) && s !in visited
    requires TargetsListed(g, s, |g.neighbors(s)|, res)
    ensures Distinct(res + [s]) && Closed(g, res + [s]) && PostOrdered(g, res + [s])
    ensures (res + [s])[..|result|] == result
    ensures forall x :: x in res + [s] <==> x in result || ReachesAvoiding(g, s, x, visited)
    ensures forall x :: x in vis <==> x in visited || ReachesAvoiding(g, s, x, visited)
  {
    var r := res + [s];
    assert r[..|result|] == res[..|result|];
    forall i | 0 <= i < |r|
      ensures !IsEdge(g, r[i], s)
    {
      forall k | 0 <= k < |g.neighbors(r[i])|
        ensures g.neighbors(r[i])[k].to != s
      {
        assert g.neighbors(r[i])[k].to in res;
      }
    }
    forall x | ReachesAvoiding(g, s, x, visited)
      ensures x in r
    {
      var p :| IsPath(g, p) && p[0] == s && p[|p| - 1] == x && Avoids(p, visited);
      ClosedHoldsReachable(g, (set z | z in r), p);
      ReachesAvoidingEnds(g, s, x, visited);
    }
    ReachesAvoidingRefl(g, s, visited);
  }

  /** The recursive traversal: mark `s`, descend into every unmarked target of
      its edges in list order, then append `s`. On entry `result` is the
      postorder so far; the vertices marked but not yet appended are the ones
      whose calls are still open, and each of them reaches `s`. */
  method DfsPostOrder<V(!new)>(g: Graph<V>, s: V, visited: set<V>, result: seq<V>)
    returns (visited': set<V>, result': seq<V>)
    requires WellFormed(g) && Acyclic(g)
    requires s in g.vertices && s !in visited && visited <= g.vertices
    requires Distinct(result) && (forall x :: x in result ==> x in visited)
    requires Closed(g, result) && PostOrdered(g, result)
    requires forall x :: x in visited && x !in result ==> Reaches(g, x, s)
    ensures visited' <= g.vertices
    ensures |result'| > |result| && result'[..|result|] == result && result'[|result'| - 1] == s
    ensures Distinct(result') && Closed(g, result') && PostOrdered(g, result')
    ensures forall x :: x in result' <==> x in result || ReachesAvoiding(g, s, x, visited)
    ensures forall x :: x in visited' <==> x in visited || ReachesAvoiding(g, s, x, visited)
    decreases g.vertices - visited
  {
    var es := g.neighbors(s);
    visited' := visited + {s};
    result' := result;
    var i := 0;
    while i < |es|
      invariant 0 <= i <= |es|
      invariant Descending(g, s, visited, result, visited', result')
      invariant TargetsListed(g, s, i, result')
    {
      var y := es[i].to;
      assert IsEdge(g, s, y);
      if y !in visited' {
        OpenCallsReachTarget(g, s, y, visited, result, visited', result');
        var v0, r0 := visited', result';
        visited', result' := DfsPostOrder(g, y, v0, r0);
        DescentStep(g, s, y, visited, result, v0, r0, visited', result');
        TargetsGrow(g, s, i, r0, result');
      } else {
        MarkedTargetListed(g, s, y, i, visited, result, visited', result');
      }
      i := i + 1;
    }
    DescentDone(g, s, visited, result, visited', result');
    result' := result' + [s];
  }

  /** Postorder from `start` over an empty visited set, then reversed: the
      order in which the solver relaxes vertices. */
  method TopologicalOrder<V(!new)>(g: Graph<V>, start: V) returns (order: seq<V>)
    requires WellFormed(g) && Acyclic(g) && start in g.vertices
    ensures |order| > 0 && order[0] == start
    ensures Distinct(order) && Closed(g, order) && Topological(g, order)
    ensures forall x :: x in order <==> Reaches(g, start, x)
    ensures forall x :: x in order ==> x in g.vertices
  {
    var visited, post := DfsPostOrder(g, start, {}, []);
    order := Reverse(post);
    ReversePostOrder(g, post);
    forall x | x in order
      ensures x in g.vertices
    {
      ReachableInGraph(g, start, x);
    }
  }
}
