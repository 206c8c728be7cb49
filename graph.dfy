/**
  The directed graph shared by both traversals: vertex count, adjacency
  lists, the rule that keeps generated edges off self-loops, and the
  reachability notions the traversals are specified against.
*/
module Graphs {
  import opened Indices

  datatype Option<T> = None | Some(value: T)

  /** Every adjacency-list entry names a vertex of the graph. */
  predicate WellFormed(adj: seq<seq<int>>) {
    forall u, j :: 0 <= u < |adj| && 0 <= j < |adj[u]| ==> 0 <= adj[u][j] < |adj|
  }

  /** No vertex lists itself as a neighbour. */
  predicate NoSelfLoops(adj: seq<seq<int>>) {
    forall u :: 0 <= u < |adj| ==> u !in adj[u]
  }

  /** No vertex index occurs twice. */
  predicate Distinct(s: seq<int>) {
    forall i, j :: 0 <= i < j < |s| ==> s[i] != s[j]
  }

  function Elems(s: seq<int>): set<int> {
    set x | x in s
  }

  // ---------------------------------------------------------------- Graph

  /** The adjacency-list graph; `AddEdge` is its only mutator. */
  class Graph {
    var V: int
    var adj: seq<seq<int>>

    ghost predicate Valid()
      reads this
    {
      V == |adj|
    }

    /** A graph with `vertices` vertices and no edges. */
    constructor (vertices: nat)
      ensures Valid() && V == vertices
      ensures forall u :: 0 <= u < vertices ==> adj[u] == []
    {
      V := vertices;
      adj := seq(vertices, _ => []);
    }

    /** Appends `dest` to the adjacency list of `src`; nothing else changes. */
    method AddEdge(src: int, dest: int)
      requires Valid() && 0 <= src < V
      modifies this
      ensures Valid() && V == old(V)
      ensures adj[src] == old(adj[src]) + [dest]
      ensures forall u :: 0 <= u < V && u != src ==> adj[u] == old(adj[u])
    {
      adj := adj[src := adj[src] + [dest]];
    }

    /**
      One step of graph generation: the drawn destination `dest` is redirected
      off vertex `i` by the corrected self-loop rule and the edge is added
      (the edge is dropped when the graph has a single vertex).
    */
    method AddGeneratedEdge(i: int, dest: int)
      requires Valid() && 0 <= i < V && 0 <= dest < V
      requires WellFormed(adj) && NoSelfLoops(adj)
      modifies this
      ensures Valid() && V == old(V)
      ensures WellFormed(adj) && NoSelfLoops(adj)
      ensures adj == match AdjustedDestination(i, dest, V)
                     case Some(d) => old(adj)[i := old(adj[i]) + [d]]
                     case None => old(adj)
    {
      var d := AdjustedDestination(i, dest, V);
      if d.Some? {
        AddEdge(i, d.value);
      }
    }
  }

  /**
    Generation of a graph with `edgeDensity` outgoing edges per vertex.
    `draws[i][j]` is the uniformly drawn destination of vertex `i`'s `j`-th
    edge; the drawing itself is outside the model.
  */
  method GenerateGraph(vertices: nat, edgeDensity: nat, draws: seq<seq<int>>) returns (g: Graph)
    requires |draws| == vertices
    requires forall i :: 0 <= i < vertices ==> |draws[i]| == edgeDensity
    requires forall i, j :: 0 <= i < vertices && 0 <= j < edgeDensity ==> 0 <= draws[i][j] < vertices
    ensures fresh(g) && g.Valid() && g.V == vertices
    ensures WellFormed(g.adj) && NoSelfLoops(g.adj)
    ensures forall i :: 0 <= i < vertices ==>
              |g.adj[i]| == (if vertices >= 2 then edgeDensity else 0)
    ensures forall i, j :: 0 <= i < vertices && 0 <= j < |g.adj[i]| ==>
              g.adj[i][j] == AvoidSelfLoop(i, draws[i][j], vertices)
  {
    g := new Graph(vertices);
    for i := 0 to vertices
      invariant g.Valid() && g.V == vertices
      invariant WellFormed(g.adj) && NoSelfLoops(g.adj)
      invariant forall u :: i <= u < vertices ==> g.adj[u] == []
      invariant forall u :: 0 <= u < i ==> |g.adj[u]| == (if vertices >= 2 then edgeDensity else 0)
      invariant forall u, j :: 0 <= u < i && 0 <= j < |g.adj[u]| ==>
                  g.adj[u][j] == AvoidSelfLoop(u, draws[u][j], vertices)
    {
      GenerateEdges(g, i, draws[i]);
    }
  }

  /**
    The edges of vertex `i`, one per drawn destination in `dests`, each
    redirected by the corrected self-loop rule; the other vertices keep
    their lists.
  */
  method GenerateEdges(g: Graph, i: int, dests: seq<int>)
    requires g.Valid() && 0 <= i < g.V && g.adj[i] == []
    requires WellFormed(g.adj) && NoSelfLoops(g.adj)
    requires forall j :: 0 <= j < |dests| ==> 0 <= dests[j] < g.V
    modifies g
    ensures g.Valid() && g.V == old(g.V)
    ensures WellFormed(g.adj) && NoSelfLoops(g.adj)
    ensures forall u :: 0 <= u < g.V && u != i ==> g.adj[u] == old(g.adj[u])
    ensures |g.adj[i]| == (if g.V >= 2 then |dests| else 0)
    ensures forall j :: 0 <= j < |g.adj[i]| ==> g.adj[i][j] == AvoidSelfLoop(i, dests[j], g.V)
  {
    for j := 0 to |dests|
      invariant g.Valid() && g.V == old(g.V)
      invariant WellFormed(g.adj) && NoSelfLoops(g.adj)
      invariant forall u :: 0 <= u < g.V && u != i ==> g.adj[u] == old(g.adj[u])
      invariant |g.adj[i]| == (if g.V >= 2 then j else 0)
      invariant forall k :: 0 <= k < |g.adj[i]| ==> g.adj[i][k] == AvoidSelfLoop(i, dests[k], g.V)
    {
      g.AddGeneratedEdge(i, dests[j]);
    }
  }

  // ------------------------------------------------------- self-loop rule

  /**
    The self-loop rule as written: a destination equal to the source vertex
    is moved one index up, or one down at the last vertex. With two or more
    vertices the result is a vertex other than `i`; see
    AvoidSelfLoopSingleVertex for one vertex.
  */
  function AvoidSelfLoop(i: int, dest: int, vertices: int): (d: int)
    requires 0 <= i < vertices && 0 <= dest < vertices
    ensures dest != i ==> d == dest
    ensures vertices >= 2 ==> 0 <= d < vertices && d != i
    ensures dest == i ==> d == i + 1 || d == i - 1
  {
    if dest == i then
      if dest < vertices - 1 then dest + 1 else dest - 1
    else
      dest
  }

  /** With a single vertex the rule as written yields the vertex index -1. */
  lemma AvoidSelfLoopSingleVertex()
    ensures AvoidSelfLoop(0, 0, 1) == -1
  {
  }

  /**
    The corrected rule: the same redirection when another vertex exists,
    and no edge at all when the graph has a single vertex.
  */
  function AdjustedDestination(i: int, dest: int, vertices: int): (r: Option<int>)
    requires 0 <= i < vertices && 0 <= dest < vertices
    ensures r.Some? <==> vertices >= 2
    ensures r.Some? ==> 0 <= r.value < vertices && r.value != i
    ensures r.Some? && dest != i ==> r.value == dest
  {
    if vertices >= 2 then Some(AvoidSelfLoop(i, dest, vertices)) else None
  }

  // --------------------------------------------------------- reachability

  /** A non-empty walk along edges of the graph. */
  ghost predicate IsPath(adj: seq<seq<int>>, p: seq<int>) {
    && |p| > 0
    && (forall i :: 0 <= i < |p| ==> 0 <= p[i] < |adj|)
    && (forall i :: 0 <= i < |p| - 1 ==> p[i + 1] in adj[p[i]])
  }

  /** `v` can be reached from `s` by following edges. */
  ghost predicate Reachable(adj: seq<seq<int>>, s: int, v: int) {
    exists p :: IsPath(adj, p) && p[0] == s && p[|p| - 1] == v
  }

  /** Every neighbour of a listed vertex is listed too. */
  ghost predicate Closed(adj: seq<seq<int>>, s: seq<int>) {
    forall u :: u in s ==> 0 <= u < |adj| && forall w :: w in adj[u] ==> w in s
  }

  lemma ReachableStart(adj: seq<seq<int>>, s: int)
    requires 0 <= s < |adj|
    ensures Reachable(adj, s, s)
  {
    assert IsPath(adj, [s]);
  }

  /** Reachability extends along one edge. */
  lemma ReachableStep(adj: seq<seq<int>>, s: int, u: int, w: int)
    requires WellFormed(adj) && 0 <= u < |adj| && w in adj[u]
    requires Reachable(adj, s, u)
    ensures Reachable(adj, s, w)
  {
    var p :| IsPath(adj, p) && p[0] == s && p[|p| - 1] == u;
    var q := p + [w];
    assert q[|q| - 2] == u;
    assert IsPath(adj, q);
  }

  /** A closed list that holds the start of a walk holds its end. */
  lemma {:induction false} ClosedContainsPathEnd(adj: seq<seq<int>>, s: seq<int>, p: seq<int>)
    requires IsPath(adj, p) && p[0] in s && Closed(adj, s)
    ensures p[|p| - 1] in s
  {
    if |p| > 1 {
      var q := p[..|p| - 1];
      assert IsPath(adj, q);
      ClosedContainsPathEnd(adj, s, q);
      assert p[|p| - 1] in adj[q[|q| - 1]];
    }
  }

  /** A closed list that holds `start` holds every vertex reachable from it. */
  lemma ClosedContainsReachable(adj: seq<seq<int>>, s: seq<int>, start: int)
    requires start in s && Closed(adj, s)
    ensures forall v :: Reachable(adj, start, v) ==> v in s
  {
    forall v | Reachable(adj, start, v)
      ensures v in s
    {
      var p :| IsPath(adj, p) && p[0] == start && p[|p| - 1] == v;
      ClosedContainsPathEnd(adj, s, p);
    }
  }

  // ------------------------------------------------ distinct vertex lists

  lemma {:induction false} DistinctCard(s: seq<int>)
    requires Distinct(s)
    ensures |Elems(s)| == |s|
  {
    if |s| > 0 {
      var t := s[..|s| - 1];
      DistinctCard(t);
      assert Elems(s) == Elems(t) + {s[|s| - 1]};
      assert s[|s| - 1] !in Elems(t);
    }
  }

  lemma SubsetCard(a: set<int>, b: set<int>)
    requires a <= b
    ensures |a| <= |b|
  {
    assert b == a + (b - a);
  }

  /** A list of distinct vertices of an `n`-vertex graph has at most `n` entries. */
  lemma DistinctBound(s: seq<int>, n: nat)
    requires Distinct(s)
    requires forall x :: x in s ==> 0 <= x < n
    ensures |s| <= n
  {
    DistinctCard(s);
    IndexSetCard(n);
    SubsetCard(Elems(s), IndexSet(n));
  }

  /** Two distinct lists with the same members have the same length. */
  lemma SameElementsSameLength(a: seq<int>, b: seq<int>)
    requires Distinct(a) && Distinct(b)
    requires forall v :: v in a <==> v in b
    ensures |a| == |b|
  {
    DistinctCard(a);
    DistinctCard(b);
    assert Elems(a) == Elems(b);
  }

  lemma DistinctAppend(a: seq<int>, b: seq<int>)
    requires Distinct(a) && Distinct(b)
    requires forall x :: x in b ==> x !in a
    ensures Distinct(a + b)
  {
    forall i, j | 0 <= i < j < |a + b|
      ensures (a + b)[i] != (a + b)[j]
    {
      if j >= |a| && i < |a| {
        assert (a + b)[j] in b;
        assert (a + b)[i] in a;
      }
    }
  }
}
