/**
  Breadth-first traversal: the queue-based reference traversal, the
  level-synchronous frontier traversal, and the order-insensitive
  comparison of their results.
*/
module Bfs {
  import opened Graphs

  /** `v` is a neighbour of some vertex of `frontier`. */
  ghost predicate Discovered(adj: seq<seq<int>>, frontier: seq<int>, v: int) {
    exists k :: 0 <= k < |frontier| && 0 <= frontier[k] < |adj| && v in adj[frontier[k]]
  }

  /**
    What both traversals deliver: `start` first, no vertex twice, and
    exactly the vertices reachable from `start`.
  */
  ghost predicate IsTraversal(adj: seq<seq<int>>, start: int, order: seq<int>) {
    && |order| > 0 && order[0] == start
    && Distinct(order)
    && (forall v :: v in order <==> Reachable(adj, start, v))
  }

  /**
    The entries of `list` that a left-to-right scan finds unmarked, in the
    order the scan meets them, when each entry found is marked at once (so
    a repeated entry is found only the first time).
  */
  function NewNeighbours(list: seq<int>, marked: seq<bool>): seq<int>
    requires forall j :: 0 <= j < |list| ==> 0 <= list[j] < |marked|
  {
    if list == [] then []
    else if marked[list[0]] then NewNeighbours(list[1..], marked)
    else [list[0]] + NewNeighbours(list[1..], marked[list[0] := true])
  }

  /**
    Scans the neighbours of `u` in adjacency order; each unmarked one is
    marked and collected, in one indivisible step per neighbour. Both
    traversals perform this scan for every vertex they expand.
  */
  method MarkNeighbours(adj: seq<seq<int>>, visited: array<bool>, u: int) returns (found: seq<int>)
    requires WellFormed(adj) && visited.Length == |adj| && 0 <= u < |adj|
    modifies visited
    ensures Distinct(found)
    ensures forall i :: 0 <= i < |found| ==> 0 <= found[i] < |adj| && found[i] in adj[u]
    ensures forall v :: v in found <==> v in adj[u] && !old(visited[v])
    ensures forall v :: 0 <= v < |adj| ==> visited[v] == (old(visited[v]) || v in found)
    ensures forall w :: w in adj[u] ==> visited[w]
    ensures found == NewNeighbours(adj[u], old(visited[..]))
  {
    found := [];
    for j := 0 to |adj[u]|
      invariant found + NewNeighbours(adj[u][j..], visited[..]) == NewNeighbours(adj[u], old(visited[..]))
      invariant Distinct(found)
      invariant forall i :: 0 <= i < |found| ==> 0 <= found[i] < |adj| && found[i] in adj[u][..j]
      invariant forall v :: v in found <==> v in adj[u][..j] && !old(visited[v])
      invariant forall v :: 0 <= v < |adj| ==> visited[v] == (old(visited[v]) || v in found)
      invariant forall w :: w in adj[u][..j] ==> visited[w]
    {
      var v := adj[u][j];
      assert adj[u][..j + 1] == adj[u][..j] + [v];
      assert adj[u][j..][1..] == adj[u][j + 1..];
      ghost var marked := visited[..];
      var alreadyVisited: bool;
      if !visited[v] {
        visited[v] := true;
        alreadyVisited := false;
      } else {
        alreadyVisited := true;
      }
      if !alreadyVisited {
        assert visited[..] == marked[v := true];
        DistinctAppend(found, [v]);
        found := found + [v];
      }
    }
    assert adj[u][..|adj[u]|] == adj[u];
    assert adj[u][|adj[u]|..] == [];
  }

  /**
    What both traversals keep between steps, with `q` the vertices marked
    but not yet emitted (the queue, or the frontier): the emitted and the
    waiting vertices are distinct reachable vertices, exactly they are
    marked, and every neighbour of an emitted vertex is marked.
  */
  ghost predicate TraversalState(adj: seq<seq<int>>, start: int, visited: seq<bool>, order: seq<int>, q: seq<int>) {
    && |visited| == |adj|
    && (forall i :: 0 <= i < |order| ==> 0 <= order[i] < |adj| && Reachable(adj, start, order[i]))
    && (forall i :: 0 <= i < |q| ==> 0 <= q[i] < |adj| && Reachable(adj, start, q[i]))
    && Distinct(order + q)
    && (forall v :: 0 <= v < |adj| ==> (visited[v] <==> v in order || v in q))
    && (order == [] ==> q == [start])
    && (order != [] ==> order[0] == start)
    && (forall i :: 0 <= i < |order| ==> forall w :: w in adj[order[i]] ==> 0 <= w < |adj| && visited[w])
  }

  /**
    One step of the queue traversal: the head of the queue is dequeued and
    appended to the result, and its unmarked neighbours are marked and
    enqueued behind the rest of the queue, in adjacency order.
  */
  method VisitNext(adj: seq<seq<int>>, start: int, visited: array<bool>, order: seq<int>, q: seq<int>)
    returns (order': seq<int>, q': seq<int>)
    requires WellFormed(adj) && q != []
    requires TraversalState(adj, start, visited[..], order, q)
    modifies visited
    ensures |order| < |adj| && order' == order + [q[0]]
    ensures 0 <= q[0] < |adj| && q' == q[1..] + NewNeighbours(adj[q[0]], old(visited[..]))
    ensures forall v :: 0 <= v < |adj| && old(visited[v]) ==> visited[v]
    ensures TraversalState(adj, start, visited[..], order', q')
  {
    ghost var before := visited[..];
    var u := q[0];
    order' := order + [u];
    var found := MarkNeighbours(adj, visited, u);
    DequeueStep(adj, start, before, visited[..], order, q, found);
    q' := q[1..] + found;
  }

  /** Dequeuing the head and enqueuing the neighbours the scan claimed keeps the traversal state. */
  lemma DequeueStep(adj: seq<seq<int>>, start: int, before: seq<bool>, after: seq<bool>,
                    order: seq<int>, q: seq<int>, found: seq<int>)
    requires WellFormed(adj) && q != []
    requires TraversalState(adj, start, before, order, q) && |after| == |adj|
    requires Distinct(found)
    requires forall i :: 0 <= i < |found| ==> 0 <= found[i] < |adj| && found[i] in adj[q[0]]
    requires forall v :: 0 <= v < |adj| ==> (v in found <==> v in adj[q[0]] && !before[v])
    requires forall v :: 0 <= v < |adj| ==> after[v] == (before[v] || v in found)
    requires forall w :: w in adj[q[0]] ==> 0 <= w < |adj| && after[w]
    ensures |order| < |adj|
    ensures TraversalState(adj, start, after, order + [q[0]], q[1..] + found)
  {
    var n, u := |adj|, q[0];
    var order', q' := order + [u], q[1..] + found;
    assert |order + q| <= n by {
      assert forall v :: v in order + q ==> 0 <= v < n;
      DistinctBound(order + q, n);
    }
    assert forall i :: 0 <= i < |found| ==> Reachable(adj, start, found[i]) by {
      forall i | 0 <= i < |found|
        ensures Reachable(adj, start, found[i])
      {
        ReachableStep(adj, start, u, found[i]);
      }
    }
    assert Distinct(order' + q') by {
      assert order + q == order' + q[1..];
      DistinctAppend(order' + q[1..], found);
      assert (order' + q[1..]) + found == order' + q';
    }
    assert forall x :: x in order' ==> x in order || x == u;
    assert TraversalState(adj, start, after, order', q');
  }

  /**
    Queue-based traversal: `start` is marked and enqueued; each dequeued
    vertex is appended to the result and its unmarked neighbours are marked
    and enqueued.
  */
  method BfsSeq(adj: seq<seq<int>>, start: int) returns (order: seq<int>)
    requires WellFormed(adj) && 0 <= start < |adj|
    ensures |order| > 0 && order[0] == start
    ensures Distinct(order) && |order| <= |adj|
    ensures forall v :: v in order <==> Reachable(adj, start, v)
    ensures IsTraversal(adj, start, order)
  {
    var n := |adj|;
    var visited := new bool[n](_ => false);
    visited[start] := true;
    var q := [start];
    order := [];
    ReachableStart(adj, start);
    while q != []
      invariant TraversalState(adj, start, visited[..], order, q)
      decreases n - |order|
    {
      order, q := VisitNext(adj, start, visited, order, q);
    }
    assert order + q == order;
    assert Closed(adj, order);
    ClosedContainsReachable(adj, order, start);
    DistinctBound(order, n);
  }

  /**
    One level of the frontier traversal: every neighbour of the current
    frontier is tested and marked in one indivisible step, and the first
    observer of an unmarked vertex claims it for the next frontier. The
    frontier is scanned by a single worker whose private buffer is merged
    into the next frontier at the end of the level.
  */
  method ExpandFrontier(adj: seq<seq<int>>, visited: array<bool>, current: seq<int>)
    returns (next: seq<int>)
    requires WellFormed(adj) && visited.Length == |adj|
    requires forall i :: 0 <= i < |current| ==> 0 <= current[i] < |adj|
    modifies visited
    ensures Distinct(next)
    ensures forall v :: v in next <==>
              0 <= v < |adj| && !old(visited[v]) && Discovered(adj, current, v)
    ensures forall v :: 0 <= v < |adj| ==> visited[v] == (old(visited[v]) || v in next)
    ensures forall k :: 0 <= k < |current| ==> forall w :: w in adj[current[k]] ==> visited[w]
  {
    var n := |adj|;
    next := [];
    var local: seq<int> := [];
    for i := 0 to |current|
      invariant Distinct(local)
      invariant forall k :: 0 <= k < |local| ==> 0 <= local[k] < n
      invariant forall v :: v in local ==> !old(visited[v]) && Discovered(adj, current, v)
      invariant forall v :: 0 <= v < n ==> visited[v] == (old(visited[v]) || v in local)
      invariant forall k :: 0 <= k < i ==> forall w :: w in adj[current[k]] ==> visited[w]
    {
      var u := current[i];
      var found := MarkNeighbours(adj, visited, u);
      forall v | v in found
        ensures Discovered(adj, current, v)
      {
        assert current[i] == u;
      }
      DistinctAppend(local, found);
      local := local + found;
    }
    next := next + local;
    assert next == local;
    forall v | 0 <= v < n && !old(visited[v]) && Discovered(adj, current, v)
      ensures v in next
    {
      var k :| 0 <= k < |current| && 0 <= current[k] < |adj| && v in adj[current[k]];
      assert visited[v];
    }
  }

  /**
    One level of the frontier traversal: the frontier is appended to the
    result and replaced by the vertices its expansion newly claimed.
  */
  method ProcessLevel(adj: seq<seq<int>>, start: int, visited: array<bool>, order: seq<int>, current: seq<int>)
    returns (order': seq<int>, next: seq<int>)
    requires WellFormed(adj) && current != []
    requires TraversalState(adj, start, visited[..], order, current)
    modifies visited
    ensures |order| < |order'| <= |adj| && order' == order + current
    ensures forall v :: v in next <==>
              0 <= v < |adj| && !old(visited[v]) && Discovered(adj, current, v)
    ensures TraversalState(adj, start, visited[..], order', next)
  {
    var n := |adj|;
    assert forall v :: v in order + current ==> 0 <= v < n;
    DistinctBound(order + current, n);
    order' := order + current;
    next := ExpandFrontier(adj, visited, current);
    forall i | 0 <= i < |next|
      ensures Reachable(adj, start, next[i])
    {
      var v := next[i];
      assert v in next;
      var k :| 0 <= k < |current| && 0 <= current[k] < |adj| && v in adj[current[k]];
      ReachableStep(adj, start, current[k], v);
    }
    DistinctAppend(order', next);
    forall i | 0 <= i < |order'|
      ensures forall w :: w in adj[order'[i]] ==> 0 <= w < |adj| && visited[w]
    {
      if i >= |order| {
        assert order'[i] == current[i - |order|];
      }
    }
  }

  /**
    Level-synchronous traversal: each level appends the whole frontier to
    the result and replaces it by the vertices its expansion newly claimed;
    it stops at the first empty frontier.
  */
  method BfsPar(adj: seq<seq<int>>, start: int) returns (order: seq<int>)
    requires WellFormed(adj) && 0 <= start < |adj|
    ensures |order| > 0 && order[0] == start
    ensures Distinct(order) && |order| <= |adj|
    ensures forall v :: v in order <==> Reachable(adj, start, v)
    ensures IsTraversal(adj, start, order)
  {
    var n := |adj|;
    var visited := new bool[n](_ => false);
    visited[start] := true;
    order := [];
    var current := [start];
    ReachableStart(adj, start);
    while current != []
      invariant TraversalState(adj, start, visited[..], order, current)
      invariant |order| <= n
      decreases n - |order|
    {
      order, current := ProcessLevel(adj, start, visited, order, current);
    }
    assert order + current == order;
    assert Closed(adj, order);
    ClosedContainsReachable(adj, order, start);
  }

  /**
    Compares two traversal results: equal length, and the same vertices
    marked when each result is scattered into a table of `vertexCount` flags.
  */
  method VerifyResults(seqResult: seq<int>, parResult: seq<int>, vertexCount: nat) returns (ok: bool)
    requires forall i :: 0 <= i < |seqResult| ==> 0 <= seqResult[i] < vertexCount
    requires forall i :: 0 <= i < |parResult| ==> 0 <= parResult[i] < vertexCount
    ensures ok <==> |seqResult| == |parResult| && (forall v :: v in seqResult <==> v in parResult)
  {
    if |seqResult| != |parResult| {
      return false;
    }
    var seqVisited := new bool[vertexCount](_ => false);
    var parVisited := new bool[vertexCount](_ => false);
    for i := 0 to |seqResult|
      modifies seqVisited
      invariant forall v :: 0 <= v < vertexCount ==> (seqVisited[v] <==> v in seqResult[..i])
    {
      assert seqResult[..i + 1] == seqResult[..i] + [seqResult[i]];
      seqVisited[seqResult[i]] := true;
    }
    for i := 0 to |parResult|
      modifies parVisited
      invariant forall v :: 0 <= v < vertexCount ==> (seqVisited[v] <==> v in seqResult)
      invariant forall v :: 0 <= v < vertexCount ==> (parVisited[v] <==> v in parResult[..i])
    {
      assert parResult[..i + 1] == parResult[..i] + [parResult[i]];
      parVisited[parResult[i]] := true;
    }
    assert seqResult[..|seqResult|] == seqResult;
    assert parResult[..|parResult|] == parResult;
    for i := 0 to vertexCount
      invariant forall v :: 0 <= v < i ==> (v in seqResult <==> v in parResult)
    {
      if seqVisited[i] != parVisited[i] {
        return false;
      }
    }
    return true;
  }

  /**
    The cross-check of the two traversals from the same start vertex:
    on every well-formed graph the comparison succeeds.
  */
  method BfsCrossCheck(adj: seq<seq<int>>, start: int) returns (ok: bool)
    requires WellFormed(adj) && 0 <= start < |adj|
    ensures ok
  {
    var seqResult := BfsSeq(adj, start);
    var parResult := BfsPar(adj, start);
    SameVisitedSet(adj, start, seqResult, parResult);
    forall i | 0 <= i < |seqResult|
      ensures 0 <= seqResult[i] < |adj|
    {
      assert seqResult[i] in seqResult;
    }
    forall i | 0 <= i < |parResult|
      ensures 0 <= parResult[i] < |adj|
    {
      assert parResult[i] in parResult;
    }
    ok := VerifyResults(seqResult, parResult, |adj|);
  }

  /** Any two traversals from the same start hold the same vertices and have the same length. */
  lemma SameVisitedSet(adj: seq<seq<int>>, start: int, a: seq<int>, b: seq<int>)
    requires IsTraversal(adj, start, a) && IsTraversal(adj, start, b)
    ensures |a| == |b| && (forall v :: v in a <==> v in b)
    ensures forall v :: v in a ==> 0 <= v < |adj|
  {
    SameElementsSameLength(a, b);
  }
}
