/**
  The index set 0 .. n-1, shared by the vertex numbering of the graphs and
  the element positions of the sort.
*/
module Indices {

  /** The indices 0 .. n-1. */
  function IndexSet(n: nat): (r: set<int>)
    ensures forall x :: x in r <==> 0 <= x < n
  {
    if n == 0 then {} else IndexSet(n - 1) + {n - 1}
  }

  lemma {:induction false} IndexSetCard(n: nat)
    ensures |IndexSet(n)| == n
  {
    if n > 0 {
      var r := IndexSet(n - 1);
      IndexSetCard(n - 1);
      assert n - 1 !in r;
      assert IndexSet(n) == r + {n - 1};
    }
  }
}
