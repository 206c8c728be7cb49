/**
  Histogram (counting) sort of integers known to lie in [minVal, maxVal]:
  count each value, turn the counts into cumulative counts in place, then
  place every element at one below its value's cursor while moving the
  cursor down. The sequential variant places elements from the last to the
  first; the parallel variant places them in any order.
*/
module HistogramSort {
  import opened Indices

  /** Every element lies in [lo, hi]. */
  predicate InRange(s: seq<int>, lo: int, hi: int) {
    forall i :: 0 <= i < |s| ==> lo <= s[i] <= hi
  }

  /** Non-decreasing order, stated over all pairs. */
  predicate Sorted(s: seq<int>) {
    forall i, j :: 0 <= i < j < |s| ==> s[i] <= s[j]
  }

  /** The number of elements of `s` that are smaller than `v`. */
  function CountBelow(s: seq<int>, v: int): (c: nat)
    ensures c <= |s|
  {
    if s == [] then 0 else CountBelow(s[..|s| - 1], v) + (if s[|s| - 1] < v then 1 else 0)
  }

  function Sum(s: seq<int>): int {
    if s == [] then 0 else Sum(s[..|s| - 1]) + s[|s| - 1]
  }

  /** The indices in `rem` whose element equals `v`. */
  ghost function Pending(s: seq<int>, rem: set<int>, v: int): set<int> {
    set j | j in rem && 0 <= j < |s| && s[j] == v
  }

  // ------------------------------------------------ counting below a value

  /** Raising the bound by one adds the occurrences of that value. */
  lemma {:induction false} CountBelowStep(s: seq<int>, v: int)
    ensures CountBelow(s, v + 1) == CountBelow(s, v) + multiset(s)[v]
  {
    if s != [] {
      var t := s[..|s| - 1];
      CountBelowStep(t, v);
      assert s == t + [s[|s| - 1]];
    }
  }

  lemma {:induction false} CountBelowMonotone(s: seq<int>, v: int, w: int)
    requires v <= w
    ensures CountBelow(s, v) <= CountBelow(s, w)
  {
    if s != [] {
      CountBelowMonotone(s[..|s| - 1], v, w);
    }
  }

  lemma {:induction false} CountBelowMin(s: seq<int>, lo: int)
    requires forall i :: 0 <= i < |s| ==> lo <= s[i]
    ensures CountBelow(s, lo) == 0
  {
    if s != [] {
      CountBelowMin(s[..|s| - 1], lo);
    }
  }

  lemma {:induction false} CountBelowMax(s: seq<int>, hi: int)
    requires forall i :: 0 <= i < |s| ==> s[i] <= hi
    ensures CountBelow(s, hi + 1) == |s|
  {
    if s != [] {
      CountBelowMax(s[..|s| - 1], hi);
    }
  }

  /** Each index appears once per occurrence of its value. */
  lemma {:induction false} PendingAllIsCount(s: seq<int>, v: int)
    ensures |Pending(s, IndexSet(|s|), v)| == multiset(s)[v]
  {
    if s != [] {
      var t, last := s[..|s| - 1], s[|s| - 1];
      PendingAllIsCount(t, v);
      PendingExtend(s, v);
      assert s == t + [last];
      assert multiset(s)[v] == multiset(t)[v] + (if last == v then 1 else 0);
    }
  }

  /** The indices of `v` in a sequence are those of its prefix, plus the last index if it holds `v`. */
  lemma PendingExtend(s: seq<int>, v: int)
    requires s != []
    ensures Pending(s, IndexSet(|s|), v) ==
            Pending(s[..|s| - 1], IndexSet(|s| - 1), v) + (if s[|s| - 1] == v then {|s| - 1} else {})
  {
    var t := s[..|s| - 1];
    forall j
      ensures j in Pending(s, IndexSet(|s|), v) <==> j in Pending(t, IndexSet(|t|), v) || (s[|s| - 1] == v && j == |t|)
    {
      if 0 <= j < |t| {
        assert s[j] == t[j];
      }
    }
  }

  // ------------------------------------------------------------- buckets

  /**
    After the prefix sum, the elements equal to `v` own the output slots
    CountBelow(v) .. CountBelow(v + 1) - 1, the bucket of `v`.
  */
  ghost predicate InBucket(s: seq<int>, v: int, p: int) {
    CountBelow(s, v) <= p < CountBelow(s, v + 1)
  }

  /** Distinct values own disjoint buckets. */
  lemma BucketsDisjoint(s: seq<int>, v: int, w: int, p: int)
    requires InBucket(s, v, p) && InBucket(s, w, p)
    ensures v == w
  {
    if v < w {
      CountBelowMonotone(s, v + 1, w);
    } else if w < v {
      CountBelowMonotone(s, w + 1, v);
    }
  }

  /** Every slot between the bucket of `lo` and that of `hi` belongs to one of them or one in between. */
  lemma {:induction false} BucketOf(s: seq<int>, lo: int, hi: int, p: int)
    requires lo <= hi
    requires CountBelow(s, lo) <= p < CountBelow(s, hi + 1)
    ensures exists v :: lo <= v <= hi && InBucket(s, v, p)
    decreases hi - lo
  {
    if p >= CountBelow(s, hi) {
      assert InBucket(s, hi, p);
    } else {
      BucketOf(s, lo, hi - 1, p);
    }
  }

  /** Every output slot holds a value whose bucket contains the slot. */
  ghost predicate Bucketed(input: seq<int>, out: seq<int>) {
    && |out| == |input|
    && forall p :: 0 <= p < |out| ==> InBucket(input, out[p], p)
  }

  /** A placement whose every filled bucket holds its own value is bucketed. */
  lemma FilledIsBucketed(input: seq<int>, minVal: int, maxVal: int, out: seq<int>)
    requires minVal <= maxVal + 1 && InRange(input, minVal, maxVal) && |out| == |input|
    requires forall v, p :: minVal <= v <= maxVal && 0 <= p < |out| && InBucket(input, v, p) ==> out[p] == v
    ensures Bucketed(input, out)
  {
    CountBelowMin(input, minVal);
    CountBelowMax(input, maxVal);
    forall p | 0 <= p < |out|
      ensures InBucket(input, out[p], p)
    {
      BucketOf(input, minVal, maxVal, p);
    }
  }

  lemma BucketedSorted(input: seq<int>, out: seq<int>)
    requires Bucketed(input, out)
    ensures Sorted(out)
  {
    forall i, j | 0 <= i < j < |out|
      ensures out[i] <= out[j]
    {
      if out[j] < out[i] {
        CountBelowMonotone(input, out[j] + 1, out[i]);
      }
    }
  }

  /** When exactly the slots lo .. hi-1 hold `v`, `v` occurs hi - lo times. */
  lemma {:induction false} CountPositions(s: seq<int>, v: int, lo: int, hi: int)
    requires 0 <= lo <= hi <= |s|
    requires forall p :: 0 <= p < |s| ==> (s[p] == v <==> lo <= p < hi)
    ensures multiset(s)[v] == hi - lo
  {
    if s != [] {
      var t := s[..|s| - 1];
      var h := if hi == |s| then |s| - 1 else hi;
      var l := if lo > h then h else lo;
      CountPositions(t, v, l, h);
      assert s == t + [s[|s| - 1]];
    }
  }

  lemma BucketedPermutation(input: seq<int>, out: seq<int>)
    requires Bucketed(input, out)
    ensures multiset(out) == multiset(input)
  {
    forall v
      ensures multiset(out)[v] == multiset(input)[v]
    {
      var lo, hi := CountBelow(input, v), CountBelow(input, v + 1);
      CountBelowMonotone(input, v, v + 1);
      forall p | 0 <= p < |out|
        ensures out[p] == v <==> lo <= p < hi
      {
        if lo <= p < hi {
          BucketsDisjoint(input, out[p], v, p);
        }
      }
      CountPositions(out, v, lo, hi);
      CountBelowStep(input, v);
    }
  }

  /** The placement is determined by the input: two bucketed outputs agree. */
  lemma BucketedUnique(input: seq<int>, a: seq<int>, b: seq<int>)
    requires Bucketed(input, a) && Bucketed(input, b)
    ensures a == b
  {
    forall p | 0 <= p < |a|
      ensures a[p] == b[p]
    {
      BucketsDisjoint(input, a[p], b[p], p);
    }
  }

  // ---------------------------------------------------------------- rank

  /**
    The slot the backwards placement gives element `j`: the start of its
    value's bucket plus the number of equal elements before it.
  */
  ghost function Rank(input: seq<int>, j: int): int
    requires 0 <= j < |input|
  {
    CountBelow(input, input[j]) + multiset(input[..j])[input[j]]
  }

  lemma RankInBucket(input: seq<int>, j: int)
    requires 0 <= j < |input|
    ensures InBucket(input, input[j], Rank(input, j))
  {
    var v := input[j];
    assert input == input[..j] + [v] + input[j + 1..];
    CountBelowStep(input, v);
  }

  /** The backwards placement is stable and gives every element its own slot. */
  lemma RankIsStableBijection(input: seq<int>, i: int, j: int)
    requires 0 <= i < j < |input|
    ensures 0 <= Rank(input, i) < |input|
    ensures Rank(input, i) != Rank(input, j)
    ensures input[i] == input[j] ==> Rank(input, i) < Rank(input, j)
  {
    RankInBucket(input, i);
    RankInBucket(input, j);
    if input[i] == input[j] {
      assert input[..j] == input[..i] + [input[i]] + input[i + 1..j];
    } else if Rank(input, i) == Rank(input, j) {
      BucketsDisjoint(input, input[i], input[j], Rank(input, i));
    }
  }

  // -------------------------------------------------------------- phases

  /** Counting phase: `hist[k]` becomes the number of elements equal to minVal + k. */
  method BuildHistogram(input: seq<int>, minVal: int, hist: array<int>)
    requires InRange(input, minVal, minVal + hist.Length - 1)
    requires forall k :: 0 <= k < hist.Length ==> hist[k] == 0
    modifies hist
    ensures forall k :: 0 <= k < hist.Length ==> hist[k] == multiset(input)[minVal + k]
  {
    for i := 0 to |input|
      invariant forall k :: 0 <= k < hist.Length ==> hist[k] == multiset(input[..i])[minVal + k]
    {
      assert input[..i + 1] == input[..i] + [input[i]];
      var b := input[i] - minVal;
      hist[b] := hist[b] + 1;
    }
    assert input[..|input|] == input;
  }

  /** In-place prefix sum: `hist[k]` becomes the sum of the old entries 0 .. k. */
  method PrefixSum(hist: array<int>)
    modifies hist
    ensures forall k :: 0 <= k < hist.Length ==> hist[k] == Sum(old(hist[..])[..k + 1])
  {
    ghost var h0 := hist[..];
    if hist.Length > 0 {
      assert h0[..1] == [h0[0]];
      assert h0[..1][..0] == [];
    }
    var i := 1;
    while i < hist.Length
      invariant 1 <= i && (hist.Length == 0 || i <= hist.Length)
      invariant forall k :: 0 <= k < i && k < hist.Length ==> hist[k] == Sum(h0[..k + 1])
      invariant forall k :: i <= k < hist.Length ==> hist[k] == h0[k]
    {
      assert h0[..i + 1][..i] == h0[..i];
      hist[i] := hist[i] + hist[i - 1];
      i := i + 1;
    }
  }

  /**
    The cumulative count of the histogram up to bucket `k` is the number of
    elements at most minVal + k.
  */
  lemma {:induction false} PrefixOfHistogram(input: seq<int>, minVal: int, h: seq<int>, k: nat)
    requires k < |h|
    requires forall i :: 0 <= i < |input| ==> minVal <= input[i]
    requires forall j :: 0 <= j < |h| ==> h[j] == multiset(input)[minVal + j]
    ensures Sum(h[..k + 1]) == CountBelow(input, minVal + k + 1)
  {
    assert h[..k + 1][..k] == h[..k];
    CountBelowStep(input, minVal + k);
    if k == 0 {
      CountBelowMin(input, minVal);
      assert h[..0] == [];
    } else {
      PrefixOfHistogram(input, minVal, h, k - 1);
    }
  }

  /** The histogram entries add up to the input length: the last cumulative count is n. */
  lemma HistogramTotal(input: seq<int>, minVal: int, h: seq<int>)
    requires InRange(input, minVal, minVal + |h| - 1)
    requires forall j :: 0 <= j < |h| ==> h[j] == multiset(input)[minVal + j]
    ensures Sum(h) == |input|
  {
    if |h| == 0 {
      // no value fits an empty range, so the input is empty
      CountBelowMin(input, minVal);
      CountBelowMax(input, minVal - 1);
    } else {
      PrefixOfHistogram(input, minVal, h, |h| - 1);
      assert h[..|h|] == h;
      CountBelowMax(input, minVal + |h| - 1);
    }
  }

  // ----------------------------------------------------------- placement

  /**
    During placement bucket `k`'s cursor `h[k]` has moved down from the end
    of its bucket, and every slot from the cursor to the end of the bucket
    already holds the bucket's value.
  */
  ghost predicate Filled(input: seq<int>, minVal: int, h: seq<int>, out: seq<int>) {
    && (forall k :: 0 <= k < |h| ==>
          CountBelow(input, minVal + k) <= h[k] <= CountBelow(input, minVal + k + 1))
    && (forall k, p :: 0 <= k < |h| && h[k] <= p < CountBelow(input, minVal + k + 1) && 0 <= p < |out| ==>
          out[p] == minVal + k)
  }

  /** Storing bucket `b`'s value one below its cursor, and moving the cursor there, keeps Filled. */
  lemma FilledStep(input: seq<int>, minVal: int, h: seq<int>, out: seq<int>, b: int, h': seq<int>, out': seq<int>)
    requires Filled(input, minVal, h, out) && 0 <= b < |h|
    requires CountBelow(input, minVal + b) < h[b] <= |out|
    requires h' == h[b := h[b] - 1] && out' == out[h[b] - 1 := minVal + b]
    ensures Filled(input, minVal, h', out')
  {
    var pos := h[b] - 1;
    forall k, p | 0 <= k < |h'| && h'[k] <= p < CountBelow(input, minVal + k + 1) && 0 <= p < |out'|
      ensures out'[p] == minVal + k
    {
      if p == pos && k != b {
        assert InBucket(input, minVal + b, pos);
        assert InBucket(input, minVal + k, p);
        BucketsDisjoint(input, minVal + k, minVal + b, p);
      }
    }
  }

  /** Once every cursor is back at the start of its bucket, the output is bucketed. */
  lemma FilledDone(input: seq<int>, minVal: int, h: seq<int>, out: seq<int>)
    requires InRange(input, minVal, minVal + |h| - 1) && |out| == |input|
    requires Filled(input, minVal, h, out)
    requires forall k :: 0 <= k < |h| ==> h[k] == CountBelow(input, minVal + k)
    ensures Bucketed(input, out)
  {
    forall v, p | minVal <= v <= minVal + |h| - 1 && 0 <= p < |out| && InBucket(input, v, p)
      ensures out[p] == v
    {
      assert h[v - minVal] == CountBelow(input, v);
    }
    FilledIsBucketed(input, minVal, minVal + |h| - 1, out);
  }

  /** Right after the prefix sum every cursor is at the end of its bucket. */
  lemma FilledStart(input: seq<int>, minVal: int, h: seq<int>, out: seq<int>)
    requires forall k :: 0 <= k < |h| ==> h[k] == CountBelow(input, minVal + k + 1)
    ensures Filled(input, minVal, h, out)
  {
    forall k | 0 <= k < |h|
      ensures CountBelow(input, minVal + k) <= h[k]
    {
      CountBelowMonotone(input, minVal + k, minVal + k + 1);
    }
  }

  /**
    The state of the backwards placement once elements i .. |input|-1 are
    placed: each cursor sits above its bucket's start by the number of
    equal elements still to place, and each placed element `j` went to
    slot Rank(input, j).
  */
  ghost predicate BackwardsState(input: seq<int>, minVal: int, h: seq<int>, out: seq<int>, slot: seq<int>, i: int) {
    && 0 <= i <= |input| && |slot| == |input| && |out| == |input|
    && InRange(input, minVal, minVal + |h| - 1)
    && (forall k :: 0 <= k < |h| ==>
          h[k] == CountBelow(input, minVal + k) + multiset(input[..i])[minVal + k])
    && Filled(input, minVal, h, out)
    && (forall j :: i <= j < |input| ==> slot[j] == Rank(input, j))
  }

  lemma BackwardsStart(input: seq<int>, minVal: int, h: seq<int>, out: seq<int>, slot: seq<int>)
    requires InRange(input, minVal, minVal + |h| - 1)
    requires |out| == |input| && |slot| == |input|
    requires forall k :: 0 <= k < |h| ==> h[k] == CountBelow(input, minVal + k + 1)
    ensures BackwardsState(input, minVal, h, out, slot, |input|)
  {
    forall k | 0 <= k < |h|
      ensures h[k] == CountBelow(input, minVal + k) + multiset(input)[minVal + k]
    {
      CountBelowStep(input, minVal + k);
    }
    FilledStart(input, minVal, h, out);
    assert input[..|input|] == input;
  }

  /** Taking element i-1 lowers the cursor of its value by one and leaves the others. */
  lemma BackwardsCursorStep(input: seq<int>, minVal: int, h: seq<int>, h': seq<int>, i: int)
    requires 0 < i <= |input| && 0 <= input[i - 1] - minVal < |h|
    requires forall k :: 0 <= k < |h| ==>
               h[k] == CountBelow(input, minVal + k) + multiset(input[..i])[minVal + k]
    requires h' == h[input[i - 1] - minVal := h[input[i - 1] - minVal] - 1]
    ensures forall k :: 0 <= k < |h'| ==>
              h'[k] == CountBelow(input, minVal + k) + multiset(input[..i - 1])[minVal + k]
  {
    assert input[..i] == input[..i - 1] + [input[i - 1]];
  }

  /** Placing element i-1 at one below its cursor, and moving the cursor there. */
  lemma BackwardsStep(input: seq<int>, minVal: int, h: seq<int>, out: seq<int>, slot: seq<int>, i: int)
    returns (h': seq<int>, out': seq<int>, slot': seq<int>)
    requires BackwardsState(input, minVal, h, out, slot, i) && i > 0
    ensures 0 <= input[i - 1] - minVal < |h|
    ensures 0 <= h[input[i - 1] - minVal] - 1 < |out|
    ensures h' == h[input[i - 1] - minVal := h[input[i - 1] - minVal] - 1]
    ensures out' == out[h[input[i - 1] - minVal] - 1 := input[i - 1]]
    ensures slot' == slot[i - 1 := h[input[i - 1] - minVal] - 1]
    ensures BackwardsState(input, minVal, h', out', slot', i - 1)
  {
    var v := input[i - 1];
    var b := v - minVal;
    assert input[..i] == input[..i - 1] + [v];
    h', out', slot' := h[b := h[b] - 1], out[h[b] - 1 := v], slot[i - 1 := h[b] - 1];
    FilledStep(input, minVal, h, out, b, h', out');
    BackwardsCursorStep(input, minVal, h, h', i);
    assert BackwardsState(input, minVal, h', out', slot', i - 1);
  }

  lemma BackwardsDone(input: seq<int>, minVal: int, h: seq<int>, out: seq<int>, slot: seq<int>)
    requires BackwardsState(input, minVal, h, out, slot, 0)
    ensures forall k :: 0 <= k < |h| ==> h[k] == CountBelow(input, minVal + k)
    ensures Bucketed(input, out)
    ensures forall j :: 0 <= j < |input| ==>
              slot[j] == Rank(input, j) && 0 <= slot[j] < |input| && out[slot[j]] == input[j]
  {
    assert input[..0] == [];
    FilledDone(input, minVal, h, out);
    forall j | 0 <= j < |input|
      ensures 0 <= slot[j] < |input| && out[slot[j]] == input[j]
    {
      RankInBucket(input, j);
      BucketsDisjoint(input, out[slot[j]], input[j], slot[j]);
    }
  }

  /**
    Moves cursor `b` down by one and returns the value it held: the
    pre-decrement of the sequential placement (which stores at the new
    value) and the atomic capture of the parallel one.
  */
  method FetchAndDecrement(hist: array<int>, b: int) returns (pos: int)
    requires 0 <= b < hist.Length
    modifies hist
    ensures pos == old(hist[b])
    ensures hist[..] == old(hist[..])[b := old(hist[..])[b] - 1]
  {
    pos := hist[b];
    hist[b] := pos - 1;
  }

  /**
    One iteration of the sequential placement: the cursor of element i-1
    is decremented and the element is stored at the new cursor value.
  */
  method PlaceLast(input: seq<int>, minVal: int, hist: array<int>, out: array<int>, i: int,
                   ghost slot: seq<int>)
    returns (ghost slot': seq<int>)
    requires hist != out && i > 0
    requires BackwardsState(input, minVal, hist[..], out[..], slot, i)
    modifies hist, out
    ensures BackwardsState(input, minVal, hist[..], out[..], slot', i - 1)
  {
    ghost var h', out';
    h', out', slot' := BackwardsStep(input, minVal, hist[..], out[..], slot, i);
    var pos := FetchAndDecrement(hist, input[i - 1] - minVal);
    ghost var out0 := out[..];
    out[pos - 1] := input[i - 1];
    assert out[..] == out0[pos - 1 := input[i - 1]];
    assert hist[..] == h' && out[..] == out';
  }

  /**
    Sequential placement, last element first: each element's cursor is
    decremented and the element is stored at the cursor. `slot[j]` records
    where element `j` went.
  */
  method PlaceBackwards(input: seq<int>, minVal: int, hist: array<int>, out: array<int>)
    returns (ghost slot: seq<int>)
    requires hist != out
    requires InRange(input, minVal, minVal + hist.Length - 1) && out.Length == |input|
    requires forall k :: 0 <= k < hist.Length ==> hist[k] == CountBelow(input, minVal + k + 1)
    modifies hist, out
    ensures forall k :: 0 <= k < hist.Length ==> hist[k] == CountBelow(input, minVal + k)
    ensures Bucketed(input, out[..])
    ensures |slot| == |input|
    ensures forall j :: 0 <= j < |input| ==>
              slot[j] == Rank(input, j) && 0 <= slot[j] < |input| && out[slot[j]] == input[j]
  {
    slot := seq(|input|, _ => 0);
    BackwardsStart(input, minVal, hist[..], out[..], slot);
    var i := |input|;
    while i > 0
      invariant BackwardsState(input, minVal, hist[..], out[..], slot, i)
    {
      slot := PlaceLast(input, minVal, hist, out, i, slot);
      i := i - 1;
    }
    BackwardsDone(input, minVal, hist[..], out[..], slot);
  }

  /** Removing index `j` from the unprocessed set lowers the pending count of its value only. */
  lemma PendingRemove(input: seq<int>, rem: set<int>, j: int, w: int)
    requires j in rem && 0 <= j < |input|
    ensures |Pending(input, rem - {j}, w)| == |Pending(input, rem, w)| - (if input[j] == w then 1 else 0)
  {
    if input[j] == w {
      assert Pending(input, rem, w) == Pending(input, rem - {j}, w) + {j};
    } else {
      assert Pending(input, rem, w) == Pending(input, rem - {j}, w);
    }
  }

  /** The pending elements of value `v` are at most all elements of value `v`. */
  lemma PendingBound(input: seq<int>, rem: set<int>, v: int)
    requires rem <= IndexSet(|input|)
    ensures |Pending(input, rem, v)| <= multiset(input)[v]
  {
    var all := Pending(input, IndexSet(|input|), v);
    assert all == Pending(input, rem, v) + (all - Pending(input, rem, v));
    PendingAllIsCount(input, v);
  }

  /**
    The slots handed out so far: each processed element sits in its value's
    bucket at or above that bucket's cursor, and no two share a slot.
  */
  ghost predicate SlotsClaimed(input: seq<int>, minVal: int, h: seq<int>, slot: seq<int>, rem: set<int>) {
    && |slot| == |input|
    && (forall j :: 0 <= j < |input| && j !in rem ==>
          0 <= input[j] - minVal < |h| && InBucket(input, input[j], slot[j]) && h[input[j] - minVal] <= slot[j])
    && (forall i, j :: 0 <= i < |input| && 0 <= j < |input| && i != j && i !in rem && j !in rem ==>
          slot[i] != slot[j])
  }

  /** Handing element `j` the slot one below its cursor keeps the claimed slots distinct. */
  lemma SlotsClaimedStep(input: seq<int>, minVal: int, h: seq<int>, slot: seq<int>, rem: set<int>, j: int)
    requires SlotsClaimed(input, minVal, h, slot, rem)
    requires j in rem && 0 <= j < |input| && 0 <= input[j] - minVal < |h|
    requires InBucket(input, input[j], h[input[j] - minVal] - 1)
    ensures SlotsClaimed(input, minVal, h[input[j] - minVal := h[input[j] - minVal] - 1],
                         slot[j := h[input[j] - minVal] - 1], rem - {j})
  {
    var b := input[j] - minVal;
    var pos := h[b] - 1;
    forall i | 0 <= i < |input| && i != j && i !in rem
      ensures slot[i] != pos
    {
      if input[i] != input[j] && slot[i] == pos {
        BucketsDisjoint(input, input[i], input[j], pos);
      }
    }
  }

  /**
    The state of the parallel placement while the indices in `rem` are
    still to be placed: each cursor sits above its bucket's start by the
    number of pending elements of its value, and the placed elements hold
    distinct slots.
  */
  ghost predicate AnyOrderState(input: seq<int>, minVal: int, h: seq<int>, out: seq<int>, slot: seq<int>, rem: set<int>) {
    && |out| == |input|
    && InRange(input, minVal, minVal + |h| - 1)
    && rem <= IndexSet(|input|)
    && (forall k :: 0 <= k < |h| ==>
          h[k] == CountBelow(input, minVal + k) + |Pending(input, rem, minVal + k)|)
    && Filled(input, minVal, h, out)
    && SlotsClaimed(input, minVal, h, slot, rem)
  }

  lemma AnyOrderStart(input: seq<int>, minVal: int, h: seq<int>, out: seq<int>, slot: seq<int>)
    requires InRange(input, minVal, minVal + |h| - 1)
    requires |out| == |input| && |slot| == |input|
    requires forall k :: 0 <= k < |h| ==> h[k] == CountBelow(input, minVal + k + 1)
    ensures AnyOrderState(input, minVal, h, out, slot, IndexSet(|input|))
  {
    forall k | 0 <= k < |h|
      ensures h[k] == CountBelow(input, minVal + k) + |Pending(input, IndexSet(|input|), minVal + k)|
    {
      CountBelowStep(input, minVal + k);
      PendingAllIsCount(input, minVal + k);
    }
    FilledStart(input, minVal, h, out);
  }

  /** Taking element `j` lowers the cursor of its value by one and leaves the others. */
  lemma AnyOrderCursorStep(input: seq<int>, minVal: int, h: seq<int>, h': seq<int>, rem: set<int>, j: int)
    requires j in rem && 0 <= j < |input| && 0 <= input[j] - minVal < |h|
    requires forall k :: 0 <= k < |h| ==>
               h[k] == CountBelow(input, minVal + k) + |Pending(input, rem, minVal + k)|
    requires h' == h[input[j] - minVal := h[input[j] - minVal] - 1]
    ensures forall k :: 0 <= k < |h'| ==>
              h'[k] == CountBelow(input, minVal + k) + |Pending(input, rem - {j}, minVal + k)|
  {
    forall k | 0 <= k < |h'|
      ensures h'[k] == CountBelow(input, minVal + k) + |Pending(input, rem - {j}, minVal + k)|
    {
      PendingRemove(input, rem, j, minVal + k);
    }
  }

  /** A pending element's cursor lies above the start of its bucket and within the output. */
  lemma AnyOrderBounds(input: seq<int>, minVal: int, h: seq<int>, out: seq<int>, slot: seq<int>, rem: set<int>, j: int)
    requires AnyOrderState(input, minVal, h, out, slot, rem) && j in rem
    ensures 0 <= j < |input| && 0 <= input[j] - minVal < |h|
    ensures CountBelow(input, input[j]) < h[input[j] - minVal] <= |out|
  {
    var v := input[j];
    assert j in Pending(input, rem, v);
    PendingBound(input, rem, v);
    CountBelowStep(input, v);
  }

  /** Element `j` atomically takes its cursor value `pos`, leaves pos - 1 behind and is stored at pos - 1. */
  lemma AnyOrderStep(input: seq<int>, minVal: int, h: seq<int>, out: seq<int>, slot: seq<int>, rem: set<int>, j: int)
    returns (h': seq<int>, out': seq<int>, slot': seq<int>)
    requires AnyOrderState(input, minVal, h, out, slot, rem) && j in rem
    ensures 0 <= j < |input| && 0 <= input[j] - minVal < |h|
    ensures 0 <= h[input[j] - minVal] - 1 < |out|
    ensures h' == h[input[j] - minVal := h[input[j] - minVal] - 1]
    ensures out' == out[h[input[j] - minVal] - 1 := input[j]]
    ensures slot' == slot[j := h[input[j] - minVal] - 1]
    ensures AnyOrderState(input, minVal, h', out', slot', rem - {j})
  {
    var v := input[j];
    var b := v - minVal;
    AnyOrderBounds(input, minVal, h, out, slot, rem, j);
    h', out', slot' := h[b := h[b] - 1], out[h[b] - 1 := v], slot[j := h[b] - 1];
    assert SlotsClaimed(input, minVal, h', slot', rem - {j}) by {
      SlotsClaimedStep(input, minVal, h, slot, rem, j);
    }
    assert Filled(input, minVal, h', out') by {
      FilledStep(input, minVal, h, out, b, h', out');
    }
    AnyOrderCursorStep(input, minVal, h, h', rem, j);
    assert AnyOrderState(input, minVal, h', out', slot', rem - {j});
  }

  lemma AnyOrderDone(input: seq<int>, minVal: int, h: seq<int>, out: seq<int>, slot: seq<int>)
    requires AnyOrderState(input, minVal, h, out, slot, {})
    ensures forall k :: 0 <= k < |h| ==> h[k] == CountBelow(input, minVal + k)
    ensures Bucketed(input, out)
    ensures |slot| == |input|
    ensures forall j :: 0 <= j < |input| ==> 0 <= slot[j] < |input| && out[slot[j]] == input[j]
    ensures forall i, j :: 0 <= i < j < |input| ==> slot[i] != slot[j]
  {
    forall k | 0 <= k < |h|
      ensures h[k] == CountBelow(input, minVal + k)
    {
      assert Pending(input, {}, minVal + k) == {};
    }
    FilledDone(input, minVal, h, out);
    forall j | 0 <= j < |input|
      ensures 0 <= slot[j] < |input| && out[slot[j]] == input[j]
    {
      BucketsDisjoint(input, out[slot[j]], input[j], slot[j]);
    }
  }

  /**
    One iteration of the parallel placement: element `j` atomically takes
    its cursor value and leaves it decremented, then is stored one below
    the value taken.
  */
  method ClaimSlot(input: seq<int>, minVal: int, hist: array<int>, out: array<int>, j: int,
                   ghost slot: seq<int>, ghost rem: set<int>)
    returns (ghost slot': seq<int>)
    requires hist != out && j in rem
    requires AnyOrderState(input, minVal, hist[..], out[..], slot, rem)
    modifies hist, out
    ensures AnyOrderState(input, minVal, hist[..], out[..], slot', rem - {j})
  {
    ghost var h', out';
    h', out', slot' := AnyOrderStep(input, minVal, hist[..], out[..], slot, rem, j);
    var pos := FetchAndDecrement(hist, input[j] - minVal);
    ghost var out0 := out[..];
    out[pos - 1] := input[j];
    assert out[..] == out0[pos - 1 := input[j]];
    assert hist[..] == h' && out[..] == out';
  }

  /**
    Parallel placement: each element, in whatever order the workers reach
    it, atomically takes its cursor value and decrements it, then stores
    itself one below the value taken. `slot[j]` records where element `j` went.
  */
  method PlaceAnyOrder(input: seq<int>, minVal: int, hist: array<int>, out: array<int>)
    returns (ghost slot: seq<int>)
    requires hist != out
    requires InRange(input, minVal, minVal + hist.Length - 1) && out.Length == |input|
    requires forall k :: 0 <= k < hist.Length ==> hist[k] == CountBelow(input, minVal + k + 1)
    modifies hist, out
    ensures forall k :: 0 <= k < hist.Length ==> hist[k] == CountBelow(input, minVal + k)
    ensures Bucketed(input, out[..])
    ensures |slot| == |input|
    ensures forall j :: 0 <= j < |input| ==> 0 <= slot[j] < |input| && out[slot[j]] == input[j]
    ensures forall i, j :: 0 <= i < j < |input| ==> slot[i] != slot[j]
  {
    var remaining := IndexSet(|input|);
    slot := seq(|input|, _ => 0);
    AnyOrderStart(input, minVal, hist[..], out[..], slot);
    while remaining != {}
      invariant AnyOrderState(input, minVal, hist[..], out[..], slot, remaining)
      decreases remaining
    {
      var j :| j in remaining;
      slot := ClaimSlot(input, minVal, hist, out, j, slot, remaining);
      remaining := remaining - {j};
    }
    AnyOrderDone(input, minVal, hist[..], out[..], slot);
  }

  // -------------------------------------------------------------- sorts

  /** The sequential histogram sort. */
  method HistogramSortSeq(input: seq<int>, minVal: int, maxVal: int) returns (output: seq<int>)
    requires minVal <= maxVal + 1 && InRange(input, minVal, maxVal)
    ensures |output| == |input| && Bucketed(input, output)
    ensures Sorted(output)
    ensures multiset(output) == multiset(input)
  {
    var range := maxVal - minVal + 1;
    var histogram := new int[range](_ => 0);
    var out := new int[|input|](_ => 0);
    BuildHistogram(input, minVal, histogram);
    ghost var counts := histogram[..];
    PrefixSum(histogram);
    forall k | 0 <= k < range
      ensures histogram[k] == CountBelow(input, minVal + k + 1)
    {
      PrefixOfHistogram(input, minVal, counts, k);
    }
    ghost var slot := PlaceBackwards(input, minVal, histogram, out);
    output := out[..];
    BucketedSorted(input, output);
    BucketedPermutation(input, output);
  }

  /**
    The parallel histogram sort: the counting phase gives the same counts in
    any order of increments and is modelled by the counting loop; the
    placement takes the elements in an arbitrary order.
  */
  method HistogramSortPar(input: seq<int>, minVal: int, maxVal: int) returns (output: seq<int>)
    requires minVal <= maxVal + 1 && InRange(input, minVal, maxVal)
    ensures |output| == |input| && Bucketed(input, output)
    ensures Sorted(output)
    ensures multiset(output) == multiset(input)
  {
    var range := maxVal - minVal + 1;
    var histogram := new int[range](_ => 0);
    var out := new int[|input|](_ => 0);
    BuildHistogram(input, minVal, histogram);
    ghost var counts := histogram[..];
    PrefixSum(histogram);
    forall k | 0 <= k < range
      ensures histogram[k] == CountBelow(input, minVal + k + 1)
    {
      PrefixOfHistogram(input, minVal, counts, k);
    }
    ghost var slot := PlaceAnyOrder(input, minVal, histogram, out);
    output := out[..];
    BucketedSorted(input, output);
    BucketedPermutation(input, output);
  }

  /**
    Both sorts on the same input: whatever order the parallel placement
    takes, it yields the sequential result.
  */
  method SortsAgree(input: seq<int>, minVal: int, maxVal: int) returns (seqOutput: seq<int>, parOutput: seq<int>)
    requires minVal <= maxVal + 1 && InRange(input, minVal, maxVal)
    ensures seqOutput == parOutput
  {
    seqOutput := HistogramSortSeq(input, minVal, maxVal);
    parOutput := HistogramSortPar(input, minVal, maxVal);
    BucketedUnique(input, seqOutput, parOutput);
  }

  // ------------------------------------------------------------ checking

  /** Scans adjacent pairs and reports whether none is out of order. */
  method IsSorted(data: seq<int>) returns (b: bool)
    ensures b <==> Sorted(data)
  {
    var i := 1;
    while i < |data|
      invariant 1 <= i && (|data| == 0 || i <= |data|)
      invariant forall k :: 1 <= k < i && k < |data| ==> data[k - 1] <= data[k]
    {
      if data[i - 1] > data[i] {
        return false;
      }
      i := i + 1;
    }
    AdjacentSorted(data);
    return true;
  }

  /** Adjacent pairs in order put every pair in order. */
  lemma {:induction false} AdjacentSorted(s: seq<int>)
    requires forall k :: 1 <= k < |s| ==> s[k - 1] <= s[k]
    ensures Sorted(s)
  {
    if |s| > 1 {
      var t := s[..|s| - 1];
      AdjacentSorted(t);
      forall i | 0 <= i < |s| - 1
        ensures s[i] <= s[|s| - 1]
      {
        assert t[i] <= t[|t| - 1] || i == |t| - 1;
      }
    }
  }
}
