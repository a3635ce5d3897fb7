/** Stacking order: the painter sorts windows stably by their stacking layer, while every
    occlusion question asks "is o above me". The two must agree. */
module Stacking {

  /** o goes over me: its layer is higher, or equal and it is listed later. */
  predicate Above(layers: seq<int>, o: nat, me: nat)
    requires o < |layers| && me < |layers|
  {
    o != me && (layers[o] > layers[me] || (layers[o] == layers[me] && o > me))
  }

  /** Every index of 0..n occurs exactly once in order. */
  ghost predicate Permutation(n: nat, order: seq<nat>) {
    && |order| == n
    && (forall k :: 0 <= k < n ==> order[k] < n)
    && (forall a, b :: 0 <= a < b < n ==> order[a] != order[b])
    && (forall i :: 0 <= i < n ==> i in order)
  }

  /** What a stable sort of 0..n by layer returns. */
  ghost predicate SortedUpTo(layers: seq<int>, n: nat, order: seq<nat>)
    requires n <= |layers|
  {
    && Permutation(n, order)
    && (forall a, b :: 0 <= a < b < |order| ==> InOrder(layers, order[a], order[b]))
  }

  predicate InOrder(layers: seq<int>, i: nat, j: nat)
    requires i < |layers| && j < |layers|
  {
    layers[i] <= layers[j] && (layers[i] == layers[j] ==> i < j)
  }

  ghost predicate StablySorted(layers: seq<int>, order: seq<nat>) {
    SortedUpTo(layers, |layers|, order)
  }

  /** Bottom to top: everything later in order is above everything earlier. */
  ghost predicate BottomToTop(layers: seq<int>, order: seq<nat>) {
    && |order| == |layers|
    && (forall k :: 0 <= k < |order| ==> order[k] < |layers|)
    && (forall i :: 0 <= i < |layers| ==> i in order)
    && (forall a, b :: 0 <= a < b < |order| ==> Above(layers, order[b], order[a]))
  }

  /** A stable sort by layer is exactly a bottom-to-top listing. */
  lemma StableSortIsStacking(layers: seq<int>, order: seq<nat>)
    ensures StablySorted(layers, order) <==> BottomToTop(layers, order)
  {
    if StablySorted(layers, order) {
      forall a, b | 0 <= a < b < |order| ensures Above(layers, order[b], order[a]) {
        assert InOrder(layers, order[a], order[b]);
      }
    }
    if BottomToTop(layers, order) {
      forall a, b | 0 <= a < b < |order|
        ensures order[a] != order[b] && InOrder(layers, order[a], order[b])
      {
        assert Above(layers, order[b], order[a]);
      }
    }
  }

  /** The number of the first entries of order whose layer is at most v. */
  method InsertionPoint(layers: seq<int>, order: seq<nat>, v: int) returns (at: nat)
    requires forall k :: 0 <= k < |order| ==> order[k] < |layers|
    requires forall a, b :: 0 <= a < b < |order| ==> layers[order[a]] <= layers[order[b]]
    ensures at <= |order|
    ensures forall k :: 0 <= k < at ==> layers[order[k]] <= v
    ensures forall k :: at <= k < |order| ==> layers[order[k]] > v
  {
    at := |order|;
    while at > 0 && layers[order[at - 1]] > v
      invariant at <= |order|
      invariant forall k :: at <= k < |order| ==> layers[order[k]] > v
    {
      at := at - 1;
    }
  }

  /** The library's stable sort of the window indices by layer. */
  method StableSortByLayer(layers: seq<int>) returns (order: seq<nat>)
    ensures StablySorted(layers, order)
    ensures BottomToTop(layers, order)
    ensures forall a, b :: 0 <= a < b < |order| ==>
              && layers[order[a]] <= layers[order[b]]
              && (layers[order[a]] == layers[order[b]] ==> order[a] < order[b])
  {
    order := [];
    var n := 0;
    while n < |layers|
      invariant n <= |layers|
      invariant SortedUpTo(layers, n, order)
    {
      forall a, b | 0 <= a < b < |order| ensures layers[order[a]] <= layers[order[b]] {
        assert InOrder(layers, order[a], order[b]);
      }
      var at := InsertionPoint(layers, order, layers[n]);
      InsertKeepsSorted(layers, n, order, at);
      order := order[..at] + [n] + order[at..];
      n := n + 1;
    }
    StableSortIsStacking(layers, order);
    forall a, b | 0 <= a < b < |order|
      ensures layers[order[a]] <= layers[order[b]] && (layers[order[a]] == layers[order[b]] ==> order[a] < order[b])
    {
      assert InOrder(layers, order[a], order[b]);
    }
  }

  lemma InsertKeepsSorted(layers: seq<int>, n: nat, order: seq<nat>, at: nat)
    requires n < |layers| && at <= |order|
    requires SortedUpTo(layers, n, order)
    requires forall k :: 0 <= k < at ==> layers[order[k]] <= layers[n]
    requires forall k :: at <= k < |order| ==> layers[order[k]] > layers[n]
    ensures SortedUpTo(layers, n + 1, order[..at] + [n] + order[at..])
  {
    var next := order[..at] + [n] + order[at..];
    forall i | 0 <= i < n + 1 ensures i in next {
      InsertedHas(order, n, at, i);
    }
    forall k | 0 <= k < n + 1 ensures next[k] < n + 1 {
      assert next[k] == if k < at then order[k] else if k == at then n else order[k - 1];
    }
    forall a, b | 0 <= a < b < |next| ensures next[a] != next[b] && InOrder(layers, next[a], next[b]) {
      InsertedPair(layers, n, order, at, a, b);
    }
  }

  lemma InsertedHas(order: seq<nat>, n: nat, at: nat, i: nat)
    requires at <= |order| && (i in order || i == n)
    ensures i in order[..at] + [n] + order[at..]
  {
    var next := order[..at] + [n] + order[at..];
    if i in order {
      var k :| 0 <= k < |order| && order[k] == i;
      assert next[if k < at then k else k + 1] == i;
    } else {
      assert next[at] == n;
    }
  }

  /** Any two entries after the insertion of n are in order. */
  lemma InsertedPair(layers: seq<int>, n: nat, order: seq<nat>, at: nat, a: nat, b: nat)
    requires n < |layers| && at <= |order|
    requires SortedUpTo(layers, n, order)
    requires forall k :: 0 <= k < at ==> layers[order[k]] <= layers[n]
    requires forall k :: at <= k < |order| ==> layers[order[k]] > layers[n]
    requires a < b <= |order|
    ensures var next := order[..at] + [n] + order[at..];
            next[a] < |layers| && next[b] < |layers| && next[a] != next[b] && InOrder(layers, next[a], next[b])
  {
    var next := order[..at] + [n] + order[at..];
    var a', b' := if a < at then a else a - 1, if b < at then b else b - 1;
    if a != at && b != at {
      assert next[a] == order[a'] && next[b] == order[b'];
      assert InOrder(layers, order[a'], order[b']);
    } else if a == at {
      assert next[b] == order[b'] && layers[order[b']] > layers[n];
    } else {
      assert next[a] == order[a'] && layers[order[a']] <= layers[n];
    }
  }

  /** If two listings agree below position k, what one has there is not below the other's. */
  lemma NotBelow(layers: seq<int>, o1: seq<nat>, o2: seq<nat>, k: nat)
    requires BottomToTop(layers, o1) && BottomToTop(layers, o2)
    requires k < |layers| && o1[..k] == o2[..k]
    ensures o1[k] == o2[k] || Above(layers, o1[k], o2[k])
  {
    forall a | 0 <= a < k ensures o2[a] != o1[k] {
      assert o1[..k][a] == o2[..k][a];
      assert Above(layers, o1[k], o1[a]);
    }
    assert o1[k] in o2;
    var j :| 0 <= j < |o2| && o2[j] == o1[k];
    assert j == k || Above(layers, o2[j], o2[k]);
  }

  /** There is only one bottom-to-top listing, so "the stacking order" is well defined. */
  lemma {:induction false} StackingIsUnique(layers: seq<int>, o1: seq<nat>, o2: seq<nat>, k: nat)
    requires BottomToTop(layers, o1) && BottomToTop(layers, o2) && k <= |layers|
    ensures o1[..k] == o2[..k]
  {
    if k > 0 {
      StackingIsUnique(layers, o1, o2, k - 1);
      NotBelow(layers, o1, o2, k - 1);
      NotBelow(layers, o2, o1, k - 1);
      assert o1[..k] == o1[..k - 1] + [o1[k - 1]];
      assert o2[..k] == o2[..k - 1] + [o2[k - 1]];
    }
  }
}
