/** The parallel fan-out of one scan cycle. The thread pool runs the per-index
    walks of the top-level children in partitions whose completion order is not
    fixed; whatever order the per-index results are combined in, the same
    scripts are collected, each as often. */
module FanOut {
  import opened Entities
  import opened ScriptLocator

  /** Every entry of `order` is a valid top-level index of `world`. */
  predicate Indices(world: TreeItem, order: seq<nat>) {
    forall k :: 0 <= k < |order| ==> order[k] < |world.children|
  }

  /** The per-index walks, combined in the order the indices are listed in `order`. */
  function ScanInOrder(world: TreeItem, order: seq<nat>): seq<Component>
    requires Indices(world, order)
    decreases |order|
  {
    if order == [] then []
    else ScanInOrder(world, order[..|order| - 1]) + Locate(world.children[order[|order| - 1]])
  }

  /** The index range `[0, n)` in increasing order, as the pool is given it. */
  function Range(n: nat): (r: seq<nat>)
    ensures |r| == n && forall k :: 0 <= k < n ==> r[k] == k
  {
    seq(n, k => k)
  }

  /** Combining the results in increasing index order is the sequential scan. */
  lemma {:induction false} InIndexOrder(world: TreeItem, n: nat)
    requires n <= |world.children|
    ensures ScanInOrder(world, Range(n)) == LocateChildren(world, n)
  {
    if n > 0 {
      assert Range(n)[..n - 1] == Range(n - 1);
      InIndexOrder(world, n - 1);
    }
  }

  /** Combining two runs of indices one after the other concatenates their results. */
  lemma {:induction false} ScanInOrderAppend(world: TreeItem, a: seq<nat>, b: seq<nat>)
    requires Indices(world, a) && Indices(world, b)
    ensures Indices(world, a + b)
    ensures ScanInOrder(world, a + b) == ScanInOrder(world, a) + ScanInOrder(world, b)
    decreases |b|
  {
    assert Indices(world, a + b) by {
      forall k | 0 <= k < |a + b| ensures (a + b)[k] < |world.children| {
        if k >= |a| { assert (a + b)[k] == b[k - |a|]; }
      }
    }
    if b == [] {
      assert a + b == a;
    } else {
      var b', y := b[..|b| - 1], b[|b| - 1];
      assert (a + b)[..|a + b| - 1] == a + b';
      assert (a + b)[|a + b| - 1] == y;
      ScanInOrderAppend(world, a, b');
    }
  }

  /** Two listings of the same indices, each as often, collect the same
      multiset of scripts. */
  lemma {:induction false} OrderIrrelevant(world: TreeItem, o1: seq<nat>, o2: seq<nat>)
    requires Indices(world, o1) && Indices(world, o2)
    requires multiset(o1) == multiset(o2)
    ensures multiset(ScanInOrder(world, o1)) == multiset(ScanInOrder(world, o2))
    decreases |o1|
  {
    if o1 == [] {
      assert |o2| == |multiset(o2)| == 0;
    } else {
      var init, x := o1[..|o1| - 1], o1[|o1| - 1];
      assert o1 == init + [x];
      assert x in o2 by {
        assert x in multiset(o1);
      }
      var j :| 0 <= j < |o2| && o2[j] == x;
      var a, b := o2[..j], o2[j + 1..];
      assert o2 == a + [x] + b;
      CancelOne(init, x, a, b);
      SplitAt(world, a, x, b);
      OrderIrrelevant(world, init, a + b);
      Rearrange(ScanInOrder(world, init), ScanInOrder(world, a), ScanInOrder(world, b),
                Locate(world.children[x]));
    }
  }

  /** Moving a block within a sequence keeps its multiset. */
  lemma Rearrange<T>(s: seq<T>, p: seq<T>, q: seq<T>, l: seq<T>)
    requires multiset(s) == multiset(p + q)
    ensures multiset(s + l) == multiset(p + l + q)
  {
    calc {
      multiset(s + l);
      multiset(s) + multiset(l);
      multiset(p) + multiset(q) + multiset(l);
      multiset(p + l + q);
    }
  }

  /** Taking the same element out of two equal multisets leaves equal multisets. */
  lemma CancelOne<T>(init: seq<T>, x: T, a: seq<T>, b: seq<T>)
    requires multiset(init + [x]) == multiset(a + [x] + b)
    ensures multiset(init) == multiset(a + b)
  {
    var m1, m2 := multiset(init), multiset(a + b);
    assert multiset(init + [x]) == m1 + multiset{x};
    assert multiset(a + [x] + b) == multiset(a) + multiset{x} + multiset(b);
    assert m2 == multiset(a) + multiset(b);
    assert m1 + multiset{x} == m2 + multiset{x};
    assert forall y :: m1[y] == (m1 + multiset{x})[y] - multiset{x}[y];
    assert forall y :: m2[y] == (m2 + multiset{x})[y] - multiset{x}[y];
  }

  /** The result of one index listed between two runs is the results of the
      runs with that index's walk in between. */
  lemma SplitAt(world: TreeItem, a: seq<nat>, x: nat, b: seq<nat>)
    requires Indices(world, a + [x] + b)
    ensures Indices(world, a) && Indices(world, b) && Indices(world, a + b) && x < |world.children|
    ensures ScanInOrder(world, a + [x] + b) ==
            ScanInOrder(world, a) + Locate(world.children[x]) + ScanInOrder(world, b)
    ensures ScanInOrder(world, a + b) == ScanInOrder(world, a) + ScanInOrder(world, b)
  {
    var o := a + [x] + b;
    assert forall k :: 0 <= k < |a| ==> a[k] == o[k];
    assert forall k :: 0 <= k < |b| ==> b[k] == o[|a| + 1 + k];
    assert o[|a|] == x;
    ScanInOrderAppend(world, a, [x]);
    ScanInOrderAppend(world, a + [x], b);
    ScanInOrderAppend(world, a, b);
    assert [x][..0] == [];
  }

  /** However the pool orders the per-index results, as long as each index of
      `[0, N)` is walked exactly once, the cycle collects the same multiset of
      scripts as the sequential scan in index order. */
  lemma AnyPartitionOrder(world: TreeItem, order: seq<nat>)
    requires multiset(order) == multiset(Range(|world.children|))
    ensures Indices(world, order)
    ensures multiset(ScanInOrder(world, order)) == multiset(Scan(world))
  {
    var n := |world.children|;
    forall k | 0 <= k < |order| ensures order[k] < n {
      assert order[k] in multiset(Range(n));
    }
    InIndexOrder(world, n);
    OrderIrrelevant(world, order, Range(n));
  }
}
