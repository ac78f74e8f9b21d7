/** The script-location rule of the dynamic tick controller: which script
    components one cycle collects from the active world's tree, and in what order. */
module ScriptLocator {
  import opened Entities

  /** The components of one active entity that the locator keeps, in
      component order: a filter, so never more than the entity has. */
  function Eligible(cs: seq<Component>): (r: seq<Component>)
    ensures |r| <= |cs|
    decreases |cs|
  {
    if cs == [] then []
    else
      var last := cs[|cs| - 1];
      Eligible(cs[..|cs| - 1]) + (if Collectable(last) then [last] else [])
  }

  /** Extending the scanned components by one keeps the next one iff it is collectable. */
  lemma EligibleStep(cs: seq<Component>, k: nat)
    requires k < |cs|
    ensures Eligible(cs[..k + 1]) == Eligible(cs[..k]) + if Collectable(cs[k]) then [cs[k]] else []
  {
    assert cs[..k + 1][..k] == cs[..k];
  }

  /** A component of an active entity is kept iff it is an active script, and
      nothing is kept more often than it occurs. */
  lemma {:induction false} EligibleExactly(cs: seq<Component>)
    ensures forall c :: c in Eligible(cs) <==> c in cs && Collectable(c)
    ensures multiset(Eligible(cs)) <= multiset(cs)
    decreases |cs|
  {
    if cs != [] {
      var init, last := cs[..|cs| - 1], cs[|cs| - 1];
      assert cs == init + [last];
      EligibleExactly(init);
    }
  }

  /** Each collectable occurrence is kept exactly as often as it occurs, and
      nothing else is kept. */
  lemma {:induction false} EligibleCount(cs: seq<Component>, c: Component)
    ensures multiset(Eligible(cs))[c] == if Collectable(c) then multiset(cs)[c] else 0
    decreases |cs|
  {
    if cs != [] {
      var init, last := cs[..|cs| - 1], cs[|cs| - 1];
      assert cs == init + [last];
      EligibleCount(init, c);
    }
  }

  /** What the recursive walk starting at `e` collects: nothing if `e` is
      inactive, otherwise its eligible components, then every child subtree in
      child order. Each component of the subtree is looked at once, so no more
      are collected than the subtree holds. */
  function Locate(e: TreeItem): (r: seq<Component>)
    ensures |r| <= |All(e)|
    decreases e, |e.children| + 1
  {
    if !e.val.active then []
    else Eligible(e.val.components) + LocateChildren(e, |e.children|)
  }

  /** The walks of the children of `e` at indices `[0, n)`, concatenated in index order. */
  function LocateChildren(e: TreeItem, n: nat): (r: seq<Component>)
    requires n <= |e.children|
    ensures |r| <= |AllChildren(e, n)|
    decreases e, n
  {
    if n == 0 then []
    else LocateChildren(e, n - 1) + Locate(e.children[n - 1])
  }

  /** One controller cycle's scan: the walks of the top-level children of the
      world tree, for indices `[0, N)`, concatenated in index order. The root
      node itself is never examined, so no more components are collected than
      lie below it. */
  function Scan(world: TreeItem): (r: seq<Component>)
    ensures |r| <= |AllChildren(world, |world.children|)|
  {
    LocateChildren(world, |world.children|)
  }

  // ---------------------------------------------------------------------------
  // The imperative walk

  /** The component loop of the `impl` lambda: push each active script of
      `comps`, in component order, onto `acc`. */
  method PushEligible(comps: seq<Component>, acc: seq<Component>) returns (out: seq<Component>)
    ensures out == acc + Eligible(comps)
  {
    out := acc;
    for k := 0 to |comps|
      invariant out == acc + Eligible(comps[..k])
    {
      var c := comps[k];
      EligibleStep(comps, k);
      if c.kind == Script && c.active {
        out := out + [c];
      }
    }
    assert comps[..|comps|] == comps;
  }

  /** The `impl` lambda: push the collectable components of `e` onto `acc`,
      then recurse into each child, unless `e` is inactive. */
  method Walk(e: TreeItem, acc: seq<Component>) returns (out: seq<Component>)
    ensures out == acc + Locate(e)
    decreases e, 1
  {
    out := acc;
    if !e.val.active {
      return;
    }
    out := PushEligible(e.val.components, out);
    out := WalkChildren(e, out);
  }

  /** The child loop of the `impl` lambda: the walk of each child of `e`, in
      child order, appended to `acc`. */
  method WalkChildren(e: TreeItem, acc: seq<Component>) returns (out: seq<Component>)
    ensures out == acc + LocateChildren(e, |e.children|)
    decreases e, 0
  {
    out := acc;
    for i := 0 to |e.children|
      invariant out == acc + LocateChildren(e, i)
    {
      ghost var before := LocateChildren(e, i);
      out := Walk(e.children[i], out);
      assert out == acc + (before + Locate(e.children[i]));
    }
  }

  /** The index loop of one cycle, run sequentially: the walk of each top-level
      child of `world`, for indices `[0, N)`, appended in index order. */
  method ScanWorld(world: TreeItem) returns (scripts: seq<Component>)
    ensures scripts == Scan(world)
  {
    scripts := [];
    for index := 0 to |world.children|
      invariant scripts == LocateChildren(world, index)
    {
      scripts := Walk(world.children[index], scripts);
    }
  }

  // ---------------------------------------------------------------------------
  // What is collected: exactly the active scripts on fully active paths

  /** A component is collected by the walk from `e` iff it is an active script
      of some node all of whose ancestors up to `e`, and the node itself, are active. */
  lemma {:induction false} LocateExactly(e: TreeItem, c: Component)
    ensures c in Locate(e) <==> exists p :: CollectedAt(e, p, c)
    decreases e, |e.children| + 1
  {
    if e.val.active {
      LocateChildrenExactly(e, |e.children|, c);
      EligibleExactly(e.val.components);
      if c in Locate(e) {
        if c in Eligible(e.val.components) {
          assert CollectedAt(e, [], c);
        } else {
          var i, p :| 0 <= i < |e.children| && CollectedAt(e.children[i], p, c);
          var q := [i] + p;
          assert q[1..] == p;
          assert CollectedAt(e, q, c);
        }
      }
      if exists p :: CollectedAt(e, p, c) {
        var p :| CollectedAt(e, p, c);
        if p != [] {
          assert CollectedAt(e.children[p[0]], p[1..], c);
        }
      }
    }
  }

  /** A component is collected from the children at indices `[0, n)` iff it is
      collected, in the sense of `CollectedAt`, below one of them. */
  lemma {:induction false} LocateChildrenExactly(e: TreeItem, n: nat, c: Component)
    requires n <= |e.children|
    ensures c in LocateChildren(e, n) <==>
            exists i, p :: 0 <= i < n && CollectedAt(e.children[i], p, c)
    decreases e, n
  {
    if n > 0 {
      LocateChildrenExactly(e, n - 1, c);
      LocateExactly(e.children[n - 1], c);
      if exists i, p :: 0 <= i < n && CollectedAt(e.children[i], p, c) {
        var i, p :| 0 <= i < n && CollectedAt(e.children[i], p, c);
        if i == n - 1 {
          assert c in Locate(e.children[n - 1]);
        } else {
          assert c in LocateChildren(e, n - 1);
        }
      }
    }
  }

  /** The scan collects exactly the active scripts found below a top-level
      child at an index in `[0, N)` through active entities only. */
  lemma ScanExactly(world: TreeItem, c: Component)
    ensures c in Scan(world) <==>
            exists i, p :: 0 <= i < |world.children| && CollectedAt(world.children[i], p, c)
  {
    LocateChildrenExactly(world, |world.children|, c);
  }

  // ---------------------------------------------------------------------------
  // Pruning and the root

  /** The walks of two nodes' first `n` children agree when the children's own walks do. */
  lemma {:induction false} LocateChildrenCongruent(a: TreeItem, b: TreeItem, n: nat)
    requires n <= |a.children| && n <= |b.children|
    requires forall j :: 0 <= j < n ==> Locate(a.children[j]) == Locate(b.children[j])
    ensures LocateChildren(a, n) == LocateChildren(b, n)
  {
    if n > 0 {
      LocateChildrenCongruent(a, b, n - 1);
    }
  }

  /** The root of the world tree is never examined: its flag and components
      make no difference to the scan. */
  lemma ScanIgnoresRoot(world: TreeItem, root: Entity)
    ensures Scan(TreeItem(root, world.children)) == Scan(world)
  {
    LocateChildrenCongruent(TreeItem(root, world.children), world, |world.children|);
  }

  /** An inactive entity prunes its whole subtree: replacing it by any other
      inactive subtree, whatever the flags of the entities and components
      beneath, leaves the walk from `e` unchanged. */
  lemma {:induction false} InactivePrunes(e: TreeItem, p: seq<nat>, t: TreeItem)
    requires ValidPath(e, p) && !At(e, p).val.active && !t.val.active
    ensures Locate(ReplaceAt(e, p, t)) == Locate(e)
    decreases p
  {
    if p != [] && e.val.active {
      var i := p[0];
      var r := ReplaceAt(e, p, t);
      InactivePrunes(e.children[i], p[1..], t);
      assert r.children == e.children[i := ReplaceAt(e.children[i], p[1..], t)];
      LocateChildrenCongruent(r, e, |e.children|);
    }
  }

  // ---------------------------------------------------------------------------
  // Order: pre-order, component order then child order

  /** The walks of the first `m` children are a prefix of those of the first `n`. */
  lemma {:induction false} LocateChildrenPrefix(e: TreeItem, m: nat, n: nat)
    requires m <= n <= |e.children|
    ensures LocateChildren(e, m) <= LocateChildren(e, n)
    decreases n
  {
    if m < n {
      LocateChildrenPrefix(e, m, n - 1);
    }
  }

  /** Inside an active entity, the walk first yields the entity's eligible
      components in component order, then the walks of children `0 .. i-1`,
      and then the whole walk of child `i` as one block. So every child is
      visited, whether or not the entity had eligible components, and the
      order is pre-order. */
  lemma ChildBlock(e: TreeItem, i: nat)
    requires e.val.active && i < |e.children|
    ensures Eligible(e.val.components) + LocateChildren(e, i) + Locate(e.children[i]) <= Locate(e)
  {
    var el, all := Eligible(e.val.components), LocateChildren(e, |e.children|);
    ChildWalkInPlace(e, i);
    assert Locate(e) == el + all;
    PrefixAfter(el, LocateChildren(e, i), Locate(e.children[i]), all);
  }

  /** Among the children's walks, the walk of child `i` directly follows those of children `0 .. i-1`. */
  lemma ChildWalkInPlace(e: TreeItem, i: nat)
    requires i < |e.children|
    ensures LocateChildren(e, i) + Locate(e.children[i]) <= LocateChildren(e, |e.children|)
  {
    LocateChildrenPrefix(e, i + 1, |e.children|);
  }

  /** Putting the same sequence in front keeps a prefix a prefix. */
  lemma PrefixAfter<T>(x: seq<T>, y: seq<T>, z: seq<T>, w: seq<T>)
    requires y + z <= w
    ensures x + y + z <= x + w
  {
    assert x + y + z == x + (y + z);
  }

  // ---------------------------------------------------------------------------
  // How often: each component is looked at once per walk

  /** The walk from `e` collects no component more often than it occurs in the subtree. */
  lemma {:induction false} LocateSub(e: TreeItem)
    ensures multiset(Locate(e)) <= multiset(All(e))
    decreases e, |e.children| + 1
  {
    if e.val.active {
      EligibleExactly(e.val.components);
      LocateChildrenSub(e, |e.children|);
      SubConcat(Eligible(e.val.components), LocateChildren(e, |e.children|),
                e.val.components, AllChildren(e, |e.children|));
    }
  }

  /** The walks of children `[0, n)` collect no component more often than it
      occurs in their subtrees. */
  lemma {:induction false} LocateChildrenSub(e: TreeItem, n: nat)
    requires n <= |e.children|
    ensures multiset(LocateChildren(e, n)) <= multiset(AllChildren(e, n))
    decreases e, n
  {
    if n > 0 {
      LocateChildrenSub(e, n - 1);
      LocateSub(e.children[n - 1]);
      SubConcat(LocateChildren(e, n - 1), Locate(e.children[n - 1]),
                AllChildren(e, n - 1), All(e.children[n - 1]));
    }
  }

  /** Sub-multisets side by side make a sub-multiset. */
  lemma SubConcat<T>(a: seq<T>, b: seq<T>, a': seq<T>, b': seq<T>)
    requires multiset(a) <= multiset(a') && multiset(b) <= multiset(b')
    ensures multiset(a + b) <= multiset(a' + b')
  {
    assert multiset(a + b) == multiset(a) + multiset(b);
    assert multiset(a' + b') == multiset(a') + multiset(b');
  }

  /** One cycle's scan collects no component more often than it occurs below the root. */
  lemma ScanSub(world: TreeItem)
    ensures multiset(Scan(world)) <= multiset(AllChildren(world, |world.children|))
  {
    LocateChildrenSub(world, |world.children|);
  }

  /** A component that occurs at most once below the root is collected exactly
      once by the scan when it is an active script reached through active
      entities only, and not at all otherwise. */
  lemma ScanOnce(world: TreeItem, c: Component)
    requires multiset(AllChildren(world, |world.children|))[c] <= 1
    ensures multiset(Scan(world))[c] ==
            if exists i, p :: 0 <= i < |world.children| && CollectedAt(world.children[i], p, c) then 1 else 0
  {
    ScanSub(world);
    ScanExactly(world, c);
  }

  /** When the components below the root are all distinct, the scan collects
      no component twice. */
  lemma ScanNoRepeats(world: TreeItem)
    requires forall c :: multiset(AllChildren(world, |world.children|))[c] <= 1
    ensures forall c :: multiset(Scan(world))[c] <= 1
  {
    ScanSub(world);
  }
}
