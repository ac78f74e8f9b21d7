/** The scene tree the dynamic tick controller walks: entities owning
    components, arranged as a tree of `TreeItem<Entity>` nodes. */
module Entities {

  /** The runtime type of a component. Only `Script` matters to the scheduler;
      the exact-type test of the engine is modelled as equality of this tag. */
  datatype ComponentKind = Script | MeshComponent | AudioPlayer | OtherKind

  /** A component attached to an entity, with its own `IsActive()` flag.
      `id` stands for the component's identity (the engine collects references). */
  datatype Component = Component(id: nat, kind: ComponentKind, active: bool)

  /** The value held by a tree node: the entity's `active` flag and its components. */
  datatype Entity = Entity(active: bool, components: seq<Component>)

  /** `TreeItem<Entity>`: a node value and its ordered children. */
  datatype TreeItem = TreeItem(val: Entity, children: seq<TreeItem>)

  /** Every component of the subtree of `e`, active or not, in pre-order. */
  function All(e: TreeItem): seq<Component>
    decreases e, |e.children| + 1
  {
    e.val.components + AllChildren(e, |e.children|)
  }

  /** Every component of the subtrees of the children of `e` at indices `[0, n)`, in pre-order. */
  function AllChildren(e: TreeItem, n: nat): seq<Component>
    requires n <= |e.children|
    decreases e, n
  {
    if n == 0 then [] else AllChildren(e, n - 1) + All(e.children[n - 1])
  }

  /** The component test of the script locator: a script that is active. */
  predicate Collectable(c: Component) {
    c.kind == Script && c.active
  }

  /** `p` lists child indices leading from `e` down to some node. */
  predicate ValidPath(e: TreeItem, p: seq<nat>)
    decreases p
  {
    p == [] || (p[0] < |e.children| && ValidPath(e.children[p[0]], p[1..]))
  }

  /** The node reached from `e` by following `p`. */
  function At(e: TreeItem, p: seq<nat>): TreeItem
    requires ValidPath(e, p)
    decreases p
  {
    if p == [] then e else At(e.children[p[0]], p[1..])
  }

  /** Every node on the path, from `e` down to and including its target, is active. */
  predicate AllActive(e: TreeItem, p: seq<nat>)
    requires ValidPath(e, p)
    decreases p
  {
    e.val.active && (p == [] || AllActive(e.children[p[0]], p[1..]))
  }

  /** `c` is a collectable component of the node at `p`, and no entity from `e`
      down to that node is inactive: the independent description of what the
      script locator must find. */
  predicate CollectedAt(e: TreeItem, p: seq<nat>, c: Component) {
    ValidPath(e, p) && AllActive(e, p) && c in At(e, p).val.components && Collectable(c)
  }

  /** `e` with the subtree at `p` replaced by `t`. */
  function ReplaceAt(e: TreeItem, p: seq<nat>, t: TreeItem): (r: TreeItem)
    requires ValidPath(e, p)
    ensures ValidPath(r, p) && At(r, p) == t
    ensures p != [] ==> r.val == e.val && |r.children| == |e.children|
    decreases p
  {
    if p == [] then t
    else
      var child := ReplaceAt(e.children[p[0]], p[1..], t);
      var r := TreeItem(e.val, e.children[p[0] := child]);
      assert r.children[p[0]] == child;
      r
  }
}
