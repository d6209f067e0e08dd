/** The Composite permission tree: a Component is either a Patent (an atomic
    permission, a leaf) or a Family (a role grouping child components). */
module Components {
  import opened Outcomes
  import opened Sequences

  /** A Guid is an opaque identifier; only equality matters. */
  type Guid = nat

  datatype Component =
    | Patent(id: Guid, name: string)
    | Family(id: Guid, name: string, children: seq<Component>)

  /** The Children property: a Patent exposes an empty, read-only list. */
  function Children(c: Component): (r: seq<Component>)
    ensures c.Patent? ==> r == []
    ensures forall x :: x in r ==> x < c
  {
    match c
    case Patent(_, _) => []
    case Family(_, _, ch) => ch
  }

  /** Component.HasPermission: own name first, then the children in order,
      stopping at the first child that grants the permission. */
  function HasPermission(c: Component, permissionName: string): (r: bool)
    ensures c.name == permissionName ==> r
    ensures c.Patent? ==> (r <==> c.name == permissionName)
    ensures c.Family? ==> (r <==> c.name == permissionName
                                  || exists j :: 0 <= j < |c.children| && HasPermission(c.children[j], permissionName))
    decreases c, 1
  {
    c.name == permissionName || (c.Family? && AnyChildHasPermission(c, 0, permissionName))
  }

  /** The foreach over the children of c from index i on. */
  function AnyChildHasPermission(c: Component, i: nat, permissionName: string): (r: bool)
    requires c.Family? && i <= |c.children|
    ensures r <==> exists j :: i <= j < |c.children| && HasPermission(c.children[j], permissionName)
    decreases c, 0, |c.children| - i
  {
    if i == |c.children| then false
    else HasPermission(c.children[i], permissionName) || AnyChildHasPermission(c, i + 1, permissionName)
  }

  /** Reference definition: every node of the subtree rooted at c. */
  function Nodes(c: Component): (r: set<Component>)
    ensures c in r
  {
    match c
    case Patent(_, _) => {c}
    case Family(_, _, ch) => {c} + (set i, x | 0 <= i < |ch| && x in Nodes(ch[i]) :: x)
  }

  /** HasPermission(n) holds exactly when some node of the subtree, the root
      included, is named n. */
  lemma {:induction false} HasPermissionIffNamedNode(c: Component, n: string)
    ensures HasPermission(c, n) <==> exists x :: x in Nodes(c) && x.name == n
    decreases c, 1
  {
    if c.Family? {
      AnyChildIffNamedNode(c, 0, n);
    }
  }

  lemma {:induction false} AnyChildIffNamedNode(c: Component, i: nat, n: string)
    requires c.Family? && i <= |c.children|
    ensures AnyChildHasPermission(c, i, n) <==>
      exists j, x :: i <= j < |c.children| && x in Nodes(c.children[j]) && x.name == n
    decreases c, 0, |c.children| - i
  {
    if i < |c.children| {
      HasPermissionIffNamedNode(c.children[i], n);
      AnyChildIffNamedNode(c, i + 1, n);
    }
  }

  /** A component without children grants exactly its own name. */
  lemma ChildlessHasOnlyOwnName(c: Component, n: string)
    requires Children(c) == []
    ensures HasPermission(c, n) <==> c.name == n
  {
  }

  /** If no node of the subtree is named n, the search answers false. */
  lemma NoNamedNodeNoPermission(c: Component, n: string)
    requires forall x :: x in Nodes(c) ==> x.name != n
    ensures !HasPermission(c, n)
  {
    HasPermissionIffNamedNode(c, n);
  }

  /** Patents reachable from c, depth first, as CollectAtomicPermissions
      appends them (a Patent itself, or every child's patents in order). */
  function Atoms(c: Component): (r: seq<Component>)
    ensures forall x :: x in r ==> x.Patent?
    ensures c.Patent? ==> r == [c]
    decreases c, 1
  {
    match c
    case Patent(_, _) => [c]
    case Family(_, _, ch) => AtomsFrom(c, 0)
  }

  function AtomsFrom(c: Component, i: nat): (r: seq<Component>)
    requires c.Family? && i <= |c.children|
    ensures forall x :: x in r ==> x.Patent?
    decreases c, 0, |c.children| - i
  {
    if i == |c.children| then [] else Atoms(c.children[i]) + AtomsFrom(c, i + 1)
  }

  /** The flattening lists exactly the Patent nodes of the subtree: no Family
      ever appears and no reachable Patent is missed. */
  lemma {:induction false} AtomsArePatentNodes(c: Component)
    ensures forall x :: x in Atoms(c) <==> x in Nodes(c) && x.Patent?
    decreases c, 1
  {
    if c.Family? {
      AtomsFromArePatentNodes(c, 0);
    }
  }

  lemma {:induction false} AtomsFromArePatentNodes(c: Component, i: nat)
    requires c.Family? && i <= |c.children|
    ensures forall x :: x in AtomsFrom(c, i) <==>
      x.Patent? && exists j :: i <= j < |c.children| && x in Nodes(c.children[j])
    decreases c, 0, |c.children| - i
  {
    if i < |c.children| {
      AtomsArePatentNodes(c.children[i]);
      AtomsFromArePatentNodes(c, i + 1);
    }
  }

  /** The abstract AddChild, dispatched on the variant: a Patent throws
      LeafComponentException, a Family appends. */
  function AddChild(parent: Component, c: Component): (r: Result<Component>)
    ensures r.Failure? <==> parent.Patent?
    ensures r.Failure? ==> r.error == LeafComponent
    ensures r.Success? ==> r.value.Family? && r.value.id == parent.id && r.value.name == parent.name
    ensures r.Success? ==> Children(r.value) == Children(parent) + [c]
  {
    match parent
    case Patent(_, _) => Failure(LeafComponent)
    case Family(id, name, ch) => Success(Family(id, name, ch + [c]))
  }

  /** The abstract RemoveChild: a Patent throws LeafComponentException, a
      Family drops the first occurrence of c and keeps the others in order. */
  function RemoveChild(parent: Component, c: Component): (r: Result<Component>)
    ensures r.Failure? <==> parent.Patent?
    ensures r.Failure? ==> r.error == LeafComponent
    ensures r.Success? ==> r.value.Family? && r.value.id == parent.id && r.value.name == parent.name
    ensures r.Success? ==> Children(r.value) == RemoveFirst(Children(parent), c)
  {
    match parent
    case Patent(_, _) => Failure(LeafComponent)
    case Family(id, name, ch) => Success(Family(id, name, RemoveFirst(ch, c)))
  }
}
