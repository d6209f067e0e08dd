/** Family.cs: the composite node as an object that owns a mutable,
    duplicate-permitting list of children. */
module Families {
  import C = Components
  import opened Sequences
  import opened Outcomes

  class Family {
    var id: C.Guid
    var name: string
    /** The live _children list that the Children property hands out. */
    var children: seq<C.Component>

    /** A new Family starts with an empty child list. */
    constructor (id: C.Guid, name: string)
      ensures this.id == id && this.name == name && children == []
    {
      this.id := id;
      this.name := name;
      children := [];
    }

    /** The object's current value as a node of the Component tree. */
    function Snapshot(): (c: C.Component)
      reads this
      ensures c.Family? && c.id == id && c.name == name && C.Children(c) == children
    {
      C.Family(id, name, children)
    }

    /** _children.Add(c): append at the end, no duplicate check. */
    method AddChild(c: C.Component)
      modifies this`children
      ensures children == old(children) + [c]
      ensures C.AddChild(old(Snapshot()), c) == Success(Snapshot())
    {
      children := children + [c];
    }

    /** _children.Remove(c): drop the first occurrence, if any; never throws. */
    method RemoveChild(c: C.Component)
      modifies this`children
      ensures children == RemoveFirst(old(children), c)
      ensures C.RemoveChild(old(Snapshot()), c) == Success(Snapshot())
    {
      children := RemoveFirst(children, c);
    }
  }

  /** Adding the same component twice leaves two entries, in order. */
  method AddTwiceKeepsBoth(f: Family, c: C.Component)
    modifies f`children
    ensures f.children == old(f.children) + [c, c]
    ensures multiset(f.children)[c] == multiset(old(f.children))[c] + 2
  {
    f.AddChild(c);
    f.AddChild(c);
  }

  /** Removing one of two entries of c leaves the other one. */
  method RemoveOneOfTwo(f: Family, c: C.Component)
    modifies f`children
    ensures c in old(f.children) ==> multiset(f.children)[c] == multiset(old(f.children))[c] - 1
    ensures c !in old(f.children) ==> f.children == old(f.children)
  {
    RemoveFirstMultiset(f.children, c);
    f.RemoveChild(c);
  }
}
