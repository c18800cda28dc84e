/** The lists of children of XML nodes: first and last pointers in the parent, sibling and parent pointers in the
    children.  Pointers that the rules call unused may hold anything. */
module XmlTree {

  predicate Distinct<T(==)>(s: seq<T>) {
    forall i, j :: 0 <= i < j < |s| ==> s[i] != s[j]
  }

  lemma DistinctInserted<T>(s: seq<T>, x: T, k: nat)
    requires Distinct(s) && x !in s && k <= |s|
    ensures Distinct(s[..k] + [x] + s[k..])
  {
    var t := s[..k] + [x] + s[k..];
    forall i, j | 0 <= i < j < |t| ensures t[i] != t[j] {
      assert i != k ==> t[i] == s[if i < k then i else i - 1];
      assert j != k ==> t[j] == s[if j < k then j else j - 1];
    }
  }

  lemma DistinctRemoved<T>(s: seq<T>, k: nat)
    requires Distinct(s) && k < |s|
    ensures Distinct(s[..k] + s[k + 1..])
  {
    var t := s[..k] + s[k + 1..];
    forall i | 0 <= i < |t| ensures t[i] == s[if i < k then i else i + 1] {}
  }

  class XmlNode {
    var parent: XmlNode?
    var first: XmlNode?
    var last: XmlNode?
    var prev: XmlNode?
    var next: XmlNode?
    /** The child sequence the pointers describe. */
    ghost var children: seq<XmlNode>

    constructor ()
      ensures parent == null && first == null && children == []
    {
      parent, first, children := null, null, [];
    }

    /** The links of the child at a place. */
    ghost predicate ChildAt(i: nat)
      requires i < |children|
      reads this`children, children`parent, children`next, children`prev
    {
      && children[i].parent == this
      && children[i].next == (if i + 1 < |children| then children[i + 1] else null)
      && children[i].prev == (if i > 0 then children[i - 1] else null)
    }

    /** Forward links, backward links and parent pointers all describe the child sequence; the last pointer does when
        there is a child. */
    ghost predicate Linked()
      reads this`children, this`first, this`last, children`parent, children`next, children`prev
    {
      && first == (if children == [] then null else children[0])
      && (children != [] ==> last == children[|children| - 1])
      && (forall i :: 0 <= i < |children| ==> ChildAt(i))
      && Distinct(children)
    }

    lemma OrphanIsNoChild(child: XmlNode)
      requires Linked() && child.parent == null
      ensures child !in children
    {
      forall i | 0 <= i < |children| ensures children[i] != child { assert ChildAt(i); }
    }

    lemma ParentOfChildren()
      requires Linked()
      ensures forall c :: c in children ==> c.parent == this
    {
      forall i | 0 <= i < |children| ensures children[i].parent == this { assert ChildAt(i); }
    }

    method PrependNode(child: XmlNode)
      requires Linked() && child.parent == null
      modifies this`first, this`last, this`children, child`parent, child`prev, child`next, children`prev
      ensures Linked() && children == [child] + old(children)
    {
      ghost var was := children;
      OrphanIsNoChild(child);
      if first != null {
        assert ChildAt(0);
        child.next := first;
        first.prev := child;
      } else {
        child.next := null;
        last := child;
      }
      first := child;
      child.parent := this;
      child.prev := null;
      children := [child] + children;
      forall i | 0 <= i < |children| ensures ChildAt(i) {
        if i > 0 { assert old(ChildAt(i - 1)); assert children[i] == was[i - 1]; }
      }
    }

    method AppendNode(child: XmlNode)
      requires Linked() && child.parent == null
      modifies this`first, this`last, this`children, child`parent, child`prev, child`next, children`next
      ensures Linked() && children == old(children) + [child]
    {
      ghost var was := children;
      OrphanIsNoChild(child);
      if first != null {
        child.prev := last;
        last.next := child;
      } else {
        child.prev := null;
        first := child;
      }
      last := child;
      child.parent := this;
      child.next := null;
      children := children + [child];
      forall i | 0 <= i < |children| ensures ChildAt(i) {
        if i < |was| { assert old(ChildAt(i)); }
      }
    }

    /** Between two children. */
    method InsertBetween(where: XmlNode, child: XmlNode, ghost k: nat)
      requires Linked() && child.parent == null && 0 < k < |children| && where == children[k]
      modifies this`children, child`parent, child`prev, child`next, children`next, children`prev
      ensures Linked() && children == old(children[..k]) + [child] + old(children[k..])
    {
      ghost var was := children;
      OrphanIsNoChild(child);
      DistinctInserted(children, child, k);
      hide Distinct;
      assert ChildAt(k) && ChildAt(k - 1);
      child.prev := where.prev;
      child.next := where;
      where.prev.next := child;
      where.prev := child;
      child.parent := this;
      children := children[..k] + [child] + children[k..];
      forall i | 0 <= i < |children| ensures ChildAt(i) {
        if i < k { assert old(ChildAt(i)); assert children[i] == was[i]; }
        else if i > k { assert old(ChildAt(i - 1)); assert children[i] == was[i - 1]; }
      }
    }

    /** Before the child at place `k`, or at the back if there is no `where`. */
    method InsertNode(where: XmlNode?, child: XmlNode, ghost k: nat)
      requires Linked() && child.parent == null && k <= |children|
      requires where == if k < |children| then children[k] else null
      modifies this`first, this`last, this`children, child`parent, child`prev, child`next, children`next, children`prev
      ensures Linked() && children == old(children[..k]) + [child] + old(children[k..])
    {
      if where == first {
        assert k == 0;
        PrependNode(child);
      } else if where == null {
        AppendNode(child);
      } else {
        InsertBetween(where, child, k);
      }
    }

    method RemoveFirstNode()
      requires Linked() && first != null
      modifies this`first, this`last, this`children, children`parent, children`prev
      ensures Linked() && children == old(children[1..]) && old(children[0]).parent == null
      ensures forall c :: c in old(children) && c != old(children[0]) ==> c.parent == this
    {
      ghost var was := children;
      assert ChildAt(0);
      assert |children| > 1 ==> ChildAt(1);
      var child := first;
      first := child.next;
      if child.next != null { child.next.prev := null; } else { last := null; }
      child.parent := null;
      children := children[1..];
      forall i | 0 <= i < |children| ensures ChildAt(i) {
        assert old(ChildAt(i + 1));
        assert children[i] == was[i + 1];
      }
      forall c | c in was && c != was[0] ensures c.parent == this {
        var i :| 0 <= i < |was| && was[i] == c;
        assert ChildAt(i - 1);
      }
    }

    method RemoveLastNode()
      requires Linked() && first != null
      modifies this`first, this`last, this`children, children`parent, children`next
      ensures Linked() && children == old(children[..|children| - 1]) && old(children[|children| - 1]).parent == null
      ensures forall c :: c in old(children) && c != old(children[|children| - 1]) ==> c.parent == this
    {
      ghost var was := children;
      assert ChildAt(|children| - 1);
      assert |children| > 1 ==> ChildAt(|children| - 2);
      var child := last;
      if child.prev != null {
        last := child.prev;
        child.prev.next := null;
      } else {
        first := null;
      }
      child.parent := null;
      children := children[..|children| - 1];
      forall i | 0 <= i < |children| ensures ChildAt(i) { assert old(ChildAt(i)); assert children[i] == was[i]; }
      forall c | c in was && c != was[|was| - 1] ensures c.parent == this {
        var i :| 0 <= i < |was| && was[i] == c;
        assert ChildAt(i);
      }
    }

    method RemoveBetween(where: XmlNode, ghost k: nat)
      requires Linked() && 0 < k < |children| - 1 && where == children[k]
      modifies this`children, children`parent, children`next, children`prev
      ensures Linked() && children == old(children[..k]) + old(children[k + 1..]) && where.parent == null
      ensures forall c :: c in old(children) && c != where ==> c.parent == this
    {
      ghost var was := children;
      assert ChildAt(k);
      assert ChildAt(k - 1) && ChildAt(k + 1);
      DistinctRemoved(children, k);
      hide Distinct;
      where.prev.next := where.next;
      where.next.prev := where.prev;
      where.parent := null;
      children := children[..k] + children[k + 1..];
      forall i | 0 <= i < |children| ensures ChildAt(i) {
        if i < k { assert old(ChildAt(i)); assert children[i] == was[i]; }
        else { assert old(ChildAt(i + 1)); assert children[i] == was[i + 1]; }
      }
      forall c | c in was && c != where ensures c.parent == this {
        var i :| 0 <= i < |was| && was[i] == c;
        assert ChildAt(if i < k then i else i - 1);
      }
    }

    method RemoveNode(where: XmlNode, ghost k: nat)
      requires Linked() && k < |children| && where == children[k]
      modifies this`first, this`last, this`children, children`parent, children`next, children`prev
      ensures Linked() && children == old(children[..k]) + old(children[k + 1..]) && where.parent == null
      ensures forall c :: c in old(children) && c != where ==> c.parent == this
    {
      assert ChildAt(k);
      if where == first {
        assert k == 0;
        RemoveFirstNode();
      } else if where == last {
        assert k == |children| - 1;
        RemoveLastNode();
      } else {
        RemoveBetween(where, k);
      }
    }

    /** The children are given up one after the other; the last pointer is left as it was. */
    method RemoveAllNodes()
      requires Linked()
      modifies this`first, this`children, children`parent
      ensures Linked() && children == []
      ensures forall c :: c in old(children) ==> c.parent == null
    {
      ghost var was := children;
      var node := first;
      ghost var i := 0;
      assert children != [] ==> ChildAt(0);
      while node != null
        invariant 0 <= i <= |was| && children == was && first == old(first)
        invariant node == if i < |was| then was[i] else null
        invariant forall j :: 0 <= j < i ==> was[j].parent == null
        decreases |was| - i
      {
        node.parent := null;
        assert old(ChildAt(i));
        node := node.next;
        i := i + 1;
      }
      first := null;
      children := [];
    }
  }

  /** A whole forest: every node's pointers describe its children, which are in the forest, and every node with a
      parent is one of its parent's children. */
  ghost predicate WellLinked(forest: set<XmlNode>)
    reads forest
  {
    && (forall p, c :: p in forest && c in p.children ==> c in forest)
    && (forall p :: p in forest ==> p.Linked())
    && (forall c :: c in forest && c.parent != null ==> c.parent in forest && c in c.parent.children)
  }

  /** No list of a forest but one has been touched, and what left that one has no parent. */
  twostate predicate OnlyListChanged(forest: set<XmlNode>, new parent: XmlNode)
    requires parent in forest
    reads forest
  {
    && (forall p :: p in forest && p != parent ==>
        p.children == old(p.children) && p.first == old(p.first) && p.last == old(p.last))
    && (forall c :: c in forest && c !in old(parent.children) && c !in parent.children ==>
        c.parent == old(c.parent) && c.next == old(c.next) && c.prev == old(c.prev))
    && (forall c :: c in parent.children ==> c in forest && (old(c.parent) == null || old(c.parent) == parent))
    && (forall c :: c in forest && c in old(parent.children) && c !in parent.children ==> c.parent == null)
  }

  /** Then the whole forest stays well linked. */
  twostate lemma ForestStays(forest: set<XmlNode>, new parent: XmlNode)
    requires parent in forest && old(WellLinked(forest)) && OnlyListChanged(forest, parent)
    requires (forall c :: c in parent.children ==> c in forest) && parent.Linked()
    ensures WellLinked(forest)
  {
    forall p | p in forest && p != parent ensures p.Linked() {
      forall i | 0 <= i < |p.children|
        ensures p.ChildAt(i) && p.children[i] !in parent.children && p.children[i] !in old(parent.children)
      {
        var c := p.children[i];
        assert old(p.ChildAt(i));
        forall j | 0 <= j < |old(parent.children)| ensures old(parent.children)[j] != c {
          assert old(parent.ChildAt(j));
        }
      }
    }
    forall c | c in forest && c.parent != null ensures c.parent in forest && c in c.parent.children {
      if c in parent.children {
        var j :| 0 <= j < |parent.children| && parent.children[j] == c;
        assert parent.ChildAt(j);
      }
    }
  }

  // ---- Every operation keeps a forest well linked

  method Prepend(parent: XmlNode, child: XmlNode, ghost forest: set<XmlNode>)
    requires WellLinked(forest) && parent in forest && child in forest && child.parent == null
    modifies forest
    ensures WellLinked(forest) && parent.children == [child] + old(parent.children)
    ensures forall p :: p in forest && p != parent ==> p.children == old(p.children)
    ensures forall c :: c in forest && c != child ==> c.parent == old(c.parent)
  {
    parent.ParentOfChildren();
    parent.PrependNode(child);
    ForestStays(forest, parent);
  }

  method Append(parent: XmlNode, child: XmlNode, ghost forest: set<XmlNode>)
    requires WellLinked(forest) && parent in forest && child in forest && child.parent == null
    modifies forest
    ensures WellLinked(forest) && parent.children == old(parent.children) + [child]
    ensures forall p :: p in forest && p != parent ==> p.children == old(p.children)
    ensures forall c :: c in forest && c != child ==> c.parent == old(c.parent)
  {
    parent.ParentOfChildren();
    parent.AppendNode(child);
    ForestStays(forest, parent);
  }

  method Insert(parent: XmlNode, where: XmlNode?, child: XmlNode, ghost k: nat, ghost forest: set<XmlNode>)
    requires WellLinked(forest) && parent in forest && child in forest && child.parent == null
    requires k <= |parent.children| && where == if k < |parent.children| then parent.children[k] else null
    modifies forest
    ensures WellLinked(forest)
    ensures parent.children == old(parent.children[..k]) + [child] + old(parent.children[k..])
    ensures forall p :: p in forest && p != parent ==> p.children == old(p.children)
    ensures forall c :: c in forest && c != child ==> c.parent == old(c.parent)
  {
    parent.ParentOfChildren();
    parent.InsertNode(where, child, k);
    ForestStays(forest, parent);
  }

  method Remove(parent: XmlNode, where: XmlNode, ghost k: nat, ghost forest: set<XmlNode>)
    requires WellLinked(forest) && parent in forest && k < |parent.children| && where == parent.children[k]
    modifies forest
    ensures WellLinked(forest) && where.parent == null
    ensures parent.children == old(parent.children[..k]) + old(parent.children[k + 1..])
    ensures forall p :: p in forest && p != parent ==> p.children == old(p.children)
    ensures forall c :: c in forest && c != where ==> c.parent == old(c.parent)
  {
    parent.ParentOfChildren();
    parent.RemoveNode(where, k);
    ForestStays(forest, parent);
  }

  method RemoveAll(parent: XmlNode, ghost forest: set<XmlNode>)
    requires WellLinked(forest) && parent in forest
    modifies forest
    ensures WellLinked(forest) && parent.children == []
    ensures forall p :: p in forest && p != parent ==> p.children == old(p.children)
    ensures forall c :: c in old(parent.children) ==> c.parent == null
    ensures forall c :: c in forest && c !in old(parent.children) ==> c.parent == old(c.parent)
  {
    parent.ParentOfChildren();
    parent.RemoveAllNodes();
    ForestStays(forest, parent);
  }
}
