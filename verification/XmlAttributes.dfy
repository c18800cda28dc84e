/** The lists of attributes of XML nodes: first and last pointers in the node, neighbour and parent pointers in the
    attributes.  The removals write in another order than those of children. */
module XmlAttributes {
  import Lists = XmlTree

  class XmlAttribute {
    var parent: XmlElement?
    var prev: XmlAttribute?
    var next: XmlAttribute?

    constructor ()
      ensures parent == null
    {
      parent := null;
    }
  }

  class XmlElement {
    var first: XmlAttribute?
    var last: XmlAttribute?
    /** The sequence of attributes the pointers describe. */
    ghost var attributes: seq<XmlAttribute>

    constructor ()
      ensures first == null && attributes == []
    {
      first, attributes := null, [];
    }

    /** The links of the attribute at a place. */
    ghost predicate AttributeAt(i: nat)
      requires i < |attributes|
      reads this`attributes, attributes`parent, attributes`next, attributes`prev
    {
      && attributes[i].parent == this
      && attributes[i].next == (if i + 1 < |attributes| then attributes[i + 1] else null)
      && attributes[i].prev == (if i > 0 then attributes[i - 1] else null)
    }

    /** Forward links, backward links and parent pointers all describe the attribute sequence; the last pointer does
        when there is a attribute. */
    ghost predicate Linked()
      reads this`attributes, this`first, this`last, attributes`parent, attributes`next, attributes`prev
    {
      && first == (if attributes == [] then null else attributes[0])
      && (attributes != [] ==> last == attributes[|attributes| - 1])
      && (forall i :: 0 <= i < |attributes| ==> AttributeAt(i))
      && Lists.Distinct(attributes)
    }

    lemma OrphanIsNone(attribute: XmlAttribute)
      requires Linked() && attribute.parent == null
      ensures attribute !in attributes
    {
      forall i | 0 <= i < |attributes| ensures attributes[i] != attribute { assert AttributeAt(i); }
    }

    lemma ParentOfAttributes()
      requires Linked()
      ensures forall c :: c in attributes ==> c.parent == this
    {
      forall i | 0 <= i < |attributes| ensures attributes[i].parent == this { assert AttributeAt(i); }
    }

    method PrependAttribute(attribute: XmlAttribute)
      requires Linked() && attribute.parent == null
      modifies this`first, this`last, this`attributes, attribute`parent, attribute`prev, attribute`next, attributes`prev
      ensures Linked() && attributes == [attribute] + old(attributes)
    {
      ghost var was := attributes;
      OrphanIsNone(attribute);
      if first != null {
        assert AttributeAt(0);
        attribute.next := first;
        first.prev := attribute;
      } else {
        attribute.next := null;
        last := attribute;
      }
      first := attribute;
      attribute.parent := this;
      attribute.prev := null;
      attributes := [attribute] + attributes;
      forall i | 0 <= i < |attributes| ensures AttributeAt(i) {
        if i > 0 { assert old(AttributeAt(i - 1)); assert attributes[i] == was[i - 1]; }
      }
    }

    method AppendAttribute(attribute: XmlAttribute)
      requires Linked() && attribute.parent == null
      modifies this`first, this`last, this`attributes, attribute`parent, attribute`prev, attribute`next, attributes`next
      ensures Linked() && attributes == old(attributes) + [attribute]
    {
      ghost var was := attributes;
      OrphanIsNone(attribute);
      if first != null {
        attribute.prev := last;
        last.next := attribute;
      } else {
        attribute.prev := null;
        first := attribute;
      }
      last := attribute;
      attribute.parent := this;
      attribute.next := null;
      attributes := attributes + [attribute];
      forall i | 0 <= i < |attributes| ensures AttributeAt(i) {
        if i < |was| { assert old(AttributeAt(i)); }
      }
    }

    /** Between two attributes. */
    method InsertBetween(where: XmlAttribute, attribute: XmlAttribute, ghost k: nat)
      requires Linked() && attribute.parent == null && 0 < k < |attributes| && where == attributes[k]
      modifies this`attributes, attribute`parent, attribute`prev, attribute`next, attributes`next, attributes`prev
      ensures Linked() && attributes == old(attributes[..k]) + [attribute] + old(attributes[k..])
    {
      ghost var was := attributes;
      OrphanIsNone(attribute);
      Lists.DistinctInserted(attributes, attribute, k);
      hide Lists.Distinct;
      assert AttributeAt(k) && AttributeAt(k - 1);
      attribute.prev := where.prev;
      attribute.next := where;
      where.prev.next := attribute;
      where.prev := attribute;
      attribute.parent := this;
      attributes := attributes[..k] + [attribute] + attributes[k..];
      forall i | 0 <= i < |attributes| ensures AttributeAt(i) {
        if i < k { assert old(AttributeAt(i)); assert attributes[i] == was[i]; }
        else if i > k { assert old(AttributeAt(i - 1)); assert attributes[i] == was[i - 1]; }
      }
    }

    /** Before the attribute at place `k`, or at the back if there is no `where`. */
    method InsertAttribute(where: XmlAttribute?, attribute: XmlAttribute, ghost k: nat)
      requires Linked() && attribute.parent == null && k <= |attributes|
      requires where == if k < |attributes| then attributes[k] else null
      modifies this`first, this`last, this`attributes, attribute`parent, attribute`prev, attribute`next,
        attributes`next, attributes`prev
      ensures Linked() && attributes == old(attributes[..k]) + [attribute] + old(attributes[k..])
    {
      if where == first {
        assert k == 0;
        PrependAttribute(attribute);
      } else if where == null {
        AppendAttribute(attribute);
      } else {
        InsertBetween(where, attribute, k);
      }
    }

    method RemoveFirstAttribute()
      requires Linked() && first != null
      modifies this`first, this`last, this`attributes, attributes`parent, attributes`prev
      ensures Linked() && attributes == old(attributes[1..]) && old(attributes[0]).parent == null
      ensures forall c :: c in old(attributes) && c != old(attributes[0]) ==> c.parent == this
    {
      ghost var was := attributes;
      assert AttributeAt(0);
      assert |attributes| > 1 ==> AttributeAt(1);
      var attribute := first;
      if attribute.next != null { attribute.next.prev := null; } else { last := null; }
      attribute.parent := null;
      first := attribute.next;
      attributes := attributes[1..];
      forall i | 0 <= i < |attributes| ensures AttributeAt(i) {
        assert old(AttributeAt(i + 1));
        assert attributes[i] == was[i + 1];
      }
      forall c | c in was && c != was[0] ensures c.parent == this {
        var i :| 0 <= i < |was| && was[i] == c;
        assert AttributeAt(i - 1);
      }
    }

    method RemoveLastAttribute()
      requires Linked() && first != null
      modifies this`first, this`last, this`attributes, attributes`parent, attributes`next
      ensures Linked() && attributes == old(attributes[..|attributes| - 1])
        && old(attributes[|attributes| - 1]).parent == null
      ensures forall c :: c in old(attributes) && c != old(attributes[|attributes| - 1]) ==> c.parent == this
    {
      ghost var was := attributes;
      assert AttributeAt(|attributes| - 1);
      assert |attributes| > 1 ==> AttributeAt(|attributes| - 2);
      var attribute := last;
      if attribute.prev != null {
        attribute.prev.next := null;
        last := attribute.prev;
      } else {
        first := null;
      }
      attribute.parent := null;
      attributes := attributes[..|attributes| - 1];
      forall i | 0 <= i < |attributes| ensures AttributeAt(i) {
        assert old(AttributeAt(i));
        assert attributes[i] == was[i];
      }
      forall c | c in was && c != was[|was| - 1] ensures c.parent == this {
        var i :| 0 <= i < |was| && was[i] == c;
        assert AttributeAt(i);
      }
    }

    method RemoveBetween(where: XmlAttribute, ghost k: nat)
      requires Linked() && 0 < k < |attributes| - 1 && where == attributes[k]
      modifies this`attributes, attributes`parent, attributes`next, attributes`prev
      ensures Linked() && attributes == old(attributes[..k]) + old(attributes[k + 1..]) && where.parent == null
      ensures forall c :: c in old(attributes) && c != where ==> c.parent == this
    {
      ghost var was := attributes;
      assert AttributeAt(k);
      assert AttributeAt(k - 1) && AttributeAt(k + 1);
      Lists.DistinctRemoved(attributes, k);
      hide Lists.Distinct;
      where.prev.next := where.next;
      where.next.prev := where.prev;
      where.parent := null;
      attributes := attributes[..k] + attributes[k + 1..];
      forall i | 0 <= i < |attributes| ensures AttributeAt(i) {
        if i < k { assert old(AttributeAt(i)); assert attributes[i] == was[i]; }
        else { assert old(AttributeAt(i + 1)); assert attributes[i] == was[i + 1]; }
      }
      forall c | c in was && c != where ensures c.parent == this {
        var i :| 0 <= i < |was| && was[i] == c;
        assert AttributeAt(if i < k then i else i - 1);
      }
    }

    method RemoveAttribute(where: XmlAttribute, ghost k: nat)
      requires Linked() && k < |attributes| && where == attributes[k]
      modifies this`first, this`last, this`attributes, attributes`parent, attributes`next, attributes`prev
      ensures Linked() && attributes == old(attributes[..k]) + old(attributes[k + 1..]) && where.parent == null
      ensures forall c :: c in old(attributes) && c != where ==> c.parent == this
    {
      assert AttributeAt(k);
      if where == first {
        assert k == 0;
        RemoveFirstAttribute();
      } else if where == last {
        assert k == |attributes| - 1;
        RemoveLastAttribute();
      } else {
        RemoveBetween(where, k);
      }
    }

    /** The attributes are given up one after the other; the last pointer is left as it was. */
    method RemoveAllAttributes()
      requires Linked()
      modifies this`first, this`attributes, attributes`parent
      ensures Linked() && attributes == []
      ensures forall c :: c in old(attributes) ==> c.parent == null
    {
      ghost var was := attributes;
      var attribute := first;
      ghost var i := 0;
      assert attributes != [] ==> AttributeAt(0);
      while attribute != null
        invariant 0 <= i <= |was| && attributes == was && first == old(first)
        invariant attribute == if i < |was| then was[i] else null
        invariant forall j :: 0 <= j < i ==> was[j].parent == null
        decreases |was| - i
      {
        attribute.parent := null;
        assert old(AttributeAt(i));
        attribute := attribute.next;
        i := i + 1;
      }
      first := null;
      attributes := [];
    }
  }

  /** The elements of a document and all its attributes. */
  datatype AttributeDocument = AttributeDocument(elements: set<XmlElement>, attributes: set<XmlAttribute>)

  /** A whole document: every element's pointers describe its attributes, and every attribute with a parent is one of
      its parent's attributes. */
  ghost predicate WellLinked(doc: AttributeDocument)
    reads doc.elements, doc.attributes
  {
    && (forall e, a :: e in doc.elements && a in e.attributes ==> a in doc.attributes)
    && (forall e :: e in doc.elements ==> e.Linked())
    && (forall a :: a in doc.attributes && a.parent != null ==> a.parent in doc.elements && a in a.parent.attributes)
  }

  /** No list of a document but one has been touched, and what left that one has no parent. */
  twostate predicate OnlyListChanged(doc: AttributeDocument, new parent: XmlElement)
    requires parent in doc.elements
    reads doc.elements, doc.attributes
  {
    && (forall e :: e in doc.elements && e != parent ==>
        e.attributes == old(e.attributes) && e.first == old(e.first) && e.last == old(e.last))
    && (forall a :: a in doc.attributes && a !in old(parent.attributes) && a !in parent.attributes ==>
        a.parent == old(a.parent) && a.next == old(a.next) && a.prev == old(a.prev))
    && (forall a :: a in parent.attributes ==>
      a in doc.attributes && (old(a.parent) == null || old(a.parent) == parent))
    && (forall a :: a in doc.attributes && a in old(parent.attributes) && a !in parent.attributes ==> a.parent == null)
  }

  /** Then the whole document stays well linked. */
  twostate lemma AttributesStay(doc: AttributeDocument, new parent: XmlElement)
    requires parent in doc.elements && old(WellLinked(doc)) && OnlyListChanged(doc, parent)
    requires (forall a :: a in parent.attributes ==> a in doc.attributes) && parent.Linked()
    ensures WellLinked(doc)
  {
    forall e | e in doc.elements && e != parent ensures e.Linked() {
      forall i | 0 <= i < |e.attributes|
        ensures e.AttributeAt(i) && e.attributes[i] !in parent.attributes && e.attributes[i] !in old(parent.attributes)
      {
        var a := e.attributes[i];
        assert old(e.AttributeAt(i));
        forall j | 0 <= j < |old(parent.attributes)| ensures old(parent.attributes)[j] != a {
          assert old(parent.AttributeAt(j));
        }
      }
    }
    forall a | a in doc.attributes && a.parent != null ensures a.parent in doc.elements && a in a.parent.attributes {
      if a in parent.attributes {
        var j :| 0 <= j < |parent.attributes| && parent.attributes[j] == a;
        assert parent.AttributeAt(j);
      }
    }
  }

  // ---- Every operation keeps a document well linked and leaves the other elements alone

  method Prepend(parent: XmlElement, attribute: XmlAttribute, ghost doc: AttributeDocument)
    requires WellLinked(doc) && parent in doc.elements && attribute in doc.attributes && attribute.parent == null
    modifies doc.elements, doc.attributes
    ensures WellLinked(doc)
    ensures parent.attributes == [attribute] + old(parent.attributes)
    ensures forall e :: e in doc.elements && e != parent ==> e.attributes == old(e.attributes)
    ensures forall a :: a in doc.attributes && a != attribute ==> a.parent == old(a.parent)
  {
    parent.ParentOfAttributes();
    parent.PrependAttribute(attribute);
    AttributesStay(doc, parent);
  }

  method Append(parent: XmlElement, attribute: XmlAttribute, ghost doc: AttributeDocument)
    requires WellLinked(doc) && parent in doc.elements && attribute in doc.attributes && attribute.parent == null
    modifies doc.elements, doc.attributes
    ensures WellLinked(doc)
    ensures parent.attributes == old(parent.attributes) + [attribute]
    ensures forall e :: e in doc.elements && e != parent ==> e.attributes == old(e.attributes)
    ensures forall a :: a in doc.attributes && a != attribute ==> a.parent == old(a.parent)
  {
    parent.ParentOfAttributes();
    parent.AppendAttribute(attribute);
    AttributesStay(doc, parent);
  }

  method Insert(parent: XmlElement, where: XmlAttribute?, attribute: XmlAttribute, ghost k: nat,
      ghost doc: AttributeDocument)
    requires WellLinked(doc) && parent in doc.elements && attribute in doc.attributes && attribute.parent == null
    requires k <= |parent.attributes| && where == if k < |parent.attributes| then parent.attributes[k] else null
    modifies doc.elements, doc.attributes
    ensures WellLinked(doc)
    ensures parent.attributes == old(parent.attributes[..k]) + [attribute] + old(parent.attributes[k..])
    ensures forall e :: e in doc.elements && e != parent ==> e.attributes == old(e.attributes)
    ensures forall a :: a in doc.attributes && a != attribute ==> a.parent == old(a.parent)
  {
    parent.ParentOfAttributes();
    parent.InsertAttribute(where, attribute, k);
    AttributesStay(doc, parent);
  }

  method Remove(parent: XmlElement, where: XmlAttribute, ghost k: nat, ghost doc: AttributeDocument)
    requires WellLinked(doc) && parent in doc.elements && k < |parent.attributes| && where == parent.attributes[k]
    modifies doc.elements, doc.attributes
    ensures WellLinked(doc)
    ensures where.parent == null
    ensures parent.attributes == old(parent.attributes[..k]) + old(parent.attributes[k + 1..])
    ensures forall e :: e in doc.elements && e != parent ==> e.attributes == old(e.attributes)
    ensures forall a :: a in doc.attributes && a != where ==> a.parent == old(a.parent)
  {
    parent.ParentOfAttributes();
    parent.RemoveAttribute(where, k);
    AttributesStay(doc, parent);
  }

  method RemoveAll(parent: XmlElement, ghost doc: AttributeDocument)
    requires WellLinked(doc) && parent in doc.elements
    modifies doc.elements, doc.attributes
    ensures WellLinked(doc)
    ensures parent.attributes == []
    ensures forall a :: a in old(parent.attributes) ==> a.parent == null
    ensures forall e :: e in doc.elements && e != parent ==> e.attributes == old(e.attributes)
    ensures forall a :: a in doc.attributes && a !in old(parent.attributes) ==> a.parent == old(a.parent)
  {
    parent.ParentOfAttributes();
    parent.RemoveAllAttributes();
    AttributesStay(doc, parent);
  }
}
