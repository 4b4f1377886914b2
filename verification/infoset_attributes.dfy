/**
 * Attribute selection (Infoset+Attributes.swift; the legacy
 * Select+Attributes.swift is the same code over `Selection`).
 *
 * Swift hands out `element.attributes.values` in dictionary order; the
 * model fixes that order to the names sorted by `Names.Precedes`.
 */
module InfosetAttributes {
  import opened Wrappers
  import opened Names
  import opened Dom
  import opened Infoset

  /** The attribute names of a map, in the order the model gives `attributes.values`. */
  function SortedNames(attrs: map<QName, NodeId>): (r: seq<QName>)
    ensures |r| == |attrs.Keys|
    ensures forall q :: q in r <==> q in attrs
    ensures forall i, j :: 0 <= i < j < |r| ==> r[i] != r[j]
    ensures forall i, j :: 0 <= i < j < |r| ==> Precedes(r[i], r[j])
    ensures forall i, j :: 0 <= i < j < |r| ==> !Strings.Less(Description(r[j]), Description(r[i]))
  {
    var r := SortedQNames(attrs.Keys);
    forall i, j | 0 <= i < j < |r| ensures r[i] != r[j] && !Strings.Less(Description(r[j]), Description(r[i])) {
      PrecedesIrreflexive(r[i]);
      PrecedesByDescription(r[i], r[j]);
    }
    r
  }

  /** The attributes stored under `names`, in that order. */
  function Values(attrs: map<QName, NodeId>, names: seq<QName>): (r: seq<NodeId>)
    requires forall k :: 0 <= k < |names| ==> names[k] in attrs
    ensures |r| == |names|
    ensures forall k :: 0 <= k < |r| ==> r[k] == attrs[names[k]]
  {
    if |names| == 0 then [] else [attrs[names[0]]] + Values(attrs, names[1..])
  }

  /** `x` is one of the attributes of the element `e`. */
  predicate HasAttribute(st: Store, e: NodeId, x: NodeId)
  {
    IsElement(st, e) && x in st.nodes[e].content.attributes.Values
  }

  /** `x` is an attribute node named `q`: the test `attr.name() == qname`. */
  predicate AttributeNamed(st: Store, x: NodeId, q: QName)
  {
    x in st.nodes && st.nodes[x].content.AttributeNode? && st.nodes[x].content.name == q
  }

  /** The attributes of one node: all of them for an element, none for any other kind. */
  function OwnAttributes(st: Store, e: NodeId): (r: seq<NodeId>)
    requires Valid(st) && e in st.nodes
    ensures forall x :: x in r <==> HasAttribute(st, e, x)
    ensures forall k :: 0 <= k < |r| ==> r[k] in st.nodes && st.nodes[r[k]].content.AttributeNode?
                                         && st.nodes[r[k]].parent == Some(e)
  {
    if IsElement(st, e) then
      var attrs := st.nodes[e].content.attributes;
      var names := SortedNames(attrs);
      var r := Values(attrs, names);
      ValuesCover(attrs, names);
      ValuesAreAttributes(st, e, names);
      r
    else []
  }

  /** The attributes listed under every name of the map, each name at least once, are exactly the map's values. */
  lemma ValuesCover(attrs: map<QName, NodeId>, names: seq<QName>)
    requires forall q :: q in names <==> q in attrs
    ensures forall x :: x in Values(attrs, names) <==> x in attrs.Values
  {
    var r := Values(attrs, names);
    forall x | x in r ensures x in attrs.Values {
      var k :| 0 <= k < |r| && r[k] == x;
      assert names[k] in attrs;
    }
    forall x | x in attrs.Values ensures x in r {
      var q :| q in attrs && attrs[q] == x;
      var k :| 0 <= k < |names| && names[k] == q;
      assert r[k] == x;
    }
  }

  /** The attributes an element lists under its own names are its attribute nodes. */
  lemma ValuesAreAttributes(st: Store, e: NodeId, names: seq<QName>)
    requires Valid(st) && IsElement(st, e)
    requires forall k :: 0 <= k < |names| ==> names[k] in st.nodes[e].content.attributes
    ensures var r := Values(st.nodes[e].content.attributes, names);
            forall k :: 0 <= k < |r| ==> r[k] in st.nodes && st.nodes[r[k]].content.AttributeNode?
                                         && st.nodes[r[k]].parent == Some(e)
  {
    assert NodeOk(st, e);
    var attrs := st.nodes[e].content.attributes;
    var r := Values(attrs, names);
    forall k | 0 <= k < |r| ensures AttributeOk(st, e, names[k], r[k]) {
      assert r[k] == attrs[names[k]];
    }
  }

  /** `attributeNodes()`: the attributes of every selected element, element by element. */
  function AttributeNodes(st: Store, nodes: seq<NodeId>): (r: seq<NodeId>)
    requires Valid(st) && InStore(st, nodes)
    ensures InStore(st, r)
    ensures forall k :: 0 <= k < |r| ==> st.nodes[r[k]].content.AttributeNode?
    ensures forall x :: x in r <==> exists k :: 0 <= k < |nodes| && HasAttribute(st, nodes[k], x)
    decreases |nodes|
  {
    if |nodes| == 0 then []
    else
      var own := OwnAttributes(st, nodes[0]);
      var rest := AttributeNodes(st, nodes[1..]);
      forall x | x in rest ensures exists k :: 0 <= k < |nodes| && HasAttribute(st, nodes[k], x) {
        var k :| 0 <= k < |nodes[1..]| && HasAttribute(st, nodes[1..][k], x);
        assert nodes[k + 1] == nodes[1..][k];
      }
      forall x | exists k :: 0 <= k < |nodes| && HasAttribute(st, nodes[k], x) ensures x in own + rest {
        var k :| 0 <= k < |nodes| && HasAttribute(st, nodes[k], x);
        if k > 0 { assert nodes[1..][k - 1] == nodes[k]; }
      }
      InStoreAppend(st, own, rest);
      own + rest
  }

  /** `attr()`: every attribute of every selected element. */
  function Attr(st: Store, s: Selection): (r: Selection)
    requires Valid(st) && SelectionOk(st, s)
    ensures SelectionOk(st, r) && r.document == s.document
    ensures forall k :: 0 <= k < |r.nodes| ==> st.nodes[r.nodes[k]].content.AttributeNode?
    ensures forall x :: x in r.nodes <==> exists k :: 0 <= k < |s.nodes| && HasAttribute(st, s.nodes[k], x)
  {
    Selection(AttributeNodes(st, s.nodes), s.document)
  }

  /** `attr(qname)`: the collected attributes named `qname`, in collection order. */
  function AttrQName(st: Store, s: Selection, q: QName): (r: Selection)
    requires Valid(st) && SelectionOk(st, s)
    ensures SelectionOk(st, r) && r.document == s.document
    ensures forall k :: 0 <= k < |r.nodes| ==> AttributeNamed(st, r.nodes[k], q)
    ensures forall x :: x in r.nodes <==>
              AttributeNamed(st, x, q) && exists k :: 0 <= k < |s.nodes| && HasAttribute(st, s.nodes[k], x)
  {
    var all := AttributeNodes(st, s.nodes);
    var r := Filter(all, (x: NodeId) => AttributeNamed(st, x, q));
    assert forall k :: 0 <= k < |r| ==> r[k] in r;
    Selection(r, s.document)
  }

  /** The attribute each selected element stores under `q`, if it has one: never more than one per node. */
  function Lookups(st: Store, nodes: seq<NodeId>, q: QName): (r: seq<NodeId>)
    ensures |r| <= |nodes|
  {
    if |nodes| == 0 then []
    else
      (if IsElement(st, nodes[0]) && q in st.nodes[nodes[0]].content.attributes
       then [st.nodes[nodes[0]].content.attributes[q]] else [])
      + Lookups(st, nodes[1..], q)
  }

  /**
   * `attr(qname)` is the lookup of `qname` in each selected element's
   * attribute map, so it holds at most one attribute per element.
   */
  lemma {:induction false} AttrQNameIsLookup(st: Store, s: Selection, q: QName)
    requires Valid(st) && SelectionOk(st, s)
    ensures AttrQName(st, s, q).nodes == Lookups(st, s.nodes, q)
    ensures |AttrQName(st, s, q).nodes| <= |s.nodes|
  {
    AttributeNodesLookup(st, s.nodes, q);
  }

  lemma {:induction false} AttributeNodesLookup(st: Store, nodes: seq<NodeId>, q: QName)
    requires Valid(st) && InStore(st, nodes)
    ensures Filter(AttributeNodes(st, nodes), (x: NodeId) => AttributeNamed(st, x, q)) == Lookups(st, nodes, q)
    decreases |nodes|
  {
    if |nodes| > 0 {
      var keep := (x: NodeId) => AttributeNamed(st, x, q);
      var own := OwnAttributes(st, nodes[0]);
      FilterAppend(own, AttributeNodes(st, nodes[1..]), keep);
      AttributeNodesLookup(st, nodes[1..], q);
      if IsElement(st, nodes[0]) {
        var attrs := st.nodes[nodes[0]].content.attributes;
        assert NodeOk(st, nodes[0]);
        OwnLookup(st, nodes[0], attrs, SortedNames(attrs), q);
      }
    }
  }

  /** Among distinct names whose attributes are named after their keys, only the key `q` passes the name test. */
  lemma {:induction false} OwnLookup(st: Store, e: NodeId, attrs: map<QName, NodeId>, names: seq<QName>, q: QName)
    requires forall k :: 0 <= k < |names| ==> names[k] in attrs && AttributeOk(st, e, names[k], attrs[names[k]])
    requires forall i, j :: 0 <= i < j < |names| ==> names[i] != names[j]
    ensures Filter(Values(attrs, names), (x: NodeId) => AttributeNamed(st, x, q))
              == if q in names then [attrs[q]] else []
    decreases |names|
  {
    if |names| > 0 {
      assert AttributeOk(st, e, names[0], attrs[names[0]]);
      OwnLookup(st, e, attrs, names[1..], q);
      assert q in names <==> q == names[0] || q in names[1..];
      assert names[0] !in names[1..];
    }
  }

  /** `attr(name)`: the name resolved without the default namespace. */
  function AttrName(st: Store, s: Selection, name: string): (r: Selection)
    requires Valid(st) && SelectionOk(st, s)
    ensures SelectionOk(st, r) && r.document == s.document
    ensures forall k :: 0 <= k < |r.nodes| ==>
              AttributeNamed(st, r.nodes[k], ResolveQName(NamespaceContextOf(st, s), name, false))
    ensures forall x :: x in r.nodes <==>
              && AttributeNamed(st, x, ResolveQName(NamespaceContextOf(st, s), name, false))
              && exists k :: 0 <= k < |s.nodes| && HasAttribute(st, s.nodes[k], x)
  {
    AttrQName(st, s, ResolveQName(NamespaceContextOf(st, s), name, false))
  }

  /** An unprefixed attribute name never picks up the document's default namespace. */
  lemma AttrNameIgnoresDefault(st: Store, s: Selection, name: string)
    requires Valid(st) && SelectionOk(st, s) && ':' !in name
    ensures AttrName(st, s, name) == AttrQName(st, s, Unqualified(name))
  {
    ResolvePlainName(NamespaceContextOf(st, s), name, false);
  }
}
