/**
 * Tree edits through a selection (Infoset+Manipulation.swift). Each edit
 * returns the updated store together with the selection the Swift method
 * returns.
 */
module InfosetManipulation {
  import opened Wrappers
  import opened Names
  import opened Dom
  import opened Infoset
  import opened InfosetAttributes

  /** An edited store and the selection the edit returns. */
  datatype Edit = Edit(store: Store, selection: Selection)

  /** A node `appendElement` can append to. */
  predicate Container(st: Store, x: NodeId)
  {
    IsElement(st, x) || IsDocument(st, x)
  }

  /** The position of the first element or document among `nodes`. */
  function FirstContainer(st: Store, nodes: seq<NodeId>): (r: Option<nat>)
    ensures r.Some? ==> r.value < |nodes| && Container(st, nodes[r.value])
    ensures r.Some? ==> forall j :: 0 <= j < r.value ==> !Container(st, nodes[j])
    ensures r.None? <==> forall j :: 0 <= j < |nodes| ==> !Container(st, nodes[j])
  {
    if |nodes| == 0 then None
    else if Container(st, nodes[0]) then Some(0)
    else match FirstContainer(st, nodes[1..])
      case None => None
      case Some(i) => Some(i + 1)
  }

  // ------------------------------------------------------------ appendElement

  /** `Element.appendElement` or `Document.appendElement`, whichever `t` calls for. */
  function AppendTo(st: Store, t: NodeId, q: QName): (r: Appended)
    requires Valid(st) && Container(st, t)
    ensures Valid(r.store) && Grows(st, r.store)
    ensures r.node !in st.nodes && r.store.nodes.Keys == st.nodes.Keys + {r.node}
    ensures r.store.nodes[r.node].parent == Some(t) && r.store.nodes[r.node].children == []
    ensures ElementNamed(r.store, r.node, q)
    ensures forall x | x in st.nodes && x != t :: r.store.nodes[x] == st.nodes[x]
  {
    if IsElement(st, t) then
      var a := AppendElement(st, t, q);
      assert ElementNamed(a.store, a.node, q);
      a
    else
      var a := DocumentAppendElement(st, t, q);
      assert ElementNamed(a.store, a.node, q);
      assert !IsDocument(st, t) ==> false;
      a
  }

  /** Appending to an element puts the new element after the children it had. */
  lemma AppendToElement(st: Store, t: NodeId, q: QName)
    requires Valid(st) && IsElement(st, t)
    ensures AppendTo(st, t, q).store.nodes[t].children == st.nodes[t].children + [AppendTo(st, t, q).node]
  {
    var a := AppendElement(st, t, q);
    assert a == AppendTo(st, t, q);
  }

  /** Appending to a document replaces its children and its document element by the new element. */
  lemma AppendToDocument(st: Store, t: NodeId, q: QName)
    requires Valid(st) && IsDocument(st, t)
    ensures var a := AppendTo(st, t, q);
            a.store.nodes[t].children == [a.node] && a.store.nodes[t].content.documentElement == Some(a.node)
  {
    var a := DocumentAppendElement(st, t, q);
    assert a == AppendTo(st, t, q);
  }

  /**
   * `appendElement(qname)`: appends to the first selected element or
   * document only and selects the new element; `EMPTY` when the selection
   * holds neither.
   */
  function AppendElementTo(st: Store, s: Selection, q: QName): (r: Edit)
    requires Valid(st) && SelectionOk(st, s)
    ensures Valid(r.store) && Grows(st, r.store) && SelectionOk(r.store, r.selection)
    ensures FirstContainer(st, s.nodes).None? ==> r == Edit(st, Empty())
    ensures FirstContainer(st, s.nodes).Some? ==>
              var a := AppendTo(st, s.nodes[FirstContainer(st, s.nodes).value], q);
              r.store == a.store && r.selection.nodes == [a.node]
  {
    match FirstContainer(st, s.nodes)
    case None => Edit(st, Empty())
    case Some(i) =>
      var a := AppendTo(st, s.nodes[i], q);
      Edit(a.store, Single(a.store, a.node))
  }

  /**
   * Appending to an element adds the new element after the element
   * children named `q` it already had; appending to a document leaves the
   * new element as the only one.
   */
  lemma AppendToThenSelect(st: Store, t: NodeId, q: QName)
    requires Valid(st) && Container(st, t)
    ensures var a := AppendTo(st, t, q);
            ChildElementsNamed(a.store, [t], q)
              == (if IsElement(st, t) then ChildElementsNamed(st, [t], q) else []) + [a.node]
  {
    var a := AppendTo(st, t, q);
    ChildElementsNamedOfOne(a.store, t, q);
    if IsElement(st, t) {
      ChildElementsNamedOfOne(st, t, q);
      AppendToElement(st, t, q);
      AppendedNamedChildren(st, a.store, t, a.node, q);
    } else {
      AppendToDocument(st, t, q);
    }
  }

  lemma ChildElementsNamedOfOne(st: Store, t: NodeId, q: QName)
    requires Valid(st) && t in st.nodes
    ensures ChildElementsNamed(st, [t], q) == Filter(st.nodes[t].children, (x: NodeId) => ElementNamed(st, x, q))
  {
    assert [t][1..] == [];
  }

  lemma AppendedNamedChildren(st: Store, st': Store, t: NodeId, n: NodeId, q: QName)
    requires Valid(st) && t in st.nodes && t in st'.nodes && ElementNamed(st', n, q)
    requires st'.nodes[t].children == st.nodes[t].children + [n]
    requires st.nodes.Keys <= st'.nodes.Keys
    requires forall x | x in st.nodes && x != t :: st'.nodes[x] == st.nodes[x]
    ensures Filter(st'.nodes[t].children, (x: NodeId) => ElementNamed(st', x, q))
              == Filter(st.nodes[t].children, (x: NodeId) => ElementNamed(st, x, q)) + [n]
  {
    var before := st.nodes[t].children;
    var keepNew := (x: NodeId) => ElementNamed(st', x, q);
    var keepOld := (x: NodeId) => ElementNamed(st, x, q);
    assert NodeOk(st, t);
    forall k | 0 <= k < |before| ensures keepNew(before[k]) == keepOld(before[k]) {
      assert ChildOk(st, t, before[k]);
      assert st'.nodes[before[k]] == st.nodes[before[k]];
    }
    FilterAppend(before, [n], keepNew);
    FilterCongruent(before, keepNew, keepOld);
    assert Filter([n], keepNew) == [n] + Filter([], keepNew);
  }


  /** Drops `n` from its parent's children; the node keeps its parent link, as in the source. */
  function RemoveOne(st: Store, n: NodeId): (r: Store)
    requires Valid(st) && n in st.nodes
    ensures Valid(r) && r.nodes.Keys == st.nodes.Keys && r.next == st.next
    ensures forall x | x in st.nodes ::
              r.nodes[x] == st.nodes[x].(children := Filter(st.nodes[x].children, (c: NodeId) => c != n))
  {
    assert NodeOk(st, n);
    match st.nodes[n].parent
    case None =>
      forall x | x in st.nodes ensures Filter(st.nodes[x].children, (c: NodeId) => c != n) == st.nodes[x].children {
        NotAChild(st, x, n);
      }
      st
    case Some(p) =>
      var kept := Filter(st.nodes[p].children, (c: NodeId) => c != n);
      assert NodeOk(st, p);
      forall x | x in st.nodes && x != p ensures Filter(st.nodes[x].children, (c: NodeId) => c != n) == st.nodes[x].children {
        NotAChild(st, x, n);
      }
      SetChildren(st, p, kept)
  }

  /** A node is among the children of its parent only. */
  lemma NotAChild(st: Store, x: NodeId, n: NodeId)
    requires Valid(st) && x in st.nodes && n in st.nodes && st.nodes[n].parent != Some(x)
    ensures Filter(st.nodes[x].children, (c: NodeId) => c != n) == st.nodes[x].children
  {
    assert NodeOk(st, x);
    var cs := st.nodes[x].children;
    assert forall k :: 0 <= k < |cs| ==> ChildOk(st, x, cs[k]);
    FilterKeepsAll(cs, (c: NodeId) => c != n);
  }

  /** Every node in turn dropped from its parent's children. */
  function RemoveAll(st: Store, nodes: seq<NodeId>): (r: Store)
    requires Valid(st) && InStore(st, nodes)
    ensures Valid(r) && r.nodes.Keys == st.nodes.Keys && r.next == st.next
    ensures forall x | x in st.nodes ::
              r.nodes[x] == st.nodes[x].(children := Filter(st.nodes[x].children, (c: NodeId) => c !in nodes))
    decreases |nodes|
  {
    if |nodes| == 0 then
      forall x | x in st.nodes ensures Filter(st.nodes[x].children, (c: NodeId) => c !in nodes) == st.nodes[x].children {
        FilterKeepsAll(st.nodes[x].children, (c: NodeId) => c !in nodes);
      }
      st
    else
      var first := RemoveOne(st, nodes[0]);
      var r := RemoveAll(first, nodes[1..]);
      forall x | x in st.nodes
        ensures r.nodes[x] == st.nodes[x].(children := Filter(st.nodes[x].children, (c: NodeId) => c !in nodes))
      {
        FilterTwice(st.nodes[x].children, (c: NodeId) => c != nodes[0], (c: NodeId) => c !in nodes[1..],
                    (c: NodeId) => c !in nodes);
      }
      r
  }

  /**
   * `remove()`: every selected node leaves its parent's children, the other
   * children keeping their order; returns `parent()` as it was before.
   */
  function Remove(st: Store, s: Selection): (r: Edit)
    requires Valid(st) && SelectionOk(st, s)
    ensures Valid(r.store) && r.store.nodes.Keys == st.nodes.Keys && r.store.next == st.next
    ensures r.selection == Parent(st, s) && SelectionOk(r.store, r.selection)
    ensures forall x | x in st.nodes ::
              r.store.nodes[x] == st.nodes[x].(children := Filter(st.nodes[x].children, (c: NodeId) => c !in s.nodes))
  {
    var p := Parent(st, s);
    var r := RemoveAll(st, s.nodes);
    assert forall k :: 0 <= k < |p.nodes| ==> p.nodes[k] in st.nodes;
    Edit(r, p)
  }

  /** After `remove()` no node has a selected node among its children, and every other child is still there. */
  lemma RemoveDetaches(st: Store, s: Selection, x: NodeId, c: NodeId)
    requires Valid(st) && SelectionOk(st, s) && x in st.nodes
    ensures c in Remove(st, s).store.nodes[x].children <==> c in st.nodes[x].children && c !in s.nodes
  {
  }

  // ------------------------------------------------------------ clear

  /** Every node of `nodes` left without children. */
  function ClearAll(st: Store, nodes: seq<NodeId>): (r: Store)
    requires Valid(st) && InStore(st, nodes)
    ensures Valid(r) && r.nodes.Keys == st.nodes.Keys && r.next == st.next
    ensures forall x | x in st.nodes :: r.nodes[x] == if x in nodes then st.nodes[x].(children := []) else st.nodes[x]
    decreases |nodes|
  {
    if |nodes| == 0 then st
    else
      var first := SetChildren(st, nodes[0], []);
      ClearAll(first, nodes[1..])
  }

  /** `clear()`: every selected node loses its children; the selection itself is returned. */
  function Clear(st: Store, s: Selection): (r: Edit)
    requires Valid(st) && SelectionOk(st, s)
    ensures Valid(r.store) && r.store.nodes.Keys == st.nodes.Keys
    ensures r.selection == s && SelectionOk(r.store, s)
    ensures forall k :: 0 <= k < |s.nodes| ==> r.store.nodes[s.nodes[k]].children == []
    ensures forall x | x in st.nodes && x !in s.nodes :: r.store.nodes[x] == st.nodes[x]
  {
    Edit(ClearAll(st, s.nodes), s)
  }

  /** After `clear()` selecting the children of the selection finds nothing. */
  lemma {:induction false} ClearThenSelect(st: Store, s: Selection)
    requires Valid(st) && SelectionOk(st, s)
    ensures var r := Clear(st, s); Select(r.store, r.selection).nodes == []
  {
    var r := Clear(st, s);
    NoChildren(r.store, s.nodes);
  }

  lemma {:induction false} NoChildren(st: Store, nodes: seq<NodeId>)
    requires Valid(st) && InStore(st, nodes)
    requires forall k :: 0 <= k < |nodes| ==> st.nodes[nodes[k]].children == []
    ensures ChildNodes(st, nodes) == []
    decreases |nodes|
  {
    if |nodes| > 0 {
      NoChildren(st, nodes[1..]);
    }
  }

  // ------------------------------------------------------------ manipulate

  /** `manipulate(closure)`: the closure's edit of the store, and the receiver returned as it was. */
  function Manipulate(st: Store, s: Selection, edit: (Store, Selection) -> Store): (r: Edit)
    ensures r.selection == s
    ensures r.store == edit(st, s)
  {
    Edit(edit(st, s), s)
  }

  /** Clearing through `manipulate` edits the store as `clear()` does and still returns the receiver. */
  lemma ManipulateClear(st: Store, s: Selection)
    requires Valid(st) && SelectionOk(st, s)
    ensures var edit := (t: Store, u: Selection) => if Valid(t) && SelectionOk(t, u) then Clear(t, u).store else t;
            Manipulate(st, s, edit) == Clear(st, s)
  {
  }

  // ------------------------------------------------------------ attr(_:setValue:)

  /** The element `e` stores under `q` an attribute holding `v`. */
  predicate HoldsAttribute(st: Store, e: NodeId, q: QName, v: string)
  {
    && IsElement(st, e) && q in st.nodes[e].content.attributes
    && var a := st.nodes[e].content.attributes[q];
    && a in st.nodes && st.nodes[a].content == AttributeNode(q, Some(v))
  }

  /** `e` is the same element in `r` as in `st` except for what is stored under `q`. */
  predicate OnlyAttributeChanged(st: Store, r: Store, e: NodeId, q: QName)
    requires IsElement(st, e)
  {
    && IsElement(r, e)
    && var c, c' := st.nodes[e].content, r.nodes[e].content;
    && r.nodes[e].parent == st.nodes[e].parent && r.nodes[e].children == st.nodes[e].children
    && c'.name == c.name && c'.namespaceContext == c.namespaceContext
    && c'.sourceNamespaceContext == c.sourceNamespaceContext
    && c'.attributes.Keys == c.attributes.Keys + {q}
    && forall k | k in c.attributes && k != q :: c'.attributes[k] == c.attributes[k]
  }

  /** `appendAttribute(q, withValue: v)` on one node when it is an element. */
  function SetAttribute(st: Store, n: NodeId, q: QName, v: string): (r: Store)
    requires Valid(st) && n in st.nodes
    ensures Valid(r) && Grows(st, r)
    ensures IsElement(st, n) ==> HoldsAttribute(r, n, q, v) && OnlyAttributeChanged(st, r, n, q)
    ensures forall x | x in st.nodes && x != n :: r.nodes[x] == st.nodes[x]
    ensures !IsElement(st, n) ==> r == st
  {
    if IsElement(st, n) then AppendAttribute(st, n, q, v).store else st
  }

  /** Sets `q = v` on every selected element, in selection order. */
  function SetAttributes(st: Store, nodes: seq<NodeId>, q: QName, v: string): (r: Store)
    requires Valid(st) && InStore(st, nodes)
    ensures Valid(r) && Grows(st, r)
    ensures forall k :: 0 <= k < |nodes| && IsElement(st, nodes[k]) ==>
              HoldsAttribute(r, nodes[k], q, v) && OnlyAttributeChanged(st, r, nodes[k], q)
    ensures forall x | x in st.nodes && (x !in nodes || !IsElement(st, x)) :: r.nodes[x] == st.nodes[x]
    decreases |nodes|
  {
    if |nodes| == 0 then st
    else
      var first := SetAttribute(st, nodes[0], q, v);
      assert InStore(first, nodes[1..]);
      var r := SetAttributes(first, nodes[1..], q, v);
      FirstStaysAttributed(st, first, r, nodes, q, v);
      UnselectedStay(st, first, r, nodes);
      r
  }

  lemma UnselectedStay(st: Store, first: Store, r: Store, nodes: seq<NodeId>)
    requires |nodes| > 0 && InStore(st, nodes) && Grows(st, first) && Grows(first, r)
    requires forall x | x in st.nodes && x != nodes[0] :: first.nodes[x] == st.nodes[x]
    requires !IsElement(st, nodes[0]) ==> first == st
    requires forall x | x in first.nodes && (x !in nodes[1..] || !IsElement(first, x)) :: r.nodes[x] == first.nodes[x]
    ensures forall x | x in st.nodes && (x !in nodes || !IsElement(st, x)) :: r.nodes[x] == st.nodes[x]
  {
    forall x | x in st.nodes && (x !in nodes || !IsElement(st, x)) ensures r.nodes[x] == st.nodes[x] {
      if x != nodes[0] {
        assert first.nodes[x] == st.nodes[x];
        assert x !in nodes ==> x !in nodes[1..];
      }
    }
  }

  /** The attribute written for the first selected element is still in place at the end. */
  lemma FirstStaysAttributed(st: Store, first: Store, r: Store, nodes: seq<NodeId>, q: QName, v: string)
    requires |nodes| > 0 && InStore(st, nodes) && Grows(st, first) && Grows(first, r)
    requires IsElement(st, nodes[0]) ==> HoldsAttribute(first, nodes[0], q, v) && OnlyAttributeChanged(st, first, nodes[0], q)
    requires forall x | x in st.nodes && x != nodes[0] :: first.nodes[x] == st.nodes[x]
    requires forall x | x in first.nodes && (x !in nodes[1..] || !IsElement(first, x)) :: r.nodes[x] == first.nodes[x]
    requires forall k :: 0 <= k < |nodes[1..]| && IsElement(first, nodes[1..][k]) ==>
               HoldsAttribute(r, nodes[1..][k], q, v) && OnlyAttributeChanged(first, r, nodes[1..][k], q)
    ensures forall k :: 0 <= k < |nodes| && IsElement(st, nodes[k]) ==>
              HoldsAttribute(r, nodes[k], q, v) && OnlyAttributeChanged(st, r, nodes[k], q)
  {
    forall k | 0 <= k < |nodes| && IsElement(st, nodes[k])
      ensures HoldsAttribute(r, nodes[k], q, v) && OnlyAttributeChanged(st, r, nodes[k], q)
    {
      var e := nodes[k];
      if e in nodes[1..] {
        var j :| 0 <= j < |nodes[1..]| && nodes[1..][j] == e;
        if e != nodes[0] {
          assert first.nodes[e] == st.nodes[e];
        }
        assert IsElement(first, e);
        assert OnlyAttributeChanged(first, r, e, q);
      } else {
        assert e == nodes[0];
        var a := first.nodes[e].content.attributes[q];
        assert r.nodes[e] == first.nodes[e];
        assert !IsElement(first, a);
        assert r.nodes[a] == first.nodes[a];
      }
    }
  }

  /** `attr(qname, setValue: v)`: sets the attribute on every selected element and returns `attr(qname)`. */
  function SetAttr(st: Store, s: Selection, q: QName, v: string): (r: Edit)
    requires Valid(st) && SelectionOk(st, s)
    ensures Valid(r.store) && Grows(st, r.store) && SelectionOk(r.store, r.selection)
    ensures r.selection.document == s.document
    ensures forall k :: 0 <= k < |s.nodes| && IsElement(st, s.nodes[k]) ==>
              HoldsAttribute(r.store, s.nodes[k], q, v) && OnlyAttributeChanged(st, r.store, s.nodes[k], q)
    ensures forall x | x in st.nodes && (x !in s.nodes || !IsElement(st, x)) :: r.store.nodes[x] == st.nodes[x]
  {
    var st' := SetAttributes(st, s.nodes, q, v);
    assert SelectionOk(st', s) by {
      if s.document.Some? {
        var d := s.document.value;
        assert !IsElement(st, d);
      }
    }
    Edit(st', AttrQName(st', s, q))
  }

  /**
   * What `attr(qname, setValue: v)` returns: one attribute for each selected
   * element, in selection order, each named `qname` and holding `v`.
   */
  lemma {:induction false} SetAttrSelectsWritten(st: Store, s: Selection, q: QName, v: string)
    requires Valid(st) && SelectionOk(st, s)
    ensures var r := SetAttr(st, s, q, v);
            && |r.selection.nodes| == |Filter(s.nodes, (x: NodeId) => IsElement(st, x))|
            && forall k :: 0 <= k < |r.selection.nodes| ==>
                 r.store.nodes[r.selection.nodes[k]].content == AttributeNode(q, Some(v))
  {
    var r := SetAttr(st, s, q, v);
    AttrQNameIsLookup(r.store, s, q);
    WrittenLookups(st, r.store, s.nodes, q, v);
  }

  lemma {:induction false} WrittenLookups(st: Store, r: Store, nodes: seq<NodeId>, q: QName, v: string)
    requires InStore(st, nodes) && Grows(st, r)
    requires forall k :: 0 <= k < |nodes| && IsElement(st, nodes[k]) ==> HoldsAttribute(r, nodes[k], q, v)
    requires forall k :: 0 <= k < |nodes| ==> (IsElement(r, nodes[k]) <==> IsElement(st, nodes[k]))
    ensures |Lookups(r, nodes, q)| == |Filter(nodes, (x: NodeId) => IsElement(st, x))|
    ensures forall k :: 0 <= k < |Lookups(r, nodes, q)| ==>
              Lookups(r, nodes, q)[k] in r.nodes && r.nodes[Lookups(r, nodes, q)[k]].content == AttributeNode(q, Some(v))
    decreases |nodes|
  {
    if |nodes| > 0 {
      WrittenLookups(st, r, nodes[1..], q, v);
    }
  }
}
