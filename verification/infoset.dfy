/**
 * The selection algebra of Infoset.swift (shared, line for line, by the
 * legacy `Selection` of Select.swift).
 *
 * A selection is the sequence of selected node ids and the document it was
 * selected from. The document is `None` when it is a `Document()` the
 * selection made up itself and which is not in the store: the document of
 * `EMPTY`, and of a node with no document above it.
 */
module Infoset {
  import opened Wrappers
  import opened Names
  import Strings
  import opened Dom

  datatype Selection = Selection(nodes: seq<NodeId>, document: Option<NodeId>)

  /** A selector of `select(_:)` and the subscripts: `Int`, `String`, `QName`, or any other type. */
  datatype Selector =
    | Index(index: int)
    | Name(name: string)
    | Qualified(qname: QName)
    | Other

  predicate InStore(st: Store, nodes: seq<NodeId>)
  {
    forall k :: 0 <= k < |nodes| ==> nodes[k] in st.nodes
  }

  /** Two sequences of stored nodes joined are stored nodes; an element of the join is one of either. */
  lemma InStoreAppend(st: Store, a: seq<NodeId>, b: seq<NodeId>)
    requires InStore(st, a) && InStore(st, b)
    ensures InStore(st, a + b) && forall x :: x in a + b <==> x in a || x in b
  {
    forall k | 0 <= k < |a + b| ensures (a + b)[k] in st.nodes {
      if k >= |a| { assert (a + b)[k] == b[k - |a|]; }
    }
  }

  predicate SelectionOk(st: Store, s: Selection)
  {
    InStore(st, s.nodes) && (s.document.Some? ==> IsDocument(st, s.document.value))
  }

  /** `Infoset.EMPTY` as a value. */
  function Empty(): Selection
  {
    Selection([], None)
  }

  /**
   * `Infoset(node)`: the node alone, from the nearest document at or above
   * it (a document is its own), or from a made-up one.
   */
  function Single(st: Store, n: NodeId): (r: Selection)
    requires Valid(st) && n in st.nodes
    ensures r.nodes == [n] && SelectionOk(st, r)
    ensures IsDocument(st, n) ==> r.document == Some(n)
    ensures r.document.Some? ==> Under(st, r.document.value, n)
    ensures r.document.None? <==> forall a :: a in Ancestors(st, n) ==> !IsDocument(st, a)
  {
    var d := ParentDocument(st, n);
    assert IsDocument(st, n) ==> Ancestors(st, n)[0] == n;
    assert (forall a :: a in Ancestors(st, n) ==> !IsDocument(st, a))
           <==> (forall k :: 0 <= k < |Ancestors(st, n)| ==> !IsDocument(st, Ancestors(st, n)[k]));
    Selection([n], d)
  }

  /** `Infoset.namespaceContext` getter (the value; see `Dom.MaterializeDocumentContext` for the write it implies). */
  function NamespaceContextOf(st: Store, s: Selection): Context
    requires Valid(st) && SelectionOk(st, s)
  {
    DocumentContext(st, s.document)
  }

  // ------------------------------------------------------------ children

  /** `childNodes()`: the children of every selected node, in selection order. */
  function ChildNodes(st: Store, nodes: seq<NodeId>): (r: seq<NodeId>)
    requires Valid(st) && InStore(st, nodes)
    ensures InStore(st, r)
    ensures forall x :: x in r <==> exists k :: 0 <= k < |nodes| && x in st.nodes[nodes[k]].children
    ensures |nodes| == 0 ==> r == []
    ensures |nodes| == 1 ==> r == st.nodes[nodes[0]].children
  {
    if |nodes| == 0 then []
    else
      assert NodeOk(st, nodes[0]);
      var rest := ChildNodes(st, nodes[1..]);
      forall x | x in rest ensures exists k :: 0 <= k < |nodes| && x in st.nodes[nodes[k]].children {
        var k :| 0 <= k < |nodes[1..]| && x in st.nodes[nodes[1..][k]].children;
        assert nodes[1..][k] == nodes[k + 1];
      }
      forall x | exists k :: 0 <= k < |nodes| && x in st.nodes[nodes[k]].children
        ensures x in st.nodes[nodes[0]].children + rest
      {
        var k :| 0 <= k < |nodes| && x in st.nodes[nodes[k]].children;
        if k > 0 { assert nodes[k] == nodes[1..][k - 1]; }
      }
      var own := st.nodes[nodes[0]].children;
      assert forall k :: 0 <= k < |own| ==> ChildOk(st, nodes[0], own[k]);
      assert forall k :: 0 <= k < |own + rest| ==> (own + rest)[k] in st.nodes by {
        forall k | 0 <= k < |own + rest| ensures (own + rest)[k] in st.nodes {
          if k < |own| { assert ChildOk(st, nodes[0], own[k]); } else { assert (own + rest)[k] == rest[k - |own|]; }
        }
      }
      own + rest
  }

  /** Children of a concatenation are the concatenation of the children. */
  lemma {:induction false} ChildNodesAppend(st: Store, a: seq<NodeId>, b: seq<NodeId>)
    requires Valid(st) && InStore(st, a) && InStore(st, b)
    ensures InStore(st, a + b)
    ensures ChildNodes(st, a + b) == ChildNodes(st, a) + ChildNodes(st, b)
    decreases |a|
  {
    if |a| == 0 {
      assert a + b == b;
    } else {
      assert (a + b)[1..] == a[1..] + b;
      ChildNodesAppend(st, a[1..], b);
    }
  }

  /** `select()`: all children of every selected node. */
  function Select(st: Store, s: Selection): (r: Selection)
    requires Valid(st) && SelectionOk(st, s)
    ensures SelectionOk(st, r) && r.document == s.document
    ensures forall x :: x in r.nodes <==> exists k :: 0 <= k < |s.nodes| && x in st.nodes[s.nodes[k]].children
    ensures |s.nodes| == 1 ==> r.nodes == st.nodes[s.nodes[0]].children
  {
    Selection(ChildNodes(st, s.nodes), s.document)
  }

  // ------------------------------------------------------------ filtering

  /** The elements of `xs` that `keep` accepts, in order. */
  function Filter(xs: seq<NodeId>, keep: NodeId -> bool): (r: seq<NodeId>)
    ensures |r| <= |xs|
    ensures forall x :: x in r <==> x in xs && keep(x)
  {
    if |xs| == 0 then [] else (if keep(xs[0]) then [xs[0]] else []) + Filter(xs[1..], keep)
  }

  lemma {:induction false} FilterAppend(a: seq<NodeId>, b: seq<NodeId>, keep: NodeId -> bool)
    ensures Filter(a + b, keep) == Filter(a, keep) + Filter(b, keep)
    decreases |a|
  {
    if |a| == 0 {
      assert a + b == b;
    } else {
      assert (a + b)[1..] == a[1..] + b;
      FilterAppend(a[1..], b, keep);
    }
  }

  /** Tests that agree on every element filter alike. */
  lemma {:induction false} FilterCongruent(xs: seq<NodeId>, f: NodeId -> bool, g: NodeId -> bool)
    requires forall k :: 0 <= k < |xs| ==> f(xs[k]) == g(xs[k])
    ensures Filter(xs, f) == Filter(xs, g)
    decreases |xs|
  {
    if |xs| > 0 {
      FilterCongruent(xs[1..], f, g);
    }
  }

  /** Filtering twice is filtering once by both tests. */
  lemma {:induction false} FilterTwice(xs: seq<NodeId>, f: NodeId -> bool, g: NodeId -> bool, both: NodeId -> bool)
    requires forall k :: 0 <= k < |xs| ==> both(xs[k]) == (f(xs[k]) && g(xs[k]))
    ensures Filter(Filter(xs, f), g) == Filter(xs, both)
    decreases |xs|
  {
    if |xs| > 0 {
      FilterTwice(xs[1..], f, g, both);
      var rest := Filter(xs[1..], f);
      if f(xs[0]) {
        assert Filter(xs, f) == [xs[0]] + rest;
        assert ([xs[0]] + rest)[1..] == rest;
      } else {
        assert Filter(xs, f) == rest;
      }
    }
  }

  /** A filter every element passes keeps the sequence whole. */
  lemma {:induction false} FilterKeepsAll(xs: seq<NodeId>, f: NodeId -> bool)
    requires forall k :: 0 <= k < |xs| ==> f(xs[k])
    ensures Filter(xs, f) == xs
    decreases |xs|
  {
    if |xs| > 0 {
      FilterKeepsAll(xs[1..], f);
    }
  }

  /** `x` is an element named `q`. */
  predicate ElementNamed(st: Store, x: NodeId, q: QName)
  {
    IsElement(st, x) && st.nodes[x].content.name == q
  }

  /** The element children of `nodes` named `q`, node by node, each node's children in order. */
  function ChildElementsNamed(st: Store, nodes: seq<NodeId>, q: QName): (r: seq<NodeId>)
    requires Valid(st) && InStore(st, nodes)
    ensures InStore(st, r)
    ensures forall k :: 0 <= k < |r| ==> ElementNamed(st, r[k], q)
    decreases |nodes|
  {
    if |nodes| == 0 then []
    else
      assert NodeOk(st, nodes[0]);
      var own := Filter(st.nodes[nodes[0]].children, (x: NodeId) => ElementNamed(st, x, q));
      assert forall k :: 0 <= k < |own| ==> own[k] in st.nodes[nodes[0]].children;
      own + ChildElementsNamed(st, nodes[1..], q)
  }

  /** `select(qname)`: the selected nodes' element children named `qname`. */
  function SelectQName(st: Store, s: Selection, q: QName): (r: Selection)
    requires Valid(st) && SelectionOk(st, s)
    ensures SelectionOk(st, r) && r.document == s.document
    ensures forall k :: 0 <= k < |r.nodes| ==> ElementNamed(st, r.nodes[k], q)
    ensures forall x :: x in r.nodes <==> ElementNamed(st, x, q) && exists k :: 0 <= k < |s.nodes| && x in st.nodes[s.nodes[k]].children
  {
    ChildElementsNamedFilters(st, s.nodes, q);
    Selection(ChildElementsNamed(st, s.nodes, q), s.document)
  }

  /**
   * `select(qname)` keeps exactly the element children named `qname` of
   * `select()`, in the same order.
   */
  lemma {:induction false} SelectQNameFiltersChildren(st: Store, s: Selection, q: QName)
    requires Valid(st) && SelectionOk(st, s)
    ensures SelectQName(st, s, q).nodes == Filter(Select(st, s).nodes, (x: NodeId) => ElementNamed(st, x, q))
  {
    ChildElementsNamedFilters(st, s.nodes, q);
  }

  lemma {:induction false} ChildElementsNamedFilters(st: Store, nodes: seq<NodeId>, q: QName)
    requires Valid(st) && InStore(st, nodes)
    ensures ChildElementsNamed(st, nodes, q) == Filter(ChildNodes(st, nodes), (x: NodeId) => ElementNamed(st, x, q))
    decreases |nodes|
  {
    if |nodes| > 0 {
      ChildElementsNamedFilters(st, nodes[1..], q);
      FilterAppend(st.nodes[nodes[0]].children, ChildNodes(st, nodes[1..]), (x: NodeId) => ElementNamed(st, x, q));
    }
  }

  // ------------------------------------------------------------ names

  /**
   * `resolveQName(_:resolveDefaultNamespace:)` against a context: a name
   * with a colon is split at every colon and only the first two pieces are
   * used, the first as a prefix; a name without one takes the default URI
   * when there is one and `resolveDefault` asks for it.
   */
  function ResolveQName(ctx: Context, name: string, resolveDefault: bool): (q: QName)
    ensures ':' !in name ==> q.localName == name
    ensures ':' in name ==> ':' !in q.localName && |q.localName| < |name|
  {
    if ':' in name then
      var parts := Strings.Components(name, ':');
      Strings.ComponentsOfSeparated(name, ':');
      JoinLonger(parts);
      match Lookup(ctx, parts[0])
      case Some(uri) => QName(parts[1], uri)
      case None => QName(parts[1], "")
    else if DefaultURI(ctx).Some? && resolveDefault then
      QName(name, DefaultURI(ctx).value)
    else
      QName(name, "")
  }

  /** The second of two or more pieces is shorter than the joined string. */
  lemma JoinLonger(parts: seq<string>)
    requires |parts| >= 2
    ensures |parts[1]| < |Strings.Join(parts, ':')|
  {
    if |parts| > 2 {
      assert Strings.Join(parts, ':') == parts[0] + [':'] + Strings.Join(parts[1..], ':');
      assert Strings.Join(parts[1..], ':') == parts[1] + [':'] + Strings.Join(parts[2..], ':');
    }
  }

  /** `prefix:local` with a bound prefix names `local` in the bound URI; with an unbound one, `local` in no namespace. */
  lemma ResolvePrefixedName(ctx: Context, prefix: string, local: string, resolveDefault: bool)
    requires ':' !in prefix && ':' !in local
    ensures ResolveQName(ctx, prefix + ":" + local, resolveDefault)
              == QName(local, if prefix in ctx then ctx[prefix] else "")
  {
    Strings.ComponentsAfterHead(prefix, ':', local);
    assert prefix + ":" + local == prefix + [':'] + local;
    assert Strings.Components(local, ':') == [local] by {
      var parts := Strings.Components(local, ':');
      assert Strings.Occurrences(local, ':') == 0 by { OccurrencesZero(local, ':'); }
    }
  }

  lemma OccurrencesZero(s: string, c: char)
    requires c !in s
    ensures Strings.Occurrences(s, c) == 0
  {
    if |s| > 0 {
      OccurrencesZero(s[1..], c);
    }
  }

  /** Everything from a second colon on is ignored. */
  lemma ResolveIgnoresExtraPieces(ctx: Context, prefix: string, local: string, tail: string, resolveDefault: bool)
    requires ':' !in prefix && ':' !in local
    ensures ResolveQName(ctx, prefix + ":" + local + ":" + tail, resolveDefault)
              == ResolveQName(ctx, prefix + ":" + local, resolveDefault)
  {
    ResolvePrefixedName(ctx, prefix, local, resolveDefault);
    var name := prefix + ":" + local + ":" + tail;
    assert name == prefix + [':'] + (local + [':'] + tail);
    Strings.ComponentsAfterHead(prefix, ':', local + [':'] + tail);
    Strings.ComponentsAfterHead(local, ':', tail);
  }

  /** A plain name takes the default URI exactly when one is set and `resolveDefault` holds. */
  lemma ResolvePlainName(ctx: Context, name: string, resolveDefault: bool)
    requires ':' !in name
    ensures resolveDefault && "" in ctx ==> ResolveQName(ctx, name, resolveDefault) == QName(name, ctx[""])
    ensures !resolveDefault || "" !in ctx ==> ResolveQName(ctx, name, resolveDefault) == Unqualified(name)
  {
  }

  /** `select(name)`: `select(qname)` of the name resolved against the document's context, default namespace included. */
  function SelectName(st: Store, s: Selection, name: string): (r: Selection)
    requires Valid(st) && SelectionOk(st, s)
    ensures SelectionOk(st, r) && r.document == s.document
    ensures forall k :: 0 <= k < |r.nodes| ==>
              ElementNamed(st, r.nodes[k], ResolveQName(NamespaceContextOf(st, s), name, true))
    ensures forall x :: x in r.nodes <==>
              && ElementNamed(st, x, ResolveQName(NamespaceContextOf(st, s), name, true))
              && exists k :: 0 <= k < |s.nodes| && x in st.nodes[s.nodes[k]].children
  {
    SelectQName(st, s, ResolveQName(NamespaceContextOf(st, s), name, true))
  }

  // ------------------------------------------------------------ positions

  /** `item(index)`: the `index`-th node alone, or `EMPTY` past the end. A negative index traps in the source. */
  function Item(st: Store, s: Selection, index: int): (r: Selection)
    requires Valid(st) && SelectionOk(st, s) && index >= 0
    ensures SelectionOk(st, r)
    ensures index < |s.nodes| ==> r.nodes == [s.nodes[index]]
    ensures index >= |s.nodes| ==> r == Empty()
  {
    if index < |s.nodes| then Single(st, s.nodes[index]) else Empty()
  }

  /** `last()`: the last node alone, or `EMPTY`. */
  function Last(st: Store, s: Selection): (r: Selection)
    requires Valid(st) && SelectionOk(st, s)
    ensures SelectionOk(st, r)
    ensures |s.nodes| > 0 ==> r.nodes == [s.nodes[|s.nodes| - 1]]
    ensures |s.nodes| == 0 ==> r == Empty()
  {
    if |s.nodes| > 0 then Single(st, s.nodes[|s.nodes| - 1]) else Empty()
  }

  /** `last()` is `item(count - 1)`, and taking the first item of a single item changes nothing. */
  lemma LastIsFinalItem(st: Store, s: Selection)
    requires Valid(st) && SelectionOk(st, s) && |s.nodes| > 0
    ensures Last(st, s) == Item(st, s, |s.nodes| - 1)
    ensures Item(st, Item(st, s, 0), 0) == Item(st, s, 0)
  {
    var n := s.nodes[0];
    var one := Single(st, n);
    var d := ParentDocument(st, n);
    if d.Some? {
      assert IsDocument(st, d.value);
      SingleOfDocumentNode(st, n);
    }
  }

  /** Re-selecting a node alone gives the same selection. */
  lemma SingleOfDocumentNode(st: Store, n: NodeId)
    requires Valid(st) && n in st.nodes
    ensures Single(st, Single(st, n).nodes[0]) == Single(st, n)
  {
  }

  /** The nodes at the positions that pass `test`, counting from `pos`. */
  function AtPositions(nodes: seq<NodeId>, test: int -> bool, pos: int): (r: seq<NodeId>)
    ensures |r| <= |nodes|
    ensures forall x :: x in r <==> exists k :: 0 <= k < |nodes| && nodes[k] == x && test(pos + k)
    ensures |nodes| == 0 ==> r == []
    ensures |nodes| == 1 ==> r == (if test(pos) then nodes else [])
    decreases |nodes|
  {
    if |nodes| == 0 then []
    else
      var rest := AtPositions(nodes[1..], test, pos + 1);
      forall x | x in rest ensures exists k :: 0 <= k < |nodes| && nodes[k] == x && test(pos + k) {
        var k :| 0 <= k < |nodes[1..]| && nodes[1..][k] == x && test(pos + 1 + k);
        assert nodes[k + 1] == x && test(pos + (k + 1));
      }
      forall k | 0 <= k < |nodes| && test(pos + k)
        ensures nodes[k] in (if test(pos) then [nodes[0]] else []) + rest
      {
        if k > 0 { assert nodes[1..][k - 1] == nodes[k] && test(pos + 1 + (k - 1)); }
      }
      (if test(pos) then [nodes[0]] else []) + rest
  }

  /** `select(byPosition:)`: the nodes whose zero-based position passes the test, in order. */
  function ByPosition(st: Store, s: Selection, test: int -> bool): (r: Selection)
    requires Valid(st) && SelectionOk(st, s)
    ensures SelectionOk(st, r) && r.document == s.document
    ensures forall x :: x in r.nodes <==> exists k :: 0 <= k < |s.nodes| && s.nodes[k] == x && test(k)
    ensures |s.nodes| == 1 ==> r.nodes == (if test(0) then s.nodes else [])
  {
    var r := AtPositions(s.nodes, test, 0);
    forall k | 0 <= k < |r| ensures r[k] in st.nodes {
      assert r[k] in r;
    }
    Selection(r, s.document)
  }

  /** Positions count on across a concatenation: the second part's first node is at `pos + |a|`. */
  lemma {:induction false} AtPositionsAppend(a: seq<NodeId>, b: seq<NodeId>, test: int -> bool, pos: int)
    ensures AtPositions(a + b, test, pos) == AtPositions(a, test, pos) + AtPositions(b, test, pos + |a|)
    decreases |a|
  {
    if |a| == 0 {
      assert a + b == b;
    } else {
      var head := if test(pos) then [a[0]] else [];
      assert (a + b)[0] == a[0] && (a + b)[1..] == a[1..] + b;
      assert AtPositions(a + b, test, pos) == head + AtPositions(a[1..] + b, test, pos + 1);
      AtPositionsAppend(a[1..], b, test, pos + 1);
      assert AtPositions(a, test, pos) == head + AtPositions(a[1..], test, pos + 1);
    }
  }

  /** Keeping only position `i` keeps the node `item(i)` selects. */
  lemma {:induction false} ByPositionOfOne(st: Store, s: Selection, i: int)
    requires Valid(st) && SelectionOk(st, s) && 0 <= i < |s.nodes|
    ensures ByPosition(st, s, k => k == i).nodes == Item(st, s, i).nodes
  {
    AtExactlyOne(s.nodes, i, 0);
  }

  lemma {:induction false} AtExactlyOne(nodes: seq<NodeId>, i: int, pos: int)
    requires pos <= i < pos + |nodes|
    ensures AtPositions(nodes, k => k == i, pos) == [nodes[i - pos]]
    decreases |nodes|
  {
    if i == pos {
      AtNone(nodes[1..], i, pos + 1);
    } else {
      AtExactlyOne(nodes[1..], i, pos + 1);
    }
  }

  lemma {:induction false} AtNone(nodes: seq<NodeId>, i: int, pos: int)
    requires i < pos
    ensures AtPositions(nodes, k => k == i, pos) == []
    decreases |nodes|
  {
    if |nodes| > 0 {
      AtNone(nodes[1..], i, pos + 1);
    }
  }

  /** The nodes whose own single-node selection passes `test`, in order. */
  function Passing(st: Store, nodes: seq<NodeId>, test: Selection -> bool): (r: seq<NodeId>)
    requires Valid(st) && InStore(st, nodes)
    ensures InStore(st, r) && |r| <= |nodes|
    ensures forall x :: x in r <==> x in nodes && test(Single(st, x))
    ensures |nodes| == 0 ==> r == []
    ensures |nodes| == 1 ==> r == (if test(Single(st, nodes[0])) then nodes else [])
  {
    if |nodes| == 0 then []
    else (if test(Single(st, nodes[0])) then [nodes[0]] else []) + Passing(st, nodes[1..], test)
  }

  /** `select(_ conditionMatch:)`: the nodes whose own selection passes the test. */
  function ByPredicate(st: Store, s: Selection, test: Selection -> bool): (r: Selection)
    requires Valid(st) && SelectionOk(st, s)
    ensures SelectionOk(st, r) && r.document == s.document
    ensures forall x :: x in r.nodes <==> x in s.nodes && test(Single(st, x))
    ensures |s.nodes| == 1 ==> r.nodes == (if test(Single(st, s.nodes[0])) then s.nodes else [])
  {
    Selection(Passing(st, s.nodes, test), s.document)
  }

  /** The predicate is applied node by node: the nodes of a concatenation pass as the nodes of each part do. */
  lemma {:induction false} PassingAppend(st: Store, a: seq<NodeId>, b: seq<NodeId>, test: Selection -> bool)
    requires Valid(st) && InStore(st, a) && InStore(st, b)
    ensures InStore(st, a + b)
    ensures Passing(st, a + b, test) == Passing(st, a, test) + Passing(st, b, test)
    decreases |a|
  {
    InStoreAppend(st, a, b);
    if |a| == 0 {
      assert a + b == b;
    } else {
      assert (a + b)[1..] == a[1..] + b;
      PassingAppend(st, a[1..], b, test);
    }
  }

  /** `name()`: the name of the only selected node when it is an element or attribute, else `QName("")`. */
  function NameOf(st: Store, s: Selection): (r: QName)
    requires SelectionOk(st, s)
    ensures r != Unqualified("") ==> |s.nodes| == 1
    ensures |s.nodes| == 1 && IsElement(st, s.nodes[0]) ==> r == st.nodes[s.nodes[0]].content.name
    ensures |s.nodes| == 1 && st.nodes[s.nodes[0]].content.AttributeNode? ==> r == st.nodes[s.nodes[0]].content.name
    ensures |s.nodes| == 1 && !IsElement(st, s.nodes[0]) && !st.nodes[s.nodes[0]].content.AttributeNode? ==> r == Unqualified("")
  {
    if |s.nodes| == 1 then
      match st.nodes[s.nodes[0]].content
      case ElementNode(name, _, _, _) => name
      case AttributeNode(name, _) => name
      case _ => Unqualified("")
    else Unqualified("")
  }

  /**
   * `Infoset(node).name()` is the node's own name: the element's or the
   * attribute's, and `QName("")` for a node without one.
   */
  lemma NameOfSingle(st: Store, n: NodeId)
    requires Valid(st) && n in st.nodes
    ensures var c := st.nodes[n].content;
            NameOf(st, Single(st, n)) == if c.ElementNode? || c.AttributeNode? then c.name else Unqualified("")
  {
  }

  // ------------------------------------------------------------ selector chains

  /** `select(_ selector:)`: dispatch on the selector's type. */
  function ApplySelector(st: Store, s: Selection, sel: Selector): (r: Selection)
    requires Valid(st) && SelectionOk(st, s) && (sel.Index? ==> sel.index >= 0)
    ensures SelectionOk(st, r)
    ensures sel.Other? ==> r == Empty()
    ensures sel.Name? || sel.Qualified? ==> r.document == s.document
  {
    match sel
    case Index(i) => Item(st, s, i)
    case Name(n) => SelectName(st, s, n)
    case Qualified(q) => SelectQName(st, s, q)
    case Other => Empty()
  }

  predicate NoNegativeIndex(sels: seq<Selector>)
  {
    forall k :: 0 <= k < |sels| ==> (sels[k].Index? ==> sels[k].index >= 0)
  }

  /** `select([InfosetSelector])` and the subscripts: every selector in turn. */
  function SelectAll(st: Store, s: Selection, sels: seq<Selector>): (r: Selection)
    requires Valid(st) && SelectionOk(st, s) && NoNegativeIndex(sels)
    ensures SelectionOk(st, r)
    decreases |sels|
  {
    if |sels| == 0 then s
    else SelectAll(st, ApplySelector(st, s, sels[0]), sels[1..])
  }

  /** A selector of an unknown type anywhere in the list leaves nothing selected. */
  lemma {:induction false} SelectAllWithOther(st: Store, s: Selection, sels: seq<Selector>)
    requires Valid(st) && SelectionOk(st, s) && NoNegativeIndex(sels) && Other in sels
    ensures SelectAll(st, s, sels).nodes == []
    decreases |sels|
  {
    var next := ApplySelector(st, s, sels[0]);
    if sels[0] == Other {
      EmptyStaysEmpty(st, next, sels[1..]);
    } else {
      SelectAllWithOther(st, next, sels[1..]);
    }
  }

  /** Every selector keeps a selection with no nodes without nodes. */
  lemma {:induction false} EmptyStaysEmpty(st: Store, s: Selection, sels: seq<Selector>)
    requires Valid(st) && SelectionOk(st, s) && s.nodes == [] && NoNegativeIndex(sels)
    ensures SelectAll(st, s, sels).nodes == []
    decreases |sels|
  {
    if |sels| > 0 {
      var next := ApplySelector(st, s, sels[0]);
      assert next.nodes == [];
      EmptyStaysEmpty(st, next, sels[1..]);
    }
  }

  /** A step of the variadic `select(names…)` / `select(qnames…)`. */
  predicate NameStep(sel: Selector)
  {
    sel.Name? || sel.Qualified?
  }

  /**
   * `select(_ names: String...)` and `select(_ qnames: QName...)`: the steps
   * in turn, stopping early once a step selects nothing.
   */
  function SelectPath(st: Store, s: Selection, steps: seq<Selector>): (r: Selection)
    requires Valid(st) && SelectionOk(st, s)
    requires forall k :: 0 <= k < |steps| ==> NameStep(steps[k])
    ensures SelectionOk(st, r) && r.document == s.document
    decreases |steps|
  {
    if |steps| == 0 then s
    else
      assert NameStep(steps[0]);
      var next := ApplySelector(st, s, steps[0]);
      if |next.nodes| == 0 then next else SelectPath(st, next, steps[1..])
  }

  /** Stopping early is invisible: the chain gives what applying every step would. */
  lemma {:induction false} SelectPathIsSelectAll(st: Store, s: Selection, steps: seq<Selector>)
    requires Valid(st) && SelectionOk(st, s)
    requires forall k :: 0 <= k < |steps| ==> NameStep(steps[k])
    ensures NoNegativeIndex(steps)
    ensures SelectPath(st, s, steps) == SelectAll(st, s, steps)
    decreases |steps|
  {
    if |steps| > 0 {
      var next := ApplySelector(st, s, steps[0]);
      if |next.nodes| == 0 {
        NameStepsKeepEmpty(st, next, steps[1..]);
      } else {
        SelectPathIsSelectAll(st, next, steps[1..]);
      }
    }
  }

  lemma {:induction false} NameStepsKeepEmpty(st: Store, s: Selection, steps: seq<Selector>)
    requires Valid(st) && SelectionOk(st, s) && s.nodes == []
    requires forall k :: 0 <= k < |steps| ==> NameStep(steps[k])
    ensures NoNegativeIndex(steps)
    ensures SelectAll(st, s, steps) == s
    decreases |steps|
  {
    if |steps| > 0 {
      var next := ApplySelector(st, s, steps[0]);
      assert ChildElementsNamed(st, [], if steps[0].Name? then ResolveQName(NamespaceContextOf(st, s), steps[0].name, true) else steps[0].qname) == [];
      assert next == s;
      NameStepsKeepEmpty(st, next, steps[1..]);
    }
  }

  // ------------------------------------------------------------ parent

  /** `parent()`: the first node's parent alone, or `EMPTY` without one. */
  function Parent(st: Store, s: Selection): (r: Selection)
    requires Valid(st) && SelectionOk(st, s)
    ensures SelectionOk(st, r)
    ensures |s.nodes| == 0 || IsDocument(st, s.nodes[0]) ==> r == Empty()
    ensures |s.nodes| > 0 && !IsDocument(st, s.nodes[0]) ==> r.nodes == [st.nodes[s.nodes[0]].parent.value]
  {
    if |s.nodes| > 0 then
      assert NodeOk(st, s.nodes[0]);
      match st.nodes[s.nodes[0]].parent
      case Some(p) => Single(st, p)
      case None => Empty()
    else Empty()
  }

  /** Only the first node matters to `parent()`. */
  lemma ParentSeesFirstOnly(st: Store, s: Selection, t: Selection)
    requires Valid(st) && SelectionOk(st, s) && SelectionOk(st, t)
    requires |s.nodes| > 0 && |t.nodes| > 0 && s.nodes[0] == t.nodes[0]
    ensures Parent(st, s) == Parent(st, t)
  {
  }
}
