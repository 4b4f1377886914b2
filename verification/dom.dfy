/**
 * The document tree of DOM.swift as an arena: a map from node ids to node
 * records. A record holds the parent id, the ordered child ids and the
 * kind-specific content. Attributes are nodes too (selections can hold
 * them), reachable from their element's QName-keyed attribute map rather
 * than from its children.
 *
 * Fresh nodes always take the id `next`, so a parent's id is smaller than
 * each of its children's: walks up the tree decrease the id, walks down
 * decrease `next - id`.
 */
module Dom {
  import opened Wrappers
  import opened Names

  type NodeId = nat

  datatype Content =
    | DocumentNode(standalone: bool, documentElement: Option<NodeId>)
    | ElementNode(name: QName, attributes: map<QName, NodeId>,
                  namespaceContext: Option<Context>, sourceNamespaceContext: Option<Context>)
    | AttributeNode(name: QName, attributeValue: Option<string>)
    | TextNode(value: string)
    | CDataNode(value: string)
    | CommentNode(value: string)
    | InstructionNode(target: string, data: string)

  datatype Node = Node(parent: Option<NodeId>, children: seq<NodeId>, content: Content)

  datatype Store = Store(nodes: map<NodeId, Node>, next: NodeId)

  /** The result of an append: the new store and the id of the node it created. */
  datatype Appended = Appended(store: Store, node: NodeId)

  predicate IsElement(st: Store, id: NodeId)
  {
    id in st.nodes && st.nodes[id].content.ElementNode?
  }

  predicate IsDocument(st: Store, id: NodeId)
  {
    id in st.nodes && st.nodes[id].content.DocumentNode?
  }

  predicate ChildOk(st: Store, id: NodeId, c: NodeId)
  {
    c in st.nodes && id < c && st.nodes[c].parent == Some(id)
  }

  predicate AttributeOk(st: Store, id: NodeId, q: QName, a: NodeId)
  {
    && a in st.nodes && id < a && st.nodes[a].parent == Some(id)
    && st.nodes[a].content.AttributeNode? && st.nodes[a].content.name == q
  }

  predicate NodeOk(st: Store, id: NodeId)
    requires id in st.nodes
  {
    var n := st.nodes[id];
    && id < st.next
    && (n.parent.None? <==> n.content.DocumentNode?)
    && (n.parent.Some? ==> n.parent.value in st.nodes && n.parent.value < id)
    && (forall c | c in n.children :: ChildOk(st, id, c))
    && (n.content.ElementNode? ==>
          forall q | q in n.content.attributes :: AttributeOk(st, id, q, n.content.attributes[q]))
    && (n.content.DocumentNode? && n.content.documentElement.Some? ==>
          RootOk(st, id, n.content.documentElement.value))
  }

  /** The document element of `d` is an element created under `d`. */
  predicate RootOk(st: Store, d: NodeId, root: NodeId)
  {
    IsElement(st, root) && st.nodes[root].parent == Some(d)
  }

  /** The tree invariant every operation keeps. */
  predicate Valid(st: Store)
  {
    forall id | id in st.nodes :: NodeOk(st, id)
  }

  /** `st'` keeps every node of `st` (possibly changed) and adds only fresh ones. */
  predicate Grows(st: Store, st': Store)
  {
    st.nodes.Keys <= st'.nodes.Keys && st.next <= st'.next
  }

  /** An empty document, `Document()`, as the only node of a new store. */
  function NewDocument(): (r: Appended)
    ensures Valid(r.store) && IsDocument(r.store, r.node)
    ensures r.store.nodes[r.node].children == [] && r.store.nodes[r.node].content.documentElement == None
  {
    Appended(Store(map[0 := Node(None, [], DocumentNode(false, None))], 1), 0)
  }

  /** Adds `n` under the fresh id `next`. */
  function AddNode(st: Store, n: Node): (r: Appended)
    requires Valid(st)
    requires n.parent.Some? && n.parent.value in st.nodes && !n.content.DocumentNode?
    requires n.children == []
    requires n.content.ElementNode? ==> n.content.attributes == map[]
    ensures Valid(r.store) && Grows(st, r.store)
    ensures r.node == st.next && r.node !in st.nodes && r.store.nodes == st.nodes[r.node := n]
  {
    var st' := Store(st.nodes[st.next := n], st.next + 1);
    assert forall id | id in st'.nodes :: NodeOk(st', id) by {
      forall id | id in st'.nodes ensures NodeOk(st', id) {
        if id != st.next {
          assert NodeOk(st, id);
        }
      }
    }
    Appended(st', st.next)
  }

  /** The store with the record of `id` replaced by `n`. */
  function Update(st: Store, id: NodeId, n: Node): Store
  {
    Store(st.nodes[id := n], st.next)
  }

  /** A record replacement that keeps the parent, the kind and the links keeps the invariant. */
  lemma UpdateKeepsValid(st: Store, id: NodeId, n: Node)
    requires Valid(st) && id in st.nodes
    requires n.parent == st.nodes[id].parent
    requires n.content.DocumentNode? == st.nodes[id].content.DocumentNode?
    requires st.nodes[id].content.ElementNode? ==> n.content.ElementNode?
    requires st.nodes[id].content.AttributeNode? ==> n.content == st.nodes[id].content
    requires forall c | c in n.children :: ChildOk(st, id, c)
    requires n.content.ElementNode? ==>
               forall q | q in n.content.attributes :: AttributeOk(st, id, q, n.content.attributes[q])
    requires n.content.DocumentNode? && n.content.documentElement.Some? ==>
               RootOk(st, id, n.content.documentElement.value)
    ensures Valid(Update(st, id, n))
  {
    var r := Update(st, id, n);
    forall x | x in r.nodes ensures NodeOk(r, x) {
      assert NodeOk(st, x);
      var m := r.nodes[x];
      forall c | c in m.children ensures ChildOk(r, x, c) {
        assert ChildOk(st, x, c);
      }
      if m.content.ElementNode? {
        forall q | q in m.content.attributes ensures AttributeOk(r, x, q, m.content.attributes[q]) {
          assert AttributeOk(st, x, q, m.content.attributes[q]);
        }
      }
      if m.content.DocumentNode? && m.content.documentElement.Some? {
        assert RootOk(st, x, m.content.documentElement.value);
      }
    }
  }

  /** Replaces the children of `id`. */
  function SetChildren(st: Store, id: NodeId, cs: seq<NodeId>): (r: Store)
    requires Valid(st) && id in st.nodes
    requires forall c | c in cs :: ChildOk(st, id, c)
    ensures Valid(r) && Grows(st, r) && r.nodes.Keys == st.nodes.Keys
    ensures r.nodes == st.nodes[id := st.nodes[id].(children := cs)]
  {
    assert NodeOk(st, id);
    UpdateKeepsValid(st, id, st.nodes[id].(children := cs));
    Update(st, id, st.nodes[id].(children := cs))
  }

  /** Replaces the content of the element `id` by element content whose attribute map stays well formed. */
  function SetElementContent(st: Store, id: NodeId, c: Content): (r: Store)
    requires Valid(st) && IsElement(st, id) && c.ElementNode?
    requires forall q | q in c.attributes :: AttributeOk(st, id, q, c.attributes[q])
    ensures Valid(r) && Grows(st, r) && r.nodes.Keys == st.nodes.Keys
    ensures r.nodes == st.nodes[id := st.nodes[id].(content := c)]
  {
    assert NodeOk(st, id);
    assert forall x | x in st.nodes[id].children :: ChildOk(st, id, x);
    UpdateKeepsValid(st, id, st.nodes[id].(content := c));
    Update(st, id, st.nodes[id].(content := c))
  }

  /** Replaces the working context of the element `id`. */
  function SetContext(st: Store, id: NodeId, ctx: Option<Context>): (r: Store)
    requires Valid(st) && IsElement(st, id)
    ensures Valid(r) && Grows(st, r) && r.nodes.Keys == st.nodes.Keys
    ensures r.nodes == st.nodes[id := st.nodes[id].(content := st.nodes[id].content.(namespaceContext := ctx))]
  {
    assert NodeOk(st, id);
    SetElementContent(st, id, st.nodes[id].content.(namespaceContext := ctx))
  }

  // ------------------------------------------------------------ construction

  /** `Element.appendElement(_:)`: a new, context-less element at the end of the children. */
  function AppendElement(st: Store, e: NodeId, q: QName): (r: Appended)
    requires Valid(st) && IsElement(st, e)
    ensures Valid(r.store) && Grows(st, r.store)
    ensures r.node !in st.nodes && r.store.nodes.Keys == st.nodes.Keys + {r.node}
    ensures r.store.nodes[r.node] == Node(Some(e), [], ElementNode(q, map[], None, None))
    ensures r.store.nodes[e] == st.nodes[e].(children := st.nodes[e].children + [r.node])
    ensures forall x | x in st.nodes && x != e :: r.store.nodes[x] == st.nodes[x]
  {
    var a := AddNode(st, Node(Some(e), [], ElementNode(q, map[], None, None)));
    Appended(SetChildren(a.store, e, st.nodes[e].children + [a.node]), a.node)
  }

  /** `Element.appendText(_:)`: a new text node at the end of the children. */
  function AppendText(st: Store, e: NodeId, text: string): (r: Appended)
    requires Valid(st) && IsElement(st, e)
    ensures Valid(r.store) && Grows(st, r.store)
    ensures r.node !in st.nodes && r.store.nodes.Keys == st.nodes.Keys + {r.node}
    ensures r.store.nodes[r.node] == Node(Some(e), [], TextNode(text))
    ensures r.store.nodes[e] == st.nodes[e].(children := st.nodes[e].children + [r.node])
    ensures forall x | x in st.nodes && x != e :: r.store.nodes[x] == st.nodes[x]
  {
    var a := AddNode(st, Node(Some(e), [], TextNode(text)));
    Appended(SetChildren(a.store, e, st.nodes[e].children + [a.node]), a.node)
  }

  /**
   * `Element.appendAttribute(_:withValue:)`: a new attribute node stored
   * under its QName, replacing the one stored there before, if any.
   */
  function AppendAttribute(st: Store, e: NodeId, q: QName, value: string): (r: Appended)
    requires Valid(st) && IsElement(st, e)
    ensures Valid(r.store) && Grows(st, r.store)
    ensures r.node !in st.nodes && r.store.nodes.Keys == st.nodes.Keys + {r.node}
    ensures r.store.nodes[r.node] == Node(Some(e), [], AttributeNode(q, Some(value)))
    ensures r.store.nodes[e].content.ElementNode?
    ensures r.store.nodes[e] == st.nodes[e].(content := st.nodes[e].content.(
              attributes := st.nodes[e].content.attributes[q := r.node]))
    ensures forall x | x in st.nodes && x != e :: r.store.nodes[x] == st.nodes[x]
  {
    var n := Node(Some(e), [], AttributeNode(q, Some(value)));
    var a := AddNode(st, n);
    var c := st.nodes[e].content;
    var c' := c.(attributes := c.attributes[q := a.node]);
    AttributesStayOk(st, a.store, e, q, a.node);
    var st' := SetElementContent(a.store, e, c');
    assert st'.nodes == st.nodes[a.node := n][e := st.nodes[e].(content := c')];
    Appended(st', a.node)
  }

  /** Once `a`, an attribute `q` of `e`, has been added, every entry of `e`'s attribute table with `q` pointing at `a` is well formed. */
  lemma AttributesStayOk(st: Store, st': Store, e: NodeId, q: QName, a: NodeId)
    requires Valid(st) && IsElement(st, e) && Grows(st, st') && a !in st.nodes
    requires forall x | x in st.nodes :: x in st'.nodes && st'.nodes[x] == st.nodes[x]
    requires a in st'.nodes && e < a && st'.nodes[a].parent == Some(e)
    requires st'.nodes[a].content.AttributeNode? && st'.nodes[a].content.name == q
    ensures var attrs := st.nodes[e].content.attributes[q := a];
            forall k | k in attrs :: AttributeOk(st', e, k, attrs[k])
  {
    assert NodeOk(st, e);
  }

  /**
   * `Document.appendElement(_:)`: every previous child is dropped; the new
   * element, carrying a default namespace context, becomes the only child
   * and the document element.
   */
  function DocumentAppendElement(st: Store, d: NodeId, q: QName): (r: Appended)
    requires Valid(st) && IsDocument(st, d)
    ensures Valid(r.store) && Grows(st, r.store)
    ensures r.node !in st.nodes && r.store.nodes.Keys == st.nodes.Keys + {r.node}
    ensures r.store.nodes[r.node] == Node(Some(d), [], ElementNode(q, map[], Some(DefaultContext()), None))
    ensures r.store.nodes[d].children == [r.node]
    ensures r.store.nodes[d].content == st.nodes[d].content.(documentElement := Some(r.node))
    ensures r.store.nodes[d].parent == st.nodes[d].parent
    ensures forall x | x in st.nodes && x != d :: r.store.nodes[x] == st.nodes[x]
  {
    var a := AddNode(st, Node(Some(d), [], ElementNode(q, map[], Some(DefaultContext()), None)));
    var n := a.store.nodes[d].(children := [a.node], content := st.nodes[d].content.(documentElement := Some(a.node)));
    assert NodeOk(st, d);
    UpdateKeepsValid(a.store, d, n);
    Appended(Update(a.store, d, n), a.node)
  }

  // ------------------------------------------------------------ ancestry

  /** The node followed by its ancestors, nearest first. */
  function Ancestors(st: Store, id: NodeId): (r: seq<NodeId>)
    requires Valid(st) && id in st.nodes
    ensures |r| > 0 && r[0] == id
    ensures forall k :: 0 <= k < |r| ==> r[k] in st.nodes
    decreases id
  {
    assert NodeOk(st, id);
    match st.nodes[id].parent
    case None => [id]
    case Some(p) => [id] + Ancestors(st, p)
  }

  /** `Node.parentDocument()`: the nearest Document among the node and its ancestors. */
  function ParentDocument(st: Store, id: NodeId): (r: Option<NodeId>)
    requires Valid(st) && id in st.nodes
    ensures r.Some? ==> IsDocument(st, r.value) && r.value in Ancestors(st, id)
    ensures r.Some? ==> forall k :: 0 <= k < |Ancestors(st, id)| && Ancestors(st, id)[k] == r.value ==>
              forall j :: 0 <= j < k ==> !IsDocument(st, Ancestors(st, id)[j])
    ensures r.None? <==> forall k :: 0 <= k < |Ancestors(st, id)| ==> !IsDocument(st, Ancestors(st, id)[k])
    decreases id
  {
    assert NodeOk(st, id);
    if st.nodes[id].content.DocumentNode? then Some(id)
    else
      match st.nodes[id].parent
      case None => None
      case Some(p) =>
        var r := ParentDocument(st, p);
        assert Ancestors(st, id) == [id] + Ancestors(st, p);
        r
  }

  /** `a` is `x` or one of its ancestors. */
  predicate Under(st: Store, a: NodeId, x: NodeId)
    requires Valid(st) && x in st.nodes
  {
    a in Ancestors(st, x)
  }

  /** A child's ancestry is the child followed by its parent's. */
  lemma ChildAncestors(st: Store, p: NodeId, c: NodeId)
    requires Valid(st) && p in st.nodes && ChildOk(st, p, c)
    ensures Ancestors(st, c) == [c] + Ancestors(st, p)
    ensures Under(st, p, c) && Under(st, c, c)
  {
    assert Ancestors(st, p)[0] == p;
  }

  /** Being an ancestor is transitive. */
  lemma {:induction false} UnderTransitive(st: Store, a: NodeId, b: NodeId, x: NodeId)
    requires Valid(st) && x in st.nodes && Under(st, b, x) && b in st.nodes && Under(st, a, b)
    ensures Under(st, a, x)
    decreases x
  {
    assert NodeOk(st, x);
    if b != x {
      var p := st.nodes[x].parent.value;
      UnderTransitive(st, a, b, p);
    }
  }

  /** The node and its ancestors up to, not including, the first that is not an Element. */
  function ElementChain(st: Store, e: NodeId): (r: seq<NodeId>)
    requires Valid(st) && IsElement(st, e)
    ensures |r| > 0 && r[0] == e
    ensures forall k :: 0 <= k < |r| ==> IsElement(st, r[k])
    ensures forall k :: 0 <= k < |r| - 1 ==> r[k] in st.nodes && st.nodes[r[k]].parent == Some(r[k + 1])
    ensures r[|r| - 1] in st.nodes && var last := st.nodes[r[|r| - 1]].parent;
            last.Some? ==> last.value in st.nodes && !IsElement(st, last.value)
    decreases e
  {
    assert NodeOk(st, e);
    match st.nodes[e].parent
    case None => [e]
    case Some(p) => if IsElement(st, p) then [e] + ElementChain(st, p) else [e]
  }

  // ------------------------------------------------------------ namespace resolution

  /** Which of an element's two contexts a walk consults. */
  datatype Scope = Working | Source

  /** What a walk up the element chain asks each context. */
  datatype Query =
    | UriOf(prefix: string, scope: Scope)  // the URI bound to a prefix
    | PrefixOf(uri: string)                // a prefix bound to a URI (working contexts)

  function ContextOf(st: Store, e: NodeId, scope: Scope): Option<Context>
    requires IsElement(st, e)
  {
    match scope
    case Working => st.nodes[e].content.namespaceContext
    case Source => st.nodes[e].content.sourceNamespaceContext
  }

  /** The answer of `e`'s own context, if it has one. */
  function OwnAnswer(st: Store, e: NodeId, query: Query): Option<string>
    requires IsElement(st, e)
  {
    match query
    case UriOf(prefix, scope) =>
      (match ContextOf(st, e, scope)
       case None => None
       case Some(ctx) => Lookup(ctx, prefix))
    case PrefixOf(uri) =>
      (match ContextOf(st, e, Working)
       case None => None
       case Some(ctx) => ReversePrefix(ctx, uri))
  }

  /**
   * The ancestor walk shared by `Element.resolveURI(forPrefix:)` and
   * `Element.resolvePrefix(forURI:)`: starting at `e`, the first element
   * whose context answers decides; the walk ends at the first ancestor that
   * is not an Element.
   */
  function Walk(st: Store, e: NodeId, query: Query): Option<string>
    requires Valid(st) && IsElement(st, e)
    decreases e
  {
    assert NodeOk(st, e);
    var own := OwnAnswer(st, e, query);
    if own.Some? then own
    else match st.nodes[e].parent
      case None => None
      case Some(p) => if IsElement(st, p) then Walk(st, p, query) else None
  }

  /** Reference reading of a walk: the first answer along a given chain of elements. */
  function FirstAnswer(st: Store, chain: seq<NodeId>, query: Query): (r: Option<string>)
    requires forall k :: 0 <= k < |chain| ==> IsElement(st, chain[k])
    ensures r.Some? ==> exists k :: 0 <= k < |chain| && OwnAnswer(st, chain[k], query) == r
                                   && forall j :: 0 <= j < k ==> OwnAnswer(st, chain[j], query).None?
    ensures r.None? <==> forall k :: 0 <= k < |chain| ==> OwnAnswer(st, chain[k], query).None?
  {
    if |chain| == 0 then None
    else
      var own := OwnAnswer(st, chain[0], query);
      if own.Some? then own
      else
        var r := FirstAnswer(st, chain[1..], query);
        assert r.Some? ==> exists k :: 0 <= k < |chain| && OwnAnswer(st, chain[k], query) == r
                                      && forall j :: 0 <= j < k ==> OwnAnswer(st, chain[j], query).None? by {
          if r.Some? {
            var k :| 0 <= k < |chain[1..]| && OwnAnswer(st, chain[1..][k], query) == r
                     && forall j :: 0 <= j < k ==> OwnAnswer(st, chain[1..][j], query).None?;
            assert chain[k + 1] == chain[1..][k];
          }
        }
        r
  }

  /** The walk answers what the nearest answering element of `ElementChain` answers. */
  lemma {:induction false} WalkFollowsChain(st: Store, e: NodeId, query: Query)
    requires Valid(st) && IsElement(st, e)
    ensures Walk(st, e, query) == FirstAnswer(st, ElementChain(st, e), query)
    decreases e
  {
    assert NodeOk(st, e);
    var chain := ElementChain(st, e);
    if OwnAnswer(st, e, query).None? {
      match st.nodes[e].parent
      case None =>
      case Some(p) =>
        if IsElement(st, p) {
          WalkFollowsChain(st, p, query);
          assert chain[1..] == ElementChain(st, p);
        }
    }
  }

  /** `Element.resolveURI(forPrefix:)`: the URI the nearest working context of the chain binds `prefix` to. */
  function ResolveURI(st: Store, e: NodeId, prefix: string): (r: Option<string>)
    requires Valid(st) && IsElement(st, e)
    ensures var chain := ElementChain(st, e);
            r.Some? ==> exists k :: 0 <= k < |chain| && OwnAnswer(st, chain[k], UriOf(prefix, Working)) == r
                                   && forall j :: 0 <= j < k ==> OwnAnswer(st, chain[j], UriOf(prefix, Working)).None?
    ensures var chain := ElementChain(st, e);
            r.None? <==> forall k :: 0 <= k < |chain| ==> OwnAnswer(st, chain[k], UriOf(prefix, Working)).None?
  {
    WalkFollowsChain(st, e, UriOf(prefix, Working));
    Walk(st, e, UriOf(prefix, Working))
  }

  /** The same walk over the contexts recorded from the parsed source. */
  function ResolveURIFromSource(st: Store, e: NodeId, prefix: string): (r: Option<string>)
    requires Valid(st) && IsElement(st, e)
    ensures var chain := ElementChain(st, e);
            r.Some? ==> exists k :: 0 <= k < |chain| && OwnAnswer(st, chain[k], UriOf(prefix, Source)) == r
    ensures var chain := ElementChain(st, e);
            r.None? <==> forall k :: 0 <= k < |chain| ==> OwnAnswer(st, chain[k], UriOf(prefix, Source)).None?
  {
    WalkFollowsChain(st, e, UriOf(prefix, Source));
    Walk(st, e, UriOf(prefix, Source))
  }

  /**
   * `Element.resolvePrefix(forURI:)`: a prefix for `uri` from the nearest
   * element of the chain whose working context binds some prefix to it.
   */
  function ResolvePrefix(st: Store, e: NodeId, uri: string): (r: Option<string>)
    requires Valid(st) && IsElement(st, e)
    ensures var chain := ElementChain(st, e);
            r.Some? ==> exists k :: 0 <= k < |chain| && OwnAnswer(st, chain[k], PrefixOf(uri)) == r
                                   && forall j :: 0 <= j < k ==> OwnAnswer(st, chain[j], PrefixOf(uri)).None?
    ensures var chain := ElementChain(st, e);
            r.None? <==> forall k :: 0 <= k < |chain| ==> OwnAnswer(st, chain[k], PrefixOf(uri)).None?
  {
    WalkFollowsChain(st, e, PrefixOf(uri));
    Walk(st, e, PrefixOf(uri))
  }

  /** A prefix found for `uri` resolves, from the same element, to some URI. */
  lemma {:induction false} ResolvePrefixResolvesBack(st: Store, e: NodeId, uri: string)
    requires Valid(st) && IsElement(st, e) && ResolvePrefix(st, e, uri).Some?
    ensures ResolveURI(st, e, ResolvePrefix(st, e, uri).value).Some?
  {
    var chain := ElementChain(st, e);
    var p := ResolvePrefix(st, e, uri).value;
    var k :| 0 <= k < |chain| && OwnAnswer(st, chain[k], PrefixOf(uri)) == Some(p);
    assert OwnAnswer(st, chain[k], UriOf(p, Working)) == Some(uri);
  }

  /** Every prefix bound by some working context of the chain. */
  function BoundPrefixes(st: Store, e: NodeId): (r: set<string>)
    requires Valid(st) && IsElement(st, e)
    ensures forall p :: p in r <==> ResolveURI(st, e, p).Some?
    decreases e
  {
    assert NodeOk(st, e);
    var own := match st.nodes[e].content.namespaceContext
      case None => {}
      case Some(ctx) => ctx.Keys;
    match st.nodes[e].parent
    case None => own
    case Some(p) =>
      if IsElement(st, p) then own + BoundPrefixes(st, p) else own
  }

  // ------------------------------------------------------------ document context

  /** The document's root element, if it has one. */
  function Root(st: Store, d: Option<NodeId>): (r: Option<NodeId>)
    requires Valid(st) && (d.Some? ==> IsDocument(st, d.value))
    ensures r.Some? ==> IsElement(st, r.value)
  {
    match d
    case None => None
    case Some(doc) => assert NodeOk(st, doc); st.nodes[doc].content.documentElement
  }

  /**
   * `Document.namespaceContext` getter: the root element's working
   * context, or a default context when the root has none or there is no
   * root. `None` stands for a document that is not in the store (the
   * empty document of `EMPTY`, or of a node with no document above it).
   */
  function DocumentContext(st: Store, d: Option<NodeId>): (r: Context)
    requires Valid(st) && (d.Some? ==> IsDocument(st, d.value))
    ensures Root(st, d).None? ==> r == DefaultContext()
    ensures Root(st, d).Some? && st.nodes[Root(st, d).value].content.namespaceContext.Some? ==>
              r == st.nodes[Root(st, d).value].content.namespaceContext.value
    ensures Root(st, d).Some? && st.nodes[Root(st, d).value].content.namespaceContext.None? ==> r == DefaultContext()
  {
    match Root(st, d)
    case None => DefaultContext()
    case Some(root) => st.nodes[root].content.namespaceContext.GetOr(DefaultContext())
  }

  /** The getter's side effect: a root without a working context is given a default one. */
  function MaterializeDocumentContext(st: Store, d: Option<NodeId>): (r: Store)
    requires Valid(st) && (d.Some? ==> IsDocument(st, d.value))
    ensures Valid(r) && r.nodes.Keys == st.nodes.Keys
    ensures (d.Some? ==> IsDocument(r, d.value)) && Root(r, d) == Root(st, d)
    ensures DocumentContext(r, d) == DocumentContext(st, d)
    ensures Root(st, d).Some? ==> r.nodes[Root(st, d).value].content.namespaceContext == Some(DocumentContext(st, d))
    ensures forall x | x in st.nodes && Some(x) != Root(st, d) :: r.nodes[x] == st.nodes[x]
  {
    match Root(st, d)
    case None => st
    case Some(root) =>
      var r := SetContext(st, root, Some(st.nodes[root].content.namespaceContext.GetOr(DefaultContext())));
      SetContextKeepsRoot(st, d, Some(st.nodes[root].content.namespaceContext.GetOr(DefaultContext())));
      r
  }

  /** `Document.namespaceContext` setter: replaces the root's working context; does nothing without a root. */
  function SetDocumentContext(st: Store, d: Option<NodeId>, ctx: Context): (r: Store)
    requires Valid(st) && (d.Some? ==> IsDocument(st, d.value))
    ensures Valid(r) && r.nodes.Keys == st.nodes.Keys
    ensures Root(st, d).None? ==> r == st
    ensures (d.Some? ==> IsDocument(r, d.value)) && Root(r, d) == Root(st, d)
    ensures Root(st, d).Some? ==> DocumentContext(r, d) == ctx
    ensures forall x | x in st.nodes && Some(x) != Root(st, d) :: r.nodes[x] == st.nodes[x]
  {
    match Root(st, d)
    case None => st
    case Some(root) =>
      SetContextKeepsRoot(st, d, Some(ctx));
      SetContext(st, root, Some(ctx))
  }

  /** Setting the root's context leaves the document, and so its root, in place. */
  lemma SetContextKeepsRoot(st: Store, d: Option<NodeId>, ctx: Option<Context>)
    requires Valid(st) && (d.Some? ==> IsDocument(st, d.value)) && Root(st, d).Some?
    ensures var r := SetContext(st, Root(st, d).value, ctx);
            IsDocument(r, d.value) && Root(r, d) == Root(st, d)
            && r.nodes[Root(st, d).value].content.namespaceContext == ctx
  {
    var root := Root(st, d).value;
    var r := SetContext(st, root, ctx);
    assert root != d.value;
    assert r.nodes[d.value] == st.nodes[d.value];
  }
}
