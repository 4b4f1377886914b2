/**
 * The two walks of DOM+Traversal.swift.
 *
 * The visitor walk asks a visitor for a decision at every node it shows it:
 * `StepIn` descends, `Next` skips the node's children, `Stop` ends the walk.
 * A visitor may keep state, so it is modelled as a function of everything it
 * has been shown and has answered so far.
 *
 * The handler walk reports start/end of the document and of every element
 * and the text and comments in between, in document order.
 *
 * Both walks dispatch on the child's kind in the order Element, TextNode,
 * CDATANode, CommentNode. A CDATA node is a TextNode in the source, so it
 * reaches the text case first; processing instructions reach the default
 * case and are skipped.
 */
module Traversal {
  import opened Wrappers
  import opened Dom

  datatype Decision = StepIn | Next | Stop

  /** What the visitor is shown. `VisitText` covers text and CDATA nodes alike. */
  datatype Visit =
    | VisitDocument(node: NodeId)
    | VisitElement(node: NodeId)
    | VisitText(node: NodeId)
    | VisitComment(node: NodeId)

  datatype Entry = Entry(visit: Visit, decision: Decision)

  /** A visitor answers from the history of the walk and the node in front of it. */
  type Visitor = (seq<Entry>, Visit) -> Decision

  /** The entries a walk added and the decision it passes upward. */
  datatype Walk = Walk(entries: seq<Entry>, decision: Decision)

  /** No entry but possibly the last one says `Stop`. */
  predicate StopsOnlyLast(t: seq<Entry>)
  {
    forall k :: 0 <= k < |t| - 1 ==> t[k].decision != Stop
  }

  predicate EndsWithStop(t: seq<Entry>)
  {
    |t| > 0 && t[|t| - 1].decision == Stop
  }

  /** The visit shows a node of the matching kind. */
  predicate VisitFits(st: Store, x: Visit)
  {
    x.node in st.nodes &&
    match x
    case VisitDocument(n) => st.nodes[n].content.DocumentNode?
    case VisitElement(n) => st.nodes[n].content.ElementNode?
    case VisitText(n) => st.nodes[n].content.TextNode? || st.nodes[n].content.CDataNode?
    case VisitComment(n) => st.nodes[n].content.CommentNode?
  }

  /** Every entry shows a fitting node at or below `top`. */
  predicate Within(st: Store, top: NodeId, t: seq<Entry>)
    requires Valid(st)
  {
    forall k :: 0 <= k < |t| ==> VisitFits(st, t[k].visit) && Under(st, top, t[k].visit.node)
  }

  /** The shape every visitor walk below the document has. */
  predicate WellStopped(w: Walk)
  {
    && w.decision != StepIn
    && StopsOnlyLast(w.entries)
    && (w.decision == Stop <==> EndsWithStop(w.entries))
  }

  lemma WithinMonotone(st: Store, a: NodeId, b: NodeId, t: seq<Entry>)
    requires Valid(st) && b in st.nodes && Under(st, a, b) && Within(st, b, t)
    ensures Within(st, a, t)
  {
    forall k | 0 <= k < |t| ensures Under(st, a, t[k].visit.node) {
      UnderTransitive(st, a, b, t[k].visit.node);
    }
  }

  /**
   * `Element.traverse(visitor:document:)`: visits `e`; on `StepIn` walks the
   * children and passes up `Stop` or `Next` (never `StepIn`).
   */
  function ElementTraverse(st: Store, v: Visitor, e: NodeId, hist: seq<Entry>): (r: Walk)
    requires Valid(st) && IsElement(st, e)
    ensures |r.entries| > 0 && r.entries[0] == Entry(VisitElement(e), v(hist, VisitElement(e)))
    ensures r.entries[0].decision != StepIn ==> r.entries == [r.entries[0]] && r.decision == r.entries[0].decision
    ensures WellStopped(r)
    ensures Within(st, e, r.entries)
    decreases st.next - e, 1
  {
    assert NodeOk(st, e);
    var first := Entry(VisitElement(e), v(hist, VisitElement(e)));
    assert Under(st, e, e) by { ChildAncestorsOfSelf(st, e); }
    if first.decision == StepIn then
      var w := TraverseChildren(st, v, e, 0, hist + [first]);
      ThenWellStopped(Walk([first], Next), w);
      WithinAppend(st, e, [first], w.entries);
      Walk([first] + w.entries, if w.decision == Stop then Stop else Next)
    else
      Walk([first], first.decision)
  }

  lemma ChildAncestorsOfSelf(st: Store, x: NodeId)
    requires Valid(st) && x in st.nodes
    ensures Under(st, x, x)
  {
  }

  /**
   * `Element.traverseChildren(visitor:document:)` from the `i`-th child on:
   * the first `Stop` ends the loop and is passed up; otherwise `Next`.
   */
  function TraverseChildren(st: Store, v: Visitor, e: NodeId, i: nat, hist: seq<Entry>): (r: Walk)
    requires Valid(st) && IsElement(st, e) && i <= |st.nodes[e].children|
    ensures WellStopped(r)
    ensures Within(st, e, r.entries)
    decreases st.next - e, 0, |st.nodes[e].children| - i
  {
    assert NodeOk(st, e);
    var cs := st.nodes[e].children;
    if i == |cs| then Walk([], Next)
    else
      var c := cs[i];
      assert ChildOk(st, e, c);
      assert NodeOk(st, c);
      ChildAncestors(st, e, c);
      var w := VisitChild(st, v, c, hist);
      WithinMonotone(st, e, c, w.entries);
      if w.decision == Stop then w
      else
        var rest := TraverseChildren(st, v, e, i + 1, hist + w.entries);
        ThenWellStopped(w, rest);
        WithinAppend(st, e, w.entries, rest.entries);
        Walk(w.entries + rest.entries, rest.decision)
  }

  /** A walk that did not stop, followed by another, has the shape of one walk. */
  lemma ThenWellStopped(w: Walk, rest: Walk)
    requires WellStopped(w) && w.decision != Stop && WellStopped(rest)
    ensures WellStopped(Walk(w.entries + rest.entries, rest.decision))
  {
    var t := w.entries + rest.entries;
    forall k | 0 <= k < |t| - 1 ensures t[k].decision != Stop {
      if k >= |w.entries| { assert t[k] == rest.entries[k - |w.entries|]; }
    }
    if |rest.entries| == 0 {
      assert t == w.entries;
    } else {
      assert t[|t| - 1] == rest.entries[|rest.entries| - 1];
    }
  }

  lemma WithinAppend(st: Store, top: NodeId, a: seq<Entry>, b: seq<Entry>)
    requires Valid(st) && Within(st, top, a) && Within(st, top, b)
    ensures Within(st, top, a + b)
  {
    forall k | 0 <= k < |a + b|
      ensures VisitFits(st, (a + b)[k].visit) && Under(st, top, (a + b)[k].visit.node)
    {
      if k >= |a| { assert (a + b)[k] == b[k - |a|]; }
    }
  }

  /**
   * One pass of the loop in `traverseChildren`. An element child is visited;
   * on `StepIn` it is handed to `Element.traverse`, which visits it again.
   */
  function VisitChild(st: Store, v: Visitor, c: NodeId, hist: seq<Entry>): (r: Walk)
    requires Valid(st) && c in st.nodes
    ensures WellStopped(r)
    ensures Within(st, c, r.entries)
    ensures (st.nodes[c].content.InstructionNode? || st.nodes[c].content.AttributeNode?) ==> r.entries == []
    ensures st.nodes[c].content.ElementNode? ==>
              |r.entries| > 0 && r.entries[0] == Entry(VisitElement(c), v(hist, VisitElement(c)))
    ensures st.nodes[c].content.ElementNode? && r.entries[0].decision == StepIn ==>
              |r.entries| >= 2 && r.entries[1].visit == VisitElement(c)
    decreases st.next - c, 2
  {
    assert NodeOk(st, c);
    var n := st.nodes[c].content;
    if n.ElementNode? then
      var first := Entry(VisitElement(c), v(hist, VisitElement(c)));
      if first.decision == StepIn then
        var w := ElementTraverse(st, v, c, hist + [first]);
        ThenWellStopped(Walk([first], Next), w);
        WithinAppend(st, c, [first], w.entries);
        Walk([first] + w.entries, w.decision)
      else
        Walk([first], first.decision)
    else if n.TextNode? || n.CDataNode? then
      var d := v(hist, VisitText(c));
      Walk([Entry(VisitText(c), d)], if d == StepIn then Next else d)
    else if n.CommentNode? then
      var d := v(hist, VisitComment(c));
      Walk([Entry(VisitComment(c), d)], if d == StepIn then Next else d)
    else
      Walk([], Next)
  }

  /**
   * `Document.traverse(visitor:)`: visits the document; on `StepIn` walks the
   * document element, if any. The decision coming back is dropped.
   */
  function DocumentTraverse(st: Store, v: Visitor, d: NodeId): (r: seq<Entry>)
    requires Valid(st) && IsDocument(st, d)
    ensures |r| > 0 && r[0] == Entry(VisitDocument(d), v([], VisitDocument(d)))
    ensures r[0].decision != StepIn || st.nodes[d].content.documentElement.None? ==> r == [r[0]]
    ensures StopsOnlyLast(r[1..])
    ensures Within(st, d, r)
  {
    assert NodeOk(st, d);
    var first := Entry(VisitDocument(d), v([], VisitDocument(d)));
    ChildAncestorsOfSelf(st, d);
    match st.nodes[d].content.documentElement
    case Some(root) =>
      if first.decision == StepIn then
        var w := ElementTraverse(st, v, root, [first]);
        assert RootOk(st, d, root);
        ChildAncestors(st, d, root);
        WithinMonotone(st, d, root, w.entries);
        assert ([first] + w.entries)[1..] == w.entries;
        [first] + w.entries
      else [first]
    case None => [first]
  }

  // ------------------------------------------------------------ reference: visiting everything

  /** The visitor that always descends. */
  function AlwaysStepIn(): Visitor
  {
    (h: seq<Entry>, x: Visit) => StepIn
  }

  function Visits(t: seq<Entry>): (r: seq<Visit>)
    ensures |r| == |t| && forall k :: 0 <= k < |t| ==> r[k] == t[k].visit
  {
    if |t| == 0 then [] else [t[0].visit] + Visits(t[1..])
  }

  lemma {:induction false} VisitsAppend(a: seq<Entry>, b: seq<Entry>)
    ensures Visits(a + b) == Visits(a) + Visits(b)
    decreases |a|
  {
    if |a| == 0 {
      assert a + b == b;
    } else {
      assert (a + b)[1..] == a[1..] + b;
      VisitsAppend(a[1..], b);
    }
  }

  /**
   * Document order of the nodes a walk can show, written without decisions:
   * an element, then for each child an element child listed once for the
   * visit in the loop and again for its own subtree, a text or CDATA node,
   * or a comment.
   */
  function Preorder(st: Store, e: NodeId): seq<Visit>
    requires Valid(st) && IsElement(st, e)
    decreases st.next - e, 1
  {
    assert NodeOk(st, e);
    [VisitElement(e)] + ChildrenPreorder(st, e, 0)
  }

  function ChildrenPreorder(st: Store, e: NodeId, i: nat): seq<Visit>
    requires Valid(st) && IsElement(st, e) && i <= |st.nodes[e].children|
    decreases st.next - e, 0, |st.nodes[e].children| - i
  {
    assert NodeOk(st, e);
    var cs := st.nodes[e].children;
    if i == |cs| then []
    else
      assert ChildOk(st, e, cs[i]);
      NodePreorder(st, cs[i]) + ChildrenPreorder(st, e, i + 1)
  }

  function NodePreorder(st: Store, c: NodeId): seq<Visit>
    requires Valid(st) && c in st.nodes
    decreases st.next - c, 2
  {
    assert NodeOk(st, c);
    var n := st.nodes[c].content;
    if n.ElementNode? then [VisitElement(c)] + Preorder(st, c)
    else if n.TextNode? || n.CDataNode? then [VisitText(c)]
    else if n.CommentNode? then [VisitComment(c)]
    else []
  }

  /**
   * A visitor that always answers `StepIn` is shown every element, text,
   * CDATA and comment node of the subtree in document order, every element
   * below `e` twice in a row, and the walk ends with `Next`.
   */
  lemma {:induction false} AlwaysStepInVisitsAll(st: Store, e: NodeId, hist: seq<Entry>)
    requires Valid(st) && IsElement(st, e)
    ensures var w := ElementTraverse(st, AlwaysStepIn(), e, hist);
            Visits(w.entries) == Preorder(st, e) && w.decision == Next
    decreases st.next - e, 1
  {
    assert NodeOk(st, e);
    var first := Entry(VisitElement(e), StepIn);
    ChildrenStepInVisitsAll(st, e, 0, hist + [first]);
    var w := TraverseChildren(st, AlwaysStepIn(), e, 0, hist + [first]);
    VisitsAppend([first], w.entries);
  }

  lemma {:induction false} ChildrenStepInVisitsAll(st: Store, e: NodeId, i: nat, hist: seq<Entry>)
    requires Valid(st) && IsElement(st, e) && i <= |st.nodes[e].children|
    ensures var w := TraverseChildren(st, AlwaysStepIn(), e, i, hist);
            Visits(w.entries) == ChildrenPreorder(st, e, i) && w.decision == Next
    decreases st.next - e, 0, |st.nodes[e].children| - i
  {
    assert NodeOk(st, e);
    if i < |st.nodes[e].children| {
      var c := st.nodes[e].children[i];
      assert ChildOk(st, e, c);
      NodeStepInVisitsAll(st, c, hist);
      var w := VisitChild(st, AlwaysStepIn(), c, hist);
      ChildrenStepInVisitsAll(st, e, i + 1, hist + w.entries);
      ChildrenStepCombine(st, e, i, hist);
    }
  }

  /** The child's walk and the rest of the loop, each as the reference says, make the loop's walk as the reference says. */
  lemma ChildrenStepCombine(st: Store, e: NodeId, i: nat, hist: seq<Entry>)
    requires Valid(st) && IsElement(st, e) && i < |st.nodes[e].children|
    requires st.nodes[e].children[i] in st.nodes
    requires var w := VisitChild(st, AlwaysStepIn(), st.nodes[e].children[i], hist);
             Visits(w.entries) == NodePreorder(st, st.nodes[e].children[i]) && w.decision == Next
    requires var w := VisitChild(st, AlwaysStepIn(), st.nodes[e].children[i], hist);
             var rest := TraverseChildren(st, AlwaysStepIn(), e, i + 1, hist + w.entries);
             Visits(rest.entries) == ChildrenPreorder(st, e, i + 1) && rest.decision == Next
    ensures var all := TraverseChildren(st, AlwaysStepIn(), e, i, hist);
            Visits(all.entries) == ChildrenPreorder(st, e, i) && all.decision == Next
  {
    var v := AlwaysStepIn();
    var w := VisitChild(st, v, st.nodes[e].children[i], hist);
    var rest := TraverseChildren(st, v, e, i + 1, hist + w.entries);
    TraverseChildrenUnfold(st, v, e, i, hist);
    ChildrenPreorderUnfold(st, e, i);
    VisitsAppend(w.entries, rest.entries);
  }

  /** One pass of the loop that does not stop: the child's walk, then the rest of the loop. */
  lemma TraverseChildrenUnfold(st: Store, v: Visitor, e: NodeId, i: nat, hist: seq<Entry>)
    requires Valid(st) && IsElement(st, e) && i < |st.nodes[e].children|
    requires st.nodes[e].children[i] in st.nodes
    requires VisitChild(st, v, st.nodes[e].children[i], hist).decision != Stop
    ensures var w := VisitChild(st, v, st.nodes[e].children[i], hist);
            var rest := TraverseChildren(st, v, e, i + 1, hist + w.entries);
            TraverseChildren(st, v, e, i, hist) == Walk(w.entries + rest.entries, rest.decision)
  {
  }

  lemma ChildrenPreorderUnfold(st: Store, e: NodeId, i: nat)
    requires Valid(st) && IsElement(st, e) && i < |st.nodes[e].children|
    requires st.nodes[e].children[i] in st.nodes
    ensures ChildrenPreorder(st, e, i) == NodePreorder(st, st.nodes[e].children[i]) + ChildrenPreorder(st, e, i + 1)
  {
  }

  lemma {:induction false} NodeStepInVisitsAll(st: Store, c: NodeId, hist: seq<Entry>)
    requires Valid(st) && c in st.nodes
    ensures var w := VisitChild(st, AlwaysStepIn(), c, hist);
            Visits(w.entries) == NodePreorder(st, c) && w.decision == Next
    decreases st.next - c, 2
  {
    assert NodeOk(st, c);
    if st.nodes[c].content.ElementNode? {
      var v := AlwaysStepIn();
      var first := Entry(VisitElement(c), StepIn);
      AlwaysStepInVisitsAll(st, c, hist + [first]);
      VisitsAppend([first], ElementTraverse(st, v, c, hist + [first]).entries);
    }
  }

  // ------------------------------------------------------------ handler walk

  /** The callbacks of `DocumentHandler`; `Characters` stands for `textNode`, which CDATA nodes reach too. */
  datatype Event =
    | StartDocument(node: NodeId)
    | EndDocument(node: NodeId)
    | StartElement(node: NodeId)
    | EndElement(node: NodeId)
    | Characters(node: NodeId)
    | Comment(node: NodeId)

  /** `Element.traverse(handler:document:)`. */
  function ElementEvents(st: Store, e: NodeId): (r: seq<Event>)
    requires Valid(st) && IsElement(st, e)
    ensures |r| >= 2 && r[0] == StartElement(e) && r[|r| - 1] == EndElement(e)
    decreases st.next - e, 1
  {
    assert NodeOk(st, e);
    [StartElement(e)] + ChildEvents(st, e, 0) + [EndElement(e)]
  }

  function ChildEvents(st: Store, e: NodeId, i: nat): seq<Event>
    requires Valid(st) && IsElement(st, e) && i <= |st.nodes[e].children|
    decreases st.next - e, 0, |st.nodes[e].children| - i
  {
    assert NodeOk(st, e);
    var cs := st.nodes[e].children;
    if i == |cs| then []
    else
      assert ChildOk(st, e, cs[i]);
      NodeEvents(st, cs[i]) + ChildEvents(st, e, i + 1)
  }

  /** The events of one child: a CDATA node is reported as text, an instruction not at all. */
  function NodeEvents(st: Store, c: NodeId): (r: seq<Event>)
    requires Valid(st) && c in st.nodes
    ensures st.nodes[c].content.CDataNode? || st.nodes[c].content.TextNode? ==> r == [Characters(c)]
    ensures st.nodes[c].content.InstructionNode? || st.nodes[c].content.AttributeNode? ==> r == []
    decreases st.next - c, 2
  {
    assert NodeOk(st, c);
    var n := st.nodes[c].content;
    if n.ElementNode? then ElementEvents(st, c)
    else if n.TextNode? || n.CDataNode? then [Characters(c)]
    else if n.CommentNode? then [Comment(c)]
    else []
  }

  /** `Document.traverse(handler:)`. */
  function DocumentEvents(st: Store, d: NodeId): (r: seq<Event>)
    requires Valid(st) && IsDocument(st, d)
    ensures |r| >= 2 && r[0] == StartDocument(d) && r[|r| - 1] == EndDocument(d)
  {
    assert NodeOk(st, d);
    var body := match st.nodes[d].content.documentElement
      case None => []
      case Some(root) => ElementEvents(st, root);
    [StartDocument(d)] + body + [EndDocument(d)]
  }

  // ------------------------------------------------------------ nesting

  /**
   * Replays the element events against the stack of open elements,
   * innermost last; `None` when an end does not close the innermost open
   * element. Other events leave the stack alone.
   */
  function Replay(events: seq<Event>, open: seq<NodeId>): Option<seq<NodeId>>
  {
    if |events| == 0 then Some(open)
    else match events[0]
      case StartElement(e) => Replay(events[1..], open + [e])
      case EndElement(e) =>
        if |open| > 0 && open[|open| - 1] == e then Replay(events[1..], open[..|open| - 1]) else None
      case _ => Replay(events[1..], open)
  }

  /** Replaying a concatenation replays the parts one after the other. */
  lemma {:induction false} ReplayAppend(a: seq<Event>, b: seq<Event>, open: seq<NodeId>)
    ensures Replay(a + b, open) == (match Replay(a, open) case None => None case Some(s) => Replay(b, s))
    decreases |a|
  {
    if |a| > 0 {
      assert (a + b)[0] == a[0] && (a + b)[1..] == a[1..] + b;
      match a[0]
      case StartElement(e) => ReplayAppend(a[1..], b, open + [e]);
      case EndElement(e) =>
        if |open| > 0 && open[|open| - 1] == e {
          ReplayAppend(a[1..], b, open[..|open| - 1]);
        }
      case _ => ReplayAppend(a[1..], b, open);
    } else {
      assert a + b == b;
    }
  }

  /** Every element's events close exactly what they open, on top of any stack. */
  lemma {:induction false} ElementEventsNest(st: Store, e: NodeId, open: seq<NodeId>)
    requires Valid(st) && IsElement(st, e)
    ensures Replay(ElementEvents(st, e), open) == Some(open)
    decreases st.next - e, 1
  {
    assert NodeOk(st, e);
    var mid := ChildEvents(st, e, 0);
    ChildEventsNest(st, e, 0, open + [e]);
    ReplayAppend([StartElement(e)], mid + [EndElement(e)], open);
    ReplayAppend(mid, [EndElement(e)], open + [e]);
    assert [StartElement(e)] + mid + [EndElement(e)] == [StartElement(e)] + (mid + [EndElement(e)]);
    assert (open + [e])[..|open + [e]| - 1] == open;
  }

  lemma {:induction false} ChildEventsNest(st: Store, e: NodeId, i: nat, open: seq<NodeId>)
    requires Valid(st) && IsElement(st, e) && i <= |st.nodes[e].children|
    ensures Replay(ChildEvents(st, e, i), open) == Some(open)
    decreases st.next - e, 0, |st.nodes[e].children| - i
  {
    assert NodeOk(st, e);
    var cs := st.nodes[e].children;
    if i < |cs| {
      assert ChildOk(st, e, cs[i]);
      assert NodeOk(st, cs[i]);
      if st.nodes[cs[i]].content.ElementNode? {
        ElementEventsNest(st, cs[i], open);
      }
      ChildEventsNest(st, e, i + 1, open);
      ReplayAppend(NodeEvents(st, cs[i]), ChildEvents(st, e, i + 1), open);
    }
  }

  /** The walk below an element starts only that element and nodes created after it. */
  lemma {:induction false} ElementEventsStartAtOrAfter(st: Store, e: NodeId)
    requires Valid(st) && IsElement(st, e)
    ensures forall x :: StartElement(x) in ElementEvents(st, e) ==> e <= x
    decreases st.next - e, 1
  {
    assert NodeOk(st, e);
    ChildEventsStartAfter(st, e, 0);
    forall x | StartElement(x) in ElementEvents(st, e) ensures e <= x {
      if StartElement(x) != StartElement(e) {
        assert StartElement(x) in ChildEvents(st, e, 0);
      }
    }
  }

  lemma {:induction false} ChildEventsStartAfter(st: Store, e: NodeId, i: nat)
    requires Valid(st) && IsElement(st, e) && i <= |st.nodes[e].children|
    ensures forall x :: StartElement(x) in ChildEvents(st, e, i) ==> e < x
    decreases st.next - e, 0, |st.nodes[e].children| - i
  {
    assert NodeOk(st, e);
    var cs := st.nodes[e].children;
    if i < |cs| {
      assert ChildOk(st, e, cs[i]);
      assert NodeOk(st, cs[i]);
      if st.nodes[cs[i]].content.ElementNode? {
        ElementEventsStartAtOrAfter(st, cs[i]);
      }
      ChildEventsStartAfter(st, e, i + 1);
      forall x | StartElement(x) in ChildEvents(st, e, i) ensures e < x {
        if StartElement(x) !in NodeEvents(st, cs[i]) {
          assert StartElement(x) in ChildEvents(st, e, i + 1);
        }
      }
    }
  }

  /** The handler sees properly nested start/end element events. */
  lemma DocumentEventsNest(st: Store, d: NodeId)
    requires Valid(st) && IsDocument(st, d)
    ensures Replay(DocumentEvents(st, d), []) == Some([])
  {
    assert NodeOk(st, d);
    var body := match st.nodes[d].content.documentElement
      case None => []
      case Some(root) => ElementEvents(st, root);
    if st.nodes[d].content.documentElement.Some? {
      ElementEventsNest(st, st.nodes[d].content.documentElement.value, []);
    }
    ReplayAppend([StartDocument(d)], body + [EndDocument(d)], []);
    ReplayAppend(body, [EndDocument(d)], []);
    assert [StartDocument(d)] + body + [EndDocument(d)] == [StartDocument(d)] + (body + [EndDocument(d)]);
  }
}
