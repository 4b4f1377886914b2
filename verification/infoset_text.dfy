/**
 * Text extraction and replacement of Infoset.swift (`nodeToText`) and
 * Infoset+Text.swift (`text`, `stringValue`).
 *
 * `nodeToText` comes in two readings. The one in Infoset.swift and
 * Select.swift is total: a text or CDATA node gives its value, an attribute
 * its value or "", an element its children's texts joined, any other node
 * "". Infoset+Text.swift calls an optional-returning one that is not part
 * of this model; `OptNodeText` reads it as "the same text, where a node
 * that contributes nothing gives no value", which is what the source's
 * tests fix: an attribute with a value gives it, an empty element gives none.
 */
module InfosetText {
  import opened Wrappers
  import opened Dom
  import opened Infoset
  import Strings

  /** `nodeToText(_:)`, total. */
  function NodeText(st: Store, n: NodeId): string
    requires Valid(st) && n in st.nodes
    decreases st.next - n, 1
  {
    assert NodeOk(st, n);
    match st.nodes[n].content
    case TextNode(v) => v
    case CDataNode(v) => v
    case AttributeNode(_, v) => v.GetOr("")
    case ElementNode(_, _, _, _) => ChildrenText(st, n, 0)
    case _ => ""
  }

  /** The texts of the children of `e` from the `i`-th on, joined. */
  function ChildrenText(st: Store, e: NodeId, i: nat): string
    requires Valid(st) && e in st.nodes && i <= |st.nodes[e].children|
    decreases st.next - e, 0, |st.nodes[e].children| - i
  {
    assert NodeOk(st, e);
    var cs := st.nodes[e].children;
    if i == |cs| then ""
    else
      assert ChildOk(st, e, cs[i]);
      NodeText(st, cs[i]) + ChildrenText(st, e, i + 1)
  }

  /** Two optional contributions in order: absent only when both are. */
  function Combine(a: Option<string>, b: Option<string>): (r: Option<string>)
    ensures r.None? <==> a.None? && b.None?
    ensures r.GetOr("") == a.GetOr("") + b.GetOr("")
  {
    if a.None? then b else if b.None? then a else Some(a.value + b.value)
  }

  /** The optional-returning `nodeToText`: `None` for a node that contributes no text at all. */
  function OptNodeText(st: Store, n: NodeId): Option<string>
    requires Valid(st) && n in st.nodes
    decreases st.next - n, 1
  {
    assert NodeOk(st, n);
    match st.nodes[n].content
    case TextNode(v) => Some(v)
    case CDataNode(v) => Some(v)
    case AttributeNode(_, v) => v
    case ElementNode(_, _, _, _) => ChildrenOptText(st, n, 0)
    case _ => None
  }

  function ChildrenOptText(st: Store, e: NodeId, i: nat): Option<string>
    requires Valid(st) && e in st.nodes && i <= |st.nodes[e].children|
    decreases st.next - e, 0, |st.nodes[e].children| - i
  {
    assert NodeOk(st, e);
    var cs := st.nodes[e].children;
    if i == |cs| then None
    else
      assert ChildOk(st, e, cs[i]);
      Combine(OptNodeText(st, cs[i]), ChildrenOptText(st, e, i + 1))
  }

  /**
   * The cases the source's tests fix for the optional reading: an attribute
   * gives its value or nothing, an element whose only child is a text node
   * gives that text, and an element without children gives nothing.
   */
  lemma OptNodeTextFixedCases(st: Store, n: NodeId)
    requires Valid(st) && n in st.nodes
    ensures st.nodes[n].content.AttributeNode? ==> OptNodeText(st, n) == st.nodes[n].content.attributeValue
    ensures st.nodes[n].content.ElementNode? && st.nodes[n].children == [] ==> OptNodeText(st, n).None?
    ensures && st.nodes[n].content.ElementNode? && |st.nodes[n].children| == 1
            && st.nodes[n].children[0] in st.nodes && st.nodes[st.nodes[n].children[0]].content.TextNode?
            ==> OptNodeText(st, n) == Some(st.nodes[st.nodes[n].children[0]].content.value)
  {
    assert NodeOk(st, n);
    if st.nodes[n].content.ElementNode? && |st.nodes[n].children| == 1 {
      var c := st.nodes[n].children[0];
      assert ChildOk(st, n, c);
      assert ChildrenOptText(st, n, 1) == None;
      assert ChildrenOptText(st, n, 0) == Combine(OptNodeText(st, c), None);
    }
  }

  /** Both readings give the same text; the optional one is absent only where the total one is "". */
  lemma {:induction false} OptNodeTextAgrees(st: Store, n: NodeId)
    requires Valid(st) && n in st.nodes
    ensures OptNodeText(st, n).GetOr("") == NodeText(st, n)
    decreases st.next - n, 1
  {
    assert NodeOk(st, n);
    if st.nodes[n].content.ElementNode? {
      ChildrenOptTextAgrees(st, n, 0);
    }
  }

  lemma {:induction false} ChildrenOptTextAgrees(st: Store, e: NodeId, i: nat)
    requires Valid(st) && e in st.nodes && i <= |st.nodes[e].children|
    ensures ChildrenOptText(st, e, i).GetOr("") == ChildrenText(st, e, i)
    decreases st.next - e, 0, |st.nodes[e].children| - i
  {
    assert NodeOk(st, e);
    var cs := st.nodes[e].children;
    if i < |cs| {
      assert ChildOk(st, e, cs[i]);
      OptNodeTextAgrees(st, cs[i]);
      ChildrenOptTextAgrees(st, e, i + 1);
    }
  }

  // ------------------------------------------------------------ getters

  /** The `text` getter of Infoset+Text.swift: each node's contribution, in selection order. */
  function Text(st: Store, nodes: seq<NodeId>): string
    requires Valid(st) && InStore(st, nodes)
  {
    if |nodes| == 0 then "" else OptNodeText(st, nodes[0]).GetOr("") + Text(st, nodes[1..])
  }

  /** The text of a concatenation is the concatenation of the texts. */
  lemma {:induction false} TextAppend(st: Store, a: seq<NodeId>, b: seq<NodeId>)
    requires Valid(st) && InStore(st, a) && InStore(st, b)
    ensures InStore(st, a + b)
    ensures Text(st, a + b) == Text(st, a) + Text(st, b)
    decreases |a|
  {
    if |a| == 0 {
      assert a + b == b;
    } else {
      var rest := a[1..];
      assert a == [a[0]] + rest;
      assert a + b == [a[0]] + (rest + b);
      TextAppend(st, rest, b);
      TextCons(st, a[0], rest);
      TextCons(st, a[0], rest + b);
      Strings.AppendAssoc(OptNodeText(st, a[0]).GetOr(""), Text(st, rest), Text(st, b));
    }
  }

  /** The text of a node followed by others: the node's text, then theirs. */
  lemma TextCons(st: Store, n: NodeId, rest: seq<NodeId>)
    requires Valid(st) && n in st.nodes && InStore(st, rest)
    ensures InStore(st, [n] + rest)
    ensures Text(st, [n] + rest) == OptNodeText(st, n).GetOr("") + Text(st, rest)
  {
    var s := [n] + rest;
    assert s[0] == n && s[1..] == rest;
  }

  /** `stringValue`: the contributions joined, or `None` when no node contributes. */
  function StringValue(st: Store, nodes: seq<NodeId>): (r: Option<string>)
    requires Valid(st) && InStore(st, nodes)
    ensures r.None? <==> forall k :: 0 <= k < |nodes| ==> OptNodeText(st, nodes[k]).None?
    ensures r.Some? ==> r.value == Text(st, nodes)
  {
    if |nodes| == 0 then None
    else
      var rest := StringValue(st, nodes[1..]);
      assert (forall k :: 0 <= k < |nodes| ==> OptNodeText(st, nodes[k]).None?)
             <==> OptNodeText(st, nodes[0]).None? && forall k :: 0 <= k < |nodes[1..]| ==> OptNodeText(st, nodes[1..][k]).None?;
      assert rest.None? ==> Text(st, nodes[1..]) == "" by {
        if rest.None? { NoContributionNoText(st, nodes[1..]); }
      }
      Combine(OptNodeText(st, nodes[0]), rest)
  }

  lemma {:induction false} NoContributionNoText(st: Store, nodes: seq<NodeId>)
    requires Valid(st) && InStore(st, nodes)
    requires forall k :: 0 <= k < |nodes| ==> OptNodeText(st, nodes[k]).None?
    ensures Text(st, nodes) == ""
    decreases |nodes|
  {
    if |nodes| > 0 {
      assert OptNodeText(st, nodes[0]).None?;
      NoContributionNoText(st, nodes[1..]);
    }
  }

  /** An empty selection has the text "" and no string value. */
  lemma EmptySelectionText(st: Store)
    requires Valid(st)
    ensures Text(st, []) == "" && StringValue(st, []) == None
  {
  }

  // ------------------------------------------------------------ setter

  /** `n` has exactly one child, a text node holding `v`. */
  predicate HoldsText(st: Store, n: NodeId, v: string)
  {
    && n in st.nodes && |st.nodes[n].children| == 1
    && st.nodes[n].children[0] in st.nodes
    && st.nodes[st.nodes[n].children[0]].content == TextNode(v)
  }

  /** `childNodes.removeAll()` followed by `appendText(v)` on one element; other nodes are left alone. */
  function ReplaceText(st: Store, n: NodeId, v: string): (r: Store)
    requires Valid(st) && n in st.nodes
    ensures Valid(r) && Grows(st, r)
    ensures IsElement(st, n) ==> HoldsText(r, n, v) && r.nodes[n].children[0] !in st.nodes
    ensures IsElement(st, n) ==> r.nodes[n].content == st.nodes[n].content && r.nodes[n].parent == st.nodes[n].parent
    ensures forall x | x in st.nodes && x != n :: r.nodes[x] == st.nodes[x]
    ensures !IsElement(st, n) ==> r == st
  {
    if IsElement(st, n) then
      var cleared := SetChildren(st, n, []);
      AppendText(cleared, n, v).store
    else st
  }

  /** The `text` setter: every selected element's children replaced by one text node holding `v`. */
  function SetText(st: Store, nodes: seq<NodeId>, v: string): (r: Store)
    requires Valid(st) && InStore(st, nodes)
    ensures Valid(r) && Grows(st, r)
    ensures forall k :: 0 <= k < |nodes| && IsElement(st, nodes[k]) ==> HoldsText(r, nodes[k], v)
    ensures forall x | x in st.nodes && IsElement(st, x) ::
              IsElement(r, x) && r.nodes[x].content == st.nodes[x].content && r.nodes[x].parent == st.nodes[x].parent
    ensures forall x | x in st.nodes && (x !in nodes || !IsElement(st, x)) :: r.nodes[x] == st.nodes[x]
    decreases |nodes|
  {
    if |nodes| == 0 then st
    else
      var first := ReplaceText(st, nodes[0], v);
      assert InStore(first, nodes[1..]);
      var r := SetText(first, nodes[1..], v);
      FirstStaysSet(st, first, r, nodes, v);
      OthersStay(st, first, r, nodes);
      r
  }

  /** Elements stay elements in place, and nodes the setter does not select stay as they were. */
  lemma OthersStay(st: Store, first: Store, r: Store, nodes: seq<NodeId>)
    requires |nodes| > 0 && InStore(st, nodes) && Grows(st, first) && Grows(first, r)
    requires forall x | x in st.nodes && x != nodes[0] :: first.nodes[x] == st.nodes[x]
    requires IsElement(st, nodes[0]) ==>
               IsElement(first, nodes[0]) && first.nodes[nodes[0]].content == st.nodes[nodes[0]].content
               && first.nodes[nodes[0]].parent == st.nodes[nodes[0]].parent
    requires !IsElement(st, nodes[0]) ==> first == st
    requires forall x | x in first.nodes && IsElement(first, x) ::
               IsElement(r, x) && r.nodes[x].content == first.nodes[x].content && r.nodes[x].parent == first.nodes[x].parent
    requires forall x | x in first.nodes && (x !in nodes[1..] || !IsElement(first, x)) :: r.nodes[x] == first.nodes[x]
    ensures forall x | x in st.nodes && IsElement(st, x) ::
              IsElement(r, x) && r.nodes[x].content == st.nodes[x].content && r.nodes[x].parent == st.nodes[x].parent
    ensures forall x | x in st.nodes && (x !in nodes || !IsElement(st, x)) :: r.nodes[x] == st.nodes[x]
  {
    forall x | x in st.nodes && (x !in nodes || !IsElement(st, x)) ensures r.nodes[x] == st.nodes[x] {
      if x != nodes[0] {
        assert first.nodes[x] == st.nodes[x];
        assert x !in nodes ==> x !in nodes[1..];
      }
    }
  }

  /** The text node written for the first selected element survives the rest of the setter. */
  lemma FirstStaysSet(st: Store, first: Store, r: Store, nodes: seq<NodeId>, v: string)
    requires |nodes| > 0 && InStore(st, nodes) && Grows(st, first) && Grows(first, r)
    requires IsElement(st, nodes[0]) ==> HoldsText(first, nodes[0], v) && first.nodes[nodes[0]].children[0] !in st.nodes
    requires forall x | x in first.nodes && (x !in nodes[1..] || !IsElement(first, x)) :: r.nodes[x] == first.nodes[x]
    requires forall k :: 0 <= k < |nodes[1..]| && IsElement(first, nodes[1..][k]) ==> HoldsText(r, nodes[1..][k], v)
    requires forall x | x in st.nodes && x != nodes[0] :: first.nodes[x] == st.nodes[x]
    requires IsElement(st, nodes[0]) ==> IsElement(first, nodes[0])
    ensures forall k :: 0 <= k < |nodes| && IsElement(st, nodes[k]) ==> HoldsText(r, nodes[k], v)
  {
    forall k | 0 <= k < |nodes| && IsElement(st, nodes[k]) ensures HoldsText(r, nodes[k], v) {
      if nodes[k] in nodes[1..] {
        var j :| 0 <= j < |nodes[1..]| && nodes[1..][j] == nodes[k];
        if nodes[k] != nodes[0] { assert first.nodes[nodes[k]] == st.nodes[nodes[k]]; }
      } else {
        assert nodes[k] == nodes[0];
        var t := first.nodes[nodes[0]].children[0];
        assert forall j :: 0 <= j < |nodes[1..]| ==> nodes[1..][j] in st.nodes;
        assert t !in nodes[1..];
      }
    }
  }

  /** Reading back what was written: each selected element's text is `v`. */
  lemma SetTextThenText(st: Store, nodes: seq<NodeId>, v: string, e: NodeId)
    requires Valid(st) && InStore(st, nodes) && e in nodes && IsElement(st, e)
    ensures var r := SetText(st, nodes, v);
            && e in r.nodes && NodeText(r, e) == v
            && InStore(r, [e]) && Text(r, [e]) == v && StringValue(r, [e]) == Some(v)
  {
    var r := SetText(st, nodes, v);
    var k :| 0 <= k < |nodes| && nodes[k] == e;
    assert HoldsText(r, e, v);
    HeldTextReads(r, e, v);
  }

  /** An element holding just the text node `v` reads back as `v` in every reading. */
  lemma HeldTextReads(r: Store, e: NodeId, v: string)
    requires Valid(r) && IsElement(r, e) && HoldsText(r, e, v)
    ensures NodeText(r, e) == v && InStore(r, [e]) && Text(r, [e]) == v && StringValue(r, [e]) == Some(v)
  {
    var t := r.nodes[e].children[0];
    assert NodeOk(r, e);
    assert ChildOk(r, e, t);
    assert NodeText(r, t) == v;
    assert ChildrenText(r, e, 1) == "";
    assert ChildrenText(r, e, 0) == v;
    assert OptNodeText(r, t) == Some(v);
    assert ChildrenOptText(r, e, 1) == None;
    assert OptNodeText(r, e) == Some(v);
    assert InStore(r, [e]);
  }
}
